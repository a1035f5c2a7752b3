/** The parts of a network message frame that both decoders read byte by
    byte from the raw stream: the magic bytes and the 12-byte command field.

    A frame is MAGIC (4 bytes), a NUL-padded ASCII command (12 bytes), a
    uint32 payload length, a 4-byte checksum (the first bytes of SHA-512 of
    the payload), then the payload. */
module Frames {
  import opened Wire

  /** NetworkMessage.MAGIC_BYTES. */
  const MAGIC: bytes := [0xE9, 0xBE, 0xB4, 0xD9]

  /** The size of the command field. */
  const COMMAND_SIZE: nat := 12

  /** The bytes that `n` calls of `(byte) read()` return from position p on:
      the data, then 0xFF for every call past the end. */
  function Window(d: bytes, p: nat, n: nat): (w: bytes)
    ensures |w| == n && forall j :: 0 <= j < n ==> w[j] == StreamByte(d, p + j)
  {
    seq<byte>(n, j requires 0 <= j < n => StreamByte(d, p + j))
  }

  lemma {:induction false} WindowSnoc(d: bytes, p: nat, n: nat)
    ensures Window(d, p, n + 1) == Window(d, p, n) + [StreamByte(d, p + n)]
  {
  }

  /** Inside the data, the window is the data. */
  lemma {:induction false} WindowInside(d: bytes, p: nat, n: nat)
    requires p + n <= |d|
    ensures Window(d, p, n) == d[p..p + n]
  {
  }

  /** `new String(bytes, "ASCII")`: each byte below 128 is its character;
      any other byte decodes to the replacement character U+FFFD. */
  function AsciiString(b: bytes): (s: string)
    ensures |s| == |b|
    ensures forall i :: 0 <= i < |b| ==> s[i] == if b[i] < 128 then b[i] as char else '\U{FFFD}'
  {
    seq(|b|, i requires 0 <= i < |b| => if b[i] < 128 then b[i] as char else '\U{FFFD}')
  }

  /** A command name the protocol can carry: ASCII, no NUL, at most 12 characters. */
  predicate CommandName(s: string)
  {
    |s| <= COMMAND_SIZE && forall i :: 0 <= i < |s| ==> 0 < s[i] as int < 128
  }

  /** The ASCII bytes of a command name. */
  function AsciiBytes(s: string): (b: bytes)
    requires CommandName(s)
    ensures |b| == |s| && AsciiString(b) == s
    ensures forall i :: 0 <= i < |b| ==> b[i] != 0
  {
    seq<byte>(|s|, i requires 0 <= i < |s| => s[i] as int)
  }

  /** The 12-byte command field of a frame: the name, padded with NULs. */
  function CommandField(s: string): (f: bytes)
    requires CommandName(s)
    ensures |f| == COMMAND_SIZE
  {
    AsciiBytes(s) + seq(COMMAND_SIZE - |s|, _ => 0)
  }

  /** The state of the getCommand loop. While `Reading`, `end` is the index of
      the first NUL, or `noNul` (12 in the Kotlin decoder, -1 in the Java one)
      if none has been seen; a non-NUL byte after a NUL breaks the padding,
      after `consumed` bytes. */
  datatype CommandScan = Reading(end: int) | PaddingBroken(consumed: nat)

  /** The getCommand loop after reading the bytes `w`. */
  function CommandFold(w: bytes, noNul: int): (s: CommandScan)
    requires |w| <= COMMAND_SIZE && (noNul < 0 || noNul >= COMMAND_SIZE)
    ensures s.Reading? ==> s.end == noNul || 0 <= s.end < |w|
    ensures s.PaddingBroken? ==> 0 < s.consumed <= |w|
  {
    if w == [] then Reading(noNul)
    else
      var s := CommandFold(w[..|w| - 1], noNul);
      var b := w[|w| - 1];
      if s.PaddingBroken? then s
      else if s.end == noNul then (if b == 0 then Reading(|w| - 1) else s)
      else if b != 0 then PaddingBroken(|w|)
      else s
  }

  /** What the getCommand loop computes: the padding is broken exactly when a
      non-NUL byte follows a NUL, and then the loop stops right after the first
      such byte; otherwise `end` is the first NUL, or `noNul` when there is none. */
  lemma {:induction false} CommandFoldMeaning(w: bytes, noNul: int)
    requires |w| <= COMMAND_SIZE && (noNul < 0 || noNul >= COMMAND_SIZE)
    ensures CommandFold(w, noNul).PaddingBroken? <==>
      exists j, k :: 0 <= j < k < |w| && w[j] == 0 && w[k] != 0
    ensures CommandFold(w, noNul) == Reading(noNul) <==> forall j :: 0 <= j < |w| ==> w[j] != 0
    ensures CommandFold(w, noNul).Reading? && CommandFold(w, noNul).end != noNul ==>
      var e := CommandFold(w, noNul).end;
      0 <= e < |w| && w[e] == 0 && forall j :: 0 <= j < e ==> w[j] != 0
    ensures CommandFold(w, noNul).PaddingBroken? ==>
      var c := CommandFold(w, noNul).consumed;
      0 < c <= |w| && w[c - 1] != 0 && (exists j :: 0 <= j < c - 1 && w[j] == 0) &&
      forall j, k :: 0 <= j < k < c - 1 && w[j] == 0 ==> w[k] == 0
  {
    if w != [] {
      var n := |w|;
      var init := w[..n - 1];
      CommandFoldMeaning(init, noNul);
      assert forall j :: 0 <= j < n - 1 ==> init[j] == w[j];
      var s := CommandFold(init, noNul);
      if s.Reading? && s.end != noNul && w[n - 1] != 0 {
        assert w[s.end] == 0 && w[n - 1] != 0;
      }
    }
  }

  /** Once the padding is broken, reading more bytes changes nothing. */
  lemma {:induction false} CommandBrokenStays(d: bytes, p: nat, i: nat, n: nat, noNul: int)
    requires i <= n <= COMMAND_SIZE && (noNul < 0 || noNul >= COMMAND_SIZE)
    requires CommandFold(Window(d, p, i), noNul).PaddingBroken?
    ensures CommandFold(Window(d, p, n), noNul) == CommandFold(Window(d, p, i), noNul)
    decreases n
  {
    if n > i {
      CommandBrokenStays(d, p, i, n - 1, noNul);
      WindowSnoc(d, p, n - 1);
      assert Window(d, p, n)[..n - 1] == Window(d, p, n - 1);
    }
  }

  /** A command name padded with NULs reads back as that name: the first NUL
      ends it, or, for a 12-character name, there is no NUL at all. */
  lemma {:induction false} CommandFieldFold(s: string, noNul: int)
    requires CommandName(s) && (noNul < 0 || noNul >= COMMAND_SIZE)
    ensures CommandFold(CommandField(s), noNul) == Reading(if |s| < COMMAND_SIZE then |s| else noNul)
  {
    var f := CommandField(s);
    var name := AsciiBytes(s);
    assert forall j :: 0 <= j < |s| ==> f[j] == name[j] && f[j] != 0;
    assert forall j :: |s| <= j < COMMAND_SIZE ==> f[j] == 0;
    CommandFoldMeaning(f, noNul);
    if |s| < COMMAND_SIZE {
      assert f[|s|] == 0;
    }
  }

  /** A frame with the given command, length field, checksum and payload. */
  function FrameBytes(command: string, lengthField: nat, checksum: bytes, payload: bytes): (f: bytes)
    requires CommandName(command) && lengthField < TWO_32
  {
    Pow256Values();
    MAGIC + CommandField(command) + BeBytes(lengthField, 4) + checksum + payload
  }
}
