/** The older protocol-v3 frame decoder of the Java domain module
    (domain/.../factory/V3MessageFactory.java). It differs from the Kotlin one:
    it tests the magic bytes once instead of scanning for them, a command
    field without NUL cannot be decoded, there is no length cap, the object
    payload factory gets the rest of the stream and the whole length with no
    fallback, and an unknown command still yields a message. */
module JavaFactory {
  import opened Wire
  import opened Streams
  import opened Messages
  import opened Frames

  /** The Java NetworkMessage, whose payload may be null. */
  datatype NetworkMessage<O> = NetworkMessage(payload: Option<MessagePayload<O>>)

  datatype ObjectMessage<P> = ObjectMessage(
    nonce: bytes, expiresTime: int64, objectType: nat, version: nat, stream: nat, payload: P)

  /** Factory.getObjectPayload(objectType, version, stream, input, length),
      which is not part of this model: it gets the bytes left in the stream
      and the frame's whole length; a failure stands for any exception. */
  type PayloadFactory<P> = (nat, nat, nat, bytes, int) -> Result<P>

  // ---------------------------------------------------------------------
  // testMagic.

  /** testMagic from the i-th MAGIC byte on: it stops at the first byte that
      differs, having read it. */
  function MagicFrom(d: bytes, p: nat, i: nat): (r: Outcome<bool>)
    requires i <= |MAGIC|
    ensures r.Ok?
    ensures r.value <==> forall j :: i <= j < |MAGIC| ==> StreamByte(d, p + j) == MAGIC[j]
    ensures r.value ==> r.pos == Min(p + |MAGIC|, |d|)
    decreases |MAGIC| - i
  {
    if i == |MAGIC| then Ok(true, Min(p + |MAGIC|, |d|))
    else if MAGIC[i] != StreamByte(d, p + i) then Ok(false, Min(p + i + 1, |d|))
    else MagicFrom(d, p, i + 1)
  }

  /** A failed magic test stops right after the first byte that differs. */
  lemma {:induction false} MagicStopsAtMismatch(d: bytes, p: nat, i: nat, k: nat)
    requires i <= k < |MAGIC| && StreamByte(d, p + k) != MAGIC[k]
    requires forall j :: i <= j < k ==> StreamByte(d, p + j) == MAGIC[j]
    ensures MagicFrom(d, p, i) == Ok(false, Min(p + k + 1, |d|))
    decreases k - i
  {
    if i < k {
      MagicStopsAtMismatch(d, p, i + 1, k);
    }
  }

  /** testMagic: true exactly when the next 4 bytes are MAGIC. */
  function TestMagicSpec(d: bytes, p: nat): (r: Outcome<bool>)
    ensures r.Ok? && (r.value <==> Window(d, p, |MAGIC|) == MAGIC)
  {
    MagicFrom(d, p, 0)
  }

  /** testMagic. */
  method TestMagic(s: ByteStream) returns (r: bool)
    requires s.Valid()
    modifies s
    ensures s.Valid() && r == TestMagicSpec(s.data, old(s.pos)).value && s.pos == TestMagicSpec(s.data, old(s.pos)).pos
  {
    ghost var p0 := s.pos;
    for i := 0 to |MAGIC|
      invariant s.Valid() && s.pos == Min(p0 + i, |s.data|)
      invariant MagicFrom(s.data, p0, i) == MagicFrom(s.data, p0, 0)
    {
      var read := s.Read();
      assert ToByte(read) == StreamByte(s.data, p0 + i);
      if MAGIC[i] != ToByte(read) {
        return false;
      }
    }
    r := true;
  }

  // ---------------------------------------------------------------------
  // getCommand.

  /** getCommand: as in the Kotlin decoder, except that `end` starts at -1,
      so a field without NUL reaches `new String(bytes, 0, -1)` and throws. */
  function CommandSpec(d: bytes, p: nat): (r: Outcome<string>)
    requires p <= |d|
    ensures r.pos <= |d|
    ensures r.Fail? ==> r.error == BadCommandPadding || r.error == IndexOutOfBounds
    ensures r.Ok? ==>
      r.pos == Min(p + COMMAND_SIZE, |d|) && |r.value| < COMMAND_SIZE &&
      forall i :: 0 <= i < |r.value| ==> r.value[i] != 0 as char
  {
    var w := Window(d, p, COMMAND_SIZE);
    CommandFoldMeaning(w, -1);
    match CommandFold(w, -1)
    case PaddingBroken(c) => Fail(BadCommandPadding, Min(p + c, |d|))
    case Reading(end) =>
      if end == -1 then Fail(IndexOutOfBounds, Min(p + COMMAND_SIZE, |d|))
      else Ok(AsciiString(w[..end]), Min(p + COMMAND_SIZE, |d|))
  }

  /** getCommand, filling a 12-byte array and tracking `end`. */
  method GetCommand(s: ByteStream) returns (r: Outcome<string>)
    requires s.Valid()
    modifies s
    ensures s.Valid() && r == CommandSpec(s.data, old(s.pos)) && s.pos == r.pos
  {
    ghost var p0 := s.pos;
    var bytes := new byte[COMMAND_SIZE](_ => 0);
    var end: int := -1;
    for i := 0 to bytes.Length
      invariant s.Valid() && s.pos == Min(p0 + i, |s.data|)
      invariant bytes[..i] == Window(s.data, p0, i)
      invariant CommandFold(Window(s.data, p0, i), -1) == Reading(end)
    {
      var read := s.Read();
      bytes[i] := ToByte(read);
      WindowSnoc(s.data, p0, i);
      assert Window(s.data, p0, i + 1)[..i] == Window(s.data, p0, i);
      if end == -1 {
        if bytes[i] == 0 {
          end := i;
        }
      } else if bytes[i] != 0 {
        CommandBrokenStays(s.data, p0, i + 1, COMMAND_SIZE, -1);
        return Fail(BadCommandPadding, s.pos);
      }
      assert bytes[..i + 1] == bytes[..i] + [bytes[i]];
    }
    if end == -1 {
      return Fail(IndexOutOfBounds, s.pos);
    }
    assert bytes[..end] == Window(s.data, p0, COMMAND_SIZE)[..end] by {
      assert bytes[..] == bytes[..bytes.Length];
    }
    r := Ok(AsciiString(bytes[..end]), s.pos);
  }

  /** getCommand consumes 12 bytes; it fails exactly when a non-NUL byte
      follows a NUL or when there is no NUL at all, and otherwise returns the
      bytes before the first NUL. */
  lemma {:induction false} CommandMeaning(d: bytes, p: nat)
    requires p + COMMAND_SIZE <= |d|
    ensures CommandSpec(d, p).Fail? <==>
      (exists j, k :: p <= j < k < p + COMMAND_SIZE && d[j] == 0 && d[k] != 0) ||
      (forall j :: p <= j < p + COMMAND_SIZE ==> d[j] != 0)
    ensures CommandSpec(d, p).Ok? ==>
      var v := CommandSpec(d, p).value;
      CommandSpec(d, p).pos == p + COMMAND_SIZE && |v| < COMMAND_SIZE && v == AsciiString(d[p..p + |v|]) &&
      (forall j :: p <= j < p + |v| ==> d[j] != 0) && (forall j :: p + |v| <= j < p + COMMAND_SIZE ==> d[j] == 0)
  {
    var w := Window(d, p, COMMAND_SIZE);
    WindowInside(d, p, COMMAND_SIZE);
    CommandFoldMeaning(w, -1);
    var s := CommandFold(w, -1);
    if s.PaddingBroken? {
      var j, k :| 0 <= j < k < |w| && w[j] == 0 && w[k] != 0;
      assert d[p + j] == 0 && d[p + k] != 0;
    } else if s.end == -1 {
      assert forall j :: p <= j < p + COMMAND_SIZE ==> d[j] == w[j - p];
    } else {
      PaddingAt(d, p, s.end);
    }
  }

  /** The window at `p` is `e` non-NUL bytes followed by NULs only. */
  lemma {:induction false} PaddingAt(d: bytes, p: nat, e: nat)
    requires p + COMMAND_SIZE <= |d| && e < COMMAND_SIZE
    requires var w := d[p..p + COMMAND_SIZE];
      w[e] == 0 && (forall j :: 0 <= j < e ==> w[j] != 0) &&
      !exists j, k :: 0 <= j < k < |w| && w[j] == 0 && w[k] != 0
    ensures d[p + e] == 0 && d[p..p + e] == d[p..p + COMMAND_SIZE][..e]
    ensures forall j :: p <= j < p + e ==> d[j] != 0
    ensures forall j :: p + e <= j < p + COMMAND_SIZE ==> d[j] == 0
    ensures forall j, k :: p <= j < k < p + COMMAND_SIZE && d[j] == 0 ==> d[k] == 0
  {
    var w := d[p..p + COMMAND_SIZE];
    assert forall j, k :: 0 <= j < k < |w| && w[j] == 0 ==> w[k] == 0;
    forall j, k | p <= j < k < p + COMMAND_SIZE && d[j] == 0
      ensures d[k] == 0
    {
      assert w[j - p] == d[j] && w[k - p] == d[k];
    }
    forall j | p + e <= j < p + COMMAND_SIZE
      ensures d[j] == 0
    {
      assert w[j - p] == d[j];
    }
  }

  /** A command name shorter than 12 bytes, padded with NULs, reads back as
      that name; a 12-byte name has no NUL and fails. */
  lemma {:induction false} CommandRoundTrip(name: string, d: bytes, p: nat)
    requires CommandName(name)
    requires p + COMMAND_SIZE <= |d| && d[p..p + COMMAND_SIZE] == CommandField(name)
    ensures |name| < COMMAND_SIZE ==> CommandSpec(d, p) == Ok(name, p + COMMAND_SIZE)
    ensures |name| == COMMAND_SIZE ==> CommandSpec(d, p) == Fail(IndexOutOfBounds, p + COMMAND_SIZE)
  {
    WindowInside(d, p, COMMAND_SIZE);
    CommandFieldFold(name, -1);
    assert CommandField(name)[..|name|] == AsciiBytes(name);
  }

  // ---------------------------------------------------------------------
  // testChecksum, parseObject, getPayload, read.

  /** testChecksum: compares the checksum with the payload's SHA-512 byte by
      byte and returns false at the first difference. A checksum longer than
      the digest would overrun it; read only ever passes 4 bytes. */
  method TestChecksum(checksum: bytes, payload: bytes, sha512: bytes -> Digest) returns (ok: bool)
    requires |checksum| <= 64
    ensures ok <==> checksum == sha512(payload)[..|checksum|]
  {
    var payloadChecksum := sha512(payload);
    for i := 0 to |checksum|
      invariant checksum[..i] == payloadChecksum[..i]
    {
      if checksum[i] != payloadChecksum[i] {
        return false;
      }
      assert checksum[..i + 1] == checksum[..i] + [checksum[i]];
      assert payloadChecksum[..i + 1] == payloadChecksum[..i] + [payloadChecksum[i]];
    }
    assert checksum[..|checksum|] == checksum;
    ok := true;
  }

  /** parseObject: the payload factory reads on from the same stream and is
      told the frame's whole `length`; whatever it throws propagates. */
  function ObjectSpec<P>(d: bytes, p: nat, length: int, factory: PayloadFactory<P>): (r: Result<ObjectMessage<P>>)
    requires p <= |d|
    ensures r.Success? ==>
      p + 22 <= |d| && r.value.nonce == d[p..p + 8] &&
      ReadInt64(d, p + 8) == Ok(r.value.expiresTime, p + 16) && ReadUint32(d, p + 16) == Ok(r.value.objectType, p + 20)
  {
    var header := ObjectHeaderSpec(d, p);
    if header.Fail? then Failure(header.error) else
    var h := header.value;
    var payload := factory(h.objectType, h.version, h.stream, d[header.pos..], length);
    if payload.Failure? then Failure(payload.error)
    else Success(ObjectMessage(h.nonce, h.expiresTime, h.objectType, h.version, h.stream, payload.value))
  }

  /** parseObject. How far the payload factory reads is not modelled, so the
      stream position afterwards is left open. */
  method ParseObject<P>(input: ByteStream, length: int, factory: PayloadFactory<P>) returns (r: Result<ObjectMessage<P>>)
    requires input.Valid()
    modifies input
    ensures input.Valid() && r == ObjectSpec(input.data, old(input.pos), length, factory)
  {
    var nonce := input.ReadBytes(8);
    if nonce.Fail? { return Failure(nonce.error); }
    var expiresTime := input.ReadInt64();
    if expiresTime.Fail? { return Failure(expiresTime.error); }
    var objectType := input.ReadUint32();
    if objectType.Fail? { return Failure(objectType.error); }
    var version := input.ReadVarInt();
    if version.Fail? { return Failure(version.error); }
    var streamNumber := input.ReadVarInt();
    if streamNumber.Fail? { return Failure(streamNumber.error); }
    var payload := factory(objectType.value, version.value, streamNumber.value, input.data[input.pos..], length);
    if payload.Failure? {
      return Failure(payload.error);
    }
    r := Success(ObjectMessage(nonce.value, expiresTime.value, objectType.value, version.value, streamNumber.value, payload.value));
  }

  /** Unlike readObject in the Kotlin decoder, parseObject hands over the
      stream after the header together with the whole `length`, and a
      factory failure is the failure of the message. */
  lemma {:induction false} ObjectHandsWholeLength<P>(d: bytes, p: nat, length: int, factory: PayloadFactory<P>)
    requires p <= |d| && ObjectHeaderSpec(d, p).Ok?
    ensures var header := ObjectHeaderSpec(d, p);
      var h, q := header.value, header.pos;
      var made := factory(h.objectType, h.version, h.stream, d[q..], length);
      var r := ObjectSpec(d, p, length, factory);
      (made.Failure? <==> r.Failure?) &&
      (made.Failure? ==> r.error == made.error) &&
      (made.Success? ==> r.value.payload == made.value && r.value.nonce == d[p..p + 8] &&
                         r.value.version == h.version && r.value.stream == h.stream)
  {
  }

  /** getPayload: the `switch` on the command; an unknown command gives null. */
  function PayloadSpec<P>(command: string, payload: bytes, length: int, factory: PayloadFactory<P>)
    : (r: Result<Option<MessagePayload<ObjectMessage<P>>>>)
    ensures r.Success? && r.value.Some? ==> CommandOf(r.value.value) == command
    ensures r.Failure? ==> command in ["version", "addr", "inv", "getdata", "object"]
  {
    if command == "version" then
      var v := VersionSpec(payload, 0);
      if v.Fail? then Failure(v.error) else Success(Some(VersionMessage(v.value)))
    else if command == "verack" then Success(Some(VerAck))
    else if command == "addr" then
      var a := AddrSpec(payload, 0);
      if a.Fail? then Failure(a.error) else Success(Some(Addr(a.value)))
    else if command == "inv" then
      var v := VectorListSpec(payload, 0);
      if v.Fail? then Failure(v.error) else Success(Some(Inv(v.value)))
    else if command == "getdata" then
      var v := VectorListSpec(payload, 0);
      if v.Fail? then Failure(v.error) else Success(Some(GetData(v.value)))
    else if command == "object" then
      var o := ObjectSpec(payload, 0, length, factory);
      if o.Failure? then Failure(o.error) else Success(Some(Object(o.value)))
    else Success(None)
  }

  /** The commands the Java getPayload knows: no `custom`. */
  predicate KnownCommand(command: string)
  {
    command in ["version", "verack", "addr", "inv", "getdata", "object"]
  }

  lemma {:induction false} PayloadOfCommand<P>(command: string, payload: bytes, length: int, factory: PayloadFactory<P>)
    ensures var r := PayloadSpec(command, payload, length, factory);
      (!KnownCommand(command) <==> r == Success(None)) &&
      (r.Success? && r.value.Some? ==> KnownCommand(command))
  {
  }

  /** getPayload, parsing from a fresh stream over the payload bytes. */
  method GetPayload<P>(command: string, payload: bytes, length: int, factory: PayloadFactory<P>)
    returns (r: Result<Option<MessagePayload<ObjectMessage<P>>>>)
    ensures r == PayloadSpec(command, payload, length, factory)
  {
    var stream := new ByteStream(payload);
    if command == "version" {
      var v := ParseVersion(stream);
      r := if v.Fail? then Failure(v.error) else Success(Some(v.value));
    } else if command == "verack" {
      r := Success(Some(VerAck));
    } else if command == "addr" {
      var a := ParseAddr(stream);
      r := if a.Fail? then Failure(a.error) else Success(Some(a.value));
    } else if command == "inv" {
      var v := ParseInv(stream);
      r := if v.Fail? then Failure(v.error) else Success(Some(v.value));
    } else if command == "getdata" {
      var v := ParseGetData(stream);
      r := if v.Fail? then Failure(v.error) else Success(Some(v.value));
    } else if command == "object" {
      var o := ParseObject(stream, length, factory);
      r := if o.Failure? then Failure(o.error) else Success(Some(Object(o.value)));
    } else {
      r := Success(None);
    }
  }

  /** read: no message (null) when the magic test fails; otherwise the frame,
      with the length field truncated to a JVM int and no cap on it. */
  function ReadSpec<P>(d: bytes, p: nat, sha512: bytes -> Digest, factory: PayloadFactory<P>)
    : (r: Outcome<Option<NetworkMessage<ObjectMessage<P>>>>)
    requires p <= |d|
    ensures r.pos <= |d|
    ensures r.Ok? && r.value.None? <==> Window(d, p, |MAGIC|) != MAGIC
    ensures r.Ok? && r.value.Some? ==> p + 24 <= r.pos
  {
    var magic := TestMagicSpec(d, p);
    if !magic.value then Ok(None, magic.pos) else
    var command := CommandSpec(d, magic.pos);
    if command.Fail? then command.PropagateFailure() else
    var lengthField := ReadUint32(d, command.pos);
    if lengthField.Fail? then lengthField.PropagateFailure() else
    var length := ToInt32(lengthField.value);
    var checksum := ReadBytes(d, lengthField.pos, 4);
    if checksum.Fail? then checksum.PropagateFailure() else
    var payloadBytes := ReadBytes(d, checksum.pos, length);
    if payloadBytes.Fail? then payloadBytes.PropagateFailure() else
    if checksum.value != sha512(payloadBytes.value)[..4] then Fail(ChecksumFailed, payloadBytes.pos) else
    var payload := PayloadSpec(command.value, payloadBytes.value, length, factory);
    if payload.Failure? then Fail(payload.error, payloadBytes.pos)
    else Ok(Some(NetworkMessage(payload.value)), payloadBytes.pos)
  }

  /** read. */
  method Read<P>(input: ByteStream, sha512: bytes -> Digest, factory: PayloadFactory<P>)
    returns (r: Outcome<Option<NetworkMessage<ObjectMessage<P>>>>)
    requires input.Valid()
    modifies input
    ensures input.Valid() && r == ReadSpec(input.data, old(input.pos), sha512, factory) && input.pos == r.pos
  {
    var magic := TestMagic(input);
    if !magic {
      return Ok(None, input.pos);
    }
    var command :- GetCommand(input);
    var lengthField :- input.ReadUint32();
    var length := ToInt32(lengthField);
    var checksum :- input.ReadBytes(4);
    var payloadBytes :- input.ReadBytes(length);
    var valid := TestChecksum(checksum, payloadBytes, sha512);
    if valid {
      var payload := GetPayload(command, payloadBytes, length, factory);
      if payload.Failure? {
        return Fail(payload.error, input.pos);
      }
      r := Ok(Some(NetworkMessage(payload.value)), input.pos);
    } else {
      r := Fail(ChecksumFailed, input.pos);
    }
  }

  // ---------------------------------------------------------------------
  // Whole frames.

  /** Whatever follows, a stream whose first 4 bytes are not MAGIC gives no
      message and no failure. */
  lemma {:induction false} ReadBadMagic<P>(d: bytes, p: nat, sha512: bytes -> Digest, factory: PayloadFactory<P>)
    requires p <= |d| && Window(d, p, |MAGIC|) != MAGIC
    ensures ReadSpec(d, p, sha512, factory).Ok? && ReadSpec(d, p, sha512, factory).value == None
  {
  }

  lemma {:induction false} FrameHead(command: string, lengthField: nat, rest: bytes)
    requires CommandName(command) && |command| < COMMAND_SIZE && lengthField < TWO_32
    ensures var d := MAGIC + CommandField(command) + BeBytes(lengthField, 4) + rest;
      TestMagicSpec(d, 0) == Ok(true, 4) && CommandSpec(d, 4) == Ok(command, 16) &&
      ReadUint32(d, 16) == Ok(lengthField, 20)
  {
    Pow256Values();
    var d := MAGIC + CommandField(command) + BeBytes(lengthField, 4) + rest;
    assert d[0..4] == MAGIC;
    WindowInside(d, 0, 4);
    assert d[4..16] == CommandField(command);
    CommandRoundTrip(command, d, 4);
    assert d[16..20] == BeBytes(lengthField, 4);
    ReadUnsignedOf(d, 16, lengthField, 4);
  }

  /** A well-formed frame with a correct checksum always yields a message,
      holding what getPayload makes of the payload, and no payload for an
      unknown command. There is no cap: any length below 2^31 is read. */
  lemma {:induction false} ReadValidFrame<P>(command: string, payload: bytes, rest: bytes,
                          sha512: bytes -> Digest, factory: PayloadFactory<P>)
    requires CommandName(command) && |command| < COMMAND_SIZE && |payload| < TWO_31
    ensures var d := FrameBytes(command, |payload|, sha512(payload)[..4], payload) + rest;
      var end := 24 + |payload|;
      ReadSpec(d, 0, sha512, factory) ==
        match PayloadSpec(command, payload, |payload|, factory)
        case Failure(e) => Fail(e, end)
        case Success(m) => Ok(Some(NetworkMessage(m)), end)
    ensures !KnownCommand(command) ==>
      ReadSpec(FrameBytes(command, |payload|, sha512(payload)[..4], payload) + rest, 0, sha512, factory)
        == Ok(Some(NetworkMessage(None)), 24 + |payload|)
  {
    Pow256Values();
    var checksum := sha512(payload)[..4];
    var head := MAGIC + CommandField(command) + BeBytes(|payload|, 4);
    var d := FrameBytes(command, |payload|, checksum, payload) + rest;
    assert d == head + (checksum + payload + rest);
    FrameHead(command, |payload|, checksum + payload + rest);
    assert d[20..24] == checksum;
    assert d[24..24 + |payload|] == payload;
    PayloadOfCommand(command, payload, |payload|, factory);
  }

  /** A frame whose checksum differs from the payload's fails after the payload. */
  lemma {:induction false} ReadChecksumMismatch<P>(command: string, checksum: bytes, payload: bytes, rest: bytes,
                                sha512: bytes -> Digest, factory: PayloadFactory<P>)
    requires CommandName(command) && |command| < COMMAND_SIZE && |payload| < TWO_31 && |checksum| == 4
    requires checksum != sha512(payload)[..4]
    ensures ReadSpec(FrameBytes(command, |payload|, checksum, payload) + rest, 0, sha512, factory)
      == Fail(ChecksumFailed, 24 + |payload|)
  {
    Pow256Values();
    var head := MAGIC + CommandField(command) + BeBytes(|payload|, 4);
    var d := FrameBytes(command, |payload|, checksum, payload) + rest;
    assert d == head + (checksum + payload + rest);
    FrameHead(command, |payload|, checksum + payload + rest);
    assert d[20..24] == checksum;
    assert d[24..24 + |payload|] == payload;
  }
}
