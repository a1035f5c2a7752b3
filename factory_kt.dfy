/** The protocol-v3 frame decoder of the Kotlin core
    (core/.../factory/V3MessageFactory.kt): scan for the magic bytes, read the
    command, the length (capped), the checksum and the payload, check the
    checksum and dispatch on the command. */
module KotlinFactory {
  import opened Wire
  import opened Streams
  import opened Messages
  import opened Frames

  /** findMagic gives up after this many bytes. */
  const SCAN_LIMIT: nat := 1620000

  /** The largest payload length `read` accepts. */
  const MAX_PAYLOAD: int := 1600003

  /** A network message: the Kotlin NetworkMessage always holds a payload. */
  datatype NetworkMessage<O> = NetworkMessage(payload: MessagePayload<O>)

  /** The payload of an object message: what the payload factory made of its
      bytes, or, when the factory threw, a GenericPayload holding them. */
  datatype ObjectPayload<P> = Parsed(payload: P) | GenericPayload(version: nat, stream: nat, data: bytes)

  datatype ObjectMessage<P> = ObjectMessage(
    nonce: bytes, expiresTime: int64, objectType: nat, stream: nat, payload: ObjectPayload<P>)

  /** Factory.getObjectPayload(objectType, version, stream, data, size),
      which is not part of this model: a failure stands for any exception. */
  type PayloadFactory<P> = (nat, nat, nat, bytes, int) -> Result<P>

  /** CustomMessage.read(input, length), which is not part of this model; the
      custom message is kept as the bytes it returns. */
  type CustomReader = (bytes, int) -> Result<bytes>

  // ---------------------------------------------------------------------
  // findMagic.

  /** The state of the findMagic loop: the index into MAGIC of the next
      byte expected, or the number of bytes read when it returned. */
  datatype MagicScan = Scanning(pos: nat) | Found(consumed: nat)

  /** The findMagic loop after k bytes read from p on. As written, a
      mismatch sets `pos` to 0, or to 1 when the byte is MAGIC[0], and the
      `pos++` that follows runs on every branch. */
  function ScanFrom(d: bytes, p: nat, k: nat): (s: MagicScan)
    ensures s.Scanning? ==> s.pos < |MAGIC| && s.pos <= k && (k > 0 <==> s.pos > 0)
    ensures s.Scanning? && s.pos == 2 ==> StreamByte(d, p + k - 1) in {MAGIC[1], MAGIC[0]}
    ensures s.Scanning? && s.pos == 3 ==>
      StreamByte(d, p + k - 1) == MAGIC[2] && StreamByte(d, p + k - 2) in {MAGIC[1], MAGIC[0]}
    ensures s.Found? ==> (|MAGIC| <= s.consumed <= k &&
      StreamByte(d, p + s.consumed - 1) == MAGIC[3] && StreamByte(d, p + s.consumed - 2) == MAGIC[2] &&
      StreamByte(d, p + s.consumed - 3) in {MAGIC[1], MAGIC[0]})
  {
    if k == 0 then Scanning(0)
    else
      var s := ScanFrom(d, p, k - 1);
      var b := StreamByte(d, p + k - 1);
      if s.Found? then s
      else if b == MAGIC[s.pos] then (if s.pos + 1 == |MAGIC| then Found(k) else Scanning(s.pos + 1))
      else if s.pos > 0 && b == MAGIC[0] then Scanning(2)
      else Scanning(1)
  }

  lemma {:induction false} FoundStays(d: bytes, p: nat, i: nat, k: nat)
    requires i <= k && ScanFrom(d, p, i).Found?
    ensures ScanFrom(d, p, k) == ScanFrom(d, p, i)
    decreases k
  {
    if k > i {
      FoundStays(d, p, i, k - 1);
    }
  }

  /** findMagic: returns once the scan finds MAGIC, having read at most
      SCAN_LIMIT bytes, and fails with NodeException otherwise. On success
      the last two bytes read are MAGIC[2..4] and the one before them is
      MAGIC[1] or MAGIC[0]. */
  function FindMagicSpec(d: bytes, p: nat): (r: Outcome<()>)
    requires p <= |d|
    ensures r.Fail? ==> r.error == MagicNotFound && r.pos == Min(p + SCAN_LIMIT, |d|)
    ensures r.Ok? ==> (p + |MAGIC| <= r.pos <= Min(p + SCAN_LIMIT, |d|) &&
      d[r.pos - 2..r.pos] == MAGIC[2..] && d[r.pos - 3] in {MAGIC[1], MAGIC[0]})
  {
    var s := ScanFrom(d, p, SCAN_LIMIT);
    if s.Found? then
      assert StreamByte(d, p + s.consumed - 1) == 0xD9;
      Ok((), p + s.consumed)
    else Fail(MagicNotFound, Min(p + SCAN_LIMIT, |d|))
  }

  /** findMagic, reading one byte at a time. */
  method FindMagic(s: ByteStream) returns (r: Outcome<()>)
    requires s.Valid()
    modifies s
    ensures s.Valid() && r == FindMagicSpec(s.data, old(s.pos)) && s.pos == r.pos
  {
    ghost var p0 := s.pos;
    var pos := 0;
    for i := 0 to SCAN_LIMIT
      invariant s.Valid() && s.pos == Min(p0 + i, |s.data|)
      invariant ScanFrom(s.data, p0, i) == Scanning(pos)
    {
      var read := s.Read();
      var b := ToByte(read);
      assert b == StreamByte(s.data, p0 + i);
      if b == MAGIC[pos] {
        if pos + 1 == |MAGIC| {
          FoundStays(s.data, p0, i + 1, SCAN_LIMIT);
          return Ok((), s.pos);
        }
      } else if pos > 0 && b == MAGIC[0] {
        pos := 1;
      } else {
        pos := 0;
      }
      pos := pos + 1;
    }
    r := Fail(MagicNotFound, s.pos);
  }

  /** A stream that starts with MAGIC: findMagic returns after exactly its 4 bytes. */
  lemma {:induction false} FindMagicAligned(d: bytes, p: nat)
    requires p + |MAGIC| <= |d| && d[p..p + |MAGIC|] == MAGIC
    ensures FindMagicSpec(d, p) == Ok((), p + |MAGIC|)
  {
    assert d[p] == MAGIC[0] && d[p + 1] == MAGIC[1] && d[p + 2] == MAGIC[2] && d[p + 3] == MAGIC[3];
    assert ScanFrom(d, p, 1) == Scanning(1);
    assert ScanFrom(d, p, 2) == Scanning(2);
    assert ScanFrom(d, p, 3) == Scanning(3);
    assert ScanFrom(d, p, 4) == Found(4);
    FoundStays(d, p, 4, SCAN_LIMIT);
  }

  /** After one byte that does not start MAGIC, the scan expects MAGIC[1]
      and misses a MAGIC that starts right after it: a stream of one byte
      followed by MAGIC makes findMagic fail. */
  lemma {:induction false} FindMagicMissesShiftedMagic(x: byte)
    ensures FindMagicSpec([x] + MAGIC, 0) == Fail(MagicNotFound, 5)
  {
    var d := [x] + MAGIC;
    assert ScanFrom(d, 0, 1) == Scanning(1);
    assert ScanFrom(d, 0, 2) == Scanning(2);
    assert ScanFrom(d, 0, 3) == Scanning(1);
    StaysAtOne(d, 3, SCAN_LIMIT);
  }

  /** From the fourth byte on, nothing in [x] + MAGIC or past its end moves
      the scan off MAGIC[1]. */
  lemma {:induction false} StaysAtOne(d: bytes, i: nat, k: nat)
    requires |d| == 5 && d[3..] == [0xB4, 0xD9] && 3 <= i <= k && ScanFrom(d, 0, i) == Scanning(1)
    ensures ScanFrom(d, 0, k) == Scanning(1)
    decreases k
  {
    if k > i {
      StaysAtOne(d, i, k - 1);
      assert StreamByte(d, k - 1) in {0xB4, 0xD9, 0xFF};
    }
  }

  /** The other side of the same behaviour: any byte followed by BE B4 D9
      passes as MAGIC, which it is not unless that byte is E9. */
  lemma {:induction false} FindMagicAcceptsNonMagic(x: byte)
    requires x != MAGIC[0]
    ensures [x] + MAGIC[1..] != MAGIC
    ensures FindMagicSpec([x] + MAGIC[1..], 0) == Ok((), 4)
  {
    var d := [x] + MAGIC[1..];
    assert ScanFrom(d, 0, 1) == Scanning(1);
    assert ScanFrom(d, 0, 2) == Scanning(2);
    assert ScanFrom(d, 0, 3) == Scanning(3);
    assert ScanFrom(d, 0, 4) == Found(4);
    FoundStays(d, 0, 4, SCAN_LIMIT);
  }

  // ---------------------------------------------------------------------
  // getCommand.

  /** getCommand: 12 bytes, the command being the ASCII text before the
      first NUL, or all 12 bytes when there is none. */
  function CommandSpec(d: bytes, p: nat): (r: Outcome<string>)
    requires p <= |d|
    ensures r.pos <= |d|
    ensures r.Fail? ==> r.error == BadCommandPadding
    ensures r.Ok? ==>
      r.pos == Min(p + COMMAND_SIZE, |d|) && |r.value| <= COMMAND_SIZE &&
      forall i :: 0 <= i < |r.value| ==> r.value[i] != 0 as char
  {
    var w := Window(d, p, COMMAND_SIZE);
    CommandFoldMeaning(w, COMMAND_SIZE);
    match CommandFold(w, COMMAND_SIZE)
    case PaddingBroken(c) => Fail(BadCommandPadding, Min(p + c, |d|))
    case Reading(end) => Ok(AsciiString(w[..end]), Min(p + COMMAND_SIZE, |d|))
  }

  /** getCommand, filling a 12-byte array and tracking `end`. */
  method GetCommand(s: ByteStream) returns (r: Outcome<string>)
    requires s.Valid()
    modifies s
    ensures s.Valid() && r == CommandSpec(s.data, old(s.pos)) && s.pos == r.pos
  {
    ghost var p0 := s.pos;
    var bytes := new byte[COMMAND_SIZE](_ => 0);
    var end: int := bytes.Length;
    for i := 0 to bytes.Length
      invariant s.Valid() && s.pos == Min(p0 + i, |s.data|)
      invariant bytes[..i] == Window(s.data, p0, i)
      invariant CommandFold(Window(s.data, p0, i), COMMAND_SIZE) == Reading(end)
    {
      var read := s.Read();
      bytes[i] := ToByte(read);
      WindowSnoc(s.data, p0, i);
      assert Window(s.data, p0, i + 1)[..i] == Window(s.data, p0, i);
      if end == bytes.Length {
        if bytes[i] == 0 {
          end := i;
        }
      } else if bytes[i] != 0 {
        CommandBrokenStays(s.data, p0, i + 1, COMMAND_SIZE, COMMAND_SIZE);
        return Fail(BadCommandPadding, s.pos);
      }
      assert bytes[..i + 1] == bytes[..i] + [bytes[i]];
    }
    assert bytes[..end] == Window(s.data, p0, COMMAND_SIZE)[..end] by {
      assert bytes[..] == bytes[..bytes.Length];
    }
    r := Ok(AsciiString(bytes[..end]), s.pos);
  }

  /** getCommand consumes exactly 12 bytes; it fails exactly when a non-NUL
      byte follows a NUL, and otherwise returns the bytes before the first
      NUL, all of them non-NUL and all the rest NUL. */
  lemma {:induction false} CommandMeaning(d: bytes, p: nat)
    requires p + COMMAND_SIZE <= |d|
    ensures CommandSpec(d, p).Fail? <==> exists j, k :: p <= j < k < p + COMMAND_SIZE && d[j] == 0 && d[k] != 0
    ensures CommandSpec(d, p).Fail? ==> CommandSpec(d, p).error == BadCommandPadding
    ensures CommandSpec(d, p).Ok? ==>
      var v := CommandSpec(d, p).value;
      CommandSpec(d, p).pos == p + COMMAND_SIZE && |v| <= COMMAND_SIZE && v == AsciiString(d[p..p + |v|]) &&
      (forall j :: p <= j < p + |v| ==> d[j] != 0) && (forall j :: p + |v| <= j < p + COMMAND_SIZE ==> d[j] == 0)
  {
    var w := Window(d, p, COMMAND_SIZE);
    WindowInside(d, p, COMMAND_SIZE);
    CommandFoldMeaning(w, COMMAND_SIZE);
    if CommandSpec(d, p).Fail? {
      var j, k :| 0 <= j < k < |w| && w[j] == 0 && w[k] != 0;
      assert d[p + j] == 0 && d[p + k] != 0;
    } else {
      var end := CommandFold(w, COMMAND_SIZE).end;
      assert d[p..p + end] == w[..end];
      assert forall j, k :: 0 <= j < k < |w| && w[j] == 0 ==> w[k] == 0;
      forall j, k | p <= j < k < p + COMMAND_SIZE && d[j] == 0
        ensures d[k] == 0
      {
        assert w[j - p] == d[j] && w[k - p] == d[k];
      }
    }
  }

  /** A command name padded with NULs reads back as that name. */
  lemma {:induction false} CommandRoundTrip(name: string, d: bytes, p: nat)
    requires CommandName(name)
    requires p + COMMAND_SIZE <= |d| && d[p..p + COMMAND_SIZE] == CommandField(name)
    ensures CommandSpec(d, p) == Ok(name, p + COMMAND_SIZE)
  {
    WindowInside(d, p, COMMAND_SIZE);
    CommandFieldFold(name, COMMAND_SIZE);
    assert CommandField(name)[..|name|] == AsciiBytes(name);
  }

  // ---------------------------------------------------------------------
  // testChecksum, readObject, getPayload, read.

  /** testChecksum: no checksum byte differs from the byte at the same index
      of the payload's SHA-512. */
  function TestChecksum(checksum: bytes, payload: bytes, sha512: bytes -> Digest): (ok: bool)
    requires |checksum| <= 64
    ensures ok <==> checksum == sha512(payload)[..|checksum|]
  {
    var payloadChecksum := sha512(payload);
    forall i :: 0 <= i < |checksum| ==> checksum[i] == payloadChecksum[i]
  }

  /** readObject: after the header, `length` minus the header bytes counted
      go to the payload factory; if it throws, they become a GenericPayload. */
  function ObjectSpec<P>(d: bytes, p: nat, length: int, factory: PayloadFactory<P>): (r: Outcome<ObjectMessage<P>>)
    requires p <= |d|
    ensures r.pos <= |d|
    ensures r.Ok? ==>
      p + 22 <= |d| && r.pos == p + length && r.value.nonce == d[p..p + 8] &&
      ReadInt64(d, p + 8) == Ok(r.value.expiresTime, p + 16) && ReadUint32(d, p + 16) == Ok(r.value.objectType, p + 20)
  {
    var header := ObjectHeaderSpec(d, p);
    if header.Fail? then header.PropagateFailure() else
    var h := header.value;
    var data := ReadBytes(d, header.pos, length - (header.pos - p));
    if data.Fail? then data.PropagateFailure() else
    var payload := match factory(h.objectType, h.version, h.stream, data.value, |data.value|)
      case Success(x) => Parsed(x)
      case Failure(_) => GenericPayload(h.version, h.stream, data.value);
    Ok(ObjectMessage(h.nonce, h.expiresTime, h.objectType, h.stream, payload), data.pos)
  }

  /** readObject. */
  method ReadObject<P>(input: ByteStream, length: int, factory: PayloadFactory<P>) returns (r: Outcome<ObjectMessage<P>>)
    requires input.Valid()
    modifies input
    ensures input.Valid() && r == ObjectSpec(input.data, old(input.pos), length, factory) && input.pos == r.pos
  {
    var start := input.pos;
    var nonce :- input.ReadBytes(8);
    var expiresTime :- input.ReadInt64();
    var objectType :- input.ReadUint32();
    var version :- input.ReadVarInt();
    var stream :- input.ReadVarInt();
    var counted := input.pos - start;
    var data :- input.ReadBytes(length - counted);
    var payload: ObjectPayload<P>;
    var made := factory(objectType, version, stream, data, |data|);
    if made.Success? {
      payload := Parsed(made.value);
    } else {
      payload := GenericPayload(version, stream, data);
    }
    r := Ok(ObjectMessage(nonce, expiresTime, objectType, stream, payload), input.pos);
  }

  /** readObject hands the factory exactly the `length - counted` bytes after
      the header and ends at p + length; when the factory fails, those same
      bytes, with version and stream, make the GenericPayload. It fails when
      the header is longer than `length` or the input shorter. */
  lemma {:induction false} ObjectHandsRemainder<P>(d: bytes, p: nat, length: int, factory: PayloadFactory<P>)
    requires p <= |d| && ObjectHeaderSpec(d, p).Ok?
    ensures var header := ObjectHeaderSpec(d, p);
      var h, q := header.value, header.pos;
      var r := ObjectSpec(d, p, length, factory);
      (r.Ok? <==> q <= p + length <= |d|) &&
      (q > p + length ==> r == Fail(NegativeArraySize, q)) &&
      (r.Ok? ==>
        r.pos == p + length &&
        r.value.nonce == h.nonce && r.value.expiresTime == h.expiresTime &&
        r.value.objectType == h.objectType && r.value.stream == h.stream &&
        r.value.payload == match factory(h.objectType, h.version, h.stream, d[q..p + length], p + length - q)
          case Success(x) => Parsed(x)
          case Failure(_) => GenericPayload(h.version, h.stream, d[q..p + length]))
  {
  }

  /** getPayload: dispatch on the command; an unknown command gives no payload. */
  function PayloadSpec<P>(command: string, payload: bytes, length: int, factory: PayloadFactory<P>, custom: CustomReader)
    : (r: Result<Option<MessagePayload<ObjectMessage<P>>>>)
    ensures r.Success? && r.value.Some? ==> CommandOf(r.value.value) == command
    ensures r.Failure? ==> command in ["version", "addr", "inv", "getdata", "object", "custom"]
  {
    if command == "version" then
      var v := VersionSpec(payload, 0);
      if v.Fail? then Failure(v.error) else Success(Some(VersionMessage(v.value)))
    else if command == "verack" then Success(Some(VerAck))
    else if command == "addr" then
      var a := AddrSpec(payload, 0);
      if a.Fail? then Failure(a.error) else Success(Some(Addr(a.value)))
    else if command == "inv" then
      var v := VectorListSpec(payload, 0);
      if v.Fail? then Failure(v.error) else Success(Some(Inv(v.value)))
    else if command == "getdata" then
      var v := VectorListSpec(payload, 0);
      if v.Fail? then Failure(v.error) else Success(Some(GetData(v.value)))
    else if command == "object" then
      var o := ObjectSpec(payload, 0, length, factory);
      if o.Fail? then Failure(o.error) else Success(Some(Object(o.value)))
    else if command == "custom" then
      var c := custom(payload, length);
      if c.Failure? then Failure(c.error) else Success(Some(Custom(c.value)))
    else Success(None)
  }

  /** The commands getPayload knows. */
  predicate KnownCommand(command: string)
  {
    command in ["version", "verack", "addr", "inv", "getdata", "object", "custom"]
  }

  /** An unknown command gives no payload and no failure; a known one
      always gives a payload unless its parser fails. */
  lemma {:induction false} PayloadOfCommand<P>(command: string, payload: bytes, length: int, factory: PayloadFactory<P>, custom: CustomReader)
    ensures var r := PayloadSpec(command, payload, length, factory, custom);
      (!KnownCommand(command) <==> r == Success(None)) &&
      (r.Success? && r.value.Some? ==> KnownCommand(command))
  {
  }

  /** getPayload, parsing from a fresh stream over the payload bytes. */
  method GetPayload<P>(command: string, payload: bytes, length: int, factory: PayloadFactory<P>, custom: CustomReader)
    returns (r: Result<Option<MessagePayload<ObjectMessage<P>>>>)
    ensures r == PayloadSpec(command, payload, length, factory, custom)
  {
    var stream := new ByteStream(payload);
    if command == "version" {
      var v := ParseVersion(stream);
      r := if v.Fail? then Failure(v.error) else Success(Some(v.value));
    } else if command == "verack" {
      r := Success(Some(VerAck));
    } else if command == "addr" {
      var a := ParseAddr(stream);
      r := if a.Fail? then Failure(a.error) else Success(Some(a.value));
    } else if command == "inv" {
      var v := ParseInv(stream);
      r := if v.Fail? then Failure(v.error) else Success(Some(v.value));
    } else if command == "getdata" {
      var v := ParseGetData(stream);
      r := if v.Fail? then Failure(v.error) else Success(Some(v.value));
    } else if command == "object" {
      var o := ReadObject(stream, length, factory);
      r := if o.Fail? then Failure(o.error) else Success(Some(Object(o.value)));
    } else if command == "custom" {
      var c := custom(payload, length);
      r := if c.Failure? then Failure(c.error) else Success(Some(Custom(c.value)));
    } else {
      r := Success(None);
    }
  }

  /** read: the whole frame. The length field is read as uint32 and
      truncated to a JVM int; a length above MAX_PAYLOAD fails before the
      checksum is read. */
  function ReadSpec<P>(d: bytes, p: nat, sha512: bytes -> Digest, factory: PayloadFactory<P>, custom: CustomReader)
    : (r: Outcome<Option<NetworkMessage<ObjectMessage<P>>>>)
    requires p <= |d|
    ensures r.pos <= |d|
    ensures r.Ok? ==> p + 24 <= r.pos
  {
    var magic := FindMagicSpec(d, p);
    if magic.Fail? then magic.PropagateFailure() else
    var command := CommandSpec(d, magic.pos);
    if command.Fail? then command.PropagateFailure() else
    var lengthField := ReadUint32(d, command.pos);
    if lengthField.Fail? then lengthField.PropagateFailure() else
    var length := ToInt32(lengthField.value);
    if length > MAX_PAYLOAD then Fail(PayloadTooLarge, lengthField.pos) else
    var checksum := ReadBytes(d, lengthField.pos, 4);
    if checksum.Fail? then checksum.PropagateFailure() else
    var payloadBytes := ReadBytes(d, checksum.pos, length);
    if payloadBytes.Fail? then payloadBytes.PropagateFailure() else
    if !TestChecksum(checksum.value, payloadBytes.value, sha512) then Fail(ChecksumFailed, payloadBytes.pos) else
    var payload := PayloadSpec(command.value, payloadBytes.value, length, factory, custom);
    if payload.Failure? then Fail(payload.error, payloadBytes.pos)
    else Ok(match payload.value case None => None case Some(m) => Some(NetworkMessage(m)), payloadBytes.pos)
  }

  /** read. */
  method Read<P>(input: ByteStream, sha512: bytes -> Digest, factory: PayloadFactory<P>, custom: CustomReader)
    returns (r: Outcome<Option<NetworkMessage<ObjectMessage<P>>>>)
    requires input.Valid()
    modifies input
    ensures input.Valid() && r == ReadSpec(input.data, old(input.pos), sha512, factory, custom) && input.pos == r.pos
  {
    var _ :- FindMagic(input);
    var command :- GetCommand(input);
    var lengthField :- input.ReadUint32();
    var length := ToInt32(lengthField);
    if length > MAX_PAYLOAD {
      return Fail(PayloadTooLarge, input.pos);
    }
    var checksum :- input.ReadBytes(4);
    var payloadBytes :- input.ReadBytes(length);
    if TestChecksum(checksum, payloadBytes, sha512) {
      var payload := GetPayload(command, payloadBytes, length, factory, custom);
      if payload.Failure? {
        return Fail(payload.error, input.pos);
      }
      r := Ok(match payload.value case None => None case Some(m) => Some(NetworkMessage(m)), input.pos);
    } else {
      r := Fail(ChecksumFailed, input.pos);
    }
  }

  // ---------------------------------------------------------------------
  // Whole frames.

  /** The first 20 bytes of a frame: magic, command and length field read back. */
  lemma {:induction false} FrameHead(command: string, lengthField: nat, rest: bytes)
    requires CommandName(command) && lengthField < TWO_32
    ensures var d := MAGIC + CommandField(command) + BeBytes(lengthField, 4) + rest;
      FindMagicSpec(d, 0) == Ok((), 4) && CommandSpec(d, 4) == Ok(command, 16) &&
      ReadUint32(d, 16) == Ok(lengthField, 20)
  {
    Pow256Values();
    var d := MAGIC + CommandField(command) + BeBytes(lengthField, 4) + rest;
    assert d[0..4] == MAGIC;
    FindMagicAligned(d, 0);
    assert d[4..16] == CommandField(command);
    CommandRoundTrip(command, d, 4);
    assert d[16..20] == BeBytes(lengthField, 4);
    ReadUnsignedOf(d, 16, lengthField, 4);
  }

  /** A well-formed frame whose checksum is the payload's decodes to what
      getPayload makes of the payload, and read stops right after it. */
  lemma {:induction false} ReadValidFrame<P>(command: string, payload: bytes, rest: bytes,
                          sha512: bytes -> Digest, factory: PayloadFactory<P>, custom: CustomReader)
    requires CommandName(command) && |payload| <= MAX_PAYLOAD
    ensures var d := FrameBytes(command, |payload|, sha512(payload)[..4], payload) + rest;
      var end := 24 + |payload|;
      ReadSpec(d, 0, sha512, factory, custom) ==
        match PayloadSpec(command, payload, |payload|, factory, custom)
        case Failure(e) => Fail(e, end)
        case Success(None) => Ok(None, end)
        case Success(Some(m)) => Ok(Some(NetworkMessage(m)), end)
  {
    Pow256Values();
    var checksum := sha512(payload)[..4];
    var head := MAGIC + CommandField(command) + BeBytes(|payload|, 4);
    var d := FrameBytes(command, |payload|, checksum, payload) + rest;
    assert d == head + (checksum + payload + rest);
    FrameHead(command, |payload|, checksum + payload + rest);
    assert d[20..24] == checksum;
    assert d[24..24 + |payload|] == payload;
  }

  /** A frame whose checksum differs from the payload's fails after the
      payload has been read. */
  lemma {:induction false} ReadChecksumMismatch<P>(command: string, checksum: bytes, payload: bytes, rest: bytes,
                                sha512: bytes -> Digest, factory: PayloadFactory<P>, custom: CustomReader)
    requires CommandName(command) && |payload| <= MAX_PAYLOAD && |checksum| == 4
    requires checksum != sha512(payload)[..4]
    ensures ReadSpec(FrameBytes(command, |payload|, checksum, payload) + rest, 0, sha512, factory, custom)
      == Fail(ChecksumFailed, 24 + |payload|)
  {
    Pow256Values();
    var head := MAGIC + CommandField(command) + BeBytes(|payload|, 4);
    var d := FrameBytes(command, |payload|, checksum, payload) + rest;
    assert d == head + (checksum + payload + rest);
    FrameHead(command, |payload|, checksum + payload + rest);
    assert d[20..24] == checksum;
    assert d[24..24 + |payload|] == payload;
  }

  /** A length field above MAX_PAYLOAD that is still a positive JVM int fails
      right after the length field, whatever follows it. */
  lemma {:induction false} ReadOversize<P>(command: string, lengthField: nat, rest: bytes,
                        sha512: bytes -> Digest, factory: PayloadFactory<P>, custom: CustomReader)
    requires CommandName(command) && MAX_PAYLOAD < lengthField < TWO_31
    ensures ReadSpec(MAGIC + CommandField(command) + BeBytes(lengthField, 4) + rest, 0, sha512, factory, custom)
      == Fail(PayloadTooLarge, 20)
  {
    FrameHead(command, lengthField, rest);
  }

  /** A length field of 2^31 or more is a negative JVM int: it passes the
      cap and fails when the payload array is allocated. */
  lemma {:induction false} ReadNegativeLength<P>(command: string, lengthField: nat, checksum: bytes, rest: bytes,
                              sha512: bytes -> Digest, factory: PayloadFactory<P>, custom: CustomReader)
    requires CommandName(command) && TWO_31 <= lengthField < TWO_32 && |checksum| == 4
    ensures ReadSpec(MAGIC + CommandField(command) + BeBytes(lengthField, 4) + checksum + rest, 0, sha512, factory, custom)
      == Fail(NegativeArraySize, 24)
  {
    var d := MAGIC + CommandField(command) + BeBytes(lengthField, 4) + checksum + rest;
    assert d == MAGIC + CommandField(command) + BeBytes(lengthField, 4) + (checksum + rest);
    FrameHead(command, lengthField, checksum + rest);
    assert d[20..24] == checksum;
  }
}
