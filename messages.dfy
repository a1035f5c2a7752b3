/** The network message entities and the payload parsers that the Kotlin
    decoder (core/.../factory/V3MessageFactory.kt) and the older Java decoder
    (domain/.../factory/V3MessageFactory.java) have in common: their
    `parseVersion`, `parseAddr`, `parseInv`, `parseGetData`, `parseAddress` and
    `parseInventoryVector` are the same code, so they are modelled once here.

    Each parser is a method that consumes a ByteStream, specified by a function
    of the stream's data and starting position; the lemmas relate those
    functions to the byte layouts they decode. */
module Messages {
  import opened Wire
  import opened Streams

  // ---------------------------------------------------------------------
  // Entities.

  /** NetworkAddress: time last seen, stream, services bitmask, 16-byte IP, port. */
  datatype NetworkAddress = NetworkAddress(time: int64, stream: nat, services: int64, ipv6: bytes, port: nat)

  /** InventoryVector: the 32-byte hash naming an object. */
  datatype InventoryVector = InventoryVector(hash: bytes)

  /** The `version` handshake message. */
  datatype Version = Version(
    version: int32, services: int64, timestamp: int64,
    addrRecv: NetworkAddress, addrFrom: NetworkAddress,
    nonce: int64, userAgent: bytes, streams: seq<nat>)

  /** The typed payload of a network message; `O` is the decoder's object message type. */
  datatype MessagePayload<O> =
    | VersionMessage(version: Version)
    | VerAck
    | Addr(addresses: seq<NetworkAddress>)
    | Inv(inventory: seq<InventoryVector>)
    | GetData(inventory: seq<InventoryVector>)
    | Object(obj: O)
    | Custom(data: bytes)

  /** The command name getPayload dispatches to each kind of payload. */
  function CommandOf<O>(m: MessagePayload<O>): string
  {
    match m
    case VersionMessage(_) => "version"
    case VerAck => "verack"
    case Addr(_) => "addr"
    case Inv(_) => "inv"
    case GetData(_) => "getdata"
    case Object(_) => "object"
    case Custom(_) => "custom"
  }

  /** The size in bytes of an address in its light and full wire forms. */
  const LIGHT_ADDRESS_SIZE: nat := 26
  const FULL_ADDRESS_SIZE: nat := 38
  const VECTOR_SIZE: nat := 32

  // ---------------------------------------------------------------------
  // Specifications of the parsers.

  /** parseAddress: in full form, int64 time and uint32 stream first; in light
      form both are zero and not read. Then int64 services, 16 bytes of IP,
      uint16 port. */
  function AddressSpec(d: bytes, p: nat, light: bool): (r: Outcome<NetworkAddress>)
    requires p <= |d|
    ensures r.pos <= |d|
  {
    var head: Outcome<(int64, nat)> :=
      if light then Ok((0, 0), p)
      else
        var time := ReadInt64(d, p);
        if time.Fail? then time.PropagateFailure()
        else
          var stream := ReadUint32(d, time.pos);
          if stream.Fail? then stream.PropagateFailure() else Ok((time.value, stream.value), stream.pos);
    if head.Fail? then head.PropagateFailure()
    else
      var services := ReadInt64(d, head.pos);
      if services.Fail? then services.PropagateFailure()
      else
        var ip := ReadBytes(d, services.pos, 16);
        if ip.Fail? then ip.PropagateFailure()
        else
          var port := ReadUint16(d, ip.pos);
          if port.Fail? then port.PropagateFailure()
          else Ok(NetworkAddress(head.value.0, head.value.1, services.value, ip.value, port.value), port.pos)
  }

  /** A parser of one entity at a position: defined wherever the position is
      within the data, and never leaving it. */
  ghost predicate Parser<T>(parse: (bytes, nat) --> Outcome<T>)
  {
    forall d: bytes, q: nat {:trigger parse.requires(d, q)} ::
      q <= |d| ==> parse.requires(d, q) && parse(d, q).pos <= |d|
  }

  /** `count` entities in a row, in stream order: the shape of the
      `for (i in 0 until count)` loops of parseInv, parseGetData and parseAddr. */
  function Repeat<T>(parse: (bytes, nat) --> Outcome<T>, d: bytes, p: nat, count: nat): (r: Outcome<seq<T>>)
    requires Parser(parse) && p <= |d|
    ensures r.pos <= |d|
  {
    if count == 0 then Ok([], p)
    else
      var init := Repeat(parse, d, p, count - 1);
      if init.Fail? then init
      else
        var last := parse(d, init.pos);
        if last.Fail? then last.PropagateFailure()
        else Ok(init.value + [last.value], last.pos)
  }

  /** parseInventoryVector: 32 bytes of hash. */
  function VectorAt(d: bytes, p: nat): (r: Outcome<InventoryVector>)
    requires p <= |d|
    ensures r.pos <= |d|
    ensures r.Ok? <==> p + VECTOR_SIZE <= |d|
    ensures r.Ok? ==> r.value.hash == d[p..p + VECTOR_SIZE] && r.pos == p + VECTOR_SIZE
  {
    var b := ReadBytes(d, p, VECTOR_SIZE);
    if b.Fail? then b.PropagateFailure() else Ok(InventoryVector(b.value), b.pos)
  }

  /** parseAddress in its full form, as parseAddr uses it. */
  function FullAddressAt(d: bytes, p: nat): (r: Outcome<NetworkAddress>)
    requires p <= |d|
    ensures r.pos <= |d|
  {
    AddressSpec(d, p, false)
  }

  /** parseInv and parseGetData: a var_int count, then that many vectors. */
  function VectorListSpec(d: bytes, p: nat): (r: Outcome<seq<InventoryVector>>)
    requires p <= |d|
    ensures r.pos <= |d|
  {
    var count := ReadVarInt(d, p);
    if count.Fail? then count.PropagateFailure() else Repeat(VectorAt, d, count.pos, count.value)
  }

  /** parseAddr: a var_int count, then that many full-form addresses. */
  function AddrSpec(d: bytes, p: nat): (r: Outcome<seq<NetworkAddress>>)
    requires p <= |d|
    ensures r.pos <= |d|
  {
    var count := ReadVarInt(d, p);
    if count.Fail? then count.PropagateFailure() else Repeat(FullAddressAt, d, count.pos, count.value)
  }

  /** parseVersion. */
  function VersionSpec(d: bytes, p: nat): (r: Outcome<Version>)
    requires p <= |d|
    ensures r.pos <= |d|
  {
    var version := ReadInt32(d, p);
    if version.Fail? then version.PropagateFailure() else
    var services := ReadInt64(d, version.pos);
    if services.Fail? then services.PropagateFailure() else
    var timestamp := ReadInt64(d, services.pos);
    if timestamp.Fail? then timestamp.PropagateFailure() else
    var addrRecv := AddressSpec(d, timestamp.pos, true);
    if addrRecv.Fail? then addrRecv.PropagateFailure() else
    var addrFrom := AddressSpec(d, addrRecv.pos, true);
    if addrFrom.Fail? then addrFrom.PropagateFailure() else
    var nonce := ReadInt64(d, addrFrom.pos);
    if nonce.Fail? then nonce.PropagateFailure() else
    var userAgent := ReadVarBytes(d, nonce.pos);
    if userAgent.Fail? then userAgent.PropagateFailure() else
    var streams := ReadVarIntList(d, userAgent.pos);
    if streams.Fail? then streams.PropagateFailure() else
    Ok(Version(version.value, services.value, timestamp.value, addrRecv.value, addrFrom.value,
               nonce.value, userAgent.value, streams.value), streams.pos)
  }

  /** The header of an `object` message: nonce, expiry, type, version and
      stream. Both decoders read it the same way. */
  datatype ObjectHeader = ObjectHeader(nonce: bytes, expiresTime: int64, objectType: nat, version: nat, stream: nat)

  /** The header fields readObject and parseObject read: 8 bytes of nonce,
      int64 expiry, uint32 type, var_int version, var_int stream. */
  function ObjectHeaderSpec(d: bytes, p: nat): (r: Outcome<ObjectHeader>)
    requires p <= |d|
    ensures r.pos <= |d|
    ensures r.Ok? ==> p + 22 <= r.pos && r.value.nonce == d[p..p + 8]
  {
    var nonce := ReadBytes(d, p, 8);
    if nonce.Fail? then nonce.PropagateFailure() else
    var expiresTime := ReadInt64(d, nonce.pos);
    if expiresTime.Fail? then expiresTime.PropagateFailure() else
    var objectType := ReadUint32(d, expiresTime.pos);
    if objectType.Fail? then objectType.PropagateFailure() else
    var version := ReadVarInt(d, objectType.pos);
    if version.Fail? then version.PropagateFailure() else
    var stream := ReadVarInt(d, version.pos);
    if stream.Fail? then stream.PropagateFailure() else
    Ok(ObjectHeader(nonce.value, expiresTime.value, objectType.value, version.value, stream.value), stream.pos)
  }

  // ---------------------------------------------------------------------
  // The parsers, consuming a stream.

  /** parseAddress. */
  method ParseAddress(s: ByteStream, light: bool) returns (r: Outcome<NetworkAddress>)
    requires s.Valid()
    modifies s
    ensures s.Valid() && r == AddressSpec(s.data, old(s.pos), light) && s.pos == r.pos
  {
    var time: int64, streamNumber: nat;
    if !light {
      time :- s.ReadInt64();
      streamNumber :- s.ReadUint32();
    } else {
      time, streamNumber := 0, 0;
    }
    var services :- s.ReadInt64();
    var ipv6 :- s.ReadBytes(16);
    var port :- s.ReadUint16();
    r := Ok(NetworkAddress(time, streamNumber, services, ipv6, port), s.pos);
  }

  /** parseInventoryVector. */
  method ParseInventoryVector(s: ByteStream) returns (r: Outcome<InventoryVector>)
    requires s.Valid()
    modifies s
    ensures s.Valid() && r == VectorAt(s.data, old(s.pos)) && s.pos == r.pos
  {
    var hash :- s.ReadBytes(VECTOR_SIZE);
    r := Ok(InventoryVector(hash), s.pos);
  }

  /** A failure part-way through a list is the failure of the whole list. */
  lemma {:induction false} RepeatFailureStays<T>(parse: (bytes, nat) --> Outcome<T>, d: bytes, p: nat, i: nat, count: nat)
    requires Parser(parse) && p <= |d| && i <= count && Repeat(parse, d, p, i).Fail?
    ensures Repeat(parse, d, p, count) == Repeat(parse, d, p, i)
    decreases count
  {
    if count > i {
      RepeatFailureStays(parse, d, p, i, count - 1);
    }
  }

  /** Reading one more entity after a successful list extends it, or ends
      the list with that entity's failure. */
  lemma {:induction false} RepeatExtend<T>(parse: (bytes, nat) --> Outcome<T>, d: bytes, p: nat, n: nat, xs: seq<T>, q: nat, x: Outcome<T>)
    requires Parser(parse) && p <= |d| && Repeat(parse, d, p, n) == Ok(xs, q)
    requires q <= |d| && x == parse(d, q)
    ensures x.Ok? ==> Repeat(parse, d, p, n + 1) == Ok(xs + [x.value], x.pos)
    ensures x.Fail? ==> Repeat(parse, d, p, n + 1) == x.PropagateFailure()
  {
  }

  /** The `for (i in 0 until count)` loop of parseInv and parseGetData,
      appending each vector to the list. */
  method ReadVectors(s: ByteStream, count: nat) returns (r: Outcome<seq<InventoryVector>>)
    requires s.Valid()
    modifies s
    ensures s.Valid() && r == Repeat(VectorAt, s.data, old(s.pos), count) && s.pos == r.pos
  {
    ghost var p0 := s.pos;
    var inventoryVectors: seq<InventoryVector> := [];
    for i := 0 to count
      invariant s.Valid()
      invariant Repeat(VectorAt, s.data, p0, i) == Ok(inventoryVectors, s.pos)
    {
      ghost var q := s.pos;
      var v := ParseInventoryVector(s);
      RepeatExtend(VectorAt, s.data, p0, i, inventoryVectors, q, v);
      if v.Fail? {
        RepeatFailureStays(VectorAt, s.data, p0, i + 1, count);
        return v.PropagateFailure();
      }
      inventoryVectors := inventoryVectors + [v.value];
    }
    r := Ok(inventoryVectors, s.pos);
  }

  /** The loop of parseAddr, reading each address in full form. */
  method ReadAddresses(s: ByteStream, count: nat) returns (r: Outcome<seq<NetworkAddress>>)
    requires s.Valid()
    modifies s
    ensures s.Valid() && r == Repeat(FullAddressAt, s.data, old(s.pos), count) && s.pos == r.pos
  {
    ghost var p0 := s.pos;
    var networkAddresses: seq<NetworkAddress> := [];
    for i := 0 to count
      invariant s.Valid()
      invariant Repeat(FullAddressAt, s.data, p0, i) == Ok(networkAddresses, s.pos)
    {
      ghost var q := s.pos;
      var a := ParseAddress(s, false);
      RepeatExtend(FullAddressAt, s.data, p0, i, networkAddresses, q, a);
      if a.Fail? {
        RepeatFailureStays(FullAddressAt, s.data, p0, i + 1, count);
        return a.PropagateFailure();
      }
      networkAddresses := networkAddresses + [a.value];
    }
    r := Ok(networkAddresses, s.pos);
  }

  /** parseInv. */
  method ParseInv<O>(s: ByteStream) returns (r: Outcome<MessagePayload<O>>)
    requires s.Valid()
    modifies s
    ensures s.Valid() && s.pos == r.pos
    ensures r == (var v := VectorListSpec(s.data, old(s.pos));
                  if v.Fail? then v.PropagateFailure() else Ok(Inv(v.value), v.pos))
  {
    var count :- s.ReadVarInt();
    var inventoryVectors :- ReadVectors(s, count);
    r := Ok(Inv(inventoryVectors), s.pos);
  }

  /** parseGetData. */
  method ParseGetData<O>(s: ByteStream) returns (r: Outcome<MessagePayload<O>>)
    requires s.Valid()
    modifies s
    ensures s.Valid() && s.pos == r.pos
    ensures r == (var v := VectorListSpec(s.data, old(s.pos));
                  if v.Fail? then v.PropagateFailure() else Ok(GetData(v.value), v.pos))
  {
    var count :- s.ReadVarInt();
    var inventoryVectors :- ReadVectors(s, count);
    r := Ok(GetData(inventoryVectors), s.pos);
  }

  /** parseAddr. */
  method ParseAddr<O>(s: ByteStream) returns (r: Outcome<MessagePayload<O>>)
    requires s.Valid()
    modifies s
    ensures s.Valid() && s.pos == r.pos
    ensures r == (var a := AddrSpec(s.data, old(s.pos));
                  if a.Fail? then a.PropagateFailure() else Ok(Addr(a.value), a.pos))
  {
    var count :- s.ReadVarInt();
    var networkAddresses :- ReadAddresses(s, count);
    r := Ok(Addr(networkAddresses), s.pos);
  }

  /** parseVersion. */
  method ParseVersion<O>(s: ByteStream) returns (r: Outcome<MessagePayload<O>>)
    requires s.Valid()
    modifies s
    ensures s.Valid() && s.pos == r.pos
    ensures r == (var v := VersionSpec(s.data, old(s.pos));
                  if v.Fail? then v.PropagateFailure() else Ok(VersionMessage(v.value), v.pos))
  {
    var version :- s.ReadInt32();
    var services :- s.ReadInt64();
    var timestamp :- s.ReadInt64();
    var addrRecv :- ParseAddress(s, true);
    var addrFrom :- ParseAddress(s, true);
    var nonce :- s.ReadInt64();
    var userAgent :- s.ReadVarBytes();
    var streamNumbers :- s.ReadVarIntList();
    r := Ok(VersionMessage(Version(version, services, timestamp, addrRecv, addrFrom, nonce, userAgent, streamNumbers)), s.pos);
  }

  // ---------------------------------------------------------------------
  // The byte layouts the parsers decode, and what the parsers are proved to do.

  /** Fields of an address that fit its wire form. */
  predicate WellFormedAddress(a: NetworkAddress)
  {
    a.stream < TWO_32 && |a.ipv6| == 16 && a.port < TWO_16
  }

  /** The wire form of an address: full form with time and stream first. */
  function AddressBytes(a: NetworkAddress, light: bool): (r: bytes)
    requires WellFormedAddress(a)
    ensures |r| == if light then LIGHT_ADDRESS_SIZE else FULL_ADDRESS_SIZE
  {
    Pow256Values();
    (if light then [] else Int64Bytes(a.time) + BeBytes(a.stream, 4))
      + Int64Bytes(a.services) + a.ipv6 + BeBytes(a.port, 2)
  }

  /** parseAddress inverts the address layout: in full form it reads 38 bytes
      and recovers every field; in light form it reads 26 bytes, recovers
      services, IP and port, and sets time and stream to zero. */
  lemma {:induction false} AddressRoundTrip(a: NetworkAddress, light: bool, d: bytes, p: nat)
    requires WellFormedAddress(a)
    requires p + |AddressBytes(a, light)| <= |d| && d[p..p + |AddressBytes(a, light)|] == AddressBytes(a, light)
    ensures AddressSpec(d, p, light) ==
      Ok(if light then a.(time := 0, stream := 0) else a, p + |AddressBytes(a, light)|)
  {
    Pow256Values();
    var tail := Int64Bytes(a.services) + a.ipv6 + BeBytes(a.port, 2);
    var q := if light then p else p + 12;
    if !light {
      var head := Int64Bytes(a.time) + BeBytes(a.stream, 4);
      assert AddressBytes(a, light) == head + tail;
      Split(d, p, head, tail);
      Split(d, p, Int64Bytes(a.time), BeBytes(a.stream, 4));
      Int64RoundTrip(a.time, d, p);
      ReadUnsignedOf(d, p + 8, a.stream, 4);
    } else {
      assert AddressBytes(a, light) == tail;
    }
    assert d[q..q + 26] == tail;
    Split(d, q, Int64Bytes(a.services) + a.ipv6, BeBytes(a.port, 2));
    Split(d, q, Int64Bytes(a.services), a.ipv6);
    Int64RoundTrip(a.services, d, q);
    ReadUnsignedOf(d, q + 24, a.port, 2);
  }

  /** A successful address read consumes exactly 26 (light) or 38 (full)
      bytes, and the light form always reports time and stream zero. */
  lemma {:induction false} AddressConsumes(d: bytes, p: nat, light: bool)
    requires p <= |d| && AddressSpec(d, p, light).Ok?
    ensures AddressSpec(d, p, light).pos == p + (if light then LIGHT_ADDRESS_SIZE else FULL_ADDRESS_SIZE)
    ensures light ==> AddressSpec(d, p, light).value.time == 0 && AddressSpec(d, p, light).value.stream == 0
    ensures |AddressSpec(d, p, light).value.ipv6| == 16
  {
  }

  /** A list of entities, each encoded by `enc`, concatenated in order. */
  function Concat<T>(enc: T --> bytes, xs: seq<T>): (r: bytes)
    requires forall k :: 0 <= k < |xs| ==> enc.requires(xs[k])
  {
    if xs == [] then [] else Concat(enc, xs[..|xs| - 1]) + enc(xs[|xs| - 1])
  }

  /** `parse` reads back `x` from wherever `enc` wrote it in `d`. */
  ghost predicate ReadsBack<T>(parse: (bytes, nat) --> Outcome<T>, enc: T --> bytes, x: T, d: bytes, q: nat)
    requires Parser(parse)
  {
    enc.requires(x) && q + |enc(x)| <= |d| && d[q..q + |enc(x)|] == enc(x) ==>
      parse(d, q) == Ok(x, q + |enc(x)|)
  }

  /** `parse` reads back whatever `enc` wrote, wherever it is. The quantifier
      is instantiated only where a proof mentions ReadsBack. */
  ghost predicate Inverts<T(!new)>(parse: (bytes, nat) --> Outcome<T>, enc: T --> bytes)
    requires Parser(parse)
  {
    forall x: T, d: bytes, q: nat :: ReadsBack(parse, enc, x, d, q)
  }

  /** The encodings of a list are those of all but its last entity, then the last one's. */
  lemma {:induction false} ConcatSnoc<T>(enc: T --> bytes, xs: seq<T>, init: seq<T>, last: T)
    requires xs != [] && forall k :: 0 <= k < |xs| ==> enc.requires(xs[k])
    requires init == xs[..|xs| - 1] && last == xs[|xs| - 1]
    ensures init + [last] == xs
    ensures forall k :: 0 <= k < |init| ==> enc.requires(init[k])
    ensures enc.requires(last) && Concat(enc, xs) == Concat(enc, init) + enc(last)
  {
    assert forall k :: 0 <= k < |init| ==> init[k] == xs[k];
  }

  /** One more entity, encoded right after the ones already read, is read next. */
  lemma {:induction false} RepeatStep<T(!new)>(parse: (bytes, nat) --> Outcome<T>, enc: T --> bytes, d: bytes, p: nat, n: nat, init: seq<T>, last: T, q: nat)
    requires Parser(parse) && Inverts(parse, enc) && enc.requires(last)
    requires p <= |d| && Repeat(parse, d, p, n) == Ok(init, q)
    requires q + |enc(last)| <= |d| && d[q..q + |enc(last)|] == enc(last)
    ensures Repeat(parse, d, p, n + 1) == Ok(init + [last], q + |enc(last)|)
  {
    assert ReadsBack(parse, enc, last, d, q);
  }

  /** The inductive step of RepeatRoundTrip: the encodings of all but the last
      entity lie at p, and once those read back, so does the whole list. */
  lemma {:induction false} RepeatRoundTripStep<T(!new)>(parse: (bytes, nat) --> Outcome<T>, enc: T --> bytes, xs: seq<T>, init: seq<T>, d: bytes, p: nat)
    requires Parser(parse) && Inverts(parse, enc)
    requires xs != [] && init == xs[..|xs| - 1] && forall k :: 0 <= k < |xs| ==> enc.requires(xs[k])
    requires p + |Concat(enc, xs)| <= |d| && d[p..p + |Concat(enc, xs)|] == Concat(enc, xs)
    ensures forall k :: 0 <= k < |init| ==> enc.requires(init[k])
    ensures p + |Concat(enc, init)| <= |d| && d[p..p + |Concat(enc, init)|] == Concat(enc, init)
    ensures Repeat(parse, d, p, |init|) == Ok(init, p + |Concat(enc, init)|) ==>
      Repeat(parse, d, p, |xs|) == Ok(xs, p + |Concat(enc, xs)|)
  {
    var last := xs[|xs| - 1];
    ConcatSnoc(enc, xs, init, last);
    var a := Concat(enc, init);
    Split(d, p, a, enc(last));
    if Repeat(parse, d, p, |init|) == Ok(init, p + |a|) {
      RepeatStep(parse, enc, d, p, |init|, init, last, p + |a|);
    }
  }

  /** Reading `|xs|` entities from their concatenated encodings gives them back. */
  lemma {:induction false} RepeatRoundTrip<T(!new)>(parse: (bytes, nat) --> Outcome<T>, enc: T --> bytes, xs: seq<T>, d: bytes, p: nat)
    requires Parser(parse) && Inverts(parse, enc)
    requires forall k :: 0 <= k < |xs| ==> enc.requires(xs[k])
    requires p + |Concat(enc, xs)| <= |d| && d[p..p + |Concat(enc, xs)|] == Concat(enc, xs)
    ensures Repeat(parse, d, p, |xs|) == Ok(xs, p + |Concat(enc, xs)|)
  {
    if xs != [] {
      var init := xs[..|xs| - 1];
      RepeatRoundTripStep(parse, enc, xs, init, d, p);
      RepeatRoundTrip(parse, enc, init, d, p);
    }
  }

  /** A var_int count followed by that many encoded entities reads back as
      the count and then the entities. */
  lemma {:induction false} CountedRoundTrip<T(!new)>(parse: (bytes, nat) --> Outcome<T>, enc: T --> bytes, xs: seq<T>, d: bytes, p: nat)
    requires Parser(parse) && Inverts(parse, enc)
    requires |xs| < TWO_64 && forall k :: 0 <= k < |xs| ==> enc.requires(xs[k])
    requires p + |VarIntBytes(|xs|) + Concat(enc, xs)| <= |d|
    requires d[p..p + |VarIntBytes(|xs|) + Concat(enc, xs)|] == VarIntBytes(|xs|) + Concat(enc, xs)
    ensures ReadVarInt(d, p) == Ok(|xs|, p + VarIntSize(|xs|))
    ensures Repeat(parse, d, p + VarIntSize(|xs|), |xs|) == Ok(xs, p + VarIntSize(|xs|) + |Concat(enc, xs)|)
  {
    VarIntPrefix(|xs|, Concat(enc, xs), d, p);
    RepeatRoundTrip(parse, enc, xs, d, p + VarIntSize(|xs|));
  }

  /** The wire form of an inventory vector: its hash. */
  function VectorBytes(v: InventoryVector): (r: bytes)
    requires |v.hash| == VECTOR_SIZE
  {
    v.hash
  }

  /** The payload of an `inv` or `getdata` message. */
  function VectorListBytes(vs: seq<InventoryVector>): (r: bytes)
    requires |vs| < TWO_64 && forall k :: 0 <= k < |vs| ==> |vs[k].hash| == VECTOR_SIZE
  {
    VarIntBytes(|vs|) + Concat(VectorBytes, vs)
  }

  /** A successful read of `count` vectors returns exactly `count` of them,
      the k-th being the k-th 32-byte block after p, and consumes 32·count bytes. */
  lemma {:induction false} VectorsShape(d: bytes, p: nat, count: nat)
    requires p <= |d| && Repeat(VectorAt, d, p, count).Ok?
    ensures |Repeat(VectorAt, d, p, count).value| == count
    ensures Repeat(VectorAt, d, p, count).pos == p + 32 * count
    ensures forall k :: 0 <= k < count ==>
      Repeat(VectorAt, d, p, count).value[k].hash == d[p + 32 * k..p + 32 * (k + 1)]
  {
    if count > 0 {
      VectorsShape(d, p, count - 1);
    }
  }

  lemma {:induction false} VectorInverts()
    ensures Inverts(VectorAt, VectorBytes)
  {
    forall v: InventoryVector, d: bytes, q: nat
      ensures ReadsBack(VectorAt, VectorBytes, v, d, q)
    {
    }
  }

  /** parseInv / parseGetData invert the `inv` payload layout. */
  lemma {:induction false} VectorListRoundTrip(vs: seq<InventoryVector>, d: bytes, p: nat)
    requires |vs| < TWO_64 && forall k :: 0 <= k < |vs| ==> |vs[k].hash| == VECTOR_SIZE
    requires p + |VectorListBytes(vs)| <= |d| && d[p..p + |VectorListBytes(vs)|] == VectorListBytes(vs)
    ensures VectorListSpec(d, p) == Ok(vs, p + |VectorListBytes(vs)|)
  {
    VectorInverts();
    CountedRoundTrip(VectorAt, VectorBytes, vs, d, p);
  }

  /** The full wire form of an address, as `addr` carries it. */
  function FullAddressBytes(a: NetworkAddress): (r: bytes)
    requires WellFormedAddress(a)
  {
    AddressBytes(a, false)
  }

  /** The payload of an `addr` message. */
  function AddrBytes(as_: seq<NetworkAddress>): (r: bytes)
    requires |as_| < TWO_64 && forall k :: 0 <= k < |as_| ==> WellFormedAddress(as_[k])
  {
    VarIntBytes(|as_|) + Concat(FullAddressBytes, as_)
  }

  lemma {:induction false} FullAddressInverts()
    ensures Inverts(FullAddressAt, FullAddressBytes)
  {
    forall a: NetworkAddress, d: bytes, q: nat
      ensures ReadsBack(FullAddressAt, FullAddressBytes, a, d, q)
    {
      if WellFormedAddress(a) && q + |FullAddressBytes(a)| <= |d| && d[q..q + |FullAddressBytes(a)|] == FullAddressBytes(a) {
        AddressRoundTrip(a, false, d, q);
      }
    }
  }

  /** parseAddr reads every entry in full form and gives the list back in order. */
  lemma {:induction false} AddrRoundTrip(as_: seq<NetworkAddress>, d: bytes, p: nat)
    requires |as_| < TWO_64 && forall k :: 0 <= k < |as_| ==> WellFormedAddress(as_[k])
    requires p + |AddrBytes(as_)| <= |d| && d[p..p + |AddrBytes(as_)|] == AddrBytes(as_)
    ensures AddrSpec(d, p) == Ok(as_, p + |AddrBytes(as_)|)
  {
    var q, r := AddrReads(as_, d, p);
  }

  /** The two reads of parseAddr: the count, then the entries, ending at `r`. */
  lemma {:induction false} AddrReads(as_: seq<NetworkAddress>, d: bytes, p: nat) returns (q: nat, r: nat)
    requires |as_| < TWO_64 && forall k :: 0 <= k < |as_| ==> WellFormedAddress(as_[k])
    requires p + |AddrBytes(as_)| <= |d| && d[p..p + |AddrBytes(as_)|] == AddrBytes(as_)
    ensures r == p + |AddrBytes(as_)| && q <= r
    ensures ReadVarInt(d, p) == Ok(|as_|, q) && Repeat(FullAddressAt, d, q, |as_|) == Ok(as_, r)
  {
    q := p + VarIntSize(|as_|);
    r := q + |Concat(FullAddressBytes, as_)|;
    FullAddressInverts();
    CountedRoundTrip(FullAddressAt, FullAddressBytes, as_, d, p);
  }

  // ---------------------------------------------------------------------
  // The version message.

  /** ReadVarInts is Repeat over single var_ints. */
  lemma {:induction false} VarIntsAsRepeat(d: bytes, p: nat, count: nat)
    requires p <= |d|
    ensures Parser(ReadVarInt) && ReadVarInts(d, p, count) == Repeat(ReadVarInt, d, p, count)
  {
    if count > 0 {
      VarIntsAsRepeat(d, p, count - 1);
    }
  }

  lemma {:induction false} VarIntInverts()
    ensures Parser(ReadVarInt) && Inverts(ReadVarInt, VarIntBytes)
  {
    forall v: nat, d: bytes, q: nat
      ensures ReadsBack(ReadVarInt, VarIntBytes, v, d, q)
    {
      if v < TWO_64 && q + |VarIntBytes(v)| <= |d| && d[q..q + |VarIntBytes(v)|] == VarIntBytes(v) {
        VarIntRoundTrip(v, d, q);
      }
    }
  }

  /** The wire form of a list of stream numbers: a var_int count, then the
      numbers as var_ints. */
  function VarIntListBytes(xs: seq<nat>): (r: bytes)
    requires |xs| < TWO_64 && forall k :: 0 <= k < |xs| ==> xs[k] < TWO_64
  {
    VarIntBytes(|xs|) + Concat(VarIntBytes, xs)
  }

  /** Decode.varIntList inverts the var_int list layout. */
  lemma {:induction false} VarIntListRoundTrip(xs: seq<nat>, d: bytes, p: nat)
    requires |xs| < TWO_64 && forall k :: 0 <= k < |xs| ==> xs[k] < TWO_64
    requires p + |VarIntListBytes(xs)| <= |d| && d[p..p + |VarIntListBytes(xs)|] == VarIntListBytes(xs)
    ensures ReadVarIntList(d, p) == Ok(xs, p + |VarIntListBytes(xs)|)
  {
    VarIntInverts();
    CountedRoundTrip(ReadVarInt, VarIntBytes, xs, d, p);
    VarIntsAsRepeat(d, p + VarIntSize(|xs|), |xs|);
  }

  /** Fields of a version message that fit its wire form. Both addresses are
      in light form, which carries neither time nor stream, so those are zero. */
  predicate WellFormedVersion(v: Version)
  {
    WellFormedAddress(v.addrRecv) && v.addrRecv.time == 0 && v.addrRecv.stream == 0 &&
    WellFormedAddress(v.addrFrom) && v.addrFrom.time == 0 && v.addrFrom.stream == 0 &&
    |v.userAgent| < TWO_64 &&
    |v.streams| < TWO_64 && forall k :: 0 <= k < |v.streams| ==> v.streams[k] < TWO_64
  }

  /** The payload of a `version` message: int32 version, int64 services and
      timestamp, the receiving and sending addresses in light form, int64
      nonce, the user agent as var_str and the streams as a var_int list. */
  function VersionBytes(v: Version): (r: bytes)
    requires WellFormedVersion(v)
    ensures |r| == 72 + |VersionTailBytes(v)|
  {
    VersionHeadBytes(v) + VersionTailBytes(v)
  }

  /** The fixed-size part: version, services, timestamp, both addresses. */
  function VersionHeadBytes(v: Version): (r: bytes)
    requires WellFormedVersion(v)
    ensures |r| == 72
  {
    Int32Bytes(v.version) + Int64Bytes(v.services) + Int64Bytes(v.timestamp) +
      AddressBytes(v.addrRecv, true) + AddressBytes(v.addrFrom, true)
  }

  /** The rest: nonce, user agent and streams. */
  function VersionTailBytes(v: Version): (r: bytes)
    requires WellFormedVersion(v)
    ensures |r| == 8 + |VarBytes(v.userAgent)| + |VarIntListBytes(v.streams)|
  {
    Int64Bytes(v.nonce) + VarBytes(v.userAgent) + VarIntListBytes(v.streams)
  }

  /** The first five fields: version, services, timestamp and both addresses. */
  lemma {:induction false} VersionHeadRoundTrip(v: Version, d: bytes, p: nat)
    requires WellFormedVersion(v)
    requires p + |VersionBytes(v)| <= |d| && d[p..p + |VersionBytes(v)|] == VersionBytes(v)
    ensures ReadInt32(d, p) == Ok(v.version, p + 4)
    ensures ReadInt64(d, p + 4) == Ok(v.services, p + 12)
    ensures ReadInt64(d, p + 12) == Ok(v.timestamp, p + 20)
    ensures AddressSpec(d, p + 20, true) == Ok(v.addrRecv, p + 46)
    ensures AddressSpec(d, p + 46, true) == Ok(v.addrFrom, p + 72)
  {
    Split(d, p, VersionHeadBytes(v), VersionTailBytes(v));
    var a0 := Int32Bytes(v.version) + Int64Bytes(v.services);
    var a1 := a0 + Int64Bytes(v.timestamp);
    var a2 := a1 + AddressBytes(v.addrRecv, true);
    Split(d, p, a2, AddressBytes(v.addrFrom, true));
    Split(d, p, a1, AddressBytes(v.addrRecv, true));
    Split(d, p, a0, Int64Bytes(v.timestamp));
    Split(d, p, Int32Bytes(v.version), Int64Bytes(v.services));
    Int32RoundTrip(v.version, d, p);
    Int64RoundTrip(v.services, d, p + 4);
    Int64RoundTrip(v.timestamp, d, p + 12);
    AddressRoundTrip(v.addrRecv, true, d, p + 20);
    AddressRoundTrip(v.addrFrom, true, d, p + 46);
  }

  /** The last three fields: nonce, user agent and streams, ending at `q3`. */
  lemma {:induction false} VersionTailRoundTrip(v: Version, d: bytes, p: nat) returns (q1: nat, q2: nat, q3: nat)
    requires WellFormedVersion(v)
    requires p + |VersionBytes(v)| <= |d| && d[p..p + |VersionBytes(v)|] == VersionBytes(v)
    ensures q3 == p + |VersionBytes(v)|
    ensures p + 72 <= q1 <= q2 <= q3 <= |d|
    ensures ReadInt64(d, p + 72) == Ok(v.nonce, q1)
    ensures ReadVarBytes(d, q1) == Ok(v.userAgent, q2)
    ensures ReadVarIntList(d, q2) == Ok(v.streams, q3)
  {
    var ua, st := VarBytes(v.userAgent), VarIntListBytes(v.streams);
    q1, q2, q3 := p + 80, p + 80 + |ua|, p + 80 + |ua| + |st|;
    assert |VersionBytes(v)| == 80 + |ua| + |st|;
    Split(d, p, VersionHeadBytes(v), VersionTailBytes(v));
    Split(d, p + 72, Int64Bytes(v.nonce) + ua, st);
    Split(d, p + 72, Int64Bytes(v.nonce), ua);
    Int64RoundTrip(v.nonce, d, p + 72);
    VarBytesRoundTrip(v.userAgent, d, q1);
    VarIntListRoundTrip(v.streams, d, q2);
  }

  /** parseVersion returns `v` when each of its reads in turn returns the
      matching field. */
  lemma {:induction false} VersionFromFields(v: Version, d: bytes, p: nat, q1: nat, q2: nat, q3: nat)
    requires p + 72 <= q1 <= q2 <= q3 <= |d|
    requires ReadInt32(d, p) == Ok(v.version, p + 4)
    requires ReadInt64(d, p + 4) == Ok(v.services, p + 12)
    requires ReadInt64(d, p + 12) == Ok(v.timestamp, p + 20)
    requires AddressSpec(d, p + 20, true) == Ok(v.addrRecv, p + 46)
    requires AddressSpec(d, p + 46, true) == Ok(v.addrFrom, p + 72)
    requires ReadInt64(d, p + 72) == Ok(v.nonce, q1)
    requires ReadVarBytes(d, q1) == Ok(v.userAgent, q2)
    requires ReadVarIntList(d, q2) == Ok(v.streams, q3)
    ensures VersionSpec(d, p) == Ok(v, q3)
  {
  }

  /** parseVersion reads back every field of a well-formed `version` layout. */
  lemma {:induction false} VersionRoundTrip(v: Version, d: bytes, p: nat)
    requires WellFormedVersion(v)
    requires p + |VersionBytes(v)| <= |d| && d[p..p + |VersionBytes(v)|] == VersionBytes(v)
    ensures VersionSpec(d, p) == Ok(v, p + |VersionBytes(v)|)
  {
    VersionHeadRoundTrip(v, d, p);
    var q1, q2, q3 := VersionTailRoundTrip(v, d, p);
    VersionFromFields(v, d, p, q1, q2, q3);
  }

  // ---------------------------------------------------------------------
  // The object header.

  /** Fields of an object header that fit its wire form. */
  predicate WellFormedHeader(h: ObjectHeader)
  {
    |h.nonce| == 8 && h.objectType < TWO_32 && h.version < TWO_64 && h.stream < TWO_64
  }

  /** The wire form of an object header. */
  function ObjectHeaderBytes(h: ObjectHeader): (r: bytes)
    requires WellFormedHeader(h)
  {
    Pow256Values();
    h.nonce + (Int64Bytes(h.expiresTime) + (BeBytes(h.objectType, 4) +
      (VarIntBytes(h.version) + VarIntBytes(h.stream))))
  }

  /** The header readers invert the object header layout. */
  lemma {:induction false} ObjectHeaderRoundTrip(h: ObjectHeader, d: bytes, p: nat)
    requires WellFormedHeader(h)
    requires p + |ObjectHeaderBytes(h)| <= |d| && d[p..p + |ObjectHeaderBytes(h)|] == ObjectHeaderBytes(h)
    ensures ObjectHeaderSpec(d, p) == Ok(h, p + |ObjectHeaderBytes(h)|)
  {
    Pow256Values();
    var vs := VarIntBytes(h.version) + VarIntBytes(h.stream);
    var t1 := BeBytes(h.objectType, 4) + vs;
    var t0 := Int64Bytes(h.expiresTime) + t1;
    Split(d, p, h.nonce, t0);
    Split(d, p + 8, Int64Bytes(h.expiresTime), t1);
    Int64RoundTrip(h.expiresTime, d, p + 8);
    Split(d, p + 16, BeBytes(h.objectType, 4), vs);
    ReadUnsignedOf(d, p + 16, h.objectType, 4);
    VarIntPrefix(h.version, VarIntBytes(h.stream), d, p + 20);
    VarIntRoundTrip(h.stream, d, p + 20 + VarIntSize(h.version));
  }
}
