/** The request a client sends to a proof-of-work server extension: the
    initial hash to work on, what is asked (start, in progress, done) and
    optional data such as the found nonce. */
module PowRequest {
  import opened Wire
  import opened Streams
  import Frames

  /** ProofOfWorkRequest.Request. */
  datatype Request = CALCULATE | CALCULATING | COMPLETE

  /** Enum.name. */
  function Name(r: Request): string
  {
    match r
    case CALCULATE => "CALCULATE"
    case CALCULATING => "CALCULATING"
    case COMPLETE => "COMPLETE"
  }

  /** Request.valueOf: the constant with that name, or IllegalArgumentException. */
  function ValueOf(s: string): (r: Result<Request>)
    ensures r.Success? <==> s == "CALCULATE" || s == "CALCULATING" || s == "COMPLETE"
    ensures r.Success? ==> Name(r.value) == s
    ensures r.Failure? ==> r.error == UnknownEnumName
  {
    if s == "CALCULATE" then Success(CALCULATE)
    else if s == "CALCULATING" then Success(CALCULATING)
    else if s == "COMPLETE" then Success(COMPLETE)
    else Failure(UnknownEnumName)
  }

  /** Every constant is found again by its name. */
  lemma {:induction false} ValueOfName(r: Request)
    ensures ValueOf(Name(r)) == Success(r)
  {
  }

  /** The encoded bytes of a name; the names are ASCII, so UTF-8 and ASCII
      agree. */
  function NameBytes(r: Request): (b: bytes)
    ensures Frames.AsciiString(b) == Name(r)
    ensures 0 < |b| < 0xFD
  {
    var s := Name(r);
    var b := seq<byte>(|s|, i requires 0 <= i < |s| => s[i] as int);
    assert Frames.AsciiString(b) == s;
    b
  }

  /** The request. `data` defaults to an empty array. The sender is of any
      type with equality (BitmessageAddress is not part of this model). */
  datatype ProofOfWorkRequest<A> = ProofOfWorkRequest(sender: A, initialHash: bytes, request: Request, data: bytes := [])

  // ---------------------------------------------------------------------
  // Writing.

  /** The calls Writer.write makes: the raw initial hash, var_str of the
      request's name (length, then bytes), var_bytes of the data (length,
      then bytes). A JVM array is far shorter than 2^64 bytes. */
  function WritePuts<A>(x: ProofOfWorkRequest<A>): seq<Put>
    requires |x.data| < TWO_64
  {
    [Whole(x.initialHash),
     Whole(VarIntBytes(|NameBytes(x.request)|)), Whole(NameBytes(x.request)),
     Whole(VarIntBytes(|x.data|)), Whole(x.data)]
  }

  /** The encoding: the hash, then var_str(name), then var_bytes(data). */
  function Encoding<A>(x: ProofOfWorkRequest<A>): bytes
    requires |x.data| < TWO_64
  {
    x.initialHash + VarBytes(NameBytes(x.request)) + VarBytes(x.data)
  }

  /** The list of calls, taken apart one call at a time. */
  lemma {:induction false} PutsShape<A>(x: ProofOfWorkRequest<A>)
    requires |x.data| < TWO_64
    ensures var n := NameBytes(x.request);
      var a, b, c, e, f := Whole(x.initialHash), Whole(VarIntBytes(|n|)), Whole(n),
                           Whole(VarIntBytes(|x.data|)), Whole(x.data);
      WritePuts(x) == [a] + [b, c, e, f] && [b, c, e, f] == [b] + [c, e, f] &&
      [c, e, f] == [c] + [e, f] && [e, f] == [e] + [f] && [f] == [f] + []
  {
  }

  /** Writing to an OutputStream never fails and emits exactly Encoding. */
  lemma {:induction false} WriteOutput<A>(x: ProofOfWorkRequest<A>)
    requires |x.data| < TWO_64
    ensures StreamRun(WritePuts(x)) == Emitted(Encoding(x), None)
  {
    var n := NameBytes(x.request);
    var a, b, c, e, f := Whole(x.initialHash), Whole(VarIntBytes(|n|)), Whole(n),
                         Whole(VarIntBytes(|x.data|)), Whole(x.data);
    PutsShape(x);
    StreamRunStep(a, [b, c, e, f]);
    StreamRunStep(b, [c, e, f]);
    StreamRunStep(c, [e, f]);
    StreamRunStep(e, [f]);
    StreamRunStep(f, []);
  }

  /** With room for the whole encoding, the ByteBuffer writer puts exactly
      what the OutputStream writer writes. */
  lemma {:induction false} BufferWriteMatchesStream<A>(x: ProofOfWorkRequest<A>, room: nat)
    requires |x.data| < TWO_64 && |Encoding(x)| <= room
    ensures BufferRun(WritePuts(x), room) == Emitted(Encoding(x), None)
  {
    WriteOutput(x);
    BufferRunMatchesStream(WritePuts(x), room);
  }

  /** A request with the default data ends in a zero length byte. */
  lemma {:induction false} DefaultDataEncoding<A>(sender: A, initialHash: bytes, request: Request)
    ensures Encoding(ProofOfWorkRequest(sender, initialHash, request)) ==
      initialHash + VarBytes(NameBytes(request)) + [0]
  {
    assert VarBytes([]) == [0];
  }

  /** ProofOfWorkRequest.Writer. */
  class Writer<A> {
    const item: ProofOfWorkRequest<A>

    constructor (item: ProofOfWorkRequest<A>)
      ensures this.item == item
    {
      this.item := item;
    }

    /** write(out). */
    method Write(out: OutputSink) returns (failure: Option<Error>)
      requires |item.data| < TWO_64
      modifies out
      ensures out.written == old(out.written) + StreamRun(WritePuts(item)).bytes
      ensures failure == StreamRun(WritePuts(item)).failure
    {
      var name := NameBytes(item.request);
      ghost var puts := WritePuts(item);
      ghost var goal := Emitted(out.written + StreamRun(puts).bytes, StreamRun(puts).failure);
      failure := out.EmitStep(Whole(item.initialHash), puts, 0, goal);
      failure := out.EmitStep(Whole(VarIntBytes(|name|)), puts, 1, goal);
      failure := out.EmitStep(Whole(name), puts, 2, goal);
      failure := out.EmitStep(Whole(VarIntBytes(|item.data|)), puts, 3, goal);
      failure := out.EmitStep(Whole(item.data), puts, 4, goal);
    }

    /** write(buffer): the same calls on a ByteBuffer; the first that does
        not fit throws. */
    method WriteBuffer(buffer: ByteBuffer) returns (failure: Option<Error>)
      requires |item.data| < TWO_64 && buffer.Valid()
      modifies buffer, buffer.buf
      ensures buffer.Valid()
      ensures buffer.Contents() == old(buffer.Contents()) + BufferRun(WritePuts(item), old(buffer.Remaining())).bytes
      ensures failure == BufferRun(WritePuts(item), old(buffer.Remaining())).failure
    {
      var name := NameBytes(item.request);
      ghost var puts := WritePuts(item);
      ghost var run := BufferRun(puts, buffer.Remaining());
      ghost var goal := Emitted(buffer.Contents() + run.bytes, run.failure);
      failure := buffer.EmitStep(Whole(item.initialHash), puts, 0, goal);
      if failure.Some? {
        return;
      }
      failure := buffer.EmitStep(Whole(VarIntBytes(|name|)), puts, 1, goal);
      if failure.Some? {
        return;
      }
      failure := buffer.EmitStep(Whole(name), puts, 2, goal);
      if failure.Some? {
        return;
      }
      failure := buffer.EmitStep(Whole(VarIntBytes(|item.data|)), puts, 3, goal);
      if failure.Some? {
        return;
      }
      failure := buffer.EmitStep(Whole(item.data), puts, 4, goal);
    }
  }

  // ---------------------------------------------------------------------
  // Reading.

  /** ProofOfWorkRequest.read: 64 bytes of initial hash, a var_str that must
      name a Request, then var_bytes; the sender is the given client.
      Decode.varString is taken as decoding ASCII and mapping any other byte
      to U+FFFD, which yields one of the names exactly when UTF-8 decoding
      does. */
  function ReadSpec<A>(d: bytes, p: nat, client: A): (r: Outcome<ProofOfWorkRequest<A>>)
    requires p <= |d|
    ensures r.pos <= |d|
    ensures r.Ok? ==> r.value.sender == client && |r.value.initialHash| == 64 && p + 64 < r.pos
  {
    var hash := ReadBytes(d, p, 64);
    if hash.Fail? then hash.PropagateFailure()
    else
      var name := ReadVarBytes(d, hash.pos);
      if name.Fail? then name.PropagateFailure()
      else
        var request := ValueOf(Frames.AsciiString(name.value));
        if request.Failure? then Fail(request.error, name.pos)
        else
          var data := ReadVarBytes(d, name.pos);
          if data.Fail? then data.PropagateFailure()
          else Ok(ProofOfWorkRequest(client, hash.value, request.value, data.value), data.pos)
  }

  /** The name field decides: after the hash, a var_str that is not one of
      the three names makes read fail with IllegalArgumentException, and one
      that is becomes the request. */
  lemma {:induction false} ReadRequestName<A>(d: bytes, p: nat, client: A)
    requires p + 64 <= |d| && ReadVarBytes(d, p + 64).Ok?
    ensures var name := Frames.AsciiString(ReadVarBytes(d, p + 64).value);
      ValueOf(name).Failure? ==> ReadSpec(d, p, client) == Fail(UnknownEnumName, ReadVarBytes(d, p + 64).pos)
    ensures ReadSpec(d, p, client).Ok? ==>
      Name(ReadSpec(d, p, client).value.request) == Frames.AsciiString(ReadVarBytes(d, p + 64).value)
  {
  }

  /** read(client, input) on an input stream. */
  method ReadRequest<A>(client: A, input: ByteStream) returns (r: Outcome<ProofOfWorkRequest<A>>)
    requires input.Valid()
    modifies input
    ensures input.Valid() && r == ReadSpec(input.data, old(input.pos), client) && input.pos == r.pos
  {
    var hash := input.ReadBytes(64);
    if hash.Fail? {
      return hash.PropagateFailure();
    }
    var name := input.ReadVarBytes();
    if name.Fail? {
      return name.PropagateFailure();
    }
    var request := ValueOf(Frames.AsciiString(name.value));
    if request.Failure? {
      return Fail(request.error, name.pos);
    }
    var data := input.ReadVarBytes();
    if data.Fail? {
      return data.PropagateFailure();
    }
    r := Ok(ProofOfWorkRequest(client, hash.value, request.value, data.value), data.pos);
  }

  /** ProofOfWorkRequest.Reader: reads with its own identity as the sender. */
  class Reader<A> {
    const identity: A

    constructor (identity: A)
      ensures this.identity == identity
    {
      this.identity := identity;
    }

    /** read(sender, input): the `sender` argument is not used. */
    method Read(sender: A, input: ByteStream) returns (r: Outcome<ProofOfWorkRequest<A>>)
      requires input.Valid()
      modifies input
      ensures input.Valid() && r == ReadSpec(input.data, old(input.pos), identity) && input.pos == r.pos
      ensures r.Ok? ==> r.value.sender == identity
    {
      r := ReadRequest(identity, input);
    }
  }

  // ---------------------------------------------------------------------
  // Equality and hashing.

  /** equals(other): `other` is None when it is null or not a
      ProofOfWorkRequest. Arrays are compared by content. */
  predicate Equals<A(==)>(x: ProofOfWorkRequest<A>, other: Option<ProofOfWorkRequest<A>>): (b: bool)
    ensures b <==> other == Some(x)
  {
    other.Some? &&
    x.sender == other.value.sender && x.initialHash == other.value.initialHash &&
    x.request == other.value.request && x.data == other.value.data
  }

  /** A Java `byte` is signed. */
  function Signed(b: byte): int
  {
    if b < 128 then b else b - 256
  }

  /** Arrays.hashCode(byte[]): start from 1, then 31·h + element, in `int`
      arithmetic. */
  function ArrayHash(b: bytes): int32
  {
    if b == [] then 1 else ToInt32(31 * ArrayHash(b[..|b| - 1]) + Signed(b[|b| - 1]))
  }

  /** hashCode(): the sender's and the request's hash codes are parameters
      (an enum's hash code is its identity hash). */
  function HashCode<A>(x: ProofOfWorkRequest<A>, senderHash: A -> int32, requestHash: Request -> int32): (h: int32)
    ensures (h - (29791 * senderHash(x.sender) + 961 * ArrayHash(x.initialHash) +
                  31 * requestHash(x.request) + ArrayHash(x.data))) % TWO_32 == 0
  {
    var h0 := senderHash(x.sender);
    var h1 := ToInt32(31 * h0 + ArrayHash(x.initialHash));
    var h2 := ToInt32(31 * h1 + requestHash(x.request));
    var h3 := ToInt32(31 * h2 + ArrayHash(x.data));
    HornerStep(h1, 31 * h0 + ArrayHash(x.initialHash), h2, requestHash(x.request));
    HornerStep(h2, 961 * h0 + 31 * ArrayHash(x.initialHash) + requestHash(x.request), h3, ArrayHash(x.data));
    h3
  }

  /** One step 31·h + c of a hash in `int` arithmetic: if h agrees with e
      modulo 2^32 then the wrapped next value agrees with 31·e + c. */
  lemma {:induction false} HornerStep(h: int, e: int, next: int, c: int)
    requires (h - e) % TWO_32 == 0 && (next - (31 * h + c)) % TWO_32 == 0
    ensures (next - (31 * e + c)) % TWO_32 == 0
  {
    var k := (h - e) / TWO_32;
    var j := (next - (31 * h + c)) / TWO_32;
    assert h - e == TWO_32 * k;
    assert next - (31 * h + c) == TWO_32 * j;
    assert next - (31 * e + c) == TWO_32 * (j + 31 * k);
  }

  /** Requests that are equal have the same hash code. */
  lemma {:induction false} EqualHashCodes<A>(x: ProofOfWorkRequest<A>, y: ProofOfWorkRequest<A>,
                                                  senderHash: A -> int32, requestHash: Request -> int32)
    requires Equals(x, Some(y))
    ensures HashCode(x, senderHash, requestHash) == HashCode(y, senderHash, requestHash)
  {
  }

  // ---------------------------------------------------------------------
  // Round trip.

  /** A request with a 64-byte initial hash, written and read back with its
      own sender as the client, equals the original. */
  lemma {:induction false} WriteReadRoundTrip<A>(x: ProofOfWorkRequest<A>, d: bytes, p: nat)
    requires |x.initialHash| == 64 && |x.data| < TWO_64
    requires p + |Encoding(x)| <= |d| && d[p..p + |Encoding(x)|] == Encoding(x)
    ensures ReadSpec(d, p, x.sender) == Ok(x, p + |Encoding(x)|)
    ensures Equals(x, Some(ReadSpec(d, p, x.sender).value))
  {
    var q1, q2 := WriteReads(x, d, p);
    ValueOfName(x.request);
  }

  /** The three reads of read(), in order, from the encoding: the hash, the
      name, the data, ending at `q2`. */
  lemma {:induction false} WriteReads<A>(x: ProofOfWorkRequest<A>, d: bytes, p: nat) returns (q1: nat, q2: nat)
    requires |x.initialHash| == 64 && |x.data| < TWO_64
    requires p + |Encoding(x)| <= |d| && d[p..p + |Encoding(x)|] == Encoding(x)
    ensures p + 64 <= q1 <= q2 == p + |Encoding(x)|
    ensures ReadBytes(d, p, 64) == Ok(x.initialHash, p + 64)
    ensures ReadVarBytes(d, p + 64) == Ok(NameBytes(x.request), q1)
    ensures ReadVarBytes(d, q1) == Ok(x.data, q2)
  {
    var name := NameBytes(x.request);
    var vn, vd := VarBytes(name), VarBytes(x.data);
    q1, q2 := p + 64 + |vn|, p + 64 + |vn| + |vd|;
    assert Encoding(x) == x.initialHash + (vn + vd);
    Split(d, p, x.initialHash, vn + vd);
    Split(d, p + 64, vn, vd);
    VarBytesRoundTrip(name, d, p + 64);
    VarBytesRoundTrip(x.data, d, q1);
  }
}
