/** The Java public key payloads. Version 2 carries a behaviour bitfield and
    two keys; version 3 adds the proof-of-work parameters and a signature;
    version 4 is an encrypted version 3 key, of which only the tag and the
    ciphertext travel. Array fields may be null. */
module JavaPubkeys {
  import opened Wire
  import opened Streams

  datatype V2Pubkey = V2Pubkey(stream: int64, behaviorBitfield: int64,
                               publicSigningKey: Option<JBytes>, publicEncryptionKey: Option<JBytes>)

  /** A V3Pubkey: the fields it inherits from V2Pubkey, and its own. */
  datatype V3Pubkey = V3Pubkey(base: V2Pubkey, nonceTrialsPerByte: int64, extraBytes: int64,
                               signature: Option<JBytes>)

  datatype V4Pubkey = V4Pubkey(stream: int64, tag: Option<JBytes>, encrypted: Option<JBytes>,
                               decrypted: Option<V3Pubkey>)

  /** The Pubkey interface, implemented by the three classes. */
  datatype Pubkey = Version2(v2: V2Pubkey) | Version3(v3: V3Pubkey) | Version4(v4: V4Pubkey)

  // ---------------------------------------------------------------------
  // Getters.

  /** getVersion: each class reports its own version. */
  function Version(k: Pubkey): (v: int64)
    ensures v == 2 <==> k.Version2?
    ensures v == 3 <==> k.Version3?
    ensures v == 4 <==> k.Version4?
  {
    match k
    case Version2(_) => 2
    case Version3(_) => 3
    case Version4(_) => 4
  }

  /** getStream: the stored stream number. */
  function Stream(k: Pubkey): int64
  {
    match k
    case Version2(v2) => v2.stream
    case Version3(v3) => v3.base.stream
    case Version4(v4) => v4.stream
  }

  /** getSigningKey: a version 4 key asks its decrypted key, and throws
      NullPointerException when there is none. */
  function SigningKey(k: Pubkey): (r: Result<Option<JBytes>>)
    ensures r.Failure? <==> k.Version4? && k.v4.decrypted.None?
    ensures r.Failure? ==> r.error == NullPointer
  {
    match k
    case Version2(v2) => Success(v2.publicSigningKey)
    case Version3(v3) => Success(v3.base.publicSigningKey)
    case Version4(v4) =>
      if v4.decrypted.None? then Failure(NullPointer) else Success(v4.decrypted.value.base.publicSigningKey)
  }

  /** getEncryptionKey, in the same way. */
  function EncryptionKey(k: Pubkey): (r: Result<Option<JBytes>>)
    ensures r.Failure? <==> k.Version4? && k.v4.decrypted.None?
    ensures r.Failure? ==> r.error == NullPointer
  {
    match k
    case Version2(v2) => Success(v2.publicEncryptionKey)
    case Version3(v3) => Success(v3.base.publicEncryptionKey)
    case Version4(v4) =>
      if v4.decrypted.None? then Failure(NullPointer) else Success(v4.decrypted.value.base.publicEncryptionKey)
  }

  // ---------------------------------------------------------------------
  // Writing.

  /** `stream.write(array)`: a null array throws NullPointerException. */
  function ArrayPut(a: Option<JBytes>): Put
  {
    if a.None? then NullArray else Whole(a.value)
  }

  /** The calls V2Pubkey.write makes: the bitfield's low 32 bits, then each
      key whole. */
  function V2Puts(k: V2Pubkey): seq<Put>
  {
    [Whole(Int32Bytes(k.behaviorBitfield)), ArrayPut(k.publicSigningKey), ArrayPut(k.publicEncryptionKey)]
  }

  /** The calls V3Pubkey.write makes after the V2 layout: the two
      proof-of-work parameters and the signature's length as var_ints, then
      the signature; reading the length of a null signature throws. */
  function V3Tail(k: V3Pubkey): seq<Put>
  {
    [Whole(LongVarIntBytes(k.nonceTrialsPerByte)), Whole(LongVarIntBytes(k.extraBytes)),
     if k.signature.None? then NullArray else Whole(VarIntBytes(|k.signature.value|)),
     ArrayPut(k.signature)]
  }

  function V3Puts(k: V3Pubkey): seq<Put>
  {
    V2Puts(k.base) + V3Tail(k)
  }

  /** The calls V4Pubkey.write makes: the tag, then the ciphertext. */
  function V4Puts(k: V4Pubkey): seq<Put>
  {
    [ArrayPut(k.tag), ArrayPut(k.encrypted)]
  }

  /** A version 2 key writes its bitfield and both keys with no byte
      dropped, 4 + |signing key| + |encryption key| bytes; a null key stops
      the write there. */
  lemma {:induction false} V2WriteOutput(k: V2Pubkey)
    ensures var run := StreamRun(V2Puts(k));
      var bits := Int32Bytes(k.behaviorBitfield);
      (k.publicSigningKey.None? ==> run == Emitted(bits, Some(NullPointer))) &&
      (k.publicSigningKey.Some? && k.publicEncryptionKey.None? ==>
         run == Emitted(bits + k.publicSigningKey.value, Some(NullPointer))) &&
      (k.publicSigningKey.Some? && k.publicEncryptionKey.Some? ==>
         run == Emitted(bits + k.publicSigningKey.value + k.publicEncryptionKey.value, None) &&
         |run.bytes| == 4 + |k.publicSigningKey.value| + |k.publicEncryptionKey.value|)
  {
    var a, b, c := Whole(Int32Bytes(k.behaviorBitfield)), ArrayPut(k.publicSigningKey), ArrayPut(k.publicEncryptionKey);
    assert V2Puts(k) == [a] + [b, c] && [b, c] == [b] + [c] && [c] == [c] + [];
    StreamRunStep(a, [b, c]);
    StreamRunStep(b, [c]);
    StreamRunStep(c, []);
  }

  /** The tail a version 3 key writes after the V2 layout, when its
      signature is set, and the failure when it is not. */
  lemma {:induction false} V3TailOutput(k: V3Pubkey)
    ensures k.signature.None? ==>
      StreamRun(V3Tail(k)) == Emitted(LongVarIntBytes(k.nonceTrialsPerByte) + LongVarIntBytes(k.extraBytes), Some(NullPointer))
    ensures k.signature.Some? ==>
      StreamRun(V3Tail(k)) == Emitted(LongVarIntBytes(k.nonceTrialsPerByte) + LongVarIntBytes(k.extraBytes) +
                                       VarIntBytes(|k.signature.value|) + k.signature.value, None)
  {
    var t := V3Tail(k);
    StreamRunAt(t, 0);
    StreamRunAt(t, 1);
    if k.signature.Some? {
      SignatureOutput(t[2..], k.signature.value);
      assert t[2..][1..] == t[3..];
      var n, e, sig := LongVarIntBytes(k.nonceTrialsPerByte), LongVarIntBytes(k.extraBytes), k.signature.value;
      assert n + (e + (VarIntBytes(|sig|) + sig)) == n + e + VarIntBytes(|sig|) + sig;
    } else {
      StreamRunAt(t, 2);
    }
  }

  /** The signature's var_int length, then the signature. */
  lemma {:induction false} SignatureOutput(t: seq<Put>, sig: JBytes)
    requires t == [Whole(VarIntBytes(|sig|)), Whole(sig)]
    ensures StreamRun(t) == Emitted(VarIntBytes(|sig|) + sig, None)
  {
    StreamRunAt(t, 0);
    StreamRunAt(t, 1);
    assert t[2..] == [];
  }

  /** A version 3 key writes the V2 layout, then var_int(nonceTrialsPerByte),
      var_int(extraBytes), var_int(signature length) and the signature; its
      length is the V2 length plus the three var_ints and the signature. A
      null signature throws after the two parameters. */
  lemma {:induction false} V3WriteOutput(k: V3Pubkey)
    requires k.base.publicSigningKey.Some? && k.base.publicEncryptionKey.Some?
    ensures var v2 := StreamRun(V2Puts(k.base)).bytes;
      var params := LongVarIntBytes(k.nonceTrialsPerByte) + LongVarIntBytes(k.extraBytes);
      (k.signature.None? ==> StreamRun(V3Puts(k)) == Emitted(v2 + params, Some(NullPointer))) &&
      (k.signature.Some? ==>
         StreamRun(V3Puts(k)) == Emitted(v2 + params + VarIntBytes(|k.signature.value|) + k.signature.value, None) &&
         |StreamRun(V3Puts(k)).bytes| ==
           |v2| + |LongVarIntBytes(k.nonceTrialsPerByte)| + |LongVarIntBytes(k.extraBytes)| +
           VarIntSize(|k.signature.value|) + |k.signature.value|)
  {
    V2WriteOutput(k.base);
    V3TailOutput(k);
    StreamRunAppend(V2Puts(k.base), V3Tail(k));
    var v2 := StreamRun(V2Puts(k.base)).bytes;
    var params := LongVarIntBytes(k.nonceTrialsPerByte) + LongVarIntBytes(k.extraBytes);
    if k.signature.Some? {
      var sig := k.signature.value;
      assert v2 + (params + VarIntBytes(|sig|) + sig) == v2 + params + VarIntBytes(|sig|) + sig;
    }
  }

  /** V2Pubkey.write. */
  method WriteV2(k: V2Pubkey, out: OutputSink) returns (failure: Option<Error>)
    modifies out
    ensures out.written == old(out.written) + StreamRun(V2Puts(k)).bytes
    ensures failure == StreamRun(V2Puts(k)).failure
  {
    ghost var puts := V2Puts(k);
    ghost var goal := Emitted(out.written + StreamRun(puts).bytes, StreamRun(puts).failure);
    failure := out.EmitStep(Whole(Int32Bytes(k.behaviorBitfield)), puts, 0, goal);
    failure := out.EmitStep(ArrayPut(k.publicSigningKey), puts, 1, goal);
    if failure.Some? {
      return;
    }
    failure := out.EmitStep(ArrayPut(k.publicEncryptionKey), puts, 2, goal);
  }

  /** V3Pubkey.write: super.write, then the version 3 fields. */
  method WriteV3(k: V3Pubkey, out: OutputSink) returns (failure: Option<Error>)
    modifies out
    ensures out.written == old(out.written) + StreamRun(V3Puts(k)).bytes
    ensures failure == StreamRun(V3Puts(k)).failure
  {
    ghost var before := out.written;
    failure := WriteV2(k.base, out);
    V3AfterV2(k, before, out.written);
    if failure.Some? {
      return;
    }
    ghost var puts := V3Tail(k);
    ghost var goal := Emitted(before + StreamRun(V3Puts(k)).bytes, StreamRun(V3Puts(k)).failure);
    failure := out.EmitStep(Whole(LongVarIntBytes(k.nonceTrialsPerByte)), puts, 0, goal);
    failure := out.EmitStep(Whole(LongVarIntBytes(k.extraBytes)), puts, 1, goal);
    if k.signature.None? {
      failure := out.EmitStep(NullArray, puts, 2, goal);
      return;
    }
    failure := out.EmitStep(Whole(VarIntBytes(|k.signature.value|)), puts, 2, goal);
    failure := out.EmitStep(ArrayPut(k.signature), puts, 3, goal);
    assert puts[4..] == [];
  }

  /** What is left of a version 3 write once the V2 layout is out. */
  lemma {:induction false} V3AfterV2(k: V3Pubkey, before: bytes, mid: bytes)
    requires mid == before + StreamRun(V2Puts(k.base)).bytes
    ensures StreamRun(V2Puts(k.base)).failure.Some? ==>
      mid == before + StreamRun(V3Puts(k)).bytes && StreamRun(V2Puts(k.base)).failure == StreamRun(V3Puts(k)).failure
    ensures StreamRun(V2Puts(k.base)).failure.None? ==>
      mid + StreamRun(V3Tail(k)[0..]).bytes == before + StreamRun(V3Puts(k)).bytes &&
      StreamRun(V3Tail(k)[0..]).failure == StreamRun(V3Puts(k)).failure
  {
    StreamRunAppend(V2Puts(k.base), V3Tail(k));
    assert V3Tail(k)[0..] == V3Tail(k);
  }

  /** V4Pubkey.write. */
  method WriteV4(k: V4Pubkey, out: OutputSink) returns (failure: Option<Error>)
    modifies out
    ensures out.written == old(out.written) + StreamRun(V4Puts(k)).bytes
    ensures failure == StreamRun(V4Puts(k)).failure
  {
    ghost var puts := V4Puts(k);
    ghost var goal := Emitted(out.written + StreamRun(puts).bytes, StreamRun(puts).failure);
    failure := out.EmitStep(ArrayPut(k.tag), puts, 0, goal);
    if failure.Some? {
      return;
    }
    failure := out.EmitStep(ArrayPut(k.encrypted), puts, 1, goal);
  }

  /** The calls `write` makes, for whichever class the key is. */
  function WritePuts(k: Pubkey): seq<Put>
  {
    match k
    case Version2(v2) => V2Puts(v2)
    case Version3(v3) => V3Puts(v3)
    case Version4(v4) => V4Puts(v4)
  }

  /** Pubkey.write, dispatched on the class. */
  method Write(k: Pubkey, out: OutputSink) returns (failure: Option<Error>)
    modifies out
    ensures out.written == old(out.written) + StreamRun(WritePuts(k)).bytes
    ensures failure == StreamRun(WritePuts(k)).failure
  {
    match k {
      case Version2(v2) => failure := WriteV2(v2, out);
      case Version3(v3) => failure := WriteV3(v3, out);
      case Version4(v4) => failure := WriteV4(v4, out);
    }
  }

  // ---------------------------------------------------------------------
  // Version 4.

  /** V4Pubkey.read: the first 32 bytes are the tag, the next `length - 32`
      (in `int` arithmetic) the ciphertext; the stream number is given and
      nothing is decrypted. */
  function ReadV4Spec(d: bytes, p: nat, streamNumber: int64, length: int32): (r: Outcome<V4Pubkey>)
    requires p <= |d|
    ensures p + 32 > |d| ==> r == Fail(EndOfStream, |d|)
    ensures 32 <= length ==> (r.Ok? <==> p + length <= |d|)
    ensures r.Ok? ==> p + 32 <= r.pos <= |d| && r.pos == p + 32 + ToInt32(length - 32) && r.value.stream == streamNumber &&
                      r.value.decrypted.None? && r.value.tag == Some(d[p..p + 32]) &&
                      r.value.encrypted == Some(d[p + 32..r.pos])
    ensures p + 32 <= |d| && -TWO_31 + 32 <= length < 32 ==> r == Fail(NegativeArraySize, p + 32)
  {
    var tag := ReadBytes(d, p, 32);
    if tag.Fail? then tag.PropagateFailure()
    else
      var encrypted := ReadBytes(d, tag.pos, ToInt32(length - 32));
      if encrypted.Fail? then encrypted.PropagateFailure()
      else Ok(V4Pubkey(streamNumber, Some(tag.value), Some(encrypted.value), None), encrypted.pos)
  }

  /** Reading a whole payload of at least 32 bytes and writing it back gives
      the payload again. */
  lemma {:induction false} V4ReadWrite(b: JBytes, streamNumber: int64)
    requires |b| >= 32
    ensures ReadV4Spec(b, 0, streamNumber, |b|).Ok?
    ensures StreamRun(V4Puts(ReadV4Spec(b, 0, streamNumber, |b|).value)) == Emitted(b, None)
  {
    var k := ReadV4Spec(b, 0, streamNumber, |b|).value;
    assert ToInt32(|b| - 32) == |b| - 32;
    assert k.tag == Some(b[..32]) && k.encrypted == Some(b[32..|b|]);
    assert b[32..|b|] == b[32..];
    assert V4Puts(k) == [Whole(b[..32])] + [Whole(b[32..])];
    StreamRunStep(Whole(b[..32]), [Whole(b[32..])]);
    assert [Whole(b[32..])] == [Whole(b[32..])] + [];
    StreamRunStep(Whole(b[32..]), []);
    assert b[..32] + b[32..] == b;
  }

  /** A version 4 key with a 32-byte tag and no decrypted key, written and
      read back with its stream and length, is the same key. */
  lemma {:induction false} V4WriteRead(k: V4Pubkey, d: bytes, p: nat)
    requires k.tag.Some? && |k.tag.value| == 32 && k.encrypted.Some? && k.decrypted.None?
    requires |StreamRun(V4Puts(k)).bytes| < TWO_31
    requires p + |StreamRun(V4Puts(k)).bytes| <= |d| &&
             d[p..p + |StreamRun(V4Puts(k)).bytes|] == StreamRun(V4Puts(k)).bytes
    ensures ReadV4Spec(d, p, k.stream, |StreamRun(V4Puts(k)).bytes|) == Ok(k, p + |StreamRun(V4Puts(k)).bytes|)
  {
    var t, e := k.tag.value, k.encrypted.value;
    assert V4Puts(k) == [Whole(t)] + [Whole(e)];
    StreamRunStep(Whole(t), [Whole(e)]);
    assert [Whole(e)] == [Whole(e)] + [];
    StreamRunStep(Whole(e), []);
    Split(d, p, t, e);
  }

  /** The public V4Pubkey constructor from a decrypted version 3 key: the
      stream is copied, the tag and ciphertext stay null. */
  function V4FromV3(decrypted: V3Pubkey): (k: V4Pubkey)
    ensures Stream(Version4(k)) == Stream(Version3(decrypted))
    ensures SigningKey(Version4(k)) == SigningKey(Version3(decrypted))
    ensures EncryptionKey(Version4(k)) == EncryptionKey(Version3(decrypted))
    ensures StreamRun(V4Puts(k)) == Emitted([], Some(NullPointer))
  {
    var k := V4Pubkey(decrypted.base.stream, None, None, Some(decrypted));
    assert V4Puts(k) == [NullArray] + [NullArray];
    StreamRunStep(NullArray, [NullArray]);
    k
  }

  /** A version 4 key as read has no decrypted key, so its key getters throw. */
  lemma {:induction false} ReadV4HasNoKeys(d: bytes, p: nat, streamNumber: int64, length: int32)
    requires p <= |d| && ReadV4Spec(d, p, streamNumber, length).Ok?
    ensures SigningKey(Version4(ReadV4Spec(d, p, streamNumber, length).value)) == Failure(NullPointer)
    ensures EncryptionKey(Version4(ReadV4Spec(d, p, streamNumber, length).value)) == Failure(NullPointer)
    ensures Version(Version4(ReadV4Spec(d, p, streamNumber, length).value)) == 4
  {
  }

  // ---------------------------------------------------------------------
  // Builders.

  /** V2Pubkey.Builder. */
  class V2Builder {
    var streamNumber: int64
    var behaviorBitfield: int64
    var publicSigningKey: Option<JBytes>
    var publicEncryptionKey: Option<JBytes>

    constructor ()
      ensures streamNumber == 0 && behaviorBitfield == 0
      ensures publicSigningKey == None && publicEncryptionKey == None
    {
      streamNumber := 0;
      behaviorBitfield := 0;
      publicSigningKey := None;
      publicEncryptionKey := None;
    }

    method StreamNumber(streamNumber: int64)
      modifies this
      ensures this.streamNumber == streamNumber && behaviorBitfield == old(behaviorBitfield)
      ensures publicSigningKey == old(publicSigningKey) && publicEncryptionKey == old(publicEncryptionKey)
    {
      this.streamNumber := streamNumber;
    }

    method BehaviorBitfield(behaviorBitfield: int64)
      modifies this
      ensures this.behaviorBitfield == behaviorBitfield && streamNumber == old(streamNumber)
      ensures publicSigningKey == old(publicSigningKey) && publicEncryptionKey == old(publicEncryptionKey)
    {
      this.behaviorBitfield := behaviorBitfield;
    }

    /** publicSigningKey(key); a null argument is None. */
    method PublicSigningKey(publicSigningKey: Option<JBytes>)
      modifies this
      ensures this.publicSigningKey == publicSigningKey && publicEncryptionKey == old(publicEncryptionKey)
      ensures streamNumber == old(streamNumber) && behaviorBitfield == old(behaviorBitfield)
    {
      this.publicSigningKey := publicSigningKey;
    }

    method PublicEncryptionKey(publicEncryptionKey: Option<JBytes>)
      modifies this
      ensures this.publicEncryptionKey == publicEncryptionKey && publicSigningKey == old(publicSigningKey)
      ensures streamNumber == old(streamNumber) && behaviorBitfield == old(behaviorBitfield)
    {
      this.publicEncryptionKey := publicEncryptionKey;
    }

    /** build(): the getters of the new key return what was set. */
    method Build() returns (k: V2Pubkey)
      ensures Version(Version2(k)) == 2 && Stream(Version2(k)) == streamNumber
      ensures k.behaviorBitfield == behaviorBitfield
      ensures SigningKey(Version2(k)) == Success(publicSigningKey)
      ensures EncryptionKey(Version2(k)) == Success(publicEncryptionKey)
    {
      k := V2Pubkey(streamNumber, behaviorBitfield, publicSigningKey, publicEncryptionKey);
    }
  }

  /** V3Pubkey.Builder. It declares its own copies of the version 2 fields,
      and the constructor reads those. */
  class V3Builder {
    var streamNumber: int64
    var behaviorBitfield: int64
    var publicSigningKey: Option<JBytes>
    var publicEncryptionKey: Option<JBytes>
    var nonceTrialsPerByte: int64
    var extraBytes: int64
    var signature: Option<JBytes>

    constructor ()
      ensures streamNumber == 0 && behaviorBitfield == 0 && nonceTrialsPerByte == 0 && extraBytes == 0
      ensures publicSigningKey == None && publicEncryptionKey == None && signature == None
    {
      streamNumber := 0;
      behaviorBitfield := 0;
      publicSigningKey := None;
      publicEncryptionKey := None;
      nonceTrialsPerByte := 0;
      extraBytes := 0;
      signature := None;
    }

    method StreamNumber(streamNumber: int64)
      modifies `streamNumber
      ensures this.streamNumber == streamNumber
    {
      this.streamNumber := streamNumber;
    }

    method BehaviorBitfield(behaviorBitfield: int64)
      modifies `behaviorBitfield
      ensures this.behaviorBitfield == behaviorBitfield
    {
      this.behaviorBitfield := behaviorBitfield;
    }

    method PublicSigningKey(publicSigningKey: Option<JBytes>)
      modifies `publicSigningKey
      ensures this.publicSigningKey == publicSigningKey
    {
      this.publicSigningKey := publicSigningKey;
    }

    method PublicEncryptionKey(publicEncryptionKey: Option<JBytes>)
      modifies `publicEncryptionKey
      ensures this.publicEncryptionKey == publicEncryptionKey
    {
      this.publicEncryptionKey := publicEncryptionKey;
    }

    method NonceTrialsPerByte(nonceTrialsPerByte: int64)
      modifies `nonceTrialsPerByte
      ensures this.nonceTrialsPerByte == nonceTrialsPerByte
    {
      this.nonceTrialsPerByte := nonceTrialsPerByte;
    }

    method ExtraBytes(extraBytes: int64)
      modifies `extraBytes
      ensures this.extraBytes == extraBytes
    {
      this.extraBytes := extraBytes;
    }

    method Signature(signature: Option<JBytes>)
      modifies `signature
      ensures this.signature == signature
    {
      this.signature := signature;
    }

    /** build(): the new key holds all seven fields unchanged, and reports
        version 3. */
    method Build() returns (k: V3Pubkey)
      ensures Version(Version3(k)) == 3 && Stream(Version3(k)) == streamNumber
      ensures k.base.behaviorBitfield == behaviorBitfield
      ensures SigningKey(Version3(k)) == Success(publicSigningKey)
      ensures EncryptionKey(Version3(k)) == Success(publicEncryptionKey)
      ensures k.nonceTrialsPerByte == nonceTrialsPerByte && k.extraBytes == extraBytes && k.signature == signature
    {
      k := V3Pubkey(V2Pubkey(streamNumber, behaviorBitfield, publicSigningKey, publicEncryptionKey),
                    nonceTrialsPerByte, extraBytes, signature);
    }
  }

  /** A version 3 key from a builder whose signature was never set cannot be
      written: the write throws after the V2 layout and the two parameters. */
  lemma {:induction false} UnsignedV3WriteFails(k: V3Pubkey)
    requires k.signature.None?
    ensures StreamRun(V3Puts(k)).failure == Some(NullPointer)
  {
    V2WriteOutput(k.base);
    V3TailOutput(k);
    StreamRunAppend(V2Puts(k.base), V3Tail(k));
  }
}
