/** The Kotlin version 2 public key: two 65-byte uncompressed EC points (the
    leading 0x04 is implied on the wire) and a behaviour bitfield. */
module KotlinPubkey {
  import opened Wire
  import opened Streams

  /** Pubkey.add0x04, which is not part of this model; its contract is taken
      as: a 65-byte key is returned as it is, any other key becomes a new
      65-byte array holding 0x04 and the key's first 64 bytes, and copying
      fails for a key shorter than 64 bytes. */
  function Add0x04(key: bytes): (r: Result<bytes>)
    ensures r.Success? <==> |key| >= 64
    ensures r.Success? ==> |r.value| == 65
    ensures |key| == 65 ==> r == Success(key)
    ensures |key| >= 64 && |key| != 65 ==> r.value[0] == 4 && r.value[1..] == key[..64]
  {
    if |key| == 65 then Success(key)
    else if |key| < 64 then Failure(IndexOutOfBounds)
    else Success([4] + key[..64])
  }

  /** What the constructor keeps of a key: a 64-byte key gets the 0x04
      prefix, any other key is kept as it is. */
  function Normalise(key: bytes): (r: bytes)
    ensures |key| == 64 ==> |r| == 65 && r[0] == 4 && r[1..] == key
    ensures |key| != 64 ==> r == key
  {
    if |key| == 64 then Add0x04(key).value else key
  }

  /** Normalising twice is normalising once. */
  lemma {:induction false} NormaliseIdempotent(key: bytes)
    ensures Normalise(Normalise(key)) == Normalise(key)
  {
  }

  datatype V2Pubkey = V2Pubkey(version: int64, stream: int64, behaviorBitfield: int32,
                               signingKey: bytes, encryptionKey: bytes)

  /** The constructor: the given fields, with both keys normalised. */
  function NewV2Pubkey(version: int64, stream: int64, behaviorBitfield: int32,
                       signingKey: bytes, encryptionKey: bytes): (k: V2Pubkey)
    ensures k.version == version && k.stream == stream && k.behaviorBitfield == behaviorBitfield
    ensures |signingKey| == 64 || |signingKey| == 65 ==> |k.signingKey| == 65
    ensures |encryptionKey| == 64 || |encryptionKey| == 65 ==> |k.encryptionKey| == 65
    ensures |signingKey| == 64 ==> k.signingKey[0] == 4 && k.signingKey[1..] == signingKey
    ensures |encryptionKey| == 64 ==> k.encryptionKey[0] == 4 && k.encryptionKey[1..] == encryptionKey
  {
    V2Pubkey(version, stream, behaviorBitfield, Normalise(signingKey), Normalise(encryptionKey))
  }

  /** A key as read from the wire or built from 64-byte keys: version 2 and
      two 65-byte keys that start with 0x04. */
  predicate Canonical(k: V2Pubkey)
  {
    k.version == 2 &&
    |k.signingKey| == 65 && k.signingKey[0] == 4 &&
    |k.encryptionKey| == 65 && k.encryptionKey[0] == 4
  }

  /** The size of the encoding: the bitfield and two 64-byte keys. */
  const ENCODED_SIZE: nat := 132

  // ---------------------------------------------------------------------
  // Writing.

  /** The calls Writer.write makes: the bitfield as an int32, then bytes
      1 to 64 of each key. */
  function WritePuts(k: V2Pubkey): seq<Put>
  {
    [Whole(Int32Bytes(k.behaviorBitfield)), Slice(k.signingKey, 1, 64), Slice(k.encryptionKey, 1, 64)]
  }

  /** Writing fails exactly when a key is shorter than 65 bytes; otherwise it
      emits the bitfield and each key without its first byte, 132 bytes. */
  lemma {:induction false} WriteOutput(k: V2Pubkey)
    ensures StreamRun(WritePuts(k)).failure.None? <==> |k.signingKey| >= 65 && |k.encryptionKey| >= 65
    ensures StreamRun(WritePuts(k)).failure.Some? ==> StreamRun(WritePuts(k)).failure == Some(IndexOutOfBounds)
    ensures StreamRun(WritePuts(k)).failure.None? ==>
      StreamRun(WritePuts(k)).bytes == Int32Bytes(k.behaviorBitfield) + k.signingKey[1..65] + k.encryptionKey[1..65] &&
      |StreamRun(WritePuts(k)).bytes| == ENCODED_SIZE
  {
    var a, b, c := Whole(Int32Bytes(k.behaviorBitfield)), Slice(k.signingKey, 1, 64), Slice(k.encryptionKey, 1, 64);
    assert WritePuts(k) == [a] + ([b] + ([c] + []));
    StreamRunStep(a, [b] + ([c] + []));
    StreamRunStep(b, [c] + []);
    StreamRunStep(c, []);
  }

  /** The ByteBuffer writer emits the same bytes as the OutputStream writer
      when the buffer has room for 132 bytes, and overflows when it has less. */
  lemma {:induction false} BufferWriteMatchesStream(k: V2Pubkey, room: nat)
    requires |k.signingKey| >= 65 && |k.encryptionKey| >= 65
    ensures room >= ENCODED_SIZE ==> BufferRun(WritePuts(k), room) == StreamRun(WritePuts(k))
    ensures room < ENCODED_SIZE ==> BufferRun(WritePuts(k), room).failure == Some(BufferOverflow)
  {
    WriteOutput(k);
    if room >= ENCODED_SIZE {
      BufferRunMatchesStream(WritePuts(k), room);
    } else {
      var a, b, c := Whole(Int32Bytes(k.behaviorBitfield)), Slice(k.signingKey, 1, 64), Slice(k.encryptionKey, 1, 64);
      assert WritePuts(k) == [a] + ([b] + ([c] + []));
      BufferRunStep(a, [b] + ([c] + []), room);
      if room >= 4 {
        BufferRunStep(b, [c] + [], room - 4);
        if room >= 68 {
          BufferRunStep(c, [], room - 68);
        }
      }
    }
  }

  /** V2Pubkey.Writer: writes the key's fields to a stream or a buffer. */
  class Writer {
    const item: V2Pubkey

    constructor (item: V2Pubkey)
      ensures this.item == item
    {
      this.item := item;
    }

    /** write(out): the bytes WritePuts describes, stopping at the first exception. */
    method Write(out: OutputSink) returns (failure: Option<Error>)
      modifies out
      ensures out.written == old(out.written) + StreamRun(WritePuts(item)).bytes
      ensures failure == StreamRun(WritePuts(item)).failure
    {
      ghost var puts := WritePuts(item);
      ghost var goal := Emitted(out.written + StreamRun(puts).bytes, StreamRun(puts).failure);
      failure := out.EmitStep(Whole(Int32Bytes(item.behaviorBitfield)), puts, 0, goal);
      failure := out.EmitStep(Slice(item.signingKey, 1, 64), puts, 1, goal);
      if failure.Some? {
        return;
      }
      failure := out.EmitStep(Slice(item.encryptionKey, 1, 64), puts, 2, goal);
    }

    /** write(buffer): the same calls on a ByteBuffer. */
    method WriteBuffer(buffer: ByteBuffer) returns (failure: Option<Error>)
      requires buffer.Valid()
      modifies buffer, buffer.buf
      ensures buffer.Valid()
      ensures buffer.Contents() == old(buffer.Contents()) + BufferRun(WritePuts(item), old(buffer.Remaining())).bytes
      ensures failure == BufferRun(WritePuts(item), old(buffer.Remaining())).failure
    {
      ghost var puts := WritePuts(item);
      ghost var run := BufferRun(puts, buffer.Remaining());
      ghost var goal := Emitted(buffer.Contents() + run.bytes, run.failure);
      failure := buffer.EmitStep(Whole(Int32Bytes(item.behaviorBitfield)), puts, 0, goal);
      if failure.Some? {
        return;
      }
      failure := buffer.EmitStep(Slice(item.signingKey, 1, 64), puts, 1, goal);
      if failure.Some? {
        return;
      }
      failure := buffer.EmitStep(Slice(item.encryptionKey, 1, 64), puts, 2, goal);
    }

    /** writeBytesToSign: a version 2 key signs nothing. */
    method WriteBytesToSign(out: OutputSink)
      modifies out
      ensures out.written == old(out.written)
    {
    }

    /** writeUnencrypted(out): the same as write(out). */
    method WriteUnencrypted(out: OutputSink) returns (failure: Option<Error>)
      modifies out
      ensures out.written == old(out.written) + StreamRun(WritePuts(item)).bytes
      ensures failure == StreamRun(WritePuts(item)).failure
    {
      failure := Write(out);
    }

    /** writeUnencrypted(buffer): the same as write(buffer). */
    method WriteUnencryptedBuffer(buffer: ByteBuffer) returns (failure: Option<Error>)
      requires buffer.Valid()
      modifies buffer, buffer.buf
      ensures buffer.Valid()
      ensures buffer.Contents() == old(buffer.Contents()) + BufferRun(WritePuts(item), old(buffer.Remaining())).bytes
      ensures failure == BufferRun(WritePuts(item), old(buffer.Remaining())).failure
    {
      failure := WriteBuffer(buffer);
    }
  }

  // ---------------------------------------------------------------------
  // Reading.

  /** V2Pubkey.read: a uint32 narrowed to an `int`, then two 64-byte keys,
      which the constructor prefixes with 0x04; the stream number is given. */
  function ReadSpec(d: bytes, p: nat, stream: int64): (r: Outcome<V2Pubkey>)
    requires p <= |d|
    ensures r.Ok? <==> p + ENCODED_SIZE <= |d|
    ensures r.Fail? ==> r.error == EndOfStream && r.pos == |d|
    ensures r.Ok? ==> r.pos == p + ENCODED_SIZE && Canonical(r.value) && r.value.stream == stream
  {
    var bitfield := ReadUint32(d, p);
    if bitfield.Fail? then bitfield.PropagateFailure()
    else
      var signingKey := ReadBytes(d, bitfield.pos, 64);
      if signingKey.Fail? then signingKey.PropagateFailure()
      else
        var encryptionKey := ReadBytes(d, signingKey.pos, 64);
        if encryptionKey.Fail? then encryptionKey.PropagateFailure()
        else Ok(NewV2Pubkey(2, stream, ToInt32(bitfield.value), signingKey.value, encryptionKey.value),
                encryptionKey.pos)
  }

  /** V2Pubkey.read on an input stream. */
  method Read(input: ByteStream, stream: int64) returns (r: Outcome<V2Pubkey>)
    requires input.Valid()
    modifies input
    ensures input.Valid() && r == ReadSpec(input.data, old(input.pos), stream) && input.pos == r.pos
  {
    var bitfield := input.ReadUint32();
    if bitfield.Fail? {
      return bitfield.PropagateFailure();
    }
    var signingKey := input.ReadBytes(64);
    if signingKey.Fail? {
      return signingKey.PropagateFailure();
    }
    var encryptionKey := input.ReadBytes(64);
    if encryptionKey.Fail? {
      return encryptionKey.PropagateFailure();
    }
    r := Ok(NewV2Pubkey(2, stream, ToInt32(bitfield.value), signingKey.value, encryptionKey.value),
            encryptionKey.pos);
  }

  /** A canonical key written out reads back as the same key. */
  lemma {:induction false} WriteReadRoundTrip(k: V2Pubkey, d: bytes, p: nat)
    requires Canonical(k)
    requires p + ENCODED_SIZE <= |d| && d[p..p + ENCODED_SIZE] == StreamRun(WritePuts(k)).bytes
    ensures ReadSpec(d, p, k.stream) == Ok(k, p + ENCODED_SIZE)
  {
    WriteOutput(k);
    var sk, ek := k.signingKey[1..65], k.encryptionKey[1..65];
    Split(d, p, Int32Bytes(k.behaviorBitfield), sk + ek);
    Split(d, p + 4, sk, ek);
    Int32RoundTrip(k.behaviorBitfield, d, p);
    assert k.signingKey == [4] + sk;
    assert k.encryptionKey == [4] + ek;
  }

  /** Narrowing a uint32 field to an `int` and encoding it again gives the field. */
  lemma {:induction false} BitfieldRoundTrip(field: bytes)
    requires |field| == 4
    ensures Int32Bytes(ToInt32(BeValue(field))) == field
  {
    Pow256Values();
    var v := BeValue(field);
    BeBytesOfValue(field);
    assert 0 <= v < TWO_32 && v % TWO_32 == v;
    if v < TWO_31 {
      assert ToInt32(v) == v;
    } else {
      assert ToInt32(v) == v - TWO_32;
      assert (v - TWO_32) % TWO_32 == v;
    }
  }

  /** Reading 132 bytes and writing the key back gives those bytes again. */
  lemma {:induction false} ReadWriteRoundTrip(d: bytes, p: nat, stream: int64)
    requires p + ENCODED_SIZE <= |d|
    ensures ReadSpec(d, p, stream).Ok?
    ensures StreamRun(WritePuts(ReadSpec(d, p, stream).value)) == Emitted(d[p..p + ENCODED_SIZE], None)
  {
    var k := ReadSpec(d, p, stream).value;
    var field, sk, ek := d[p..p + 4], d[p + 4..p + 68], d[p + 68..p + 132];
    assert k.behaviorBitfield == ToInt32(BeValue(field));
    BitfieldRoundTrip(field);
    assert k.signingKey[1..] == sk && k.encryptionKey[1..] == ek;
    WriteOutput(k);
    assert d[p..p + ENCODED_SIZE] == field + sk + ek;
  }

  // ---------------------------------------------------------------------
  // Building.

  /** V2Pubkey.Builder: fields set one by one, then `build`. */
  class Builder {
    var streamNumber: int64
    var behaviorBitfield: int32
    var publicSigningKey: Option<bytes>
    var publicEncryptionKey: Option<bytes>

    constructor ()
      ensures streamNumber == 0 && behaviorBitfield == 0
      ensures publicSigningKey == None && publicEncryptionKey == None
    {
      streamNumber := 0;
      behaviorBitfield := 0;
      publicSigningKey := None;
      publicEncryptionKey := None;
    }

    method Stream(streamNumber: int64)
      modifies this
      ensures this.streamNumber == streamNumber && behaviorBitfield == old(behaviorBitfield)
      ensures publicSigningKey == old(publicSigningKey) && publicEncryptionKey == old(publicEncryptionKey)
    {
      this.streamNumber := streamNumber;
    }

    method BehaviorBitfield(behaviorBitfield: int32)
      modifies this
      ensures this.behaviorBitfield == behaviorBitfield && streamNumber == old(streamNumber)
      ensures publicSigningKey == old(publicSigningKey) && publicEncryptionKey == old(publicEncryptionKey)
    {
      this.behaviorBitfield := behaviorBitfield;
    }

    method PublicSigningKey(publicSigningKey: bytes)
      modifies this
      ensures this.publicSigningKey == Some(publicSigningKey) && publicEncryptionKey == old(publicEncryptionKey)
      ensures streamNumber == old(streamNumber) && behaviorBitfield == old(behaviorBitfield)
    {
      this.publicSigningKey := Some(publicSigningKey);
    }

    method PublicEncryptionKey(publicEncryptionKey: bytes)
      modifies this
      ensures this.publicEncryptionKey == Some(publicEncryptionKey) && publicSigningKey == old(publicSigningKey)
      ensures streamNumber == old(streamNumber) && behaviorBitfield == old(behaviorBitfield)
    {
      this.publicEncryptionKey := Some(publicEncryptionKey);
    }

    /** build(): version 2, the stream and bitfield set, and both keys passed
        through add0x04. The signing key is checked (null, then too short)
        before the encryption key. */
    method Build() returns (r: Result<V2Pubkey>)
      ensures r.Success? <==> publicSigningKey.Some? && |publicSigningKey.value| >= 64 &&
                              publicEncryptionKey.Some? && |publicEncryptionKey.value| >= 64
      ensures publicSigningKey.None? ==> r == Failure(NullPointer)
      ensures publicSigningKey.Some? && |publicSigningKey.value| < 64 ==> r == Failure(IndexOutOfBounds)
      ensures publicSigningKey.Some? && |publicSigningKey.value| >= 64 && publicEncryptionKey.None? ==>
        r == Failure(NullPointer)
      ensures publicSigningKey.Some? && |publicSigningKey.value| >= 64 && publicEncryptionKey.Some? && |publicEncryptionKey.value| < 64 ==>
        r == Failure(IndexOutOfBounds)
      ensures r.Success? ==>
        r.value.version == 2 && r.value.stream == streamNumber && r.value.behaviorBitfield == behaviorBitfield &&
        |r.value.signingKey| == 65 && |r.value.encryptionKey| == 65 &&
        r.value.signingKey[1..] == (if |publicSigningKey.value| == 65 then publicSigningKey.value[1..]
                                    else publicSigningKey.value[..64]) &&
        r.value.encryptionKey[1..] == (if |publicEncryptionKey.value| == 65 then publicEncryptionKey.value[1..]
                                       else publicEncryptionKey.value[..64])
      ensures r.Success? ==>
        r.value.signingKey == Add0x04(publicSigningKey.value).value &&
        r.value.encryptionKey == Add0x04(publicEncryptionKey.value).value
    {
      if publicSigningKey.None? {
        return Failure(NullPointer);
      }
      var signingKey := Add0x04(publicSigningKey.value);
      if signingKey.Failure? {
        return signingKey.PropagateFailure();
      }
      if publicEncryptionKey.None? {
        return Failure(NullPointer);
      }
      var encryptionKey := Add0x04(publicEncryptionKey.value);
      if encryptionKey.Failure? {
        return encryptionKey.PropagateFailure();
      }
      r := Success(NewV2Pubkey(2, streamNumber, behaviorBitfield, signingKey.value, encryptionKey.value));
    }
  }

  /** A key build() accepts keeps its first byte through add0x04 only when
      it has 65 bytes; otherwise the first byte becomes 0x04. */
  predicate StartsAs0x04(key: bytes)
  {
    |key| >= 64 && (|key| == 65 ==> key[0] == 4)
  }

  /** What build() returns for keys it accepts (see Builder.Build) is
      canonical when neither key is a 65-byte key with some other first
      byte, and then it survives a write and a read unchanged. The bytes
      after the first 64 of a longer key are dropped by add0x04 already. */
  lemma {:induction false} BuiltKeyRoundTrip(stream: int64, bitfield: int32, signingKey: bytes,
                                             encryptionKey: bytes, d: bytes, p: nat)
    requires StartsAs0x04(signingKey) && StartsAs0x04(encryptionKey)
    requires p + ENCODED_SIZE <= |d|
    requires d[p..p + ENCODED_SIZE] ==
      StreamRun(WritePuts(V2Pubkey(2, stream, bitfield, Add0x04(signingKey).value, Add0x04(encryptionKey).value))).bytes
    ensures Canonical(V2Pubkey(2, stream, bitfield, Add0x04(signingKey).value, Add0x04(encryptionKey).value))
    ensures ReadSpec(d, p, stream) ==
      Ok(V2Pubkey(2, stream, bitfield, Add0x04(signingKey).value, Add0x04(encryptionKey).value), p + ENCODED_SIZE)
  {
    var k := V2Pubkey(2, stream, bitfield, Add0x04(signingKey).value, Add0x04(encryptionKey).value);
    assert k.signingKey[0] == 4;
    assert k.encryptionKey[0] == 4;
    WriteReadRoundTrip(k, d, p);
  }

  /** A 65-byte key whose first byte is not 0x04 does not come back: the
      wire drops its first byte and the reader puts 0x04 there. */
  lemma {:induction false} OtherFirstByteLost(stream: int64, bitfield: int32, signingKey: bytes,
                                              encryptionKey: bytes, d: bytes, p: nat)
    requires |signingKey| == 65 && signingKey[0] != 4 && StartsAs0x04(encryptionKey)
    requires p + ENCODED_SIZE <= |d|
    requires d[p..p + ENCODED_SIZE] ==
      StreamRun(WritePuts(V2Pubkey(2, stream, bitfield, signingKey, Add0x04(encryptionKey).value))).bytes
    ensures ReadSpec(d, p, stream).Ok?
    ensures ReadSpec(d, p, stream).value.signingKey == [4] + signingKey[1..] != signingKey
  {
    var k := V2Pubkey(2, stream, bitfield, [4] + signingKey[1..], Add0x04(encryptionKey).value);
    var written := V2Pubkey(2, stream, bitfield, signingKey, Add0x04(encryptionKey).value);
    WriteOutput(k);
    WriteOutput(written);
    assert k.signingKey[1..65] == written.signingKey[1..65];
    WriteReadRoundTrip(k, d, p);
  }
}
