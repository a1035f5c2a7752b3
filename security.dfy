/** Proof of work (domain/.../utils/Security.java): the hashcash target an
    object's double SHA-512 must not exceed, the check of a received object,
    and the search for a nonce. SHA-512 itself is a parameter; the clock
    (System.currentTimeMillis) is passed in as `nowMillis`. */
module Security {
  import opened Wire

  // ---------------------------------------------------------------------
  // Hashing.

  /** A MessageDigest: the bytes fed in since the last digest. */
  class MessageDigest {
    const sha512: bytes -> Digest
    var buffered: bytes

    constructor (sha512: bytes -> Digest)
      ensures this.sha512 == sha512 && buffered == []
    {
      this.sha512 := sha512;
      buffered := [];
    }

    /** update(input). */
    method Update(input: bytes)
      modifies this
      ensures buffered == old(buffered) + input
    {
      buffered := buffered + input;
    }

    /** digest(): hashes what was fed in and resets. */
    method DigestAll() returns (h: Digest)
      modifies this
      ensures h == sha512(old(buffered)) && buffered == []
    {
      h := sha512(buffered);
      buffered := [];
    }

    /** digest(input): feeds `input` in, then digests. */
    method DigestWith(input: bytes) returns (h: Digest)
      modifies this
      ensures h == sha512(old(buffered) + input) && buffered == []
    {
      Update(input);
      h := DigestAll();
    }
  }

  /** The chunks of a vararg `byte[]...` laid end to end. */
  function Flatten(chunks: seq<bytes>): (f: bytes)
    ensures chunks == [] ==> f == []
  {
    if chunks == [] then [] else Flatten(chunks[..|chunks| - 1]) + chunks[|chunks| - 1]
  }

  /** How the data is split into chunks does not matter. */
  lemma {:induction false} FlattenAppend(a: seq<bytes>, b: seq<bytes>)
    ensures Flatten(a + b) == Flatten(a) + Flatten(b)
    decreases |b|
  {
    if b == [] {
      assert a + b == a;
    } else {
      var b0 := b[..|b| - 1];
      assert (a + b)[..|a + b| - 1] == a + b0;
      assert (a + b)[|a + b| - 1] == b[|b| - 1];
      FlattenAppend(a, b0);
    }
  }

  lemma {:induction false} FlattenSingle(a: bytes)
    ensures Flatten([a]) == a
  {
    assert [a][..0] == [];
    assert Flatten([a]) == Flatten([]) + a;
  }

  lemma {:induction false} FlattenPair(a: bytes, b: bytes)
    ensures Flatten([a, b]) == a + b
  {
    assert [a, b][..1] == [a];
    assert [a][..0] == [];
  }

  /** sha512(data...) through hash(): feeds every chunk to one digest, then
      digests. */
  method Sha512(data: seq<bytes>, sha512: bytes -> Digest) returns (h: Digest)
    ensures h == sha512(Flatten(data))
  {
    var mda := new MessageDigest(sha512);
    for i := 0 to |data|
      invariant mda.sha512 == sha512 && mda.buffered == Flatten(data[..i])
    {
      assert data[..i + 1][..i] == data[..i];
      mda.Update(data[i]);
    }
    assert data[..|data|] == data;
    h := mda.DigestAll();
  }

  /** SHA-512 of SHA-512 of all the chunks together. */
  ghost function DoubleHash(chunks: seq<bytes>, sha512: bytes -> Digest): Digest
  {
    sha512(sha512(Flatten(chunks)))
  }

  /** doubleSha512: feeds every chunk to one digest, then hashes the digest. */
  method DoubleSha512(data: seq<bytes>, sha512: bytes -> Digest) returns (h: Digest)
    ensures h == sha512(sha512(Flatten(data)))
  {
    var mda := new MessageDigest(sha512);
    for i := 0 to |data|
      invariant mda.sha512 == sha512 && mda.buffered == Flatten(data[..i])
    {
      assert data[..i + 1][..i] == data[..i];
      mda.Update(data[i]);
    }
    assert data[..|data|] == data;
    var first := mda.DigestAll();
    h := mda.DigestWith(first);
    assert [] + first == first;
  }

  /** The double hash of several chunks is that of their concatenation, in
      whatever pieces it comes. */
  lemma {:induction false} DoubleHashSplits(a: seq<bytes>, b: seq<bytes>, sha512: bytes -> Digest)
    ensures DoubleHash(a + b, sha512) == sha512(sha512(Flatten(a) + Flatten(b)))
  {
    FlattenAppend(a, b);
  }

  /** bytes(data, count): the first `count` bytes, in a new array. */
  function FirstBytes(data: bytes, count: int): (r: Result<bytes>)
    ensures r.Success? <==> 0 <= count <= |data|
    ensures r.Success? ==> |r.value| == count && r.value <= data
    ensures count < 0 ==> r == Failure(NegativeArraySize)
    ensures count > |data| ==> r == Failure(IndexOutOfBounds)
  {
    if count < 0 then Failure(NegativeArraySize)
    else if count > |data| then Failure(IndexOutOfBounds)
    else Success(data[..count])
  }

  // ---------------------------------------------------------------------
  // BigInteger.toByteArray and Bytes.lt.

  /** The number of bytes of the two's-complement form of t with at least
      one sign bit: the fewest n with -256^n/2 <= t < 256^n/2. */
  function SignedLength(t: int): (n: nat)
    ensures n >= 1
    ensures -2 * t <= Pow256(n) && 2 * t < Pow256(n)
    ensures n > 1 ==> !(-2 * t <= Pow256(n - 1) && 2 * t < Pow256(n - 1))
    decreases if t < 0 then -t else t
  {
    if -128 <= t < 128 then 1
    else
      var m := t / 256;
      var k := SignedLength(m);
      SignedLengthStep(t, m, Pow256(k), Pow256(k - 1), if k > 1 then Pow256(k - 2) else 0);
      1 + k
  }

  /** One more byte of two's complement: if m = t / 256 fits in the fewest
      bytes whose range is p (with p1 = p / 256 and p2 = p1 / 256), then t
      fits in 256·p and not in p. */
  lemma {:induction false} SignedLengthStep(t: int, m: int, p: int, p1: int, p2: int)
    requires m == t / 256 && (t < -128 || 128 <= t)
    requires p == 256 * p1 && p1 >= 1 && -2 * m <= p && 2 * m < p
    requires p1 == 1 || (p1 == 256 * p2 && !(-2 * m <= p1 && 2 * m < p1))
    ensures -2 * t <= 256 * p && 2 * t < 256 * p
    ensures !(-2 * t <= p && 2 * t < p)
  {
    var r := t % 256;
    assert t == 256 * m + r && 0 <= r < 256;
    assert m < 128 * p1;
    if p1 != 1 {
      if 2 * m >= p1 {
        assert 2 * t >= p;
      } else {
        assert -m >= 128 * p2 + 1;
        assert -2 * t > p;
      }
    }
  }

  /** BigInteger.toByteArray: the big-endian two's-complement form of t in
      SignedLength(t) bytes. */
  function ToByteArray(t: int): (r: bytes)
    ensures |r| == SignedLength(t)
    ensures t >= 0 ==> BeValue(r) == t
    ensures t < 0 ==> BeValue(r) == t + Pow256(|r|)
  {
    var n := SignedLength(t);
    var p := Pow256(n);
    ModRange(t, p);
    BeBytes(t % p, n)
  }

  /** Reducing a number within one period of zero. */
  lemma {:induction false} ModRange(x: int, m: int)
    requires m > 0 && -m <= x <= m
    ensures x % m == if x < 0 then x + m else if x == m then 0 else x
  {
    var q := x / m;
    assert x == m * q + x % m && 0 <= x % m < m;
    if q >= 2 {
      MulMonotone(m, 2, q);
    } else if q <= -2 {
      MulMonotone(m, q, -2);
    } else {
      assert m * q == if q == 1 then m else if q == -1 then -m else 0;
    }
  }

  /** Bytes.lt, which is not part of this model, with its assumed contract:
      the unsigned big-endian value of a is below that of b. */
  predicate Lt(a: bytes, b: bytes)
  {
    BeValue(a) < BeValue(b)
  }

  // ---------------------------------------------------------------------
  // getProofOfWorkTarget.

  /** TTL = expiresTime - now / 1000, in `long` arithmetic. */
  function TimeToLive(expiresTime: int64, nowMillis: int64): (ttl: int64)
    ensures nowMillis >= 0 && expiresTime >= 0 ==>
      (expiresTime - ttl) * 1000 <= nowMillis < (expiresTime - ttl) * 1000 + 1000
  {
    var seconds := TruncDiv(nowMillis, 1000);
    SecondsOfMillis(nowMillis, seconds);
    ToInt64(expiresTime - seconds)
  }

  /** now / 1000 for a non-negative clock: whole seconds, no overflow. */
  lemma {:induction false} SecondsOfMillis(nowMillis: int64, seconds: int)
    requires seconds == TruncDiv(nowMillis, 1000)
    ensures nowMillis >= 0 ==> 0 <= seconds < TWO_63 && seconds * 1000 <= nowMillis < seconds * 1000 + 1000
  {
    if nowMillis >= 0 {
      DivBounds(nowMillis, 1000);
      assert seconds == nowMillis / 1000;
      MulMonotone(seconds, 1, 1000);
    }
  }

  /** The denominator ntpb * (L + L * TTL / 2^16), in exact BigInteger
      arithmetic with a division truncated toward zero. */
  function PowDenominator(nonceTrialsPerByte: int, powLength: int, ttl: int): (d: int)
    ensures nonceTrialsPerByte > 0 && powLength > 0 && ttl >= 0 ==> d >= nonceTrialsPerByte * powLength
    ensures nonceTrialsPerByte > 0 && powLength > 0 && ttl > -TWO_16 ==> d > 0
    ensures ttl == -TWO_16 ==> d == 0
  {
    var q := TruncDiv(powLength * ttl, TWO_16);
    AdjustedLength(nonceTrialsPerByte, powLength, ttl, q);
    nonceTrialsPerByte * (powLength + q)
  }

  /** The sign of the adjusted length L + L·TTL/2^16. */
  lemma {:induction false} AdjustedLength(nonceTrialsPerByte: int, powLength: int, ttl: int, q: int)
    requires q == TruncDiv(powLength * ttl, TWO_16)
    ensures nonceTrialsPerByte > 0 && powLength > 0 && ttl >= 0 ==>
      nonceTrialsPerByte * (powLength + q) >= nonceTrialsPerByte * powLength
    ensures nonceTrialsPerByte > 0 && powLength > 0 && ttl > -TWO_16 ==> nonceTrialsPerByte * (powLength + q) > 0
    ensures ttl == -TWO_16 ==> powLength + q == 0
  {
    if nonceTrialsPerByte > 0 && powLength > 0 && ttl > -TWO_16 {
      if ttl >= 0 {
        MulMonotone(nonceTrialsPerByte, powLength, powLength + q);
        MulMonotone(nonceTrialsPerByte, 1, powLength);
      } else {
        ShortExpiry(powLength, ttl, q);
        MulMonotone(nonceTrialsPerByte, 1, powLength + q);
      }
    }
    if ttl == -TWO_16 {
      ExactQuotient(powLength, q);
    }
  }

  /** Less than 2^16 seconds past expiry, L·TTL/2^16 truncated toward zero
      takes away less than L. */
  lemma {:induction false} ShortExpiry(powLength: int, ttl: int, q: int)
    requires powLength > 0 && -TWO_16 < ttl < 0 && q == TruncDiv(powLength * ttl, TWO_16)
    ensures powLength + q >= 1
  {
    var a := powLength * -ttl;
    assert powLength * ttl == -a;
    MulMonotone(powLength, -ttl, TWO_16 - 1);
    assert -q * TWO_16 <= a < powLength * TWO_16;
    if -q >= powLength {
      MulMonotone(TWO_16, powLength, -q);
    }
  }

  /** Exactly 2^16 seconds past expiry, L·TTL/2^16 is -L. */
  lemma {:induction false} ExactQuotient(powLength: int, q: int)
    requires q == TruncDiv(powLength * -TWO_16, TWO_16)
    ensures q == -powLength
  {
    var n := if powLength < 0 then -powLength else powLength;
    var m := if q < 0 then -q else q;
    assert (if powLength * -TWO_16 < 0 then -(powLength * -TWO_16) else powLength * -TWO_16) == n * TWO_16;
    assert m * TWO_16 <= n * TWO_16 < (m + 1) * TWO_16;
    if m < n {
      MulMonotone(TWO_16, m + 1, n);
    } else if m > n {
      MulMonotone(TWO_16, n + 1, m);
    }
  }

  /** The denominator for an object, where L = payload length + extraBytes
      in `long` arithmetic. */
  function Denominator(payloadLength: nat, expiresTime: int64, nonceTrialsPerByte: int64,
                       extraBytes: int64, nowMillis: int64): (d: int)
    ensures nonceTrialsPerByte > 0 && extraBytes >= 0 && 0 < payloadLength + extraBytes < TWO_63 &&
            TimeToLive(expiresTime, nowMillis) > -TWO_16
            ==> d > 0
  {
    PowDenominator(nonceTrialsPerByte, ToInt64(payloadLength + extraBytes), TimeToLive(expiresTime, nowMillis))
  }

  /** 2^64 divided by the denominator, truncated toward zero. */
  function TargetValue(denominator: int): (r: Result<int>)
    ensures r.Failure? <==> denominator == 0
    ensures r.Failure? ==> r.error == DivisionByZero
    ensures r.Success? && denominator > 0 ==>
      r.value >= 0 && r.value * denominator <= TWO_64 < (r.value + 1) * denominator
    ensures r.Success? && denominator < 0 ==>
      r.value <= 0 && -r.value * -denominator <= TWO_64 < (-r.value + 1) * -denominator
  {
    if denominator == 0 then Failure(DivisionByZero)
    else
      var q := TruncDiv(TWO_64, denominator);
      assert denominator > 0 ==> q * denominator + TWO_64 % denominator == TWO_64;
      Success(q)
  }

  /** `numerator.divide(denominator).toByteArray()`: for a positive
      denominator the bytes read back, unsigned, as the quotient. */
  function TargetBytes(denominator: int): (r: Result<bytes>)
    ensures r.Failure? <==> denominator == 0
    ensures r.Failure? ==> r.error == DivisionByZero
    ensures r.Success? && denominator > 0 ==> BeValue(r.value) == TargetValue(denominator).value
  {
    var t := TargetValue(denominator);
    if t.Failure? then Failure(t.error)
    else
      var b := ToByteArray(t.value);
      assert denominator > 0 ==> BeValue(b) == t.value;
      Success(b)
  }

  /** getProofOfWorkTarget for an object with these payload bytes and expiry. */
  function ProofOfWorkTarget(payloadBytes: bytes, expiresTime: int64, nonceTrialsPerByte: int64,
                             extraBytes: int64, nowMillis: int64): (r: Result<bytes>)
    ensures var d := Denominator(|payloadBytes|, expiresTime, nonceTrialsPerByte, extraBytes, nowMillis);
      (r.Failure? <==> d == 0) && (r.Failure? ==> r.error == DivisionByZero) &&
      (r.Success? && d > 0 ==> BeValue(r.value) * d <= TWO_64 < (BeValue(r.value) + 1) * d)
  {
    TargetBytes(Denominator(|payloadBytes|, expiresTime, nonceTrialsPerByte, extraBytes, nowMillis))
  }

  lemma {:induction false} MulMonotone(a: int, b1: int, b2: int)
    requires a >= 0 && b1 <= b2
    ensures a * b1 <= a * b2
  {
    assert a * b2 - a * b1 == a * (b2 - b1);
  }

  /** 2^64 / d is non-increasing in a positive d. */
  lemma {:induction false} QuotientAntitone(d1: int, d2: int)
    requires 0 < d1 <= d2
    ensures TargetValue(d1).Success? && TargetValue(d2).Success? && TargetValue(d2).value <= TargetValue(d1).value
  {
    var q1, q2 := TargetValue(d1).value, TargetValue(d2).value;
    MulMonotone(q2, d1, d2);
    assert q2 * d1 <= TWO_64;
    if q2 > q1 {
      MulMonotone(d1, q1 + 1, q2);
    }
  }

  /** Both targets exist and the first is not above the second. */
  predicate Below(a: Result<int>, b: Result<int>)
  {
    a.Success? && b.Success? && a.value <= b.value
  }

  /** With at least one trial per byte, a positive length and a time to live
      that is not negative, more trials per byte never raise the target. */
  lemma {:induction false} TargetAntitoneInTrials(powLength: int, ttl: int, ntpb1: int, ntpb2: int)
    requires powLength >= 1 && ttl >= 0 && 1 <= ntpb1 <= ntpb2
    ensures Below(TargetValue(PowDenominator(ntpb2, powLength, ttl)), TargetValue(PowDenominator(ntpb1, powLength, ttl)))
  {
    var b := powLength + TruncDiv(powLength * ttl, TWO_16);
    var d1, d2 := PowDenominator(ntpb1, powLength, ttl), PowDenominator(ntpb2, powLength, ttl);
    assert d1 == ntpb1 * b && d2 == ntpb2 * b;
    MulMonotone(powLength, 0, ttl);
    assert b >= 1;
    MulMonotone(b, ntpb1, ntpb2);
    QuotientAntitone(d1, d2);
  }

  /** Under the same conditions, a longer time to live never raises the target. */
  lemma {:induction false} TargetAntitoneInTtl(powLength: int, ntpb: int, ttl1: int, ttl2: int)
    requires powLength >= 1 && ntpb >= 1 && 0 <= ttl1 <= ttl2
    ensures Below(TargetValue(PowDenominator(ntpb, powLength, ttl2)), TargetValue(PowDenominator(ntpb, powLength, ttl1)))
  {
    MulMonotone(powLength, 0, ttl1);
    MulMonotone(powLength, ttl1, ttl2);
    var b1 := powLength + TruncDiv(powLength * ttl1, TWO_16);
    var b2 := powLength + TruncDiv(powLength * ttl2, TWO_16);
    assert (powLength * ttl1) / TWO_16 <= (powLength * ttl2) / TWO_16;
    assert 1 <= b1 <= b2;
    MulMonotone(ntpb, b1, b2);
    MulMonotone(b1, 1, ntpb);
    QuotientAntitone(ntpb * b1, ntpb * b2);
  }

  /** For an object: the target is non-increasing in the trials per byte
      and in the expiry time, while L >= 1 and TTL >= 0. */
  lemma {:induction false} ObjectTargetAntitone(payloadLength: nat, expiresTime: int64, expiresTime2: int64,
                             ntpb: int64, ntpb2: int64, extraBytes: int64, nowMillis: int64)
    requires 1 <= ntpb <= ntpb2
    requires ToInt64(payloadLength + extraBytes) >= 1
    requires 0 <= TimeToLive(expiresTime, nowMillis) <= TimeToLive(expiresTime2, nowMillis)
    ensures Below(TargetValue(Denominator(payloadLength, expiresTime, ntpb2, extraBytes, nowMillis)),
                  TargetValue(Denominator(payloadLength, expiresTime, ntpb, extraBytes, nowMillis)))
    ensures Below(TargetValue(Denominator(payloadLength, expiresTime2, ntpb, extraBytes, nowMillis)),
                  TargetValue(Denominator(payloadLength, expiresTime, ntpb, extraBytes, nowMillis)))
  {
    var l := ToInt64(payloadLength + extraBytes);
    var ttl, ttl2 := TimeToLive(expiresTime, nowMillis), TimeToLive(expiresTime2, nowMillis);
    assert Denominator(payloadLength, expiresTime, ntpb, extraBytes, nowMillis) == PowDenominator(ntpb, l, ttl);
    assert Denominator(payloadLength, expiresTime, ntpb2, extraBytes, nowMillis) == PowDenominator(ntpb2, l, ttl);
    assert Denominator(payloadLength, expiresTime2, ntpb, extraBytes, nowMillis) == PowDenominator(ntpb, l, ttl2);
    TargetAntitoneInTrials(l, TimeToLive(expiresTime, nowMillis), ntpb, ntpb2);
    TargetAntitoneInTtl(l, ntpb, TimeToLive(expiresTime, nowMillis), TimeToLive(expiresTime2, nowMillis));
  }

  // ---------------------------------------------------------------------
  // checkProofOfWork.

  /** getInitialHash: SHA-512 of the object's payload bytes. */
  function InitialHash(payloadBytes: bytes, sha512: bytes -> Digest): (h: Digest)
    ensures h == sha512(Flatten([payloadBytes]))
  {
    FlattenSingle(payloadBytes);
    sha512(payloadBytes)
  }

  /** POWValue: bytes(doubleSha512(nonce, initialHash), 8). */
  function PowValue(nonce: bytes, initialHash: bytes, sha512: bytes -> Digest): (v: bytes)
    ensures |v| == 8
  {
    FirstBytes(sha512(sha512(nonce + initialHash)), 8).value
  }

  /** The value is the first eight bytes of the double hash of the two
      chunks, as doubleSha512(nonce, initialHash) computes it. */
  lemma {:induction false} PowValueOfChunks(nonce: bytes, initialHash: bytes, sha512: bytes -> Digest)
    ensures PowValue(nonce, initialHash, sha512) == DoubleHash([nonce, initialHash], sha512)[..8]
  {
    FlattenPair(nonce, initialHash);
  }

  /** checkProofOfWork: None when the object passes; otherwise the exception
      it throws. A missing nonce fails in the digest's update. */
  function CheckProofOfWork(nonce: Option<bytes>, payloadBytes: bytes, expiresTime: int64,
                            nonceTrialsPerByte: int64, extraBytes: int64, nowMillis: int64,
                            sha512: bytes -> Digest): (r: Option<Error>)
    ensures nonce.None? ==> r == Some(NullPointer)
    ensures nonce.Some? ==>
      var target := ProofOfWorkTarget(payloadBytes, expiresTime, nonceTrialsPerByte, extraBytes, nowMillis);
      (r == Some(DivisionByZero) <==> target.Failure?) &&
      (r == Some(InsufficientProofOfWork) <==>
        target.Success? && Lt(target.value, PowValue(nonce.value, InitialHash(payloadBytes, sha512), sha512))) &&
      (r == None <==>
        target.Success? && !Lt(target.value, PowValue(nonce.value, InitialHash(payloadBytes, sha512), sha512)))
  {
    if nonce.None? then Some(NullPointer) else
    var initialHash := InitialHash(payloadBytes, sha512);
    var powValue := PowValue(nonce.value, initialHash, sha512);
    var target := ProofOfWorkTarget(payloadBytes, expiresTime, nonceTrialsPerByte, extraBytes, nowMillis);
    if target.Failure? then Some(target.error)
    else if Lt(target.value, powValue) then Some(InsufficientProofOfWork)
    else None
  }

  /** With a positive denominator, the check fails exactly when the target
      2^64 / denominator is below the first eight bytes of the double hash,
      read as an unsigned number. */
  lemma {:induction false} CheckProofOfWorkNumeric(nonce: bytes, payloadBytes: bytes, expiresTime: int64,
                                nonceTrialsPerByte: int64, extraBytes: int64, nowMillis: int64,
                                sha512: bytes -> Digest)
    requires Denominator(|payloadBytes|, expiresTime, nonceTrialsPerByte, extraBytes, nowMillis) > 0
    ensures var den := Denominator(|payloadBytes|, expiresTime, nonceTrialsPerByte, extraBytes, nowMillis);
      var target := TargetValue(den).value;
      var pow := BeValue(DoubleHash([nonce, sha512(payloadBytes)], sha512)[..8]);
      var r := CheckProofOfWork(Some(nonce), payloadBytes, expiresTime, nonceTrialsPerByte, extraBytes, nowMillis, sha512);
      (r == Some(InsufficientProofOfWork) <==> target < pow) && (r == None <==> pow <= target)
  {
    PowValueOfChunks(nonce, sha512(payloadBytes), sha512);
  }

  // ---------------------------------------------------------------------
  // doProofOfWork.

  lemma {:induction false} BeBytesZero(n: nat)
    ensures BeBytes(0, n) == seq<byte>(n, _ => 0)
  {
    if n > 0 {
      BeBytesZero(n - 1);
      assert seq<byte>(n, _ => 0) == seq<byte>(n - 1, _ => 0) + [0];
    }
  }

  /** Bytes.inc, which is not part of this model, with its assumed
      behaviour: a big-endian increment that carries into the byte before
      and wraps around. */
  function IncBytes(s: bytes): (r: bytes)
    ensures |r| == |s|
  {
    if s == [] then []
    else if s[|s| - 1] == 255 then IncBytes(s[..|s| - 1]) + [0]
    else s[..|s| - 1] + [s[|s| - 1] + 1]
  }

  lemma {:induction false} BeValueSnoc(pre: bytes, b: byte)
    ensures BeValue(pre + [b]) == BeValue(pre) * 256 + b
  {
    assert (pre + [b])[..|pre|] == pre;
  }

  /** The increment adds one modulo 256^|s|. */
  lemma {:induction false} IncValue(s: bytes)
    ensures BeValue(IncBytes(s)) == (BeValue(s) + 1) % Pow256(|s|)
  {
    if s != [] {
      var pre, last := s[..|s| - 1], s[|s| - 1];
      assert s == pre + [last];
      BeValueSnoc(pre, last);
      var v, p := BeValue(pre), Pow256(|pre|);
      assert Pow256(|s|) == 256 * p;
      IncArith(v, p, last as nat);
      if last == 255 {
        IncValue(pre);
        BeValueSnoc(IncBytes(pre), 0);
      } else {
        BeValueSnoc(pre, last + 1);
      }
    }
  }

  /** The arithmetic of one increment step: a 0xFF byte wraps and carries
      into the value before it; any other byte takes the +1 without carry. */
  lemma {:induction false} IncArith(v: nat, p: nat, last: nat)
    requires v < p && last <= 255
    ensures last == 255 ==> 256 * ((v + 1) % p) == (256 * v + last + 1) % (256 * p)
    ensures last < 255 ==> 256 * v + last + 1 == (256 * v + last + 1) % (256 * p)
  {
    ModRange(v + 1, p);
    ModRange(256 * v + last + 1, 256 * p);
  }

  /** Incrementing one more byte of a prefix: the byte goes up by one, or it
      wraps to 0 and the carry goes into the prefix before it. */
  lemma {:induction false} IncPrefix(s: bytes, i: nat)
    requires i < |s|
    ensures s[..i + 1] == s[..i] + [s[i]]
    ensures IncBytes(s[..i + 1]) ==
      if s[i] == 255 then IncBytes(s[..i]) + [0] else s[..i] + [(s[i] as int + 1) as byte]
  {
    assert s[..i + 1][..i] == s[..i];
  }

  /** Bytes that are all 0xFF wrap to 0 and carry into the prefix before them. */
  lemma {:induction false} IncCarry(s: bytes, i: nat)
    requires i <= |s| && forall j :: i <= j < |s| ==> s[j] == 255
    ensures IncBytes(s) == IncBytes(s[..i]) + seq(|s| - i, _ => 0)
    decreases |s| - i
  {
    if i < |s| {
      IncCarry(s, i + 1);
      IncPrefix(s, i);
      assert IncBytes(s[..i]) + [0] + seq(|s| - i - 1, _ => 0) == IncBytes(s[..i]) + seq(|s| - i, _ => 0);
    } else {
      assert s[..i] == s;
    }
  }

  /** inc on the nonce array, in place: the last byte goes up by one and a
      byte that wraps to 0 carries into the one before. */
  method Inc(a: array<byte>)
    modifies a
    ensures a[..] == IncBytes(old(a[..]))
  {
    ghost var s := a[..];
    var i := a.Length;
    while i > 0
      invariant 0 <= i <= a.Length
      invariant forall j :: 0 <= j < i ==> a[j] == s[j]
      invariant forall j :: i <= j < a.Length ==> a[j] == 0 && s[j] == 255
    {
      i := i - 1;
      a[i] := (a[i] as int + 1) % 256;
      if a[i] != 0 {
        IncCarry(s, i + 1);
        IncPrefix(s, i);
        assert a[..] == s[..i] + [a[i]] + seq(a.Length - i - 1, _ => 0);
        return;
      }
    }
    IncCarry(s, 0);
    assert a[..] == seq(a.Length, _ => 0);
  }

  /** The nonce after k increments of the new all-zero 8-byte array. */
  function NonceBytes(k: nat): (n: bytes)
    ensures |n| == 8
  {
    if k == 0 then seq<byte>(8, _ => 0) else IncBytes(NonceBytes(k - 1))
  }

  /** The k-th nonce is k modulo 2^64 in 8 big-endian bytes; the first one
      tried is 1. */
  lemma {:induction false} NonceValue(k: nat)
    ensures BeValue(NonceBytes(k)) == k % TWO_64
  {
    if k == 0 {
      BeBytesZero(8);
    } else {
      var prev := NonceBytes(k - 1);
      NonceValue(k - 1);
      IncValue(prev);
      Pow256Values();
      WrapStep(k - 1, BeValue(prev));
    }
  }

  lemma {:induction false} NonceIsBigEndian(k: nat)
    ensures NonceBytes(k) == BeBytes(k % TWO_64, 8)
  {
    Pow256Values();
    NonceValue(k);
    BeBytesOfValue(NonceBytes(k));
  }

  lemma {:induction false} WrapStep(k: nat, m: nat)
    requires m == k % TWO_64
    ensures (m + 1) % TWO_64 == (k + 1) % TWO_64
  {
    var q := k / TWO_64;
    assert k == q * TWO_64 + m;
    if m + 1 < TWO_64 {
      assert k + 1 == q * TWO_64 + (m + 1);
    } else {
      assert k + 1 == (q + 1) * TWO_64;
    }
  }

  /** The trial value of the k-th nonce. */
  function Trial(k: nat, initialHash: bytes, sha512: bytes -> Digest): bytes
  {
    PowValue(NonceBytes(k), initialHash, sha512)
  }

  /** The object being mined: its nonce (null until set), its expiry and its payload bytes. */
  class PowObject {
    var nonce: Option<bytes>
    const expiresTime: int64
    const payloadBytes: bytes

    constructor (expiresTime: int64, payloadBytes: bytes)
      ensures nonce == None && this.expiresTime == expiresTime && this.payloadBytes == payloadBytes
    {
      nonce := None;
      this.expiresTime := expiresTime;
      this.payloadBytes := payloadBytes;
    }
  }

  /** How the bounded search ends: after the k-th trial passed, or with
      every trial up to the bound failing. */
  datatype Mining = Mined(trials: nat) | GaveUp

  /** One pass of the do-while body: `inc(nonce)`, update the reused digest
      with the nonce and the initial hash, then `bytes(mda.digest(mda.digest()), 8)`. */
  method NextTrial(a: array<byte>, mda: MessageDigest, initialHash: bytes, ghost k: nat) returns (v: bytes)
    requires a[..] == NonceBytes(k) && mda.buffered == []
    modifies a, mda
    ensures a[..] == NonceBytes(k + 1) && mda.buffered == []
    ensures v == Trial(k + 1, initialHash, mda.sha512)
  {
    Inc(a);
    var nonce := a[..];
    mda.Update(nonce);
    mda.Update(initialHash);
    var first := mda.DigestAll();
    var second := mda.DigestWith(first);
    v := FirstBytes(second, 8).value;
    assert [] + nonce + initialHash == nonce + initialHash;
    assert [] + first == first;
  }

  /** The do-while of doProofOfWork, cut off after `fuel` trials: a fresh
      all-zero nonce is incremented before each trial, so the first nonce
      tried is 1, and the search stops at the first nonce whose trial value
      does not exceed the target. */
  method SearchNonce(target: bytes, initialHash: bytes, sha512: bytes -> Digest, fuel: nat)
    returns (found: Option<nat>, nonce: bytes)
    ensures found.Some? ==>
      var k := found.value;
      1 <= k <= fuel && nonce == NonceBytes(k) && !Lt(target, Trial(k, initialHash, sha512)) &&
      forall j :: 1 <= j < k ==> Lt(target, Trial(j, initialHash, sha512))
    ensures found.None? ==> forall j :: 1 <= j <= fuel ==> Lt(target, Trial(j, initialHash, sha512))
  {
    var a := new byte[8](_ => 0);
    assert a[..] == NonceBytes(0);
    var mda := new MessageDigest(sha512);
    var trials: nat := 0;
    while trials < fuel
      invariant trials <= fuel && a[..] == NonceBytes(trials)
      invariant mda.sha512 == sha512 && mda.buffered == []
      invariant forall j :: 1 <= j <= trials ==> Lt(target, Trial(j, initialHash, sha512))
    {
      var trialValue := NextTrial(a, mda, initialHash, trials);
      trials := trials + 1;
      if !Lt(target, trialValue) {
        return Some(trials), a[..];
      }
    }
    found, nonce := None, a[..];
  }

  /** doProofOfWork: the target, the search, and `setNonce` with the nonce
      found. With the same clock the object then passes checkProofOfWork. */
  method DoProofOfWork(obj: PowObject, nonceTrialsPerByte: int64, extraBytes: int64, nowMillis: int64,
                       sha512: bytes -> Digest, fuel: nat) returns (r: Result<Mining>)
    modifies obj
    ensures var target := ProofOfWorkTarget(obj.payloadBytes, obj.expiresTime, nonceTrialsPerByte, extraBytes, nowMillis);
      var initialHash := InitialHash(obj.payloadBytes, sha512);
      (r.Failure? <==> target.Failure?) && (r.Failure? ==> r.error == target.error) &&
      (r.Success? && r.value.Mined? ==>
        var k := r.value.trials;
        1 <= k <= fuel && obj.nonce == Some(NonceBytes(k)) &&
        (forall j :: 1 <= j < k ==> Lt(target.value, Trial(j, initialHash, sha512))) &&
        CheckProofOfWork(obj.nonce, obj.payloadBytes, obj.expiresTime, nonceTrialsPerByte, extraBytes, nowMillis, sha512) == None) &&
      (r == Success(GaveUp) ==> forall j :: 1 <= j <= fuel ==> Lt(target.value, Trial(j, initialHash, sha512)))
    ensures !(r.Success? && r.value.Mined?) ==> obj.nonce == old(obj.nonce)
  {
    var initialHash := InitialHash(obj.payloadBytes, sha512);
    var target := ProofOfWorkTarget(obj.payloadBytes, obj.expiresTime, nonceTrialsPerByte, extraBytes, nowMillis);
    if target.Failure? {
      return Failure(target.error);
    }
    var found, nonce := SearchNonce(target.value, initialHash, sha512, fuel);
    if found.None? {
      return Success(GaveUp);
    }
    obj.nonce := Some(nonce);
    r := Success(Mined(found.value));
  }
}
