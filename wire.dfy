/** Bytes, integers of the widths the JVM code uses, and the Bitmessage wire
    encodings of fixed-width and variable-length integers.

    The decoding and encoding helpers of the repository (`Decode`, `Encode`)
    are not part of this model; the functions here state the behaviour the
    decoders and encoders rely on: big-endian fixed-width integers, `var_int`
    as in the Bitmessage protocol, and a failure when the input runs out. */
module Wire {

  type byte = b: int | 0 <= b < 256
  type bytes = seq<byte>

  const TWO_16: int := 0x1_0000
  const TWO_31: int := 0x8000_0000
  const TWO_32: int := 0x1_0000_0000
  const TWO_63: int := 0x8000_0000_0000_0000
  const TWO_64: int := 0x1_0000_0000_0000_0000

  /** A JVM `int` and `long`. */
  type int32 = x: int | -TWO_31 <= x < TWO_31
  type int64 = x: int | -TWO_63 <= x < TWO_63

  /** A SHA-512 digest. */
  type Digest = s: bytes | |s| == 64 witness seq<byte>(64, _ => 0)

  /** A JVM byte array: its length is an `int`, so below 2^31. */
  type JBytes = b: bytes | |b| < TWO_31

  datatype Option<+T> = None | Some(value: T)

  /** The exceptions the modelled code throws, by cause. */
  datatype Error =
    | EndOfStream              // IOException: fewer bytes left than a read asked for
    | NegativeArraySize        // NegativeArraySizeException: a negative length reached an allocation
    | IndexOutOfBounds         // IndexOutOfBoundsException: a copy or slice outside an array
    | NullPointer              // NullPointerException: a field that was never set
    | BadCommandPadding        // IOException: a non-NUL byte after the NUL in a command name
    | MagicNotFound            // NodeException: no MAGIC bytes within the search bound
    | PayloadTooLarge          // NodeException: declared payload length above the cap
    | ChecksumFailed           // IOException: checksum differs from the payload's hash
    | InsufficientProofOfWork  // IOException: trial value above the target
    | DivisionByZero           // ArithmeticException: BigInteger division by zero
    | UnknownEnumName          // IllegalArgumentException: Enum.valueOf of an unknown name
    | BufferOverflow           // BufferOverflowException: a put beyond a ByteBuffer's limit
    | PayloadParseError        // any exception thrown by an object payload parser
    | EmptyReduce              // UnsupportedOperationException: reduce of an empty collection

  /** A result without a stream position. */
  datatype Result<+T> = Success(value: T) | Failure(error: Error) {
    predicate IsFailure() { Failure? }
    function PropagateFailure<U>(): Result<U> requires Failure? { Failure(error) }
    function Extract(): T requires Success? { value }
  }

  /** The result of consuming input from a stream, together with the position
      the stream is left at, on success and on failure alike. */
  datatype Outcome<+T> = Ok(value: T, pos: nat) | Fail(error: Error, pos: nat) {
    predicate IsFailure() { Fail? }
    function PropagateFailure<U>(): Outcome<U> requires Fail? { Fail(error, pos) }
    function Extract(): T requires Ok? { value }
  }

  function Min(a: int, b: int): int { if a <= b then a else b }

  /** Java's `/` on integers and BigInteger.divide: the quotient is truncated
      toward zero (Dafny's `/` is Euclidean). */
  function TruncDiv(a: int, b: int): (q: int)
    requires b != 0
    ensures b > 0 && a >= 0 ==> q == a / b
    ensures (a < 0) != (b < 0) ==> q <= 0
    ensures (a < 0) == (b < 0) ==> q >= 0
    ensures (if q < 0 then -q else q) * (if b < 0 then -b else b) <= (if a < 0 then -a else a)
    ensures (if a < 0 then -a else a) < ((if q < 0 then -q else q) + 1) * (if b < 0 then -b else b)
  {
    var na := if a < 0 then -a else a;
    var nb := if b < 0 then -b else b;
    DivBounds(na, nb);
    if (a < 0) == (b < 0) then na / nb else -(na / nb)
  }

  /** Euclidean division of naturals brackets the dividend. */
  lemma {:induction false} DivBounds(n: nat, m: nat)
    requires m > 0
    ensures n / m >= 0 && (n / m) * m <= n < (n / m + 1) * m
  {
    var k := n / m;
    assert n == k * m + n % m;
    assert (k + 1) * m == k * m + m;
  }

  /** Truncating division is odd in the dividend, which Euclidean division
      is not: -7 / 2 is -3 in Java, and -4 in Dafny. */
  lemma {:induction false} TruncDivNegate(a: int, b: int)
    requires b != 0
    ensures TruncDiv(-a, b) == -TruncDiv(a, b)
  {
  }

  /** The low 32 bits of x read as a JVM `int`: Kotlin `Long.toInt()`, Java `(int)`. */
  function ToInt32(x: int): (r: int32)
    ensures (r - x) % TWO_32 == 0
    ensures -TWO_31 <= x < TWO_31 ==> r == x
  {
    var u := x % TWO_32;
    if u < TWO_31 then u else u - TWO_32
  }

  /** The low 64 bits of x read as a JVM `long`: the result of `long` arithmetic. */
  function ToInt64(x: int): (r: int64)
    ensures (r - x) % TWO_64 == 0
    ensures -TWO_63 <= x < TWO_63 ==> r == x
  {
    var u := x % TWO_64;
    if u < TWO_63 then u else u - TWO_64
  }

  function Pow256(n: nat): (r: nat)
    ensures r >= 1
  {
    if n == 0 then 1 else 256 * Pow256(n - 1)
  }

  lemma {:induction false} Pow256Values()
    ensures Pow256(2) == TWO_16 && Pow256(4) == TWO_32 && Pow256(8) == TWO_64
  {
  }

  /** The unsigned big-endian value of a byte string. */
  function BeValue(s: bytes): (v: nat)
    ensures v < Pow256(|s|)
  {
    if s == [] then 0
    else
      var w := BeValue(s[..|s| - 1]);
      assert w * 256 + s[|s| - 1] < Pow256(|s| - 1) * 256 by {
        assert w + 1 <= Pow256(|s| - 1);
        assert (w + 1) * 256 <= Pow256(|s| - 1) * 256;
      }
      w * 256 + s[|s| - 1]
  }

  /** The n-byte big-endian form of v. */
  function BeBytes(v: nat, n: nat): (r: bytes)
    requires v < Pow256(n)
    ensures |r| == n
    ensures BeValue(r) == v
  {
    if n == 0 then []
    else
      assert v / 256 < Pow256(n - 1);
      var pre := BeBytes(v / 256, n - 1);
      var r := pre + [v % 256];
      assert r[..|r| - 1] == pre;
      r
  }

  lemma {:induction false} BeBytesOfValue(s: bytes)
    ensures BeBytes(BeValue(s), |s|) == s
  {
    if s != [] {
      var pre := s[..|s| - 1];
      BeBytesOfValue(pre);
      assert BeValue(s) / 256 == BeValue(pre);
      assert BeValue(s) % 256 == s[|s| - 1];
      assert s == pre + [s[|s| - 1]];
    }
  }

  /** Two byte strings of one length with the same value are equal. */
  lemma {:induction false} BeValueInjective(a: bytes, b: bytes)
    requires |a| == |b| && BeValue(a) == BeValue(b)
    ensures a == b
  {
    BeBytesOfValue(a);
    BeBytesOfValue(b);
  }

  /** Encode.int32 / Encode.int64: the low 32 (64) bits, big-endian. */
  function Int32Bytes(x: int): (r: bytes)
    ensures |r| == 4
  {
    Pow256Values();
    BeBytes(x % TWO_32, 4)
  }

  function Int64Bytes(x: int): (r: bytes)
    ensures |r| == 8
  {
    Pow256Values();
    BeBytes(x % TWO_64, 8)
  }

  /** The Bitmessage var_int of an unsigned 64-bit value: one byte below
      0xFD, otherwise 0xFD, 0xFE or 0xFF followed by 2, 4 or 8 bytes. */
  function VarIntBytes(v: nat): (r: bytes)
    requires v < TWO_64
    ensures |r| == VarIntSize(v)
    ensures r[0] < 0xFD <==> |r| == 1
  {
    Pow256Values();
    if v < 0xFD then [v]
    else if v < TWO_16 then [0xFD] + BeBytes(v, 2)
    else if v < TWO_32 then [0xFE] + BeBytes(v, 4)
    else [0xFF] + BeBytes(v, 8)
  }

  function VarIntSize(v: nat): nat
  {
    if v < 0xFD then 1 else if v < TWO_16 then 3 else if v < TWO_32 then 5 else 9
  }

  /** Encode.varInt of a JVM `long`: a negative value is written through its
      unsigned 64-bit reinterpretation (0xFF and eight bytes). */
  function LongVarIntBytes(x: int64): (r: bytes)
    ensures 1 <= |r| <= 9
  {
    VarIntBytes(x % TWO_64)
  }

  /** var_bytes and var_str: a var_int length followed by the bytes. */
  function VarBytes(data: bytes): (r: bytes)
    requires |data| < TWO_64
    ensures |r| == VarIntSize(|data|) + |data|
  {
    VarIntBytes(|data|) + data
  }

  // ---------------------------------------------------------------------
  // Decoding from a byte string `d` at position `p`.

  /** What `(byte) stream.read()` yields at absolute position i: the byte, or
      0xFF (the -1 of end of stream cast to a byte). */
  function StreamByte(d: bytes, i: nat): byte
  {
    if i < |d| then d[i] else 0xFF
  }

  /** Decode.bytes: n bytes, failing past the end of the input. */
  function ReadBytes(d: bytes, p: nat, n: int): (r: Outcome<bytes>)
    requires p <= |d|
    ensures r.pos <= |d|
    ensures r.Ok? <==> 0 <= n && p + n <= |d|
    ensures r.Ok? ==> r.value == d[p..p + n] && r.pos == p + n
    ensures r.Fail? && n < 0 ==> r.error == NegativeArraySize && r.pos == p
    ensures r.Fail? && n >= 0 ==> r.error == EndOfStream && r.pos == |d|
  {
    if n < 0 then Fail(NegativeArraySize, p)
    else if p + n > |d| then Fail(EndOfStream, |d|)
    else Ok(d[p..p + n], p + n)
  }

  function ReadUnsigned(d: bytes, p: nat, n: nat): (r: Outcome<nat>)
    requires p <= |d|
    ensures r.pos <= |d|
    ensures r.Ok? <==> p + n <= |d|
    ensures r.Ok? ==> r.value == BeValue(d[p..p + n]) && r.pos == p + n
  {
    var b := ReadBytes(d, p, n);
    if b.Fail? then b.PropagateFailure() else Ok(BeValue(b.value), b.pos)
  }

  /** Decode.uint16 / uint32: unsigned big-endian. */
  function ReadUint16(d: bytes, p: nat): (r: Outcome<nat>)
    requires p <= |d|
    ensures r.pos <= |d|
    ensures r.Ok? ==> r.value < TWO_16
  {
    Pow256Values();
    ReadUnsigned(d, p, 2)
  }

  function ReadUint32(d: bytes, p: nat): (r: Outcome<nat>)
    requires p <= |d|
    ensures r.pos <= |d|
    ensures r.Ok? ==> r.value < TWO_32
  {
    Pow256Values();
    ReadUnsigned(d, p, 4)
  }

  /** Decode.int32 / int64: two's complement big-endian. */
  function ReadInt32(d: bytes, p: nat): (r: Outcome<int32>)
    requires p <= |d|
    ensures r.pos <= |d|
  {
    var u := ReadUnsigned(d, p, 4);
    if u.Fail? then u.PropagateFailure() else Ok(ToInt32(u.value), u.pos)
  }

  function ReadInt64(d: bytes, p: nat): (r: Outcome<int64>)
    requires p <= |d|
    ensures r.pos <= |d|
  {
    var u := ReadUnsigned(d, p, 8);
    if u.Fail? then u.PropagateFailure() else Ok(ToInt64(u.value), u.pos)
  }

  /** Decode.varInt: the protocol's var_int, read as an unsigned value. */
  function ReadVarInt(d: bytes, p: nat): (r: Outcome<nat>)
    requires p <= |d|
    ensures r.pos <= |d|
    ensures r.Ok? ==> r.value < TWO_64 && p < r.pos
  {
    Pow256Values();
    if p == |d| then Fail(EndOfStream, |d|)
    else
      var first := d[p];
      if first < 0xFD then Ok(first, p + 1)
      else ReadUnsigned(d, p + 1, if first == 0xFD then 2 else if first == 0xFE then 4 else 8)
  }

  /** Decode.varBytes and Decode.varString: a var_int length, then that many
      bytes (a string is kept as its encoded bytes). */
  function ReadVarBytes(d: bytes, p: nat): (r: Outcome<bytes>)
    requires p <= |d|
    ensures r.pos <= |d|
  {
    var n := ReadVarInt(d, p);
    if n.Fail? then n.PropagateFailure() else ReadBytes(d, n.pos, n.value)
  }

  /** `count` var_ints in a row. */
  function ReadVarInts(d: bytes, p: nat, count: nat): (r: Outcome<seq<nat>>)
    requires p <= |d|
    ensures r.pos <= |d|
    ensures r.Ok? ==> |r.value| == count
  {
    if count == 0 then Ok([], p)
    else
      var init := ReadVarInts(d, p, count - 1);
      if init.Fail? then init.PropagateFailure()
      else
        var last := ReadVarInt(d, init.pos);
        if last.Fail? then last.PropagateFailure() else Ok(init.value + [last.value], last.pos)
  }

  /** Decode.varIntList: a var_int count, then that many var_ints. */
  function ReadVarIntList(d: bytes, p: nat): (r: Outcome<seq<nat>>)
    requires p <= |d|
    ensures r.pos <= |d|
  {
    var n := ReadVarInt(d, p);
    if n.Fail? then n.PropagateFailure() else ReadVarInts(d, n.pos, n.value)
  }

  // ---------------------------------------------------------------------
  // Round trips between the encodings and the decoders.

  lemma {:induction false} ReadUnsignedOf(d: bytes, p: nat, v: nat, n: nat)
    requires v < Pow256(n) && p + n <= |d| && d[p..p + n] == BeBytes(v, n)
    ensures ReadUnsigned(d, p, n) == Ok(v, p + n)
  {
  }

  /** A var_int written by VarIntBytes reads back as the same value and is
      consumed exactly. */
  lemma {:induction false} VarIntRoundTrip(v: nat, d: bytes, p: nat)
    requires v < TWO_64
    requires p + VarIntSize(v) <= |d| && d[p..p + VarIntSize(v)] == VarIntBytes(v)
    ensures ReadVarInt(d, p) == Ok(v, p + VarIntSize(v))
  {
    Pow256Values();
    var e := VarIntBytes(v);
    assert d[p] == e[0];
    if v >= 0xFD {
      var k := VarIntSize(v) - 1;
      assert d[p + 1..p + 1 + k] == e[1..];
      ReadUnsignedOf(d, p + 1, v, k);
    }
  }

  /** A slice of `d` holding a + b holds a, then b. */
  lemma {:induction false} Split(d: bytes, p: nat, a: bytes, b: bytes)
    requires p + |a| + |b| <= |d| && d[p..p + |a| + |b|] == a + b
    ensures d[p..p + |a|] == a && d[p + |a|..p + |a| + |b|] == b
  {
    assert d[p..p + |a|] == d[p..p + |a| + |b|][..|a|];
    assert d[p + |a|..p + |a| + |b|] == d[p..p + |a| + |b|][|a|..];
  }

  /** A var_int written in front of other bytes reads back as its value and
      leaves those bytes next. */
  lemma {:induction false} VarIntPrefix(v: nat, rest: bytes, d: bytes, p: nat)
    requires v < TWO_64
    requires p + |VarIntBytes(v) + rest| <= |d| && d[p..p + |VarIntBytes(v) + rest|] == VarIntBytes(v) + rest
    ensures ReadVarInt(d, p) == Ok(v, p + VarIntSize(v))
    ensures d[p + VarIntSize(v)..p + VarIntSize(v) + |rest|] == rest
  {
    Split(d, p, VarIntBytes(v), rest);
    VarIntRoundTrip(v, d, p);
  }

  /** Once the length prefix is read, var_bytes is the slice that follows it. */
  lemma {:induction false} ReadVarBytesOf(d: bytes, p: nat, data: bytes, q: nat)
    requires p <= |d| && ReadVarInt(d, p) == Ok(|data|, q)
    requires q + |data| <= |d| && d[q..q + |data|] == data
    ensures ReadVarBytes(d, p) == Ok(data, q + |data|)
  {
  }

  lemma {:induction false} VarBytesRoundTrip(data: bytes, d: bytes, p: nat)
    requires |data| < TWO_64
    requires p + |VarBytes(data)| <= |d| && d[p..p + |VarBytes(data)|] == VarBytes(data)
    ensures ReadVarBytes(d, p) == Ok(data, p + |VarBytes(data)|)
  {
    VarIntPrefix(|data|, data, d, p);
    ReadVarBytesOf(d, p, data, p + VarIntSize(|data|));
  }

  /** The two's complement reading of the low 32 (64) bits of a JVM `int`
      (`long`) is that value. */
  lemma {:induction false} Int32OfLowBits(x: int32)
    ensures ToInt32(x % TWO_32) == x
  {
    if x >= 0 {
      assert x % TWO_32 == x;
    } else {
      assert x % TWO_32 == x + TWO_32;
    }
  }

  lemma {:induction false} Int64OfLowBits(x: int64)
    ensures ToInt64(x % TWO_64) == x
  {
    if x >= 0 {
      assert x % TWO_64 == x;
    } else {
      assert x % TWO_64 == x + TWO_64;
    }
  }

  /** Reading a 4-byte field written by Int32Bytes and narrowing it to a JVM
      `int` gives back the original `int`. */
  lemma {:induction false} Int32RoundTrip(x: int32, d: bytes, p: nat)
    requires p + 4 <= |d| && d[p..p + 4] == Int32Bytes(x)
    ensures ReadUint32(d, p).Ok? && ToInt32(ReadUint32(d, p).value) == x
    ensures ReadInt32(d, p) == Ok(x, p + 4)
  {
    Pow256Values();
    ReadUnsignedOf(d, p, x % TWO_32, 4);
    Int32OfLowBits(x);
  }

  lemma {:induction false} Int64RoundTrip(x: int64, d: bytes, p: nat)
    requires p + 8 <= |d| && d[p..p + 8] == Int64Bytes(x)
    ensures ReadInt64(d, p) == Ok(x, p + 8)
  {
    Pow256Values();
    ReadUnsignedOf(d, p, x % TWO_64, 8);
    Int64OfLowBits(x);
  }
}
