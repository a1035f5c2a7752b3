/** The JVM stream objects the decoders and writers work on: an input stream
    over a byte string (`ByteArrayInputStream` or a socket's stream), an
    unbounded `OutputStream`, and a fixed-capacity `ByteBuffer`. */
module Streams {
  import opened Wire

  /** An input stream over `data`. `pos` is the number of bytes handed out;
      `read()` returns the next byte, or -1 once the data is exhausted, and
      then stays at the end. */
  class ByteStream {
    const data: bytes
    var pos: nat

    ghost predicate Valid()
      reads this
    {
      pos <= |data|
    }

    constructor (data: bytes)
      ensures Valid() && this.data == data && pos == 0
    {
      this.data := data;
      pos := 0;
    }

    /** InputStream.read(). */
    method Read() returns (r: int)
      requires Valid()
      modifies this
      ensures Valid()
      ensures old(pos) < |data| ==> r == data[old(pos)] && pos == old(pos) + 1
      ensures old(pos) == |data| ==> r == -1 && pos == old(pos)
    {
      if pos < |data| {
        r := data[pos];
        pos := pos + 1;
      } else {
        r := -1;
      }
    }

    /** Decode.bytes. */
    method ReadBytes(n: int) returns (r: Outcome<bytes>)
      requires Valid()
      modifies this
      ensures Valid() && r == Wire.ReadBytes(data, old(pos), n) && pos == r.pos
    {
      r := Wire.ReadBytes(data, pos, n);
      pos := r.pos;
    }

    /** Decode.uint16. */
    method ReadUint16() returns (r: Outcome<nat>)
      requires Valid()
      modifies this
      ensures Valid() && r == Wire.ReadUint16(data, old(pos)) && pos == r.pos
    {
      r := Wire.ReadUint16(data, pos);
      pos := r.pos;
    }

    /** Decode.uint32. */
    method ReadUint32() returns (r: Outcome<nat>)
      requires Valid()
      modifies this
      ensures Valid() && r == Wire.ReadUint32(data, old(pos)) && pos == r.pos
    {
      r := Wire.ReadUint32(data, pos);
      pos := r.pos;
    }

    /** Decode.int32. */
    method ReadInt32() returns (r: Outcome<int32>)
      requires Valid()
      modifies this
      ensures Valid() && r == Wire.ReadInt32(data, old(pos)) && pos == r.pos
    {
      r := Wire.ReadInt32(data, pos);
      pos := r.pos;
    }

    /** Decode.int64. */
    method ReadInt64() returns (r: Outcome<int64>)
      requires Valid()
      modifies this
      ensures Valid() && r == Wire.ReadInt64(data, old(pos)) && pos == r.pos
    {
      r := Wire.ReadInt64(data, pos);
      pos := r.pos;
    }

    /** Decode.varInt. */
    method ReadVarInt() returns (r: Outcome<nat>)
      requires Valid()
      modifies this
      ensures Valid() && r == Wire.ReadVarInt(data, old(pos)) && pos == r.pos
    {
      r := Wire.ReadVarInt(data, pos);
      pos := r.pos;
    }

    /** Decode.varBytes and Decode.varString. */
    method ReadVarBytes() returns (r: Outcome<bytes>)
      requires Valid()
      modifies this
      ensures Valid() && r == Wire.ReadVarBytes(data, old(pos)) && pos == r.pos
    {
      r := Wire.ReadVarBytes(data, pos);
      pos := r.pos;
    }

    /** Decode.varIntList. */
    method ReadVarIntList() returns (r: Outcome<seq<nat>>)
      requires Valid()
      modifies this
      ensures Valid() && r == Wire.ReadVarIntList(data, old(pos)) && pos == r.pos
    {
      r := Wire.ReadVarIntList(data, pos);
      pos := r.pos;
    }
  }

  /** Kotlin `Int.toByte()` and Java `(byte)` on the result of `read()`, kept
      unsigned: -1 (end of stream) becomes 0xFF. */
  function ToByte(r: int): (b: byte)
    ensures 0 <= r < 256 ==> b == r
    ensures r == -1 ==> b == 0xFF
  {
    r % 256
  }

  // ---------------------------------------------------------------------
  // Writing.

  /** One call a writer makes on its OutputStream or ByteBuffer:
      `write(b)`/`put(b)`, `write(b, off, len)`/`put(b, off, len)`, or a write
      of an array field that is still null. */
  datatype Put = Whole(data: bytes) | Slice(src: bytes, off: int, len: int) | NullArray

  /** The exception a call throws whatever room is left, if any. */
  function PutFault(p: Put): Option<Error>
  {
    match p
    case Whole(_) => None
    case Slice(src, off, len) =>
      if 0 <= off && 0 <= len && off + len <= |src| then None else Some(IndexOutOfBounds)
    case NullArray => Some(NullPointer)
  }

  /** The bytes a call that does not throw writes. */
  function PutBytes(p: Put): (b: bytes)
    requires PutFault(p).None?
    ensures p.Slice? ==> |b| == p.len
  {
    match p
    case Whole(data) => data
    case Slice(src, off, len) => src[off..off + len]
  }

  /** What a sequence of calls leaves behind: the bytes written, and the
      exception that ended it, if one did. */
  datatype Emitted = Emitted(bytes: bytes, failure: Option<Error>)

  /** The calls made one after another on an OutputStream, which never runs
      out of room; the first exception stops the sequence. */
  function StreamRun(puts: seq<Put>): Emitted
  {
    if puts == [] then Emitted([], None)
    else if PutFault(puts[0]).Some? then Emitted([], PutFault(puts[0]))
    else
      var rest := StreamRun(puts[1..]);
      Emitted(PutBytes(puts[0]) + rest.bytes, rest.failure)
  }

  /** The same calls on a ByteBuffer with `room` bytes left before its limit:
      a call that does not fit throws BufferOverflowException after the
      index checks and writes nothing. */
  function BufferRun(puts: seq<Put>, room: nat): Emitted
  {
    if puts == [] then Emitted([], None)
    else if PutFault(puts[0]).Some? then Emitted([], PutFault(puts[0]))
    else if |PutBytes(puts[0])| > room then Emitted([], Some(BufferOverflow))
    else
      var rest := BufferRun(puts[1..], room - |PutBytes(puts[0])|);
      Emitted(PutBytes(puts[0]) + rest.bytes, rest.failure)
  }

  lemma {:induction false} StreamRunStep(p: Put, rest: seq<Put>)
    ensures StreamRun([p] + rest) ==
      if PutFault(p).Some? then Emitted([], PutFault(p))
      else Emitted(PutBytes(p) + StreamRun(rest).bytes, StreamRun(rest).failure)
  {
    assert ([p] + rest)[1..] == rest;
  }

  /** The same step, taken at index k of a call sequence. */
  lemma {:induction false} StreamRunAt(puts: seq<Put>, k: nat)
    requires k < |puts|
    ensures StreamRun(puts[k..]) ==
      if PutFault(puts[k]).Some? then Emitted([], PutFault(puts[k]))
      else Emitted(PutBytes(puts[k]) + StreamRun(puts[k + 1..]).bytes, StreamRun(puts[k + 1..]).failure)
  {
    assert puts[k..][1..] == puts[k + 1..];
  }

  lemma {:induction false} BufferRunStep(p: Put, rest: seq<Put>, room: nat)
    ensures BufferRun([p] + rest, room) ==
      if PutFault(p).Some? then Emitted([], PutFault(p))
      else if |PutBytes(p)| > room then Emitted([], Some(BufferOverflow))
      else Emitted(PutBytes(p) + BufferRun(rest, room - |PutBytes(p)|).bytes,
                   BufferRun(rest, room - |PutBytes(p)|).failure)
  {
    assert ([p] + rest)[1..] == rest;
  }

  /** With room for everything an OutputStream would receive, a ByteBuffer
      receives exactly the same bytes and ends the same way. */
  lemma {:induction false} BufferRunMatchesStream(puts: seq<Put>, room: nat)
    requires |StreamRun(puts).bytes| <= room
    ensures BufferRun(puts, room) == StreamRun(puts)
  {
    if puts != [] && PutFault(puts[0]).None? {
      BufferRunMatchesStream(puts[1..], room - |PutBytes(puts[0])|);
    }
  }

  /** Whatever the room, a ByteBuffer receives a prefix of what an
      OutputStream receives, and all of it when it does not fail. */
  lemma {:induction false} BufferRunIsPrefix(puts: seq<Put>, room: nat)
    ensures BufferRun(puts, room).bytes <= StreamRun(puts).bytes
    ensures BufferRun(puts, room).failure.None? ==> BufferRun(puts, room) == StreamRun(puts)
  {
    if puts != [] && PutFault(puts[0]).None? && |PutBytes(puts[0])| <= room {
      BufferRunIsPrefix(puts[1..], room - |PutBytes(puts[0])|);
    }
  }

  /** An OutputStream: everything written so far. */
  class OutputSink {
    var written: bytes

    constructor ()
      ensures written == []
    {
      written := [];
    }

    /** OutputStream.write(b), and the Encode helpers that write a whole
        encoding at once. */
    method Write(b: bytes)
      modifies this
      ensures written == old(written) + b
    {
      written := written + b;
    }

    /** One call of a writer: `write(b)`, `write(b, off, len)`, or a write
        of a null array. */
    method Emit(p: Put) returns (r: Option<Error>)
      modifies this
      ensures r == PutFault(p)
      ensures r.None? ==> written == old(written) + PutBytes(p)
      ensures r.Some? ==> written == old(written)
    {
      match p
      case Whole(b) =>
        Write(b);
        r := None;
      case Slice(b, off, len) =>
        r := WriteSlice(b, off, len);
      case NullArray =>
        r := Some(NullPointer);
    }

    /** The call `p`, seen as call k of the run `puts`, which together with
        what is already written makes `goal`. */
    method EmitStep(p: Put, ghost puts: seq<Put>, ghost k: nat, ghost goal: Emitted) returns (r: Option<Error>)
      requires k < |puts| && puts[k] == p
      requires written + StreamRun(puts[k..]).bytes == goal.bytes && StreamRun(puts[k..]).failure == goal.failure
      modifies this
      ensures r == PutFault(p)
      ensures r.None? ==> written + StreamRun(puts[k + 1..]).bytes == goal.bytes &&
                          StreamRun(puts[k + 1..]).failure == goal.failure
      ensures r.Some? ==> written == goal.bytes && r == goal.failure
    {
      StreamProgress(written, puts, k, goal);
      r := Emit(p);
    }

    /** OutputStream.write(b, off, len). */
    method WriteSlice(b: bytes, off: int, len: int) returns (r: Option<Error>)
      modifies this
      ensures r == PutFault(Slice(b, off, len))
      ensures r.None? ==> written == old(written) + b[off..off + len]
      ensures r.Some? ==> written == old(written)
    {
      if 0 <= off && 0 <= len && off + len <= |b| {
        written := written + b[off..off + len];
        r := None;
      } else {
        r := Some(IndexOutOfBounds);
      }
    }
  }

  /** Call k of a run, seen from the bytes already written: if `before`
      followed by the run of the calls from k on makes `goal`, then after
      call k the calls from k + 1 on still make it, unless call k throws and
      ends the run. */
  lemma {:induction false} StreamProgress(before: bytes, puts: seq<Put>, k: nat, goal: Emitted)
    requires k < |puts|
    requires before + StreamRun(puts[k..]).bytes == goal.bytes && StreamRun(puts[k..]).failure == goal.failure
    ensures PutFault(puts[k]).None? ==>
      before + PutBytes(puts[k]) + StreamRun(puts[k + 1..]).bytes == goal.bytes &&
      StreamRun(puts[k + 1..]).failure == goal.failure
    ensures PutFault(puts[k]).Some? ==> before == goal.bytes && PutFault(puts[k]) == goal.failure
  {
    assert puts[k..] == [puts[k]] + puts[k + 1..];
    StreamRunStep(puts[k], puts[k + 1..]);
    if PutFault(puts[k]).None? {
      var r := StreamRun(puts[k + 1..]);
      assert before + PutBytes(puts[k]) + r.bytes == before + (PutBytes(puts[k]) + r.bytes);
    } else {
      assert before + [] == before;
    }
  }

  /** The same on a ByteBuffer with `room` bytes left. */
  lemma {:induction false} BufferProgress(before: bytes, puts: seq<Put>, k: nat, room: nat, goal: Emitted)
    requires k < |puts|
    requires before + BufferRun(puts[k..], room).bytes == goal.bytes && BufferRun(puts[k..], room).failure == goal.failure
    ensures PutFault(puts[k]).None? && |PutBytes(puts[k])| <= room ==>
      before + PutBytes(puts[k]) + BufferRun(puts[k + 1..], room - |PutBytes(puts[k])|).bytes == goal.bytes &&
      BufferRun(puts[k + 1..], room - |PutBytes(puts[k])|).failure == goal.failure
    ensures PutFault(puts[k]).Some? ==> before == goal.bytes && PutFault(puts[k]) == goal.failure
    ensures PutFault(puts[k]).None? && |PutBytes(puts[k])| > room ==>
      before == goal.bytes && goal.failure == Some(BufferOverflow)
  {
    assert puts[k..] == [puts[k]] + puts[k + 1..];
    BufferRunStep(puts[k], puts[k + 1..], room);
    if PutFault(puts[k]).None? && |PutBytes(puts[k])| <= room {
      var r := BufferRun(puts[k + 1..], room - |PutBytes(puts[k])|);
      assert before + PutBytes(puts[k]) + r.bytes == before + (PutBytes(puts[k]) + r.bytes);
    } else {
      assert before + [] == before;
    }
  }

  /** Two runs one after the other: the second happens only if the first
      ended without an exception. */
  function Then(first: Emitted, second: Emitted): Emitted
  {
    if first.failure.Some? then first else Emitted(first.bytes + second.bytes, second.failure)
  }

  /** Writing two call sequences one after the other is writing their concatenation. */
  lemma {:induction false} StreamRunAppend(a: seq<Put>, b: seq<Put>)
    ensures StreamRun(a + b) == Then(StreamRun(a), StreamRun(b))
    decreases |a|
  {
    if a == [] {
      assert a + b == b;
    } else {
      StreamRunStep(a[0], a[1..] + b);
      assert a + b == [a[0]] + (a[1..] + b);
      StreamRunAppend(a[1..], b);
    }
  }

  /** A ByteBuffer: a fixed array, and the position of the next put. */
  class ByteBuffer {
    const buf: array<byte>
    var position: nat

    ghost predicate Valid()
      reads this
    {
      position <= buf.Length
    }

    /** The bytes put so far. */
    ghost function Contents(): bytes
      reads this, buf
      requires Valid()
    {
      buf[..position]
    }

    function Remaining(): nat
      reads this
      requires Valid()
    {
      buf.Length - position
    }

    /** ByteBuffer.allocate(capacity). */
    constructor Allocate(capacity: nat)
      ensures Valid() && fresh(buf) && buf.Length == capacity && position == 0
    {
      buf := new byte[capacity](_ => 0);
      position := 0;
    }

    /** ByteBuffer.put(src), and the Encode helpers that put a whole encoding. */
    method Put(src: bytes) returns (r: Option<Error>)
      requires Valid()
      modifies this, buf
      ensures Valid()
      ensures r == if |src| <= old(Remaining()) then None else Some(BufferOverflow)
      ensures r.None? ==> position == old(position) + |src| &&
                          buf[..] == old(buf[..])[..old(position)] + src + old(buf[..])[position..]
      ensures r.Some? ==> position == old(position) && buf[..] == old(buf[..])
    {
      if |src| > buf.Length - position {
        return Some(BufferOverflow);
      }
      ghost var before := buf[..];
      var i := 0;
      while i < |src|
        invariant 0 <= i <= |src| && position == old(position) && position + |src| <= buf.Length
        invariant buf[..] == before[..position] + src[..i] + before[position + i..]
      {
        buf[position + i] := src[i];
        i := i + 1;
      }
      assert src[..i] == src;
      position := position + |src|;
      r := None;
    }

    /** ByteBuffer.put(src, off, len): the index check comes first. */
    method PutSlice(src: bytes, off: int, len: int) returns (r: Option<Error>)
      requires Valid()
      modifies this, buf
      ensures Valid()
      ensures r == if PutFault(Slice(src, off, len)).Some? then PutFault(Slice(src, off, len))
                   else if len <= old(Remaining()) then None else Some(BufferOverflow)
      ensures r.None? ==> position == old(position) + len &&
                          buf[..] == old(buf[..])[..old(position)] + src[off..off + len] + old(buf[..])[position..]
      ensures r.Some? ==> position == old(position) && buf[..] == old(buf[..])
    {
      if !(0 <= off && 0 <= len && off + len <= |src|) {
        return Some(IndexOutOfBounds);
      }
      r := Put(src[off..off + len]);
    }

    /** One call of a writer on the buffer, described by what it adds to the
        bytes put so far. */
    method Emit(p: Put) returns (r: Option<Error>)
      requires Valid()
      modifies this, buf
      ensures Valid()
      ensures r == if PutFault(p).Some? then PutFault(p)
                   else if |PutBytes(p)| <= old(Remaining()) then None else Some(BufferOverflow)
      ensures r.None? ==> Contents() == old(Contents()) + PutBytes(p) &&
                          Remaining() == old(Remaining()) - |PutBytes(p)|
      ensures r.Some? ==> Contents() == old(Contents()) && Remaining() == old(Remaining())
    {
      match p {
        case Whole(b) =>
          r := Put(b);
        case Slice(b, off, len) =>
          r := PutSlice(b, off, len);
        case NullArray =>
          r := Some(NullPointer);
      }
    }

    /** The call `p`, seen as call k of the run `puts`, which together with
        what is already put makes `goal`. */
    method EmitStep(p: Put, ghost puts: seq<Put>, ghost k: nat, ghost goal: Emitted) returns (r: Option<Error>)
      requires Valid() && k < |puts| && puts[k] == p
      requires Contents() + BufferRun(puts[k..], Remaining()).bytes == goal.bytes
      requires BufferRun(puts[k..], Remaining()).failure == goal.failure
      modifies this, buf
      ensures Valid()
      ensures r.None? ==> Contents() + BufferRun(puts[k + 1..], Remaining()).bytes == goal.bytes &&
                          BufferRun(puts[k + 1..], Remaining()).failure == goal.failure
      ensures r.Some? ==> Contents() == goal.bytes && r == goal.failure
    {
      BufferProgress(Contents(), puts, k, Remaining(), goal);
      r := Emit(p);
    }
  }
}
