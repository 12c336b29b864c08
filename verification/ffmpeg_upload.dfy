/** The upload sink (src/ffmpeg-upload.hpp): the encoder's output is
    appended to the byte queue. */
module FFmpegUpload {
  import opened FFmpegCommon

  /** The value-initialised bytes std::vector::resize adds. */
  function Zeros(n: nat): (z: seq<byte>)
    ensures |z| == n && forall i :: 0 <= i < n ==> z[i] == 0
  {
    seq(n, _ => 0)
  }

  class Upload {
    /** The inherited Common part: the queue of written bytes. */
    const common: Common

    constructor ()
      ensures fresh(common) && common.data == []
    {
      common := new Common();
    }

    /** The write callback: grows the queue by bufSize bytes and copies
        buffer[0..bufSize) into the new tail, which starts at the old
        length of the queue. */
    method WritePacket(buffer: array<byte>, bufSize: nat) returns (n: int)
      requires bufSize <= buffer.Length
      modifies common
      ensures n == bufSize
      ensures common.data == old(common.data) + buffer[..bufSize]
    {
      var target := |common.data|;
      common.data := common.data + Zeros(bufSize);
      var i := 0;
      while i < bufSize
        invariant 0 <= i <= bufSize
        invariant common.data == old(common.data) + buffer[..i] + Zeros(bufSize - i)
      {
        common.data := common.data[target + i := buffer[i]];
        i := i + 1;
        assert common.data == old(common.data) + buffer[..i] + Zeros(bufSize - i);
      }
      return bufSize;
    }
  }

  // write_packet as the source writes it, on a model of std::vector that
  // keeps its allocation: the iterator `target` is taken before `resize`,
  // which moves the elements to a new allocation when the old one is too
  // small, and the copy then goes through the stale iterator.

  /** A vector: its allocation (whose length is the capacity) and its size.
      An empty allocation is a vector that has never allocated, whose end()
      is a null pointer. */
  datatype Vector = Vector(storage: seq<byte>, size: nat)

  predicate ValidVector(v: Vector)
  {
    v.size <= |v.storage|
  }

  function Elements(v: Vector): (e: seq<byte>)
    requires ValidVector(v)
  {
    v.storage[..v.size]
  }

  /** Whether growing by n elements needs a new allocation. */
  predicate Reallocates(v: Vector, n: nat)
  {
    v.size + n > |v.storage|
  }

  /** resize(size + n): keeps the elements and adds n zeros, in the same
      allocation when it is large enough and in a new one otherwise. */
  function Resize(v: Vector, n: nat): (r: Vector)
    requires ValidVector(v)
    ensures ValidVector(r) && Elements(r) == Elements(v) + Zeros(n)
    ensures !Reallocates(v, n) ==> |r.storage| == |v.storage|
  {
    if Reallocates(v, n) then Vector(Elements(v) + Zeros(n), v.size + n)
    else Vector(v.storage[..v.size] + Zeros(n) + v.storage[v.size + n..], v.size + n)
  }

  /** What the source's write_packet leaves: the vector, or a copy of at
      least one byte through the null end() of a vector that never
      allocated. */
  datatype Written = Stored(v: Vector) | NullWrite

  /** The source's write_packet: the copy lands at `target` in the
      allocation `target` points into, which after a reallocation is the
      released one, not the vector's. */
  function WritePacketAsWritten(v: Vector, chunk: seq<byte>): (r: Written)
    requires ValidVector(v)
    ensures r.NullWrite? <==> |v.storage| == 0 && |chunk| > 0
    ensures r.Stored? ==> ValidVector(r.v) && r.v.size == v.size + |chunk|
  {
    var target := v.size;
    var grown := Resize(v, |chunk|);
    if |v.storage| == 0 && |chunk| > 0 then NullWrite
    else if Reallocates(v, |chunk|) then Stored(grown)
    else Stored(Vector(grown.storage[..target] + chunk + grown.storage[target + |chunk|..], grown.size))
  }

  /** With enough spare capacity the source's write_packet appends the chunk. */
  lemma WritePacketAsWrittenWithinCapacity(v: Vector, chunk: seq<byte>)
    requires ValidVector(v) && !Reallocates(v, |chunk|)
    ensures WritePacketAsWritten(v, chunk).Stored?
    ensures Elements(WritePacketAsWritten(v, chunk).v) == Elements(v) + chunk
  {
  }

  /** When a vector that has allocated must grow its allocation, the
      written bytes go to the released allocation: the new tail holds the
      zeros resize put there. */
  lemma WritePacketAsWrittenOnGrowth(v: Vector, chunk: seq<byte>)
    requires ValidVector(v) && Reallocates(v, |chunk|) && |v.storage| > 0
    ensures WritePacketAsWritten(v, chunk).Stored?
    ensures Elements(WritePacketAsWritten(v, chunk).v) == Elements(v) + Zeros(|chunk|)
  {
  }

  /** The first write of at least one byte to a new upload, whose queue has
      never allocated, copies through a null pointer. */
  lemma WritePacketAsWrittenFirstWrite(chunk: seq<byte>)
    requires |chunk| > 0
    ensures WritePacketAsWritten(Vector([], 0), chunk) == NullWrite
  {
  }

  /** The smallest input that shows the lost bytes: a queue holding byte 5
      at full capacity, then a write of byte 7, leaves [5, 0]. */
  lemma WritePacketAsWrittenDropsChunk()
    ensures WritePacketAsWritten(Vector([5], 1), [7]).Stored?
    ensures Elements(WritePacketAsWritten(Vector([5], 1), [7]).v) == [5, 0]
    ensures Elements(WritePacketAsWritten(Vector([5], 1), [7]).v) != Elements(Vector([5], 1)) + [7]
  {
    var written := Elements(WritePacketAsWritten(Vector([5], 1), [7]).v);
    assert Zeros(1) == [0];
    assert written[1] == 0;
    assert (Elements(Vector([5], 1)) + [7])[1] == 7;
  }
}
