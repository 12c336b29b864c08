/** The byte queue shared by the download and upload sessions
    (src/ffmpeg-common.hpp). */
module FFmpegCommon {

  newtype byte = x: int | 0 <= x < 256

  function Min(a: int, b: int): (m: int) { if a <= b then a else b }

  /** What a read of at most `capacity` bytes takes from the front of queue
      `q`, and what it leaves behind. */
  function Consume(q: seq<byte>, capacity: nat): (r: (seq<byte>, seq<byte>))
    ensures |r.0| == Min(|q|, capacity)
    ensures r.0 + r.1 == q
  {
    var n := Min(|q|, capacity);
    (q[..n], q[n..])
  }

  /** Bytes pushed after a read was queued never overtake the bytes already
      there: a read no larger than the old queue takes the same bytes. */
  lemma ConsumeIgnoresLaterPushes(q: seq<byte>, chunk: seq<byte>, capacity: nat)
    requires capacity <= |q|
    ensures Consume(q + chunk, capacity).0 == Consume(q, capacity).0
    ensures Consume(q + chunk, capacity).1 == Consume(q, capacity).1 + chunk
  {
  }

  /** Two successive reads take what one read of their combined size takes. */
  lemma ConsumeInPieces(q: seq<byte>, a: nat, b: nat)
    ensures var (first, rest) := Consume(q, a);
            var (second, left) := Consume(rest, b);
            first + second == Consume(q, a + b).0 && left == Consume(q, a + b).1
  {
  }

  /** Common: the pushed bytes not yet consumed (m_data). */
  class Common {
    var data: seq<byte>

    constructor ()
      ensures data == []
    {
      data := [];
    }

    /** Appends a pushed chunk at the back of the queue. */
    method Push(chunk: seq<byte>)
      modifies this
      ensures |data| == old(|data|) + |chunk|
      ensures data == old(data) + chunk
    {
      data := data + chunk;
    }
  }
}
