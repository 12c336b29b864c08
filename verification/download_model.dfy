/** The decisions a download session makes (src/ffmpeg-download.hpp), as
    functions of the session state and the library's replies. The class
    FFmpegDownload.Download runs the same steps in place and is proved
    against these functions. */
module DownloadModel {
  import opened Engine
  import Asa

  /** The tag structs Success, Again, Eoi and an error message. */
  datatype Status = Success | Again | Eoi | Failed(message: string)

  /** DownloadResult: the alternatives of DecodeResult without Eoi. */
  type DownloadResult = r: Status | !r.Eoi? witness Success

  type DecodeResult = Status

  const OPEN_INPUT_ERROR := "Could not open input"
  const NO_VIDEO_STREAM := "Could not find video stream"
  const CONTEXT_ALLOC_ERROR := "Could not allocate codec context"
  const COPY_PARAMETERS_ERROR := "Could not copy codec parameters"
  const OPEN_CODEC_ERROR := "Could not open codec"
  const SEND_PACKET_PREFIX := "Could not send packet: "
  const DECODING_ERROR := "Decoding error"

  /** The fields of a download session the control logic reads and writes:
      m_input_open, m_stream_detected, m_video_stream_id, the geometry of
      m_frame, the stream index of m_packet, and the library state. */
  datatype Session = Session(
    inputOpen: bool,
    streamDetected: bool,
    videoStreamId: int,
    frame: Frame,
    packetStream: int,
    engine: Oracle)

  /** The calls made between session states `s` and `t`. */
  function NewCalls(s: Session, t: Session): (calls: seq<Call>)
  {
    if |s.engine.log| <= |t.engine.log| then t.engine.log[|s.engine.log|..] else []
  }

  /** The calls of `s` are the first calls of `t`. */
  predicate Extends(s: Session, t: Session)
  {
    |s.engine.log| <= |t.engine.log| && t.engine.log[..|s.engine.log|] == s.engine.log
  }

  /** The calls from `s` to `u` are those from `s` to `t` followed by
      those from `t` to `u`. */
  lemma NewCallsConcat(s: Session, t: Session, u: Session)
    requires Extends(s, t) && Extends(t, u)
    ensures NewCalls(s, u) == NewCalls(s, t) + NewCalls(t, u)
  {
    assert u.engine.log[..|t.engine.log|] == t.engine.log;
  }

  /** A call outside the calls a step may make is not among those it made. */
  lemma NotAmong(calls: seq<Call>, allowed: seq<Call>, c: Call)
    requires forall x :: x in calls ==> x in allowed
    requires c !in allowed
    ensures c !in calls
  {
  }

  lemma PrefixTransitive<T>(a: seq<T>, b: seq<T>, c: seq<T>)
    requires |a| <= |b| <= |c| && b[..|a|] == a && c[..|b|] == b
    ensures c[..|a|] == a
  {
    assert c[..|a|] == c[..|b|][..|a|];
  }

  /** ensure_open_input: probes the container until it opens once. */
  function EnsureOpenInput(s: Session): (r: (bool, Session))
    ensures s.inputOpen ==> r == (true, s)
    ensures r.1.inputOpen == r.0
    ensures r.1 == s.(inputOpen := r.0, engine := r.1.engine)
    ensures !s.inputOpen ==> r.1.engine.log == s.engine.log + [OpenInput]
    ensures !s.inputOpen ==> (r.0 <==> NextOpenInput(s.engine) >= 0)
  {
    if s.inputOpen then (true, s)
    else
      var (e, code) := AvformatOpenInput(s.engine);
      if code < 0 then (false, s.(engine := e))
      else (true, s.(inputOpen := true, engine := e))
  }

  /** ensure_detect_stream: chooses the video stream and opens its decoder,
      once. */
  function EnsureDetectStream(s: Session): (r: (DownloadResult, Session))
    ensures s.streamDetected ==> r == (Success, s)
    ensures r.1.streamDetected <==> r.0 == Success
    ensures r.1 == s.(streamDetected := r.1.streamDetected, videoStreamId := r.1.videoStreamId,
                      engine := r.1.engine)
    ensures r.0 == Again <==> !s.streamDetected && NextFindStreamInfo(s.engine) < 0
    ensures r.0 == Again ==> NewCalls(s, r.1) == [FindStreamInfo]
    ensures r.0.Failed? ==>
              r.0.message in {NO_VIDEO_STREAM, CONTEXT_ALLOC_ERROR, COPY_PARAMETERS_ERROR, OPEN_CODEC_ERROR}
    ensures Extends(s, r.1)
    ensures forall c :: c in NewCalls(s, r.1) ==> c in [FindStreamInfo, FindBestStream, AllocContext, CopyParameters, OpenCodec]
  {
    if s.streamDetected then (Success, s)
    else
      var (e1, info) := AvformatFindStreamInfo(s.engine);
      if info < 0 then (Again, s.(engine := e1))
      else
        var (e2, best) := AvFindBestStream(e1);
        var s2 := s.(videoStreamId := best.index, engine := e2);
        assert NewCalls(s, s2) == [FindStreamInfo, FindBestStream];
        if best.index < 0 || !best.codecFound then (Failed(NO_VIDEO_STREAM), s2)
        else
          var r := OpenDecoder(s2);
          NewCallsConcat(s, s2, r.1);
          r
  }

  /** The decoder half of ensure_detect_stream: allocates the codec
      context, copies the stream's parameters into it and opens it. Each
      failing step ends it with its own message; success sets the flag. */
  function OpenDecoder(s: Session): (r: (DownloadResult, Session))
    ensures r.1 == s.(streamDetected := r.0 == Success, engine := r.1.engine)
    ensures r.0 == Success || r.0.Failed?
    ensures r.0.Failed? ==> r.0.message in {CONTEXT_ALLOC_ERROR, COPY_PARAMETERS_ERROR, OPEN_CODEC_ERROR}
    ensures Extends(s, r.1) && |s.engine.log| < |r.1.engine.log|
    ensures forall c :: c in NewCalls(s, r.1) ==> c in [AllocContext, CopyParameters, OpenCodec]
    ensures r.0 == Success ==> NewCalls(s, r.1) == [AllocContext, CopyParameters, OpenCodec]
    ensures !NextAllocContext(s.engine) ==> NewCalls(s, r.1) == [AllocContext]
    ensures NextAllocContext(s.engine) && NextCopyParameters(s.engine) < 0 ==>
              NewCalls(s, r.1) == [AllocContext, CopyParameters]
    ensures NextAllocContext(s.engine) && NextCopyParameters(s.engine) >= 0 ==>
              NewCalls(s, r.1) == [AllocContext, CopyParameters, OpenCodec]
  {
    var (e3, hasContext) := AvcodecAllocContext3(s.engine);
    if !hasContext then (Failed(CONTEXT_ALLOC_ERROR), s.(streamDetected := false, engine := e3))
    else
      var (e4, copied) := AvcodecParametersToContext(e3);
      if copied < 0 then (Failed(COPY_PARAMETERS_ERROR), s.(streamDetected := false, engine := e4))
      else
        var (e5, openCode) := AvcodecOpen2(e4);
        assert e5.log[|s.engine.log|..] == [AllocContext, CopyParameters, OpenCodec];
        if openCode < 0 then (Failed(OPEN_CODEC_ERROR), s.(streamDetected := false, engine := e5))
        else (Success, s.(streamDetected := true, engine := e5))
  }

  /** Each step of stream detection that fails ends it with its own
      message right after its own call, and the chosen stream index is
      recorded whether or not the steps after the choice succeed. */
  lemma DetectStreamOutcome(s: Session)
    requires !s.streamDetected && NextFindStreamInfo(s.engine) >= 0
    ensures var best := NextBestStream(s.engine);
            var found := best.index >= 0 && best.codecFound;
            var copied := found && NextAllocContext(s.engine) && NextCopyParameters(s.engine) >= 0;
            var r := EnsureDetectStream(s);
            var chosen := [FindStreamInfo, FindBestStream];
            && r.1.videoStreamId == best.index
            && (!found ==> r.0 == Failed(NO_VIDEO_STREAM) && NewCalls(s, r.1) == chosen)
            && (found && !NextAllocContext(s.engine) ==>
                  r.0 == Failed(CONTEXT_ALLOC_ERROR) && NewCalls(s, r.1) == chosen + [AllocContext])
            && (found && NextAllocContext(s.engine) && NextCopyParameters(s.engine) < 0 ==>
                  r.0 == Failed(COPY_PARAMETERS_ERROR) &&
                  NewCalls(s, r.1) == chosen + [AllocContext, CopyParameters])
            && (copied && NextOpenCodec(s.engine) < 0 ==>
                  r.0 == Failed(OPEN_CODEC_ERROR) &&
                  NewCalls(s, r.1) == chosen + [AllocContext, CopyParameters, OpenCodec])
            && (copied && NextOpenCodec(s.engine) >= 0 ==>
                  r.0 == Success &&
                  NewCalls(s, r.1) == [FindStreamInfo, FindBestStream, AllocContext, CopyParameters, OpenCodec])
  {
  }

  /** What the read phase of decode_next ends with. */
  datatype ReadOutcome = Packet | ReadError(code: int)

  datatype Demuxed = Demuxed(outcome: ReadOutcome, engine: Oracle, packetStream: int)

  /** A reply the read loop skips: a packet read of a stream other than `vid`. */
  predicate Foreign(read: Read, vid: int)
  {
    read.code >= 0 && read.streamIndex != vid
  }

  /** The do-while loop of decode_next: reads packets until one belongs to
      stream `vid` or a read fails. `packetStream` is the stream index of
      the packet last read. ReadStopsAtFirst and ReadRunsDry say which
      reply ends it. */
  function ReadVideoPacket(e: Oracle, vid: int, packetStream: int): (r: Demuxed)
    ensures r.outcome.Packet? ==> r.packetStream == vid
    ensures r.outcome.ReadError? ==> r.packetStream == BLANK_STREAM_INDEX
    ensures r.outcome.ReadError? ==> r.outcome.code < 0
    ensures r.engine == e.(readFrame := r.engine.readFrame, log := r.engine.log)
    ensures |r.engine.readFrame| <= |e.readFrame|
    ensures r.engine.readFrame == e.readFrame[|e.readFrame| - |r.engine.readFrame|..]
    ensures forall j :: 0 <= j < |e.readFrame| - |r.engine.readFrame| - 1 ==> Foreign(e.readFrame[j], vid)
    ensures |e.log| < |r.engine.log| && r.engine.log[..|e.log|] == e.log
    ensures forall k :: |e.log| <= k < |r.engine.log| ==> r.engine.log[k] == ReadFrame
    decreases |e.readFrame|
  {
    var (e1, read) := AvReadFrame(e);
    if read.code < 0 then Demuxed(ReadError(read.code), e1, BLANK_STREAM_INDEX)
    else if read.streamIndex != vid then
      assert Foreign(e.readFrame[0], vid) && e1.readFrame == e.readFrame[1..];
      ReadVideoPacket(e1, vid, read.streamIndex)
    else Demuxed(Packet, e1, read.streamIndex)
  }

  /** The status decode_next reports for a failed second receive. */
  function ReceiveFailure(code: int): (r: DecodeResult)
    ensures r == Again <==> code == AVERROR_EAGAIN
    ensures r == Eoi <==> code == AVERROR_EOF
    ensures r.Failed? <==> code != AVERROR_EAGAIN && code != AVERROR_EOF
    ensures r.Failed? ==> r.message == DECODING_ERROR
  {
    if code == AVERROR_EAGAIN then Again
    else if code == AVERROR_EOF then Eoi
    else Failed(DECODING_ERROR)
  }

  /** The second half of decode_next: sends m_packet to the decoder and
      asks for a frame again. A failed receive leaves m_frame blank. */
  function FeedPacket(s: Session): (r: (DecodeResult, Session))
    ensures r.1 == s.(frame := r.1.frame, engine := r.1.engine)
    ensures Extends(s, r.1)
    ensures NewCalls(s, r.1) in {[SendPacket(s.packetStream)], [SendPacket(s.packetStream), ReceiveFrame]}
    ensures NextSendPacket(s.engine) < 0 <==> NewCalls(s, r.1) == [SendPacket(s.packetStream)]
    ensures NextSendPacket(s.engine) < 0 ==>
              r.0 == Failed(SEND_PACKET_PREFIX + AvStrerror(s.engine, NextSendPacket(s.engine)))
    ensures NextSendPacket(s.engine) >= 0 && NextReceiveFrame(s.engine).code < 0 ==>
              r.0 == ReceiveFailure(NextReceiveFrame(s.engine).code)
    ensures r.0 == Success <==> NextSendPacket(s.engine) >= 0 && NextReceiveFrame(s.engine).code >= 0
    ensures r.1.frame == if r.0 == Success then NextReceiveFrame(s.engine).frame
                         else if NextSendPacket(s.engine) < 0 then s.frame
                         else BLANK_FRAME
    ensures r.0.Failed? ==>
              r.0.message == DECODING_ERROR ||
              (|SEND_PACKET_PREFIX| <= |r.0.message| && r.0.message[..|SEND_PACKET_PREFIX|] == SEND_PACKET_PREFIX)
  {
    var (e1, sent) := AvcodecSendPacket(s.engine, s.packetStream);
    assert e1.log[|s.engine.log|..] == [SendPacket(s.packetStream)];
    if sent < 0 then (Failed(SEND_PACKET_PREFIX + AvStrerror(e1, sent)), s.(engine := e1))
    else
      var (e2, received) := AvcodecReceiveFrame(e1);
      assert e2.log[|s.engine.log|..] == [SendPacket(s.packetStream), ReceiveFrame];
      if received.code < 0 then (ReceiveFailure(received.code), s.(frame := BLANK_FRAME, engine := e2))
      else (Success, s.(frame := received.frame, engine := e2))
  }

  /** decode_next: drains a buffered frame, or feeds the decoder the next
      packet of the video stream and drains again. Every result but Success
      follows a failed receive, so it leaves m_frame blank. */
  function DecodeNext(s: Session): (r: (DecodeResult, Session))
    ensures r.1 == s.(frame := r.1.frame, packetStream := r.1.packetStream, engine := r.1.engine)
    ensures NextReceiveFrame(s.engine).code >= 0 ==>
              r.0 == Success && r.1.engine.log == s.engine.log + [ReceiveFrame] &&
              r.1.frame == NextReceiveFrame(s.engine).frame
    ensures r.0 != Success ==> r.1.frame == BLANK_FRAME
    ensures Extends(s, r.1) && |s.engine.log| < |r.1.engine.log|
    ensures r.0 == Success ==> r.1.engine.log[|r.1.engine.log| - 1] == ReceiveFrame
    ensures r.0.Failed? ==>
              r.0.message == DECODING_ERROR ||
              (|SEND_PACKET_PREFIX| <= |r.0.message| && r.0.message[..|SEND_PACKET_PREFIX|] == SEND_PACKET_PREFIX)
    ensures r.1.engine.log[|s.engine.log|] == ReceiveFrame
    ensures forall c :: c in NewCalls(s, r.1) ==> c in [ReceiveFrame, ReadFrame, SendPacket(s.videoStreamId)]
  {
    var (e1, received) := AvcodecReceiveFrame(s.engine);
    if received.code >= 0 then (Success, s.(frame := received.frame, engine := e1))
    else
      var d := ReadVideoPacket(e1, s.videoStreamId, s.packetStream);
      var r := AfterRead(s.(frame := BLANK_FRAME), d);
      DecodeNextCalls(s, e1.log, d.engine.log, r.1);
      r
  }

  /** The log of a decode_next that went past its first receive: that
      receive, the reads, then the calls that fed the decoder. */
  lemma DecodeNextCalls(s: Session, afterReceive: seq<Call>, afterRead: seq<Call>, t: Session)
    requires afterReceive == s.engine.log + [ReceiveFrame]
    requires |afterReceive| < |afterRead| && afterRead[..|afterReceive|] == afterReceive
    requires forall k :: |afterReceive| <= k < |afterRead| ==> afterRead[k] == ReadFrame
    requires |afterRead| <= |t.engine.log| && t.engine.log[..|afterRead|] == afterRead
    requires forall k :: |afterRead| <= k < |t.engine.log| ==>
               t.engine.log[k] in [ReceiveFrame, SendPacket(s.videoStreamId)]
    ensures Extends(s, t) && |s.engine.log| < |t.engine.log|
    ensures t.engine.log[|s.engine.log|] == ReceiveFrame
    ensures forall c :: c in NewCalls(s, t) ==> c in [ReceiveFrame, ReadFrame, SendPacket(s.videoStreamId)]
  {
    PrefixTransitive(s.engine.log, afterReceive, afterRead);
    PrefixTransitive(s.engine.log, afterRead, t.engine.log);
    assert t.engine.log[|s.engine.log|] == afterRead[|s.engine.log|] == afterReceive[|s.engine.log|];
    forall c | c in NewCalls(s, t)
      ensures c in [ReceiveFrame, ReadFrame, SendPacket(s.videoStreamId)]
    {
      var k :| |s.engine.log| <= k < |t.engine.log| && t.engine.log[k] == c;
      if |afterReceive| <= k < |afterRead| {
        assert t.engine.log[k] == afterRead[k];
      }
    }
  }

  /** How decode_next goes on once its read loop ended with `d`. */
  function AfterRead(s: Session, d: Demuxed): (r: (DecodeResult, Session))
    requires d.outcome.Packet? ==> d.packetStream == s.videoStreamId
    ensures r.1 == s.(frame := r.1.frame, packetStream := r.1.packetStream, engine := r.1.engine)
    ensures |d.engine.log| <= |r.1.engine.log| && r.1.engine.log[..|d.engine.log|] == d.engine.log
    ensures forall k :: |d.engine.log| <= k < |r.1.engine.log| ==>
              r.1.engine.log[k] in [ReceiveFrame, SendPacket(s.videoStreamId)]
    ensures r.0 == Success ==>
              |d.engine.log| < |r.1.engine.log| && r.1.engine.log[|r.1.engine.log| - 1] == ReceiveFrame
    ensures r.1.frame == if r.0 == Success then NextReceiveFrame(d.engine).frame
                         else if d.outcome.Packet? && NextSendPacket(d.engine) >= 0 then BLANK_FRAME
                         else s.frame
    ensures d.outcome.ReadError? ==>
              r.0 == (if d.outcome.code == AVERROR_EOF then Eoi else Again) && r.1.engine == d.engine
    ensures d.outcome.Packet? ==>
              |d.engine.log| < |r.1.engine.log| && r.1.engine.log[|d.engine.log|] == SendPacket(s.videoStreamId)
    ensures r.0.Failed? ==>
              r.0.message == DECODING_ERROR ||
              (|SEND_PACKET_PREFIX| <= |r.0.message| && r.0.message[..|SEND_PACKET_PREFIX|] == SEND_PACKET_PREFIX)
  {
    var s2 := s.(packetStream := d.packetStream, engine := d.engine);
    match d.outcome
    case ReadError(code) => (if code == AVERROR_EOF then Eoi else Again, s2)
    case Packet => FeedPacket(s2)
  }

  /** convert_data: a normal response with the frame's geometry, timestamp
      0, and the BGR24 conversion of the whole frame at the same size into
      rows of 3 * width bytes. */
  function ConvertData(f: Frame): (r: Asa.Response)
    ensures r.Normal? && r.timestamp == 0.0
    ensures r.width == f.width && r.height == f.height
    ensures r.job.srcWidth == r.job.dstWidth == f.width && r.job.srcHeight == r.job.dstHeight == f.height
    ensures r.job.srcFormat == f.format && r.job.dstFormat == Asa.BGR24
    ensures r.job.dstStride == [3 * r.width, 0, 0]
    ensures r.job.sliceTop == 0 && r.job.sliceHeight == r.height
  {
    Asa.Normal(0.0, f.width, f.height,
      Asa.ScaleJob(f.width, f.height, f.format, f.width, f.height, Asa.BGR24, Asa.Bilinear,
                   [3 * f.width, 0, 0], 0, f.height))
  }

  /** download: one poll of the session. Each stage runs only when the
      stages before it succeeded. */
  function Download(s: Session): (r: (Asa.Response, Session))
    ensures Extends(s, r.1)
    ensures s.inputOpen ==> r.1.inputOpen
    ensures s.streamDetected ==> r.1.streamDetected && r.1.videoStreamId == s.videoStreamId
  {
    var (isOpen, s1) := EnsureOpenInput(s);
    if !isOpen then (Asa.Fatal(OPEN_INPUT_ERROR), s1)
    else
      var (detect, s2) := EnsureDetectStream(s1);
      PrefixTransitive(s.engine.log, s1.engine.log, s2.engine.log);
      if detect == Again then (Asa.Again, s2)
      else if detect.Failed? then (Asa.Fatal(detect.message), s2)
      else
        var (decode, s3) := DecodeNext(s2);
        PrefixTransitive(s.engine.log, s2.engine.log, s3.engine.log);
        (Respond(decode, s3.frame), s3)
  }

  /** The response for what decode_next reported. */
  function Respond(decode: DecodeResult, f: Frame): (r: Asa.Response)
    ensures r == Asa.Again <==> decode == Again
    ensures r == Asa.Eoi <==> decode == Eoi
    ensures r.Fatal? <==> decode.Failed?
    ensures decode.Failed? ==> r.message == decode.message
    ensures r.Normal? <==> decode == Success
    ensures decode == Success ==> r == ConvertData(f)
  {
    match decode
    case Again => Asa.Again
    case Eoi => Asa.Eoi
    case Failed(message) => Asa.Fatal(message)
    case Success => ConvertData(f)
  }

  /** How a poll turns its stages' results into the response: a failed
      open is fatal; a detection that is not Success is answered before any
      decoding, Again as Again and a failure with its own message; after a
      Success the decode result is answered by Respond with the frame the
      decode left in the session. */
  lemma DownloadDispatch(s: Session)
    ensures var (isOpen, s1) := EnsureOpenInput(s);
            var (detect, s2) := EnsureDetectStream(s1);
            var (decode, s3) := DecodeNext(s2);
            && (!isOpen ==> Download(s) == (Asa.Fatal(OPEN_INPUT_ERROR), s1))
            && (isOpen && detect == Again ==> Download(s) == (Asa.Again, s2))
            && (isOpen && detect.Failed? ==> Download(s) == (Asa.Fatal(detect.message), s2))
            && (isOpen && detect == Success ==> Download(s) == (Respond(decode, s3.frame), s3))
  {
  }

  /** On a session that is open and detected, a frame the decoder already
      holds is converted straight away. */
  lemma DownloadBufferedFrame(s: Session)
    requires s.inputOpen && s.streamDetected && NextReceiveFrame(s.engine).code >= 0
    ensures Download(s).0 == ConvertData(NextReceiveFrame(s.engine).frame)
  {
  }

  /** On a session that is open and detected with no frame buffered, a
      demuxer reply of end of file ends the poll with Eoi, and any other
      read error with Again. */
  lemma DownloadOnReadError(s: Session, k: nat)
    requires s.inputOpen && s.streamDetected && NextReceiveFrame(s.engine).code < 0
    requires k < |s.engine.readFrame| && s.engine.readFrame[k].code < 0
    requires forall j :: 0 <= j < k ==> Foreign(s.engine.readFrame[j], s.videoStreamId)
    ensures Download(s).0 == if s.engine.readFrame[k].code == AVERROR_EOF then Asa.Eoi else Asa.Again
  {
    DecodeNextOnReadError(s, k);
  }

  /** On a session that is open and detected with no frame buffered, a
      packet of the chosen stream that the decoder accepts, followed by a
      frame, gives that frame's conversion. */
  lemma DownloadDecodedFrame(s: Session)
    requires s.inputOpen && s.streamDetected && NextReceiveFrame(s.engine).code < 0
    requires ReadVideoPacket(s.engine, s.videoStreamId, s.packetStream).outcome.Packet?
    requires NextSendPacket(s.engine) >= 0 && SecondReceiveFrame(s.engine).code >= 0
    ensures Download(s).0 == ConvertData(SecondReceiveFrame(s.engine).frame)
  {
    DecodeNextOutcome(s);
  }

  /** A container that does not open ends the poll with a fatal response
      before any stream detection call. */
  lemma DownloadOpenFailure(s: Session)
    requires !s.inputOpen && NextOpenInput(s.engine) < 0
    ensures Download(s).0 == Asa.Fatal(OPEN_INPUT_ERROR)
    ensures NewCalls(s, Download(s).1) == [OpenInput]
    ensures !Download(s).1.inputOpen
  {
  }

  /** Until the codec has opened, a poll answers Again or a fatal error and
      never asks the decoder for a frame. */
  lemma DownloadBeforeDetection(s: Session)
    ensures var (resp, t) := Download(s);
            !t.streamDetected ==> (resp.Again? || resp.Fatal?) && ReceiveFrame !in NewCalls(s, t)
  {
    DownloadDispatch(s);
    var (isOpen, s1) := EnsureOpenInput(s);
    if !isOpen {
      assert NewCalls(s, s1) == [OpenInput];
    } else {
      var (detect, s2) := EnsureDetectStream(s1);
      if detect != Success {
        NewCallsConcat(s, s1, s2);
        NotAmong(NewCalls(s1, s2), [FindStreamInfo, FindBestStream, AllocContext, CopyParameters, OpenCodec],
                 ReceiveFrame);
      } else {
        assert DecodeNext(s2).1.streamDetected;
      }
    }
  }

  /** Once the container is open and the codec ready, a poll goes straight
      to the decoder: its first call asks for a frame. */
  lemma DownloadWhenReady(s: Session)
    requires s.inputOpen && s.streamDetected
    ensures |s.engine.log| < |Download(s).1.engine.log|
    ensures NewCalls(s, Download(s).1)[0] == ReceiveFrame
  {
  }

  /** A normal response comes only from a decoded frame, right after the
      decoder handed it over, and carries that frame's geometry. */
  lemma DownloadNormal(s: Session)
    ensures var (resp, t) := Download(s);
            resp.Normal? ==>
              && t.streamDetected
              && |t.engine.log| > 0 && t.engine.log[|t.engine.log| - 1] == ReceiveFrame
              && resp == ConvertData(t.frame)
  {
  }

  /** The rows the conversion writes fill exactly width * height * 3 bytes. */
  lemma ConvertedFrameSize(f: Frame)
    ensures var job := ConvertData(f).job;
            job.dstStride[0] * job.sliceHeight == f.width * f.height * 3
  {
  }

  // The read phase of decode_next.

  /** The read phase depends only on av_read_frame's replies: neither the
      log, the other queues nor the index of the packet read before it
      changes what it finds. */
  lemma {:induction false} ReadIndependent(e: Oracle, f: Oracle, vid: int, ps: int, qs: int)
    requires e.readFrame == f.readFrame
    ensures ReadVideoPacket(e, vid, ps).outcome == ReadVideoPacket(f, vid, qs).outcome
    ensures ReadVideoPacket(e, vid, ps).engine.readFrame == ReadVideoPacket(f, vid, qs).engine.readFrame
    decreases |e.readFrame|
  {
    var (e1, read) := AvReadFrame(e);
    var (f1, _) := AvReadFrame(f);
    if read.code >= 0 && read.streamIndex != vid {
      ReadIndependent(e1, f1, vid, read.streamIndex, read.streamIndex);
    }
  }

  /** Packets of other streams are discarded: a run of them in front of the
      demuxer's output changes neither what the read phase ends with nor
      where it leaves the demuxer. */
  lemma {:induction false} ForeignPacketsSkipped(e: Oracle, vid: int, ps: int, k: nat)
    requires k <= |e.readFrame|
    requires forall j :: 0 <= j < k ==> e.readFrame[j].code >= 0 && e.readFrame[j].streamIndex != vid
    ensures ReadVideoPacket(e, vid, ps).outcome ==
            ReadVideoPacket(e.(readFrame := e.readFrame[k..]), vid, ps).outcome
    ensures ReadVideoPacket(e, vid, ps).engine.readFrame ==
            ReadVideoPacket(e.(readFrame := e.readFrame[k..]), vid, ps).engine.readFrame
    decreases k
  {
    if k == 0 {
      assert e.(readFrame := e.readFrame[k..]) == e;
    } else {
      var (e1, read) := AvReadFrame(e);
      assert e1.readFrame == e.readFrame[1..];
      ForeignPacketsSkipped(e1, vid, read.streamIndex, k - 1);
      assert e1.readFrame[k - 1..] == e.readFrame[k..];
      ReadIndependent(e1.(readFrame := e1.readFrame[k - 1..]), e.(readFrame := e.readFrame[k..]),
                      vid, read.streamIndex, ps);
    }
  }

  /** The frame the decoder gives on the call after the next. */
  function SecondReceiveFrame(e: Oracle): (r: Received)
  {
    NextReceiveFrame(AvcodecReceiveFrame(e).0)
  }

  /** How decode_next ends when no frame was buffered, in terms of the
      library's replies: the read phase's end, then the send, then the
      second receive. */
  lemma DecodeNextOutcome(s: Session)
    requires NextReceiveFrame(s.engine).code < 0
    ensures var read := ReadVideoPacket(s.engine, s.videoStreamId, s.packetStream).outcome;
            var sent := NextSendPacket(s.engine);
            var second := SecondReceiveFrame(s.engine).code;
            var r := DecodeNext(s).0;
            && (read == ReadError(AVERROR_EOF) ==> r == Eoi)
            && (read.ReadError? && read.code != AVERROR_EOF ==> r == Again)
            && (read.Packet? && sent < 0 ==> r == Failed(SEND_PACKET_PREFIX + AvStrerror(s.engine, sent)))
            && (read.Packet? && sent >= 0 && second == AVERROR_EAGAIN ==> r == Again)
            && (read.Packet? && sent >= 0 && second == AVERROR_EOF ==> r == Eoi)
            && (read.Packet? && sent >= 0 && second < 0 && second != AVERROR_EAGAIN && second != AVERROR_EOF ==>
                  r == Failed(DECODING_ERROR))
            && (read.Packet? && sent >= 0 && second >= 0 ==>
                  r == Success && DecodeNext(s).1.frame == SecondReceiveFrame(s.engine).frame)
  {
    var (e1, _) := AvcodecReceiveFrame(s.engine);
    ReadIndependent(e1, s.engine, s.videoStreamId, s.packetStream, s.packetStream);
  }

  /** The read loop stops at the first demuxer reply that is not a packet
      of another stream, and ends with that reply's error code or with a
      packet of the chosen stream. */
  lemma {:induction false} ReadStopsAtFirst(e: Oracle, vid: int, ps: int, k: nat)
    requires k < |e.readFrame| && !Foreign(e.readFrame[k], vid)
    requires forall j :: 0 <= j < k ==> Foreign(e.readFrame[j], vid)
    ensures var r := ReadVideoPacket(e, vid, ps);
            && r.engine.readFrame == e.readFrame[k + 1..]
            && r.outcome == (if e.readFrame[k].code < 0 then ReadError(e.readFrame[k].code) else Packet)
    decreases k
  {
    var (e1, read) := AvReadFrame(e);
    assert read == e.readFrame[0] && e1.readFrame == e.readFrame[1..];
    if k > 0 {
      assert Foreign(e.readFrame[0], vid);
      ReadStopsAtFirst(e1, vid, read.streamIndex, k - 1);
      assert e1.readFrame[k..] == e.readFrame[k + 1..];
    }
  }

  /** A demuxer that has only packets of other streams to give is read dry,
      and the loop ends with AVERROR(EAGAIN). */
  lemma {:induction false} ReadRunsDry(e: Oracle, vid: int, ps: int)
    requires forall j :: 0 <= j < |e.readFrame| ==> Foreign(e.readFrame[j], vid)
    ensures ReadVideoPacket(e, vid, ps).outcome == ReadError(AVERROR_EAGAIN)
    ensures ReadVideoPacket(e, vid, ps).engine.readFrame == []
    decreases |e.readFrame|
  {
    var (e1, read) := AvReadFrame(e);
    if e.readFrame != [] {
      assert Foreign(e.readFrame[0], vid);
      assert forall j :: 0 <= j < |e1.readFrame| ==> e1.readFrame[j] == e.readFrame[j + 1];
      ReadRunsDry(e1, vid, read.streamIndex);
    }
  }

  /** With no frame buffered, the first demuxer reply that is not a packet
      of another stream decides a failed read: end of file gives Eoi and
      any other error gives Again; m_frame is left blank by the failed
      receive and m_packet by the failed read. */
  lemma DecodeNextOnReadError(s: Session, k: nat)
    requires NextReceiveFrame(s.engine).code < 0
    requires k < |s.engine.readFrame| && s.engine.readFrame[k].code < 0
    requires forall j :: 0 <= j < k ==> Foreign(s.engine.readFrame[j], s.videoStreamId)
    ensures DecodeNext(s).0 == if s.engine.readFrame[k].code == AVERROR_EOF then Eoi else Again
    ensures DecodeNext(s).1.frame == BLANK_FRAME && DecodeNext(s).1.packetStream == BLANK_STREAM_INDEX
  {
    var (e1, _) := AvcodecReceiveFrame(s.engine);
    ReadStopsAtFirst(e1, s.videoStreamId, s.packetStream, k);
  }

  // The session invariant.

  /** The calls of stream detection. */
  predicate Detecting(c: Call)
  {
    c.FindStreamInfo? || c.FindBestStream? || c.AllocContext? || c.CopyParameters? || c.OpenCodec?
  }

  /** The calls that read packets and feed and drain the decoder. */
  predicate Decoding(c: Call)
  {
    c.ReceiveFrame? || c.ReadFrame? || c.SendPacket?
  }

  /** The index of the last call `c` in `log`, or -1 when there is none. */
  function LastIndex(log: seq<Call>, c: Call): (i: int)
    ensures -1 <= i < |log|
    ensures 0 <= i ==> log[i] == c
    ensures forall j :: i < j < |log| ==> log[j] != c
  {
    if log == [] then -1
    else if log[|log| - 1] == c then |log| - 1
    else LastIndex(log[..|log| - 1], c)
  }

  /** Calls appended after the last `c` that are not `c` leave it where it was. */
  lemma LastIndexAppend(log: seq<Call>, more: seq<Call>, c: Call)
    requires c !in more
    ensures LastIndex(log + more, c) == LastIndex(log, c)
  {
    var i' := LastIndex(log, c);
    if i' >= 0 {
      assert (log + more)[i'] == c;
    }
  }

  /** Where call k of the log of `s` may stand: a detection call after the
      last open call, and, once the stream is detected, no later than the
      last codec open; a call of the decoder after the last codec open,
      with the stream detected; a packet sent only of the chosen stream. */
  ghost predicate Placed(s: Session, k: int)
    requires 0 <= k < |s.engine.log|
  {
    var log := s.engine.log;
    && (Detecting(log[k]) ==> s.inputOpen && 0 <= LastIndex(log, OpenInput) < k)
    && (Detecting(log[k]) && s.streamDetected ==> k <= LastIndex(log, OpenCodec))
    && (Decoding(log[k]) ==> s.streamDetected && 0 <= LastIndex(log, OpenCodec) < k)
    && (log[k].SendPacket? ==> log[k].streamIndex == s.videoStreamId)
  }

  /** The session invariant: the flags agree with the calls in the log, and
      every call stands where Placed allows. Since detection is not redone
      once it succeeded, the last open and the last codec open are the
      successful ones. */
  ghost predicate Consistent(s: Session)
  {
    && (s.streamDetected ==> s.inputOpen)
    && (s.inputOpen ==> 0 <= LastIndex(s.engine.log, OpenInput))
    && (s.streamDetected ==> 0 <= LastIndex(s.engine.log, OpenCodec))
    && forall k :: 0 <= k < |s.engine.log| ==> Placed(s, k)
  }

  /** A fresh session, which has made no calls, is consistent. */
  lemma InitialConsistent(e: Oracle, vid: int, f: Frame, ps: int)
    requires e.log == []
    ensures Consistent(Session(false, false, vid, f, ps, e))
  {
  }

  /** ensure_open_input keeps the invariant: before the input opens the log
      holds open calls only. */
  lemma OpenStepConsistent(s: Session)
    requires Consistent(s)
    ensures Consistent(EnsureOpenInput(s).1)
  {
    var t := EnsureOpenInput(s).1;
    if !s.inputOpen {
      forall k | 0 <= k < |t.engine.log|
        ensures Placed(t, k)
      {
        if k < |s.engine.log| {
          assert Placed(s, k);
          assert t.engine.log[k] == s.engine.log[k];
        }
      }
    }
  }

  /** A detection that succeeds ends with the codec open call. */
  lemma DetectEndsWithOpenCodec(s: Session)
    requires !s.streamDetected
    ensures var t := EnsureDetectStream(s).1;
            && |s.engine.log| < |t.engine.log|
            && (t.streamDetected ==> t.engine.log[|t.engine.log| - 1] == OpenCodec)
  {
  }

  /** Detection calls appended to the log of an open session that has not
      detected its stream keep the invariant, provided that a detection
      that succeeds ended with the codec open call. */
  lemma DetectionCallsKeepConsistent(s: Session, t: Session)
    requires Consistent(s) && s.inputOpen && !s.streamDetected
    requires t == s.(streamDetected := t.streamDetected, videoStreamId := t.videoStreamId, engine := t.engine)
    requires Extends(s, t) && |s.engine.log| < |t.engine.log|
    requires forall c :: c in NewCalls(s, t) ==> Detecting(c)
    requires t.streamDetected ==> t.engine.log[|t.engine.log| - 1] == OpenCodec
    ensures Consistent(t)
  {
    var more := NewCalls(s, t);
    assert t.engine.log == s.engine.log + more;
    assert OpenInput !in more;
    LastIndexAppend(s.engine.log, more, OpenInput);
    forall k | 0 <= k < |t.engine.log|
      ensures Placed(t, k)
    {
      if k < |s.engine.log| {
        assert Placed(s, k);
        assert t.engine.log[k] == s.engine.log[k];
      } else {
        assert t.engine.log[k] in more;
      }
    }
  }

  /** ensure_detect_stream keeps the invariant: before detection succeeds
      the log holds no call of the decoder. */
  lemma DetectStepConsistent(s: Session)
    requires Consistent(s) && s.inputOpen
    ensures Consistent(EnsureDetectStream(s).1)
  {
    if !s.streamDetected {
      DetectEndsWithOpenCodec(s);
      DetectionCallsKeepConsistent(s, EnsureDetectStream(s).1);
    }
  }

  /** Decoder calls appended to the log of a detected session keep the
      invariant when every packet sent is of the chosen stream. */
  lemma DecoderCallsKeepConsistent(s: Session, t: Session)
    requires Consistent(s) && s.streamDetected
    requires t == s.(frame := t.frame, packetStream := t.packetStream, engine := t.engine)
    requires Extends(s, t)
    requires forall c :: c in NewCalls(s, t) ==> c in [ReceiveFrame, ReadFrame, SendPacket(s.videoStreamId)]
    ensures Consistent(t)
  {
    var more := NewCalls(s, t);
    assert t.engine.log == s.engine.log + more;
    assert OpenInput !in more && OpenCodec !in more;
    LastIndexAppend(s.engine.log, more, OpenInput);
    LastIndexAppend(s.engine.log, more, OpenCodec);
    forall k | 0 <= k < |t.engine.log|
      ensures Placed(t, k)
    {
      if k < |s.engine.log| {
        assert Placed(s, k);
        assert t.engine.log[k] == s.engine.log[k];
      } else {
        assert t.engine.log[k] in more;
      }
    }
  }

  /** decode_next keeps the invariant: it makes decoder calls only, for the
      packets of the chosen stream. */
  lemma DecodeStepConsistent(s: Session)
    requires Consistent(s) && s.streamDetected
    ensures Consistent(DecodeNext(s).1)
  {
    DecoderCallsKeepConsistent(s, DecodeNext(s).1);
  }

  /** Every poll keeps the session consistent. */
  lemma DownloadPreservesConsistent(s: Session)
    requires Consistent(s)
    ensures Consistent(Download(s).1)
  {
    var (isOpen, s1) := EnsureOpenInput(s);
    OpenStepConsistent(s);
    if isOpen {
      var (detect, s2) := EnsureDetectStream(s1);
      DetectStepConsistent(s1);
      if detect == Success {
        DecodeStepConsistent(s2);
      }
    }
  }
}
