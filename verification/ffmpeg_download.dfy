/** The download session (src/ffmpeg-download.hpp): its flags and fields
    updated in place, each method proved against the function of the same
    name in DownloadModel. */
module FFmpegDownload {
  import opened Engine
  import opened FFmpegCommon
  import M = DownloadModel
  import Asa

  class Download {
    /** The inherited Common part: the queue of pushed bytes. */
    const common: Common
    var inputOpen: bool
    var streamDetected: bool
    var videoStreamId: int
    /** The geometry of m_frame. */
    var frame: Frame
    /** The stream index of m_packet. */
    var packetStream: int
    /** The library state behind m_format_context and m_cc. */
    var engine: Oracle

    ghost function State(): M.Session
      reads this
    {
      M.Session(inputOpen, streamDetected, videoStreamId, frame, packetStream, engine)
    }

    ghost predicate Valid()
      reads this
    {
      M.Consistent(State())
    }

    /** A session that has made no library calls. m_video_stream_id starts
        indeterminate; -1 stands for it, and no step reads it before
        stream detection assigns it. */
    constructor (oracle: Oracle)
      requires oracle.log == []
      ensures Valid() && fresh(common) && common.data == []
      ensures !inputOpen && !streamDetected && engine == oracle
      ensures frame == BLANK_FRAME && packetStream == BLANK_STREAM_INDEX
    {
      common := new Common();
      inputOpen := false;
      streamDetected := false;
      videoStreamId := -1;
      frame := BLANK_FRAME;
      packetStream := BLANK_STREAM_INDEX;
      engine := oracle;
      new;
      M.InitialConsistent(oracle, -1, frame, packetStream);
    }

    /** One poll: open the input, detect the stream, decode, convert. */
    method Download() returns (resp: Asa.Response)
      requires Valid()
      modifies this
      ensures Valid()
      ensures (resp, State()) == M.Download(old(State()))
    {
      var isOpen := EnsureOpenInput();
      if !isOpen {
        return Asa.Fatal(M.OPEN_INPUT_ERROR);
      }
      var detect := EnsureDetectStream();
      if detect == M.Again {
        return Asa.Again;
      } else if detect.Failed? {
        return Asa.Fatal(detect.message);
      }
      var decode := DecodeNext();
      if decode == M.Again {
        return Asa.Again;
      } else if decode == M.Eoi {
        return Asa.Eoi;
      } else if decode.Failed? {
        return Asa.Fatal(decode.message);
      }
      resp := ConvertData();
    }

    method EnsureOpenInput() returns (ok: bool)
      requires Valid()
      modifies this
      ensures (ok, State()) == M.EnsureOpenInput(old(State()))
      ensures Valid()
    {
      M.OpenStepConsistent(State());
      if !inputOpen {
        var (e, code) := AvformatOpenInput(engine);
        engine := e;
        if code < 0 {
          return false;
        }
        inputOpen := true;
      }
      return true;
    }

    /** Runs only on an open input, as download calls it. */
    method EnsureDetectStream() returns (r: M.DownloadResult)
      requires Valid() && inputOpen
      modifies this
      ensures (r, State()) == M.EnsureDetectStream(old(State()))
      ensures Valid()
    {
      M.DetectStepConsistent(State());
      if !streamDetected {
        var (e1, info) := AvformatFindStreamInfo(engine);
        engine := e1;
        if info < 0 {
          return M.Again;
        }
        var (e2, best) := AvFindBestStream(engine);
        engine := e2;
        videoStreamId := best.index;
        if videoStreamId < 0 || !best.codecFound {
          return M.Failed(M.NO_VIDEO_STREAM);
        }
        var (e3, hasContext) := AvcodecAllocContext3(engine);
        engine := e3;
        if !hasContext {
          return M.Failed(M.CONTEXT_ALLOC_ERROR);
        }
        var (e4, copied) := AvcodecParametersToContext(engine);
        engine := e4;
        if copied < 0 {
          return M.Failed(M.COPY_PARAMETERS_ERROR);
        }
        var (e5, openCode) := AvcodecOpen2(engine);
        engine := e5;
        if openCode < 0 {
          return M.Failed(M.OPEN_CODEC_ERROR);
        }
        streamDetected := true;
      }
      return M.Success;
    }

    /** Runs only once the codec is open, as download calls it. */
    method DecodeNext() returns (r: M.DecodeResult)
      requires Valid() && streamDetected
      modifies this
      ensures (r, State()) == M.DecodeNext(old(State()))
      ensures Valid()
    {
      M.DecodeStepConsistent(State());
      var (e1, received) := AvcodecReceiveFrame(engine);
      engine := e1;
      if received.code >= 0 {
        frame := received.frame;
        return M.Success;
      }
      frame := BLANK_FRAME;
      var outcome := ReadVideoPacket();
      if outcome.ReadError? {
        return if outcome.code == AVERROR_EOF then M.Eoi else M.Again;
      }
      r := FeedPacket();
    }

    /** The do-while loop of decode_next: reads packets into m_packet until
        one belongs to the video stream or a read fails. */
    method ReadVideoPacket() returns (outcome: M.ReadOutcome)
      modifies this
      ensures M.Demuxed(outcome, engine, packetStream) ==
              M.ReadVideoPacket(old(engine), videoStreamId, old(packetStream))
      ensures inputOpen == old(inputOpen) && streamDetected == old(streamDetected)
      ensures videoStreamId == old(videoStreamId) && frame == old(frame)
    {
      var matched := false;
      while !matched
        invariant inputOpen == old(inputOpen) && streamDetected == old(streamDetected)
        invariant videoStreamId == old(videoStreamId) && frame == old(frame)
        invariant !matched ==>
                    M.ReadVideoPacket(engine, videoStreamId, packetStream) ==
                    M.ReadVideoPacket(old(engine), videoStreamId, old(packetStream))
        invariant matched ==>
                    M.ReadVideoPacket(old(engine), videoStreamId, old(packetStream)) ==
                    M.Demuxed(M.Packet, engine, packetStream)
        decreases |engine.readFrame|
      {
        var (e2, read) := AvReadFrame(engine);
        engine := e2;
        if read.code < 0 {
          packetStream := BLANK_STREAM_INDEX;
          return M.ReadError(read.code);
        }
        packetStream := read.streamIndex;
        matched := packetStream == videoStreamId;
      }
      return M.Packet;
    }

    /** The rest of decode_next: sends m_packet and receives again. */
    method FeedPacket() returns (r: M.DecodeResult)
      modifies this
      ensures (r, State()) == M.FeedPacket(old(State()))
    {
      var (e3, sent) := AvcodecSendPacket(engine, packetStream);
      engine := e3;
      if sent < 0 {
        return M.Failed(M.SEND_PACKET_PREFIX + AvStrerror(engine, sent));
      }
      var (e4, again) := AvcodecReceiveFrame(engine);
      engine := e4;
      if again.code < 0 {
        frame := BLANK_FRAME;
        return M.ReceiveFailure(again.code);
      }
      frame := again.frame;
      return M.Success;
    }

    method ConvertData() returns (resp: Asa.Response)
      ensures resp == M.ConvertData(frame)
    {
      var job := Asa.ScaleJob(frame.width, frame.height, frame.format,
                              frame.width, frame.height, Asa.BGR24, Asa.Bilinear,
                              [3 * frame.width, 0, 0], 0, frame.height);
      resp := Asa.Normal(0.0, frame.width, frame.height, job);
    }

    /** The read callback: moves up to bufSize bytes from the front of the
        queue into buffer. */
    method ReadPacket(buffer: array<byte>, bufSize: nat) returns (n: int)
      requires bufSize <= buffer.Length
      modifies buffer, common
      ensures n == Min(|old(common.data)|, bufSize)
      ensures (buffer[..n], common.data) == Consume(old(common.data), bufSize)
      ensures buffer[n..] == old(buffer[n..])
    {
      var toRead := Min(|common.data|, bufSize);
      var i := 0;
      while i < toRead
        invariant 0 <= i <= toRead
        invariant common.data == old(common.data)
        invariant buffer[..i] == common.data[..i]
        invariant buffer[i..] == old(buffer[i..])
      {
        buffer[i] := common.data[i];
        i := i + 1;
      }
      common.data := common.data[toRead..];
      return toRead;
    }
  }
}
