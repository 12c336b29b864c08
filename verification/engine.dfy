/** The FFmpeg library calls a download session makes, as an oracle.

    The library itself is not modelled. Each entry point the session calls
    has its own queue of scripted replies, consumed front first, and every
    call is appended to a log so that a contract can say which calls were
    made. A call whose queue is empty answers with a failure: the library
    has nothing more to give for the bytes it has seen so far. */
module Engine {

  /** AVERROR_EOF, that is FFERRTAG('E','O','F',' '). */
  const AVERROR_EOF: int := -541478725
  /** AVERROR(EAGAIN) on Linux, where EAGAIN is 11. */
  const AVERROR_EAGAIN: int := -11
  /** AVERROR_STREAM_NOT_FOUND, that is FFERRTAG(0xF8,'S','T','R'). */
  const AVERROR_STREAM_NOT_FOUND: int := -1381258232
  /** AV_PIX_FMT_NONE, the format of a frame nothing has been decoded into. */
  const AV_PIX_FMT_NONE: int := -1
  /** The stream index of a blank packet, as av_packet_alloc leaves it. */
  const BLANK_STREAM_INDEX: int := 0
  /** Size of the buffer av_strerror fills, including its terminating NUL. */
  const ERROR_BUFFER_SIZE: nat := 256

  /** The geometry of a decoded picture (AVFrame width, height, format). */
  datatype Frame = Frame(width: int, height: int, format: int)

  /** A frame with nothing in it, as av_frame_alloc or av_frame_unref leave it. */
  const BLANK_FRAME: Frame := Frame(0, 0, AV_PIX_FMT_NONE)

  /** av_find_best_stream's return value and whether it set the decoder out-parameter. */
  datatype BestStream = BestStream(index: int, codecFound: bool)

  /** avcodec_receive_frame's return code and the frame it fills when the code is not
      negative; on a negative code the library has unreferenced the frame, leaving it blank. */
  datatype Received = Received(code: int, frame: Frame)

  /** av_read_frame's return code and the stream index of the packet it fills; on a
      negative code the library leaves the packet blank. */
  datatype Read = Read(code: int, streamIndex: int)

  /** One library call, as recorded in the oracle's log. */
  datatype Call =
    | OpenInput
    | FindStreamInfo
    | FindBestStream
    | AllocContext
    | CopyParameters
    | OpenCodec
    | ReceiveFrame
    | ReadFrame
    | SendPacket(streamIndex: int)

  datatype Oracle = Oracle(
    openInput: seq<int>,          // avformat_open_input
    findStreamInfo: seq<int>,     // avformat_find_stream_info
    bestStream: seq<BestStream>,  // av_find_best_stream
    allocContext: seq<bool>,      // avcodec_alloc_context3: false is a null context
    copyParameters: seq<int>,     // avcodec_parameters_to_context
    openCodec: seq<int>,          // avcodec_open2
    receiveFrame: seq<Received>,  // avcodec_receive_frame
    readFrame: seq<Read>,         // av_read_frame
    sendPacket: seq<int>,         // avcodec_send_packet
    errorText: map<int, string>,  // av_strerror's description of a code
    log: seq<Call>)

  function Head<T>(q: seq<T>, none: T): (r: T) { if q == [] then none else q[0] }
  function Tail<T>(q: seq<T>): (r: seq<T>) { if q == [] then [] else q[1..] }

  // The reply each entry point gives on its next call.

  function NextOpenInput(o: Oracle): (r: int) { Head(o.openInput, AVERROR_EAGAIN) }
  function NextFindStreamInfo(o: Oracle): (r: int) { Head(o.findStreamInfo, AVERROR_EAGAIN) }
  function NextBestStream(o: Oracle): (r: BestStream)
  {
    Head(o.bestStream, BestStream(AVERROR_STREAM_NOT_FOUND, false))
  }
  function NextAllocContext(o: Oracle): (r: bool) { Head(o.allocContext, false) }
  function NextCopyParameters(o: Oracle): (r: int) { Head(o.copyParameters, AVERROR_EAGAIN) }
  function NextOpenCodec(o: Oracle): (r: int) { Head(o.openCodec, AVERROR_EAGAIN) }
  function NextReceiveFrame(o: Oracle): (r: Received)
  {
    Head(o.receiveFrame, Received(AVERROR_EAGAIN, BLANK_FRAME))
  }
  function NextReadFrame(o: Oracle): (r: Read) { Head(o.readFrame, Read(AVERROR_EAGAIN, -1)) }
  function NextSendPacket(o: Oracle): (r: int) { Head(o.sendPacket, AVERROR_EAGAIN) }

  // The calls: each consumes its reply and logs itself.

  function AvformatOpenInput(o: Oracle): (r: (Oracle, int))
  {
    (o.(openInput := Tail(o.openInput), log := o.log + [OpenInput]), NextOpenInput(o))
  }

  function AvformatFindStreamInfo(o: Oracle): (r: (Oracle, int))
  {
    (o.(findStreamInfo := Tail(o.findStreamInfo), log := o.log + [FindStreamInfo]), NextFindStreamInfo(o))
  }

  function AvFindBestStream(o: Oracle): (r: (Oracle, BestStream))
  {
    (o.(bestStream := Tail(o.bestStream), log := o.log + [FindBestStream]), NextBestStream(o))
  }

  function AvcodecAllocContext3(o: Oracle): (r: (Oracle, bool))
  {
    (o.(allocContext := Tail(o.allocContext), log := o.log + [AllocContext]), NextAllocContext(o))
  }

  function AvcodecParametersToContext(o: Oracle): (r: (Oracle, int))
  {
    (o.(copyParameters := Tail(o.copyParameters), log := o.log + [CopyParameters]), NextCopyParameters(o))
  }

  function AvcodecOpen2(o: Oracle): (r: (Oracle, int))
  {
    (o.(openCodec := Tail(o.openCodec), log := o.log + [OpenCodec]), NextOpenCodec(o))
  }

  function AvcodecReceiveFrame(o: Oracle): (r: (Oracle, Received))
  {
    (o.(receiveFrame := Tail(o.receiveFrame), log := o.log + [ReceiveFrame]), NextReceiveFrame(o))
  }

  function AvReadFrame(o: Oracle): (r: (Oracle, Read))
  {
    (o.(readFrame := Tail(o.readFrame), log := o.log + [ReadFrame]), NextReadFrame(o))
  }

  /** avcodec_send_packet, logged with the stream index of the packet sent. */
  function AvcodecSendPacket(o: Oracle, streamIndex: int): (r: (Oracle, int))
  {
    (o.(sendPacket := Tail(o.sendPacket), log := o.log + [SendPacket(streamIndex)]), NextSendPacket(o))
  }

  /** The library's description of error `code`. The empty text for a
      code the oracle holds no description for is a convention of this
      model: av_strerror itself then falls back to strerror or to "Error
      number N occurred". */
  function Description(o: Oracle, code: int): (d: string)
  {
    if code in o.errorText then o.errorText[code] else ""
  }

  /** av_strerror into a zeroed buffer of ERROR_BUFFER_SIZE bytes: the
      description, cut to leave room for the terminating NUL. */
  function AvStrerror(o: Oracle, code: int): (text: string)
    ensures |text| < ERROR_BUFFER_SIZE
    ensures text <= Description(o, code)
    ensures |Description(o, code)| < ERROR_BUFFER_SIZE ==> text == Description(o, code)
    ensures |Description(o, code)| >= ERROR_BUFFER_SIZE ==> |text| == ERROR_BUFFER_SIZE - 1
  {
    var full := Description(o, code);
    if |full| < ERROR_BUFFER_SIZE then full else full[..ERROR_BUFFER_SIZE - 1]
  }
}
