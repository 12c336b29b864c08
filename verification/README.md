# ffmpeg-handler download session, in Dafny

This project models the core of ffmpeg-handler: a plugin that decodes a video container pushed to it in arbitrary chunks. The model covers:

- the byte queue `Common::m_data` that `push` fills;
- the read callback `read_packet`, which drains that queue for the demuxer;
- the `Download` session, whose `download` call is one poll;
- the upload sink `Upload::write_packet`.

A poll opens the container once (`ensure_open_input`). It then selects the video stream and opens its decoder once (`ensure_detect_stream`). Next it drains or feeds the decoder (`decode_next`). When a frame is ready it describes the frame's conversion to packed BGR24 (`convert_data`). Each stage can end the poll early with Again, end of input (Eoi) or a fatal message.

The FFmpeg library is not modelled. It is an oracle (`Engine.Oracle`): each entry point the session calls has its own queue of scripted return codes, stream indices and frame geometries. A call consumes the front of its queue and appends itself to a call log. A call whose queue is empty fails: `AVERROR(EAGAIN)`, a null context, or `AVERROR_STREAM_NOT_FOUND`. Contracts use the log to say which library calls a step made, in what order, and which packets were sent to the decoder.

Layout:

- `engine.dfy`: module `Engine`, the oracle and the error constants `AVERROR_EOF`, `AVERROR(EAGAIN)` (Linux value) and `AVERROR_STREAM_NOT_FOUND`.
- `asa.dfy`: module `Asa`, the response handed to the host and the sws conversion request.
- `ffmpeg_common.dfy`: module `FFmpegCommon`, the byte type, class `Common` (`m_data`, `push`), and `Consume`, the specification of a read from the queue.
- `download_model.dfy`: module `DownloadModel`, the session as a value (`Session`) and one function per step of `Download`, with the lemmas about them. It also defines `Consistent`, the invariant every poll keeps, as an order on the call log. Every detection call comes after the last open call. Every receive, read and send comes after the last codec open. Once the stream is detected, every detection call comes no later than that codec open. Every packet sent belongs to the chosen stream.
- `ffmpeg_download.dfy`: module `FFmpegDownload`, class `Download`. Its fields are updated in place. Each step of a poll (`Download`, `EnsureOpenInput`, `EnsureDetectStream`, `DecodeNext`, `ReadVideoPacket`, `FeedPacket`, `ConvertData`) is proved equal to the `DownloadModel` function of the same name; the read callback `ReadPacket` is proved against `FFmpegCommon.Consume`. `ReadVideoPacket` keeps the source's do-while read loop; `DecodeNext` runs it between its two receives.
- `ffmpeg_upload.dfy`: module `FFmpegUpload`, class `Upload` with the corrected `WritePacket`, and the as-written `write_packet` on a model of `std::vector` storage.

C++ inheritance from `Common` is modelled by composition: `Download` and `Upload` each own a `common: Common` object.

## Model

| member | source | states |
|---|---|---|
| FFmpegCommon.Common.Push | src/ffmpeg-common.hpp:24-26 | the queue grows by exactly the chunk's size and becomes the old queue followed by the chunk, so an empty chunk changes nothing; only the queue changes |
| FFmpegCommon.Consume | src/ffmpeg-download.hpp:196-202 | a read of capacity n takes min(queue length, n) bytes, and the taken bytes followed by what is left are the old queue |
| FFmpegCommon.ConsumeIgnoresLaterPushes | src/ffmpeg-download.hpp:196-202 | bytes pushed after the queued ones never overtake them: a read no larger than the old queue takes the same bytes, and the pushed chunk stays at the back |
| FFmpegCommon.ConsumeInPieces | src/ffmpeg-download.hpp:196-202 | two successive reads take, in order, what one read of their combined capacity takes, and leave the same rest |
| FFmpegDownload.Download.ReadPacket | src/ffmpeg-download.hpp:196-202 | returns min(queue length, buf_size), which is 0 on an empty queue and never more than buf_size; the buffer's first n bytes followed by the new queue equal the old queue; the rest of the buffer is untouched |
| DownloadModel.EnsureOpenInput | src/ffmpeg-download.hpp:103-113 | once the input is open it returns true and changes nothing, with no library call; otherwise it makes exactly one open call and succeeds exactly when that call does not fail; the result equals the new flag, which is never cleared |
| FFmpegDownload.Download.EnsureOpenInput | src/ffmpeg-download.hpp:103-113 | result and new session state are those of DownloadModel.EnsureOpenInput on the old state; requires and keeps the session invariant Valid |
| DownloadModel.EnsureDetectStream | src/ffmpeg-download.hpp:115-144 | once detected it returns Success and changes nothing; the flag is set exactly when the result is Success; the result is Again exactly when stream info fails, and then stream info is the only call made; every failure carries one of the four detection messages; it changes only the flag, the stream id and the library state, and makes only detection calls |
| DownloadModel.OpenDecoder | src/ffmpeg-download.hpp:127-140 | the decoder half of detection ends in Success or a failure, never Again; a failure carries the context, parameter or codec message; the flag is set exactly on Success, which comes only after the allocation, copy and open calls in that order; each failing step is the last call made; nothing else changes |
| DownloadModel.DetectStreamOutcome | src/ffmpeg-download.hpp:117-140 | a missing stream or decoder, a failed context allocation, a failed parameter copy and a failed codec open each yield their own message right after their own call, with no later detection call; the chosen stream index is stored even on failure; Success comes only after all five detection calls succeed, in source order |
| FFmpegDownload.Download.EnsureDetectStream | src/ffmpeg-download.hpp:115-144 | result and new session state are those of DownloadModel.EnsureDetectStream on the old state; runs on an open input, as download calls it, and keeps the session invariant Valid |
| DownloadModel.ReadVideoPacket | src/ffmpeg-download.hpp:148-156 | the read loop ends with a packet of the chosen stream or a negative read code, after which the packet is blank (stream index 0); every reply consumed before the last was a successful packet of another stream; it consumes a prefix of the demuxer's replies, makes only read calls (at least one), and changes no other library state |
| DownloadModel.ReadStopsAtFirst | src/ffmpeg-download.hpp:148-156 | the loop stops at the first demuxer reply that is not a packet of another stream and consumes exactly the replies up to it: a failed read ends it with that read's own error code, and a packet of the chosen stream ends it with that packet |
| DownloadModel.ReadRunsDry | src/ffmpeg-download.hpp:148-156 | a demuxer with only packets of other streams to give is read to the end; the loop then stops with the read error the model's exhausted demuxer gives, AVERROR(EAGAIN) (a convention of the engine model, not a code the source chooses) |
| DownloadModel.ReadIndependent | src/ffmpeg-download.hpp:148-156 | what the read loop finds depends only on the demuxer's replies: not on the log, the other calls' replies, or the packet read before it |
| DownloadModel.ForeignPacketsSkipped | src/ffmpeg-download.hpp:148-156 | packets of other streams are discarded: any run of them in front of the demuxer's replies changes neither the read loop's outcome nor where it leaves the demuxer |
| DownloadModel.FeedPacket | src/ffmpeg-download.hpp:158-172 | sends the current packet; a failed send ends it with "Could not send packet: " and the library's error text, and is exactly the case where no second receive is made; after a send that succeeds, a failed receive gives ReceiveFailure of its code; Success exactly when the send and the receive both succeed, and then the session holds the frame that receive returned; a failed receive leaves the frame blank (as avcodec_receive_frame unreferences it) and a failed send keeps it |
| DownloadModel.ReceiveFailure | src/ffmpeg-download.hpp:164-171 | a failed second receive gives Again exactly for AVERROR(EAGAIN), Eoi exactly for AVERROR_EOF, and "Decoding error" for every other code |
| DownloadModel.AfterRead | src/ffmpeg-download.hpp:149-172 | after the read loop, a read error gives Eoi exactly when its code is AVERROR_EOF and Again otherwise, with no further engine call; a packet makes SendPacket of the chosen stream the next call; it only appends receive calls and sends of the chosen stream to the log; on Success the last call is a receive and the session holds the frame it returned; a failed second receive leaves the frame blank, and otherwise the frame is kept |
| DownloadModel.DecodeNext | src/ffmpeg-download.hpp:146-176 | a frame already buffered gives Success after a single receive call, with no packet read, and the session then holds that frame; every result other than Success comes after a failed receive and leaves the frame blank; every call starts with a receive; on Success the last call is a receive; failure messages are "Decoding error" or start with "Could not send packet: "; the only packets sent belong to the chosen stream; the flags and the stream id are unchanged |
| DownloadModel.DecodeNextOutcome | src/ffmpeg-download.hpp:147-175 | with no buffered frame, keyed on how the read loop ended: a read of EOF gives Eoi and any other read error gives Again; a send failure gives "Could not send packet: " followed by the library's error text; on the second receive, EAGAIN gives Again, EOF gives Eoi, any other negative code gives "Decoding error", and anything else gives Success with the session holding the frame that receive returned |
| DownloadModel.DecodeNextOnReadError | src/ffmpeg-download.hpp:147-156 | with no buffered frame, when the first demuxer reply that is not a packet of another stream is a failed read, decode_next gives Eoi if that reply is AVERROR_EOF and Again otherwise; the failed receive leaves the frame blank and the failed read leaves the packet blank |
| FFmpegDownload.Download.DecodeNext | src/ffmpeg-download.hpp:146-176 | returns the result and leaves the session state of DownloadModel.DecodeNext on the old state; runs once the stream is detected, as download calls it, and keeps the session invariant Valid |
| FFmpegDownload.Download.ReadVideoPacket | src/ffmpeg-download.hpp:148-156 | the in-place do-while loop ends exactly as DownloadModel.ReadVideoPacket says, with the same outcome, library state and m_packet stream index, and touches no other field |
| FFmpegDownload.Download.FeedPacket | src/ffmpeg-download.hpp:158-172 | the send and the second receive return the result and leave the session state of DownloadModel.FeedPacket on the old state |
| Engine.AvStrerror | src/ffmpeg-download.hpp:159-161 | the error text is a prefix of the library's description of the code, fits a 256-byte buffer with its terminating NUL, equals the description when that is shorter than 256 bytes and is cut to 255 bytes otherwise |
| DownloadModel.ConvertData | src/ffmpeg-download.hpp:178-194 | a normal response with the frame's width and height and timestamp 0; the conversion keeps the frame's size, converts from its format to BGR24, writes rows of 3 * width bytes to one plane, and covers rows 0 to height |
| DownloadModel.ConvertedFrameSize | src/ffmpeg-download.hpp:186-190 | the rows the conversion writes fill exactly width * height * 3 bytes |
| FFmpegDownload.Download.ConvertData | src/ffmpeg-download.hpp:178-194 | returns DownloadModel.ConvertData of the current frame and changes nothing |
| DownloadModel.Download | src/ffmpeg-download.hpp:75-101 | a poll only appends to the call log; it never clears the open or detected flags, and never changes the stream id once detected |
| DownloadModel.Respond | src/ffmpeg-download.hpp:89-100 | the response to a decode result: Again exactly for Again, Eoi exactly for Eoi, a fatal response exactly for a failure and with its message, and a normal response exactly for Success, which is the conversion of the given frame |
| DownloadModel.DownloadDispatch | src/ffmpeg-download.hpp:75-101 | a failed open answers "Could not open input"; a detection result of Again is answered Again and a detection failure is answered with its own message, both with the state detection left and before any decoding; after a detection Success the poll answers Respond of the decode result with the frame the decode left |
| DownloadModel.DownloadBufferedFrame | src/ffmpeg-download.hpp:89-100 | on an open and detected session, a frame the decoder already holds is answered with that frame's conversion |
| DownloadModel.DownloadOnReadError | src/ffmpeg-download.hpp:89-100 | on an open and detected session with no buffered frame, a demuxer reply of AVERROR_EOF, after any packets of other streams, is answered Eoi, and any other read error Again |
| DownloadModel.DownloadDecodedFrame | src/ffmpeg-download.hpp:89-100 | on an open and detected session with no buffered frame, a packet of the chosen stream that the decoder accepts, followed by a frame from the second receive, is answered with that frame's conversion |
| DownloadModel.DownloadOpenFailure | src/ffmpeg-download.hpp:76-78 | an input that fails to open gives the fatal "Could not open input" after the open call alone, before any detection call, and leaves the input closed |
| DownloadModel.DownloadBeforeDetection | src/ffmpeg-download.hpp:80-87 | while no codec is open a poll answers Again or a fatal message, never Eoi or a frame, and never asks the decoder for a frame |
| DownloadModel.DownloadWhenReady | src/ffmpeg-download.hpp:103-116 | once the input is open and the stream detected, a poll's first library call asks the decoder for a frame: setup is never redone |
| DownloadModel.DownloadNormal | src/ffmpeg-download.hpp:89-100 | a normal response comes only with the codec open and right after a receive call, and is the conversion of the frame the session then holds |
| DownloadModel.InitialConsistent | src/ffmpeg-download.hpp:27-28 | a fresh session that has made no library call satisfies the session invariant |
| DownloadModel.OpenStepConsistent | src/ffmpeg-download.hpp:103-113 | ensure_open_input keeps the session invariant |
| DownloadModel.DetectEndsWithOpenCodec | src/ffmpeg-download.hpp:115-141 | a detection that is not yet done makes at least one call, and when it succeeds its last call is the codec open |
| DownloadModel.DetectStepConsistent | src/ffmpeg-download.hpp:115-144 | ensure_detect_stream keeps the session invariant on an open session |
| DownloadModel.DecodeStepConsistent | src/ffmpeg-download.hpp:146-176 | decode_next keeps the session invariant on a detected session |
| DownloadModel.DownloadPreservesConsistent | src/ffmpeg-download.hpp:75-176 | every poll keeps the session invariant: in the call log, every detection call comes after the last open call; every receive, read and send comes after the last codec open, with the stream detected; once the stream is detected, no detection call comes after that codec open; every packet sent belongs to the chosen stream; the stream is detected only with the input open |
| FFmpegDownload.Download.constructor | src/ffmpeg-download.hpp:27-28 | a new session has both flags false, an empty queue and a library that has made no call, and satisfies the invariant |
| FFmpegDownload.Download.Download | src/ffmpeg-download.hpp:75-101 | one poll in place returns the response and leaves the state of DownloadModel.Download on the old state, and keeps the invariant |
| FFmpegUpload.Upload.WritePacket | src/ffmpeg-upload.hpp:41-48 | returns buf_size; the queue grows by exactly buf_size bytes, keeps its old contents as a prefix, and ends with buffer[0..buf_size); with buf_size 0 nothing changes |
| FFmpegUpload.WritePacketAsWritten | src/ffmpeg-upload.hpp:42-45 | the write as the source performs it copies through a null end() exactly when a non-empty chunk goes to a vector that never allocated; otherwise it keeps the vector valid and grows its size by the chunk's length, and after a reallocation the copy goes to the released storage and the vector holds zeros in the chunk's place |
| FFmpegUpload.WritePacketAsWrittenWithinCapacity | src/ffmpeg-upload.hpp:42-45 | when the vector has spare capacity for the chunk, the write as written does append the chunk |
| FFmpegUpload.WritePacketAsWrittenOnGrowth | src/ffmpeg-upload.hpp:42-45 | when a vector that has allocated must reallocate, the write as written leaves zeros where the chunk should be |
| FFmpegUpload.WritePacketAsWrittenFirstWrite | src/ffmpeg-upload.hpp:42-45 | the first non-empty write to a new upload copies through the null end() of a never-allocated vector and has no defined result |
| FFmpegUpload.WritePacketAsWrittenDropsChunk | src/ffmpeg-upload.hpp:42-45 | writing the byte 7 to a vector holding [5] at full capacity leaves [5, 0], not [5, 7] |

## Left out

- The FFmpeg library: `avformat_open_input`, `avformat_find_stream_info`, `av_find_best_stream`, `avcodec_alloc_context3`, `avcodec_parameters_to_context`, `avcodec_open2`, `avcodec_receive_frame`, `av_read_frame`, `avcodec_send_packet` and `av_strerror` are foreign code. They are replaced by the scripted oracle, so their replies are inputs. In particular the demuxer's replies do not depend on the bytes pushed into the queue. The read callback is modelled on its own (`ReadPacket`), but the demuxer's use of it is not.
- An oracle queue that runs out answers with a failure (`AVERROR(EAGAIN)`, a null context, `AVERROR_STREAM_NOT_FOUND`). This keeps the decode loop finite. A real demuxer fed a finite input also ends its packet stream.
- Pixel conversion itself (`sws_getContext`, `sws_scale`, `sws_freeContext`) is foreign numeric work. Only the request is modelled: geometry, formats, bilinear filter, strides and rows.
- `make_data_normal`, `make_data_again`, `make_data_eoi` and `make_data_fatal` belong to the host interface library, which is not part of this model. Their results are the `Asa.Response` variants. The pixel buffer and its allocation are not modelled.
- The timestamp is the constant 0 that `convert_data` passes (src/ffmpeg-download.hpp), as a `real`. The code passes the constant 0, not the frame's presentation timestamp scaled by the stream time base. Failure messages are the code's literal strings, such as "Could not find video stream". Floating point is not modelled.
- Construction and teardown: allocating the I/O, format and frame contexts, the exceptions thrown when that fails, and releasing them in the destructor. The constructor models only the field initialisers. `m_video_stream_id` starts indeterminate in the source; the model sets it to -1, and no step reads it before detection assigns it.
- Resource management: the codec context leaked when detection re-runs after a late failure, and packets never unreferenced between reads.
- `AVERROR(EAGAIN)` is -11, the Linux value of EAGAIN.
- The frame contents and `m_packet`'s payload are not modelled. Only the frame's geometry and format and the packet's stream index are.
- The upload constructor (output context for the "mpeg" muxer) is construction.
- src/ffmpeg-handler.cpp (C entry points that forward to these classes, plus an upload stub that always fails) and Example.cpp (a test driver with file I/O and display) are not part of this model.

## Findings

| source | as written | input that shows it | evidently intended | confidence | as-written member | corrected member |
|---|---|---|---|---|---|---|
| src/ffmpeg-upload.hpp:42-45 | `target = m_data.end()` is taken before `m_data.resize(...)`, and `std::copy` writes through `target` after it; when `resize` reallocates, `target` points into the released storage | `m_data` holding the byte 5 at full capacity, then `write_packet` of the byte 7: the queue ends as [5, 0], and 7 is written to the released allocation; on a new Upload the first non-empty write copies through a null `end()` | append `buffer[0..buf_size)` at the old end of the grown vector | high (not executed) | FFmpegUpload.WritePacketAsWrittenDropsChunk | FFmpegUpload.Upload.WritePacket |
