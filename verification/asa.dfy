/** The host's view of one poll: the status-tagged data the session hands
    back (make_data_normal, make_data_again, make_data_eoi,
    make_data_fatal), and the pixel conversion that fills a normal frame. */
module Asa {

  /** The only output pixel layout: packed 3-byte BGR. */
  datatype PixelFormat = BGR24

  /** The resampling quality asked of the converter. */
  datatype Scaler = Bilinear

  /** The sws_getContext / sws_scale request that converts a decoded frame:
      source and destination geometry, the destination plane strides and
      the band of source rows converted. */
  datatype ScaleJob = ScaleJob(
    srcWidth: int, srcHeight: int, srcFormat: int,
    dstWidth: int, dstHeight: int, dstFormat: PixelFormat,
    scaler: Scaler,
    dstStride: seq<int>,
    sliceTop: int, sliceHeight: int)

  datatype Response =
    | Normal(timestamp: real, width: int, height: int, job: ScaleJob)
    | Again
    | Eoi
    | Fatal(message: string)
}
