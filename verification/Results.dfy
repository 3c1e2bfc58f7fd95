/** Error codes of libzstd/zstd_errors.h that the modelled functions return. */
module Results {

  datatype Error =
    | Generic
    | SrcSizeWrong
    | DstSizeTooSmall
    | CorruptionDetected
    | TableLogTooLarge
    | MaxSymbolValueTooLarge
    | MaxSymbolValueTooSmall

  datatype Result<+T> = Ok(value: T) | Err(error: Error)
}
