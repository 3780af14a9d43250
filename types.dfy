/** Shared value types: the optional and fallible results the core passes around, and the
    file descriptor (`OSSFile`) that the orchestrator builds and the uploaders consume. */
module Types {

  datatype Option<+T> = None | Some(value: T)

  /** A value or the message of the error that replaced it. */
  datatype Result<+T> = Success(value: T) | Failure(error: string)

  /** The descriptor built once per uploaded entry (src/upload.ts:80-86).
      `mimeType` and `contentType` are `None` where the lookup gave nothing. */
  datatype OSSFile = OSSFile(
    localFilePath: string,
    remoteFilePath: string,
    filename: string,
    mimeType: Option<string>,
    contentType: Option<string>)
}
