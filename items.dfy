/** The immutable descriptor of one simulated download (DownloadItem.java),
    and the Java integer widths the engine works in. */
module Items {

  /** Java `int`. */
  type int32 = x: int | -0x8000_0000 <= x < 0x8000_0000

  /** Java `long`. */
  type int64 = x: int | -0x8000_0000_0000_0000 <= x < 0x8000_0000_0000_0000

  /** A download request: its name, its size in bytes and its configured
      speed in KB/s. Every field is final, so the datatype's destructors are
      the getters `getName`, `getSizeBytes` and `getSpeedKBps`. The speed is
      kept as given, even when it is below 1: clamping it is the task's job. */
  datatype DownloadItem = DownloadItem(name: string, sizeBytes: int64, speedKBps: int32)

  /** Each getter returns exactly what the constructor was given, and the
      descriptor never changes afterwards (it is a value). */
  lemma GettersReturnConstructorArguments(name: string, sizeBytes: int64, speedKBps: int32)
    ensures DownloadItem(name, sizeBytes, speedKBps).name == name
    ensures DownloadItem(name, sizeBytes, speedKBps).sizeBytes == sizeBytes
    ensures DownloadItem(name, sizeBytes, speedKBps).speedKBps == speedKBps
  {
  }
}
