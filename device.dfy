/** What the commands share: the device's files, the label it is found by, the fixed texts. */
module Device {

  newtype byte = b: int | 0 <= b < 256

  /** The files on the device as bytes, by full path. */
  type Files = map<string, seq<byte>>

  /** The files the updater reads and writes as text, by full path. */
  type TextFiles = map<string, string>

  /** The volume label, in the two spellings the commands use. */
  const LABEL := "Skytraxx"
  const LABEL_LOWER := "skytraxx"

  const DEVICE_NOT_FOUND := "Skytraxx not found"

  /** The operating system's text for a file that does not exist (Linux). */
  const NO_SUCH_FILE := "No such file or directory (os error 2)"

  /** Path of a file below the mount point, as `format!("{}/{}", mountpoint, name)` builds it. */
  function Under(mountpoint: string, name: string): string
  {
    mountpoint + "/" + name
  }
}
