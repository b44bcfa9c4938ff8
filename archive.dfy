/**
 * The commands that work on the downloaded archive: `extract`, `clean_device`
 * and `update_device`.
 */
module Archive {
  import opened Wrappers
  import opened Locator
  import opened Frontend
  import opened Device

  /** Directory below the mount point that the archive is unpacked into. */
  const UNPACK_DIR := "unpacked"
  /** The firmware descriptor, relative to the unpack directory. */
  const DESCRIPTOR := "update/fw5mini.xlb"
  /** The build date in the descriptor: 12 bytes from offset 24. */
  const DATE_OFFSET := 24
  const DATE_LENGTH := 12
  /** The standard library's text for a `read_exact` that reaches the end of the file. */
  const SHORT_READ := "failed to fill whole buffer"
  const TAR_REMOVED := "Tar removed successfully"
  /** The panic message of `unimplemented!()`. */
  const NOT_IMPLEMENTED := "not implemented"

  /**
   * What unpacking an archive does to the directory it unpacks into: all
   * entries (by path relative to that directory), or the entries written
   * before an error and the error's text.
   */
  datatype Unpack = Unpacked(entries: Files) | UnpackFailed(written: Files, message: string)

  /** Whether `p` lies below directory `dir`. */
  predicate Below(p: string, dir: string)
  {
    |dir| + 1 <= |p| && p[..|dir| + 1] == dir + "/"
  }

  /** The files after writing `entries` below `dir`; an entry overwrites a file already there. */
  function Place(files: Files, dir: string, entries: Files): (placed: Files)
    ensures forall rel | rel in entries :: Under(dir, rel) in placed && placed[Under(dir, rel)] == entries[rel]
    ensures forall p | p in files && !Below(p, dir) :: p in placed && placed[p] == files[p]
    ensures forall p | p in placed && p !in files :: Below(p, dir)
    ensures forall p | p in files && (forall rel | rel in entries :: p != Under(dir, rel)) ::
      p in placed && placed[p] == files[p]
    ensures forall p | p in placed && p !in files :: exists rel | rel in entries :: p == Under(dir, rel)
    ensures files.Keys <= placed.Keys
  {
    forall a, b | a in entries && b in entries && Under(dir, a) == Under(dir, b) ensures a == b {
      assert a == Under(dir, a)[|dir| + 1..];
      assert b == Under(dir, b)[|dir| + 1..];
    }
    var written := map rel | rel in entries :: Under(dir, rel) := entries[rel];
    assert forall rel | rel in entries :: Below(Under(dir, rel), dir) by {
      forall rel | rel in entries ensures Below(Under(dir, rel), dir) {
        assert Under(dir, rel)[..|dir| + 1] == dir + "/";
      }
    }
    files + written
  }

  /** `seek(SeekFrom::Start(24))` then `read_exact` of 12 bytes on a file's contents. */
  function ReadDate(contents: seq<byte>): (r: Result<seq<byte>>)
    ensures r.Ok? <==> DATE_OFFSET + DATE_LENGTH <= |contents|
    ensures r.Ok? ==> |r.value| == DATE_LENGTH
    ensures r.Err? ==> r.error == SHORT_READ
  {
    if DATE_OFFSET + DATE_LENGTH <= |contents| then Ok(contents[DATE_OFFSET..DATE_OFFSET + DATE_LENGTH])
    else Err(SHORT_READ)
  }

  /** The date bytes of a descriptor are exactly those behind its 24-byte header. */
  lemma ReadDateOf(header: seq<byte>, date: seq<byte>, rest: seq<byte>)
    requires |header| == DATE_OFFSET && |date| == DATE_LENGTH
    ensures ReadDate(header + date + rest) == Ok(date)
  {
    assert (header + date + rest)[DATE_OFFSET..DATE_OFFSET + DATE_LENGTH] == date;
  }

  /** Whether the device is there and its archive `tarPath` exists and unpacks without error. */
  predicate Unpacks(disks: seq<Disk>, files: Files, tarPath: string, untar: seq<byte> -> Unpack)
  {
    && Lookup(disks, LABEL_LOWER).Some?
    && Under(Lookup(disks, LABEL_LOWER).value, tarPath) in files
    && untar(files[Under(Lookup(disks, LABEL_LOWER).value, tarPath)]).Unpacked?
  }

  /**
   * `extract`: unpack the archive `tarPath` on the device into `unpacked/`
   * and read the build date from the descriptor it contains. The date
   * bytes are turned into text by `decode` (lossy UTF-8 decoding).
   * The result pairs the command's answer with the device's files after it.
   *
   * The checks come in order: the device, the archive file, the unpacking,
   * the descriptor file, the descriptor's length; the first failure is the
   * answer. A date is answered exactly when all pass, and it is the
   * decoding of bytes 24 to 35 of the descriptor then below `unpacked/`.
   * Nothing outside `unpacked/` is written, nothing is removed, and nothing
   * at all is written when the device or the archive is missing.
   */
  function Extract(disks: seq<Disk>, files: Files, tarPath: string,
                   untar: seq<byte> -> Unpack, decode: seq<byte> -> string): (r: (FrontendResult<string>, Files))
    ensures Lookup(disks, LABEL_LOWER).None? ==> r == (ErrorOf(DEVICE_NOT_FOUND), files)
    ensures Lookup(disks, LABEL_LOWER).Some? ==>
      var mountpoint := Lookup(disks, LABEL_LOWER).value;
      var archive := Under(mountpoint, tarPath);
      var dir := Under(mountpoint, UNPACK_DIR);
      && (archive !in files ==> r == (ErrorOf(NO_SUCH_FILE), files))
      && (archive in files && untar(files[archive]).UnpackFailed? ==>
            && r.0 == ErrorOf(untar(files[archive]).message)
            && r.1 == Place(files, dir, untar(files[archive]).written))
      && (archive in files && untar(files[archive]).Unpacked? ==>
            var unpacked := Place(files, dir, untar(files[archive]).entries);
            var descriptor := Under(dir, DESCRIPTOR);
            && r.1 == unpacked
            && (descriptor !in unpacked ==> r.0 == ErrorOf(NO_SUCH_FILE))
            && (descriptor in unpacked && |unpacked[descriptor]| < DATE_OFFSET + DATE_LENGTH ==>
                  r.0 == ErrorOf(SHORT_READ))
            && (descriptor in unpacked && DATE_OFFSET + DATE_LENGTH <= |unpacked[descriptor]| ==>
                  r.0 == ResultOf(decode(unpacked[descriptor][DATE_OFFSET..DATE_OFFSET + DATE_LENGTH]))))
      && (forall p | p in files && !Below(p, dir) :: p in r.1 && r.1[p] == files[p])
      && (forall p | p in r.1 && p !in files :: Below(p, dir))
    ensures files.Keys <= r.1.Keys
    ensures r.0.result.Some? ==> Unpacks(disks, files, tarPath, untar)
    ensures (forall archive :: untar(archive).UnpackFailed? ==> untar(archive).message != "") ==> WellFormed(r.0)
  {
    match Lookup(disks, LABEL_LOWER)
    case None => (ErrorOf(DEVICE_NOT_FOUND), files)
    case Some(mountpoint) =>
      var archive := Under(mountpoint, tarPath);
      var dir := Under(mountpoint, UNPACK_DIR);
      if archive !in files then (ErrorOf(NO_SUCH_FILE), files)
      else match untar(files[archive])
        case UnpackFailed(written, message) => (ErrorOf(message), Place(files, dir, written))
        case Unpacked(entries) =>
          var unpacked := Place(files, dir, entries);
          var descriptor := Under(dir, DESCRIPTOR);
          if descriptor !in unpacked then (ErrorOf(NO_SUCH_FILE), unpacked)
          else match ReadDate(unpacked[descriptor])
            case Err(e) => (ErrorOf(e), unpacked)
            case Ok(date) => (ResultOf(decode(date)), unpacked)
  }

  /**
   * An unpacking error without text gives an answer with neither an error
   * text nor a result, which a caller testing the error text alone takes
   * for success.
   */
  lemma EmptyUnpackMessageIsAmbiguous(disks: seq<Disk>, files: Files, tarPath: string,
                                      untar: seq<byte> -> Unpack, decode: seq<byte> -> string)
    requires Lookup(disks, LABEL_LOWER).Some?
    requires var archive := Under(Lookup(disks, LABEL_LOWER).value, tarPath);
      archive in files && untar(files[archive]).UnpackFailed? && untar(files[archive]).message == ""
    ensures var answer := Extract(disks, files, tarPath, untar, decode).0;
      answer.error == "" && answer.result.None? && !WellFormed(answer)
  {
  }

  /**
   * A descriptor left below `unpacked/` by an earlier extraction is read
   * when the new archive does not contain one.
   */
  lemma ExtractReadsStaleDescriptor(disks: seq<Disk>, files: Files, tarPath: string,
                                    untar: seq<byte> -> Unpack, decode: seq<byte> -> string)
    requires Lookup(disks, LABEL_LOWER).Some?
    requires var mountpoint := Lookup(disks, LABEL_LOWER).value;
      && Under(mountpoint, tarPath) in files
      && untar(files[Under(mountpoint, tarPath)]).Unpacked?
      && DESCRIPTOR !in untar(files[Under(mountpoint, tarPath)]).entries
      && Under(Under(mountpoint, UNPACK_DIR), DESCRIPTOR) in files
      && DATE_OFFSET + DATE_LENGTH <= |files[Under(Under(mountpoint, UNPACK_DIR), DESCRIPTOR)]|
    ensures var mountpoint := Lookup(disks, LABEL_LOWER).value;
      var stale := files[Under(Under(mountpoint, UNPACK_DIR), DESCRIPTOR)];
      Extract(disks, files, tarPath, untar, decode).0 == ResultOf(decode(stale[DATE_OFFSET..DATE_OFFSET + DATE_LENGTH]))
  {
  }

  /**
   * `clean_device`: remove the archive `tarPath` from the device. The result
   * pairs the command's answer with the device's files after it. It succeeds
   * exactly when the device and the archive are there, and then removes
   * that one file and nothing else; otherwise it changes nothing.
   */
  function CleanDevice(disks: seq<Disk>, files: Files, tarPath: string): (r: (FrontendResult<string>, Files))
    ensures WellFormed(r.0)
    ensures Lookup(disks, LABEL_LOWER).None? ==> r == (ErrorOf(DEVICE_NOT_FOUND), files)
    ensures Lookup(disks, LABEL_LOWER).Some? ==>
      var archive := Under(Lookup(disks, LABEL_LOWER).value, tarPath);
      && (archive !in files ==> r == (ErrorOf(NO_SUCH_FILE), files))
      && (archive in files ==>
            && r.0 == ResultOf(TAR_REMOVED)
            && r.1.Keys == files.Keys - {archive}
            && forall p | p in r.1 :: r.1[p] == files[p])
  {
    match Lookup(disks, LABEL_LOWER)
    case None => (ErrorOf(DEVICE_NOT_FOUND), files)
    case Some(mountpoint) =>
      var archive := Under(mountpoint, tarPath);
      if archive !in files then (ErrorOf(NO_SUCH_FILE), files)
      else (ResultOf(TAR_REMOVED), files - {archive})
  }

  /** Cleaning twice: the second call finds no archive and changes nothing. */
  lemma CleanTwice(disks: seq<Disk>, files: Files, tarPath: string)
    requires CleanDevice(disks, files, tarPath).0.result.Some?
    ensures var after := CleanDevice(disks, files, tarPath).1;
      CleanDevice(disks, after, tarPath) == (ErrorOf(NO_SUCH_FILE), after)
  {
  }

  /** After a successful clean, extracting the same archive fails and writes nothing. */
  lemma ExtractAfterClean(disks: seq<Disk>, files: Files, tarPath: string,
                          untar: seq<byte> -> Unpack, decode: seq<byte> -> string)
    requires CleanDevice(disks, files, tarPath).0.result.Some?
    ensures var after := CleanDevice(disks, files, tarPath).1;
      Extract(disks, after, tarPath, untar, decode) == (ErrorOf(NO_SUCH_FILE), after)
  {
  }

  /** How a command ends: with an answer, or with a panic and its message. */
  datatype Outcome<T> = Returned(answer: FrontendResult<T>) | Panicked(message: string)

  /**
   * `update_device`: looks for the device and then stops at `unimplemented!()`.
   * It never answers with a result: it panics exactly when the device is there.
   */
  function UpdateDevice(disks: seq<Disk>): (r: Outcome<string>)
    ensures r.Panicked? <==> Lookup(disks, LABEL_LOWER).Some?
    ensures r.Returned? ==> r.answer == ErrorOf(DEVICE_NOT_FOUND)
    ensures !(r.Returned? && r.answer.result.Some?)
  {
    match Lookup(disks, LABEL_LOWER)
    case None => Returned(ErrorOf(DEVICE_NOT_FOUND))
    case Some(_) => Panicked(NOT_IMPLEMENTED)
  }
}
