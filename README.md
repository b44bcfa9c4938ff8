# Skytraxx firmware updater: device-side core

This project models the device-side commands of the Skytraxx firmware
updater, a desktop application whose backend is `src-tauri/src/main.rs`.
The updater locates the flight instrument by its volume label and reads
and rewrites the identity file `.sys/hwsw.info`, a flat list of
`key="value"` lines with the hardware name under `hw` and the software
version under `sw`. It downloads a firmware archive onto the device,
unpacks it, reads the build date from the firmware descriptor
`unpacked/update/fw5mini.xlb`, and removes the archive again.

The modules follow the structure of the program:

- `Wrappers`: `Option` and `Result`.
- `Str`: the Rust string operations the core relies on. These are
  `str::split`, `str::lines`, `String::replace`, `char` removal and
  `eq_ignore_ascii_case`.
- `IdentityFile`: the identity-file codec, `parse_lines` and
  `write_lines`. Both are methods with loops, each proved against a
  specification function (`Parse`, `Render`).
- `Locator`: `find_mountpoint`, a loop over the disk list, proved
  against the first-match function `Lookup`.
- `Frontend`: `FrontendResult` and its two constructors.
- `Device`: what the commands share. This covers the byte and text file
  stores (maps from full path to contents), the volume label and the
  fixed error texts.
- `Identity`: `get_device_info`, `get_skytraxx_device` and
  `update_device_info`.
- `Archive`: `extract`, `clean_device` and `update_device`.
- `Transfer`: `download_archive`. It is a method with the chunk loop,
  proved against the left folds `Concat`, `TotalLength` and `Progress`.

The environment is passed in as parameters:

- the disk list that `sysinfo` would enumerate, as a list of `Disk`
  values;
- the files on the device, as a map;
- the server's response, as its announced length, its chunks and
  whether its stream ends in an error;
- the file faults, as flags;
- the tar unpacker, as a function from archive bytes to an `Unpack`
  outcome;
- lossy UTF-8 decoding, as a function from bytes to text.

`write_lines` iterates a `HashMap`, whose order is unspecified. The
model therefore picks the next key nondeterministically, and its contract
promises the text for *some* enumeration of the keys. For the dictionary
of the unit test at `src-tauri/src/main.rs:235-243`, `WriteExample` shows
that the output is one of its two line orders. `WriteOrders` shows that
both orders meet the contract and give different texts, and that only the
first is the string the test expects at `src-tauri/src/main.rs:242`.

`download_archive` sends the request before it looks for the device
(`src-tauri/src/main.rs:37-47`), and the model keeps that order. A failed
request gives "Failed to download archive" whether or not a device is
attached. "Skytraxx not found" comes only after the request has been
answered, and before any file is created.

The "build-" rewrite (`src-tauri/src/main.rs:78`) follows the code:
`String::replace` removes *every* occurrence of `build-`, not only a
leading prefix. For a version that starts with `build-` and contains no
other occurrence, the two readings agree (`Identity.StripBuildPrefix`).
`Identity.StripBuildInside` shows a case where they differ.

## Model

| member | source | states |
|---|---|---|
| Str.Split | src-tauri/src/main.rs:210 | splitting on a character gives one more part than there are occurrences, and no part contains the separator |
| Str.SplitOnce | src-tauri/src/main.rs:210-213 | with exactly one separator, the two parts are the text before and after it |
| Str.RemoveChar | src-tauri/src/main.rs:213 | removing a character keeps every other character and removes all occurrences of that one |
| Str.RemoveCharAppend | src-tauri/src/main.rs:213 | character removal distributes over concatenation |
| Str.Lines | src-tauri/src/main.rs:209 | no line of `str::lines` contains a newline |
| Str.LinesAppend | src-tauri/src/main.rs:209 | the lines of a text ending in a newline, followed by more text, are the lines of each part |
| Str.LinesOfOne | src-tauri/src/main.rs:200-209 | a line without newline or trailing CR, terminated by a newline, reads back as itself |
| Str.LinesOfLast | src-tauri/src/main.rs:209 | an unterminated non-empty last line reads back as itself |
| Str.ReplaceAbsent | src-tauri/src/main.rs:78 | replacing a pattern that does not occur changes nothing |
| Str.ReplaceDeleteShrinks | src-tauri/src/main.rs:78 | deleting a pattern never lengthens the text and shortens it by the pattern's length when it occurs |
| Str.AsciiLower | src-tauri/src/main.rs:185 | the lowered character is never an ASCII capital; it is a small letter exactly when the argument is an ASCII letter of either case; non-capitals are left alone |
| Str.AsciiLowerAgree | src-tauri/src/main.rs:185 | two characters match ignoring ASCII case exactly when they are equal or one is an ASCII capital and the other its own small letter |
| Str.AsciiLowerIdempotent | src-tauri/src/main.rs:185 | lowering twice is lowering once |
| Str.EqIgnoreAsciiCaseTransfer | src-tauri/src/main.rs:185 | case-insensitive equality can be exchanged for an equal label |
| IdentityFile.ParseLineSpec | src-tauri/src/main.rs:210-213 | a line is kept exactly when it holds one `=`; the key is the text before it verbatim, and the value is the text after it with every `"` removed |
| IdentityFile.ParseLines | src-tauri/src/main.rs:206-219 | the loop's dictionary equals the fold `Parse` of the content's lines |
| IdentityFile.InsertKeys | src-tauri/src/main.rs:211-214 | a key is in the dictionary exactly when some kept line sets it |
| IdentityFile.InsertLastWins | src-tauri/src/main.rs:214 | a key's value is the one from the last kept line that sets it |
| IdentityFile.ReadKept | src-tauri/src/main.rs:211-214 | reading one more kept line inserts its pair, overwriting |
| IdentityFile.ReadDropped | src-tauri/src/main.rs:211 | reading one more malformed line changes nothing |
| IdentityFile.ParseClean | src-tauri/src/main.rs:206-219 | every parsed key lacks `=` and newline, and every parsed value lacks `=`, `"` and newline |
| IdentityFile.Render | src-tauri/src/main.rs:196-204 | written text is empty or ends with a newline |
| IdentityFile.WriteLines | src-tauri/src/main.rs:196-204 | the text is the lines `key="value"` for some enumeration (each key exactly once) of the dictionary's keys |
| IdentityFile.RenderEntries | src-tauri/src/main.rs:199-201 | the written text has exactly one `key="value"` line per key, in enumeration order, and nothing else |
| IdentityFile.LinesOfEntry | src-tauri/src/main.rs:200-209 | one written entry reads back as one line |
| IdentityFile.ParseFormatted | src-tauri/src/main.rs:200-213 | a written entry with clean key and value parses back to that key and value |
| IdentityFile.RenderParse | src-tauri/src/main.rs:196-219 | reading written text gives back exactly the listed entries of a clean dictionary |
| IdentityFile.RoundTrip | src-tauri/src/main.rs:196-219 | `parse_lines(write_lines(d)) == d` for every clean dictionary, in any enumeration order |
| IdentityFile.QuoteIsLost | src-tauri/src/main.rs:200-213 | a value holding `"` comes back without it, so the round trip is lossy |
| IdentityFile.EqualsSignDropsEntry | src-tauri/src/main.rs:200-211 | a value holding `=` makes its written line unreadable, so the entry is lost |
| IdentityFile.ParseExample | src-tauri/src/main.rs:226-232 | the unit test's content parses to `hw = Skytraxx 3.0`, `sw = 3.0.0` |
| IdentityFile.ParseSkipsMalformed | src-tauri/src/main.rs:209-216 | a malformed line between two entries is skipped and both entries are kept |
| IdentityFile.WriteExample | src-tauri/src/main.rs:235-243 | the unit test's dictionary is written as its two lines in one order or the other |
| IdentityFile.WriteOrders | src-tauri/src/main.rs:235-243 | both orders of the unit test's keys are enumerations the writer may follow; they give different texts, and only the first equals the expected string |
| Locator.FindMountpoint | src-tauri/src/main.rs:181-194 | the loop's answer equals the first-match function `Lookup` |
| Locator.LookupFirstMatch | src-tauri/src/main.rs:184-189 | the first disk whose name matches ignoring ASCII case decides, and its mount point, text or not, is the answer |
| Locator.LookupNoMatch | src-tauri/src/main.rs:193 | with no matching disk the answer is `None` |
| Locator.LookupFound | src-tauri/src/main.rs:184-187 | a found mount point belongs to the first matching disk |
| Locator.LookupIgnoresCase | src-tauri/src/main.rs:185 | labels equal ignoring ASCII case find the same mount point |
| Locator.CallSitesAgree | src-tauri/src/main.rs:181-194 | the lookups for `"Skytraxx"` and `"skytraxx"` agree on every disk list |
| Locator.UnreadableMatchHidesLater | src-tauri/src/main.rs:186-188 | a first match without a text mount path hides a later readable match |
| Frontend.ErrorOf | src-tauri/src/main.rs:260-265 | an error answer carries no result and the given error text |
| Frontend.ResultOf | src-tauri/src/main.rs:267-272 | a result answer carries the value and an empty error text |
| Frontend.ErrorOfWellFormed | src-tauri/src/main.rs:253-265 | an error answer with non-empty text is distinguishable from a result answer by its error field |
| Identity.GetDeviceInfo | src-tauri/src/main.rs:151-163 | no device gives "Skytraxx not found"; a missing identity file gives "Failed to read file"; otherwise the parse of the file, which is always clean |
| Identity.GetSkytraxxDevice | src-tauri/src/main.rs:66-86 | a load error is passed on; `hw` is checked before `sw`; on success both fields are set, with `build-` removed from the version; every answer is either an error or a result |
| Identity.UpdateDeviceInfo | src-tauri/src/main.rs:165-179 | errors in order of device, load and write leave the files unchanged; success rewrites only the identity file below the first listing's mount point, with the loaded dictionary and `sw` set; if the second listing finds another mount point, the file read stays unchanged; if both agree and the version is clean, the device then reads back exactly that dictionary |
| Identity.UnderDistinct | src-tauri/src/main.rs:159-175 | the identity file below two different mount points is two different files |
| Identity.StripBuild | src-tauri/src/main.rs:78 | removing `build-` never lengthens the version, and shortens it by at least six characters when `build-` occurs |
| Identity.SetVersionKeepsOthers | src-tauri/src/main.rs:173 | setting `sw` leaves every other key and value unchanged |
| Identity.SaveThenLoad | src-tauri/src/main.rs:172-175 | the saved identity file loads back as the loaded identity with `sw` replaced, in every line order |
| Identity.DiscoverAfterUpdate | src-tauri/src/main.rs:165-179 | after an update, discovery reports the same device name and the new version with `build-` removed |
| Identity.StripBuildPrefix | src-tauri/src/main.rs:78 | `build-` followed by a rest that does not contain it is shown as the rest |
| Identity.StripBuildExample | src-tauri/src/main.rs:78 | `build-3.0.0` is shown as `3.0.0` |
| Identity.StripBuildInside | src-tauri/src/main.rs:78 | an occurrence of `build-` inside the version is removed too |
| Archive.Place | src-tauri/src/main.rs:99-104 | every entry lands below the unpack directory, overwriting; every file no entry overwrites is kept unchanged; every new file is the target of an entry |
| Archive.ReadDate | src-tauri/src/main.rs:111-120 | the read succeeds exactly when the file has at least 36 bytes, gives 12 bytes, and fails with the short-read error otherwise |
| Archive.ReadDateOf | src-tauri/src/main.rs:111-120 | the date read is exactly the 12 bytes after a 24-byte header |
| Archive.Extract | src-tauri/src/main.rs:89-124 | errors in order of device, archive, unpacking, descriptor file and descriptor length; a failed unpacking keeps the entries written before it; a date exactly when all pass, decoded from bytes 24..35 of the descriptor; removes nothing and writes only below `unpacked/`; when the unpacker's error texts are not empty, every answer is an error or a result |
| Archive.EmptyUnpackMessageIsAmbiguous | src-tauri/src/main.rs:99-104 | an unpacking error with empty text makes `extract` answer with neither an error text nor a result |
| Archive.ExtractReadsStaleDescriptor | src-tauri/src/main.rs:99-110 | a descriptor left by an earlier extraction is read when the new archive has none |
| Archive.CleanDevice | src-tauri/src/main.rs:137-149 | no device gives "Skytraxx not found"; a missing archive gives the OS error; otherwise exactly the archive is removed and the answer is "Tar removed successfully"; errors change nothing |
| Archive.CleanTwice | src-tauri/src/main.rs:137-149 | a second clean fails with the missing-file error and changes nothing |
| Archive.ExtractAfterClean | src-tauri/src/main.rs:137-149 | extracting a removed archive fails with the missing-file error and writes nothing |
| Archive.UpdateDevice | src-tauri/src/main.rs:127-134 | it never answers with a result: it panics exactly when the device is found, and otherwise answers "Skytraxx not found" |
| Transfer.Progress | src-tauri/src/main.rs:53-58 | one event per chunk, each with the same total and the byte count up to and including that chunk |
| Transfer.TotalLengthIsSize | src-tauri/src/main.rs:55-56 | the running count equals the length of what was written |
| Transfer.TotalLengthMonotone | src-tauri/src/main.rs:56 | the running count never decreases |
| Transfer.ProgressFacts | src-tauri/src/main.rs:43-58 | all events carry the same total; the counts never decrease; the last one counts every byte written |
| Transfer.UnknownLengthOvershoots | src-tauri/src/main.rs:43-57 | without a `Content-Length`, the total is 0 and an event after a non-empty chunk counts more than the total |
| Transfer.ConcatStep | src-tauri/src/main.rs:55-57 | one loop step extends the written bytes, the count and the event log by that chunk |
| Transfer.DownloadArchive | src-tauri/src/main.rs:35-63 | errors in order of request, device, file creation, write, stream and flush; nothing is created before the device is found; the file holds the concatenation of the chunks written, and on a write failure the chunks before it; the events are the progress of those chunks |

## Left out

- HTTP, Tauri and sysinfo: the request, the body stream, `window.emit`,
  the command registration and the disk enumeration are inputs or
  outputs of the model. An emit that fails is ignored, as in the code.
- tar unpacking is an abstract function from archive bytes to an outcome.
  Its path handling is not modelled.
- UTF-8: identity files are text and archives are bytes, in two separate
  stores. `read_to_string` on invalid UTF-8 is not modelled, and lossy
  decoding is an abstract function.
- Files cannot fail except as the model states. `File::open` fails only
  for a missing file, and its OS error text is the Linux text for that
  case. `fs::remove_file`, the seek and `read_to_string` of an existing
  file do not fail.
- Identity.UpdateDeviceInfo: a failing `fs::write` is modelled as leaving
  the identity file unchanged. A partly written file is not modelled.
- Transfer.DownloadArchive: a failing `write_all` keeps only the chunks
  before it. Bytes of the failing chunk that may already have been
  written are not modelled.
- Transfer.DownloadArchive: `downloaded` is a `u64` in the code and an
  unbounded count here. Overflow needs more than 2^64 bytes.
- Paths are compared as text. Aliasing through `..`, links or case
  folding of the file system is not modelled.
- `app/_components/update.tsx` (the user interface) and `test/main.go`
  (a development file server) are not part of this model.
