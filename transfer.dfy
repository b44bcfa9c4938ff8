/**
 * `download_archive`: stream the firmware archive from the server into a file
 * on the device, reporting progress after every chunk.
 */
module Transfer {
  import opened Wrappers
  import opened Locator
  import opened Device

  const DOWNLOAD_FAILED := "Failed to download archive"
  const CREATE_FAILED := "Failed to create file"
  const CHUNK_FAILED := "Failed to get chunk"
  const WRITE_FAILED := "Failed to write chunk"
  const FLUSH_FAILED := "Failed to flush file"

  /** The payload of a `DOWNLOAD_PROGRESS` event. */
  datatype DownloadProgress = DownloadProgress(total: nat, downloaded: nat)

  /**
   * The server's answer: the announced body length, the chunks the body
   * stream yields, and whether the stream then ends with an error instead of
   * ending normally.
   */
  datatype Response = Response(contentLength: Option<nat>, chunks: seq<seq<byte>>, streamFails: bool)

  /**
   * How the file on the device misbehaves: whether creating it fails, the
   * index of a chunk whose write fails, whether the final flush fails.
   */
  datatype FileFaults = FileFaults(createFails: bool, writeFailsAt: Option<nat>, flushFails: bool)

  /** The total announced in every event; an unknown length is announced as 0. */
  function Total(response: Response): nat
  {
    match response.contentLength
    case None => 0
    case Some(n) => n
  }

  /** The chunks one after another. */
  function Concat(chunks: seq<seq<byte>>): seq<byte>
  {
    if chunks == [] then [] else Concat(chunks[..|chunks| - 1]) + chunks[|chunks| - 1]
  }

  /** The running count of bytes, as the sum of the chunk lengths. */
  function TotalLength(chunks: seq<seq<byte>>): nat
  {
    if chunks == [] then 0 else TotalLength(chunks[..|chunks| - 1]) + |chunks[|chunks| - 1]|
  }

  /**
   * The events emitted while writing `chunks`: one per chunk, each with the
   * same total and the byte count up to and including that chunk.
   */
  function Progress(total: nat, chunks: seq<seq<byte>>): (events: seq<DownloadProgress>)
    ensures |events| == |chunks|
    ensures forall i | 0 <= i < |events| :: events[i] == DownloadProgress(total, TotalLength(chunks[..i + 1]))
  {
    if chunks == [] then []
    else
      var init := chunks[..|chunks| - 1];
      var events := Progress(total, init) + [DownloadProgress(total, TotalLength(chunks))];
      forall i | 0 <= i < |events| - 1 ensures events[i] == DownloadProgress(total, TotalLength(chunks[..i + 1])) {
        assert init[..i + 1] == chunks[..i + 1];
      }
      assert chunks[..|chunks|] == chunks;
      events
  }

  /** The running count is the length of what has been written. */
  lemma {:induction false} TotalLengthIsSize(chunks: seq<seq<byte>>)
    ensures TotalLength(chunks) == |Concat(chunks)|
  {
    if chunks != [] {
      TotalLengthIsSize(chunks[..|chunks| - 1]);
    }
  }

  /** The running count never decreases. */
  lemma {:induction false} TotalLengthMonotone(chunks: seq<seq<byte>>, i: nat, j: nat)
    requires i <= j <= |chunks|
    ensures TotalLength(chunks[..i]) <= TotalLength(chunks[..j])
    decreases j - i
  {
    if i < j {
      TotalLengthMonotone(chunks, i, j - 1);
      assert chunks[..j][..j - 1] == chunks[..j - 1];
    }
  }

  /**
   * The progress events: all announce the same total, the count never goes
   * down, and the last one counts every byte written.
   */
  lemma ProgressFacts(total: nat, chunks: seq<seq<byte>>)
    ensures var events := Progress(total, chunks);
      && (forall i | 0 <= i < |events| :: events[i].total == total)
      && (forall i, j | 0 <= i <= j < |events| :: events[i].downloaded <= events[j].downloaded)
      && (chunks != [] ==> events[|events| - 1].downloaded == |Concat(chunks)|)
  {
    var events := Progress(total, chunks);
    forall i, j | 0 <= i <= j < |events| ensures events[i].downloaded <= events[j].downloaded {
      TotalLengthMonotone(chunks, i + 1, j + 1);
    }
    if chunks != [] {
      assert chunks[..|chunks|] == chunks;
      TotalLengthIsSize(chunks);
    }
  }

  /** Without a `Content-Length`, every event after a non-empty chunk counts more bytes than its total. */
  lemma UnknownLengthOvershoots(response: Response, i: nat)
    requires response.contentLength.None?
    requires i < |response.chunks| && response.chunks[i] != []
    ensures var events := Progress(Total(response), response.chunks);
      events[i].total < events[i].downloaded
  {
    var chunks := response.chunks;
    assert chunks[..i + 1][..i] == chunks[..i];
    assert chunks[..i + 1][i] == chunks[i];
  }

  /** Writing the chunks one at a time, as the loop does, extends the concatenation. */
  lemma ConcatStep(total: nat, chunks: seq<seq<byte>>, i: nat)
    requires i < |chunks|
    ensures Concat(chunks[..i + 1]) == Concat(chunks[..i]) + chunks[i]
    ensures TotalLength(chunks[..i + 1]) == TotalLength(chunks[..i]) + |chunks[i]|
    ensures Progress(total, chunks[..i + 1]) ==
      Progress(total, chunks[..i]) + [DownloadProgress(total, TotalLength(chunks[..i]) + |chunks[i]|)]
  {
    assert chunks[..i + 1][..i] == chunks[..i];
  }

  /**
   * `download_archive`. `response` is `None` when the request fails. The file
   * `fileName` below the mount point is created (emptied) and receives every
   * chunk up to the first failing write; the events are those of
   * `Progress` for the chunks written. Nothing is created before the
   * request has succeeded and the device has been found.
   */
  method DownloadArchive(response: Option<Response>, disks: seq<Disk>, fileName: string,
                         files: Files, faults: FileFaults)
    returns (r: Result<()>, after: Files, events: seq<DownloadProgress>)
    ensures response.None? ==> r == Err(DOWNLOAD_FAILED) && after == files && events == []
    ensures response.Some? && Lookup(disks, LABEL).None? ==>
      r == Err(DEVICE_NOT_FOUND) && after == files && events == []
    ensures response.Some? && Lookup(disks, LABEL).Some? && faults.createFails ==>
      r == Err(CREATE_FAILED) && after == files && events == []
    ensures response.Some? && Lookup(disks, LABEL).Some? && !faults.createFails ==>
      var chunks := response.value.chunks;
      var path := Under(Lookup(disks, LABEL).value, fileName);
      var total := Total(response.value);
      if faults.writeFailsAt.Some? && faults.writeFailsAt.value < |chunks| then
        var k := faults.writeFailsAt.value;
        && r == Err(WRITE_FAILED)
        && after == files[path := Concat(chunks[..k])]
        && events == Progress(total, chunks[..k])
      else
        && after == files[path := Concat(chunks)]
        && events == Progress(total, chunks)
        && r == (if response.value.streamFails then Err(CHUNK_FAILED)
                 else if faults.flushFails then Err(FLUSH_FAILED)
                 else Ok(()))
  {
    if response.None? {
      return Err(DOWNLOAD_FAILED), files, [];
    }
    var total := Total(response.value);
    var found := FindMountpoint(disks, LABEL);
    if found.None? {
      return Err(DEVICE_NOT_FOUND), files, [];
    }
    var path := Under(found.value, fileName);
    if faults.createFails {
      return Err(CREATE_FAILED), files, [];
    }
    after := files[path := []];
    var chunks := response.value.chunks;
    var downloaded := 0;
    events := [];
    var i := 0;
    while i < |chunks|
      invariant i <= |chunks|
      invariant faults.writeFailsAt.Some? ==> i <= faults.writeFailsAt.value
      invariant after == files[path := Concat(chunks[..i])]
      invariant events == Progress(total, chunks[..i])
      invariant downloaded == TotalLength(chunks[..i])
    {
      if faults.writeFailsAt == Some(i) {
        return Err(WRITE_FAILED), after, events;
      }
      ConcatStep(total, chunks, i);
      after := after[path := after[path] + chunks[i]];
      downloaded := downloaded + |chunks[i]|;
      events := events + [DownloadProgress(total, downloaded)];
      i := i + 1;
    }
    assert chunks[..i] == chunks;
    if response.value.streamFails {
      return Err(CHUNK_FAILED), after, events;
    }
    if faults.flushFails {
      return Err(FLUSH_FAILED), after, events;
    }
    r := Ok(());
  }
}
