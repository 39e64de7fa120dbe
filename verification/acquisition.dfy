/**
 * The download cell: a marker file placed by hand suppresses the download,
 * otherwise the dataset is fetched unless the dataset check reports it
 * present. A failed fetch is reported and the run goes on.
 */
module Acquisition {
  import opened Paths

  /**
   * The directory under the download directory where the marker file is
   * expected; the script writes this name as a literal of its own.
   */
  const MarkerDir: string := "libero_10"

  /** The demonstration file whose presence means the operator already placed the data. */
  const MarkerName: string :=
    "LIVING_ROOM_SCENE6" + "_put_the_white_mug_on_the_plate_and_put_the_chocolate_pudding_to_the_right_of_the_plate_demo.hdf5"

  /**
   * os.path.join(download_dir, "libero_10", <marker name>): the marker path
   * lies under the libero_10 directory of the download directory and ends
   * with the marker name.
   */
  function MarkerPath(downloadDir: Path): (r: Path)
    ensures IsSuffix(MarkerName, r)
    ensures Join(downloadDir, MarkerDir) <= r
    ensures downloadDir <= r
  {
    assert MarkerDir[0] == 'l' && MarkerName[0] == 'L';
    Join3(downloadDir, MarkerDir, MarkerName)
  }

  datatype DownloadAction = SkipMarker | Download | SkipExisting

  /**
   * The three-way branch: the marker wins over everything; without it the
   * dataset is downloaded exactly when the dataset check said it is absent.
   */
  function DecideDownload(markerPresent: bool, datasetsExist: bool): (a: DownloadAction)
    ensures a == SkipMarker <==> markerPresent
    ensures a == Download <==> !markerPresent && !datasetsExist
    ensures a == SkipExisting <==> !markerPresent && datasetsExist
  {
    if markerPresent then SkipMarker
    else if !datasetsExist then Download
    else SkipExisting
  }

  /** What the remote fetch would do if invoked: add files, or raise with a message. */
  datatype FetchResult = Fetched(added: set<Path>) | FetchFailed(reason: string)

  datatype DownloadOutcome = NotAttempted(action: DownloadAction) | Downloaded | DownloadFailed(reason: string)

  /** The outcome of the download cell and the files that exist afterwards. */
  datatype Acquired = Acquired(outcome: DownloadOutcome, files: FileSystem)

  /**
   * Runs the chosen action. The fetch is consulted only for Download; its
   * failure is caught, recorded and leaves the files as they were.
   */
  function Acquire(files: FileSystem, action: DownloadAction, fetch: FetchResult): (r: Acquired)
    ensures files <= r.files
    ensures r.outcome.NotAttempted? <==> action != Download
    ensures r.outcome.NotAttempted? ==> r.outcome.action == action
    ensures r.outcome.DownloadFailed? <==> action == Download && fetch.FetchFailed?
    ensures r.outcome.DownloadFailed? ==> r.outcome.reason == fetch.reason
    ensures r.files != files ==> r.outcome == Downloaded
    ensures r.outcome == Downloaded ==> r.files == files + fetch.added
  {
    match action
    case Download =>
      (match fetch
       case Fetched(added) => Acquired(Downloaded, files + added)
       case FetchFailed(reason) => Acquired(DownloadFailed(reason), files))
    case _ => Acquired(NotAttempted(action), files)
  }

  /**
   * Whatever the remote source would have done, a skipped download leaves
   * the same outcome and the same files: the fetch is never invoked.
   */
  lemma FetchUnusedWhenSkipped(files: FileSystem, action: DownloadAction, f1: FetchResult, f2: FetchResult)
    requires action != Download
    ensures Acquire(files, action, f1) == Acquire(files, action, f2)
  {
  }

  /**
   * A completed download that brought the marker file makes the next run of
   * the cell skip, whatever the dataset check then reports.
   */
  lemma SecondRunSkips(files: FileSystem, downloadDir: Path, datasetsExist: bool, fetch: FetchResult, laterCheck: bool)
    requires DecideDownload(MarkerPath(downloadDir) in files, datasetsExist) == Download
    requires fetch.Fetched? && MarkerPath(downloadDir) in fetch.added
    ensures var after := Acquire(files, Download, fetch).files;
            DecideDownload(MarkerPath(downloadDir) in after, laterCheck) == SkipMarker
  {
  }
}
