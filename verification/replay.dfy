/**
 * The replay cell: choose one demonstration file, read the agentview_rgb
 * stream of its first episode, and write every frame, flipped upside down,
 * to a 60 fps video.
 */
module Replay {
  import opened Paths
  import opened Images

  /** A stored or written video frame is a camera image. */
  type Frame = Image

  /** The task whose demonstration is replayed when no marker file is present. */
  const ReplayTaskIndex: nat := 9

  /** The only stream read, and the fixed output of the writer. */
  const StreamKey: string := "data/demo_0/obs/agentview_rgb"
  const OutputPath: Path := "output.mp4"
  const Fps: nat := 60

  /** The datasets of an HDF5 file, by their full key. */
  type H5File = map<string, seq<Frame>>

  datatype Selection = Chosen(path: Path) | NoneChosen | IndexFault

  /**
   * The replay file: the marker file if it exists, else demo_files[9] if
   * there is any demo file and that one exists, else none. The guard tests
   * only that the list is non-empty, so a list of one to nine files makes
   * the index fail (IndexFault).
   */
  function SelectReplayFile(fs: FileSystem, marker: Path, demoFiles: seq<Path>): (s: Selection)
    ensures s.Chosen? ==> s.path in fs
    ensures marker in fs ==> s == Chosen(marker)
    ensures s.IndexFault? <==> marker !in fs && 0 < |demoFiles| <= ReplayTaskIndex
    ensures s.Chosen? && s.path != marker ==> ReplayTaskIndex < |demoFiles| && s.path == demoFiles[ReplayTaskIndex]
    ensures s == NoneChosen <==>
              marker !in fs && (|demoFiles| == 0 || (ReplayTaskIndex < |demoFiles| && demoFiles[ReplayTaskIndex] !in fs))
  {
    if marker in fs then Chosen(marker)
    else if |demoFiles| > 0 then
      if |demoFiles| <= ReplayTaskIndex then IndexFault
      else if demoFiles[ReplayTaskIndex] in fs then Chosen(demoFiles[ReplayTaskIndex])
      else NoneChosen
    else NoneChosen
  }

  /** image[::-1]: the rows of a frame in reverse order (a vertical flip). */
  function Reverse<T>(s: seq<T>): (r: seq<T>)
    ensures |r| == |s|
    ensures forall k :: 0 <= k < |s| ==> r[k] == s[|s| - 1 - k]
  {
    if s == [] then [] else Reverse(s[1..]) + [s[0]]
  }

  /** Flipping twice gives back the stored frame. */
  lemma ReverseInvolution<T>(s: seq<T>)
    ensures Reverse(Reverse(s)) == s
  {
    var r := Reverse(Reverse(s));
    assert forall k :: 0 <= k < |s| ==> r[k] == s[k];
  }

  /** The video writer: the frames appended so far, at a fixed rate. */
  class VideoWriter {
    const path: Path
    const fps: nat
    var frames: seq<Frame>
    var closed: bool

    constructor (path: Path, fps: nat)
      ensures this.path == path && this.fps == fps
      ensures frames == [] && !closed
    {
      this.path := path;
      this.fps := fps;
      frames := [];
      closed := false;
    }

    method AppendData(frame: Frame)
      requires !closed
      modifies this
      ensures frames == old(frames) + [frame] && !closed
    {
      frames := frames + [frame];
    }

    method Close()
      modifies this
      ensures closed && frames == old(frames)
    {
      closed := true;
    }
  }

  datatype ReplayOutcome =
    | ReplaySkipped            // no file chosen, or the chosen path is the empty string
    | ReplayFailed             // the handler caught an error: the file does not open as HDF5, or no writer
    | StreamAbsent             // the file has no agentview_rgb stream for demo_0
    | Written(path: Path, fps: nat, video: seq<Frame>)

  /**
   * Replays the chosen file. `readable` holds the contents of every file that
   * opens as HDF5; a chosen file outside it raises, which the cell catches.
   * `writerOk` says whether imageio can create the video writer; when it
   * cannot, get_writer raises inside the same handler. The IndexFault
   * selection never reaches this point: it raised first.
   */
  method ReplayDemo(sel: Selection, readable: map<Path, H5File>, writerOk: bool) returns (out: ReplayOutcome)
    requires !sel.IndexFault?
    ensures out == ReplaySkipped <==> sel == NoneChosen || (sel.Chosen? && sel.path == "")
    ensures out == ReplayFailed <==>
              && sel.Chosen? && sel.path != ""
              && (sel.path !in readable || (StreamKey in readable[sel.path] && !writerOk))
    ensures out == StreamAbsent <==>
              sel.Chosen? && sel.path != "" && sel.path in readable && StreamKey !in readable[sel.path]
    ensures out.Written? <==>
              sel.Chosen? && sel.path != "" && sel.path in readable && StreamKey in readable[sel.path] && writerOk
    ensures out.Written? ==>
              var stored := readable[sel.path][StreamKey];
              && out.path == OutputPath && out.fps == Fps
              && |out.video| == |stored|
              && (forall i :: 0 <= i < |stored| ==> out.video[i] == Reverse(stored[i]))
              && (forall i :: 0 <= i < |stored| ==> Reverse(out.video[i]) == stored[i])
  {
    // `if example_demo_file:` is false for None and for the empty path
    if sel == NoneChosen || sel.path == "" {
      return ReplaySkipped;
    }
    if sel.path !in readable {
      return ReplayFailed;
    }
    var f := readable[sel.path];
    if StreamKey !in f {
      return StreamAbsent;
    }
    if !writerOk {
      return ReplayFailed;
    }
    var images := f[StreamKey];
    var writer := new VideoWriter(OutputPath, Fps);
    for i := 0 to |images|
      invariant !writer.closed && writer.path == OutputPath && writer.fps == Fps
      invariant |writer.frames| == i
      invariant forall k :: 0 <= k < i ==> writer.frames[k] == Reverse(images[k])
    {
      writer.AppendData(Reverse(images[i]));
    }
    writer.Close();
    forall i | 0 <= i < |images| ensures Reverse(writer.frames[i]) == images[i] {
      ReverseInvolution(images[i]);
    }
    out := Written(writer.path, writer.fps, writer.frames);
  }
}
