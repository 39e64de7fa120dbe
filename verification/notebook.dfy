/**
 * The whole notebook run, cell after cell, over one world: the files that
 * exist, the asset roots, the benchmark, and what the external
 * collaborators (dataset check, remote fetch, simulator, HDF5 reader) do.
 */
module Notebook {
  import opened Paths
  import opened Catalog
  import opened Integrity
  import opened Acquisition
  import opened Replay
  import opened Visualise
  import opened Images

  /** The directories get_libero_path returned where the script asked for them. */
  datatype Roots = Roots(
    bddlFiles: Path,    // bddl_files, re-read inside the BDDL pass
    initStates: Path,   // init_states, read before the init-state pass
    datasets: Path,     // datasets, read in cell 2: the root of demo_files
    downloadDir: Path)  // datasets, read again in cell 8: the root of the marker file

  datatype Simulator =
    | SimFails  // any call inside the visualisation handler raises: building the environment,
                // loading the init states, seed, reset, set_init_state, step, the image permute or close
    | Sim(initStates: seq<InitState>, step: (InitState, nat) -> Observation)

  datatype World = World(
    files: FileSystem,
    roots: Roots,
    bench: Benchmark,
    datasetsExist: bool,     // what check_libero_dataset answers
    fetch: FetchResult,      // what the download would do if invoked
    sim: Simulator,
    readable: map<Path, H5File>,   // the files that open as HDF5, with their datasets
    writerOk: bool)                // whether imageio can create the video writer

  datatype Visual = VisualFailed | Visualised(images: seq<Image>, steps: nat)

  /** Where an uncaught error ends the run. */
  datatype Stop =
    | TaskUnbound          // no task was visited, so `task` is unbound when its file name is printed
    | TaskIndexOutOfRange  // the catalog has no task 9 to visualise

  datatype Tail =
    | Stopped(stop: Stop)
    | Finished(visual: Visual, download: DownloadOutcome, demos: seq<DemoCheck>,
               selection: Selection, replay: ReplayOutcome)

  datatype Run = Run(bddl: seq<TaskCheck>, init: seq<TaskCheck>, tail: Tail)

  /**
   * The run. Both per-task passes always complete; the run then stops
   * without tasks or with fewer than ten, since task 9 is fetched outside any
   * handler. Past that point, neither a failed visualisation nor a failed
   * download stops it, and the replay index demo_files[9] is always in range.
   */
  method RunNotebook(w: World) returns (run: Run)
    requires w.bench.NamesCover()
    ensures TaskReport(w.files, BddlFiles, w.roots.bddlFiles, w.bench, run.bddl)
    ensures TaskReport(w.files, InitStates, w.roots.initStates, w.bench, run.init)
    ensures run.tail == Stopped(TaskUnbound) <==> w.bench.NumTasks() == 0
    ensures run.tail == Stopped(TaskIndexOutOfRange) <==> 0 < w.bench.NumTasks() <= ReplayTaskIndex
    ensures run.tail.Finished? <==> ReplayTaskIndex < w.bench.NumTasks()
    ensures run.tail.Finished? ==>
              var marker := MarkerPath(w.roots.downloadDir);
              var acquired := Acquire(w.files, DecideDownload(marker in w.files, w.datasetsExist), w.fetch);
              var demoFiles := DemoPaths(w.roots.datasets, w.bench);
              && run.tail.download == acquired.outcome
              && DemoReport(acquired.files, demoFiles, run.tail.demos)
              && run.tail.selection == SelectReplayFile(acquired.files, marker, demoFiles)
              && !run.tail.selection.IndexFault?
    ensures run.tail.Finished? ==> (run.tail.visual.Visualised? <==> w.sim.Sim?)
    ensures run.tail.Finished? && w.sim.Sim? ==>
              var states := w.sim.initStates;
              && |run.tail.visual.images| == (if |states| < MaxStates then |states| else MaxStates)
              && run.tail.visual.steps == StepsPerState * |run.tail.visual.images|
              && forall i :: 0 <= i < |run.tail.visual.images| ==>
                   run.tail.visual.images[i] == AgentView(w.sim.step(states[i], StepsPerState - 1))
    ensures run.tail.Finished? ==>
              var sel := run.tail.selection;
              var replay := run.tail.replay;
              var usable := sel.Chosen? && sel.path != "";
              && (replay == ReplaySkipped <==> !usable)
              && (replay == ReplayFailed <==>
                    usable && (sel.path !in w.readable || (StreamKey in w.readable[sel.path] && !w.writerOk)))
              && (replay == StreamAbsent <==>
                    usable && sel.path in w.readable && StreamKey !in w.readable[sel.path])
              && (replay.Written? <==>
                    usable && sel.path in w.readable && StreamKey in w.readable[sel.path] && w.writerOk)
    ensures run.tail.Finished? && run.tail.replay.Written? ==>
              var stored := w.readable[run.tail.selection.path][StreamKey];
              && run.tail.replay.path == OutputPath && run.tail.replay.fps == Fps
              && |run.tail.replay.video| == |stored|
              && forall i :: 0 <= i < |stored| ==> run.tail.replay.video[i] == Reverse(stored[i])
  {
    // Cells 5 and 6: the per-task passes
    var bddl := CheckTaskAssets(w.files, BddlFiles, w.roots.bddlFiles, w.bench);
    var init := CheckTaskAssets(w.files, InitStates, w.roots.initStates, w.bench);
    if w.bench.NumTasks() == 0 {
      return Run(bddl, init, Stopped(TaskUnbound));
    }

    // Cell 7: get_task(9) runs before the handler that guards the simulator
    if w.bench.NumTasks() <= ReplayTaskIndex {
      return Run(bddl, init, Stopped(TaskIndexOutOfRange));
    }
    var visual: Visual;
    match w.sim {
      case SimFails =>
        visual := VisualFailed;
      case Sim(states, step) =>
        var images, steps := CollectImages(states, step);
        visual := Visualised(images, steps);
    }

    // Cell 8: the download decision, then the demonstration pass
    var marker := MarkerPath(w.roots.downloadDir);
    var action := DecideDownload(marker in w.files, w.datasetsExist);
    var acquired := Acquire(w.files, action, w.fetch);
    var demoFiles := DemoPaths(w.roots.datasets, w.bench);
    var demos := CheckDemoFiles(acquired.files, demoFiles);

    // Cell 9: choose a file and replay it
    var selection := SelectReplayFile(acquired.files, marker, demoFiles);
    var replay := ReplayDemo(selection, w.readable, w.writerOk);
    run := Run(bddl, init, Finished(visual, acquired.outcome, demos, selection, replay));
  }
}
