/**
 * The integrity passes of the notebook script: every task's BDDL file and
 * init-state file is found or missing, and every demonstration file is
 * found, found under the libero_spatial suite instead, or missing. Each
 * outcome the script prints becomes a value of the report.
 */
module Integrity {
  import opened Paths
  import opened Catalog

  datatype AssetStatus = Found | Missing

  /** One printed line of the BDDL or init-state pass: the task name, the path checked and the verdict. */
  datatype TaskCheck = TaskCheck(name: string, path: Path, status: AssetStatus)

  datatype DemoStatus = DemoFound | FoundInSpatial(spatialPath: Path) | DemoMissing

  datatype DemoCheck = DemoCheck(path: Path, status: DemoStatus)

  /** The benchmark whose demonstrations are checked, and the suite searched when one is absent. */
  const Suite: string := "libero_10"
  const AlternateSuite: string := "libero_spatial"

  /**
   * demo_file.replace("libero_10", "libero_spatial"): the fallback path
   * differs from the demo path exactly when the demo path names libero_10.
   */
  function SpatialFallback(p: Path): (r: Path)
    ensures r == p <==> !Occurs(p, Suite)
  {
    ReplaceIdentityIff(p, Suite, AlternateSuite);
    ReplaceAll(p, Suite, AlternateSuite)
  }

  /** Where libero_10 occurs only after x, it occurs neither in x nor in what follows it. */
  lemma SuiteOnlyAfter(x: Path, y: Path)
    requires forall i :: OccursAt(x + Suite + y, Suite, i) ==> i == |x|
    ensures var s := x + Suite + y;
            && OccursAt(s, Suite, |x|)
            && (forall j :: 0 <= j < |x| ==> !OccursAt(s, Suite, j))
            && s[..|x|] == x && s[|x| + |Suite|..] == y
            && !Occurs(y, Suite)
  {
    var s := x + Suite + y;
    assert s[|x|..|x| + |Suite|] == Suite;
    assert s[..|x|] == x;
    assert s[|x| + |Suite|..] == y;
    forall j | 0 <= j <= |y| - |Suite| ensures !OccursAt(y, Suite, j) {
      if OccursAt(y, Suite, j) {
        assert s[|x| + |Suite| + j..|x| + |Suite| + j + |Suite|] == y[j..j + |Suite|];
        assert OccursAt(s, Suite, |x| + |Suite| + j);
      }
    }
  }

  /**
   * A demo path that names libero_10 once, and nowhere else, falls back to
   * the same path with libero_spatial in its place.
   */
  lemma SpatialFallbackSwapsSuite(x: Path, y: Path)
    requires forall i :: OccursAt(x + Suite + y, Suite, i) ==> i == |x|
    ensures SpatialFallback(x + Suite + y) == x + AlternateSuite + y
  {
    SuiteOnlyAfter(x, y);
    ReplaceAtFirstOccurrence(x + Suite + y, Suite, AlternateSuite, |x|);
    ReplaceWithoutOccurrence(y, Suite, AlternateSuite);
  }

  /** The verdict on one demonstration file: its own path first, then the fallback path. */
  function ClassifyDemo(fs: FileSystem, p: Path): (s: DemoStatus)
    ensures s == DemoFound <==> p in fs
    ensures s.FoundInSpatial? <==> p !in fs && SpatialFallback(p) in fs
    ensures s.FoundInSpatial? ==> s.spatialPath == SpatialFallback(p)
    ensures s == DemoMissing <==> p !in fs && SpatialFallback(p) !in fs
  {
    if p in fs then DemoFound
    else
      var spatial := SpatialFallback(p);
      if spatial in fs then FoundInSpatial(spatial) else DemoMissing
  }

  /**
   * The fallback only ever applies to a path that names the libero_10 suite,
   * and then it points somewhere else: a path without "libero_10" is
   * classified found or missing, never found-in-spatial.
   */
  lemma FallbackOnlyForSuitePaths(fs: FileSystem, p: Path)
    ensures !Occurs(p, Suite) ==> ClassifyDemo(fs, p) in {DemoFound, DemoMissing}
    ensures ClassifyDemo(fs, p).FoundInSpatial? ==> Occurs(p, Suite) && ClassifyDemo(fs, p).spatialPath != p
  {
  }

  /** The entry a per-task pass prints for task i. */
  predicate IsTaskEntry(fs: FileSystem, c: Category, root: Path, b: Benchmark, i: nat, e: TaskCheck)
    requires i < |b.tasks| && i < |b.names|
  {
    && e.name == b.names[i]
    && e.path == AssetPath(c, root, b.tasks[i])
    && (e.status == Missing <==> e.path !in fs)
  }

  /** The entries of a per-task pass printed so far: one per task, in task order. */
  predicate TaskPrefix(fs: FileSystem, c: Category, root: Path, b: Benchmark, report: seq<TaskCheck>) {
    && |report| <= b.NumTasks()
    && |b.names| >= |report|
    && forall i :: 0 <= i < |report| ==> IsTaskEntry(fs, c, root, b, i, report[i])
  }

  /** The report of one per-task pass: every task has its entry. */
  predicate TaskReport(fs: FileSystem, c: Category, root: Path, b: Benchmark, report: seq<TaskCheck>) {
    TaskPrefix(fs, c, root, b, report) && |report| == b.NumTasks()
  }

  /** Printing the entry of the next task extends the report by one. */
  lemma ExtendTaskPrefix(fs: FileSystem, c: Category, root: Path, b: Benchmark, report: seq<TaskCheck>, e: TaskCheck)
    requires TaskPrefix(fs, c, root, b, report) && |report| < b.NumTasks() && |report| < |b.names|
    requires IsTaskEntry(fs, c, root, b, |report|, e)
    ensures TaskPrefix(fs, c, root, b, report + [e])
  {
    var r := report + [e];
    forall i | 0 <= i < |r| ensures IsTaskEntry(fs, c, root, b, i, r[i]) {
      if i < |report| {
        assert r[i] == report[i];
      }
    }
  }

  /** The report of the demonstration pass: one entry per demo file, in order. */
  predicate DemoReport(fs: FileSystem, demoFiles: seq<Path>, report: seq<DemoCheck>) {
    && |report| == |demoFiles|
    && forall i :: 0 <= i < |report| ==>
         report[i] == DemoCheck(demoFiles[i], ClassifyDemo(fs, demoFiles[i]))
  }

  /**
   * The BDDL pass (category BddlFiles) and the init-state pass
   * (category InitStates): for i in range(num_tasks), join the root with the
   * task's problem folder and file, and report it found or missing.
   */
  method CheckTaskAssets(fs: FileSystem, c: Category, root: Path, b: Benchmark)
    returns (report: seq<TaskCheck>)
    requires b.NamesCover()
    ensures TaskReport(fs, c, root, b, report)
  {
    report := [];
    for i := 0 to b.NumTasks()
      invariant |report| == i
      invariant TaskPrefix(fs, c, root, b, report)
    {
      var taskName := b.names[i];
      var task := b.tasks[i];
      var path := AssetPath(c, root, task);
      var status := if path !in fs then Missing else Found;
      var entry := TaskCheck(taskName, path, status);
      ExtendTaskPrefix(fs, c, root, b, report, entry);
      report := report + [entry];
    }
  }

  /** The demonstration pass: each demo file in order, classified with the fallback. */
  method CheckDemoFiles(fs: FileSystem, demoFiles: seq<Path>) returns (report: seq<DemoCheck>)
    ensures DemoReport(fs, demoFiles, report)
  {
    report := [];
    for i := 0 to |demoFiles|
      invariant |report| == i
      invariant forall k :: 0 <= k < i ==>
                  report[k] == DemoCheck(demoFiles[k], ClassifyDemo(fs, demoFiles[k]))
    {
      var demoFile := demoFiles[i];
      var status: DemoStatus;
      if demoFile !in fs {
        var spatialPath := SpatialFallback(demoFile);
        if spatialPath in fs {
          status := FoundInSpatial(spatialPath);
        } else {
          status := DemoMissing;
        }
      } else {
        status := DemoFound;
      }
      report := report + [DemoCheck(demoFile, status)];
    }
  }
}
