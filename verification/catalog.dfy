/**
 * The benchmark catalog as the script sees it: an ordered list of task
 * names and, per index, the task's relative asset locations.
 */
module Catalog {
  import opened Paths

  /** One benchmark task (get_task(i)) with its demonstration path (get_task_demonstration(i)). */
  datatype Task = Task(
    problemFolder: Path,
    bddlFile: Path,
    initStatesFile: Path,
    demonstration: Path)

  datatype Benchmark = Benchmark(names: seq<string>, tasks: seq<Task>) {
    /** get_num_tasks() */
    function NumTasks(): nat {
      |tasks|
    }

    /** task_names[i] is defined for every task index */
    predicate NamesCover() {
      |names| >= |tasks|
    }
  }

  /** The two per-task asset kinds checked under a root and the task's problem folder. */
  datatype Category = BddlFiles | InitStates

  function FileOf(c: Category, t: Task): Path {
    match c
    case BddlFiles => t.bddlFile
    case InitStates => t.initStatesFile
  }

  /**
   * os.path.join(root, task.problem_folder, <file of the category>): the
   * path ends with the task's file and, for a relative file, lies under the
   * task's problem folder joined to the root.
   */
  function AssetPath(c: Category, root: Path, t: Task): (r: Path)
    ensures IsSuffix(FileOf(c, t), r)
    ensures !IsAbsolute(FileOf(c, t)) ==> Join(root, t.problemFolder) <= r
    ensures !IsAbsolute(t.problemFolder) && !IsAbsolute(FileOf(c, t)) ==> root <= r
  {
    Join3(root, t.problemFolder, FileOf(c, t))
  }

  /** demo_files: one path per task, in task order, under the datasets root. */
  function DemoPaths(datasetsRoot: Path, b: Benchmark): (paths: seq<Path>)
    ensures |paths| == b.NumTasks()
    ensures forall i :: 0 <= i < |paths| ==> paths[i] == Join(datasetsRoot, b.tasks[i].demonstration)
  {
    seq(|b.tasks|, i requires 0 <= i < |b.tasks| => Join(datasetsRoot, b.tasks[i].demonstration))
  }
}
