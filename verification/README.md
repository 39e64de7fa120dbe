# LIBERO notebook integrity and replay, modelled in Dafny

This project models the decision logic of `run_notebook.py`, the script that
walks through LIBERO's getting-started notebook. The script does four things
that involve choices:

- It checks that every task of the `libero_10` benchmark has its BDDL
  definition file and its init-state file.
- It decides whether to download the `libero_10` datasets.
- It checks every task's demonstration file. A file that is missing may still
  exist under `libero_spatial`.
- It picks one demonstration file and replays its `agentview_rgb` stream into
  `output.mp4`, with every frame flipped upside down.

The filesystem is the set of paths that exist. The asset roots are parameters.
Each outcome the script prints is a value here: `Found`/`Missing`,
`DemoFound`/`FoundInSpatial`/`DemoMissing`, `SkipMarker`/`Download`/`SkipExisting`,
and so on.

Modules, leaf first:

- `Paths` (paths.dfy): `os.path.join` and `str.replace`.
- `Images` (images.dfy): camera images. The simulator returns them and the dataset stores them as video frames.
- `Catalog` (catalog.dfy): tasks and the asset paths built from them.
- `Integrity` (integrity.dfy): the per-task passes and the demo-file pass.
- `Acquisition` (acquisition.dfy): the download cell.
- `Replay` (replay.dfy): choosing the replay file, the flip and the video writer.
- `Visualise` (visualise.dfy): the init-state visualisation loop and its
  choice of camera key.
- `Notebook` (notebook.dfy): the run, cell after cell.

The script does less than a general asset verifier would, and the model keeps
to what the script does:

- On the replay path, only `data/demo_0/obs/agentview_rgb` is read. There is no
  fallback to an `agentview_image` alias: a file that has only the other name
  gives `StreamAbsent`.
- The download decision does not look at the demo-file report. It uses only the
  marker file and `check_libero_dataset`, and it is made before the demo files
  are checked.
- Tasks whose fields are empty strings are not flagged as malformed. Their paths
  are joined and checked like any other.
- The fallback suite is the single hard-coded `libero_spatial`.

Two features of the run come out of `RunNotebook`:

- The script stops with an unbound `task` at line 93 when the benchmark has no
  tasks.
- The script stops at `get_task(9)` on line 104 when it has fewer than ten
  tasks. That call sits outside any handler, and the catalog raises for an index
  past its last task.

So in a run, the `demo_files[9]` lookup at line 202 is never out of range.
`SelectReplayFile` on its own still models that lookup as written, with an
explicit `IndexFault`.

## Model

| member | source | states |
|---|---|---|
| `Paths.Join` | run_notebook.py:176-178 | An absolute second component replaces the first. Otherwise the result starts with the first component and ends with the second. Its length is exactly the sum of both when the first component is empty or ends with `/`. Otherwise it is one more, with `/` right after the first component. Together these fix the result as `posixpath.join` gives it. |
| `Paths.Join3` | run_notebook.py:60-62 | A three-part join ends with the last part. An absolute last part is the whole result. Otherwise the result starts with the join of the first two parts, and so with the root when the middle part is relative too. |
| `Paths.ReplaceAll` | run_notebook.py:184 | A string shorter than the pattern comes back unchanged. A replacement at least as long as the pattern never shortens the string. Replacing the pattern with itself changes nothing. |
| `Paths.ReplaceAtFirstOccurrence` | run_notebook.py:184 | At the leftmost occurrence of the pattern, the text before it is kept unchanged. The occurrence becomes the replacement, and replacing goes on with the text right after the occurrence. |
| `Paths.ReplaceIdentityIff` | run_notebook.py:184 | Replacing every occurrence of a pattern with a longer string leaves the path unchanged exactly when the pattern does not occur in it. |
| `Catalog.AssetPath` | run_notebook.py:60-82 | The BDDL path (lines 60-62) or init-state path (lines 80-82) of a task ends with the task's file name. For a relative file name, it starts with the root joined with the task's problem folder. It starts with the root itself when the folder is relative too. |
| `Catalog.DemoPaths` | run_notebook.py:175-180 | There is one demo path per task, in task order: element i joins the datasets root with task i's demonstration path. |
| `Integrity.SpatialFallback` | run_notebook.py:184 | The fallback path differs from the demo path exactly when the demo path contains `libero_10`. |
| `Integrity.SpatialFallbackSwapsSuite` | run_notebook.py:184 | A demo path that contains `libero_10` at exactly one place falls back to the same path with `libero_spatial` there instead. |
| `Integrity.ClassifyDemo` | run_notebook.py:181-195 | A demo file is `DemoFound` iff its path exists. It is `FoundInSpatial` iff it is absent and its `libero_10`→`libero_spatial` path exists, and it carries that path. Otherwise it is `DemoMissing`. |
| `Integrity.FallbackOnlyForSuitePaths` | run_notebook.py:184-186 | A path that does not contain `libero_10` is only ever found or missing. A `FoundInSpatial` verdict implies the path names `libero_10` and the fallback is a different path. |
| `Integrity.CheckTaskAssets` | run_notebook.py:54-91 | The BDDL pass and the init-state pass report one entry per task, in task order. Entry i has task name i, the path joining the root, the task's folder and its file, and `Missing` exactly when that path does not exist. |
| `Integrity.CheckDemoFiles` | run_notebook.py:181-195 | The demo pass reports one entry per demo file, in order, each with its path and its `ClassifyDemo` verdict. |
| `Acquisition.MarkerPath` | run_notebook.py:155-159 | The marker path starts with the download directory joined with `libero_10`, and so with the download directory. It ends with the LIVING_ROOM_SCENE6 demo file name. |
| `Acquisition.DecideDownload` | run_notebook.py:161-172 | The result is `SkipMarker` iff the marker exists. It is `Download` iff the marker is absent and the dataset check said false. It is `SkipExisting` iff the marker is absent and the check said true. |
| `Acquisition.Acquire` | run_notebook.py:164-170 | Only `Download` consults the fetch. A failed fetch becomes `DownloadFailed` with its message and leaves the files unchanged. Files change only through a successful download, which adds what was fetched. |
| `Acquisition.FetchUnusedWhenSkipped` | run_notebook.py:161-172 | When the action is not `Download`, the outcome and the files do not depend on what the remote fetch would do. |
| `Acquisition.SecondRunSkips` | run_notebook.py:161-163 | If a download brought the marker file, the next decision is `SkipMarker`, whatever the dataset check says then. |
| `Replay.SelectReplayFile` | run_notebook.py:198-204 | The chosen file exists. The marker wins when it exists. Otherwise `demo_files[9]` is chosen when it exists, and nothing is chosen when the list is empty or that file is absent. `IndexFault` occurs exactly when the marker is absent and the list has 1 to 9 files. |
| `Replay.Reverse` | run_notebook.py:226 | `image[::-1]` keeps the number of rows, and row k of the result is row n-1-k of the frame. |
| `Replay.ReverseInvolution` | run_notebook.py:226 | Flipping a flipped frame gives back the original frame. |
| `Replay.VideoWriter.constructor` | run_notebook.py:224 | A new writer has the given path and rate, no frames, and is open. |
| `Replay.VideoWriter.AppendData` | run_notebook.py:226 | Appending adds exactly that frame at the end. |
| `Replay.VideoWriter.Close` | run_notebook.py:227 | Closing keeps the frames and marks the writer closed. |
| `Replay.ReplayDemo` | run_notebook.py:204-234 | No choice, or a chosen empty path, means skipped. A file that does not open as HDF5 means failed. A file without `data/demo_0/obs/agentview_rgb` means `StreamAbsent`. A file with the stream but no video writer means failed. Otherwise `output.mp4` at 60 fps holds exactly the stored frames, in stored order, each flipped, and flipping each written frame gives back the stored one. |
| `Visualise.Zeros` | run_notebook.py:131 | `np.zeros((h, w, c))` has shape h×w×c and every value 0. |
| `Visualise.AgentView` | run_notebook.py:125-131 | The kept image is `agentview_image` if present, else `agentview_rgb` if present, else the blank 128×128×3 image. It is always one of the observation's images or the blank one. |
| `Visualise.CollectImages` | run_notebook.py:117-133 | `min(2, len(init_states))` images are kept, with 5 steps per init state. Image i comes from the observation of the fifth step after setting init state i. |
| `Notebook.RunNotebook` | run_notebook.py:48-234 | Both per-task passes always complete. With no tasks the run stops at line 93, and with 1 to 9 tasks at line 104. Otherwise it finishes whether or not visualisation or download fail. It downloads per `DecideDownload` and checks demos and selects the replay file against the files after the download. The replay index is then never out of range. The replay outcome is skipped, failed, `StreamAbsent` or written under the same conditions as in `ReplayDemo`, for the selected file. A written video is `output.mp4` at 60 fps and holds the flipped stored frames. |

## Left out

- Root resolution, the custom-root override and its revert (`get_libero_path`, `set_libero_default_path`): library code that is not part of this model. The four roots are parameters. The datasets root of cell 2 and the download directory of cell 8 are separate parameters, because the override revert in between could change what the second call returns.
- The benchmark catalog (`get_benchmark_dict`, `get_task`, `get_task_names`, `get_task_demonstration`): library code that is not part of this model. A benchmark is a list of names and a list of task records. `get_task(i)` is assumed to raise for an index past the last task.
- `check_libero_dataset` and `libero_dataset_download`: the check is a boolean input. The download is a `FetchResult` that either adds a set of files or fails with a message. Partial files left by a failed download are not modelled.
- The simulator (`OffScreenRenderEnv`, reset, step, seed, set_init_state, close): an observation function of the init state and the step index stands in for it. That function also stands in for the constant seven-value zero action. Whether the simulator depends on earlier states beyond the one set is not modelled. The torch `permute(2, 0, 1)` of each image is left out.
- Loading the init states of task 0 (lines 96-100): a library call whose only effect is a printed shape or a printed error.
- `get_dataset_info` (line 206) and the printing of HDF5 keys (lines 211-217): library calls and output only. An error raised by `get_dataset_info`, which no handler catches, is not modelled. An HDF5 file is a map from dataset key to its frames.
- imageio's encoding and pixel values: a frame is a sequence of rows, and the writer records the frames appended to it.
- Printing, colouring, traceback output and the empty loop over the benchmark dictionary (lines 38-44).
- ReplayDemo: of the errors the replay handler catches (lines 208-232), the model covers a file that does not open as HDF5 and a writer that cannot be created. A read of the stream (line 221), an `append_data` (line 226) or a `close` (line 227) that raises is not modelled: the model gives `Written` whenever the stream is present and the writer can be created.
- The catalog's guarantee that `get_task_names()` has a name for every task index is the precondition `NamesCover` of `CheckTaskAssets` and `RunNotebook`. A catalog with fewer names than tasks would raise at line 55 or 78. That case is not modelled.
- The benchmark's name, printed at line 51, is output only.
