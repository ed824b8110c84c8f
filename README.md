# Camera-pose interpolation: a Dafny model of its discrete core

The script `interpolate_camera_poses.py` reads named keyframe camera poses and
expands them into a dense sequence of poses for playback. Then it writes one
camera record per output frame. This project models the bookkeeping around the
geometry. Poses are opaque values of a type parameter `P`. The numeric-library
calls are function-valued parameters:

- `interp` stands for `pycolmap.Rigid3d.interpolate`.
- `invert` stands for `np.linalg.inv`. The assembly of the camera-to-world matrix from `rotation` and `position` (interpolate_camera_poses.py:77-79) is folded into the decoded `Keyframe`, whose `camToWorld` is that matrix.
- `placement` stands for `pose.inverse().matrix()`, split into the position column and the rotation block.

The model says which arguments these are called with and where their results
land. It does not say what they compute.

Modules, one per part of the script:

- `NameOrder` (`name_order.dfy`): Python's lexicographic string order (`Less`)
  and `str.startswith`. It proves that `Less` is a strict total order.
- `Interpolation` (`interpolation.dfy`): `interpolate_poses`. The method
  `InterpolatePoses` keeps the source's nested loops. It is proved equal to the
  specification function `Expand`, which builds the output pair by pair.
  `Expand` is then characterised frame by frame by the closed form `FrameAt`.
  Frame `q` is keyframe `q / m` when `m = max(num_frames, 1)` divides `q`.
  Otherwise it is the interpolation of the surrounding pair at `(q % m) / num_frames`.
  An empty keyframe list gives `Failure(IndexError)`, the exception raised by `poses[0]`.
- `PoseStore` (`pose_store.dfy`): `load_camera_poses` after JSON decoding, and
  the prefix filter of `main`. The loader loop fills a map and remembers the
  first-insertion order of names, as a Python dict does. Its items are then
  sorted by name with an insertion sort (`SortByName`).
- `ImageNames` (`image_names.dfy`): `f"{idx:06d}"` as `Format06`. It is checked
  against parsing (`ParseDecimal`) and against a fixed-width reference form (`Fixed`).
- `CameraOutput` (`camera_output.dfy`): the record loop of `main`
  (`BuildCameras`) and the pipeline load → filter → interpolate → number
  (`Run`). The pipeline takes the configuration block of `main` as a `Config`
  value, without the file paths.

Two details of the source fix the frame count:

- `range(1, num_frames)` at interpolate_camera_poses.py:118 runs `num_frames - 1` times, so each keyframe pair adds `num_frames - 1` in-between frames and its trailing keyframe: `max(num_frames, 1)` frames in all.
- `num_frames = int(dt * fps)` at interpolate_camera_poses.py:109 truncates toward zero. The model takes `num_frames` as an integer, so the truncation is outside the model.

## Model

| member | source | states |
|---|---|---|
| `NameOrder.LessIrreflexive` | interpolate_camera_poses.py:83 | no name sorts before itself |
| `NameOrder.LessAsymmetric` | interpolate_camera_poses.py:83 | two names are never each smaller than the other |
| `NameOrder.LessTransitive` | interpolate_camera_poses.py:83 | the name order is transitive |
| `NameOrder.LessTotal` | interpolate_camera_poses.py:83 | any two different names are ordered one way or the other, so sorting distinct names has one outcome |
| `NameOrder.LessAppend` | interpolate_camera_poses.py:83 | two names of equal length compare by their fronts, then by their last characters |
| `Interpolation.InterpolatePoses` | interpolate_camera_poses.py:86-124 | fails with `IndexError` exactly on an empty list; otherwise returns exactly `Expand(poses, num_frames, interp)`, the first pose followed by each pair's in-between frames and trailing keyframe |
| `Interpolation.ExpandLength` | interpolate_camera_poses.py:105-122 | the output has `1 + (n - 1) * max(num_frames, 1)` frames for `n >= 1` keyframes |
| `Interpolation.ExpandKeyframe` | interpolate_camera_poses.py:108-122 | keyframe `k` appears unchanged at output index `k * max(num_frames, 1)` |
| `Interpolation.ExpandInBetween` | interpolate_camera_poses.py:118-120 | in pair `i`, frame `j` for `1 <= j < num_frames` is `interp(poses[i], poses[i+1], j / num_frames)`, and `0 < j / num_frames < 1` |
| `Interpolation.ExpandFrame` | interpolate_camera_poses.py:99-124 | a single output frame `q` below the output length exists and is the frame the closed form `FrameAt` names |
| `Interpolation.ExpandIsFrameAt` | interpolate_camera_poses.py:99-124 | every output frame equals the closed form `FrameAt`: a keyframe at each multiple of `max(num_frames, 1)` and an in-between frame of the surrounding pair elsewhere, so no keyframe is emitted twice and nothing else is emitted |
| `Interpolation.ExpandWithoutInBetweens` | interpolate_camera_poses.py:108-122 | with `num_frames <= 1`, zero and negative values included, the output is the input list itself |
| `Interpolation.ExpandEnds` | interpolate_camera_poses.py:102-105 | the first output frame is the first keyframe unchanged, and the last is the last keyframe |
| `PoseStore.NameToTcwKeys` | interpolate_camera_poses.py:71-81 | the dictionary's keys are exactly the input names |
| `PoseStore.NameToTcwLastWins` | interpolate_camera_poses.py:72-81 | for a repeated name the stored pose is the inverse of its last occurrence's transform |
| `PoseStore.Insert` | interpolate_camera_poses.py:83 | insertion adds exactly the one entry (multiset) |
| `PoseStore.SortByName` | interpolate_camera_poses.py:83 | sorting is a permutation of the dictionary's items |
| `PoseStore.InsertAscending` | interpolate_camera_poses.py:83 | inserting a new name into an ascending list keeps it ascending |
| `PoseStore.SortByNameAscending` | interpolate_camera_poses.py:83 | sorting items with distinct names yields strictly ascending names |
| `PoseStore.AscendingUnique` | interpolate_camera_poses.py:83 | two ascending lists with the same entries are equal, so the loader's order is fully determined |
| `PoseStore.SortedDictItems` | interpolate_camera_poses.py:83 | sorting the items of a dictionary lists every (name, pose) pair of it, nothing else, in strictly ascending name order |
| `PoseStore.LoadCameraPoses` | interpolate_camera_poses.py:59-83 | returns entries in strictly ascending name order, holding exactly the dictionary's (name, world-to-camera pose) items |
| `PoseStore.KeepPrefixed` | interpolate_camera_poses.py:172-173 | keeps an entry if and only if its name starts with the prefix |
| `PoseStore.FilterByPrefix` | interpolate_camera_poses.py:172-173 | yields the pose of each kept entry, position by position |
| `PoseStore.KeepPrefixedAppend` | interpolate_camera_poses.py:172-173 | filtering a concatenation concatenates the filtered parts, so relative order is kept |
| `PoseStore.KeepPrefixedAscending` | interpolate_camera_poses.py:172-173 | the kept entries stay in ascending name order |
| `PoseStore.FilterByEmptyPrefix` | interpolate_camera_poses.py:172-173 | the empty prefix, the default, keeps every entry and every pose |
| `ImageNames.DecimalRoundTrip` | interpolate_camera_poses.py:184 | the decimal digits of `n` parse back to `n` |
| `ImageNames.DecimalLength` | interpolate_camera_poses.py:184 | `str(n)` has at most `w` digits exactly when `n < 10^w` |
| `ImageNames.Format06RoundTrip` | interpolate_camera_poses.py:184 | every record name is all digits and parses back to its index |
| `ImageNames.Format06Width` | interpolate_camera_poses.py:184 | names of indices below 10^6 have exactly six characters; later names are longer |
| `ImageNames.PaddedIsFixed` | interpolate_camera_poses.py:184 | zero-padding `str(n)` to width `w` gives the `w`-digit reference form when `n < 10^w` |
| `ImageNames.FixedAscending` | interpolate_camera_poses.py:184 | fixed-width digit strings sort in numeric order |
| `ImageNames.Format06Ascending` | interpolate_camera_poses.py:184 | record names 0 .. 999999 sort in index order |
| `ImageNames.MillionSortsFirst` | interpolate_camera_poses.py:184 | record 1000000's name sorts before record 999999's |
| `CameraOutput.BuildCameras` | interpolate_camera_poses.py:179-192 | one record per pose with `id == idx`, name `f"{idx:06d}"` that parses back to `idx` and has six characters below 10^6, names ascending below 10^6, and the same width, height and focal on every record with `fy == fx` |
| `CameraOutput.KeptDistinct` | interpolate_camera_poses.py:172-173 | the entries kept from the sorted store have pairwise different names |
| `CameraOutput.KeptNames` | interpolate_camera_poses.py:172-173 | the names of the kept entries are exactly the input names that start with the prefix |
| `CameraOutput.SelectedCount` | interpolate_camera_poses.py:71-83 | exactly one pose reaches the interpolator per distinct input name that carries the prefix |
| `CameraOutput.Run` | interpolate_camera_poses.py:164-192 | fails with `IndexError` exactly when no name carries the prefix; otherwise writes `1 + (K - 1) * max(num_frames, 1)` records for `K` distinct prefixed names, numbered from 0 with constant width, height and focal |

## Left out

- `fov_to_focal`, `focal_to_fov` and `np.deg2rad`: floating-point trigonometry. The focal length is a given `real` in `Config`, used for both `fx` and `fy`.
- `int(dt * fps)`: a truncated floating-point product. `num_frames` is an integer parameter.
- `alpha = j / num_frames` is exact real division. Floating-point rounding is not modelled.
- What `pycolmap.Rigid3d.interpolate`, `np.linalg.inv` and `Rigid3d.inverse().matrix()` compute is not modelled. They are parameters. Neither rotation validity nor the interpolation identities at `alpha = 0` and `alpha = 1` are modelled, nor is the `LinAlgError` raised for a singular matrix.
- `pycolmap.Rigid3d(rotation=..., translation=...)` (interpolate_camera_poses.py:104, :115-116): the source turns each world-to-camera matrix into a `Rigid3d` before emitting or interpolating it. The model emits the pose value itself, so "keyframe `k` appears unchanged" in `ExpandKeyframe` and `ExpandEnds` holds up to that conversion, which is assumed to lose nothing.
- JSON reading and writing (`json.load`, `save_camera_poses`, `json.dump`, `open`), the final `print` and the hard-coded paths: I/O. The model starts from decoded items and ends with the record list.
- Input items that lack `img_name`, `position` or `rotation`: `item.get` returns `None` for a missing field. A missing `position` or `rotation` makes the matrix assignment at interpolate_camera_poses.py:78-79 raise. A missing `img_name` stores the key `None`; `sorted` at :83 then raises when `None` must be compared with a string name, and if `None` is the only key the sort succeeds and `name.startswith` at :173 raises `AttributeError`. The model assumes every decoded item has a string name and a transform.
- Run: states the count, numbering and constant fields of the records, not which pose each record holds. That is stated piece by piece by `LoadCameraPoses`, `FilterByPrefix`, `InterpolatePoses` and `BuildCameras`.
