# lensors sensor data model in Dafny

lensors is a desktop viewer for hardware sensors. It reads two kinds of
source:

- the Linux hwmon files under `/sys/class/hwmon`;
- liquid-cooling controllers, through the liquidctl library.

It shows their devices and sensors in a tree. This project models the
part of lensors that decides what the tree holds. That part covers:

- how a sensor is classified and how its value is displayed;
- what one read does to a sensor's value, minimum, maximum and history;
- how a device refresh stops at the first failure and marks the device
  `faulty`;
- how the registry pass removes faulty devices while it iterates over
  the list;
- how discovery turns a directory listing or a list of liquidctl
  handles into devices;
- which devices and sensors the tree shows.

It also models the two older variants kept at the top of the repository:
`sensors_tree.py` and `main.py`.

The project follows the program's classes:

- The sensors, devices and registries are Dafny `class`es, with the
  fields the Python objects update in place.
- Each method is proved against a pure function on value views of those
  objects.
- The properties the sources promise are proved as lemmas about those
  functions.

| file | module | models |
|---|---|---|
| `py_builtins.dfy` | `PyBuiltins` | `str.strip`, `lower`, `in`, `split(sep)[0]`, `isdecimal`, `int`, `str(int)` |
| `sysfs.dfy` | `SysFs` | the filesystem as a value: directories with their listing, files given by their first line or by the OSError that opening or reading them raises |
| `sensors_tree.dfy` | `SensorsTree` | `src/sensors_tree.py`: sensor types and icons, the readout (value, min, max) and its pairwise update, the eviction pass, and the display filter |
| `object_lists.dfy` | `ObjectLists` | proof helpers for lists of distinct objects and for sequence reassociation |
| `hwmon_spec.dfy` | `Hwmon` | `src/hwmon_source.py` as functions: `type`, `value_to_str`, `update_value`, `HwmonDevice.update_sensors`, the registry pass, the tree, and `read` |
| `hwmon_objects.dfy` | `HwmonObjects` | the hwmon classes, with methods proved against `Hwmon` |
| `liquidctl_spec.dfy` | `Liquidctl` | `src/liquidctl_source.py` as functions: `type`, `update_value` with history, `value_to_str`, the sensor-map upsert of `update_sensors`, and `read` |
| `liquidctl_objects.dfy` | `LiquidctlObjects` | the liquidctl classes, with methods proved against `Liquidctl` |
| `legacy_tree.dfy` | `LegacyTree` | `sensors_tree.py`: six types, an unstripped label, a pass without eviction, and a tree of every device |
| `legacy_hwmon.dfy` | `LegacyHwmon` | `main.py`: insert-if-absent readings and its `read` |

Exceptions are modelled as values:

- An OSError or TypeError that a method would raise becomes a flag or
  an `Option` result (`failure`, `raised`, `ok`).
- A `try`/`except` that catches the exception turns the flag into the
  state change the handler makes, such as `faulty = True`.

These behaviours of the code are easy to miss; the model follows the
code:

- "intrusion" can never be classified, because "in" is tested first.
- A read that is not a number keeps the line as the hwmon value, and
  keeps the old value for liquidctl. It does not set a sentinel.
- Once the extrema are "N/A", a numeric read raises TypeError, which
  makes the device faulty. The extrema are not re-seeded.
- The faulty check and the update happen in the same loop. Removal
  inside that loop skips the next device, so a device that just became
  faulty stays in the list until the next pass.
- An OSError from the `name` file, from a `<prefix>_label` file, or
  from opening an `_input` file ends hwmon `read`. Only an OSError
  inside the `try` skips a sensor.
- `read` appends again on every call. Duplicate locators are not
  rejected. Only `main.py`'s `add_sensor` inserts if absent.
- The Temp unit is "C".
- liquidctl history is a dictionary keyed by timestamp, so a second
  update at the same timestamp overwrites the first.
- An exception from liquidctl `connect()` or `initialize()` ends `read`.

## Model

| member | source | states |
|---|---|---|
| PyBuiltins.StripSpec | src/hwmon_source.py:35 | `strip()` removes exactly the leading and trailing whitespace: what it cuts off is whitespace, and the result neither starts nor ends with whitespace |
| PyBuiltins.StripIdempotent | src/hwmon_source.py:115 | stripping an already stripped name or line changes nothing |
| PyBuiltins.LowerSpec | src/liquidctl_source.py:75 | `lower()` keeps the length and maps each character on its own |
| PyBuiltins.BeforeSpec | src/hwmon_source.py:62 | `split(sep)[0]` is a prefix of the string, contains no occurrence of `sep`, and is either the whole string or followed by `sep` |
| PyBuiltins.BeforeCuts | src/hwmon_source.py:121 | the first part differs from the whole string exactly when the separator occurs |
| PyBuiltins.ContainsTransitive | src/hwmon_source.py:66-77 | a string that contains `t` contains every substring of `t` |
| PyBuiltins.NatText | src/hwmon_source.py:36-37 | `str(n)` of a natural number is decimal digits that `int()` parses back to `n` |
| PyBuiltins.IntText | src/liquidctl_source.py:94 | `str(n)` starts with "-" exactly for a negative `n`, and its digits parse back to the magnitude |
| SensorsTree.Icon | src/sensors_tree.py:115-133 | `icon` gives a file name for each of the seven types and `None` for no type |
| SensorsTree.IconDistinct | src/sensors_tree.py:115-133 | no two types share an icon file |
| SensorsTree.Track | src/hwmon_source.py:37-39 | a number becomes the value; with int extrema, `min()`/`max()` move them outwards to include it; with a string extremum, `min()` or `max()` raises after the earlier assignments |
| SensorsTree.TrackCoherent | src/liquidctl_source.py:46-48 | from a coherent readout, the update raises exactly when the extrema are "N/A", and the readout stays coherent |
| SensorsTree.TrackInitial | src/sensors_tree.py:94-96 | the first number after the sentinels `sys.maxsize` and `-sys.maxsize - 1` never raises, and a number within 64 bits becomes value, minimum and maximum alike |
| SensorsTree.Plan | src/sensors_tree.py:17-25 | the `for` loop visits each device once, as updated, removed or passed over |
| SensorsTree.PlanAt | src/sensors_tree.py:17-25 | a device is passed over exactly when the one before it was removed; otherwise a faulty device is removed |
| SensorsTree.Evict | src/sensors_tree.py:16-26 | the pass never adds a device; what it does to each is in `EvictFront`, `SelectAt` and `EvictNoFaults` |
| SensorsTree.EvictFront | src/sensors_tree.py:16-26 | from the iterator's position, a healthy first device is updated; a faulty one is removed, and the device after it is kept without an update |
| SensorsTree.KeptTail | src/sensors_tree.py:25 | the count of devices left in front of a position drops by one for each removal |
| SensorsTree.KeptMonotone | src/sensors_tree.py:25 | the count of devices left in front of a position never decreases along the list |
| SensorsTree.SelectAt | src/sensors_tree.py:17-25 | after the pass, an updated device sits at its new index with its update, and a passed-over device sits there unchanged |
| SensorsTree.EvictNoFaults | src/sensors_tree.py:17-19 | with no faulty device, the pass updates every device in order |
| SensorsTree.EvictSkipsAfterRemoval | src/sensors_tree.py:17-25 | two faulty devices in a row leave the second one in the list, neither updated nor removed |
| SensorsTree.Shown | src/sensors_tree.py:31-39 | the tree holds at most one row per device |
| SensorsTree.ShownMembers | src/sensors_tree.py:31-39 | a row is shown exactly when its device is not faulty and has at least one child row |
| SensorsTree.ShownAppend | src/sensors_tree.py:31-39 | the shown rows keep list order |
| Hwmon.KindOf | src/hwmon_source.py:60-77 | substring tests on the feature name in source order; a fan whose label mentions "flow" is Flow |
| Hwmon.KindOfNeverIntrusion | src/hwmon_source.py:64-77 | the classifier never gives Intrusion; it gives no type exactly when none of temp, in, fan, curr and power occurs |
| Hwmon.KindOfPrecedence | src/hwmon_source.py:64-71 | "temp" wins over everything; Flow exactly for a fan feature whose lower-cased label contains "flow" and that has neither "temp" nor "in" |
| Hwmon.Scale | src/hwmon_source.py:88-105 | the divisor is 1, 1000 or 1000000 |
| Hwmon.ValueToStr | src/hwmon_source.py:84-107 | "N/A" exactly for a non-int; an int is shown as quotient and remainder by its type's divisor, with its type's unit |
| Hwmon.ValueToStrInjective | src/hwmon_source.py:84-107 | the exact quotient and remainder by the type's divisor determine the int; the float text the source prints can collide above 2^53 and is not modelled |
| Hwmon.NewSensor | src/sensors_tree.py:85-96 | a new sensor has the stripped label, keeps the label as given, and starts at value 0 with the sentinel extrema |
| Hwmon.ValueStep | src/hwmon_source.py:33-42 | a read changes nothing but the readout |
| Hwmon.ValueStepMeaning | src/hwmon_source.py:33-42 | OSError changes nothing; a non-decimal line becomes the value with both extrema "N/A"; a decimal line becomes the int value, and then either raises TypeError or widens the extrema |
| Hwmon.NumericAfterNARaises | src/hwmon_source.py:38-39 | after "N/A", a decimal line raises TypeError once `_value` is already the number |
| Hwmon.ValueStepCoherent | src/hwmon_source.py:35-42 | reads keep a sensor coherent; TypeError happens only with "N/A" extrema |
| Hwmon.Reread | src/hwmon_source.py:34-35 | a read of the sensor's own file changes only its readout, and raises OSError exactly when the file cannot be opened or read |
| Hwmon.DeviceStep | src/hwmon_source.py:19-27 | a refresh keeps the name and the number of sensors, and never clears `faulty` |
| Hwmon.SensorsStep | src/hwmon_source.py:20-22 | the sweep keeps the number of sensors; which are read and when it fails is in `SensorsStepFailFast` and `SensorsStepFails` |
| Hwmon.FirstFailure | src/hwmon_source.py:20-22 | the index of the first read that raises: every read before it succeeds |
| Hwmon.SensorsStepFailFast | src/hwmon_source.py:20-27 | sensors up to the first failing read are read; the ones after it are untouched |
| Hwmon.SensorsStepFails | src/hwmon_source.py:20-27 | the loop fails exactly when some read raises |
| Hwmon.SensorsStepCoherent | src/hwmon_source.py:19-27 | a refresh keeps all sensors coherent |
| Hwmon.PassStep | src/sensors_tree.py:16-26 | the registry pass over hwmon devices never adds a device; its steps are in `PassStepHealthy` and `PassStepFront` |
| Hwmon.PassStepHealthy | src/sensors_tree.py:16-19 | with no faulty device, the pass refreshes each device in order |
| Hwmon.PassStepFront | src/sensors_tree.py:16-26 | a healthy first device is refreshed; a faulty one is removed, and the next device is skipped unrefreshed |
| Hwmon.TreeItem | src/hwmon_source.py:79-82 | a sensor has no row exactly when its value is the int 0 |
| Hwmon.RowOf | src/hwmon_source.py:44-58 | a sensor row shows the stripped label and the icon of the type classified from the file name and label, and shows "N/A" as its value exactly for a string value |
| Hwmon.ChildRows | src/sensors_tree.py:35-36 | a device has at most one child row per sensor, and every child row is the row of one of its non-zero sensors |
| Hwmon.ChildRowsShows | src/sensors_tree.py:35-36 | every sensor that does not read 0 has its row among its device's child rows |
| Hwmon.ChildRowsAppend | src/sensors_tree.py:35-36 | child rows follow sensor order: the rows of two sensor runs are the rows of the first run followed by those of the second |
| Hwmon.ChildRowsEmpty | src/hwmon_source.py:79-82 | a device has no child rows exactly when every sensor reads 0 |
| Hwmon.Tree | src/sensors_tree.py:28-41 | the tree has at most one row per hwmon device; which devices are shown is in `TreeShows` and `TreeHides` |
| Hwmon.TreeShows | src/sensors_tree.py:31-39 | a healthy device with a non-zero sensor is in the tree |
| Hwmon.TreeHides | src/sensors_tree.py:31-39 | every tree row comes from a healthy device with a non-zero sensor |
| Hwmon.TreeSnoc | src/sensors_tree.py:31-39 | appending a device adds at most its own row, at the end |
| Hwmon.LabelOf | src/hwmon_source.py:121-128 | the label is missing only when a `<prefix>_label` file exists and cannot be read; with no label file it is the part of the entry name before its first "_" |
| Hwmon.ProbeEntry | src/hwmon_source.py:130-147 | an entry aborts `read` exactly when its label cannot be read or it is an `_input` file that cannot be opened; it gives a sensor exactly when its label reads and it is an `_input` file whose first line reads, the sensor of that entry's path and label |
| Hwmon.Probe | src/hwmon_source.py:120-147 | the sensor loop adds at most one sensor per entry; its meaning is in `ProbeSound` and `ProbeComplete` |
| Hwmon.Adds | src/hwmon_source.py:120-147 | the reference list of sensors a listing gives, in listing order, ignoring aborts: at most one per entry |
| Hwmon.AddsMembers | src/hwmon_source.py:130-145 | a sensor is in that list exactly when some entry of the listing gives it |
| Hwmon.ProbeComplete | src/hwmon_source.py:120-147 | the loop appends, in listing order, a prefix of what the entries give; it aborts exactly when some entry aborts; when it completes it holds exactly what the entries give, so every readable `_input` entry's sensor |
| Hwmon.DiscoverDir | src/hwmon_source.py:111-120 | one hwmon directory gives at most one device, and exactly one when its pass completes |
| Hwmon.DiscoverDirs | src/hwmon_source.py:111-147 | the directory loop appends at most one device per directory |
| Hwmon.Discover | src/hwmon_source.py:109-110 | `read` appends nothing and raises when the hwmon directory cannot be listed, and otherwise at most one device per listed directory |
| Hwmon.ProbedSensor | src/hwmon_source.py:130-145 | an `_input` file whose first read succeeds gives a discovered, coherent sensor labelled by the label rule |
| Hwmon.ProbeSound | src/hwmon_source.py:120-147 | every probed sensor is the sensor its own `_input` entry gives, so its readout is the first read of that file, labelled by the label rule, and the entry is in the listing |
| Hwmon.ProbeNeverTypeError | src/hwmon_source.py:141-146 | the first read of a new sensor never raises TypeError, so only OSError can skip it |
| Hwmon.DiscoverDirSound | src/hwmon_source.py:112-147 | an appended device is healthy, named by its `name` file, and holds discovered sensors of its own directory, a prefix of those the directory gives in listing order; a completed pass holds all of them |
| Hwmon.DiscoverDirOk | src/hwmon_source.py:112-147 | a directory pass runs to the end exactly when the `name` file reads, the directory can be listed and no entry aborts (no `<prefix>_label` or `_input` open fails) |
| Hwmon.DiscoverDirsOk | src/hwmon_source.py:111-147 | the directory loop runs to the end exactly when every directory passes `DiscoverDirOk`'s condition |
| Hwmon.DiscoverOk | src/hwmon_source.py:109-147 | `read` runs to the end exactly when the hwmon root can be listed and every directory in it passes `DiscoverDirOk`'s condition |
| Hwmon.DiscoverDirsSound | src/hwmon_source.py:109-147 | at most one device per directory, the k-th from the k-th directory, each as `DiscoverDirSound` says; when `read` completes every directory has its device holding every sensor its directory gives |
| HwmonObjects.HwmonSensor.constructor | src/hwmon_source.py:29-31 | the new sensor's view is the freshly constructed sensor |
| HwmonObjects.HwmonSensor.UpdateValue | src/hwmon_source.py:33-42 | the new state and the exception are exactly one read of the sensor's file |
| HwmonObjects.HwmonDevice.constructor | src/sensors_tree.py:49-52 | a new device is named, not faulty, and has no sensors |
| HwmonObjects.HwmonDevice.UpdateSensors | src/hwmon_source.py:19-27 | the device afterwards is the fail-fast refresh of the device before |
| HwmonObjects.ReadSensors | src/hwmon_source.py:20-22 | the loop leaves the sensors in the state of the fail-fast sweep and says whether it raised |
| HwmonObjects.ReadAt | src/hwmon_source.py:21-22 | one iteration reads sensor `i`, touches no other, and fails exactly at the first failing read |
| HwmonObjects.SweepResult | src/hwmon_source.py:20-27 | sensors read up to the first failure and untouched after it are the sweep's result |
| HwmonObjects.HwmonSensors.constructor | src/sensors_tree.py:12-13 | a new registry has no devices |
| HwmonObjects.HwmonSensors.UpdateSensors | src/sensors_tree.py:16-26 | the device list afterwards is the eviction pass over the list before |
| HwmonObjects.HwmonSensors.VisitAt | src/sensors_tree.py:17-25 | one iteration at the iterator index removes or updates the device there and keeps the pass invariant |
| HwmonObjects.HwmonSensors.VisitDevice | src/sensors_tree.py:18-19 | updating device `i` refreshes it and leaves every other device as it was |
| HwmonObjects.HwmonSensors.RemoveDevice | src/sensors_tree.py:25 | `list.remove` drops exactly the device at position `i` |
| HwmonObjects.HwmonSensors.GetTreeWidget | src/sensors_tree.py:28-41 | the rows added are the display filter of the device list |
| HwmonObjects.DeviceItem | src/sensors_tree.py:31-39 | one iteration adds the device's row exactly when it is healthy and has child rows |
| HwmonObjects.ChildItems | src/sensors_tree.py:35-36 | the children are the rows of the non-zero sensors, in order |
| HwmonObjects.HwmonSensors.Read | src/hwmon_source.py:109-147 | the registry afterwards is the old list followed by the discovered devices, and `ok` says whether `read` completed |
| HwmonObjects.HwmonSensors.ReadDir | src/hwmon_source.py:111-147 | one directory appends the device of its pass |
| HwmonObjects.HwmonSensors.AppendDevice | src/hwmon_source.py:117-118 | the new device is appended after the others, which stay as they were |
| HwmonObjects.HwmonSensors.ProbeLast | src/hwmon_source.py:120-147 | the last device gets the probed sensors, and no other device changes |
| HwmonObjects.ProbeOne | src/hwmon_source.py:121-147 | one entry aborts, is skipped, or adds a fresh sensor, as the entry rule says |
| HwmonObjects.ProbeStep | src/hwmon_source.py:120-147 | one entry keeps the sensor loop invariant: done so far plus the rest of the probe |
| HwmonObjects.ProbeInto | src/hwmon_source.py:120-147 | the device's sensors are the probe of the listing, and `ok` says whether the loop completed |
| Liquidctl.KindOf | src/liquidctl_source.py:73-88 | the classifier never gives Intrusion; its keyword order is stated in `KindOfPrecedence` |
| Liquidctl.KindOfPrecedence | src/liquidctl_source.py:73-88 | never Intrusion; Flow exactly when "flow" occurs and no earlier keyword does; "speed" beats "flow"; no type exactly when no keyword occurs |
| Liquidctl.NewSensor | src/liquidctl_source.py:28-30 | a new sensor has the stripped key as label, the unit given, the initial readout and no history |
| Liquidctl.UpdateValue | src/liquidctl_source.py:44-55 | an update keeps label and unit |
| Liquidctl.UpdateValueMeaning | src/liquidctl_source.py:44-55 | a number with int extrema widens them and records `history[now] = n`; a number with "N/A" extrema sets the value, then raises without recording; anything else sets both extrema to "N/A" and records 0; other timestamps are untouched |
| Liquidctl.UpdateValueSettles | src/liquidctl_source.py:45-53 | updates keep a sensor settled, and raise exactly for a number after "N/A" |
| Liquidctl.ValueText | src/liquidctl_source.py:94 | an int prints with a leading "-" exactly when it is negative, and "N/A" prints as itself |
| Liquidctl.ValueToStr | src/liquidctl_source.py:93-94 | the text ends with a space and the sensor's unit |
| Liquidctl.ValueToStrSpec | src/liquidctl_source.py:93-94 | the text is the value, a space and the unit, "N/A" included, and distinct values show distinctly |
| Liquidctl.IntTextInjective | src/liquidctl_source.py:94 | distinct ints print distinctly |
| Liquidctl.RowOf | src/liquidctl_source.py:57-71 | a row shows the sensor's label and the icon of the type classified from it, and an "N/A" extremum as "N/A" and the unit |
| Liquidctl.DistinctSnoc | src/liquidctl_source.py:32-33 | appending a new key keeps the keys free of repetitions |
| Liquidctl.NewDevice | src/liquidctl_source.py:16-19 | a new device is not faulty, has no sensors, and has an empty map in step with them |
| Liquidctl.IndexOf | src/liquidctl_source.py:35 | the sensor a seen key maps to is at the key's first position |
| Liquidctl.Upsert | src/liquidctl_source.py:27-35 | one status entry keeps the name, the flag, and the keys in step with the sensors |
| Liquidctl.UpsertMeaning | src/liquidctl_source.py:27-35 | a seen key updates its own sensor in place; an unseen key appends a new sensor updated once; all other sensors are untouched |
| Liquidctl.Upserts | src/liquidctl_source.py:25-35 | the loop keeps the name, the flag, and the keys in step with the sensors |
| Liquidctl.FirstSeen | src/liquidctl_source.py:27-33 | the keys after the status entries keep the old keys in front |
| Liquidctl.UpsertsAppend | src/liquidctl_source.py:25-38 | fail-fast: the loop over `a + b` is the loop over `a`, then over `b` unless `a` raised |
| Liquidctl.FirstSeenSpec | src/liquidctl_source.py:27-33 | the keys keep the old ones in front, hold each key once, and are the old keys plus every key met |
| Liquidctl.UpsertsMeaning | src/liquidctl_source.py:24-35 | the map stays one-to-one with the sensors, old keys keep their place, without a raise the keys are the first-seen order, and labels and units never change |
| Liquidctl.DeviceStep | src/liquidctl_source.py:24-38 | a refresh keeps the name, keeps the map in step, and never clears `faulty` |
| Liquidctl.DeviceStepMeaning | src/liquidctl_source.py:24-38 | faulty afterwards exactly when it was faulty, `get_status()` raised, or an update raised; sensors stay settled |
| Liquidctl.UpsertsSettled | src/liquidctl_source.py:26-35 | the status loop keeps every sensor settled |
| Liquidctl.NumberAfterNARaises | src/liquidctl_source.py:35-48 | a number arriving for a key whose extrema are "N/A" sets the value, then makes the device faulty |
| Liquidctl.PassStep | src/sensors_tree.py:16-26 | the inherited registry pass over liquidctl devices never adds a device |
| Liquidctl.PassStepHealthy | src/sensors_tree.py:16-19 | with no faulty device every device is refreshed in order, and one whose `get_status()` raised comes out faulty |
| Liquidctl.Adopted | src/liquidctl_source.py:103-104 | a kept handle's device is named by its description with the map in step with the sensors, and is faulty with no sensors when `get_status()` raises |
| Liquidctl.Discover | src/liquidctl_source.py:96-105 | `read` appends at most one device per handle |
| Liquidctl.DiscoverSound | src/liquidctl_source.py:99-105 | every appended device is the refreshed device of a handle whose `initialize()` was truthy |
| Liquidctl.DiscoverAppend | src/liquidctl_source.py:99-105 | devices keep handle order, and `read` stops at the first handle that raises |
| Liquidctl.DiscoverComplete | src/liquidctl_source.py:99-105 | `read` completes exactly when no handshake raises, and then appends one device per truthy handle |
| Liquidctl.DiscoverStep | src/liquidctl_source.py:99-105 | the handle loop continues from a prefix by one handle |
| Liquidctl.ChildRows | src/liquidctl_source.py:90-91 | every liquidctl sensor has a row, in order |
| Liquidctl.Tree | src/sensors_tree.py:28-41 | the tree has at most one row per liquidctl device; which are shown is in `TreeMembers` |
| Liquidctl.TreeMembers | src/sensors_tree.py:31-39 | a liquidctl device is in the tree exactly when it is not faulty and has a sensor |
| LiquidctlObjects.LiquidctlSensor.constructor | src/liquidctl_source.py:41-42 | the new sensor is the constructed sensor for the key and unit |
| LiquidctlObjects.LiquidctlSensor.UpdateValue | src/liquidctl_source.py:44-55 | the new state and `raised` are exactly one update at `now` |
| LiquidctlObjects.NewUpdated | src/liquidctl_source.py:28-31 | the new sensor is fresh, and its state is a new sensor updated once |
| LiquidctlObjects.LiquidctlDevice.constructor | src/liquidctl_source.py:16-19 | a new device is keyed, named, not faulty, and has no sensors |
| LiquidctlObjects.LiquidctlDevice.UpdateSensors | src/liquidctl_source.py:24-38 | the device afterwards is the refresh of the device before, given what `get_status()` returns |
| LiquidctlObjects.LiquidctlDevice.UpsertAll | src/liquidctl_source.py:25-35 | the loop leaves the device as the fail-fast upsert loop does and says whether it raised |
| LiquidctlObjects.LiquidctlDevice.UpsertEntry | src/liquidctl_source.py:27-35 | one entry is one upsert |
| LiquidctlObjects.LiquidctlDevice.UpdateFiled | src/liquidctl_source.py:34-35 | a seen key updates the sensor in the map, and the list stays as it was |
| LiquidctlObjects.LiquidctlDevice.FileNew | src/liquidctl_source.py:27-33 | an unseen key files a fresh sensor in both the map and the list |
| LiquidctlObjects.NewRefreshed | src/liquidctl_source.py:103-104 | a fresh device for the handle, refreshed once |
| LiquidctlObjects.LiquidctlSensors.constructor | src/liquidctl_source.py:12-13 | a new registry has no devices |
| LiquidctlObjects.LiquidctlSensors.Read | src/liquidctl_source.py:96-105 | the registry afterwards is the old list followed by the devices of the truthy handles, and `ok` says whether `read` completed |
| LiquidctlObjects.LiquidctlSensors.ReadHandle | src/liquidctl_source.py:100-105 | one handle appends its refreshed device exactly when `initialize()` is truthy, and raises exactly when it raised |
| LiquidctlObjects.LiquidctlSensors.Adopt | src/liquidctl_source.py:103-105 | a kept handle's device is appended after the others |
| LiquidctlObjects.LiquidctlSensors.AppendDevice | src/liquidctl_source.py:105 | `devices.append` adds the device at the end and leaves the others unchanged |
| LegacyTree.GetIcon | sensors_tree.py:81-97 | an icon for each of the six types, `None` for no type |
| LegacyTree.GetIconKept | sensors_tree.py:49-55 | each older type keeps its icon in the newer base, and none becomes Flow |
| LegacyTree.GetIconDistinct | sensors_tree.py:83-97 | no two types share an icon |
| LegacyTree.NewSensor | sensors_tree.py:57-74 | a new sensor keeps its label as given, starts from the initial readout, and builds its row from label, value, min and max, with its type's icon |
| LegacyTree.LabelKept | sensors_tree.py:58 | every label with surrounding whitespace is kept with it, unlike the newer base, and such labels exist |
| LegacyTree.InitialItem | sensors_tree.py:61-72 | the initial row shows 0, `str(sys.maxsize)` as its minimum and `str(-sys.maxsize - 1)` as its maximum, so the minimum is unsigned and the maximum negative |
| LegacyTree.NewDevice | sensors_tree.py:39-41 | a new device has its name and no sensors |
| LegacyTree.Refreshed | sensors_tree.py:17-19 | the pass keeps the number of devices; position by position it is `RefreshedAt` |
| LegacyTree.RefreshedAt | sensors_tree.py:17-19 | the pass keeps every device in place and updates each one |
| LegacyTree.RefreshedSnoc | sensors_tree.py:18-19 | updating one more device extends the result by its update |
| LegacyTree.RefreshedIsEvictionWithoutFaults | sensors_tree.py:17-19 | the older pass equals the newer eviction pass run on a list with no faulty device |
| LegacyTree.Items | sensors_tree.py:27-28 | one child per sensor, in order |
| LegacyTree.Rows | sensors_tree.py:25-29 | one top-level row per device, in order, with its name and its sensors' rows |
| LegacyTree.RowsShownWhenNotEmpty | sensors_tree.py:25-29 | the older tree equals the newer filter's output exactly when no device is empty |
| LegacyTree.SensorsTree.constructor | sensors_tree.py:11-12 | a new registry has no devices |
| LegacyTree.SensorsTree.UpdateSensors | sensors_tree.py:17-19 | every device is updated once, in order, and none is removed |
| LegacyTree.SensorsTree.GetTreeWidget | sensors_tree.py:21-31 | the rows are one per device, empty devices included |
| LegacyTree.DeviceItems | sensors_tree.py:27-28 | the children are the sensors' rows, in order |
| LegacyHwmon.Added | main.py:26-28 | `add_sensor` adds the name to the keys; an absent name gets the value; present names keep theirs |
| LegacyHwmon.AddedFirstWins | main.py:27 | filing a name twice keeps the first value |
| LegacyHwmon.EntryStep | main.py:58-66 | an entry stops `read` exactly when it is an `_input` file that cannot be opened; it is filed exactly when it is an `_input` file whose first line reads, with the stripped line |
| LegacyHwmon.Readings | main.py:58-66 | the sensor loop keeps every reading filed before it; the rest is in `ReadingsSpec` |
| LegacyHwmon.ReadingsSpec | main.py:58-66 | only `_input` files are filed, each under its full name with its stripped line; earlier readings are kept; the loop stops exactly when some `_input` file cannot be opened; a completed loop files every readable one |
| LegacyHwmon.DiscoverDir | main.py:48-66 | a directory gives at most one device, and exactly one when its pass completes |
| LegacyHwmon.DiscoverDirSpec | main.py:49-66 | a device exactly when the `name` file reads, named by its stripped first line, appended even when its scan raises |
| LegacyHwmon.DiscoverDirs | main.py:48-66 | the directory loop appends at most one device per directory |
| LegacyHwmon.Discover | main.py:46-47 | `read` appends nothing and raises when the hwmon directory cannot be listed, and otherwise at most one device per listed directory |
| LegacyHwmon.DiscoverDirOk | main.py:49-66 | a directory pass runs to the end exactly when the `name` file reads, the directory can be listed and no `_input` file fails to open |
| LegacyHwmon.DiscoverDirsOk | main.py:48-66 | the directory loop runs to the end exactly when every directory passes `DiscoverDirOk`'s condition |
| LegacyHwmon.DiscoverOk | main.py:46-66 | `read` runs to the end exactly when the hwmon root can be listed and every directory in it passes `DiscoverDirOk`'s condition |
| LegacyHwmon.DiscoverDirsSpec | main.py:46-66 | one device per directory in listing order; a completed `read` gives every directory its device with all readable readings |
| LegacyHwmon.HwmonDevice.constructor | main.py:22-24 | a new device has its name and no readings |
| LegacyHwmon.HwmonDevice.AddSensor | main.py:26-28 | the readings afterwards are insert-if-absent applied to the readings before |
| LegacyHwmon.ReadReadings | main.py:58-66 | the device's readings afterwards are the scan of the listing, and `ok` says whether the scan completed |
| LegacyHwmon.ReadEntry | main.py:59-66 | one entry stops the scan, or files its reading, or changes nothing, as the entry rule says |
| LegacyHwmon.HwmonSensors.constructor | main.py:30-31 | a new registry has no devices |
| LegacyHwmon.HwmonSensors.Read | main.py:46-66 | the registry afterwards is the old list followed by the discovered devices, and `ok` says whether `read` completed |
| LegacyHwmon.HwmonSensors.ReadDir | main.py:48-66 | one directory appends its device, once the name is read and before its entries are scanned |

## Left out

These parts of the sources are not modelled:

- **Qt:**
  - widget construction, header labels, `setData` and `setIcon`;
  - the `QTimer` of `sensors_tree.py`;
  - `DeviceTreeItem` and `SensorTreeItem`.

  The tree is modelled as a list of visible rows. For a sensor that
  reads 0, hwmon's `get_tree_widget_item` returns `None`, and
  `src/sensors_tree.py:36` passes that to `addChild`. The model treats
  this as adding no row, which is what Qt's `addChild` does with a null
  item.
- **`src/main.py` and `src/graphing.py`:** the window, menus, the polling
  thread and the plot. This is user interface and concurrency.
- **Floats:**
  - liquidctl numbers are ints, and `round(v, 2)` is the identity on
    them;
  - `value / divide_by` is kept as quotient and remainder, not as float
    text.
- **`time.time()`:** passed in as `now`, one timestamp per pass.
- **The liquidctl library:**
  - `find_liquidctl_devices` is the list of handles;
  - `connect()` and `initialize()` are the `init` field: `Some(truthy)`,
    or `None` when they raise;
  - `get_status()` is an `Option` of its entries, `None` when it raises
    before yielding, and `disconnect()` through `__del__` is left out.
- **Exceptions other than OSError and TypeError** are not modelled.
- **The filesystem:**
  - files are given by their first line, or by the OSError that opening
    or reading them raises;
  - decoding errors are left out;
  - `str.isspace` and `str.lower` cover the modelled character sets
    only: Unicode whitespace and ASCII letters.
- **`str.isdecimal` and `int()`** accept ASCII digits only. Python also
  accepts every other Unicode decimal digit: it reads a line of full-width
  digits "４５０００" as the int 45000, which the model keeps as a string
  value with "N/A" extrema.
- Hwmon.ValueToStrInjective: holds for the exact quotient and remainder
  the model displays, not for the float text `value / divide_by` of the
  source, where ints above 2^53 can print alike (9007199254740992 and
  9007199254740993 with divisor 1).
- **`str(int)`** has no digit limit, and `sys.maxsize` is the 64-bit
  value.
- **Constructor arity is glue.** `HwmonSensor` passes two arguments to a
  base constructor that takes three. The model ignores the arity and the
  unused `liquidctl_device` argument.
- **`print`** diagnostics are left out.
- **Python dict order of `readings` in `main.py`** is not modelled. It
  only matters to `main.py`'s `get_tree_widget`, which is left out as Qt
  display code.
- **`internal_data` of `sensors_tree.py`** is left out. It is opaque to
  that file.
- Liquidctl.PassStep: the liquidctl registry pass is modelled as this
  pure function, with no imperative loop. The same inherited loop is
  modelled imperatively as `HwmonObjects.HwmonSensors.UpdateSensors`.
- Liquidctl.Tree: the liquidctl `get_tree_widget` is modelled as this
  pure function, against the same inherited filter.
- LegacyTree.SensorsTree.UpdateSensors:
  - `Device.update_sensors` is abstract in `sensors_tree.py`, so the
    per-device update is a parameter;
  - the devices are kept as values in the registry, so aliasing
    between devices is not modelled.
- LegacyTree.NewSensor: `get_type` is abstract, so the type is a
  parameter. The row is built once: `sensors_tree.py` never changes
  it.
- **`cached_property`** is modelled by classifying from fields that
  never change.
