/** The hwmon source (src/hwmon_source.py) as values: how a sensor is
    classified and displayed, what one read of its file does to it, what a
    device refresh and a registry pass do, and what discovery builds from the
    filesystem under /sys/class/hwmon. The classes in module `HwmonObjects`
    are proved to behave as these functions say. */
module Hwmon {
  import opened PyBuiltins
  import opened SysFs
  import opened SensorsTree

  const HwmonPath: string := "/sys/class/hwmon"

  // ---------------------------------------------------------------------
  // Classification: `HwmonSensor.type`

  /** The part of the file name `type` looks at: everything before "_input". */
  function FeatureName(fsName: string): string {
    Before(fsName, "_input")
  }

  /** `HwmonSensor.type`: substring tests on the feature name, first match
      wins; a fan whose label mentions "flow" is a flow sensor. */
  function KindOf(fsName: string, labelText: string): Option<Kind> {
    var f := FeatureName(fsName);
    if Contains(f, "temp") then Some(Temp)
    else if Contains(f, "in") then Some(Voltage)
    else if Contains(f, "fan") then (if Contains(Lower(labelText), "flow") then Some(Flow) else Some(Fan))
    else if Contains(f, "curr") then Some(Current)
    else if Contains(f, "power") then Some(Power)
    else if Contains(f, "intrusion") then Some(Intrusion)
    else None
  }

  /** The classifier never answers Intrusion: every name containing
      "intrusion" contains "in", which is tested first and gives Voltage. A
      name has no type exactly when it contains none of the five keywords that
      come before "intrusion". */
  lemma {:induction false} KindOfNeverIntrusion(fsName: string, labelText: string)
    ensures KindOf(fsName, labelText) != Some(Intrusion)
    ensures KindOf(fsName, labelText).None? <==>
      var f := FeatureName(fsName);
      !Contains(f, "temp") && !Contains(f, "in") && !Contains(f, "fan")
      && !Contains(f, "curr") && !Contains(f, "power")
  {
    var f := FeatureName(fsName);
    assert OccursAt("intrusion", "in", 0);
    if Contains(f, "intrusion") {
      ContainsTransitive(f, "intrusion", "in");
    }
  }

  /** First match wins: "temp" beats every other keyword, and only a fan
      feature is ever a flow sensor. */
  lemma KindOfPrecedence(fsName: string, labelText: string)
    ensures Contains(FeatureName(fsName), "temp") ==> KindOf(fsName, labelText) == Some(Temp)
    ensures KindOf(fsName, labelText) == Some(Flow) <==>
      var f := FeatureName(fsName);
      !Contains(f, "temp") && !Contains(f, "in") && Contains(f, "fan")
      && Contains(Lower(labelText), "flow")
  {
  }

  // ---------------------------------------------------------------------
  // Display: `HwmonSensor.value_to_str`

  /** What `value_to_str` shows: "N/A", or the value divided by a divisor,
      followed by a unit. The decimal text of the float quotient is not
      modelled; the quotient is kept exactly, as whole part and remainder. */
  datatype Display = NotAvailable | Scaled(whole: int, fraction: nat, divisor: nat, unit: string)

  /** The divisor and unit for each sensor type. */
  function Scale(k: Option<Kind>): (r: (nat, string))
    ensures r.0 == 1 || r.0 == 1000 || r.0 == 1000000
  {
    match k
    case Some(Temp) => (1000, "C")
    case Some(Voltage) => (1000, "V")
    case Some(Fan) => (1, "RPM")
    case Some(Current) => (1000, "A")
    case Some(Power) => (1000000, "W")
    case _ => (1, "")
  }

  /** `value_to_str(value)`: "N/A" for anything that is not an int; an int is
      shown as `value / divisor` and the unit of its sensor type. */
  function ValueToStr(k: Option<Kind>, v: Value): (r: Display)
    ensures r.NotAvailable? <==> v.Str?
    ensures r.Scaled? ==>
      (r.divisor, r.unit) == Scale(k) && r.fraction < r.divisor
      && r.whole * r.divisor + r.fraction == v.n
  {
    match v
    case Str(_) => NotAvailable
    case Int(n) =>
      var (d, u) := Scale(k);
      Scaled(n / d, n % d, d, u)
  }

  /** The exact quotient and remainder the model displays determine the
      value: two ints of the same sensor type with the same display are
      equal. The float text `value / divide_by` that Python prints is not
      modelled and does not have this property: above 2^53 two ints can
      print alike. */
  lemma ValueToStrInjective(k: Option<Kind>, a: int, b: int)
    requires ValueToStr(k, Int(a)) == ValueToStr(k, Int(b))
    ensures a == b
  {
  }

  // ---------------------------------------------------------------------
  // A sensor and one read of its file: `HwmonSensor.update_value`

  /** An hwmon sensor: its label (stripped), the fields of `internal_data`
      (`fs_name`, `label` as given, `path`) and its readout. */
  datatype SensorView = SensorView(labelText: string, fsName: string, rawLabel: string, path: string, readout: Readout)

  /** A sensor as constructed, before its first read. */
  function NewSensor(labelText: string, fsName: string, path: string): (s: SensorView)
    ensures s.labelText == Strip(labelText) && s.rawLabel == labelText && s.readout == Initial
  {
    SensorView(Strip(labelText), fsName, labelText, path, Initial)
  }

  /** The exceptions a read can raise. */
  datatype Failure = OSError | TypeError

  /** The sensor after a read, and the exception the read raised, if any. */
  datatype Step = Step(sensor: SensorView, failure: Option<Failure>)

  /** `update_value`, given the stripped first line of the sensor's file
      (`None` when the open or the read raises OSError). */
  function ValueStep(s: SensorView, line: Option<string>): (r: Step)
    ensures r.sensor.(readout := s.readout) == s
  {
    match line
    case None => Step(s, Some(OSError))
    case Some(l) =>
      if IsDecimal(l) then
        var t := Track(ParseDecimal(l), s.readout);
        Step(s.(readout := t.readout), if t.raised then Some(TypeError) else None)
      else Step(s.(readout := Readout(Str(l), NA, NA)), None)
  }

  /** What a read does: an OSError changes nothing; a line that is not a
      decimal number becomes the value with both extrema "N/A"; a decimal
      line becomes the int value, and then either raises TypeError (an
      extremum is a string) or moves the extrema outwards to include it. */
  lemma ValueStepMeaning(s: SensorView, line: Option<string>)
    ensures line.None? ==> ValueStep(s, line) == Step(s, Some(OSError))
    ensures line.Some? && !IsDecimal(line.value) ==>
      ValueStep(s, line) == Step(s.(readout := Readout(Str(line.value), NA, NA)), None)
    ensures line.Some? && IsDecimal(line.value) ==>
      var r := ValueStep(s, line);
      r.sensor.readout.value == Int(ParseDecimal(line.value))
      && (r.failure.Some? <==> s.readout.lo.Str? || s.readout.hi.Str?)
      && (r.failure.Some? ==> r.failure.value == TypeError)
    ensures line.Some? && IsDecimal(line.value) && ValueStep(s, line).failure.None? ==>
      var before, after := s.readout, ValueStep(s, line).sensor.readout;
      after.lo.Int? && after.hi.Int? && after.lo.n <= after.value.n <= after.hi.n
      && after.lo.n <= before.lo.n && after.hi.n >= before.hi.n
  {
  }

  /** A read of the sensor's own file in filesystem `fs`. */
  function Reread(s: SensorView, fs: FileSystem): (r: Step)
    ensures r.sensor.(readout := s.readout) == s
    ensures r.failure == Some(OSError) <==> ReadStripped(fs, s.path).None?
  {
    ValueStep(s, ReadStripped(fs, s.path))
  }

  /** Once both extrema are "N/A", a numeric line makes `update_value` raise
      TypeError (an int compared with a string), after `_value` has already
      become that number. */
  lemma NumericAfterNARaises(s: SensorView, l: string)
    requires s.readout.lo == NA && IsDecimal(l)
    ensures ValueStep(s, Some(l)) == Step(s.(readout := s.readout.(value := Int(ParseDecimal(l)))), Some(TypeError))
  {
  }

  /** Reads keep a sensor coherent, and a coherent sensor raises TypeError
      only when its extrema are "N/A". */
  lemma ValueStepCoherent(s: SensorView, line: Option<string>)
    requires Coherent(s.readout)
    ensures Coherent(ValueStep(s, line).sensor.readout)
    ensures ValueStep(s, line).failure == Some(TypeError) ==> s.readout.lo == NA
  {
    if line.Some? && IsDecimal(line.value) {
      TrackCoherent(ParseDecimal(line.value), s.readout);
    }
  }

  // ---------------------------------------------------------------------
  // A device refresh: `HwmonDevice.update_sensors`

  /** An hwmon device: its name, whether it is faulty, and its sensors. */
  datatype DeviceView = DeviceView(name: string, faulty: bool, sensors: seq<SensorView>)

  /** Sensors after a sweep, and whether the sweep stopped at an exception. */
  datatype Sweep = Sweep(sensors: seq<SensorView>, failed: bool)

  /** The loop of `update_sensors`: read each sensor in turn and stop at the
      first read that raises, leaving the rest as they were. */
  function SensorsStep(ss: seq<SensorView>, fs: FileSystem): (r: Sweep)
    ensures |r.sensors| == |ss|
  {
    if ss == [] then Sweep([], false)
    else
      var st := Reread(ss[0], fs);
      if st.failure.Some? then Sweep([st.sensor] + ss[1..], true)
      else
        var rest := SensorsStep(ss[1..], fs);
        Sweep([st.sensor] + rest.sensors, rest.failed)
  }

  /** `update_sensors`: the sweep, and `faulty = True` when it raised. */
  function DeviceStep(d: DeviceView, fs: FileSystem): (r: DeviceView)
    ensures r.name == d.name && |r.sensors| == |d.sensors|
    ensures d.faulty ==> r.faulty
  {
    var sweep := SensorsStep(d.sensors, fs);
    d.(sensors := sweep.sensors, faulty := d.faulty || sweep.failed)
  }

  /** The index of the first sensor whose read raises, or the number of
      sensors when none does. */
  function FirstFailure(ss: seq<SensorView>, fs: FileSystem): (m: nat)
    ensures m <= |ss|
    ensures forall k :: 0 <= k < m ==> Reread(ss[k], fs).failure.None?
    ensures m < |ss| ==> Reread(ss[m], fs).failure.Some?
  {
    if ss == [] then 0
    else if Reread(ss[0], fs).failure.Some? then 0
    else 1 + FirstFailure(ss[1..], fs)
  }

  /** Fail-fast, sensor by sensor: the sensors before the first failing read
      are read, the failing one keeps what its read left behind, the ones
      after it are untouched, and the sweep fails exactly when some read
      raises. */
  lemma {:induction false} SensorsStepFailFast(ss: seq<SensorView>, fs: FileSystem, k: nat)
    requires k < |ss|
    ensures k <= FirstFailure(ss, fs) ==> SensorsStep(ss, fs).sensors[k] == Reread(ss[k], fs).sensor
    ensures k > FirstFailure(ss, fs) ==> SensorsStep(ss, fs).sensors[k] == ss[k]
  {
    var r := SensorsStep(ss, fs);
    var st := Reread(ss[0], fs);
    if k > 0 {
      assert ss[1..][k - 1] == ss[k];
      if st.failure.None? {
        var rest := SensorsStep(ss[1..], fs);
        assert r.sensors == [st.sensor] + rest.sensors;
        assert FirstFailure(ss, fs) == 1 + FirstFailure(ss[1..], fs);
        SensorsStepFailFast(ss[1..], fs, k - 1);
        assert r.sensors[k] == rest.sensors[k - 1];
      } else {
        assert r.sensors == [st.sensor] + ss[1..];
      }
    }
  }

  /** A sweep fails exactly when some read raises. */
  lemma {:induction false} SensorsStepFails(ss: seq<SensorView>, fs: FileSystem)
    ensures SensorsStep(ss, fs).failed <==> FirstFailure(ss, fs) < |ss|
  {
    if ss != [] && Reread(ss[0], fs).failure.None? {
      SensorsStepFails(ss[1..], fs);
    }
  }

  /** Refreshing a device keeps all its sensors coherent. */
  lemma {:induction false} SensorsStepCoherent(ss: seq<SensorView>, fs: FileSystem)
    requires forall k :: 0 <= k < |ss| ==> Coherent(ss[k].readout)
    ensures forall k :: 0 <= k < |ss| ==> Coherent(SensorsStep(ss, fs).sensors[k].readout)
  {
    if ss != [] {
      ValueStepCoherent(ss[0], ReadStripped(fs, ss[0].path));
      SensorsStepCoherent(ss[1..], fs);
    }
  }

  // ---------------------------------------------------------------------
  // The registry pass: `SensorsTree.update_sensors` over hwmon devices

  function Flags(ds: seq<DeviceView>): (r: seq<bool>)
    ensures |r| == |ds| && forall k :: 0 <= k < |ds| ==> r[k] == ds[k].faulty
  {
    seq(|ds|, k requires 0 <= k < |ds| => ds[k].faulty)
  }

  function Refreshed(ds: seq<DeviceView>, fs: FileSystem): (r: seq<DeviceView>)
    ensures |r| == |ds| && forall k :: 0 <= k < |ds| ==> r[k] == DeviceStep(ds[k], fs)
  {
    seq(|ds|, k requires 0 <= k < |ds| => DeviceStep(ds[k], fs))
  }

  /** One registry pass: healthy devices are refreshed, faulty ones removed,
      with the skip a removal causes. */
  function PassStep(ds: seq<DeviceView>, fs: FileSystem): (r: seq<DeviceView>)
    ensures |r| <= |ds|
  {
    Evict(ds, Flags(ds), Refreshed(ds, fs))
  }

  /** With no faulty device the pass refreshes every device, in order. */
  lemma PassStepHealthy(ds: seq<DeviceView>, fs: FileSystem)
    requires forall k :: 0 <= k < |ds| ==> !ds[k].faulty
    ensures PassStep(ds, fs) == Refreshed(ds, fs)
  {
    EvictNoFaults(ds, Flags(ds), Refreshed(ds, fs));
  }

  /** The pass from the list iterator's position: the first device is
      refreshed when healthy; when faulty it is removed and the device after
      it, passed over, stays as it was. */
  lemma PassStepFront(ds: seq<DeviceView>, fs: FileSystem)
    requires ds != []
    ensures !ds[0].faulty ==> PassStep(ds, fs) == [DeviceStep(ds[0], fs)] + PassStep(ds[1..], fs)
    ensures ds[0].faulty && |ds| > 1 ==> PassStep(ds, fs) == [ds[1]] + PassStep(ds[2..], fs)
    ensures ds[0].faulty && |ds| == 1 ==> PassStep(ds, fs) == []
  {
    EvictFront(ds, Flags(ds), Refreshed(ds, fs));
    assert Flags(ds)[1..] == Flags(ds[1..]) && Refreshed(ds, fs)[1..] == Refreshed(ds[1..], fs);
    if |ds| > 1 {
      assert Flags(ds)[2..] == Flags(ds[2..]) && Refreshed(ds, fs)[2..] == Refreshed(ds[2..], fs);
    }
  }

  // ---------------------------------------------------------------------
  // What the tree shows: `SensorsTree.get_tree_widget` over hwmon devices

  /** A sensor row: label, icon, and the displayed value, minimum and maximum. */
  datatype SensorRow = SensorRow(labelText: string, icon: Option<string>, value: Display, lo: Display, hi: Display)

  function RowOf(s: SensorView): (r: SensorRow)
    ensures r.labelText == s.labelText && r.icon == Icon(KindOf(s.fsName, s.rawLabel))
    ensures r.value.NotAvailable? <==> s.readout.value.Str?
  {
    var k := KindOf(s.fsName, s.rawLabel);
    SensorRow(s.labelText, Icon(k), ValueToStr(k, s.readout.value), ValueToStr(k, s.readout.lo), ValueToStr(k, s.readout.hi))
  }

  /** `get_tree_widget_item`: no row for a sensor whose value is the int 0. */
  function TreeItem(s: SensorView): (r: Option<SensorRow>)
    ensures r.None? <==> s.readout.value == Int(0)
    ensures r.Some? ==> r.value.labelText == s.labelText
  {
    if s.readout.value == Int(0) then None else Some(RowOf(s))
  }

  /** The child rows of a device: one per sensor with a row, in order. */
  function ChildRows(ss: seq<SensorView>): (r: seq<SensorRow>)
    ensures |r| <= |ss|
    ensures forall x :: x in r ==> exists k :: 0 <= k < |ss| && ss[k].readout.value != Int(0) && x == RowOf(ss[k])
  {
    if ss == [] then []
    else
      var last := TreeItem(ss[|ss| - 1]);
      ChildRows(ss[..|ss| - 1]) + (if last.Some? then [last.value] else [])
  }

  /** A device has no child rows exactly when every one of its sensors reads 0. */
  lemma {:induction false} ChildRowsEmpty(ss: seq<SensorView>)
    ensures ChildRows(ss) == [] <==> forall k :: 0 <= k < |ss| ==> ss[k].readout.value == Int(0)
  {
    if ss != [] {
      ChildRowsEmpty(ss[..|ss| - 1]);
      assert forall k :: 0 <= k < |ss| - 1 ==> ss[..|ss| - 1][k] == ss[k];
    }
  }

  /** Every sensor that does not read 0 has its row among the child rows. */
  lemma {:induction false} ChildRowsShows(ss: seq<SensorView>, k: int)
    requires 0 <= k < |ss| && ss[k].readout.value != Int(0)
    ensures RowOf(ss[k]) in ChildRows(ss)
    decreases |ss|
  {
    var init := ss[..|ss| - 1];
    if k < |ss| - 1 {
      assert init[k] == ss[k];
      ChildRowsShows(init, k);
    }
  }

  /** The child rows keep sensor order: the rows of `a + b` are the rows of
      `a` followed by the rows of `b`. */
  lemma {:induction false} ChildRowsAppend(a: seq<SensorView>, b: seq<SensorView>)
    ensures ChildRows(a + b) == ChildRows(a) + ChildRows(b)
    decreases |b|
  {
    if b == [] {
      assert a + b == a;
    } else {
      var init := b[..|b| - 1];
      assert (a + b)[..|a + b| - 1] == a + init;
      assert (a + b)[|a + b| - 1] == b[|b| - 1];
      ChildRowsAppend(a, init);
    }
  }

  function Candidates(ds: seq<DeviceView>): (r: seq<DeviceRow<SensorRow>>)
    ensures |r| == |ds| && forall k :: 0 <= k < |ds| ==> r[k] == DeviceRow(ds[k].name, ChildRows(ds[k].sensors))
  {
    seq(|ds|, k requires 0 <= k < |ds| => DeviceRow(ds[k].name, ChildRows(ds[k].sensors)))
  }

  /** The rows `get_tree_widget` adds for a device list. */
  function Tree(ds: seq<DeviceView>): (r: seq<DeviceRow<SensorRow>>)
    ensures |r| <= |ds|
  {
    Shown(Candidates(ds), Flags(ds))
  }

  /** A device is in the tree exactly when it is not faulty and some sensor
      of it reads a value other than 0. */
  lemma TreeShows(ds: seq<DeviceView>, k: nat)
    requires k < |ds| && !ds[k].faulty && exists i :: 0 <= i < |ds[k].sensors| && ds[k].sensors[i].readout.value != Int(0)
    ensures DeviceRow(ds[k].name, ChildRows(ds[k].sensors)) in Tree(ds)
  {
    ChildRowsEmpty(ds[k].sensors);
    ShownMembers(Candidates(ds), Flags(ds), Candidates(ds)[k]);
  }

  /** Every row of the tree comes from a device that is not faulty and has a
      sensor reading a value other than 0. */
  lemma TreeHides(ds: seq<DeviceView>, x: DeviceRow<SensorRow>)
    requires x in Tree(ds)
    ensures exists k :: 0 <= k < |ds| && !ds[k].faulty && x == DeviceRow(ds[k].name, ChildRows(ds[k].sensors))
              && exists i :: 0 <= i < |ds[k].sensors| && ds[k].sensors[i].readout.value != Int(0)
  {
    ShownMembers(Candidates(ds), Flags(ds), x);
    var k :| 0 <= k < |ds| && Candidates(ds)[k] == x && !Flags(ds)[k] && x.children != [];
    ChildRowsEmpty(ds[k].sensors);
  }

  /** Adding a device to the end of the list adds at most its own row, at the
      end of the tree. */
  lemma TreeSnoc(ds: seq<DeviceView>, d: DeviceView)
    ensures Tree(ds + [d]) ==
      Tree(ds) + (if !d.faulty && ChildRows(d.sensors) != [] then [DeviceRow(d.name, ChildRows(d.sensors))] else [])
  {
    var row := DeviceRow(d.name, ChildRows(d.sensors));
    assert Candidates(ds + [d]) == Candidates(ds) + [row];
    assert Flags(ds + [d]) == Flags(ds) + [d.faulty];
    ShownAppend(Candidates(ds), Flags(ds), [row], [d.faulty]);
    assert Shown([row], [d.faulty]) == (if !d.faulty && row.children != [] then [row] else []) + Shown([], []);
  }

  // ---------------------------------------------------------------------
  // Discovery: `HwmonSensors.read`

  /** The label `read` gives the sensor for directory entry `e`: the stripped
      first line of `<prefix>_label` when that path exists, otherwise the
      prefix itself, the prefix being the part of `e` before its first "_".
      `None` when reading the label file raises OSError. */
  function LabelOf(fs: FileSystem, dir: string, e: string): (r: Option<string>)
    ensures r.None? ==> Exists(fs, Join(dir, Before(e, "_") + "_label"))
    ensures !Exists(fs, Join(dir, Before(e, "_") + "_label")) ==> r == Some(Before(e, "_")) && r.value <= e
  {
    BeforeSpec(e, "_");
    var prefix := Before(e, "_");
    var labelPath := Join(dir, prefix + "_label");
    if Exists(fs, labelPath) then ReadStripped(fs, labelPath) else Some(prefix)
  }

  /** What `read` does with one directory entry: abort `read`, skip the
      entry, or add a sensor. An OSError outside the `try` (reading a label
      file, or opening an input file) aborts, and so would any exception other
      than OSError inside it. */
  datatype Outcome = Abort | Skip | Add(sensor: SensorView)

  function ProbeEntry(fs: FileSystem, dir: string, e: string): (r: Outcome)
    ensures r == Abort <==>
      LabelOf(fs, dir, e).None? || (IsFile(fs, Join(dir, e)) && Contains(e, "_input") && !CanOpen(fs, Join(dir, e)))
    ensures r.Add? <==>
      LabelOf(fs, dir, e).Some? && IsFile(fs, Join(dir, e)) && Contains(e, "_input") && ReadStripped(fs, Join(dir, e)).Some?
    ensures r.Add? ==>
      r.sensor.fsName == e && r.sensor.path == Join(dir, e) && r.sensor.rawLabel == LabelOf(fs, dir, e).value
  {
    match LabelOf(fs, dir, e)
    case None => Abort
    case Some(labelText) =>
      var p := Join(dir, e);
      if IsFile(fs, p) && Contains(e, "_input") then
        if !CanOpen(fs, p) then Abort
        else
          var st := Reread(NewSensor(labelText, e, p), fs);
          if st.failure == Some(OSError) then Skip
          else if st.failure.Some? then Abort
          else Add(st.sensor)
      else Skip
  }

  /** The sensors `read` finds in one device directory, in listing order, and
      whether `read` was aborted there. */
  function Probe(fs: FileSystem, dir: string, entries: seq<string>): (r: Sweep)
    ensures |r.sensors| <= |entries|
    decreases |entries|
  {
    if entries == [] then Sweep([], false)
    else
      match ProbeEntry(fs, dir, entries[0])
      case Abort => Sweep([], true)
      case Skip => Probe(fs, dir, entries[1..])
      case Add(s) =>
        var rest := Probe(fs, dir, entries[1..]);
        Sweep([s] + rest.sensors, rest.failed)
  }

  /** The devices `read` appends, and whether it ran to the end. */
  datatype Found = Found(devices: seq<DeviceView>, ok: bool)

  /** One pass of the directory loop of `read`, for the hwmon directory
      `subdir`: the device named by the stripped first line of its `name`
      file, appended before its sensors are probed, so that an abort leaves
      the partly probed device in the list; `ok` is false where the pass
      raises. */
  function DiscoverDir(fs: FileSystem, subdir: string): (r: Found)
    ensures |r.devices| <= 1 && (r.ok ==> |r.devices| == 1)
  {
    var dir := Join(HwmonPath, subdir);
    match ReadStripped(fs, Join(dir, "name"))
    case None => Found([], false)
    case Some(name) =>
      match ListDir(fs, dir)
      case None => Found([DeviceView(name, false, [])], false)
      case Some(entries) =>
        var probe := Probe(fs, dir, entries);
        Found([DeviceView(name, false, probe.sensors)], !probe.failed)
  }

  /** The directory loop of `read`: one device per hwmon directory, in
      listing order, up to the first pass that raises. */
  function DiscoverDirs(fs: FileSystem, dirs: seq<string>): (r: Found)
    ensures |r.devices| <= |dirs|
    decreases |dirs|
  {
    if dirs == [] then Found([], true)
    else
      var first := DiscoverDir(fs, dirs[0]);
      if !first.ok then first
      else
        var rest := DiscoverDirs(fs, dirs[1..]);
        Found(first.devices + rest.devices, rest.ok)
  }

  /** `read`: the devices it appends to the registry. */
  function Discover(fs: FileSystem): (r: Found)
    ensures ListDir(fs, HwmonPath).None? ==> r.devices == [] && !r.ok
    ensures ListDir(fs, HwmonPath).Some? ==> |r.devices| <= |ListDir(fs, HwmonPath).value|
  {
    match ListDir(fs, HwmonPath)
    case None => Found([], false)
    case Some(dirs) => DiscoverDirs(fs, dirs)
  }

  /** What a probed sensor is: the sensor its own entry gives (so its
      readout is the first read of its file), an input file of its
      directory, labelled by the label rule, hence coherent. */
  predicate Discovered(fs: FileSystem, dir: string, s: SensorView) {
    ProbeEntry(fs, dir, s.fsName) == Add(s)
    && Contains(s.fsName, "_input") && s.path == Join(dir, s.fsName) && IsFile(fs, s.path)
    && LabelOf(fs, dir, s.fsName) == Some(s.rawLabel) && s.labelText == Strip(s.rawLabel)
    && Coherent(s.readout)
  }

  /** The sensor one input entry gives, when its first read succeeds. */
  lemma ProbedSensor(fs: FileSystem, dir: string, e: string, l: string)
    requires IsFile(fs, Join(dir, e)) && Contains(e, "_input") && LabelOf(fs, dir, e) == Some(l)
    requires Reread(NewSensor(l, e, Join(dir, e)), fs).failure.None?
    ensures Discovered(fs, dir, Reread(NewSensor(l, e, Join(dir, e)), fs).sensor)
  {
    var line := ReadStripped(fs, Join(dir, e));
    if IsDecimal(line.value) {
      TrackInitial(ParseDecimal(line.value));
    }
  }

  /** Every sensor a probe finds comes from an entry of the listing and is
      discovered in the probed directory. */
  lemma {:induction false} ProbeSound(fs: FileSystem, dir: string, entries: seq<string>)
    ensures forall s :: s in Probe(fs, dir, entries).sensors ==> Discovered(fs, dir, s) && s.fsName in entries
  {
    if entries != [] {
      var e := entries[0];
      ProbeSound(fs, dir, entries[1..]);
      var out := ProbeEntry(fs, dir, e);
      if out.Add? {
        ProbedSensor(fs, dir, e, LabelOf(fs, dir, e).value);
        assert Probe(fs, dir, entries).sensors == [out.sensor] + Probe(fs, dir, entries[1..]).sensors;
      }
    }
  }

  /** The sensors the entries give, in listing order, ignoring the entries
      that would abort `read`: what the sensor loop appends when it runs to
      the end. */
  function Adds(fs: FileSystem, dir: string, entries: seq<string>): (r: seq<SensorView>)
    ensures |r| <= |entries|
    decreases |entries|
  {
    if entries == [] then []
    else
      (match ProbeEntry(fs, dir, entries[0]) case Add(s) => [s] case _ => [])
      + Adds(fs, dir, entries[1..])
  }

  /** A sensor is among the ones the entries give exactly when some entry
      gives it. */
  lemma {:induction false} AddsMembers(fs: FileSystem, dir: string, entries: seq<string>)
    ensures forall s :: s in Adds(fs, dir, entries) <==>
      exists i :: 0 <= i < |entries| && ProbeEntry(fs, dir, entries[i]) == Add(s)
    decreases |entries|
  {
    if entries != [] {
      var tail := entries[1..];
      AddsMembers(fs, dir, tail);
      var head := match ProbeEntry(fs, dir, entries[0]) case Add(s) => [s] case _ => [];
      assert Adds(fs, dir, entries) == head + Adds(fs, dir, tail);
      forall s | s in Adds(fs, dir, entries)
        ensures exists i :: 0 <= i < |entries| && ProbeEntry(fs, dir, entries[i]) == Add(s)
      {
        if s in Adds(fs, dir, tail) {
          var i :| 0 <= i < |tail| && ProbeEntry(fs, dir, tail[i]) == Add(s);
          assert entries[i + 1] == tail[i];
        } else {
          assert ProbeEntry(fs, dir, entries[0]) == Add(s);
        }
      }
      forall s, i | 0 <= i < |entries| && ProbeEntry(fs, dir, entries[i]) == Add(s)
        ensures s in Adds(fs, dir, entries)
      {
        if i > 0 {
          assert tail[i - 1] == entries[i];
        }
      }
    }
  }

  /** The sensor loop of `read` appends, in listing order, the sensors the
      entries give up to the first entry that aborts it; it aborts exactly
      when some entry does; and when it runs to the end the device holds the
      sensor of every readable input entry. */
  lemma {:induction false} ProbeComplete(fs: FileSystem, dir: string, entries: seq<string>)
    ensures Probe(fs, dir, entries).sensors <= Adds(fs, dir, entries)
    ensures Probe(fs, dir, entries).failed <==>
      exists i :: 0 <= i < |entries| && ProbeEntry(fs, dir, entries[i]) == Abort
    ensures !Probe(fs, dir, entries).failed ==> Probe(fs, dir, entries).sensors == Adds(fs, dir, entries)
    ensures !Probe(fs, dir, entries).failed ==> forall i :: 0 <= i < |entries| && ProbeEntry(fs, dir, entries[i]).Add? ==>
      ProbeEntry(fs, dir, entries[i]).sensor in Probe(fs, dir, entries).sensors
    decreases |entries|
  {
    if entries != [] {
      var tail := entries[1..];
      ProbeComplete(fs, dir, tail);
      var r, rest := Probe(fs, dir, entries), Probe(fs, dir, tail);
      var out := ProbeEntry(fs, dir, entries[0]);
      match out
      case Abort =>
      case Skip =>
        assert Adds(fs, dir, entries) == Adds(fs, dir, tail);
      case Add(s) =>
        assert Adds(fs, dir, entries) == [s] + Adds(fs, dir, tail);
        assert r.sensors == [s] + rest.sensors;
      if out != Abort {
        forall i | 0 < i < |entries|
          ensures entries[i] == tail[i - 1]
        {
        }
      }
      if !r.failed {
        AddsMembers(fs, dir, entries);
      }
    }
  }

  /** A hwmon directory whose pass of `read` runs to the end: its `name`
      file reads, it can be listed, and none of its entries aborts. */
  predicate DirOk(fs: FileSystem, subdir: string) {
    var dir := Join(HwmonPath, subdir);
    ReadStripped(fs, Join(dir, "name")).Some? && ListDir(fs, dir).Some?
    && forall i :: 0 <= i < |ListDir(fs, dir).value| ==> ProbeEntry(fs, dir, ListDir(fs, dir).value[i]) != Abort
  }

  /** A directory pass runs to the end exactly when the directory is ok. */
  lemma DiscoverDirOk(fs: FileSystem, subdir: string)
    ensures DiscoverDir(fs, subdir).ok <==> DirOk(fs, subdir)
  {
    var dir := Join(HwmonPath, subdir);
    var entries := ListDir(fs, dir);
    if entries.Some? {
      ProbeComplete(fs, dir, entries.value);
    }
  }

  /** The directory loop runs to the end exactly when every directory is
      ok. */
  lemma {:induction false} DiscoverDirsOk(fs: FileSystem, dirs: seq<string>)
    ensures DiscoverDirs(fs, dirs).ok <==> forall k :: 0 <= k < |dirs| ==> DirOk(fs, dirs[k])
    decreases |dirs|
  {
    if dirs != [] {
      DiscoverDirOk(fs, dirs[0]);
      DiscoverDirsOk(fs, dirs[1..]);
      assert forall k :: 0 < k < |dirs| ==> dirs[k] == dirs[1..][k - 1];
    }
  }

  /** `read` runs to the end exactly when the hwmon root can be listed and
      every directory in it is ok. */
  lemma DiscoverOk(fs: FileSystem)
    ensures Discover(fs).ok <==>
      ListDir(fs, HwmonPath).Some? && forall k :: 0 <= k < |ListDir(fs, HwmonPath).value| ==> DirOk(fs, ListDir(fs, HwmonPath).value[k])
  {
    var root := ListDir(fs, HwmonPath);
    if root.Some? {
      DiscoverDirsOk(fs, root.value);
    }
  }

  /** A probed sensor never raises TypeError: its first read starts from the
      initial int extrema. */
  lemma ProbeNeverTypeError(labelText: string, e: string, p: string, fs: FileSystem)
    ensures Reread(NewSensor(labelText, e, p), fs).failure != Some(TypeError)
  {
  }

  /** What a device appended by `read` for directory `dir` is: healthy, named
      by its `name` file, and holding only sensors discovered in `dir`. */
  predicate Appended(fs: FileSystem, dir: string, d: DeviceView) {
    !d.faulty
    && ReadStripped(fs, Join(dir, "name")) == Some(d.name)
    && (forall s :: s in d.sensors ==> Discovered(fs, dir, s))
    && d.sensors <= Yield(fs, dir)
  }

  /** The sensors directory `dir` gives, in listing order: none when it
      cannot be listed. */
  function Yield(fs: FileSystem, dir: string): seq<SensorView> {
    match ListDir(fs, dir)
    case None => []
    case Some(entries) => Adds(fs, dir, entries)
  }

  /** A device that holds every sensor its directory gives, in listing
      order. */
  predicate Complete(fs: FileSystem, dir: string, d: DeviceView) {
    ListDir(fs, dir).Some? && d.sensors == Yield(fs, dir)
  }

  /** The device a directory pass appends is healthy, named by the `name`
      file, and holds only sensors discovered in that directory, a prefix of
      those the directory gives; when the pass runs to the end it holds all
      of them. */
  lemma DiscoverDirSound(fs: FileSystem, subdir: string)
    ensures forall d :: d in DiscoverDir(fs, subdir).devices ==> Appended(fs, Join(HwmonPath, subdir), d)
    ensures DiscoverDir(fs, subdir).ok ==> Complete(fs, Join(HwmonPath, subdir), DiscoverDir(fs, subdir).devices[0])
  {
    var dir := Join(HwmonPath, subdir);
    var entries := ListDir(fs, dir);
    if entries.Some? {
      ProbeSound(fs, dir, entries.value);
      ProbeComplete(fs, dir, entries.value);
    }
  }

  /** Everything `read` appends is a healthy device whose sensors were all
      discovered in its own directory, one device per directory in listing
      order; when `read` runs to the end every directory has its device,
      holding every sensor the directory gives. */
  lemma {:induction false} DiscoverDirsSound(fs: FileSystem, dirs: seq<string>)
    ensures |DiscoverDirs(fs, dirs).devices| <= |dirs|
    ensures DiscoverDirs(fs, dirs).ok ==> |DiscoverDirs(fs, dirs).devices| == |dirs|
    ensures forall k :: 0 <= k < |DiscoverDirs(fs, dirs).devices| ==>
      Appended(fs, Join(HwmonPath, dirs[k]), DiscoverDirs(fs, dirs).devices[k])
    ensures DiscoverDirs(fs, dirs).ok ==> forall k :: 0 <= k < |dirs| ==>
      Complete(fs, Join(HwmonPath, dirs[k]), DiscoverDirs(fs, dirs).devices[k])
  {
    if dirs != [] {
      var r := DiscoverDirs(fs, dirs);
      var first := DiscoverDir(fs, dirs[0]);
      DiscoverDirSound(fs, dirs[0]);
      if |first.devices| == 1 {
        assert first.devices[0] in first.devices;
      }
      if first.ok {
        var rest := DiscoverDirs(fs, dirs[1..]);
        DiscoverDirsSound(fs, dirs[1..]);
        forall k | 1 <= k < |r.devices|
          ensures Appended(fs, Join(HwmonPath, dirs[k]), r.devices[k])
          ensures r.ok ==> Complete(fs, Join(HwmonPath, dirs[k]), r.devices[k])
        {
          assert r.devices[k] == rest.devices[k - 1] && dirs[k] == dirs[1..][k - 1];
        }
      }
    }
  }

}
