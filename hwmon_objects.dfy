/** The hwmon classes of src/hwmon_source.py, with the state the source keeps
    in their fields. Every method is proved to do what the matching function
    of module `Hwmon` says, on the views of the objects it changes. */
module HwmonObjects {
  import opened PyBuiltins
  import opened SysFs
  import opened SensorsTree
  import opened Hwmon
  import opened ObjectLists

  /** `HwmonSensors.HwmonDevice.HwmonSensor` */
  class HwmonSensor {
    const labelText: string
    const fsName: string
    const rawLabel: string
    const path: string
    /** The device whose list holds this sensor. */
    ghost const owner: HwmonDevice
    var value: Value
    var lo: Value
    var hi: Value

    function View(): SensorView
      reads this
    {
      SensorView(labelText, fsName, rawLabel, path, Readout(value, lo, hi))
    }

    /** `Sensor.__init__` with the `internal_data` `read` builds. */
    constructor (labelText: string, fsName: string, path: string, ghost owner: HwmonDevice)
      ensures View() == NewSensor(labelText, fsName, path) && this.owner == owner
    {
      this.labelText := Strip(labelText);
      this.fsName := fsName;
      this.rawLabel := labelText;
      this.path := path;
      this.owner := owner;
      value := Int(0);
      lo := Int(MaxSize);
      hi := Int(-MaxSize - 1);
    }

    /** `update_value`: the exception it raises, if any, is returned. */
    method UpdateValue(fs: FileSystem) returns (failure: Option<Failure>)
      modifies this
      ensures Step(View(), failure) == Reread(old(View()), fs)
    {
      var line := ReadStripped(fs, path);
      if line.None? {
        return Some(OSError);
      }
      value := Str(line.value);
      if IsDecimal(line.value) {
        var n := ParseDecimal(line.value);
        value := Int(n);
        if lo.Str? {
          return Some(TypeError);
        }
        lo := Int(if n <= lo.n then n else lo.n);
        if hi.Str? {
          return Some(TypeError);
        }
        hi := Int(if n >= hi.n then n else hi.n);
      } else {
        lo := NA;
        hi := NA;
      }
      failure := None;
    }
  }

  /** The views of a list of sensors. */
  function SensorViews(ss: seq<HwmonSensor>): (r: seq<SensorView>)
    reads ss
    ensures |r| == |ss| && forall k {:trigger r[k]} :: 0 <= k < |ss| ==> r[k] == ss[k].View()
  {
    seq(|ss|, k requires 0 <= k < |ss| reads ss => ss[k].View())
  }

  /** `HwmonSensors.HwmonDevice` */
  class HwmonDevice {
    const name: string
    var sensors: seq<HwmonSensor>
    var faulty: bool

    /** The sensors are distinct objects, all owned by this device. */
    ghost predicate Valid()
      reads this
    {
      (forall s :: s in sensors ==> s.owner == this) && Unique(sensors)
    }

    function View(): DeviceView
      reads this, sensors
    {
      DeviceView(name, faulty, SensorViews(sensors))
    }

    /** `Device.__init__`: a new device is not faulty and has no sensors. */
    constructor (name: string)
      ensures Valid() && this.name == name && sensors == [] && !faulty
    {
      this.name := name;
      sensors := [];
      faulty := false;
    }

    /** `update_sensors`: reads the sensors in order, and at the first
        exception marks the device faulty and stops. */
    method UpdateSensors(fs: FileSystem)
      requires Valid()
      modifies this`faulty, sensors
      ensures View() == DeviceStep(old(View()), fs)
    {
      var failed := ReadSensors(sensors, fs);
      if failed {
        faulty := true;
      }
    }
  }

  /** The loop of `update_sensors` over a list of distinct sensors: reads
      them in order and stops at the first exception, which it reports. */
  method ReadSensors(ss: seq<HwmonSensor>, fs: FileSystem) returns (failed: bool)
    requires Unique(ss)
    modifies set s | s in ss
    ensures Sweep(SensorViews(ss), failed) == SensorsStep(old(SensorViews(ss)), fs)
  {
    ghost var start := SensorViews(ss);
    failed := false;
    var i := 0;
    while i < |ss|
      invariant 0 <= i <= |ss| && !failed
      invariant i <= FirstFailure(start, fs)
      invariant forall k :: 0 <= k < i ==> ss[k].View() == Reread(start[k], fs).sensor
      invariant forall k :: i <= k < |ss| ==> ss[k].View() == start[k]
    {
      failed := ReadAt(ss, i, fs, start);
      if failed {
        break;
      }
      i := i + 1;
    }
    SensorsStepFails(start, fs);
    SweepResult(start, fs, SensorViews(ss));
  }

  /** One pass of the loop of `update_sensors`: reads the sensor at `i`, all
      sensors before it having been read without exception; `failed` where
      this read raises. */
  method ReadAt(ss: seq<HwmonSensor>, i: int, fs: FileSystem, ghost start: seq<SensorView>) returns (failed: bool)
    requires Unique(ss) && 0 <= i < |ss| == |start| && i <= FirstFailure(start, fs)
    requires forall k :: 0 <= k < i ==> ss[k].View() == Reread(start[k], fs).sensor
    requires forall k :: i <= k < |ss| ==> ss[k].View() == start[k]
    modifies ss[i]
    ensures failed <==> FirstFailure(start, fs) == i
    ensures forall k :: 0 <= k <= i ==> ss[k].View() == Reread(start[k], fs).sensor
    ensures forall k :: i < k < |ss| ==> ss[k].View() == start[k]
  {
    forall k | 0 <= k < |ss| && k != i
      ensures ss[k] != ss[i]
    {
      UniqueAt(ss, k, i);
    }
    var failure := ss[i].UpdateValue(fs);
    failed := failure.Some?;
  }

  /** The sensors left by a sweep that read them up to the first failure. */
  lemma SweepResult(start: seq<SensorView>, fs: FileSystem, now: seq<SensorView>)
    requires |now| == |start|
    requires forall k :: 0 <= k < |now| && k <= FirstFailure(start, fs) ==> now[k] == Reread(start[k], fs).sensor
    requires forall k :: FirstFailure(start, fs) < k < |now| ==> now[k] == start[k]
    ensures now == SensorsStep(start, fs).sensors
  {
    forall k | 0 <= k < |now|
      ensures now[k] == SensorsStep(start, fs).sensors[k]
    {
      SensorsStepFailFast(start, fs, k);
    }
  }

  /** `HwmonSensors`: the registry of hwmon devices. */
  class HwmonSensors {
    var devices: seq<HwmonDevice>
    ghost var Repr: set<object>

    ghost predicate Valid()
      reads this, Repr
    {
      this in Repr
      && (forall k :: 0 <= k < |devices| ==>
            devices[k] in Repr && devices[k].Valid() && forall s :: s in devices[k].sensors ==> s in Repr)
      && Unique(devices)
    }

    /** The devices as values, in list order. */
    ghost function Views(): (r: seq<DeviceView>)
      requires Valid()
      reads this, Repr
      ensures |r| == |devices| && forall k {:trigger r[k]} :: 0 <= k < |devices| ==> r[k] == devices[k].View()
    {
      seq(|devices|, k requires 0 <= k < |devices| && Valid() reads this, Repr => devices[k].View())
    }

    /** `SensorsTree.__init__`: a new registry has no devices. */
    constructor ()
      ensures Valid() && fresh(Repr) && devices == []
    {
      devices := [];
      Repr := {this};
    }

    /** `SensorsTree.update_sensors`: a `for` loop over `devices` that updates
        the healthy devices and removes the faulty ones from the list it is
        iterating over. `i` is the list iterator's index: after a removal the
        device that slides into the freed place is passed over. */
    method UpdateSensors(fs: FileSystem)
      requires Valid()
      modifies Repr
      ensures Valid() && Repr == old(Repr)
      ensures Views() == PassStep(old(Views()), fs)
    {
      // `done` is what the devices already passed over left at the front of
      // the list, `rest` the untouched devices from the iterator position on.
      ghost var done: seq<DeviceView> := [];
      ghost var rest := Views();
      var i := 0;
      while i < |devices|
        invariant Valid() && Repr == old(Repr)
        invariant Views() == done + rest
        invariant i == |done| || (i == |done| + 1 && rest == [])
        invariant done + PassStep(rest, fs) == PassStep(old(Views()), fs)
        decreases |rest|
      {
        done, rest := VisitAt(i, fs, done, rest);
        i := i + 1;
      }
    }

    /** The body of the `for` loop of `update_sensors` on the device the
        iterator stands on, at index `i`: a faulty device is removed, a
        healthy one updated. */
    method VisitAt(i: int, fs: FileSystem, ghost done: seq<DeviceView>, ghost rest: seq<DeviceView>)
      returns (ghost done': seq<DeviceView>, ghost rest': seq<DeviceView>)
      requires Valid() && Views() == done + rest && i == |done| < |devices|
      modifies Repr
      ensures Valid() && Repr == old(Repr)
      ensures Views() == done' + rest' && |rest'| < |rest|
      ensures i + 1 == |done'| || (i + 1 == |done'| + 1 && rest' == [])
      ensures done' + PassStep(rest', fs) == done + PassStep(rest, fs)
    {
      var d := devices[i];
      ghost var before := Views();
      Uncons(before, done, rest);
      PassStepFront(rest, fs);
      if !d.faulty {
        ghost var u := DeviceStep(rest[0], fs);
        VisitDevice(i, fs);
        ReplaceFront(before, done, rest[1..], rest[0], u);
        Reassoc(done, [u], PassStep(rest[1..], fs));
        done', rest' := done + [u], rest[1..];
      } else {
        RemoveDevice(i);
        RemoveFront(before, done, rest[1..], rest[0]);
        if |rest| > 1 {
          Uncons(Views(), done, rest[1..]);
          Reassoc(done, [rest[1]], PassStep(rest[2..], fs));
          done', rest' := done + [rest[1]], rest[2..];
        } else {
          done', rest' := done, [];
        }
      }
    }

    /** `device.update_sensors()` on the device at position `i` of the list:
        that device is refreshed and every other one is left as it was. */
    method VisitDevice(i: int, fs: FileSystem)
      requires Valid() && 0 <= i < |devices|
      modifies Repr
      ensures Valid() && Repr == old(Repr) && devices == old(devices)
      ensures Views() == old(Views())[i := DeviceStep(old(Views())[i], fs)]
    {
      var d := devices[i];
      ghost var before := Views();
      d.UpdateSensors(fs);
      forall k | 0 <= k < |devices| && k != i
        ensures devices[k].View() == before[k]
      {
        var e := devices[k];
        UniqueAt(devices, k, i);
        assert old(e.Valid()) && old(d.Valid()) && e.sensors == old(e.sensors);
        forall m | 0 <= m < |e.sensors|
          ensures e.sensors[m].View() == old(e.sensors[m].View())
        {
          var s := e.sensors[m];
          assert s in e.sensors && s.owner == e;
          assert s !in old(d.sensors);
        }
        assert SensorViews(e.sensors) == old(SensorViews(e.sensors));
        assert before[k] == old(e.View());
      }
    }

    /** `self.devices.remove(device)` for the device at position `i`: the
        devices are distinct objects, so the first one equal to it is the one
        at `i`. */
    method RemoveDevice(i: int)
      requires Valid() && 0 <= i < |devices|
      modifies this
      ensures Valid() && Repr == old(Repr)
      ensures devices == old(devices[..i] + devices[i + 1..])
      ensures Views() == old(Views()[..i] + Views()[i + 1..])
    {
      ghost var before := Views();
      UniqueRemove(devices, i);
      devices := devices[..i] + devices[i + 1..];
      assert forall k | 0 <= k < |devices| :: Views()[k] == (before[..i] + before[i + 1..])[k];
    }

    /** `SensorsTree.get_tree_widget`: the device rows it adds to the tree. */
    method GetTreeWidget() returns (rows: seq<DeviceRow<SensorRow>>)
      requires Valid()
      ensures rows == Tree(Views())
    {
      ghost var all := Views();
      rows := [];
      var k := 0;
      while k < |devices|
        invariant 0 <= k <= |devices| == |all|
        invariant rows == Tree(all[..k])
      {
        assert all[..k + 1] == all[..k] + [all[k]];
        TreeSnoc(all[..k], all[k]);
        var more := DeviceItem(devices[k]);
        rows := rows + more;
        k := k + 1;
      }
      assert all[..k] == all;
    }

    /** `HwmonSensors.read`: appends a device per hwmon directory and probes
        its sensors. `ok` is false where `read` raises, which leaves the
        devices appended so far in the list. */
    method Read(fs: FileSystem) returns (ok: bool)
      requires Valid()
      modifies this
      ensures Valid() && fresh(Repr - old(Repr))
      ensures Views() == old(Views()) + Discover(fs).devices
      ensures ok == Discover(fs).ok
    {
      ghost var start := Views();
      var listing := ListDir(fs, HwmonPath);
      if listing.None? {
        assert Views() == start + [];
        return false;
      }
      var dirs := listing.value;
      ghost var added: seq<DeviceView> := [];
      var k := 0;
      while k < |dirs|
        invariant 0 <= k <= |dirs|
        invariant Valid() && fresh(Repr - old(Repr))
        invariant Views() == start + added
        invariant DiscoverDirs(fs, dirs) ==
          Found(added + DiscoverDirs(fs, dirs[k..]).devices, DiscoverDirs(fs, dirs[k..]).ok)
      {
        ghost var first := DiscoverDir(fs, dirs[k]);
        ghost var rest := DiscoverDirs(fs, dirs[k + 1..]);
        DiscoverDirsStep(fs, dirs, k);
        var dirOk := ReadDir(fs, dirs[k]);
        Reassoc(start, added, first.devices);
        if dirOk {
          Reassoc(added, first.devices, rest.devices);
        }
        added := added + first.devices;
        if !dirOk {
          return false;
        }
        k := k + 1;
      }
      ok := true;
    }

    /** The body of the directory loop of `read` for the hwmon directory
        `subdir`; `ok` is false where it raises. */
    method ReadDir(fs: FileSystem, subdir: string) returns (ok: bool)
      requires Valid()
      modifies this
      ensures Valid() && fresh(Repr - old(Repr))
      ensures Views() == old(Views()) + DiscoverDir(fs, subdir).devices
      ensures ok == DiscoverDir(fs, subdir).ok
    {
      var dir := Join(HwmonPath, subdir);
      var name := ReadStripped(fs, Join(dir, "name"));
      if name.None? {
        assert Views() == old(Views()) + [];
        return false;
      }
      var dev := new HwmonDevice(name.value);
      AppendDevice(dev);
      var entries := ListDir(fs, dir);
      if entries.None? {
        assert dev.View() == DeviceView(name.value, false, []);
        return false;
      }
      ok := ProbeLast(dev, fs, dir, entries.value);
    }

    /** `self.devices.append(device)` for a new device without sensors. */
    method AppendDevice(dev: HwmonDevice)
      requires Valid() && dev.Valid() && dev.sensors == [] && dev !in Repr
      modifies this
      ensures Valid() && Repr == old(Repr) + {dev}
      ensures devices == old(devices) + [dev]
      ensures Views() == old(Views()) + [dev.View()]
    {
      ghost var before := Views();
      UniqueSnoc(devices, dev);
      devices := devices + [dev];
      Repr := Repr + {dev};
      assert forall k | 0 <= k < |before| :: Views()[k] == before[k];
    }

    /** The sensor loop of `read` on the device appended last, with the new
        sensors joining the registry's footprint. */
    method ProbeLast(dev: HwmonDevice, fs: FileSystem, dir: string, entries: seq<string>) returns (ok: bool)
      requires Valid() && |devices| > 0 && devices[|devices| - 1] == dev && dev.sensors == []
      modifies this, dev`sensors
      ensures Valid() && fresh(Repr - old(Repr)) && devices == old(devices)
      ensures Views() == old(Views())[|devices| - 1 := old(Views())[|devices| - 1].(sensors := Probe(fs, dir, entries).sensors)]
      ensures ok == !Probe(fs, dir, entries).failed
    {
      ghost var before := Views();
      var n := |devices| - 1;
      ok := ProbeInto(dev, fs, dir, entries);
      Repr := Repr + set s | s in dev.sensors :: s;
      forall k | 0 <= k < n
        ensures devices[k] != dev
      {
        UniqueAt(devices, k, n);
      }
      assert dev.View() == before[n].(sensors := Probe(fs, dir, entries).sensors);
    }
  }

  /** The directory loop of `read` from position `k` on is the pass for
      `dirs[k]` followed, unless it raises, by the loop from `k + 1` on. */
  lemma DiscoverDirsStep(fs: FileSystem, dirs: seq<string>, k: int)
    requires 0 <= k < |dirs|
    ensures DiscoverDirs(fs, dirs[k..]) ==
      if !DiscoverDir(fs, dirs[k]).ok then DiscoverDir(fs, dirs[k])
      else Found(DiscoverDir(fs, dirs[k]).devices + DiscoverDirs(fs, dirs[k + 1..]).devices,
                 DiscoverDirs(fs, dirs[k + 1..]).ok)
  {
    assert dirs[k..][0] == dirs[k] && dirs[k..][1..] == dirs[k + 1..];
  }

  /** The body of the device loop of `get_tree_widget`: the row of `d`, if
      it is shown. */
  method DeviceItem(d: HwmonDevice) returns (more: seq<DeviceRow<SensorRow>>)
    ensures more ==
      if !d.View().faulty && ChildRows(d.View().sensors) != [] then [DeviceRow(d.name, ChildRows(d.View().sensors))] else []
  {
    more := [];
    if !d.faulty {
      var children := ChildItems(d.sensors);
      if |children| != 0 {
        more := [DeviceRow(d.name, children)];
      }
    }
  }

  /** The inner loop of `get_tree_widget`: the rows of the sensors that
      have one, in order. */
  method ChildItems(sensors: seq<HwmonSensor>) returns (children: seq<SensorRow>)
    ensures children == ChildRows(SensorViews(sensors))
  {
    ghost var ss := SensorViews(sensors);
    children := [];
    var m := 0;
    while m < |sensors|
      invariant 0 <= m <= |sensors|
      invariant children == ChildRows(ss[..m])
    {
      var item := TreeItem(sensors[m].View());
      assert ss[..m + 1][..m] == ss[..m];
      if item.Some? {
        children := children + [item.value];
      }
      m := m + 1;
    }
    assert ss[..m] == ss;
  }

  /** One directory entry of the sensor loop of `read`: `abort` where the
      loop raises, otherwise the new sensor, or `null` where the entry is
      skipped. */
  method ProbeOne(fs: FileSystem, dir: string, e: string, ghost dev: HwmonDevice) returns (abort: bool, s: HwmonSensor?)
    ensures abort <==> ProbeEntry(fs, dir, e).Abort?
    ensures s != null <==> ProbeEntry(fs, dir, e).Add?
    ensures s != null ==> fresh(s) && s.owner == dev && s.View() == ProbeEntry(fs, dir, e).sensor
  {
    var prefix := Before(e, "_");
    var labelPath := Join(dir, prefix + "_label");
    var labelText := prefix;
    if Exists(fs, labelPath) {
      var line := ReadStripped(fs, labelPath);
      if line.None? {
        return true, null;
      }
      labelText := line.value;
    }
    var path := Join(dir, e);
    if IsFile(fs, path) && Contains(e, "_input") {
      if !CanOpen(fs, path) {
        return true, null;
      }
      var h := new HwmonSensor(labelText, e, path, dev);
      var failure := h.UpdateValue(fs);
      if failure == Some(TypeError) {
        return true, null;
      }
      if failure.None? {
        return false, h;
      }
    }
    return false, null;
  }

  /** One pass of the sensor loop of `read`, on the entry `e` that heads the
      entries `rest` still to come: the sensor it yields, if any, is appended
      to the device, and `abort` says that the loop raises here. */
  method ProbeStep(dev: HwmonDevice, fs: FileSystem, dir: string, e: string,
                   ghost rest: seq<string>, ghost found: seq<SensorView>)
    returns (abort: bool, ghost found': seq<SensorView>)
    requires dev.Valid() && rest != [] && e == rest[0]
    requires |dev.sensors| == |found| && forall i :: 0 <= i < |found| ==> dev.sensors[i].View() == found[i]
    modifies dev`sensors
    ensures dev.Valid() && forall s :: s in dev.sensors ==> s in old(dev.sensors) || fresh(s)
    ensures |dev.sensors| == |found'| && forall i :: 0 <= i < |found'| ==> dev.sensors[i].View() == found'[i]
    ensures abort ==> found' == found && Probe(fs, dir, rest) == Sweep([], true)
    ensures !abort ==>
      Sweep(found + Probe(fs, dir, rest).sensors, Probe(fs, dir, rest).failed) ==
      Sweep(found' + Probe(fs, dir, rest[1..]).sensors, Probe(fs, dir, rest[1..]).failed)
  {
    var s;
    abort, s := ProbeOne(fs, dir, e, dev);
    found' := found;
    if !abort && s != null {
      UniqueSnoc<HwmonSensor>(dev.sensors, s);
      dev.sensors := dev.sensors + [s];
      found' := found + [s.View()];
      assert found + ([s.View()] + Probe(fs, dir, rest[1..]).sensors) == found' + Probe(fs, dir, rest[1..]).sensors;
    }
  }

  /** The sensor loop of `read` for one device directory listed as `entries`,
      appending to the device's sensor list. `ok` is false where the loop
      raises. */
  method ProbeInto(dev: HwmonDevice, fs: FileSystem, dir: string, entries: seq<string>) returns (ok: bool)
    requires dev.Valid() && dev.sensors == []
    modifies dev`sensors
    ensures dev.Valid() && forall s :: s in dev.sensors ==> fresh(s)
    ensures SensorViews(dev.sensors) == Probe(fs, dir, entries).sensors
    ensures ok == !Probe(fs, dir, entries).failed
  {
    ghost var found: seq<SensorView> := [];
    // `seen` are the entries looked at so far, `rest` the ones still to come.
    ghost var seen: seq<string> := [];
    ghost var rest := entries;
    var k := 0;
    while k < |entries|
      invariant k == |seen| && entries == seen + rest
      invariant dev.Valid() && forall s :: s in dev.sensors ==> fresh(s)
      invariant |dev.sensors| == |found| && forall i :: 0 <= i < |found| ==> dev.sensors[i].View() == found[i]
      invariant Probe(fs, dir, entries) ==
        Sweep(found + Probe(fs, dir, rest).sensors, Probe(fs, dir, rest).failed)
    {
      Uncons(entries, seen, rest);
      var abort;
      abort, found := ProbeStep(dev, fs, dir, entries[k], rest, found);
      if abort {
        assert SensorViews(dev.sensors) == found;
        return false;
      }
      seen := seen + [rest[0]];
      rest := rest[1..];
      k := k + 1;
    }
    assert SensorViews(dev.sensors) == found;
    ok := true;
  }
}
