/** The older hwmon reader (main.py): a device is a name and a dictionary
    from input-file names to the stripped text of their first line, and
    `read` walks the hwmon directories once, filing the readings of every
    `_input` file it can open. */
module LegacyHwmon {
  import opened PyBuiltins
  import opened SysFs
  import Hwmon
  import ObjectLists

  /** `HwmonDevice` as a value: its name and its readings. */
  datatype DeviceView = DeviceView(name: string, readings: map<string, string>)

  /** `add_sensor`: a name not present yet is filed with its value; a name
      already present keeps the value it has. */
  function Added(m: map<string, string>, name: string, value: string): (r: map<string, string>)
    ensures r.Keys == m.Keys + {name}
    ensures name !in m ==> r[name] == value
    ensures forall k :: k in m ==> r[k] == m[k]
  {
    if name in m then m else m[name := value]
  }

  /** Filing a name twice keeps the first value. */
  lemma AddedFirstWins(m: map<string, string>, name: string, v1: string, v2: string)
    ensures Added(Added(m, name, v1), name, v2) == Added(m, name, v1)
  {
  }

  /** What the sensor loop of `read` does with one directory entry. */
  datatype Step =
    | Stop             // `open` raises: `read` ends with the exception
    | Pass             // not an `_input` file, or its `readline` raised OSError
    | Filed(value: string)  // filed under the entry name with this value

  function EntryStep(fs: FileSystem, dir: string, e: string): (r: Step)
    ensures r.Stop? <==> IsFile(fs, Join(dir, e)) && Contains(e, "_input") && !CanOpen(fs, Join(dir, e))
    ensures r.Filed? <==> IsFile(fs, Join(dir, e)) && Contains(e, "_input") && ReadStripped(fs, Join(dir, e)).Some?
    ensures r.Filed? ==> r.value == ReadStripped(fs, Join(dir, e)).value
  {
    var p := Join(dir, e);
    if IsFile(fs, p) && Contains(e, "_input") then
      if !CanOpen(fs, p) then Stop
      else
        match fs[p].data
        case Content(line) => Filed(Strip(line))
        case _ => Pass
    else Pass
  }

  /** The readings a device holds after the sensor loop over `entries`,
      starting from `m`, and whether the loop ran to its end. */
  datatype Scan = Scan(readings: map<string, string>, ok: bool)

  function Readings(fs: FileSystem, dir: string, entries: seq<string>, m: map<string, string>): (r: Scan)
    ensures forall k :: k in m ==> k in r.readings && r.readings[k] == m[k]
    decreases |entries|
  {
    if entries == [] then Scan(m, true)
    else
      match EntryStep(fs, dir, entries[0])
      case Stop => Scan(m, false)
      case Pass => Readings(fs, dir, entries[1..], m)
      case Filed(v) => Readings(fs, dir, entries[1..], Added(m, entries[0], v))
  }

  /** The sensor loop files nothing but `_input` files of the directory, each
      under its own name with the stripped text of its first line, keeps
      what was filed before, stops exactly when some `_input` file cannot be
      opened, and, when it runs to its end, files every readable one. */
  lemma {:induction false} ReadingsSpec(fs: FileSystem, dir: string, entries: seq<string>, m: map<string, string>)
    ensures forall k :: k in m ==> k in Readings(fs, dir, entries, m).readings
    ensures forall k :: k in Readings(fs, dir, entries, m).readings ==>
      if k in m then Readings(fs, dir, entries, m).readings[k] == m[k]
      else k in entries && EntryStep(fs, dir, k) == Filed(Readings(fs, dir, entries, m).readings[k])
    ensures !Readings(fs, dir, entries, m).ok <==> exists e :: e in entries && EntryStep(fs, dir, e).Stop?
    ensures Readings(fs, dir, entries, m).ok ==>
      forall e :: e in entries && EntryStep(fs, dir, e).Filed? ==> e in Readings(fs, dir, entries, m).readings
    decreases |entries|
  {
    if entries != [] {
      var e := entries[0];
      var step := EntryStep(fs, dir, e);
      assert forall x :: x in entries <==> x == e || x in entries[1..];
      match step
      case Stop =>
      case Pass =>
        ReadingsSpec(fs, dir, entries[1..], m);
      case Filed(v) =>
        ReadingsSpec(fs, dir, entries[1..], Added(m, e, v));
    }
  }

  /** The devices a pass of `read` appends, and whether it ran to its end
      (an exception from `open` or `os.listdir` ends it). */
  datatype Found = Found(devices: seq<DeviceView>, ok: bool)

  /** The pass of `read` over one hwmon directory: the device is appended,
      named by its `name` file, before its readings are scanned. */
  function DiscoverDir(fs: FileSystem, subdir: string): (r: Found)
    ensures |r.devices| <= 1 && (r.ok ==> |r.devices| == 1)
  {
    var dir := Join(Hwmon.HwmonPath, subdir);
    match ReadStripped(fs, Join(dir, "name"))
    case None => Found([], false)
    case Some(name) =>
      match ListDir(fs, dir)
      case None => Found([DeviceView(name, map[])], false)
      case Some(entries) =>
        var scan := Readings(fs, dir, entries, map[]);
        Found([DeviceView(name, scan.readings)], scan.ok)
  }

  /** The directory loop of `read`, up to the first pass that raises. */
  function DiscoverDirs(fs: FileSystem, dirs: seq<string>): (r: Found)
    ensures |r.devices| <= |dirs|
    decreases |dirs|
  {
    if dirs == [] then Found([], true)
    else
      var first := DiscoverDir(fs, dirs[0]);
      if !first.ok then first
      else
        var rest := DiscoverDirs(fs, dirs[1..]);
        Found(first.devices + rest.devices, rest.ok)
  }

  /** `read`: the devices it appends to the registry. */
  function Discover(fs: FileSystem): (r: Found)
    ensures ListDir(fs, Hwmon.HwmonPath).None? ==> r.devices == [] && !r.ok
    ensures ListDir(fs, Hwmon.HwmonPath).Some? ==> |r.devices| <= |ListDir(fs, Hwmon.HwmonPath).value|
  {
    match ListDir(fs, Hwmon.HwmonPath)
    case None => Found([], false)
    case Some(dirs) => DiscoverDirs(fs, dirs)
  }

  /** What a device appended for directory `dir` is: named by the stripped
      first line of its `name` file, holding readings of its own `_input`
      files only. */
  predicate Appended(fs: FileSystem, dir: string, d: DeviceView) {
    ReadStripped(fs, Join(dir, "name")) == Some(d.name)
    && forall k :: k in d.readings ==> EntryStep(fs, dir, k) == Filed(d.readings[k])
  }

  /** A device whose directory pass ran to its end holds a reading for every
      readable `_input` file of its listing. */
  predicate Complete(fs: FileSystem, dir: string, d: DeviceView) {
    ListDir(fs, dir).Some?
    && forall e :: e in ListDir(fs, dir).value && EntryStep(fs, dir, e).Filed? ==> e in d.readings
  }

  /** A directory gives a device exactly when its `name` file can be read;
      the device is appended even when the scan of its entries raises. */
  lemma DiscoverDirSpec(fs: FileSystem, subdir: string)
    ensures var dir := Join(Hwmon.HwmonPath, subdir);
      && (|DiscoverDir(fs, subdir).devices| == 1 <==> ReadStripped(fs, Join(dir, "name")).Some?)
      && (forall d :: d in DiscoverDir(fs, subdir).devices ==> Appended(fs, dir, d))
      && (DiscoverDir(fs, subdir).ok ==> Complete(fs, dir, DiscoverDir(fs, subdir).devices[0]))
  {
    var dir := Join(Hwmon.HwmonPath, subdir);
    var entries := ListDir(fs, dir);
    if entries.Some? {
      ReadingsSpec(fs, dir, entries.value, map[]);
    }
  }

  /** `read` appends at most one device per hwmon directory, the `k`-th for
      the `k`-th directory of the listing; when it runs to its end, every
      directory has its device, holding every readable `_input` file. */
  lemma {:induction false} DiscoverDirsSpec(fs: FileSystem, dirs: seq<string>)
    ensures |DiscoverDirs(fs, dirs).devices| <= |dirs|
    ensures forall k :: 0 <= k < |DiscoverDirs(fs, dirs).devices| ==>
      Appended(fs, Join(Hwmon.HwmonPath, dirs[k]), DiscoverDirs(fs, dirs).devices[k])
    ensures DiscoverDirs(fs, dirs).ok ==>
      |DiscoverDirs(fs, dirs).devices| == |dirs|
      && forall k :: 0 <= k < |dirs| ==> Complete(fs, Join(Hwmon.HwmonPath, dirs[k]), DiscoverDirs(fs, dirs).devices[k])
    decreases |dirs|
  {
    if dirs != [] {
      var r := DiscoverDirs(fs, dirs);
      var first := DiscoverDir(fs, dirs[0]);
      DiscoverDirSpec(fs, dirs[0]);
      if |first.devices| == 1 {
        assert first.devices[0] in first.devices;
      }
      if first.ok {
        var rest := DiscoverDirs(fs, dirs[1..]);
        DiscoverDirsSpec(fs, dirs[1..]);
        forall k | 1 <= k < |r.devices|
          ensures r.devices[k] == rest.devices[k - 1] && dirs[k] == dirs[1..][k - 1]
        {
        }
      }
    }
  }

  /** A hwmon directory whose pass of `read` runs to the end: its `name`
      file reads, it can be listed, and no `_input` file of it fails to
      open. */
  predicate DirOk(fs: FileSystem, subdir: string) {
    var dir := Join(Hwmon.HwmonPath, subdir);
    ReadStripped(fs, Join(dir, "name")).Some? && ListDir(fs, dir).Some?
    && forall e :: e in ListDir(fs, dir).value ==> !EntryStep(fs, dir, e).Stop?
  }

  /** A directory pass runs to the end exactly when the directory is ok. */
  lemma DiscoverDirOk(fs: FileSystem, subdir: string)
    ensures DiscoverDir(fs, subdir).ok <==> DirOk(fs, subdir)
  {
    var dir := Join(Hwmon.HwmonPath, subdir);
    var entries := ListDir(fs, dir);
    if entries.Some? {
      ReadingsSpec(fs, dir, entries.value, map[]);
    }
  }

  /** The directory loop runs to the end exactly when every directory is
      ok. */
  lemma {:induction false} DiscoverDirsOk(fs: FileSystem, dirs: seq<string>)
    ensures DiscoverDirs(fs, dirs).ok <==> forall k :: 0 <= k < |dirs| ==> DirOk(fs, dirs[k])
    decreases |dirs|
  {
    if dirs != [] {
      DiscoverDirOk(fs, dirs[0]);
      DiscoverDirsOk(fs, dirs[1..]);
      assert forall k :: 0 < k < |dirs| ==> dirs[k] == dirs[1..][k - 1];
    }
  }

  /** `read` runs to the end exactly when the hwmon root can be listed and
      every directory in it is ok. */
  lemma DiscoverOk(fs: FileSystem)
    ensures Discover(fs).ok <==>
      ListDir(fs, Hwmon.HwmonPath).Some?
      && forall k :: 0 <= k < |ListDir(fs, Hwmon.HwmonPath).value| ==> DirOk(fs, ListDir(fs, Hwmon.HwmonPath).value[k])
  {
    var root := ListDir(fs, Hwmon.HwmonPath);
    if root.Some? {
      DiscoverDirsOk(fs, root.value);
    }
  }

  /** The directory loop of `read` from position `k` on is the pass for
      `dirs[k]` followed, unless it raises, by the loop from `k + 1` on. */
  lemma DiscoverDirsStep(fs: FileSystem, dirs: seq<string>, k: int)
    requires 0 <= k < |dirs|
    ensures DiscoverDirs(fs, dirs[k..]) ==
      if DiscoverDir(fs, dirs[k]).ok
      then Found(DiscoverDir(fs, dirs[k]).devices + DiscoverDirs(fs, dirs[k + 1..]).devices, DiscoverDirs(fs, dirs[k + 1..]).ok)
      else DiscoverDir(fs, dirs[k])
  {
    assert dirs[k..][0] == dirs[k] && dirs[k..][1..] == dirs[k + 1..];
  }

  // ---------------------------------------------------------------------
  // The objects

  /** `HwmonSensors.HwmonDevice` */
  class HwmonDevice {
    const name: string
    var readings: map<string, string>

    function View(): DeviceView
      reads this
    {
      DeviceView(name, readings)
    }

    /** `HwmonDevice.__init__`: a named device without readings. */
    constructor (name: string)
      ensures View() == DeviceView(name, map[])
    {
      this.name := name;
      readings := map[];
    }

    /** `HwmonDevice.add_sensor`: insert if absent. */
    method AddSensor(sensorName: string, value: string)
      modifies this
      ensures readings == Added(old(readings), sensorName, value)
    {
      if sensorName !in readings {
        readings := readings[sensorName := value];
      }
    }
  }

  /** The sensor loop of `read` over the entries of `dir`, filing into `dev`;
      `ok` is false where `open` raises. */
  method ReadReadings(dev: HwmonDevice, fs: FileSystem, dir: string, entries: seq<string>) returns (ok: bool)
    modifies dev
    ensures Scan(dev.readings, ok) == Readings(fs, dir, entries, old(dev.readings))
  {
    var k := 0;
    while k < |entries|
      invariant 0 <= k <= |entries|
      invariant Readings(fs, dir, entries, old(dev.readings)) == Readings(fs, dir, entries[k..], dev.readings)
    {
      assert entries[k..][0] == entries[k] && entries[k..][1..] == entries[k + 1..];
      var stop := ReadEntry(dev, fs, dir, entries[k]);
      if stop {
        return false;
      }
      k := k + 1;
    }
    ok := true;
  }

  /** The body of the sensor loop of `read` on the entry `e`. */
  method ReadEntry(dev: HwmonDevice, fs: FileSystem, dir: string, e: string) returns (stop: bool)
    modifies dev
    ensures stop == EntryStep(fs, dir, e).Stop?
    ensures dev.readings ==
      if EntryStep(fs, dir, e).Filed? then Added(old(dev.readings), e, EntryStep(fs, dir, e).value)
      else old(dev.readings)
  {
    var path := Join(dir, e);
    if IsFile(fs, path) && Contains(e, "_input") {
      if !CanOpen(fs, path) {
        return true;
      }
      var line := ReadStripped(fs, path);
      if line.Some? {
        dev.AddSensor(e, line.value);
      }
    }
    stop := false;
  }

  /** `HwmonSensors`: the devices `read` found. */
  class HwmonSensors {
    var devices: seq<HwmonDevice>

    ghost function Views(): (r: seq<DeviceView>)
      reads this, set d | d in devices
      ensures |r| == |devices| && forall k {:trigger r[k]} :: 0 <= k < |devices| ==> r[k] == devices[k].View()
    {
      seq(|devices|, k reads this, set d | d in devices requires 0 <= k < |devices| => devices[k].View())
    }

    /** `HwmonSensors.__init__`: a new registry has no devices. */
    constructor ()
      ensures devices == []
    {
      devices := [];
    }

    /** `HwmonSensors.read`: the devices found are appended after those
        already there; `ok` is false where an exception ends it. */
    method Read(fs: FileSystem) returns (ok: bool)
      modifies this
      ensures Views() == old(Views()) + Discover(fs).devices
      ensures ok == Discover(fs).ok
    {
      ghost var start := Views();
      var listing := ListDir(fs, Hwmon.HwmonPath);
      if listing.None? {
        assert Views() == start + [];
        return false;
      }
      var dirs := listing.value;
      ghost var added: seq<DeviceView> := [];
      var k := 0;
      while k < |dirs|
        invariant 0 <= k <= |dirs|
        invariant Views() == start + added
        invariant DiscoverDirs(fs, dirs) ==
          Found(added + DiscoverDirs(fs, dirs[k..]).devices, DiscoverDirs(fs, dirs[k..]).ok)
      {
        ghost var first := DiscoverDir(fs, dirs[k]);
        ghost var rest := DiscoverDirs(fs, dirs[k + 1..]);
        DiscoverDirsStep(fs, dirs, k);
        var dirOk := ReadDir(fs, dirs[k]);
        ObjectLists.Reassoc(start, added, first.devices);
        if dirOk {
          ObjectLists.Reassoc(added, first.devices, rest.devices);
        }
        added := added + first.devices;
        if !dirOk {
          return false;
        }
        k := k + 1;
      }
      ok := true;
    }

    /** The body of the directory loop of `read` for `subdir`. */
    method ReadDir(fs: FileSystem, subdir: string) returns (ok: bool)
      modifies this
      ensures Views() == old(Views()) + DiscoverDir(fs, subdir).devices
      ensures ok == DiscoverDir(fs, subdir).ok
    {
      var dir := Join(Hwmon.HwmonPath, subdir);
      var name := ReadStripped(fs, Join(dir, "name"));
      if name.None? {
        assert Views() == old(Views()) + [];
        return false;
      }
      var dev := new HwmonDevice(name.value);
      devices := devices + [dev];
      var entries := ListDir(fs, dir);
      if entries.None? {
        assert Views() == old(Views()) + [dev.View()];
        return false;
      }
      ok := ReadReadings(dev, fs, dir, entries.value);
      assert Views() == old(Views()) + [dev.View()];
    }
  }
}
