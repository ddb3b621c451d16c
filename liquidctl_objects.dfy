/** The liquidctl classes of src/liquidctl_source.py, with the state the
    source keeps in their fields. Every method is proved to do what the
    matching function of module `Liquidctl` says, on the views of the
    objects it changes. */
module LiquidctlObjects {
  import opened PyBuiltins
  import opened SensorsTree
  import opened Liquidctl
  import opened ObjectLists

  /** `LiquidctlSensors.LiquidctlDevice.LiquidctlSensor` */
  class LiquidctlSensor {
    const labelText: string
    /** `internal_data["unit"]` */
    const unit: string
    /** The device whose list holds this sensor. */
    ghost const owner: LiquidctlDevice
    var value: Value
    var lo: Value
    var hi: Value
    /** `_values_over_time` */
    var history: map<int, int>

    function View(): SensorView
      reads this
    {
      SensorView(labelText, unit, Readout(value, lo, hi), history)
    }

    /** `Sensor.__init__` for the status key `key` and the unit its entry gave. */
    constructor (key: string, unit: string, ghost owner: LiquidctlDevice)
      ensures View() == NewSensor(key, unit) && this.owner == owner
    {
      labelText := Strip(key);
      this.unit := unit;
      this.owner := owner;
      value := Int(0);
      lo := Int(MaxSize);
      hi := Int(-MaxSize - 1);
      history := map[];
    }

    /** `update_value(v)` at timestamp `now`: `raised` where the TypeError of
        comparing a number with "N/A" escapes. */
    method UpdateValue(v: Reading, now: int) returns (raised: bool)
      modifies this
      ensures Update(View(), raised) == Liquidctl.UpdateValue(old(View()), v, now)
    {
      if v.Number? {
        value := Int(v.n);
        if lo.Str? {
          return true;
        }
        lo := Int(if v.n <= lo.n then v.n else lo.n);
        if hi.Str? {
          return true;
        }
        hi := Int(if v.n >= hi.n then v.n else hi.n);
        history := history[now := v.n];
      } else {
        lo := NA;
        hi := NA;
        history := history[now := 0];
      }
      raised := false;
    }
  }

  /** `LiquidctlSensor(key, {"unit": unit}, ...)` followed by
      `update_value(value)`. */
  method NewUpdated(e: Status, now: int, ghost owner: LiquidctlDevice) returns (s: LiquidctlSensor, raised: bool)
    ensures fresh(s) && s.owner == owner
    ensures Update(s.View(), raised) == Liquidctl.UpdateValue(NewSensor(e.key, e.unit), e.value, now)
  {
    s := new LiquidctlSensor(e.key, e.unit, owner);
    raised := s.UpdateValue(e.value, now);
  }

  /** The views of a list of sensors. */
  function SensorViews(ss: seq<LiquidctlSensor>): (r: seq<SensorView>)
    reads ss
    ensures |r| == |ss| && forall k {:trigger r[k]} :: 0 <= k < |ss| ==> r[k] == ss[k].View()
  {
    seq(|ss|, k requires 0 <= k < |ss| reads ss => ss[k].View())
  }

  /** `LiquidctlSensors.LiquidctlDevice` */
  class LiquidctlDevice {
    const name: string
    var sensors: seq<LiquidctlSensor>
    /** `_sensor_map` */
    var sensorMap: map<string, LiquidctlSensor>
    var faulty: bool
    /** The keys of `sensorMap` in the order they were filed. */
    ghost var keys: seq<string>

    /** `sensorMap` files each sensor of the list under its own key, no key
        twice, and the sensors are distinct objects owned by this device. */
    ghost predicate Valid()
      reads this
    {
      |keys| == |sensors| && Distinct(keys)
      && (forall k :: k in sensorMap <==> k in keys)
      && (forall i :: 0 <= i < |keys| ==> sensorMap[keys[i]] == sensors[i])
      && (forall s :: s in sensors ==> s.owner == this)
      && Unique(sensors)
    }

    ghost function View(): DeviceView
      reads this, sensors
    {
      DeviceView(name, faulty, keys, SensorViews(sensors))
    }

    /** `LiquidctlDevice.__init__`: not faulty, no sensors, an empty map. */
    constructor (name: string)
      ensures Valid() && View() == NewDevice(name) && sensors == []
    {
      this.name := name;
      sensors := [];
      sensorMap := map[];
      faulty := false;
      keys := [];
    }

    /** `update_sensors`, given what `get_status()` returns (`None` where it
        raises): the status loop, and `faulty = True` at any exception. */
    method UpdateSensors(status: Option<seq<Status>>, now: int)
      requires Valid()
      modifies this, set s | s in sensors
      ensures Valid() && forall s :: s in sensors ==> s in old(sensors) || fresh(s)
      ensures View() == DeviceStep(old(View()), status, now)
    {
      if status.None? {
        faulty := true;
        return;
      }
      var raised := UpsertAll(status.value, now);
      if raised {
        faulty := true;
      }
    }

    /** The `for` loop over the status entries `es`, which stops at the
        first update that raises; `raised` says whether one did. */
    method UpsertAll(es: seq<Status>, now: int) returns (raised: bool)
      requires Valid()
      modifies this, set s | s in sensors
      ensures Valid() && forall s :: s in sensors ==> s in old(sensors) || fresh(s)
      ensures Pass(View(), raised) == Upserts(old(View()), es, now)
    {
      ghost var start := View();
      // `seen` are the entries handled so far, `rest` the ones still to come.
      ghost var seen: seq<Status> := [];
      ghost var rest := es;
      raised := false;
      var k := 0;
      while k < |es|
        invariant k == |seen| && es == seen + rest && !raised
        invariant Valid() && forall s :: s in sensors ==> s in old(sensors) || fresh(s)
        invariant |View().keys| == |View().sensors|
        invariant Upserts(start, es, now) == Upserts(View(), rest, now)
      {
        Uncons(es, seen, rest);
        raised := UpsertEntry(es[k], now);
        if raised {
          break;
        }
        seen := seen + [rest[0]];
        rest := rest[1..];
        k := k + 1;
      }
    }

    /** The body of the status loop for the entry `e`: the sensor filed
        under its key is updated, or a new one is created, updated and
        filed; `raised` where its update raises. */
    method UpsertEntry(e: Status, now: int) returns (raised: bool)
      requires Valid()
      modifies this, set s | s in sensors
      ensures Valid() && forall s :: s in sensors ==> s in old(sensors) || fresh(s)
      ensures Pass(View(), raised) == Upsert(old(View()), e, now)
    {
      if e.key in sensorMap {
        raised := UpdateFiled(e, now);
      } else {
        raised := FileNew(e, now);
      }
    }

    /** `self._sensor_map[key].update_value(value)` for a key already filed. */
    method UpdateFiled(e: Status, now: int) returns (raised: bool)
      requires Valid() && e.key in sensorMap
      modifies sensorMap[e.key]
      ensures Valid() && sensors == old(sensors)
      ensures Pass(View(), raised) == Upsert(old(View()), e, now)
    {
      ghost var before := View();
      var s := sensorMap[e.key];
      ghost var i := IndexOf(keys, e.key);
      forall j | 0 <= j < |sensors| && j != i
        ensures sensors[j] != s
      {
        UniqueAt(sensors, j, i);
      }
      raised := s.UpdateValue(e.value, now);
      assert SensorViews(sensors) == before.sensors[i := s.View()];
    }

    /** A new sensor for an unseen key, updated, then filed under the key in
        `_sensor_map` and appended to `sensors`. */
    method FileNew(e: Status, now: int) returns (raised: bool)
      requires Valid() && e.key !in sensorMap
      modifies this
      ensures Valid() && |sensors| == |old(sensors)| + 1 && sensors[..|old(sensors)|] == old(sensors)
      ensures fresh(sensors[|old(sensors)|])
      ensures Pass(View(), raised) == Upsert(old(View()), e, now)
    {
      ghost var before := SensorViews(sensors);
      var s;
      s, raised := NewUpdated(e, now, this);
      UniqueSnoc<LiquidctlSensor>(sensors, s);
      DistinctSnoc(keys, e.key);
      sensorMap := sensorMap[e.key := s];
      sensors := sensors + [s];
      keys := keys + [e.key];
      assert SensorViews(sensors) == before + [s.View()];
    }
  }

  /** `LiquidctlDevice(dev.description, dev)` followed by `update_sensors()`. */
  method NewRefreshed(h: Handle, now: int) returns (dev: LiquidctlDevice)
    ensures fresh(dev) && dev.Valid() && dev.View() == Adopted(h, now)
    ensures forall s :: s in dev.sensors ==> fresh(s)
  {
    dev := new LiquidctlDevice(h.description);
    dev.UpdateSensors(h.status, now);
  }

  /** `LiquidctlSensors`: the registry of liquidctl devices. */
  class LiquidctlSensors {
    var devices: seq<LiquidctlDevice>
    ghost var Repr: set<object>

    ghost predicate Valid()
      reads this, Repr
    {
      this in Repr
      && (forall k :: 0 <= k < |devices| ==>
            devices[k] in Repr && devices[k].Valid() && forall s :: s in devices[k].sensors ==> s in Repr)
      && Unique(devices)
    }

    /** The devices as values, in list order. */
    ghost function Views(): (r: seq<DeviceView>)
      requires Valid()
      reads this, Repr
      ensures |r| == |devices| && forall k {:trigger r[k]} :: 0 <= k < |devices| ==> r[k] == devices[k].View()
    {
      seq(|devices|, k requires 0 <= k < |devices| && Valid() reads this, Repr => devices[k].View())
    }

    /** `SensorsTree.__init__`: a new registry has no devices. */
    constructor ()
      ensures Valid() && fresh(Repr) && devices == []
    {
      devices := [];
      Repr := {this};
    }

    /** `LiquidctlSensors.read` over the handles `find_liquidctl_devices()`
        yields: `ok` is false where `connect` or `initialize` raises, which
        leaves the devices appended so far in the list. */
    method Read(hs: seq<Handle>, now: int) returns (ok: bool)
      requires Valid()
      modifies this
      ensures Valid() && fresh(Repr - old(Repr))
      ensures Views() == old(Views()) + Discover(hs, now).devices
      ensures ok == Discover(hs, now).ok
    {
      ghost var start := Views();
      ghost var added: seq<DeviceView> := [];
      // `seen` are the handles looked at so far, `rest` the ones still to come.
      ghost var seen: seq<Handle> := [];
      ghost var rest := hs;
      var k := 0;
      while k < |hs|
        invariant k == |seen| && hs == seen + rest
        invariant Valid() && fresh(Repr - old(Repr))
        invariant Views() == start + added
        invariant Discover(hs, now) == Found(added + Discover(rest, now).devices, Discover(rest, now).ok)
      {
        Uncons(hs, seen, rest);
        var h := hs[k];
        ghost var more := if h.init == Some(true) then [Adopted(h, now)] else [];
        ok := ReadHandle(h, now);
        if !ok {
          assert added + [] == added;
          return;
        }
        Reassoc(start, added, more);
        Reassoc(added, more, Discover(rest[1..], now).devices);
        added := added + more;
        seen := seen + [rest[0]];
        rest := rest[1..];
        k := k + 1;
      }
      assert added + [] == added;
      ok := true;
    }

    /** The body of the loop of `read` for one handle: a device for a truthy
        initialisation, refreshed once and appended; `ok` is false where
        `connect` or `initialize` raises. */
    method ReadHandle(h: Handle, now: int) returns (ok: bool)
      requires Valid()
      modifies this
      ensures Valid() && fresh(Repr - old(Repr))
      ensures ok == h.init.Some?
      ensures Views() == old(Views()) + (if h.init == Some(true) then [Adopted(h, now)] else [])
    {
      if h.init != Some(true) {
        assert Views() == old(Views()) + [];
        return h.init.Some?;
      }
      Adopt(h, now);
      ok := true;
    }

    /** A new device for the handle `h`, refreshed once and appended. */
    method Adopt(h: Handle, now: int)
      requires Valid()
      modifies this
      ensures Valid() && fresh(Repr - old(Repr))
      ensures Views() == old(Views()) + [Adopted(h, now)]
    {
      ghost var before := Views();
      var dev := NewRefreshed(h, now);
      assert Valid() && Views() == before;
      AppendDevice(dev);
    }

    /** `self.devices.append(new_device)` for a device built by `read`. */
    method AppendDevice(dev: LiquidctlDevice)
      requires Valid() && dev.Valid() && dev !in Repr && forall s :: s in dev.sensors ==> s !in Repr
      modifies this
      ensures Valid() && Repr == old(Repr) + {dev} + set s | s in dev.sensors
      ensures devices == old(devices) + [dev]
      ensures Views() == old(Views()) + [dev.View()]
    {
      ghost var before := Views();
      UniqueSnoc(devices, dev);
      devices := devices + [dev];
      Repr := Repr + {dev} + set s | s in dev.sensors;
      assert forall k | 0 <= k < |before| :: Views()[k] == before[k];
    }
  }
}
