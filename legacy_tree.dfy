/** The older shared base of the sensor sources (sensors_tree.py): six sensor
    types without Flow, a sensor that keeps its label as given and builds its
    tree row once, a device without a `faulty` flag, a refresh that updates
    every device and removes none, and a tree that shows every device. */
module LegacyTree {
  import opened PyBuiltins
  import Modern = SensorsTree

  /** `Sensor.Type` of this version. A sensor may also have no type. */
  datatype Kind = Temp | Voltage | Fan | Current | Power | Intrusion

  /** `Sensor.get_icon`: the icon file of each type, `None` for no type. */
  function GetIcon(k: Option<Kind>): (r: Option<string>)
    ensures r.Some? <==> k.Some?
  {
    match k
    case None => None
    case Some(Temp) => Some("icons8-thermometer-96.png")
    case Some(Current) => Some("icons8-high-voltage-96.png")
    case Some(Voltage) => Some("icons8-voltmeter-100.png")
    case Some(Power) => Some("icons8-shutdown-90.png")
    case Some(Fan) => Some("icons8-fan-head-64.png")
    case Some(Intrusion) => Some("icons8-hips-100.png")
  }

  /** The type of the newer base with the same name. */
  function Upgrade(k: Kind): Modern.Kind {
    match k
    case Temp => Modern.Temp
    case Voltage => Modern.Voltage
    case Fan => Modern.Fan
    case Current => Modern.Current
    case Power => Modern.Power
    case Intrusion => Modern.Intrusion
  }

  function UpgradeOption(k: Option<Kind>): Option<Modern.Kind> {
    match k
    case None => None
    case Some(t) => Some(Upgrade(t))
  }

  /** The newer base adds Flow and keeps every older type's icon; no older
      type becomes Flow. */
  lemma GetIconKept(k: Option<Kind>)
    ensures GetIcon(k) == Modern.Icon(UpgradeOption(k))
    ensures UpgradeOption(k) != Some(Modern.Flow)
  {
  }

  /** No two types of this version share an icon. */
  lemma GetIconDistinct(a: Kind, b: Kind)
    requires a != b
    ensures GetIcon(Some(a)) != GetIcon(Some(b))
  {
    GetIconKept(Some(a));
    GetIconKept(Some(b));
    Modern.IconDistinct(Upgrade(a), Upgrade(b));
  }

  // ---------------------------------------------------------------------
  // Sensors and devices

  /** The text and icon of a tree row: name, value, minimum, maximum. */
  datatype Item = Item(columns: seq<string>, icon: Option<string>)

  /** `str` of a value the readout can hold. */
  function Text(v: Modern.Value): string {
    match v
    case Int(n) => IntText(n)
    case Str(s) => s
  }

  /** A sensor as `Sensor.__init__` leaves it: the label as given, the
      initial readout and the tree row built from them. The row is built
      once here; this file never changes it. */
  datatype Sensor = Sensor(labelText: string, kind: Option<Kind>, readout: Modern.Readout, item: Item)

  function NewSensor(labelText: string, kind: Option<Kind>): (s: Sensor)
    ensures s.labelText == labelText && s.kind == kind
    ensures s.readout == Modern.Initial
    ensures s.item.columns == [labelText, Text(s.readout.value), Text(s.readout.lo), Text(s.readout.hi)]
    ensures s.item.icon == GetIcon(kind)
  {
    var r := Modern.Initial;
    Sensor(labelText, kind, r, Item([labelText, Text(r.value), Text(r.lo), Text(r.hi)], GetIcon(kind)))
  }

  /** Unlike the newer base, this version does not strip the label: every
      label with surrounding whitespace is kept with it, and such labels
      exist (" fan1"). */
  lemma LabelKept(labelText: string, kind: Option<Kind>)
    ensures Strip(labelText) != labelText ==> NewSensor(labelText, kind).labelText != Strip(labelText)
    ensures Strip(" fan1") != " fan1"
  {
    assert Strip(" fan1") == "fan1" by {
      assert StripLeft(" fan1") == "fan1" by {
        assert IsSpace(" fan1"[0]) && " fan1"[1..] == "fan1";
        assert !IsSpace("fan1"[0]);
      }
      assert !IsSpace("fan1"[|"fan1"| - 1]);
    }
  }

  /** The initial row shows the value 0, and the extrema as the two sentinel
      numbers: the minimum `str(sys.maxsize)`, which is unsigned, and the
      maximum `str(-sys.maxsize - 1)`, which is negative. */
  lemma InitialItem(labelText: string, kind: Option<Kind>)
    ensures NewSensor(labelText, kind).item.columns[1] == "0"
    ensures NewSensor(labelText, kind).item.columns[2][0] != '-'
    ensures NewSensor(labelText, kind).item.columns[3][0] == '-'
    ensures NewSensor(labelText, kind).item.columns[2] == IntText(Modern.MaxSize)
    ensures NewSensor(labelText, kind).item.columns[3] == IntText(-Modern.MaxSize - 1)
  {
  }

  /** `Device`: a name and its sensors, in the order the source appends them. */
  datatype Device = Device(name: string, sensors: seq<Sensor>)

  /** `Device.__init__`: a new device has no sensors. */
  function NewDevice(name: string): (d: Device)
    ensures d.name == name && d.sensors == []
  {
    Device(name, [])
  }

  // ---------------------------------------------------------------------
  // The registry pass and the tree

  /** The devices after each was updated once, in list order, by the
      source's own `update_sensors` (given as `update`). */
  function Refreshed(ds: seq<Device>, update: Device -> Device): (r: seq<Device>)
    ensures |r| == |ds|
    decreases |ds|
  {
    if ds == [] then [] else [update(ds[0])] + Refreshed(ds[1..], update)
  }

  /** The pass neither removes nor skips a device: position `k` holds the
      update of the device that was there before. */
  lemma {:induction false} RefreshedAt(ds: seq<Device>, update: Device -> Device, k: int)
    requires 0 <= k < |ds|
    ensures Refreshed(ds, update)[k] == update(ds[k])
    decreases |ds|
  {
    if k > 0 {
      RefreshedAt(ds[1..], update, k - 1);
    }
  }

  /** The older pass is the newer eviction pass on a list without faulty
      devices: it behaves as though no device ever became faulty. */
  lemma RefreshedIsEvictionWithoutFaults(ds: seq<Device>, update: Device -> Device)
    ensures Refreshed(ds, update) == Modern.Evict(ds, seq(|ds|, _ => false), Refreshed(ds, update))
  {
    Modern.EvictNoFaults(ds, seq(|ds|, _ => false), Refreshed(ds, update));
  }

  /** The children of a device row: the row of each sensor, in order. */
  function Items(ss: seq<Sensor>): (r: seq<Item>)
    ensures |r| == |ss| && forall j :: 0 <= j < |ss| ==> r[j] == ss[j].item
    decreases |ss|
  {
    if ss == [] then [] else [ss[0].item] + Items(ss[1..])
  }

  /** `get_tree_widget`: one top-level row per device, in list order. */
  function Rows(ds: seq<Device>): (r: seq<Modern.DeviceRow<Item>>)
    ensures |r| == |ds|
    ensures forall k :: 0 <= k < |ds| ==> r[k] == Modern.DeviceRow(ds[k].name, Items(ds[k].sensors))
    decreases |ds|
  {
    if ds == [] then []
    else [Modern.DeviceRow(ds[0].name, Items(ds[0].sensors))] + Rows(ds[1..])
  }

  /** The older tree shows what the newer filter would show of the same rows
      with no device faulty exactly when no device is empty: the older one
      also shows the devices without sensors. */
  lemma {:induction false} RowsShownWhenNotEmpty(ds: seq<Device>)
    ensures Modern.Shown(Rows(ds), seq(|ds|, _ => false)) == Rows(ds) <==>
      forall k :: 0 <= k < |ds| ==> ds[k].sensors != []
    decreases |ds|
  {
    var healthy := seq(|ds|, _ => false);
    if ds != [] {
      var tail := ds[1..];
      assert Rows(ds)[1..] == Rows(tail);
      assert healthy[1..] == seq(|tail|, _ => false);
      RowsShownWhenNotEmpty(tail);
      var shownTail := Modern.Shown(Rows(tail), seq(|tail|, _ => false));
      if ds[0].sensors == [] {
        assert |Modern.Shown(Rows(ds), healthy)| == |shownTail| <= |tail| < |ds|;
      } else {
        assert Rows(ds) == [Rows(ds)[0]] + Rows(tail);
        forall k | 0 < k < |ds|
          ensures ds[k].sensors == tail[k - 1].sensors
        {
        }
      }
    }
  }

  /** `SensorsTree`: the list of devices the source has read. */
  class SensorsTree {
    var devices: seq<Device>

    /** `SensorsTree.__init__`: a new registry has no devices. */
    constructor ()
      ensures devices == []
    {
      devices := [];
    }

    /** `SensorsTree.update_sensors`: every device updated once, in list
        order, with no fault check and no removal. */
    method UpdateSensors(update: Device -> Device)
      modifies this
      ensures devices == Refreshed(old(devices), update)
    {
      ghost var start := devices;
      var i := 0;
      while i < |devices|
        invariant |devices| == |start| && 0 <= i <= |start|
        invariant devices[..i] == Refreshed(start[..i], update)
        invariant devices[i..] == start[i..]
      {
        RefreshedSnoc(start[..i], start[i], update);
        assert start[..i + 1] == start[..i] + [start[i]];
        devices := devices[i := update(devices[i])];
        i := i + 1;
      }
      assert start[..i] == start && devices[..i] == devices;
    }

    /** `SensorsTree.get_tree_widget`: the device rows, each with the rows
        of its sensors. */
    method GetTreeWidget() returns (rows: seq<Modern.DeviceRow<Item>>)
      ensures rows == Rows(devices)
    {
      var ds := devices;
      ghost var all := Rows(ds);
      rows := [];
      for k := 0 to |ds|
        invariant rows == all[..k]
      {
        var children := DeviceItems(ds[k]);
        assert all[..k + 1] == all[..k] + [Modern.DeviceRow(ds[k].name, children)];
        rows := rows + [Modern.DeviceRow(ds[k].name, children)];
      }
      assert all[..|ds|] == all;
    }
  }

  /** The inner loop of `get_tree_widget`: the row of each sensor of `d`. */
  method DeviceItems(d: Device) returns (children: seq<Item>)
    ensures children == Items(d.sensors)
  {
    children := [];
    for j := 0 to |d.sensors|
      invariant |children| == j
      invariant forall i :: 0 <= i < j ==> children[i] == d.sensors[i].item
    {
      children := children + [d.sensors[j].item];
    }
  }

  /** Updating one more device extends the refreshed list by its update. */
  lemma {:induction false} RefreshedSnoc(ds: seq<Device>, d: Device, update: Device -> Device)
    ensures Refreshed(ds + [d], update) == Refreshed(ds, update) + [update(d)]
    decreases |ds|
  {
    if ds == [] {
      assert ([] + [d])[1..] == [];
    } else {
      assert (ds + [d])[1..] == ds[1..] + [d];
      RefreshedSnoc(ds[1..], d, update);
    }
  }
}
