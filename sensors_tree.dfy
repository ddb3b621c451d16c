/** What every sensor source shares (src/sensors_tree.py): the sensor types
    and their icons, the readout a sensor keeps (value, running minimum and
    maximum), the refresh-and-evict pass over a source's device list, and
    the filter that decides which devices the tree shows. */
module SensorsTree {
  import opened PyBuiltins

  /** `Sensor.Type`. A sensor may also have no type, written `None`. */
  datatype Kind = Temp | Voltage | Fan | Current | Power | Intrusion | Flow

  /** `Sensor.icon`: the icon file shown beside a sensor of each type. */
  function Icon(k: Option<Kind>): (r: Option<string>)
    ensures r.Some? <==> k.Some?
  {
    match k
    case None => None
    case Some(Temp) => Some("icons8-thermometer-96.png")
    case Some(Current) => Some("icons8-high-voltage-96.png")
    case Some(Voltage) => Some("icons8-voltmeter-100.png")
    case Some(Power) => Some("icons8-shutdown-90.png")
    case Some(Fan) => Some("icons8-fan-head-64.png")
    case Some(Intrusion) => Some("icons8-hips-100.png")
    case Some(Flow) => Some("icons8-process-90.png")
  }

  /** No two sensor types share an icon. */
  lemma IconDistinct(a: Kind, b: Kind)
    requires a != b
    ensures Icon(Some(a)) != Icon(Some(b))
  {
  }

  // ---------------------------------------------------------------------
  // Readouts

  /** The Python objects a sensor's value, minimum and maximum can hold: an
      int, or a string (the raw text of a non-numeric read, or "N/A"). */
  datatype Value = Int(n: int) | Str(s: string)

  /** The bound both extrema are set to by a non-numeric read. */
  const NA: Value := Str("N/A")

  /** `sys.maxsize` on a 64-bit CPython. */
  const MaxSize: int := 0x7FFF_FFFF_FFFF_FFFF

  /** A sensor's `_value`, `_min_value` and `_max_value`. */
  datatype Readout = Readout(value: Value, lo: Value, hi: Value)

  /** A new sensor's readout: value 0, minimum `sys.maxsize`, maximum
      `-sys.maxsize - 1`. */
  const Initial: Readout := Readout(Int(0), Int(MaxSize), Int(-MaxSize - 1))

  /** The shape every readout has once a sensor has been read at least once:
      either three ints with the value between the extrema, or both extrema
      "N/A". */
  predicate Coherent(r: Readout) {
    (r.value.Int? && r.lo.Int? && r.hi.Int? && r.lo.n <= r.value.n <= r.hi.n)
    || (r.lo == NA && r.hi == NA)
  }

  /** The result of a read that may raise part-way: the fields as left
      behind, and whether a TypeError escaped. */
  datatype Tracked = Tracked(readout: Readout, raised: bool)

  /** A numeric read of `n`: `_value = n`, then `_min_value = min(n,
      _min_value)`, then `_max_value = max(n, _max_value)`. Comparing an int
      with a string raises TypeError, which leaves the later fields as they
      were. */
  function Track(n: int, r: Readout): (t: Tracked)
    ensures t.readout.value == Int(n)
    ensures !t.raised <==> r.lo.Int? && r.hi.Int?
    ensures !t.raised ==>
      t.readout.lo.Int? && t.readout.hi.Int?
      && t.readout.lo.n <= n <= t.readout.hi.n
      && t.readout.lo.n <= r.lo.n && t.readout.hi.n >= r.hi.n
      && (t.readout.lo.n == n || t.readout.lo == r.lo)
      && (t.readout.hi.n == n || t.readout.hi == r.hi)
    ensures t.raised ==> t.readout.hi == r.hi && (r.lo.Str? ==> t.readout.lo == r.lo)
  {
    if r.lo.Str? then Tracked(Readout(Int(n), r.lo, r.hi), true)
    else
      var lo := Int(if n <= r.lo.n then n else r.lo.n);
      if r.hi.Str? then Tracked(Readout(Int(n), lo, r.hi), true)
      else Tracked(Readout(Int(n), lo, Int(if n >= r.hi.n then n else r.hi.n)), false)
  }

  /** On a coherent readout, a numeric read raises exactly when the extrema
      are "N/A", and whatever happens the readout stays coherent. */
  lemma TrackCoherent(n: int, r: Readout)
    requires Coherent(r)
    ensures Track(n, r).raised <==> r.lo == NA
    ensures Coherent(Track(n, r).readout)
  {
  }

  /** The first numeric read of a new sensor cannot raise, and it leaves
      the value as both extrema unless it lies beyond the sentinels. */
  lemma TrackInitial(n: int)
    ensures !Track(n, Initial).raised
    ensures -MaxSize - 1 <= n <= MaxSize ==> Track(n, Initial).readout == Readout(Int(n), Int(n), Int(n))
  {
  }

  // ---------------------------------------------------------------------
  // The refresh-and-evict pass

  /** What `for device in self.devices:` does with each device of the list it
      started with, when the body removes faulty devices from that same list:
      the iterator's index moves on past the device that slid into the
      removed one's place. */
  datatype Visit = Updated | Removed | Skipped

  /** The visit each position gets, given which devices were faulty when the
      pass began. */
  function Plan(faulty: seq<bool>): (p: seq<Visit>)
    ensures |p| == |faulty|
  {
    if faulty == [] then []
    else if !faulty[0] then [Updated] + Plan(faulty[1..])
    else if |faulty| == 1 then [Removed]
    else [Removed, Skipped] + Plan(faulty[2..])
  }

  /** Position by position: a device is skipped exactly when the one before
      it was removed; a device that is visited is removed exactly when it is
      faulty, and updated otherwise. */
  lemma {:induction false} PlanAt(faulty: seq<bool>, k: nat)
    requires k < |faulty|
    ensures Plan(faulty)[k] == Skipped <==> k > 0 && Plan(faulty)[k - 1] == Removed
    ensures Plan(faulty)[k] == Removed <==> Plan(faulty)[k] != Skipped && faulty[k]
  {
    var p := Plan(faulty);
    if !faulty[0] {
      assert p == [Updated] + Plan(faulty[1..]);
      if k > 0 {
        PlanAt(faulty[1..], k - 1);
        if k > 1 {
          assert p[k - 1] == Plan(faulty[1..])[k - 2];
        }
      }
    } else if |faulty| > 1 {
      assert p == [Removed, Skipped] + Plan(faulty[2..]);
      if k > 1 {
        PlanAt(faulty[2..], k - 2);
        if k > 2 {
          assert p[k - 1] == Plan(faulty[2..])[k - 3];
        }
      }
    }
  }

  /** Each position's contribution to the list the pass leaves behind: an
      updated device as updated, a skipped one as it was, a removed one
      not at all. */
  function Select<D>(p: seq<Visit>, ds: seq<D>, updated: seq<D>): (r: seq<D>)
    requires |p| == |ds| == |updated|
    ensures |r| <= |ds|
  {
    if p == [] then []
    else Cell(p[0], ds[0], updated[0]) + Select(p[1..], ds[1..], updated[1..])
  }

  /** What one position contributes. */
  function Cell<D>(v: Visit, d: D, u: D): seq<D> {
    match v
    case Updated => [u]
    case Skipped => [d]
    case Removed => []
  }

  /** `SensorsTree.update_sensors` on a list `ds` whose devices are faulty as
      `faulty` says and would become `updated` if updated. */
  function Evict<D>(ds: seq<D>, faulty: seq<bool>, updated: seq<D>): (r: seq<D>)
    requires |faulty| == |ds| == |updated|
    ensures |r| <= |ds|
  {
    Select(Plan(faulty), ds, updated)
  }

  /** The pass seen from the list iterator standing on the first device: a
      healthy device is updated and the iterator moves to the next one; a
      faulty device is removed, so the next device slides into its place and
      the iterator steps over it, leaving it as it was. */
  lemma EvictFront<D>(ds: seq<D>, faulty: seq<bool>, updated: seq<D>)
    requires |faulty| == |ds| == |updated| && ds != []
    ensures !faulty[0] ==>
      Evict(ds, faulty, updated) == [updated[0]] + Evict(ds[1..], faulty[1..], updated[1..])
    ensures faulty[0] && |ds| > 1 ==>
      Evict(ds, faulty, updated) == [ds[1]] + Evict(ds[2..], faulty[2..], updated[2..])
    ensures faulty[0] && |ds| == 1 ==> Evict(ds, faulty, updated) == []
  {
    var p := Plan(faulty);
    if faulty[0] && |ds| > 1 {
      assert p == [Removed, Skipped] + Plan(faulty[2..]);
      assert p[1..][0] == Skipped && p[1..][1..] == Plan(faulty[2..]);
      assert ds[1..][0] == ds[1] && ds[1..][1..] == ds[2..] && updated[1..][1..] == updated[2..];
      assert faulty[1..][1..] == faulty[2..];
      assert Select(p[1..], ds[1..], updated[1..]) == [ds[1]] + Select(Plan(faulty[2..]), ds[2..], updated[2..]);
    }
  }

  /** How many positions of `p[..k]` keep a device. */
  function Kept(p: seq<Visit>, k: nat): (n: nat)
    requires k <= |p|
    ensures n <= k
  {
    if k == 0 then 0 else Kept(p, k - 1) + (if p[k - 1] == Removed then 0 else 1)
  }

  lemma {:induction false} KeptTail(p: seq<Visit>, k: nat)
    requires 0 < k <= |p|
    ensures Kept(p, k) == (if p[0] == Removed then 0 else 1) + Kept(p[1..], k - 1)
  {
    if k > 1 {
      KeptTail(p, k - 1);
      assert p[1..][k - 2] == p[k - 1];
    }
  }

  lemma {:induction false} KeptMonotone(p: seq<Visit>, j: nat, k: nat)
    requires j <= k <= |p|
    ensures Kept(p, j) <= Kept(p, k)
  {
    if j < k {
      KeptMonotone(p, j, k - 1);
    }
  }

  /** The list a pass leaves has one device per kept position, in the order
      of the original list: the position `k` device is at index `Kept(p, k)`. */
  lemma {:induction false} SelectAt<D>(p: seq<Visit>, ds: seq<D>, updated: seq<D>, k: nat)
    requires |p| == |ds| == |updated| && k < |p|
    ensures |Select(p, ds, updated)| == Kept(p, |p|)
    ensures p[k] != Removed ==> Kept(p, k) < |Select(p, ds, updated)|
    ensures p[k] == Updated ==> Select(p, ds, updated)[Kept(p, k)] == updated[k]
    ensures p[k] == Skipped ==> Select(p, ds, updated)[Kept(p, k)] == ds[k]
  {
    var r := Select(p, ds, updated);
    var rest := Select(p[1..], ds[1..], updated[1..]);
    KeptTail(p, |p|);
    KeptMonotone(p, k + 1, |p|);
    if k > 0 {
      SelectAt(p[1..], ds[1..], updated[1..], k - 1);
      KeptTail(p, k);
    } else if |p| > 1 {
      SelectAt(p[1..], ds[1..], updated[1..], 0);
    }
  }

  /** The pass reaches every device when none is faulty, and then it is the
      plain update of every device in order. */
  lemma {:induction false} EvictNoFaults<D>(ds: seq<D>, faulty: seq<bool>, updated: seq<D>)
    requires |faulty| == |ds| == |updated|
    requires forall k :: 0 <= k < |faulty| ==> !faulty[k]
    ensures Evict(ds, faulty, updated) == updated
  {
    if ds != [] {
      EvictNoFaults(ds[1..], faulty[1..], updated[1..]);
    }
  }

  /** A faulty device hides the device after it from the pass: of two faulty
      devices the second survives, and a healthy device after a faulty one is
      not updated. */
  lemma EvictSkipsAfterRemoval<D>(a: D, b: D, a': D, b': D)
    ensures Evict([a, b], [true, true], [a', b']) == [b]
    ensures Evict([a, b], [true, false], [a', b']) == [b]
  {
    assert Plan([true, true]) == [Removed, Skipped];
    assert Plan([true, false]) == [Removed, Skipped];
    assert [Removed, Skipped][1..] == [Skipped] && [a, b][1..] == [b] && [a', b'][1..] == [b'];
    assert Select([Skipped], [b], [b']) == [b];
    assert Select([Removed, Skipped], [a, b], [a', b']) == [b];
  }

  // ---------------------------------------------------------------------
  // What the tree shows

  /** A top-level row of the sensor tree: a device name and its sensor rows. */
  datatype DeviceRow<S> = DeviceRow(name: string, children: seq<S>)

  /** `SensorsTree.get_tree_widget`: the candidate rows of the devices that
      are not faulty and end up with at least one child row, in list order. */
  function Shown<S>(rows: seq<DeviceRow<S>>, faulty: seq<bool>): (r: seq<DeviceRow<S>>)
    requires |rows| == |faulty|
    ensures |r| <= |rows|
  {
    if rows == [] then []
    else
      (if !faulty[0] && rows[0].children != [] then [rows[0]] else [])
      + Shown(rows[1..], faulty[1..])
  }

  /** A row is shown exactly when it belongs to a device that is not faulty
      and has children. */
  lemma {:induction false} ShownMembers<S>(rows: seq<DeviceRow<S>>, faulty: seq<bool>, x: DeviceRow<S>)
    requires |rows| == |faulty|
    ensures x in Shown(rows, faulty) <==>
      exists k :: 0 <= k < |rows| && rows[k] == x && !faulty[k] && x.children != []
  {
    if rows != [] {
      ShownMembers(rows[1..], faulty[1..], x);
      if x in Shown(rows[1..], faulty[1..]) {
        var k :| 0 <= k < |rows[1..]| && rows[1..][k] == x && !faulty[1..][k] && x.children != [];
        assert rows[k + 1] == x && !faulty[k + 1];
      }
      if exists k :: 0 <= k < |rows| && rows[k] == x && !faulty[k] && x.children != [] {
        var k :| 0 <= k < |rows| && rows[k] == x && !faulty[k] && x.children != [];
        if k > 0 {
          assert rows[1..][k - 1] == x && !faulty[1..][k - 1];
        }
      }
    }
  }

  /** The shown rows keep the order of the device list: showing two lists in
      a row is showing each in turn. */
  lemma {:induction false} ShownAppend<S>(a: seq<DeviceRow<S>>, fa: seq<bool>, b: seq<DeviceRow<S>>, fb: seq<bool>)
    requires |a| == |fa| && |b| == |fb|
    ensures Shown(a + b, fa + fb) == Shown(a, fa) + Shown(b, fb)
  {
    if a != [] {
      assert (a + b)[1..] == a[1..] + b && (fa + fb)[1..] == fa[1..] + fb;
      ShownAppend(a[1..], fa[1..], b, fb);
    } else {
      assert a + b == b && fa + fb == fb;
    }
  }
}
