/**
 * The per-cycle dictionaries of current readings. Each is built by
 * inserting one entry per sensor that reads, in sensor order, so a later
 * sensor with the same id replaces an earlier one.
 */
module Snapshot {
  import opened Wrappers
  import opened Sysfs
  import opened Sensors
  import opened CpuSelection

  /** A value of `current_temps`. */
  datatype TempReading = TempReading(temperature: real, zoneType: string, name: string)

  /** A value of `current_fans`. */
  datatype FanReading = FanReading(speed: int, fanLabel: string, device: string, name: string)

  /** One sensor's proposed dictionary entry: its id, and the value when its read succeeded. */
  datatype Keyed<V> = Keyed(key: string, value: Option<V>)

  /** The dictionary left after inserting every present entry, in order. */
  function Collect<V>(es: seq<Keyed<V>>): map<string, V>
    decreases |es|
  {
    if |es| == 0 then map[]
    else
      var m := Collect(es[..|es| - 1]);
      var e := es[|es| - 1];
      if e.value.Some? then m[e.key := e.value.value] else m
  }

  lemma CollectSnoc<V>(es: seq<Keyed<V>>, e: Keyed<V>)
    ensures Collect(es + [e]) == if e.value.Some? then Collect(es)[e.key := e.value.value] else Collect(es)
  {
    assert (es + [e])[..|es|] == es;
  }

  /** A key is present exactly when some entry with that key has a value. */
  lemma {:induction false} CollectKeys<V>(es: seq<Keyed<V>>, k: string)
    ensures k in Collect(es) <==> exists j :: 0 <= j < |es| && es[j].key == k && es[j].value.Some?
    decreases |es|
  {
    if |es| > 0 {
      var init := es[..|es| - 1];
      CollectKeys(init, k);
      assert forall j :: 0 <= j < |init| ==> init[j] == es[j];
    }
  }

  /** The value stored under a key is the one of the last entry with that key that has a value. */
  lemma {:induction false} CollectLast<V>(es: seq<Keyed<V>>, j: nat)
    requires j < |es| && es[j].value.Some?
    requires forall i :: j < i < |es| && es[i].key == es[j].key ==> es[i].value.None?
    ensures es[j].key in Collect(es) && Collect(es)[es[j].key] == es[j].value.value
    decreases |es|
  {
    var init := es[..|es| - 1];
    if j < |init| {
      assert forall i :: j < i < |init| ==> init[i] == es[i];
      CollectLast(init, j);
    }
  }

  /** Every stored value comes from an entry with that key. */
  lemma {:induction false} CollectFrom<V>(es: seq<Keyed<V>>, k: string)
    requires k in Collect(es)
    ensures exists j :: 0 <= j < |es| && es[j].key == k && es[j].value == Some(Collect(es)[k])
    decreases |es|
  {
    var init := es[..|es| - 1];
    var e := es[|es| - 1];
    if !(e.value.Some? && e.key == k) {
      CollectFrom(init, k);
      var j :| 0 <= j < |init| && init[j].key == k && init[j].value == Some(Collect(init)[k]);
      assert init[j] == es[j];
    }
  }

  // ---------------------------------------------------------------------------
  // Temperatures

  /** The value a zone contributes to `current_temps`, when its temperature reads. */
  function TempReadingOf(fs: Sysfs, z: Zone): (r: Option<TempReading>)
    ensures r.Some? <==> Readable(fs, z)
    ensures r.Some? ==> Some(r.value.temperature) == ReadTemperature(fs, z.path) &&
                        r.value.zoneType == z.zoneType && r.value.name == z.name
  {
    match ReadTemperature(fs, z.path)
    case Some(t) => Some(TempReading(t, z.zoneType, z.name))
    case None => None
  }

  function TempEntries(zones: seq<Zone>, fs: Sysfs): seq<Keyed<TempReading>> {
    seq(|zones|, k requires 0 <= k < |zones| => Keyed(zones[k].id, TempReadingOf(fs, zones[k])))
  }

  /** `current_temps` after one `update_temperatures` cycle. */
  function TempSnapshot(zones: seq<Zone>, fs: Sysfs): map<string, TempReading> {
    Collect(TempEntries(zones, fs))
  }

  /** Each zone's reading attempt, in zone order. */
  function Readings(zones: seq<Zone>, fs: Sysfs): (rs: seq<Option<real>>)
    ensures |rs| == |zones|
  {
    seq(|zones|, k requires 0 <= k < |zones| => ReadTemperature(fs, zones[k].path))
  }

  /** `valid_temps`: the temperatures that were read, in zone order. */
  function ReadableTemps(zones: seq<Zone>, fs: Sysfs): seq<real> {
    Somes(Readings(zones, fs))
  }

  /** `current_temps` has a key exactly for the ids of the zones that read. */
  lemma TempSnapshotKeys(zones: seq<Zone>, fs: Sysfs, id: string)
    ensures id in TempSnapshot(zones, fs) <==>
              exists j :: 0 <= j < |zones| && zones[j].id == id && Readable(fs, zones[j])
  {
    var es := TempEntries(zones, fs);
    CollectKeys(es, id);
    assert forall j :: 0 <= j < |zones| ==> es[j].key == zones[j].id && (es[j].value.Some? <==> Readable(fs, zones[j]));
  }

  /** The entry for a zone's id is that zone's reading when no later zone with the same id reads. */
  lemma TempSnapshotLatest(zones: seq<Zone>, fs: Sysfs, j: nat)
    requires j < |zones| && Readable(fs, zones[j])
    requires forall i :: j < i < |zones| && zones[i].id == zones[j].id ==> !Readable(fs, zones[i])
    ensures zones[j].id in TempSnapshot(zones, fs)
    ensures TempSnapshot(zones, fs)[zones[j].id] ==
              TempReading(ReadTemperature(fs, zones[j].path).value, zones[j].zoneType, zones[j].name)
  {
    var es := TempEntries(zones, fs);
    assert forall i :: 0 <= i < |zones| ==> es[i].key == zones[i].id && es[i].value == TempReadingOf(fs, zones[i]);
    CollectLast(es, j);
  }

  /** With distinct zone ids, every zone that reads has its own reading in `current_temps`. */
  lemma TempSnapshotDistinct(zones: seq<Zone>, fs: Sysfs, j: nat)
    requires forall a, b :: 0 <= a < b < |zones| ==> zones[a].id != zones[b].id
    requires j < |zones| && Readable(fs, zones[j])
    ensures zones[j].id in TempSnapshot(zones, fs)
    ensures TempSnapshot(zones, fs)[zones[j].id] ==
              TempReading(ReadTemperature(fs, zones[j].path).value, zones[j].zoneType, zones[j].name)
  {
    TempSnapshotLatest(zones, fs, j);
  }

  /** Every entry of `current_temps` is the reading, type and name of a zone with that id. */
  lemma TempSnapshotFrom(zones: seq<Zone>, fs: Sysfs, id: string)
    requires id in TempSnapshot(zones, fs)
    ensures exists j :: 0 <= j < |zones| && zones[j].id == id &&
                        Some(TempSnapshot(zones, fs)[id].temperature) == ReadTemperature(fs, zones[j].path) &&
                        TempSnapshot(zones, fs)[id].zoneType == zones[j].zoneType &&
                        TempSnapshot(zones, fs)[id].name == zones[j].name
  {
    var es := TempEntries(zones, fs);
    CollectFrom(es, id);
    var j :| 0 <= j < |es| && es[j].key == id && es[j].value == Some(Collect(es)[id]);
    assert es[j].value == TempReadingOf(fs, zones[j]);
  }

  /** `valid_temps` holds exactly the temperatures some zone read. */
  lemma ReadableTempsMembers(zones: seq<Zone>, fs: Sysfs, t: real)
    ensures t in ReadableTemps(zones, fs) <==>
              exists j :: 0 <= j < |zones| && ReadTemperature(fs, zones[j].path) == Some(t)
  {
    var rs := Readings(zones, fs);
    SomesMembers(rs, t);
    assert forall j :: 0 <= j < |zones| ==> rs[j] == ReadTemperature(fs, zones[j].path);
  }

  /**
   * `valid_temps` is non-empty exactly when a CPU temperature can be read,
   * so the guard on the CPU reading never rejects a cycle that got past the
   * guard on `valid_temps`.
   */
  lemma ReadableTempsCpu(zones: seq<Zone>, fs: Sysfs)
    ensures |ReadableTemps(zones, fs)| > 0 <==> CpuTemperature(zones, fs).Some?
  {
    CpuTemperatureNone(zones, fs);
    var rs := Readings(zones, fs);
    if |ReadableTemps(zones, fs)| > 0 {
      var t := ReadableTemps(zones, fs)[0];
      ReadableTempsMembers(zones, fs, t);
    }
    if CpuTemperature(zones, fs).Some? {
      var j :| 0 <= j < |zones| && Readable(fs, zones[j]);
      ReadableTempsMembers(zones, fs, ReadTemperature(fs, zones[j].path).value);
    }
  }

  // ---------------------------------------------------------------------------
  // Fans

  /** The value a fan contributes to `current_fans`, when its speed reads (of any sign). */
  function FanReadingOf(fs: Sysfs, f: Fan): (r: Option<FanReading>)
    ensures r.Some? <==> f.path in fs.number
    ensures r.Some? ==> r.value == FanReading(fs.number[f.path], f.fanLabel, f.device, f.name)
  {
    match ReadFanSpeed(fs, f.path)
    case Some(speed) => Some(FanReading(speed, f.fanLabel, f.device, f.name))
    case None => None
  }

  function FanEntries(fans: seq<Fan>, fs: Sysfs): seq<Keyed<FanReading>> {
    seq(|fans|, k requires 0 <= k < |fans| => Keyed(fans[k].id, FanReadingOf(fs, fans[k])))
  }

  /** `current_fans` after one `update_fans` cycle. */
  function FanSnapshot(fans: seq<Fan>, fs: Sysfs): map<string, FanReading> {
    Collect(FanEntries(fans, fs))
  }

  /** `current_fans` has a key exactly for the ids of the fans whose speed reads. */
  lemma FanSnapshotKeys(fans: seq<Fan>, fs: Sysfs, id: string)
    ensures id in FanSnapshot(fans, fs) <==>
              exists j :: 0 <= j < |fans| && fans[j].id == id && fans[j].path in fs.number
  {
    var es := FanEntries(fans, fs);
    CollectKeys(es, id);
    assert forall j :: 0 <= j < |fans| ==> es[j].key == fans[j].id && (es[j].value.Some? <==> fans[j].path in fs.number);
  }

  /** The entry for a fan's id is that fan's reading when no later fan with the same id reads. */
  lemma FanSnapshotLatest(fans: seq<Fan>, fs: Sysfs, j: nat)
    requires j < |fans| && fans[j].path in fs.number
    requires forall i :: j < i < |fans| && fans[i].id == fans[j].id ==> fans[i].path !in fs.number
    ensures fans[j].id in FanSnapshot(fans, fs)
    ensures FanSnapshot(fans, fs)[fans[j].id] ==
              FanReading(fs.number[fans[j].path], fans[j].fanLabel, fans[j].device, fans[j].name)
  {
    var es := FanEntries(fans, fs);
    assert forall i :: 0 <= i < |fans| ==> es[i].key == fans[i].id && es[i].value == FanReadingOf(fs, fans[i]);
    CollectLast(es, j);
  }

  /** Every entry of `current_fans` is the current speed and the labels of a fan with that id. */
  lemma FanSnapshotFrom(fans: seq<Fan>, fs: Sysfs, id: string)
    requires id in FanSnapshot(fans, fs)
    ensures exists j :: 0 <= j < |fans| && fans[j].id == id && fans[j].path in fs.number &&
                        FanSnapshot(fans, fs)[id] ==
                          FanReading(fs.number[fans[j].path], fans[j].fanLabel, fans[j].device, fans[j].name)
  {
    var es := FanEntries(fans, fs);
    CollectFrom(es, id);
    var j :| 0 <= j < |es| && es[j].key == id && es[j].value == Some(Collect(es)[id]);
    assert es[j].value == FanReadingOf(fs, fans[j]);
  }
}
