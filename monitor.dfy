/**
 * The monitor object: the sensors found at start-up, the bounded history
 * of CPU temperatures, the latest readings and the statistics derived from
 * the history. Each update cycle sees the sensor files through one `Sysfs`
 * value, and the cycle's time stamp is a parameter.
 */
module Monitor {
  import opened Wrappers
  import opened PyStr
  import opened PosixPath
  import opened Sysfs
  import opened Sensors
  import opened History
  import opened Stats
  import opened CpuSelection
  import opened Snapshot

  class ThermalMonitor {
    var thermalZones: seq<Zone>
    var fanSensors: seq<Fan>
    var history: seq<Entry>
    var currentTemps: map<string, TempReading>
    var currentFans: map<string, FanReading>
    var stats: Stats

    /**
     * The history never exceeds its capacity, and the statistics are the
     * initial ones until the first CPU reading and from then on those of
     * the history.
     */
    ghost predicate Valid()
      reads this
    {
      && |history| <= Capacity
      && (history == [] ==> stats == InitialStats)
      && (history != [] ==> stats == StatsOf(history))
    }

    constructor (fs: Sysfs)
      requires ZoneGlobWellFormed(fs)
      ensures Valid()
      ensures thermalZones == DiscoveredZones(fs) && fanSensors == DiscoveredFans(fs)
      ensures history == [] && currentTemps == map[] && currentFans == map[] && stats == InitialStats
    {
      thermalZones := [];
      fanSensors := [];
      history := [];
      currentTemps := map[];
      currentFans := map[];
      stats := InitialStats;
      new;
      DiscoverThermalZones(fs);
      assert thermalZones == DiscoveredZones(fs);
      DiscoverFanSensors(fs);
    }

    /** Appends one zone per `temp` file of the thermal glob, in glob order. */
    method DiscoverThermalZones(fs: Sysfs)
      requires ZoneGlobWellFormed(fs)
      modifies this`thermalZones
      ensures thermalZones == old(thermalZones) + DiscoveredZones(fs)
    {
      var tempFiles := Glob(fs, ThermalPattern);
      var i := 0;
      while i < |tempFiles|
        invariant 0 <= i <= |tempFiles|
        invariant thermalZones == old(thermalZones) + DiscoveredZones(fs)[..i]
      {
        var tempFile := tempFiles[i];
        var zonePath := DirName(tempFile);
        var zoneNum := ZoneNumber(tempFile);
        var typeFile := PathJoin(zonePath, "type");
        var zoneType := Unknown;
        match ReadText(fs, typeFile) {
          case Some(text) => zoneType := text;
          case None =>
        }
        var zone := Zone(zoneNum, tempFile, zoneType, "Zone " + zoneNum + " (" + zoneType + ")");
        assert zoneType == ReadTextOr(fs, typeFile, Unknown);
        assert zone == ZoneOf(fs, tempFile);
        DiscoveredZonesStep(fs, i);
        thermalZones := thermalZones + [zone];
        i := i + 1;
      }
      assert DiscoveredZones(fs)[..i] == DiscoveredZones(fs);
    }

    /**
     * Replaces the fan list with the fans of every hwmon directory, in glob
     * order.
     */
    method DiscoverFanSensors(fs: Sysfs)
      modifies this`fanSensors
      ensures fanSensors == DiscoveredFans(fs)
    {
      var found: seq<Fan> := [];
      var hwmonDirs := Glob(fs, HwmonPattern);
      var d := 0;
      while d < |hwmonDirs|
        invariant 0 <= d <= |hwmonDirs|
        invariant found == FansOfDirs(fs, hwmonDirs[..d])
      {
        var dirFans := ScanHwmonDir(fs, hwmonDirs[d]);
        FansOfDirsStep(fs, hwmonDirs, d);
        found := found + dirFans;
        d := d + 1;
      }
      assert hwmonDirs[..d] == hwmonDirs;
      fanSensors := found;
    }

    /**
     * The scan of one hwmon directory, inside its exception handler: a fan
     * input without the `fan` marker ends the scan; an input whose speed
     * does not read, or reads negative, is skipped.
     */
    method ScanHwmonDir(fs: Sysfs, hwmonDir: string) returns (dirFans: seq<Fan>)
      ensures dirFans == FansOfDir(fs, hwmonDir)
    {
      dirFans := [];
      var deviceName := ReadTextOr(fs, PathJoin(hwmonDir, "name"), Unknown);
      var fanFiles := Glob(fs, PathJoin(hwmonDir, "fan*_input"));
      var j := 0;
      while j < |fanFiles|
        invariant 0 <= j <= FirstMalformed(fanFiles)
        invariant dirFans == Somes(Probes(fs, hwmonDir, deviceName, fanFiles[..j]))
      {
        var fanFile := fanFiles[j];
        if !Contains(fanFile, FanMarker) {
          assert j == FirstMalformed(fanFiles);
          break;
        }
        var fanNum := FanNumber(fanFile);
        var fanLabel := ReadTextOr(fs, PathJoin(hwmonDir, "fan" + fanNum + "_label"), "Fan " + fanNum);
        ghost var probe := FanOf(fs, hwmonDir, deviceName, fanFile);
        ProbeStep(fs, hwmonDir, deviceName, fanFiles, j);
        match ReadInt(fs, fanFile) {
          case Some(speed) =>
            if speed >= 0 {
              var fan := Fan(deviceName + "_" + fanNum, fanFile, fanLabel, deviceName, fanNum,
                             deviceName + " - " + fanLabel);
              assert probe == Some(fan);
              dirFans := dirFans + [fan];
            } else {
              assert probe == None;
            }
          case None =>
            assert probe == None;
        }
        j := j + 1;
      }
      assert j == FirstMalformed(fanFiles);
      assert FanFiles(fs, hwmonDir) == fanFiles && DeviceName(fs, hwmonDir) == deviceName;
    }

    /**
     * The CPU temperature of the current readings: the priority search,
     * then the first readable zone.
     */
    method GetCpuTemperature(fs: Sysfs) returns (t: Option<real>)
      ensures t == CpuTemperature(thermalZones, fs)
    {
      var cpuTypes := CpuTypes;
      CpuTypesNonEmpty();
      var p := 0;
      while p < |cpuTypes|
        invariant 0 <= p <= |cpuTypes|
        invariant forall q :: 0 <= q < p ==> FirstMatching(thermalZones, fs, cpuTypes[q]).None?
      {
        var cpuType := cpuTypes[p];
        var i := 0;
        while i < |thermalZones|
          invariant 0 <= i <= |thermalZones|
          invariant FirstMatching(thermalZones[i..], fs, cpuType) == FirstMatching(thermalZones, fs, cpuType)
        {
          var zone := thermalZones[i];
          FirstMatchingStep(thermalZones, fs, cpuType, i);
          if Contains(Lower(zone.zoneType), Lower(cpuType)) {
            var temp := ReadTemperature(fs, zone.path);
            if temp.Some? {
              ByPriorityAt(cpuTypes, thermalZones, fs, p);
              return temp;
            }
          }
          i := i + 1;
        }
        assert thermalZones[i..] == [];
        p := p + 1;
      }
      ByPriorityNone(cpuTypes, thermalZones, fs);
      var i := 0;
      while i < |thermalZones|
        invariant 0 <= i <= |thermalZones|
        invariant FirstReadable(thermalZones[i..], fs) == FirstReadable(thermalZones, fs)
      {
        FirstReadableStep(thermalZones, fs, i);
        var temp := ReadTemperature(fs, thermalZones[i].path);
        if temp.Some? {
          return temp;
        }
        i := i + 1;
      }
      assert thermalZones[i..] == [];
      return None;
    }

    /** The zone loop of a temperature cycle: the new `current_temps` and `valid_temps`. */
    method ReadZones(fs: Sysfs) returns (temps: map<string, TempReading>, validTemps: seq<real>)
      ensures temps == TempSnapshot(thermalZones, fs)
      ensures validTemps == ReadableTemps(thermalZones, fs)
    {
      temps := map[];
      validTemps := [];
      var i := 0;
      while i < |thermalZones|
        invariant 0 <= i <= |thermalZones|
        invariant temps == TempSnapshot(thermalZones[..i], fs)
        invariant validTemps == ReadableTemps(thermalZones[..i], fs)
      {
        var zone := thermalZones[i];
        var temp := ReadTemperature(fs, zone.path);
        if temp.Some? {
          temps := temps[zone.id := TempReading(temp.value, zone.zoneType, zone.name)];
          validTemps := validTemps + [temp.value];
        }
        PrefixStep(thermalZones, fs, i);
        i := i + 1;
      }
      assert thermalZones[..i] == thermalZones;
    }

    /**
     * One temperature cycle: `current_temps` becomes the readings of the
     * zones; when some zone reads, the CPU temperature is appended to the
     * history under the time stamp `now` and the statistics are recomputed
     * from the newest entries. A cycle where nothing reads leaves the
     * history and the statistics alone.
     */
    method UpdateTemperatures(fs: Sysfs, now: string)
      requires Valid()
      modifies this`currentTemps, this`history, this`stats
      ensures Valid()
      ensures currentTemps == TempSnapshot(thermalZones, fs)
      ensures CpuTemperature(thermalZones, fs).None? ==> history == old(history) && stats == old(stats)
      ensures CpuTemperature(thermalZones, fs).Some? ==>
                history == Recent(old(history) + [Entry(now, CpuTemperature(thermalZones, fs).value)], Capacity) &&
                stats == StatsOf(history)
    {
      var temps, validTemps := ReadZones(fs);
      currentTemps := temps;
      ReadableTempsCpu(thermalZones, fs);
      if |validTemps| > 0 {
        var cpuTemp := GetCpuTemperature(fs);
        if cpuTemp.Some? {
          RecordCpuTemperature(cpuTemp.value, now);
        }
      }
    }

    /**
     * The statistics update of a cycle that read a CPU temperature: the
     * reading becomes the current CPU temperature, is appended to the
     * history, and the average, maximum and minimum are recomputed over the
     * newest entries.
     */
    method RecordCpuTemperature(cpuTemp: real, now: string)
      requires Valid()
      modifies this`history, this`stats
      ensures Valid()
      ensures history == Recent(old(history) + [Entry(now, cpuTemp)], Capacity)
      ensures stats == StatsOf(history) && stats.cpuTemp == cpuTemp
    {
      stats := stats.(cpuTemp := cpuTemp);
      history := Append(history, Entry(now, cpuTemp), Capacity);
      var recent := Window(Temperatures(history));
      if |recent| > 0 {
        stats := stats.(avgTemp := Mean(recent), maxTemp := Max(recent), minTemp := Min(recent));
      }
    }

    /** One fan cycle: `current_fans` becomes the readings of the fans. */
    method UpdateFans(fs: Sysfs)
      modifies this`currentFans
      ensures currentFans == FanSnapshot(fanSensors, fs)
    {
      var fans: map<string, FanReading> := map[];
      var i := 0;
      while i < |fanSensors|
        invariant 0 <= i <= |fanSensors|
        invariant fans == FanSnapshot(fanSensors[..i], fs)
      {
        var fan := fanSensors[i];
        var speed := ReadFanSpeed(fs, fan.path);
        if speed.Some? {
          fans := fans[fan.id := FanReading(speed.value, fan.fanLabel, fan.device, fan.name)];
        }
        assert FanEntries(fanSensors[..i + 1], fs) == FanEntries(fanSensors[..i], fs) + [Keyed(fan.id, FanReadingOf(fs, fan))];
        CollectSnoc(FanEntries(fanSensors[..i], fs), Keyed(fan.id, FanReadingOf(fs, fan)));
        i := i + 1;
      }
      assert fanSensors[..i] == fanSensors;
      currentFans := fans;
    }

    /**
     * One iteration of the monitoring loop: a temperature cycle, then a fan
     * cycle, against the same sensor files.
     */
    method Cycle(fs: Sysfs, now: string)
      requires Valid()
      modifies this`currentTemps, this`currentFans, this`history, this`stats
      ensures Valid()
      ensures history == Recent(old(history) + CycleEntry(thermalZones, fs, now), Capacity)
      ensures currentTemps == TempSnapshot(thermalZones, fs) && currentFans == FanSnapshot(fanSensors, fs)
    {
      UpdateTemperatures(fs, now);
      UpdateFans(fs);
      if CpuTemperature(thermalZones, fs).None? {
        assert old(history) + [] == old(history);
        assert |old(history)| <= Capacity;
      }
    }

    /**
     * The monitoring loop run for `|cycles|` iterations, iteration `k`
     * seeing the sensor files as `cycles[k]` and stamped `stamps[k]`. The
     * history ends as the newest entries, up to the capacity, of the old
     * history followed by one entry per iteration that read a CPU
     * temperature.
     */
    method MonitorLoop(cycles: seq<Sysfs>, stamps: seq<string>)
      requires Valid() && |cycles| == |stamps|
      modifies this`currentTemps, this`currentFans, this`history, this`stats
      ensures Valid()
      ensures history == Recent(old(history) + CycleEntries(thermalZones, cycles, stamps), Capacity)
      ensures |cycles| > 0 ==>
                currentTemps == TempSnapshot(thermalZones, cycles[|cycles| - 1]) &&
                currentFans == FanSnapshot(fanSensors, cycles[|cycles| - 1])
      ensures |cycles| == 0 ==> currentTemps == old(currentTemps) && currentFans == old(currentFans)
    {
      ghost var h0 := history;
      var k := 0;
      assert CycleEntries(thermalZones, cycles[..0], stamps[..0]) == [];
      assert h0 + [] == h0;
      while k < |cycles|
        invariant 0 <= k <= |cycles|
        invariant Valid()
        invariant history == Recent(h0 + CycleEntries(thermalZones, cycles[..k], stamps[..k]), Capacity)
        invariant k > 0 ==>
                    currentTemps == TempSnapshot(thermalZones, cycles[k - 1]) &&
                    currentFans == FanSnapshot(fanSensors, cycles[k - 1])
        invariant k == 0 ==> currentTemps == old(currentTemps) && currentFans == old(currentFans)
      {
        ghost var h := h0 + CycleEntries(thermalZones, cycles[..k], stamps[..k]);
        Cycle(cycles[k], stamps[k]);
        CycleEntriesStep(thermalZones, cycles, stamps, k, h0);
        RecentOfConcat(h, CycleEntry(thermalZones, cycles[k], stamps[k]), Capacity);
        k := k + 1;
      }
      assert cycles[..k] == cycles && stamps[..k] == stamps;
    }
  }

  /** The history entry one iteration produces: one when it read a CPU temperature, none otherwise. */
  function CycleEntry(zones: seq<Zone>, fs: Sysfs, stamp: string): (es: seq<Entry>)
    ensures |es| <= 1
  {
    match CpuTemperature(zones, fs)
    case Some(t) => [Entry(stamp, t)]
    case None => []
  }

  /** The history entries a run of iterations produces, in order. */
  function CycleEntries(zones: seq<Zone>, cycles: seq<Sysfs>, stamps: seq<string>): seq<Entry>
    requires |cycles| == |stamps|
    decreases |cycles|
  {
    if |cycles| == 0 then []
    else
      var n := |cycles| - 1;
      CycleEntries(zones, cycles[..n], stamps[..n]) + CycleEntry(zones, cycles[n], stamps[n])
  }

  lemma CycleEntriesStep(zones: seq<Zone>, cycles: seq<Sysfs>, stamps: seq<string>, k: nat, h0: seq<Entry>)
    requires |cycles| == |stamps| && k < |cycles|
    ensures h0 + CycleEntries(zones, cycles[..k + 1], stamps[..k + 1]) ==
              (h0 + CycleEntries(zones, cycles[..k], stamps[..k])) + CycleEntry(zones, cycles[k], stamps[k])
  {
    assert cycles[..k + 1][..k] == cycles[..k];
    assert stamps[..k + 1][..k] == stamps[..k];
  }

  /** Probing one more well-formed fan input adds its fan, if any, to the directory's fans. */
  lemma ProbeStep(fs: Sysfs, hwmonDir: string, device: string, files: seq<string>, j: nat)
    requires j < FirstMalformed(files)
    ensures var probe := FanOf(fs, hwmonDir, device, files[j]);
            Somes(Probes(fs, hwmonDir, device, files[..j + 1])) ==
              Somes(Probes(fs, hwmonDir, device, files[..j])) + (if probe.Some? then [probe.value] else [])
  {
    ProbesSnoc(fs, hwmonDir, device, files, j);
    SomesAppend(Probes(fs, hwmonDir, device, files[..j]), FanOf(fs, hwmonDir, device, files[j]));
  }

  /** One more thermal glob result extends the discovered zones by that file's zone. */
  lemma DiscoveredZonesStep(fs: Sysfs, i: nat)
    requires ZoneGlobWellFormed(fs) && i < |Glob(fs, ThermalPattern)|
    ensures DiscoveredZones(fs)[..i + 1] == DiscoveredZones(fs)[..i] + [ZoneOf(fs, Glob(fs, ThermalPattern)[i])]
  {
    PrefixSnoc(DiscoveredZones(fs), i);
  }

  /** One cycle of the zone loop extends both the snapshot and `valid_temps` by one zone. */
  lemma PrefixStep(zones: seq<Zone>, fs: Sysfs, i: nat)
    requires i < |zones|
    ensures TempSnapshot(zones[..i + 1], fs) ==
              match ReadTemperature(fs, zones[i].path)
              case Some(t) => TempSnapshot(zones[..i], fs)[zones[i].id := TempReading(t, zones[i].zoneType, zones[i].name)]
              case None => TempSnapshot(zones[..i], fs)
    ensures ReadableTemps(zones[..i + 1], fs) ==
              ReadableTemps(zones[..i], fs) +
                match ReadTemperature(fs, zones[i].path)
                case Some(t) => [t]
                case None => []
  {
    var z := zones[i];
    assert TempEntries(zones[..i + 1], fs) == TempEntries(zones[..i], fs) + [Keyed(z.id, TempReadingOf(fs, z))];
    CollectSnoc(TempEntries(zones[..i], fs), Keyed(z.id, TempReadingOf(fs, z)));
    assert Readings(zones[..i + 1], fs) == Readings(zones[..i], fs) + [ReadTemperature(fs, z.path)];
    SomesAppend(Readings(zones[..i], fs), ReadTemperature(fs, z.path));
  }
}
