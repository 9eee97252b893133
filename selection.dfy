/**
 * Choosing the CPU temperature from one cycle's zone readings: the first
 * readable zone whose type contains, ignoring case, the earliest possible
 * entry of a fixed priority list; failing that, the first readable zone.
 */
module CpuSelection {
  import opened Wrappers
  import opened PyStr
  import opened Sysfs
  import opened Sensors

  const CpuTypes: seq<string> := ["x86_pkg_temp", "cpu_thermal", "coretemp", "acpi-0"]

  lemma CpuTypesNonEmpty()
    ensures forall p :: 0 <= p < |CpuTypes| ==> |CpuTypes[p]| > 0
  {
  }

  /** `cpu_type.lower() in zone['type'].lower()`. */
  predicate Matches(z: Zone, cpuType: string)
    requires |cpuType| > 0
  {
    Contains(Lower(z.zoneType), Lower(cpuType))
  }

  predicate Readable(fs: Sysfs, z: Zone) {
    ReadTemperature(fs, z.path).Some?
  }

  /** A readable zone that matches `cpuType`. */
  predicate Hit(fs: Sysfs, z: Zone, cpuType: string)
    requires |cpuType| > 0
  {
    Matches(z, cpuType) && Readable(fs, z)
  }

  /** The reading of the first zone, in zone order, that matches `cpuType` and reads. */
  function FirstMatching(zones: seq<Zone>, fs: Sysfs, cpuType: string): Option<real>
    requires |cpuType| > 0
    decreases |zones|
  {
    if |zones| == 0 then None
    else if Hit(fs, zones[0], cpuType) then ReadTemperature(fs, zones[0].path)
    else FirstMatching(zones[1..], fs, cpuType)
  }

  /** The reading of the first zone, in zone order, that reads. */
  function FirstReadable(zones: seq<Zone>, fs: Sysfs): Option<real>
    decreases |zones|
  {
    if |zones| == 0 then None
    else if Readable(fs, zones[0]) then ReadTemperature(fs, zones[0].path)
    else FirstReadable(zones[1..], fs)
  }

  /** The priority search over `types`, in order. */
  function ByPriority(types: seq<string>, zones: seq<Zone>, fs: Sysfs): Option<real>
    requires forall p :: 0 <= p < |types| ==> |types[p]| > 0
    decreases |types|
  {
    if |types| == 0 then None
    else
      match FirstMatching(zones, fs, types[0])
      case Some(t) => Some(t)
      case None => ByPriority(types[1..], zones, fs)
  }

  /** `get_cpu_temperature`, evaluated against one cycle's readings. */
  function CpuTemperature(zones: seq<Zone>, fs: Sysfs): Option<real> {
    match ByPriority(CpuTypes, zones, fs)
    case Some(t) => Some(t)
    case None => FirstReadable(zones, fs)
  }

  /** One step of the search for `cpuType` from zone `i` on. */
  lemma FirstMatchingStep(zones: seq<Zone>, fs: Sysfs, cpuType: string, i: nat)
    requires |cpuType| > 0 && i < |zones|
    ensures FirstMatching(zones[i..], fs, cpuType) ==
              if Hit(fs, zones[i], cpuType) then ReadTemperature(fs, zones[i].path)
              else FirstMatching(zones[i + 1..], fs, cpuType)
  {
    assert zones[i..][1..] == zones[i + 1..];
  }

  /** One step of the fallback search from zone `i` on. */
  lemma FirstReadableStep(zones: seq<Zone>, fs: Sysfs, i: nat)
    requires i < |zones|
    ensures FirstReadable(zones[i..], fs) ==
              if Readable(fs, zones[i]) then ReadTemperature(fs, zones[i].path)
              else FirstReadable(zones[i + 1..], fs)
  {
    assert zones[i..][1..] == zones[i + 1..];
  }

  // ---------------------------------------------------------------------------
  // What the search returns, stated by zone and priority index

  lemma {:induction false} FirstMatchingNone(zones: seq<Zone>, fs: Sysfs, cpuType: string)
    requires |cpuType| > 0
    ensures FirstMatching(zones, fs, cpuType).None? <==>
              forall j :: 0 <= j < |zones| ==> !Hit(fs, zones[j], cpuType)
    decreases |zones|
  {
    if |zones| > 0 {
      FirstMatchingNone(zones[1..], fs, cpuType);
      assert forall j :: 1 <= j < |zones| ==> zones[j] == zones[1..][j - 1];
    }
  }

  lemma {:induction false} FirstMatchingAt(zones: seq<Zone>, fs: Sysfs, cpuType: string, i: nat)
    requires |cpuType| > 0 && i < |zones|
    requires Hit(fs, zones[i], cpuType)
    requires forall j :: 0 <= j < i ==> !Hit(fs, zones[j], cpuType)
    ensures FirstMatching(zones, fs, cpuType) == ReadTemperature(fs, zones[i].path)
    decreases |zones|
  {
    if i > 0 {
      assert !Hit(fs, zones[0], cpuType);
      assert forall j :: 0 <= j < i - 1 ==> zones[1..][j] == zones[j + 1];
      FirstMatchingAt(zones[1..], fs, cpuType, i - 1);
    }
  }

  lemma {:induction false} FirstReadableNone(zones: seq<Zone>, fs: Sysfs)
    ensures FirstReadable(zones, fs).None? <==> forall j :: 0 <= j < |zones| ==> !Readable(fs, zones[j])
    decreases |zones|
  {
    if |zones| > 0 {
      FirstReadableNone(zones[1..], fs);
      assert forall j :: 1 <= j < |zones| ==> zones[j] == zones[1..][j - 1];
    }
  }

  lemma {:induction false} FirstReadableAt(zones: seq<Zone>, fs: Sysfs, i: nat)
    requires i < |zones| && Readable(fs, zones[i])
    requires forall j :: 0 <= j < i ==> !Readable(fs, zones[j])
    ensures FirstReadable(zones, fs) == ReadTemperature(fs, zones[i].path)
    decreases |zones|
  {
    if i > 0 {
      assert !Readable(fs, zones[0]);
      assert forall j :: 0 <= j < i - 1 ==> zones[1..][j] == zones[j + 1];
      FirstReadableAt(zones[1..], fs, i - 1);
    }
  }

  /** The priority search ends at the first type that has a hit, and returns that type's first hit. */
  lemma {:induction false} ByPriorityAt(types: seq<string>, zones: seq<Zone>, fs: Sysfs, p: nat)
    requires forall q :: 0 <= q < |types| ==> |types[q]| > 0
    requires p < |types|
    requires forall q :: 0 <= q < p ==> FirstMatching(zones, fs, types[q]).None?
    requires FirstMatching(zones, fs, types[p]).Some?
    ensures ByPriority(types, zones, fs) == FirstMatching(zones, fs, types[p])
    decreases |types|
  {
    if p > 0 {
      assert FirstMatching(zones, fs, types[0]).None?;
      assert forall q :: 0 <= q < p - 1 ==> types[1..][q] == types[q + 1];
      ByPriorityAt(types[1..], zones, fs, p - 1);
    }
  }

  lemma {:induction false} ByPriorityNone(types: seq<string>, zones: seq<Zone>, fs: Sysfs)
    requires forall q :: 0 <= q < |types| ==> |types[q]| > 0
    ensures ByPriority(types, zones, fs).None? <==>
              forall q :: 0 <= q < |types| ==> FirstMatching(zones, fs, types[q]).None?
    decreases |types|
  {
    if |types| > 0 {
      ByPriorityNone(types[1..], zones, fs);
      assert forall q :: 1 <= q < |types| ==> types[q] == types[1..][q - 1];
    }
  }

  /**
   * Priority: when zone `i` is readable and matches priority `p`, no
   * readable zone matches an earlier priority and no earlier zone is a
   * readable match for `p`, the CPU temperature is zone `i`'s reading.
   */
  lemma CpuTemperaturePriority(zones: seq<Zone>, fs: Sysfs, p: nat, i: nat)
    requires p < |CpuTypes| && i < |zones|
    requires Hit(fs, zones[i], CpuTypes[p])
    requires forall q, j :: 0 <= q < p && 0 <= j < |zones| ==> !Hit(fs, zones[j], CpuTypes[q])
    requires forall j :: 0 <= j < i ==> !Hit(fs, zones[j], CpuTypes[p])
    ensures CpuTemperature(zones, fs) == ReadTemperature(fs, zones[i].path)
  {
    forall q | 0 <= q < p ensures FirstMatching(zones, fs, CpuTypes[q]).None? {
      FirstMatchingNone(zones, fs, CpuTypes[q]);
    }
    FirstMatchingAt(zones, fs, CpuTypes[p], i);
    ByPriorityAt(CpuTypes, zones, fs, p);
  }

  /**
   * Fallback: when no readable zone matches any priority, the CPU
   * temperature is the reading of the first readable zone.
   */
  lemma CpuTemperatureFallback(zones: seq<Zone>, fs: Sysfs, i: nat)
    requires i < |zones| && Readable(fs, zones[i])
    requires forall q, j :: 0 <= q < |CpuTypes| && 0 <= j < |zones| ==> !Hit(fs, zones[j], CpuTypes[q])
    requires forall j :: 0 <= j < i ==> !Readable(fs, zones[j])
    ensures CpuTemperature(zones, fs) == ReadTemperature(fs, zones[i].path)
  {
    forall q | 0 <= q < |CpuTypes| ensures FirstMatching(zones, fs, CpuTypes[q]).None? {
      FirstMatchingNone(zones, fs, CpuTypes[q]);
    }
    ByPriorityNone(CpuTypes, zones, fs);
    FirstReadableAt(zones, fs, i);
  }

  /** No CPU temperature exactly when no zone reads. */
  lemma CpuTemperatureNone(zones: seq<Zone>, fs: Sysfs)
    ensures CpuTemperature(zones, fs).None? <==> forall j :: 0 <= j < |zones| ==> !Readable(fs, zones[j])
  {
    FirstReadableNone(zones, fs);
    if CpuTemperature(zones, fs).None? {
      assert FirstReadable(zones, fs).None?;
    } else if forall j :: 0 <= j < |zones| ==> !Readable(fs, zones[j]) {
      forall q | 0 <= q < |CpuTypes| ensures FirstMatching(zones, fs, CpuTypes[q]).None? {
        FirstMatchingNone(zones, fs, CpuTypes[q]);
      }
      ByPriorityNone(CpuTypes, zones, fs);
    }
  }

  lemma {:induction false} FirstMatchingIsReading(zones: seq<Zone>, fs: Sysfs, cpuType: string)
    requires |cpuType| > 0
    ensures FirstMatching(zones, fs, cpuType).Some? ==>
              exists j :: 0 <= j < |zones| && Hit(fs, zones[j], cpuType) &&
                          ReadTemperature(fs, zones[j].path) == FirstMatching(zones, fs, cpuType)
    decreases |zones|
  {
    if |zones| > 0 && !Hit(fs, zones[0], cpuType) {
      FirstMatchingIsReading(zones[1..], fs, cpuType);
      if FirstMatching(zones, fs, cpuType).Some? {
        var j :| 0 <= j < |zones[1..]| && Hit(fs, zones[1..][j], cpuType) &&
                 ReadTemperature(fs, zones[1..][j].path) == FirstMatching(zones[1..], fs, cpuType);
        assert zones[1..][j] == zones[j + 1];
      }
    }
  }

  lemma {:induction false} FirstReadableIsReading(zones: seq<Zone>, fs: Sysfs)
    ensures FirstReadable(zones, fs).Some? ==>
              exists j :: 0 <= j < |zones| && ReadTemperature(fs, zones[j].path) == FirstReadable(zones, fs)
    decreases |zones|
  {
    if |zones| > 0 && !Readable(fs, zones[0]) {
      FirstReadableIsReading(zones[1..], fs);
      if FirstReadable(zones, fs).Some? {
        var j :| 0 <= j < |zones[1..]| &&
                 ReadTemperature(fs, zones[1..][j].path) == FirstReadable(zones[1..], fs);
        assert zones[1..][j] == zones[j + 1];
      }
    }
  }

  lemma {:induction false} ByPriorityIsMatch(types: seq<string>, zones: seq<Zone>, fs: Sysfs)
    requires forall q :: 0 <= q < |types| ==> |types[q]| > 0
    ensures ByPriority(types, zones, fs).Some? ==>
              exists q :: 0 <= q < |types| && FirstMatching(zones, fs, types[q]) == ByPriority(types, zones, fs)
    decreases |types|
  {
    if |types| > 0 && FirstMatching(zones, fs, types[0]).None? {
      ByPriorityIsMatch(types[1..], zones, fs);
      if ByPriority(types, zones, fs).Some? {
        var q :| 0 <= q < |types[1..]| && FirstMatching(zones, fs, types[1..][q]) == ByPriority(types[1..], zones, fs);
        assert types[1..][q] == types[q + 1];
      }
    }
  }

  /** A CPU temperature, when there is one, is the reading of some zone. */
  lemma CpuTemperatureIsReading(zones: seq<Zone>, fs: Sysfs)
    ensures CpuTemperature(zones, fs).Some? ==>
              exists j :: 0 <= j < |zones| && ReadTemperature(fs, zones[j].path) == CpuTemperature(zones, fs)
  {
    ByPriorityIsMatch(CpuTypes, zones, fs);
    FirstReadableIsReading(zones, fs);
    if ByPriority(CpuTypes, zones, fs).Some? {
      var q :| 0 <= q < |CpuTypes| && FirstMatching(zones, fs, CpuTypes[q]) == ByPriority(CpuTypes, zones, fs);
      FirstMatchingIsReading(zones, fs, CpuTypes[q]);
    }
  }

  /**
   * A readable `coretemp` zone does not win over a readable `x86_pkg_temp`
   * zone listed after it: the earlier priority entry decides.
   * `CpuTemperaturePriority` states the general rule.
   */
  lemma PackageBeforeCoretemp(fs: Sysfs, core: Zone, pkg: Zone)
    requires core.zoneType == "coretemp" && pkg.zoneType == "x86_pkg_temp"
    requires Readable(fs, core) && Readable(fs, pkg)
    ensures CpuTemperature([core, pkg], fs) == ReadTemperature(fs, pkg.path)
  {
    var zones := [core, pkg];
    assert Lower("x86_pkg_temp") == "x86_pkg_temp";
    assert Lower("coretemp") == "coretemp";
    assert OccursAt("x86_pkg_temp", "x86_pkg_temp", 0);
    assert Contains("x86_pkg_temp", "x86_pkg_temp");
    assert !Contains("coretemp", "x86_pkg_temp");
    CpuTemperaturePriority(zones, fs, 0, 1);
  }
}
