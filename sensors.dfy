/**
 * Sensor discovery: turning the paths that the two glob patterns return
 * into thermal-zone and fan-sensor records. Discovery runs once; the
 * records it builds are never changed afterwards.
 */
module Sensors {
  import opened Wrappers
  import opened PyStr
  import opened PosixPath
  import opened Sysfs

  /** A thermal zone: `id`, `path` of its `temp` file, `type` (driver classification) and display `name`. */
  datatype Zone = Zone(id: string, path: string, zoneType: string, name: string)

  /** A fan input that passed the probe read. */
  datatype Fan = Fan(id: string, path: string, fanLabel: string, device: string, fanNum: string, name: string)

  const ThermalPattern := "/sys/class/thermal/thermal_zone*/temp"
  const HwmonPattern := "/sys/class/hwmon/hwmon*"
  const ZoneMarker := "thermal_zone"
  const FanMarker := "fan"
  const Unknown := "unknown"

  /** Every path the thermal glob returns has the `thermal_zone` marker the pattern spells out. */
  predicate ZoneGlobWellFormed(fs: Sysfs) {
    forall k :: 0 <= k < |Glob(fs, ThermalPattern)| ==> Contains(Glob(fs, ThermalPattern)[k], ZoneMarker)
  }

  /** `temp_file.split('thermal_zone')[1].split('/')[0]`. */
  function ZoneNumber(tempFile: string): (n: string)
    requires Contains(tempFile, ZoneMarker)
    ensures '/' !in n
  {
    var n := Before(After(tempFile, ZoneMarker), "/");
    CharNotContained(n, '/');
    n
  }

  /** The record discovery builds for one `temp` file. */
  function ZoneOf(fs: Sysfs, tempFile: string): Zone
    requires Contains(tempFile, ZoneMarker)
  {
    var id := ZoneNumber(tempFile);
    var zoneType := ReadTextOr(fs, PathJoin(DirName(tempFile), "type"), Unknown);
    Zone(id, tempFile, zoneType, "Zone " + id + " (" + zoneType + ")")
  }

  /** The zones that `discover_thermal_zones` appends, in glob order. */
  function DiscoveredZones(fs: Sysfs): (zs: seq<Zone>)
    requires ZoneGlobWellFormed(fs)
  {
    var files := Glob(fs, ThermalPattern);
    seq(|files|, k requires 0 <= k < |files| => ZoneOf(fs, files[k]))
  }

  /** `fan_file.split('fan')[1].split('_')[0]`. */
  function FanNumber(fanFile: string): string
    requires Contains(fanFile, FanMarker)
  {
    Before(After(fanFile, FanMarker), "_")
  }

  /** The device name of a hwmon directory, `'unknown'` when its `name` file cannot be read. */
  function DeviceName(fs: Sysfs, hwmonDir: string): string {
    ReadTextOr(fs, PathJoin(hwmonDir, "name"), Unknown)
  }

  /** The fan inputs of a hwmon directory, in glob order. */
  function FanFiles(fs: Sysfs, hwmonDir: string): seq<string> {
    Glob(fs, PathJoin(hwmonDir, "fan*_input"))
  }

  /** The record for one fan input, or None when its probe read fails or is negative. */
  function FanOf(fs: Sysfs, hwmonDir: string, device: string, fanFile: string): Option<Fan>
    requires Contains(fanFile, FanMarker)
  {
    var num := FanNumber(fanFile);
    var fanLabel := ReadTextOr(fs, PathJoin(hwmonDir, "fan" + num + "_label"), "Fan " + num);
    match ReadInt(fs, fanFile)
    case Some(speed) =>
      if speed >= 0 then Some(Fan(device + "_" + num, fanFile, fanLabel, device, num, device + " - " + fanLabel))
      else None
    case None => None
  }

  /**
   * Index of the first fan input without the `fan` marker. Extracting its
   * number raises, and the handler around the directory abandons the rest
   * of that directory.
   */
  function FirstMalformed(files: seq<string>): (k: nat)
    ensures k <= |files|
    ensures forall j :: 0 <= j < k ==> Contains(files[j], FanMarker)
    ensures k < |files| ==> !Contains(files[k], FanMarker)
  {
    if |files| == 0 then 0
    else if !Contains(files[0], FanMarker) then 0
    else 1 + FirstMalformed(files[1..])
  }

  /** The probe outcome of each fan input of a run of well-formed inputs, in order. */
  function Probes(fs: Sysfs, hwmonDir: string, device: string, files: seq<string>): (ps: seq<Option<Fan>>)
    requires forall j :: 0 <= j < |files| ==> Contains(files[j], FanMarker)
    ensures |ps| == |files|
    decreases |files|
  {
    if |files| == 0 then []
    else Probes(fs, hwmonDir, device, files[..|files| - 1]) + [FanOf(fs, hwmonDir, device, files[|files| - 1])]
  }

  /** Probing one more well-formed input extends the probe outcomes by that input's outcome. */
  lemma ProbesSnoc(fs: Sysfs, hwmonDir: string, device: string, files: seq<string>, j: nat)
    requires j < FirstMalformed(files)
    ensures Probes(fs, hwmonDir, device, files[..j + 1]) ==
              Probes(fs, hwmonDir, device, files[..j]) + [FanOf(fs, hwmonDir, device, files[j])]
  {
    assert files[..j + 1][..j] == files[..j];
  }

  /** The outcome at position `k` is the probe of input `k`. */
  lemma {:induction false} ProbesAt(fs: Sysfs, hwmonDir: string, device: string, files: seq<string>, k: nat)
    requires forall j :: 0 <= j < |files| ==> Contains(files[j], FanMarker)
    requires k < |files|
    ensures Probes(fs, hwmonDir, device, files)[k] == FanOf(fs, hwmonDir, device, files[k])
    decreases |files|
  {
    if k < |files| - 1 {
      var init := files[..|files| - 1];
      assert init[k] == files[k];
      ProbesAt(fs, hwmonDir, device, init, k);
    }
  }

  /** The fans one hwmon directory contributes. */
  function FansOfDir(fs: Sysfs, hwmonDir: string): seq<Fan> {
    var files := FanFiles(fs, hwmonDir);
    Somes(Probes(fs, hwmonDir, DeviceName(fs, hwmonDir), files[..FirstMalformed(files)]))
  }

  /** The fans of a run of hwmon directories, directory by directory. */
  function FansOfDirs(fs: Sysfs, dirs: seq<string>): seq<Fan>
    decreases |dirs|
  {
    if |dirs| == 0 then [] else FansOfDirs(fs, dirs[..|dirs| - 1]) + FansOfDir(fs, dirs[|dirs| - 1])
  }

  /** One more directory appends that directory's fans. */
  lemma FansOfDirsStep(fs: Sysfs, dirs: seq<string>, d: nat)
    requires d < |dirs|
    ensures FansOfDirs(fs, dirs[..d + 1]) == FansOfDirs(fs, dirs[..d]) + FansOfDir(fs, dirs[d])
  {
    assert dirs[..d + 1][..d] == dirs[..d];
  }

  /** The list `discover_fan_sensors` stores. */
  function DiscoveredFans(fs: Sysfs): seq<Fan> {
    FansOfDirs(fs, Glob(fs, HwmonPattern))
  }

  /** The record shape every discovered fan has, tied to the fan input it was probed from. */
  predicate FanRecordOf(fs: Sysfs, hwmonDir: string, f: Fan) {
    && Contains(f.path, FanMarker)
    && ReadInt(fs, f.path).Some? && ReadInt(fs, f.path).value >= 0
    && f.fanNum == FanNumber(f.path)
    && f.device == DeviceName(fs, hwmonDir)
    && f.fanLabel == ReadTextOr(fs, PathJoin(hwmonDir, "fan" + f.fanNum + "_label"), "Fan " + f.fanNum)
    && f.id == f.device + "_" + f.fanNum
    && f.name == f.device + " - " + f.fanLabel
  }

  // ---------------------------------------------------------------------------
  // Properties of discovery

  /** A one-character separator that is not contained does not occur at all. */
  lemma CharNotContained(s: string, c: char)
    requires !Contains(s, [c])
    ensures c !in s
  {
    forall k | 0 <= k < |s| ensures s[k] != c {
      assert s[k..k + 1] == [s[k]];
      assert !OccursAt(s, [c], k);
    }
  }

  /** A probe read decides whether a fan input is recorded: present and non-negative. */
  lemma FanOfProbe(fs: Sysfs, hwmonDir: string, device: string, fanFile: string)
    requires Contains(fanFile, FanMarker)
    ensures FanOf(fs, hwmonDir, device, fanFile).Some? <==>
              ReadInt(fs, fanFile).Some? && ReadInt(fs, fanFile).value >= 0
    ensures FanOf(fs, hwmonDir, device, fanFile).Some? && device == DeviceName(fs, hwmonDir) ==>
              FanRecordOf(fs, hwmonDir, FanOf(fs, hwmonDir, device, fanFile).value)
    ensures FanOf(fs, hwmonDir, device, fanFile).Some? ==>
              FanOf(fs, hwmonDir, device, fanFile).value.path == fanFile
  {
  }

  /**
   * Soundness of fan discovery: every recorded fan passed its probe read,
   * carries the device, label, id and name derived from its hwmon directory,
   * and came from a fan input that directory's glob returned before its
   * first malformed entry.
   */
  lemma {:induction false} DiscoveredFansSound(fs: Sysfs, dirs: seq<string>, f: Fan)
    requires f in FansOfDirs(fs, dirs)
    ensures exists d :: 0 <= d < |dirs| && FanRecordOf(fs, dirs[d], f) &&
              f.path in FanFiles(fs, dirs[d])[..FirstMalformed(FanFiles(fs, dirs[d]))]
    decreases |dirs|
  {
    var init := dirs[..|dirs| - 1];
    var dir := dirs[|dirs| - 1];
    if f in FansOfDirs(fs, init) {
      DiscoveredFansSound(fs, init, f);
      var d :| 0 <= d < |init| && FanRecordOf(fs, init[d], f) &&
                f.path in FanFiles(fs, init[d])[..FirstMalformed(FanFiles(fs, init[d]))];
      assert dirs[d] == init[d];
    } else {
      FansOfDirSound(fs, dir, f);
    }
  }

  /** Soundness of the scan of one hwmon directory. */
  lemma FansOfDirSound(fs: Sysfs, dir: string, f: Fan)
    requires f in FansOfDir(fs, dir)
    ensures FanRecordOf(fs, dir, f) && f.path in FanFiles(fs, dir)[..FirstMalformed(FanFiles(fs, dir))]
  {
    var files := FanFiles(fs, dir);
    var run := files[..FirstMalformed(files)];
    var ps := Probes(fs, dir, DeviceName(fs, dir), run);
    SomesMembers(ps, f);
    var j :| 0 <= j < |ps| && ps[j] == Some(f);
    ProbesAt(fs, dir, DeviceName(fs, dir), run, j);
    FanOfProbe(fs, dir, DeviceName(fs, dir), run[j]);
  }

  /**
   * Completeness of fan discovery: a fan input of a listed hwmon directory,
   * ahead of the first malformed entry, whose probe reads a non-negative
   * integer is recorded.
   */
  lemma {:induction false} DiscoveredFansComplete(fs: Sysfs, dirs: seq<string>, d: nat, j: nat)
    requires d < |dirs|
    requires j < FirstMalformed(FanFiles(fs, dirs[d]))
    requires ReadInt(fs, FanFiles(fs, dirs[d])[j]).Some? && ReadInt(fs, FanFiles(fs, dirs[d])[j]).value >= 0
    ensures FanOf(fs, dirs[d], DeviceName(fs, dirs[d]), FanFiles(fs, dirs[d])[j]).Some?
    ensures FanOf(fs, dirs[d], DeviceName(fs, dirs[d]), FanFiles(fs, dirs[d])[j]).value in FansOfDirs(fs, dirs)
    decreases |dirs|
  {
    var dir := dirs[d];
    var files := FanFiles(fs, dir);
    var run := files[..FirstMalformed(files)];
    FanOfProbe(fs, dir, DeviceName(fs, dir), files[j]);
    var f := FanOf(fs, dir, DeviceName(fs, dir), files[j]).value;
    if d == |dirs| - 1 {
      var ps := Probes(fs, dir, DeviceName(fs, dir), run);
      ProbesAt(fs, dir, DeviceName(fs, dir), run, j);
      assert ps[j] == Some(f);
      SomesMembers(ps, f);
    } else {
      var init := dirs[..|dirs| - 1];
      assert init[d] == dir;
      DiscoveredFansComplete(fs, init, d, j);
    }
  }

  /** The text after the first marker, when the prefix before it cannot hold or straddle one. */
  lemma AfterMarker(root: string, marker: string, rest: string)
    requires |marker| > 0 && !Contains(root, marker)
    requires |root| > 0 && root[|root| - 1] !in marker
    ensures Contains(root + marker + rest, marker)
    ensures After(root + marker + rest, marker) == Before(rest, marker)
  {
    assert root + marker + rest == root + (marker + rest);
    BeforeConcat(root, marker + rest, marker);
    BeforeLeading(rest, marker);
  }

  /** A piece that holds no separator ends where the separator first occurs. */
  lemma BeforeSeparator(n: string, sep: string, rest: string)
    requires |sep| > 0 && !Contains(n, sep)
    requires |n| == 0 || n[|n| - 1] !in sep
    ensures Before(n + sep + rest, sep) == n
  {
    assert n + sep + rest == n + (sep + rest);
    BeforeConcat(n, sep + rest, sep);
    BeforeLeading(rest, sep);
  }

  /** A text without the separator, followed by a tail without it that cannot straddle, is one piece. */
  lemma BeforeNoSeparator(n: string, sep: string, tail: string)
    requires |sep| > 0 && !Contains(n, sep) && !Contains(tail, sep)
    requires |tail| > 0 && tail[0] !in sep
    ensures Before(n + tail, sep) == n + tail
  {
    BeforeConcat(n, tail, sep);
    BeforeFree(tail, sep);
  }

  const ThermalRoot := "/sys/class/thermal/"

  /** The id part of a kernel-style zone path. */
  lemma ZoneNumberKernelPath(n: string)
    requires '/' !in n && !Contains(n, ZoneMarker)
    ensures Contains(ThermalRoot + ZoneMarker + (n + "/temp"), ZoneMarker)
    ensures ZoneNumber(ThermalRoot + ZoneMarker + (n + "/temp")) == n
  {
    ZonePathAfterMarker(n);
    assert n + "/temp" == n + "/" + "temp";
    PieceBeforeChar(n, '/', "temp");
  }

  /** What follows the marker in a kernel-style zone path is `<n>/temp`. */
  lemma ZonePathAfterMarker(n: string)
    requires !Contains(n, ZoneMarker)
    ensures Contains(ThermalRoot + ZoneMarker + (n + "/temp"), ZoneMarker)
    ensures After(ThermalRoot + ZoneMarker + (n + "/temp"), ZoneMarker) == n + "/temp"
  {
    assert ZoneMarker[7] == '_';
    MissingCharNotContained(ThermalRoot, ZoneMarker, '_');
    AfterMarker(ThermalRoot, ZoneMarker, n + "/temp");
    MissingCharNotContained("/temp", ZoneMarker, '_');
    BeforeNoSeparator(n, ZoneMarker, "/temp");
  }

  /** A piece without the one-character separator ends where the separator first occurs. */
  lemma PieceBeforeChar(n: string, c: char, rest: string)
    requires c !in n
    ensures Before(n + [c] + rest, [c]) == n
  {
    MissingCharNotContained(n, [c], c);
    BeforeSeparator(n, [c], rest);
  }

  /** The `type` file of a kernel-style zone path sits beside its `temp` file. */
  lemma ZoneTypeFileKernelPath(n: string)
    requires '/' !in n
    ensures PathJoin(DirName(ThermalRoot + ZoneMarker + (n + "/temp")), "type") ==
            ThermalRoot + ZoneMarker + (n + "/type")
  {
    var dir := ThermalRoot + ZoneMarker + n;
    assert dir[|dir| - 1] != '/' by {
      if |n| > 0 { assert dir[|dir| - 1] == n[|n| - 1]; }
    }
    assert ThermalRoot + ZoneMarker + (n + "/temp") == dir + "/" + "temp";
    DirNameOfJoin(dir, "temp");
    JoinRelative(dir, "type");
    assert dir + "/" + "type" == ThermalRoot + ZoneMarker + (n + "/type");
  }

  /**
   * For a kernel-style zone path `/sys/class/thermal/thermal_zone<n>/temp`,
   * the id is `n`, the type comes from the sibling `type` file (default
   * `'unknown'`) and the name is `Zone <n> (<type>)`.
   */
  lemma ZoneOfKernelPath(fs: Sysfs, n: string)
    requires '/' !in n && !Contains(n, ZoneMarker)
    ensures Contains(ThermalRoot + ZoneMarker + (n + "/temp"), ZoneMarker)
    ensures var zoneType := ReadTextOr(fs, ThermalRoot + ZoneMarker + (n + "/type"), Unknown);
            ZoneOf(fs, ThermalRoot + ZoneMarker + (n + "/temp")) ==
              Zone(n, ThermalRoot + ZoneMarker + (n + "/temp"), zoneType, "Zone " + n + " (" + zoneType + ")")
  {
    ZoneNumberKernelPath(n);
    ZoneTypeFileKernelPath(n);
  }

  /** A hwmon directory without `fan`, followed by a slash, still holds no `fan`. */
  lemma DirSlashNoFan(dir: string)
    requires !Contains(dir, FanMarker)
    ensures !Contains(dir + "/", FanMarker)
  {
    assert '/' !in FanMarker;
    MissingCharNotContained("/", FanMarker, 'f');
    BeforeConcat(dir, "/", FanMarker);
  }

  /** The fan number of `<dir>/fan<k>_input`, for a directory without `fan`, is `k`. */
  lemma FanNumberKernelPath(dir: string, k: string)
    requires !Contains(dir, FanMarker)
    requires '_' !in k && !Contains(k, FanMarker)
    ensures Contains(dir + "/" + FanMarker + (k + "_input"), FanMarker)
    ensures FanNumber(dir + "/" + FanMarker + (k + "_input")) == k
  {
    FanPathAfterMarker(dir, k);
    assert k + "_input" == k + "_" + "input";
    PieceBeforeChar(k, '_', "input");
  }

  /** What follows the marker in `<dir>/fan<k>_input` is `<k>_input`. */
  lemma FanPathAfterMarker(dir: string, k: string)
    requires !Contains(dir, FanMarker) && !Contains(k, FanMarker)
    ensures Contains(dir + "/" + FanMarker + (k + "_input"), FanMarker)
    ensures After(dir + "/" + FanMarker + (k + "_input"), FanMarker) == k + "_input"
  {
    DirSlashNoFan(dir);
    AfterMarker(dir + "/", FanMarker, k + "_input");
    MissingCharNotContained("_input", FanMarker, 'f');
    BeforeNoSeparator(k, FanMarker, "_input");
  }

  /** The glob and the label file of a fan input sit in its hwmon directory. */
  lemma FanFilesKernelPath(dir: string, k: string)
    requires |dir| > 0 && dir[|dir| - 1] != '/'
    ensures PathJoin(dir, "fan*_input") == dir + "/fan*_input"
    ensures PathJoin(dir, "fan" + k + "_label") == dir + "/fan" + k + "_label"
  {
    JoinRelative(dir, "fan" + k + "_label");
    JoinRelative(dir, "fan*_input");
  }
}
