# Thermal monitor model

A Dafny model of the sensor core of a small Linux thermal dashboard: the
`ThermalMonitor` class of `app.py`. At start-up the monitor finds two kinds
of sensor. Thermal zones come from the glob
`/sys/class/thermal/thermal_zone*/temp`. Fan inputs come from
`/sys/class/hwmon/hwmon*/fan*_input`, and a fan is kept only if its probe
read succeeds. After that, every cycle of the monitoring loop does four
things:

- rebuilds the temperature snapshot (`current_temps`);
- picks one CPU temperature by a fixed priority list with a fallback;
- appends that temperature to a history capped at 100 entries;
- recomputes the average, maximum and minimum over the newest 20 entries,
  then rebuilds the fan snapshot (`current_fans`).

The model is imperative where the source is. `Monitor.ThermalMonitor` is a
class with the source's six fields:

| field | type |
|---|---|
| thermal zones | `seq` |
| fan sensors | `seq` |
| history | `seq`, the bounded deque |
| the two snapshots | `map` |
| stats | a record |

Each source method that changes state becomes a method with a `modifies`
clause. `get_cpu_temperature` becomes the read-only method
`GetCpuTemperature`, and the two read helpers `read_temperature` and
`read_fan_speed` become functions of the module `Sysfs`. `start_monitoring`
only starts a thread; `MonitorLoop` stands for the body of its inner
`monitor_loop`. The methods are proved against specification functions in
these modules:

| module | what it specifies |
|---|---|
| `Sensors` | discovery |
| `CpuSelection` | CPU choice |
| `Snapshot` | the dictionaries |
| `History` | the bounded deque |
| `Stats` | window statistics |

Those functions carry their own lemmas. Every sensor read goes through a
`Sysfs` value with three maps:

| map | what it gives |
|---|---|
| glob results | the paths a pattern matches |
| stripped file text | the contents of a text file |
| parsed integers | the value of a number file |

A path missing from a map is a read that raised. The Python string and path
operations that discovery and CPU selection rely on are modelled exactly
for the cases used:

- `str.split` for discovery, and `in` with ASCII `str.lower` for CPU
  selection (module `PyStr`);
- `os.path.dirname` and `os.path.join` (module `PosixPath`).

The module `Monitor` splits some source methods into helper methods, so
that each loop is proved on its own:

- `ScanHwmonDir` is the body of the per-directory `try` of
  `discover_fan_sensors`.
- `ReadZones` is the zone loop of `update_temperatures`.
- `RecordCpuTemperature` is its statistics update.
- `Cycle` is one iteration of `monitor_loop`.

### CPU priority follows the code

One might expect a readable zone whose type contains `coretemp` to give
the CPU temperature whatever the other zones are. The code is stricter: app.py:146-154 tries
the priority strings in order, so a readable `x86_pkg_temp` or
`cpu_thermal` zone wins over a `coretemp` zone. The model follows the code.
`CpuSelection.PackageBeforeCoretemp` proves the case where a readable
`x86_pkg_temp` zone comes after a readable `coretemp` zone: the
`x86_pkg_temp` zone wins.

## Model

| member | source | states |
|---|---|---|
| Monitor.ThermalMonitor.constructor | app.py:17-30 | Sets the initial state: empty history and snapshots, stats 0/0/100/0. The zone list is `DiscoveredZones` and the fan list is `DiscoveredFans`. The object invariant `Valid` holds. |
| Monitor.ThermalMonitor.DiscoverThermalZones | app.py:33-56 | Appends one zone per thermal glob result, in glob order, and changes no other field. |
| Monitor.ThermalMonitor.DiscoverFanSensors | app.py:62-116 | Replaces the fan list with the fans of every hwmon directory, directory by directory in glob order. |
| Monitor.ThermalMonitor.ScanHwmonDir | app.py:70-111 | Gives the fans of one hwmon directory. A fan input that reads a non-negative integer is kept, in glob order. Any other input is skipped. The scan stops at the first input without `fan`, where the number extraction raises. |
| Monitor.ThermalMonitor.GetCpuTemperature | app.py:143-162 | Its nested search with early returns gives exactly `CpuSelection.CpuTemperature`. |
| Monitor.ThermalMonitor.ReadZones | app.py:166-177 | The zone loop gives the snapshot `TempSnapshot` and `valid_temps`. `valid_temps` is the readable temperatures in zone order. |
| Monitor.ThermalMonitor.UpdateTemperatures | app.py:164-196 | Keeps `Valid`. `current_temps` is the new snapshot. With no CPU temperature, the history and all four stats are unchanged. Otherwise the history is the newest 100 of the old history plus the new entry, and the stats are `StatsOf` that history. Zone and fan lists are untouched. |
| Monitor.ThermalMonitor.RecordCpuTemperature | app.py:184-196 | Appends the reading to the history, evicting the oldest entry when full. Recomputes the stats from the new history. `cpu_temp` is the reading. Keeps `Valid`. |
| Monitor.ThermalMonitor.UpdateFans | app.py:198-212 | `current_fans` becomes exactly `FanSnapshot` of the fan list and this cycle's reads. Nothing of the previous snapshot survives. |
| Monitor.ThermalMonitor.Cycle | app.py:216-219 | One temperature cycle, then one fan cycle. The history gains the cycle's entry, if any, within capacity. Both snapshots are this cycle's. |
| Monitor.ThermalMonitor.MonitorLoop | app.py:214-223 | After any number of iterations, the history is the newest 100 of the old history followed by one entry per iteration that read a CPU temperature. The snapshots are those of the last iteration. `Valid` holds throughout. |
| Monitor.CycleEntry | app.py:182-189 | A cycle contributes at most one history entry. |
| Sysfs.ReadTemperature | app.py:132-141 | Gives a value exactly when the integer read succeeds, and that value times 1000 is the millidegree reading. |
| Sysfs.ReadFanSpeed | app.py:121-130 | Gives a value exactly when the read succeeds, and the value is the parsed RPM, of any sign. |
| Sysfs.ReadTextOr | app.py:44-49 | A readable file gives its stripped text. An unreadable one gives the default. |
| Sensors.ZoneNumber | app.py:40 | The zone id never contains `/`. |
| Sensors.FirstMalformed | app.py:85-86 | Every fan input before the returned index contains `fan`. The one at the index, if any, does not. |
| Sensors.FanOfProbe | app.py:97-109 | A fan input is recorded exactly when its probe parses as an integer >= 0. The record's path is the input. The record has the derived fields of `FanRecordOf`: id `device_num`, device, a label defaulting to `Fan num`, and name `device - label`. |
| Sensors.DiscoveredFansSound | app.py:70-116 | Every discovered fan has the derived fields of `FanRecordOf`. It came from an input that was listed, ahead of any malformed one, in the glob of one of the hwmon directories, and its probe read succeeded with a value >= 0. |
| Sensors.DiscoveredFansComplete | app.py:70-116 | Every well-formed fan input of a listed hwmon directory whose probe reads a value >= 0 is among the discovered fans. |
| Sensors.FansOfDirSound | app.py:85-111 | Soundness of the scan of a single hwmon directory. |
| Sensors.ZoneNumberKernelPath | app.py:40 | For `/sys/class/thermal/thermal_zone<n>/temp`, the id is `n`. |
| Sensors.ZoneTypeFileKernelPath | app.py:39-43 | The `type` file of such a path is its sibling `…/thermal_zone<n>/type`. |
| Sensors.ZoneOfKernelPath | app.py:38-56 | The zone record of such a path has id `n`, the type file's text or `unknown`, and `Zone <n> (<type>)` as its name. |
| Sensors.FanNumberKernelPath | app.py:86 | For `<dir>/fan<k>_input`, the fan number is `k`. |
| Sensors.FanFilesKernelPath | app.py:82-89 | The fan glob and the label file of a hwmon directory are joined with exactly one slash. |
| PyStr.JoinSplit | app.py:40 | Joining the pieces of `split` gives the text back. |
| PyStr.SplitPieces | app.py:86 | `Before` and `After` are pieces 0 and 1 of `split`. There are at least two pieces exactly when the separator occurs. |
| PyStr.Find | app.py:151 | Gives the first occurrence. No earlier position holds one. |
| PyStr.Lower | app.py:151 | Lowers ASCII upper-case letters character by character and keeps the length. |
| PyStr.BeforeConcat | app.py:40 | A prefix free of the separator, which cannot straddle the junction, is glued to the first piece. The second piece is that of the remainder. |
| PosixPath.DirNameOfJoin | app.py:39 | The directory of `d/f` is `d` for a slash-free `f`. |
| PosixPath.JoinRelative | app.py:43 | Joining a directory and a relative name puts exactly one `/` between them. |
| History.Append | app.py:20 | `deque.append` with capacity 100 keeps the newest `min(100, n+1)` entries of the old contents plus the new entry. |
| History.AppendShape | app.py:186-189 | Keeps at most 100 entries and puts the new entry last. A full history loses only its oldest entry, and the order is kept. |
| History.AppendAllIsRecent | app.py:20 | After any number of appends, the history is exactly the newest 100 of all appended entries, in order. |
| History.AfterManyCycles | app.py:20 | A history that starts empty and receives 150 entries, in the form `MonitorLoop` states, holds exactly 100 entries: the last 100, in order. |
| Stats.MaxIsMaximum | app.py:195 | The maximum is an element of the window and no element exceeds it. |
| Stats.MinIsMinimum | app.py:196 | The minimum is an element of the window and exceeds no element. |
| Stats.MeanBetween | app.py:194-196 | The mean lies between the minimum and the maximum. |
| Stats.SumBounds | app.py:194 | The sum lies between the length times any lower bound and the length times any upper bound. |
| Stats.StatsOfWindow | app.py:192-196 | After a successful cycle the window is the last `min(20, len(history))` entries. Its mean is sum/count. `min <= avg <= max`. Every window entry lies between min and max, and both are attained. `cpu_temp` is the newest entry. |
| Stats.ThreeEntryExample | app.py:192-196 | History temperatures 60, 62, 64 give average 62, maximum 64 and minimum 60. |
| CpuSelection.CpuTemperaturePriority | app.py:146-154 | A readable zone matching priority `p` gives the CPU temperature when two things hold. No readable zone matches an earlier priority. No earlier zone is a readable match for `p`. Matching is a case-insensitive substring test. |
| CpuSelection.CpuTemperatureFallback | app.py:156-160 | With no readable priority match, the first readable zone in zone order gives the CPU temperature. |
| CpuSelection.CpuTemperatureNone | app.py:143-162 | There is no CPU temperature exactly when no zone reads. |
| CpuSelection.CpuTemperatureIsReading | app.py:143-162 | A CPU temperature is always the reading of some zone. |
| CpuSelection.FirstMatchingAt | app.py:150-154 | The first readable match in zone order gives the result of the inner priority loop. |
| CpuSelection.PackageBeforeCoretemp | app.py:146-154 | A readable `x86_pkg_temp` zone wins over a readable `coretemp` zone listed before it. |
| Snapshot.TempReadingOf | app.py:170-176 | A zone contributes a value exactly when it reads. The value is its reading with its own type and name. |
| Snapshot.TempSnapshotKeys | app.py:166-179 | The keys of `current_temps` are exactly the ids of the zones that read this cycle. |
| Snapshot.TempSnapshotLatest | app.py:169-177 | The value under a zone's id is that zone's reading, type and name, when no later zone with the same id reads. |
| Snapshot.TempSnapshotDistinct | app.py:169-177 | With distinct ids, every zone that reads has its own reading in `current_temps`. |
| Snapshot.TempSnapshotFrom | app.py:166-179 | Every value in `current_temps` is this cycle's reading, type and name of a zone with that id. No stale entry survives. |
| Snapshot.ReadableTempsMembers | app.py:167-177 | `valid_temps` holds exactly the temperatures some zone read. |
| Snapshot.ReadableTempsCpu | app.py:182-184 | `valid_temps` is non-empty exactly when a CPU temperature exists. The two guards agree. |
| Snapshot.FanReadingOf | app.py:203-210 | A fan contributes a value exactly when its speed reads. The value has that speed and the fan's label, device and name. |
| Snapshot.FanSnapshotKeys | app.py:200-212 | The keys of `current_fans` are exactly the ids of the fans whose speed reads this cycle. |
| Snapshot.FanSnapshotLatest | app.py:202-210 | The value under a fan's id is that fan's reading, when no later fan with the same id reads. |
| Snapshot.FanSnapshotFrom | app.py:200-212 | Every value in `current_fans` is this cycle's reading of a fan with that id. |

## Left out

- Flask routes, the server bootstrap and the HTML dashboard template: these are presentation and HTTP glue, outside the class.
- The background thread and `time.sleep` (app.py:216-223): concurrency and timing. `MonitorLoop` runs a given finite sequence of iterations, each with its own `Sysfs` and time stamp. `start_monitoring` is therefore not called from the constructor.
- Real file access, `glob.glob`, `read().strip()` and `int()` parsing: these are replaced by the `Sysfs` maps. The order of glob results is whatever the map holds.
- `datetime.now().isoformat()`: the time stamp is a parameter of the cycle.
- `print` output, including the discovery listings and the error messages: it has no effect on state.
- Floating-point rounding: temperatures and the mean are exact reals.
- The integer-typed initial stats (`0`, `100`) are the reals `0.0` and `100.0`.
- `str.lower` outside ASCII: only `A`-`Z` are lowered.
- Insertion order of the two snapshot dictionaries: the routes serialise `current_temps` and `current_fans` in insertion order, but the model's `map`s have no order. The core never iterates them, so only the order of the served output is lost.
- Re-reading in `get_cpu_temperature`: the source reads the zone files a second time, and a file could change between the two reads. Each cycle here sees one `Sysfs` value, so both reads agree.
- Monitor.ThermalMonitor.constructor: requires every thermal glob result to contain `thermal_zone`. On other input the source's `split(...)[1]` raises outside any handler, so construction fails, and that failure is not modelled.
- Monitor.ThermalMonitor.DiscoverThermalZones: same requirement as the constructor, for the same reason.
