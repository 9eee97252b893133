/**
 * The sensor file system, as a value. Every read the monitor performs is a
 * lookup in one of three maps; a path missing from a map is a read that
 * raised (missing file, permission, unparsable text).
 */
module Sysfs {
  import opened Wrappers

  datatype Sysfs = Sysfs(
    globs: map<string, seq<string>>,   // glob pattern -> matching paths, in enumeration order
    text: map<string, string>,         // path -> `open(path).read().strip()`
    number: map<string, int>)          // path -> `int(open(path).read().strip())`

  /** `glob.glob(pattern)`: no entry means nothing matches. */
  function Glob(fs: Sysfs, pattern: string): seq<string> {
    if pattern in fs.globs then fs.globs[pattern] else []
  }

  /** A text read; None when the read raises. */
  function ReadText(fs: Sysfs, path: string): Option<string> {
    if path in fs.text then Some(fs.text[path]) else None
  }

  /** A text read with a fallback, as in `x = default; try: x = read() except: pass`. */
  function ReadTextOr(fs: Sysfs, path: string, default: string): (r: string)
    ensures path in fs.text ==> r == fs.text[path]
    ensures path !in fs.text ==> r == default
  {
    match ReadText(fs, path)
    case Some(t) => t
    case None => default
  }

  /** An integer read; None when the read or the parse raises. */
  function ReadInt(fs: Sysfs, path: string): Option<int> {
    if path in fs.number then Some(fs.number[path]) else None
  }

  /** `read_temperature`: millidegrees Celsius converted to degrees; None on failure. */
  function ReadTemperature(fs: Sysfs, path: string): (r: Option<real>)
    ensures r.Some? <==> ReadInt(fs, path).Some?
    ensures r.Some? ==> r.value * 1000.0 == ReadInt(fs, path).value as real
  {
    match ReadInt(fs, path)
    case Some(m) => Some(m as real / 1000.0)
    case None => None
  }

  /** `read_fan_speed`: the RPM exactly as parsed, negative values included; None on failure. */
  function ReadFanSpeed(fs: Sysfs, path: string): (r: Option<int>)
    ensures r.Some? <==> path in fs.number
    ensures r.Some? ==> r.value == fs.number[path]
  {
    ReadInt(fs, path)
  }
}
