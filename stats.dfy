/**
 * Rolling statistics over the recent part of the history: the last (at
 * most) 20 CPU temperatures, their arithmetic mean, maximum and minimum.
 */
module Stats {
  import opened History

  const WindowSize: nat := 20

  /** The stats record: `avg_temp`, `max_temp`, `min_temp`, `cpu_temp`. */
  datatype Stats = Stats(avgTemp: real, maxTemp: real, minTemp: real, cpuTemp: real)

  /** The values the monitor starts with, before any cycle succeeded. */
  const InitialStats := Stats(0.0, 0.0, 100.0, 0.0)

  /** `[entry['temperature'] for entry in history]`. */
  function Temperatures(h: seq<Entry>): (ts: seq<real>)
    ensures |ts| == |h|
    ensures forall k :: 0 <= k < |h| ==> ts[k] == h[k].temperature
  {
    seq(|h|, k requires 0 <= k < |h| => h[k].temperature)
  }

  /** `list(history)[-20:]`. */
  function Window<T>(s: seq<T>): seq<T> {
    Recent(s, WindowSize)
  }

  function Sum(s: seq<real>): real
    decreases |s|
  {
    if |s| == 0 then 0.0 else Sum(s[..|s| - 1]) + s[|s| - 1]
  }

  /** `max(s)`; what it returns is stated by `MaxIsMaximum`. */
  function Max(s: seq<real>): real
    requires |s| > 0
    decreases |s|
  {
    if |s| == 1 then s[0]
    else
      var m := Max(s[..|s| - 1]);
      if s[|s| - 1] > m then s[|s| - 1] else m
  }

  /** `min(s)`; what it returns is stated by `MinIsMinimum`. */
  function Min(s: seq<real>): real
    requires |s| > 0
    decreases |s|
  {
    if |s| == 1 then s[0]
    else
      var m := Min(s[..|s| - 1]);
      if s[|s| - 1] < m then s[|s| - 1] else m
  }

  /** The maximum is an element of `s` that no element exceeds. */
  lemma {:induction false} MaxIsMaximum(s: seq<real>)
    requires |s| > 0
    ensures Max(s) in s
    ensures forall k :: 0 <= k < |s| ==> s[k] <= Max(s)
    decreases |s|
  {
    if |s| > 1 {
      var init := s[..|s| - 1];
      MaxIsMaximum(init);
      assert forall k :: 0 <= k < |init| ==> s[k] == init[k];
    }
  }

  /** The minimum is an element of `s` that exceeds no element. */
  lemma {:induction false} MinIsMinimum(s: seq<real>)
    requires |s| > 0
    ensures Min(s) in s
    ensures forall k :: 0 <= k < |s| ==> Min(s) <= s[k]
    decreases |s|
  {
    if |s| > 1 {
      var init := s[..|s| - 1];
      MinIsMinimum(init);
      assert forall k :: 0 <= k < |init| ==> s[k] == init[k];
    }
  }

  /** `sum(s) / len(s)`, exactly. */
  function Mean(s: seq<real>): real
    requires |s| > 0
  {
    Sum(s) / |s| as real
  }

  /** The stats a successful cycle leaves behind, computed from the history it produced. */
  function StatsOf(h: seq<Entry>): Stats
    requires |h| > 0
  {
    var w := Window(Temperatures(h));
    Stats(Mean(w), Max(w), Min(w), h[|h| - 1].temperature)
  }

  /** A sum lies between its length times any lower bound and any upper bound of its elements. */
  lemma {:induction false} SumBounds(s: seq<real>, lo: real, hi: real)
    requires forall k :: 0 <= k < |s| ==> lo <= s[k] <= hi
    ensures |s| as real * lo <= Sum(s) <= |s| as real * hi
    decreases |s|
  {
    if |s| > 0 {
      var init := s[..|s| - 1];
      assert forall k :: 0 <= k < |init| ==> init[k] == s[k];
      SumBounds(init, lo, hi);
      assert |s| as real * lo == |init| as real * lo + lo;
      assert |s| as real * hi == |init| as real * hi + hi;
    }
  }

  /** The mean lies between the minimum and the maximum. */
  lemma MeanBetween(s: seq<real>)
    requires |s| > 0
    ensures Min(s) <= Mean(s) <= Max(s)
  {
    var lo, hi := Min(s), Max(s);
    MaxIsMaximum(s);
    MinIsMinimum(s);
    SumBounds(s, lo, hi);
    MeanFromBounds(s, lo, hi);
  }

  lemma MeanFromBounds(s: seq<real>, lo: real, hi: real)
    requires |s| > 0
    requires |s| as real * lo <= Sum(s) <= |s| as real * hi
    ensures lo <= Mean(s) <= hi
  {
    DivBetween(Sum(s), |s| as real, lo, hi);
  }

  lemma DivBetween(x: real, n: real, lo: real, hi: real)
    requires n > 0.0 && n * lo <= x <= n * hi
    ensures lo <= x / n <= hi
  {
  }

  /**
   * After a successful cycle: the window is the last min(20, |h|) entries,
   * its maximum and minimum are attained and bound every entry, the mean
   * lies between them, and the CPU temperature is the newest entry's.
   */
  lemma StatsOfWindow(h: seq<Entry>)
    requires |h| > 0
    ensures var st := StatsOf(h);
            var w := Window(Temperatures(h));
            && |w| == History.MinNat(WindowSize, |h|)
            && (forall k :: 0 <= k < |w| ==> w[k] == h[|h| - |w| + k].temperature)
            && st.minTemp <= st.avgTemp <= st.maxTemp
            && (forall k :: 0 <= k < |w| ==> st.minTemp <= w[k] <= st.maxTemp)
            && st.maxTemp in w && st.minTemp in w
            && st.avgTemp == Sum(w) / |w| as real
            && st.cpuTemp == h[|h| - 1].temperature
  {
    var w := Window(Temperatures(h));
    MaxIsMaximum(w);
    MinIsMinimum(w);
    MeanBetween(w);
  }

  /** History temperatures 60, 62, 64 give mean 62, maximum 64 and minimum 60. */
  lemma ThreeEntryExample(t0: string, t1: string, t2: string)
    ensures var st := StatsOf([Entry(t0, 60.0), Entry(t1, 62.0), Entry(t2, 64.0)]);
            st == Stats(62.0, 64.0, 60.0, 64.0)
  {
    var h := [Entry(t0, 60.0), Entry(t1, 62.0), Entry(t2, 64.0)];
    var ts := Temperatures(h);
    assert ts == [60.0, 62.0, 64.0];
    assert Window(ts) == ts;
    assert ts[..2] == [60.0, 62.0];
    assert ts[..2][..1] == [60.0];
    assert Sum([60.0]) == 60.0;
    assert Sum([60.0, 62.0]) == 122.0;
    assert Sum(ts) == 186.0;
    assert Max([60.0, 62.0]) == 62.0;
    assert Max(ts) == 64.0;
    assert Min([60.0, 62.0]) == 60.0;
    assert Min(ts) == 60.0;
  }
}
