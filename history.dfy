/**
 * The bounded temperature history: a `deque(maxlen=100)` of
 * `{timestamp, temperature}` entries, oldest first.
 */
module History {
  /** One history entry; the timestamp is the ISO-8601 text of the cycle's clock reading. */
  datatype Entry = Entry(timestamp: string, temperature: real)

  const Capacity: nat := 100

  function MinNat(a: nat, b: nat): nat { if a <= b then a else b }

  /** The last `min(cap, |s|)` elements of `s`: what a deque of that capacity retains. */
  function Recent<T>(s: seq<T>, cap: nat): (r: seq<T>)
    ensures |r| == MinNat(cap, |s|)
  {
    s[|s| - MinNat(cap, |s|)..]
  }

  /** `deque.append` on a deque of capacity `cap`: when full, the oldest entry is evicted first. */
  function Append<T>(h: seq<T>, e: T, cap: nat): (r: seq<T>)
    requires 0 < cap && |h| <= cap
    ensures r == Recent(h + [e], cap)
  {
    if |h| == cap then h[1..] + [e] else h + [e]
  }

  /** Appending several entries one after another. */
  function AppendAll<T>(h: seq<T>, es: seq<T>, cap: nat): (r: seq<T>)
    requires 0 < cap && |h| <= cap
    ensures |r| <= cap
    decreases |es|
  {
    if |es| == 0 then h
    else Append(AppendAll(h, es[..|es| - 1], cap), es[|es| - 1], cap)
  }

  /** An append keeps the history within capacity, puts the new entry last and keeps the others in order. */
  lemma AppendShape<T>(h: seq<T>, e: T, cap: nat)
    requires 0 < cap && |h| <= cap
    ensures |Append(h, e, cap)| <= cap
    ensures Append(h, e, cap)[|Append(h, e, cap)| - 1] == e
    ensures |h| < cap ==> Append(h, e, cap) == h + [e]
    ensures |h| == cap ==> Append(h, e, cap) == h[1..] + [e]
  {
  }

  /** Keeping the recent part, appending, and keeping the recent part again is appending and keeping it once. */
  lemma RecentOfConcat<T>(s: seq<T>, t: seq<T>, cap: nat)
    ensures Recent(Recent(s, cap) + t, cap) == Recent(s + t, cap)
  {
    var n := |s| - MinNat(cap, |s|);
    var r := Recent(s, cap);
    assert r + t == (s + t)[n..];
    assert MinNat(cap, |r + t|) == MinNat(cap, |s + t|);
  }

  /**
   * However many entries are appended, the history holds exactly the most
   * recent `cap` of all entries ever appended, in order.
   */
  lemma {:induction false} AppendAllIsRecent<T>(h: seq<T>, es: seq<T>, cap: nat)
    requires 0 < cap && |h| <= cap
    ensures AppendAll(h, es, cap) == Recent(h + es, cap)
    decreases |es|
  {
    if |es| == 0 {
      assert h + es == h;
    } else {
      var init := es[..|es| - 1];
      var e := es[|es| - 1];
      AppendAllIsRecent(h, init, cap);
      assert h == Recent(h, cap);
      RecentOfConcat(h + init, [e], cap);
      assert (h + init) + [e] == h + es;
    }
  }

  /**
   * A history that starts empty and then receives 150 entries, as the
   * monitoring loop states it, holds exactly the last 100 of them.
   */
  lemma AfterManyCycles<T>(es: seq<T>)
    requires |es| == 150
    ensures |Recent([] + es, Capacity)| == Capacity
    ensures Recent([] + es, Capacity) == es[50..]
  {
    assert [] + es == es;
  }
}
