/**
 * The few Python string operations the monitor relies on: substring search
 * (`in`), `str.split` with a non-empty separator, and `str.lower`
 * restricted to ASCII letters.
 */
module PyStr {
  import opened Wrappers

  /** `sep` occurs in `s` starting at index `j`. */
  predicate OccursAt(s: string, sep: string, j: nat) {
    j + |sep| <= |s| && s[j..j + |sep|] == sep
  }

  /** Index of the first occurrence of `sep` in `s` at or after `k`. */
  function FindFrom(s: string, sep: string, k: nat): (r: Option<nat>)
    requires |sep| > 0 && k <= |s|
    ensures r.Some? ==> k <= r.value && OccursAt(s, sep, r.value)
    ensures forall j: nat :: k <= j < |s| && (r.Some? ==> j < r.value) ==> !OccursAt(s, sep, j)
    decreases |s| - k
  {
    if OccursAt(s, sep, k) then Some(k)
    else if k == |s| then None
    else FindFrom(s, sep, k + 1)
  }

  /** Index of the first occurrence of `sep` in `s` (Python's `str.find`, with None for -1). */
  function Find(s: string, sep: string): (r: Option<nat>)
    requires |sep| > 0
    ensures r.Some? ==> OccursAt(s, sep, r.value)
    ensures forall j: nat :: j < |s| && (r.Some? ==> j < r.value) ==> !OccursAt(s, sep, j)
  {
    FindFrom(s, sep, 0)
  }

  /** Python's `sep in s`, for a non-empty `sep`. */
  predicate Contains(s: string, sep: string)
    requires |sep| > 0
  {
    Find(s, sep).Some?
  }

  /** Python's `s.split(sep)` for a non-empty `sep`. */
  function Split(s: string, sep: string): (parts: seq<string>)
    requires |sep| > 0
    ensures |parts| >= 1
    decreases |s|
  {
    match Find(s, sep)
    case None => [s]
    case Some(i) => [s[..i]] + Split(s[i + |sep|..], sep)
  }

  /** Python's `sep.join(parts)`. */
  function Join(parts: seq<string>, sep: string): string
    decreases |parts|
  {
    if |parts| == 0 then ""
    else if |parts| == 1 then parts[0]
    else parts[0] + sep + Join(parts[1..], sep)
  }

  /** Python's `str.lower`, for the ASCII letters. */
  function Lower(s: string): (r: string)
    ensures |r| == |s|
    ensures forall i :: 0 <= i < |s| ==> r[i] == LowerChar(s[i])
  {
    seq(|s|, i requires 0 <= i < |s| => LowerChar(s[i]))
  }

  function LowerChar(c: char): (d: char)
    ensures 'A' <= c <= 'Z' ==> 'a' <= d <= 'z'
    ensures !('A' <= c <= 'Z') ==> d == c
  {
    if 'A' <= c <= 'Z' then (c as int - 'A' as int + 'a' as int) as char else c
  }

  /** Joining the pieces that `split` produced gives back the original text. */
  lemma {:induction false} JoinSplit(s: string, sep: string)
    requires |sep| > 0
    ensures Join(Split(s, sep), sep) == s
    decreases |s|
  {
    var f := Find(s, sep);
    if f.Some? {
      var i := f.value;
      var tail := s[i + |sep|..];
      var parts := Split(s, sep);
      assert parts == [s[..i]] + Split(tail, sep);
      assert parts[1..] == Split(tail, sep);
      JoinSplit(tail, sep);
      assert Join(parts, sep) == s[..i] + sep + Join(Split(tail, sep), sep);
      assert s[i..i + |sep|] == sep;
      assert s == s[..i] + s[i..i + |sep|] + tail;
    }
  }

  /** No piece produced by `split` contains the separator. */
  lemma {:induction false} SplitPiecesFree(s: string, sep: string)
    requires |sep| > 0
    ensures forall k :: 0 <= k < |Split(s, sep)| ==> !Contains(Split(s, sep)[k], sep)
    decreases |s|
  {
    var f := Find(s, sep);
    if f.Some? {
      var i := f.value;
      var tail := s[i + |sep|..];
      SplitPiecesFree(tail, sep);
      var head := s[..i];
      forall j: nat | j + |sep| <= |head| ensures !OccursAt(head, sep, j) {
        assert head[j..j + |sep|] == s[j..j + |sep|];
        assert !OccursAt(s, sep, j);
      }
      FindNone(head, sep);
      assert Split(s, sep) == [head] + Split(tail, sep);
    }
  }

  /** The first occurrence is determined by its defining property. */
  lemma FindIsFirst(s: string, sep: string, i: nat)
    requires |sep| > 0
    requires OccursAt(s, sep, i)
    requires forall j: nat :: j < i ==> !OccursAt(s, sep, j)
    ensures Find(s, sep) == Some(i)
  {
  }

  lemma FindNone(s: string, sep: string)
    requires |sep| > 0
    requires forall j: nat :: j < |s| ==> !OccursAt(s, sep, j)
    ensures Find(s, sep) == None
  {
  }

  /** A text lacking some character of `sep` does not contain `sep`. */
  lemma MissingCharNotContained(s: string, sep: string, c: char)
    requires |sep| > 0 && c in sep && c !in s
    ensures !Contains(s, sep)
  {
    var k :| 0 <= k < |sep| && sep[k] == c;
    forall i: nat | i + |sep| <= |s| ensures !OccursAt(s, sep, i) {
      assert s[i..i + |sep|][k] == s[i + k];
    }
  }

  /** An occurrence in `a + b` that starts inside `a` lies inside `a`, or straddles the junction. */
  lemma NoOccurrenceInPrefix(a: string, b: string, sep: string, j: nat)
    requires |sep| > 0 && !Contains(a, sep) && j < |a|
    requires (|a| > 0 && a[|a| - 1] !in sep) || (|b| > 0 && b[0] !in sep)
    ensures !OccursAt(a + b, sep, j)
  {
    var s := a + b;
    if j + |sep| <= |a| {
      assert a[j..j + |sep|] == s[j..j + |sep|];
      assert !OccursAt(a, sep, j);
    } else if j + |sep| <= |s| {
      assert s[j..j + |sep|][|a| - 1 - j] == a[|a| - 1];
      assert s[j..j + |sep|][|a| - j] == b[0];
    }
  }

  /** Occurrences in `b` are occurrences in `a + b`, shifted by `|a|`. */
  lemma OccurrenceShift(a: string, b: string, sep: string, j: nat)
    ensures OccursAt(a + b, sep, |a| + j) <==> OccursAt(b, sep, j)
  {
    if j + |sep| <= |b| {
      assert (a + b)[|a| + j..|a| + j + |sep|] == b[j..j + |sep|];
    }
  }

  /** The shifted first occurrence of `sep`, as FindConcat states it. */
  function Shift(r: Option<nat>, n: nat): Option<nat> {
    match r
    case None => None
    case Some(i) => Some(n + i)
  }

  /**
   * When `a` does not contain `sep` and no occurrence can straddle the
   * junction (the last character of `a` or the first of `b` is not in
   * `sep`), the occurrences of `sep` in `a + b` are those of `b`, shifted.
   */
  lemma FindConcat(a: string, b: string, sep: string)
    requires |sep| > 0 && !Contains(a, sep)
    requires (|a| > 0 && a[|a| - 1] !in sep) || (|b| > 0 && b[0] !in sep) || |a| == 0
    ensures Find(a + b, sep) == Shift(Find(b, sep), |a|)
  {
    var s := a + b;
    var fb := Find(b, sep);
    var bound := if fb.Some? then |a| + fb.value else |s|;
    forall j: nat | j < bound ensures !OccursAt(s, sep, j) {
      if j < |a| {
        NoOccurrenceInPrefix(a, b, sep, j);
      } else {
        OccurrenceShift(a, b, sep, j - |a|);
      }
    }
    if fb.Some? {
      OccurrenceShift(a, b, sep, fb.value);
      FindIsFirst(s, sep, |a| + fb.value);
    } else {
      FindNone(s, sep);
    }
  }

  /** Python's `s.split(sep)[0]`: the text before the first separator. */
  function Before(s: string, sep: string): (r: string)
    requires |sep| > 0
    ensures |r| <= |s|
    ensures !Contains(r, sep)
  {
    match Find(s, sep)
    case None => s
    case Some(i) => NotContainedBefore(s, sep, i); s[..i]
  }

  /** Python's `s.split(sep)[1]`: the text between the first and the second separator. */
  function After(s: string, sep: string): string
    requires |sep| > 0 && Contains(s, sep)
  {
    var i := Find(s, sep).value;
    Before(s[i + |sep|..], sep)
  }

  lemma NotContainedBefore(s: string, sep: string, i: nat)
    requires |sep| > 0 && Find(s, sep) == Some(i)
    ensures !Contains(s[..i], sep)
  {
    var head := s[..i];
    forall j: nat | j < |head| ensures !OccursAt(head, sep, j) {
      if j + |sep| <= |head| {
        assert head[j..j + |sep|] == s[j..j + |sep|];
        assert !OccursAt(s, sep, j);
      }
    }
    FindNone(head, sep);
  }

  /** `Before` and `After` are the first two pieces that `split` returns. */
  lemma {:induction false} SplitPieces(s: string, sep: string)
    requires |sep| > 0
    ensures Split(s, sep)[0] == Before(s, sep)
    ensures |Split(s, sep)| >= 2 <==> Contains(s, sep)
    ensures Contains(s, sep) ==> Split(s, sep)[1] == After(s, sep)
  {
    var f := Find(s, sep);
    if f.Some? {
      var i := f.value;
      var tail := s[i + |sep|..];
      SplitAt(s, sep, i);
      SplitPieces(tail, sep);
    }
  }

  /**
   * When `a` does not contain `sep` and no occurrence can straddle the
   * junction, `a` is glued to the first piece of `b` and the later pieces
   * are those of `b`.
   */
  lemma BeforeConcat(a: string, b: string, sep: string)
    requires |sep| > 0 && !Contains(a, sep)
    requires (|a| > 0 && a[|a| - 1] !in sep) || (|b| > 0 && b[0] !in sep) || |a| == 0
    ensures Before(a + b, sep) == a + Before(b, sep)
    ensures Contains(a + b, sep) <==> Contains(b, sep)
    ensures Contains(b, sep) ==> After(a + b, sep) == After(b, sep)
  {
    FindConcat(a, b, sep);
    var fb := Find(b, sep);
    if fb.Some? {
      var i := fb.value;
      assert Find(a + b, sep) == Some(|a| + i);
      assert i + |sep| <= |b|;
      BeforeConcatAt(a, b, sep, i);
      BeforeAt(b, sep, i);
      ConcatSuffix(a, b, i + |sep|);
      AfterOfSameRest(a + b, b, sep, |a| + i, i);
    } else {
      assert Find(a + b, sep) == None;
    }
  }

  lemma BeforeAt(s: string, sep: string, i: nat)
    requires |sep| > 0 && Find(s, sep) == Some(i)
    ensures Before(s, sep) == s[..i]
  {
  }

  lemma BeforeConcatAt(a: string, b: string, sep: string, i: nat)
    requires |sep| > 0 && Find(a + b, sep) == Some(|a| + i) && i + |sep| <= |b|
    ensures Before(a + b, sep) == a + b[..i]
  {
    BeforeAt(a + b, sep, |a| + i);
    ConcatPrefix(a, b, i);
  }

  /** Texts whose remainders after the first separator agree have the same second piece. */
  lemma AfterOfSameRest(s: string, t: string, sep: string, i: nat, j: nat)
    requires |sep| > 0 && Find(s, sep) == Some(i) && Find(t, sep) == Some(j)
    requires s[i + |sep|..] == t[j + |sep|..]
    ensures Contains(s, sep) && Contains(t, sep) && After(s, sep) == After(t, sep)
  {
  }

  lemma ConcatPrefix(a: string, b: string, k: nat)
    requires k <= |b|
    ensures (a + b)[..|a| + k] == a + b[..k]
  {
  }

  lemma ConcatSuffix(a: string, b: string, k: nat)
    requires k <= |b|
    ensures (a + b)[|a| + k..] == b[k..]
  {
  }

  /** A text that starts with the separator has an empty first piece. */
  lemma BeforeLeading(b: string, sep: string)
    requires |sep| > 0
    ensures Contains(sep + b, sep)
    ensures Before(sep + b, sep) == ""
    ensures After(sep + b, sep) == Before(b, sep)
  {
    assert OccursAt(sep + b, sep, 0);
    FindIsFirst(sep + b, sep, 0);
    assert (sep + b)[|sep|..] == b;
  }

  /** A text without the separator is its own first piece. */
  lemma BeforeFree(s: string, sep: string)
    requires |sep| > 0 && !Contains(s, sep)
    ensures Before(s, sep) == s
  {
  }

  /** One step of `split`: the text before the first separator, then the rest split again. */
  lemma SplitAt(s: string, sep: string, i: nat)
    requires |sep| > 0 && Find(s, sep) == Some(i)
    ensures i + |sep| <= |s|
    ensures Split(s, sep) == [s[..i]] + Split(s[i + |sep|..], sep)
  {
  }
}
