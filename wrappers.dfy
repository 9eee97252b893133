/** The optional value used for every best-effort read of the model, and small facts about sequences. */
module Wrappers {
  datatype Option<+T> = None | Some(value: T)

  /** The present values of a sequence of options, in order. */
  function Somes<T>(opts: seq<Option<T>>): seq<T>
    decreases |opts|
  {
    if |opts| == 0 then []
    else Somes(opts[..|opts| - 1]) + (if opts[|opts| - 1].Some? then [opts[|opts| - 1].value] else [])
  }

  /** A value is kept exactly when some option holds it. */
  lemma {:induction false} SomesMembers<T>(opts: seq<Option<T>>, x: T)
    ensures x in Somes(opts) <==> exists j :: 0 <= j < |opts| && opts[j] == Some(x)
    decreases |opts|
  {
    if |opts| > 0 {
      var init := opts[..|opts| - 1];
      SomesMembers(init, x);
      if x in Somes(init) {
        var j :| 0 <= j < |init| && init[j] == Some(x);
        assert opts[j] == init[j];
      }
      if exists j :: 0 <= j < |opts| && opts[j] == Some(x) {
        var j :| 0 <= j < |opts| && opts[j] == Some(x);
        if j < |init| {
          assert init[j] == opts[j];
        }
      }
    }
  }

  lemma SomesAppend<T>(opts: seq<Option<T>>, o: Option<T>)
    ensures Somes(opts + [o]) == Somes(opts) + (if o.Some? then [o.value] else [])
  {
    assert (opts + [o])[..|opts|] == opts;
  }

  /** A prefix one longer is the prefix followed by the next element. */
  lemma PrefixSnoc<T>(s: seq<T>, i: nat)
    requires i < |s|
    ensures s[..i + 1] == s[..i] + [s[i]]
  {
  }
}
