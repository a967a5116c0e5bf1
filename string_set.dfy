/**
 * A set of strings built from a slice: every string becomes a key of a map
 * with empty values, and the keys are then copied into a new slice. The
 * order in which the keys come out of the map is not specified by the source
 * language, so the second loop picks any key not yet copied.
 */
module StringSet {
  /** The strings occurring in s, as a mathematical set. */
  function Elements(s: seq<string>): set<string>
  {
    set x | x in s
  }

  /** No string occurs twice. */
  predicate NoDuplicates(s: seq<string>)
  {
    forall i, j :: 0 <= i < j < |s| ==> s[i] != s[j]
  }

  /** A slice has at most as many distinct strings as it has entries. */
  lemma {:induction false} ElementsBound(s: seq<string>)
    ensures |Elements(s)| <= |s|
  {
    if |s| > 0 {
      var t := s[..|s| - 1];
      ElementsBound(t);
      assert s == t + [s[|s| - 1]];
      assert Elements(s) == Elements(t) + {s[|s| - 1]};
    }
  }

  /** The strings of the slice, each exactly once, in unspecified order. */
  method MakeSet(slice: seq<string>) returns (result: seq<string>)
    ensures forall x :: x in result <==> x in slice
    ensures NoDuplicates(result)
    ensures |result| == |Elements(slice)|
    ensures |result| <= |slice|
    ensures slice == [] ==> result == []
  {
    var setMap: map<string, ()> := map[];
    for i := 0 to |slice|
      invariant setMap.Keys == Elements(slice[..i])
    {
      assert slice[..i + 1] == slice[..i] + [slice[i]];
      setMap := setMap[slice[i] := ()];
    }
    assert slice[..|slice|] == slice;
    result := [];
    var remaining := setMap.Keys;
    while remaining != {}
      invariant remaining <= setMap.Keys
      invariant forall x :: x in result <==> x in setMap.Keys && x !in remaining
      invariant NoDuplicates(result)
      invariant |result| + |remaining| == |setMap.Keys|
      decreases |remaining|
    {
      var key :| key in remaining;
      result := result + [key];
      remaining := remaining - {key};
    }
    ElementsBound(slice);
  }

  /**
   * Any result the contract of MakeSet allows for the example slice is an
   * ordering of "cat", "dog" and "tree".
   */
  lemma ExampleSet(result: seq<string>)
    requires forall x :: x in result <==> x in ["cat", "cat", "dog", "cat", "tree"]
    requires NoDuplicates(result)
    ensures Elements(result) == {"cat", "dog", "tree"}
    ensures |result| == 3
  {
    var e := {"cat", "dog", "tree"};
    assert Elements(result) == e;
    DistinctLength(result);
  }

  /** A slice without duplicates has as many entries as distinct strings. */
  lemma {:induction false} DistinctLength(s: seq<string>)
    requires NoDuplicates(s)
    ensures |Elements(s)| == |s|
  {
    if |s| > 0 {
      var t := s[..|s| - 1];
      DistinctLength(t);
      assert s == t + [s[|s| - 1]];
      assert Elements(s) == Elements(t) + {s[|s| - 1]};
      assert s[|s| - 1] !in Elements(t);
    }
  }
}
