/** Trimming, dropping blanks and removing repetitions that differ only in case. */
module Normalize {
  import opened Sequences
  import opened Text

  /** `values[i]` is not blank, and the first of its spelling ignoring case. */
  ghost predicate IsFirst(values: seq<string>, i: int) {
    && 0 <= i < |values|
    && Trim(values[i]) != ""
    && forall j :: 0 <= j < i ==> Lower(Trim(values[j])) != Lower(Trim(values[i]))
  }

  /** The positions that are kept, in order. */
  ghost function Kept(values: seq<string>): seq<int> {
    if values == [] then []
    else if IsFirst(values, |values| - 1) then Kept(Front(values)) + [|values| - 1]
    else Kept(Front(values))
  }

  lemma {:induction false} KeptSpec(values: seq<string>)
    ensures forall i :: i in Kept(values) <==> IsFirst(values, i)
    ensures forall k, l :: 0 <= k < l < |Kept(values)| ==> Kept(values)[k] < Kept(values)[l]
    decreases |values|
  {
    if values != [] {
      KeptSpec(Front(values));
      assert forall k :: 0 <= k < |Kept(Front(values))| ==> Kept(Front(values))[k] in Kept(Front(values));
      assert forall i :: i < |values| - 1 ==> (IsFirst(Front(values), i) <==> IsFirst(values, i));
    }
  }

  lemma KeptInRange(values: seq<string>)
    ensures forall k :: 0 <= k < |Kept(values)| ==> IsFirst(values, Kept(values)[k])
  {
    KeptSpec(values);
    forall k | 0 <= k < |Kept(values)| ensures IsFirst(values, Kept(values)[k]) {
      assert Kept(values)[k] in Kept(values);
    }
  }

  /** The kept values, trimmed. */
  ghost function Normalized(values: seq<string>): seq<string> {
    KeptInRange(values);
    seq(|Kept(values)|, k requires 0 <= k < |Kept(values)| => Trim(values[Kept(values)[k]]))
  }

  /** What the loops that fill a `seen` map have recorded. */
  ghost predicate Seen(seen: set<string>, values: seq<string>) {
    forall key :: key in seen <==> exists j :: 0 <= j < |values| && Trim(values[j]) != "" && Lower(Trim(values[j])) == key
  }

  lemma SeenAppend(seen: set<string>, values: seq<string>, value: string)
    requires Seen(seen, values)
    ensures IsFirst(values + [value], |values|) <==> Trim(value) != "" && Lower(Trim(value)) !in seen
    ensures Seen(if Trim(value) == "" then seen else seen + {Lower(Trim(value))}, values + [value])
  {
    var all := values + [value];
    var seen' := if Trim(value) == "" then seen else seen + {Lower(Trim(value))};
    assert forall j :: 0 <= j < |values| ==> all[j] == values[j];
    assert all[|values|] == value;
    assert Lower("") == "" && (Trim(value) != "" ==> |Lower(Trim(value))| > 0);
    assert forall j :: 0 <= j < |values| && Trim(values[j]) == "" ==> Lower(Trim(values[j])) == "";
    forall key | key in seen'
      ensures exists j :: 0 <= j < |all| && Trim(all[j]) != "" && Lower(Trim(all[j])) == key
    {
      if key in seen {
        var j :| 0 <= j < |values| && Trim(values[j]) != "" && Lower(Trim(values[j])) == key;
        assert all[j] == values[j];
      } else {
        assert all[|values|] == value;
      }
    }
  }

  lemma NormalizedAppend(values: seq<string>, value: string)
    ensures Normalized(values + [value])
            == if IsFirst(values + [value], |values|) then Normalized(values) + [Trim(value)] else Normalized(values)
  {
    assert Front(values + [value]) == values;
    KeptInRange(values);
    KeptInRange(values + [value]);
  }

  method NormalizeStrings(values: seq<string>) returns (result: seq<string>)
    ensures result == Normalized(values)
  {
    hide Normalized, IsFirst, Seen;
    var seen: set<string> := {};
    result := [];
    NothingSeen();
    for i := 0 to |values|
      invariant Seen(seen, values[..i])
      invariant result == Normalized(values[..i])
    {
      assert values[..i + 1] == values[..i] + [values[i]];
      SeenAppend(seen, values[..i], values[i]);
      NormalizedAppend(values[..i], values[i]);
      var value := Trim(values[i]);
      if value == "" {
        continue;
      }
      var key := Lower(value);
      if key in seen {
        assert seen + {key} == seen;
        continue;
      }
      seen := seen + {key};
      result := result + [value];
    }
    assert values[..|values|] == values;
  }

  lemma NothingSeen()
    ensures Seen({}, []) && Normalized([]) == []
  {}

  // What normalisation keeps.

  /** Trimmed, not empty, and no two equal ignoring case. */
  ghost predicate Normal(values: seq<string>) {
    && (forall k :: 0 <= k < |values| ==> values[k] != "" && Trim(values[k]) == values[k])
    && (forall k, l :: 0 <= k < l < |values| ==> !EqualFold(values[k], values[l]))
  }

  function Trims(values: seq<string>): seq<string> {
    seq(|values|, i requires 0 <= i < |values| => Trim(values[i]))
  }

  lemma NormalizedIsNormal(values: seq<string>)
    ensures Normal(Normalized(values))
    ensures Subsequence(Normalized(values), Trims(values))
  {
    KeptSpec(values);
    KeptInRange(values);
    var kept, result := Kept(values), Normalized(values);
    forall k | 0 <= k < |result| ensures result[k] != "" && Trim(result[k]) == result[k] {
      assert IsFirst(values, kept[k]);
      TrimIdempotent(values[kept[k]]);
    }
    forall k, l | 0 <= k < l < |result| ensures !EqualFold(result[k], result[l]) {
      assert IsFirst(values, kept[l]) && kept[k] < kept[l];
      assert IsFirst(values, kept[k]);
      FoldIsLower(result[k], result[l]);
    }
    assert forall k :: 0 <= k < |kept| ==> IsFirst(values, kept[k]);
    assert forall k :: 0 <= k < |kept| ==> 0 <= kept[k] < |Trims(values)| && result[k] == Trims(values)[kept[k]];
  }

  lemma {:induction false} NormalIsFixed(values: seq<string>)
    requires Normal(values)
    ensures Normalized(values) == values
    decreases |values|
  {
    if values == [] {
      NothingSeen();
    } else {
      var before := Front(values);
      NormalIsFixed(before);
      assert values == before + [Last(values)];
      forall j | 0 <= j < |before| ensures Lower(Trim(values[j])) != Lower(Trim(Last(values))) {
        FoldIsLower(values[j], Last(values));
      }
      assert IsFirst(values, |values| - 1);
      NormalizedAppend(before, Last(values));
    }
  }

  /** A list is left as it is if and only if it is normal already; so normalising twice is normalising once. */
  lemma Idempotent(values: seq<string>)
    ensures Normalized(values) == values <==> Normal(values)
    ensures Normalized(Normalized(values)) == Normalized(values)
  {
    NormalizedIsNormal(values);
    NormalIsFixed(Normalized(values));
    if Normal(values) {
      NormalIsFixed(values);
    }
  }

  /** What comes later changes nothing about what came before: the first spelling wins. */
  lemma {:induction false} FirstWins(values: seq<string>, more: seq<string>)
    ensures Normalized(values) <= Normalized(values + more)
    decreases |more|
  {
    hide Normalized, IsFirst;
    if more == [] {
      assert values + more == values;
    } else {
      assert values + more == (values + Front(more)) + [Last(more)];
      FirstWins(values, Front(more));
      NormalizedAppend(values + Front(more), Last(more));
    }
  }

  // Case-insensitive membership.

  /** Some value is `needle`, ignoring case and white space around it. */
  predicate Matches(values: seq<string>, needle: string) {
    exists i :: 0 <= i < |values| && EqualFold(Trim(values[i]), needle)
  }

  /** The first position with the spelling of position `i`. */
  lemma {:induction false} FirstSpelling(values: seq<string>, i: int) returns (first: int)
    requires 0 <= i < |values| && Trim(values[i]) != ""
    ensures IsFirst(values, first) && first <= i && Lower(Trim(values[first])) == Lower(Trim(values[i]))
    decreases i
  {
    if j :| 0 <= j < i && Lower(Trim(values[j])) == Lower(Trim(values[i])) {
      assert |Lower(Trim(values[j]))| == |Trim(values[j])|;
      assert |Lower(Trim(values[i]))| == |Trim(values[i])|;
      first := FirstSpelling(values, j);
    } else {
      first := i;
    }
  }

  /** A search for anything but the empty string gives the same answer before and after. */
  lemma MatchesSame(values: seq<string>, needle: string)
    requires needle != ""
    ensures Matches(Normalized(values), needle) <==> Matches(values, needle)
  {
    KeptSpec(values);
    KeptInRange(values);
    var kept, result := Kept(values), Normalized(values);
    if Matches(result, needle) {
      var k :| 0 <= k < |result| && EqualFold(Trim(result[k]), needle);
      TrimIdempotent(values[kept[k]]);
      assert IsFirst(values, kept[k]);
      assert EqualFold(Trim(values[kept[k]]), needle);
    }
    if Matches(values, needle) {
      var i :| 0 <= i < |values| && EqualFold(Trim(values[i]), needle);
      var first := FirstSpelling(values, i);
      assert first in kept;
      var k :| 0 <= k < |kept| && kept[k] == first;
      FoldIsLower(Trim(values[i]), needle);
      FoldIsLower(Trim(values[first]), needle);
      TrimIdempotent(values[first]);
      assert EqualFold(Trim(result[k]), needle);
    }
  }
}
