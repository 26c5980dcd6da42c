/** Comma-separated configuration lists. */
module CommaList {
  import opened Sequences
  import opened Text

  /** The members of `parts` that are not blank, trimmed. */
  function Items(parts: seq<string>): seq<string> {
    if parts == [] then []
    else if Trim(Last(parts)) == "" then Items(Front(parts))
    else Items(Front(parts)) + [Trim(Last(parts))]
  }

  function SplitList(value: string): seq<string> {
    Items(Split(value, ','))
  }

  /** splitCommaSeparated */
  method SplitCommaSeparated(value: string) returns (result: seq<string>)
    ensures result == SplitList(value)
  {
    var parts := Split(value, ',');
    result := [];
    for i := 0 to |parts|
      invariant result == Items(parts[..i])
    {
      assert Front(parts[..i + 1]) == parts[..i];
      var trimmed := Trim(parts[i]);
      if trimmed != "" {
        result := result + [trimmed];
      }
    }
    assert parts[..|parts|] == parts;
  }

  /** BrokerList; nil is the empty list. It agrees with splitCommaSeparated everywhere. */
  method BrokerList(value: string) returns (brokers: seq<string>)
    ensures brokers == SplitList(value)
  {
    if Trim(value) == "" {
      BlankSplits(value);
      return [];
    }
    var parts := Split(value, ',');
    brokers := [];
    for i := 0 to |parts|
      invariant brokers == Items(parts[..i])
    {
      assert Front(parts[..i + 1]) == parts[..i];
      var broker := Trim(parts[i]);
      if broker == "" {
        continue;
      }
      brokers := brokers + [broker];
    }
    assert parts[..|parts|] == parts;
  }

  lemma {:induction false} TrimEmpty(s: string)
    ensures Trim(s) == "" <==> Spaces(s)
    decreases |s|
  {
    if s != "" && IsSpace(s[0]) {
      TrimEmpty(s[1..]);
      assert forall i :: 0 <= i < |s[1..]| ==> s[1..][i] == s[i + 1];
    } else if s != "" {
      TrimRightKeepsFirst(s);
    }
  }

  lemma {:induction false} TrimRightKeepsFirst(s: string)
    requires s != "" && !IsSpace(s[0])
    ensures TrimRight(s) != ""
    decreases |s|
  {
    if IsSpace(Last(s)) {
      TrimRightKeepsFirst(Front(s));
    }
  }

  lemma {:induction false} NoCommaSplit(s: string)
    requires ',' !in s
    ensures Split(s, ',') == [s]
    decreases |s|
  {
    if s != "" {
      NoCommaSplit(s[1..]);
      assert [s[0]] + s[1..] == s;
    }
  }

  lemma BlankSplits(value: string)
    requires Trim(value) == ""
    ensures SplitList(value) == []
  {
    TrimEmpty(value);
    NoCommaSplit(value);
    assert Front([value]) == [];
  }

  // Splitting at a comma.

  lemma {:induction false} SplitConcat(s: string, rest: string)
    ensures Split(s + "," + rest, ',') == Split(s, ',') + Split(rest, ',')
    decreases |s|
  {
    var whole := s + "," + rest;
    if s == "" {
      assert whole[1..] == rest;
    } else {
      assert whole[1..] == s[1..] + "," + rest;
      SplitConcat(s[1..], rest);
    }
  }

  lemma {:induction false} ItemsConcat(a: seq<string>, b: seq<string>)
    ensures Items(a + b) == Items(a) + Items(b)
    decreases |b|
  {
    hide Trim;
    if b == [] {
      assert a + b == a;
    } else {
      assert Front(a + b) == a + Front(b) && Last(a + b) == Last(b);
      ItemsConcat(a, Front(b));
      var last := if Trim(Last(b)) == "" then [] else [Trim(Last(b))];
      assert Items(b) == Items(Front(b)) + last && Items(a + b) == Items(a + Front(b)) + last;
    }
  }

  /** A value is split at each comma by itself, and a part without a comma gives its
      trimmed text, or nothing if it is blank. */
  lemma SplitParts(s: string, rest: string)
    ensures SplitList(s + "," + rest) == SplitList(s) + SplitList(rest)
    ensures ',' !in s ==> SplitList(s) == if Spaces(s) then [] else [Trim(s)]
  {
    SplitConcat(s, rest);
    ItemsConcat(Split(s, ','), Split(rest, ','));
    if ',' !in s {
      NoCommaSplit(s);
      TrimEmpty(s);
      assert Front([s]) == [];
    }
  }

  // Round trips.

  /** An item a list can hold. */
  predicate Item(s: string) {
    s != "" && Trim(s) == s && ',' !in s
  }

  predicate AllItems(items: seq<string>) {
    forall i :: 0 <= i < |items| ==> Item(items[i])
  }

  lemma {:induction false} SplitAfter(s: string, rest: string)
    requires ',' !in s
    ensures Split(s + "," + rest, ',') == [s] + Split(rest, ',')
    decreases |s|
  {
    var whole := s + "," + rest;
    if s == "" {
      assert whole[1..] == rest;
    } else {
      assert whole[1..] == s[1..] + "," + rest;
      SplitAfter(s[1..], rest);
      assert [s[0]] + s[1..] == s;
      assert [s[1..]] + Split(rest, ',') == Split(whole[1..], ',');
      assert ([s[1..]] + Split(rest, ','))[1..] == Split(rest, ',');
    }
  }

  lemma {:induction false} SplitJoin(items: seq<string>)
    requires items != [] && AllItems(items)
    ensures Split(Join(items, ','), ',') == items
    decreases |items|
  {
    assert Item(items[0]);
    if |items| == 1 {
      NoCommaSplit(items[0]);
    } else {
      SplitJoin(items[1..]);
      SplitAfter(items[0], Join(items[1..], ','));
    }
  }

  lemma {:induction false} ItemsFixed(items: seq<string>)
    requires AllItems(items)
    ensures Items(items) == items
    decreases |items|
  {
    if items != [] {
      assert Item(Last(items));
      ItemsFixed(Front(items));
    }
  }

  lemma {:induction false} SplitHasNoCommas(s: string)
    ensures forall i :: 0 <= i < |Split(s, ',')| ==> ',' !in Split(s, ',')[i]
    decreases |s|
  {
    if s != "" {
      SplitHasNoCommas(s[1..]);
    }
  }

  lemma {:induction false} ItemsAreItems(parts: seq<string>)
    requires forall i :: 0 <= i < |parts| ==> ',' !in parts[i]
    ensures AllItems(Items(parts))
    decreases |parts|
  {
    if parts != [] {
      ItemsAreItems(Front(parts));
      TrimKeeps(Last(parts));
      TrimIdempotent(Last(parts));
    }
  }

  /** Exactly the lists of items survive being joined and split. */
  lemma JoinSplit(items: seq<string>)
    ensures SplitList(Join(items, ',')) == items <==> AllItems(items)
  {
    if AllItems(items) {
      if items == [] {
        BlankSplits("");
      } else {
        SplitJoin(items);
        ItemsFixed(items);
      }
    }
    SplitIsItems(Join(items, ','));
  }

  lemma {:induction false} SplitIsItems(value: string)
    ensures AllItems(SplitList(value))
  {
    SplitHasNoCommas(value);
    ItemsAreItems(Split(value, ','));
  }

  /** Joining a split value and splitting again changes nothing. */
  lemma {:induction false} SplitJoinSplit(value: string)
    ensures SplitList(Join(SplitList(value), ',')) == SplitList(value)
  {
    SplitIsItems(value);
    JoinSplit(SplitList(value));
  }
}
