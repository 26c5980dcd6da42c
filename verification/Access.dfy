/** Access decisions, and what normalising the claims does to them. */
module Access {
  import opened Sequences
  import opened Text
  import opened Normalize
  import opened LastWins

  datatype Contour = Contour(name: string, role: string, groups: seq<string>, permissions: seq<string>)

  datatype Identity = Identity(role: string, contours: seq<Contour>, groups: seq<string>, permissions: seq<string>)

  /** Groups and permissions are looked up alike. */
  datatype Kind = Group | Permission

  function Flat(identity: Identity, kind: Kind): seq<string> {
    if kind.Group? then identity.groups else identity.permissions
  }

  function Nested(contour: Contour, kind: Kind): seq<string> {
    if kind.Group? then contour.groups else contour.permissions
  }

  function Names(contours: seq<Contour>): seq<string> {
    seq(|contours|, i requires 0 <= i < |contours| => contours[i].name)
  }

  predicate IsOwner(identity: Option<Identity>) {
    identity.Some? && EqualFold(Trim(identity.value.role), "owner")
  }

  predicate HasContour(identity: Option<Identity>, contour: string) {
    IsOwner(identity)
    || (Trim(contour) != "" && identity.Some? && Matches(Names(identity.value.contours), Trim(contour)))
  }

  predicate Has(identity: Option<Identity>, kind: Kind, item: string) {
    IsOwner(identity)
    || (Trim(item) != "" && identity.Some?
        && (Matches(Flat(identity.value, kind), Trim(item)) || InContours(identity.value.contours, kind, Trim(item))))
  }

  predicate InContours(contours: seq<Contour>, kind: Kind, needle: string) {
    exists i :: 0 <= i < |contours| && Matches(Nested(contours[i], kind), needle)
  }

  predicate HasGroup(identity: Option<Identity>, group: string) {
    Has(identity, Group, group)
  }

  predicate HasPermission(identity: Option<Identity>, permission: string) {
    Has(identity, Permission, permission)
  }

  // What the decisions are, by lower-case forms.

  /** Some value has the lower-case form of `query`, both trimmed. */
  ghost predicate Spelled(values: seq<string>, query: string) {
    exists i :: 0 <= i < |values| && Lower(Trim(values[i])) == Lower(Trim(query))
  }

  lemma MatchesSpelled(values: seq<string>, query: string)
    ensures Matches(values, Trim(query)) <==> Spelled(values, query)
  {
    forall i | 0 <= i < |values|
      ensures EqualFold(Trim(values[i]), Trim(query)) <==> Lower(Trim(values[i])) == Lower(Trim(query))
    {
      FoldIsLower(Trim(values[i]), Trim(query));
    }
  }

  /** Nobody is no owner; anybody else is by the role alone. */
  lemma OwnerDecision(identity: Identity)
    ensures IsOwner(Some(identity)) <==> Lower(Trim(identity.role)) == "owner"
    ensures !IsOwner(None)
  {
    FoldIsLower(Trim(identity.role), "owner");
    assert Lower("owner") == "owner";
  }

  /** The owner has every contour, anybody else those with a name of the spelling asked
      for, if that is not blank; nobody has any. */
  lemma ContourDecision(identity: Identity, query: string)
    ensures HasContour(Some(identity), query)
            <==> Lower(Trim(identity.role)) == "owner"
                 || (Trim(query) != "" && exists i :: 0 <= i < |identity.contours|
                                                      && Lower(Trim(identity.contours[i].name)) == Lower(Trim(query)))
    ensures !HasContour(None, query)
  {
    OwnerDecision(identity);
    var names := Names(identity.contours);
    MatchesSpelled(names, query);
    assert forall i :: 0 <= i < |identity.contours| ==> names[i] == identity.contours[i].name;
    if i :| 0 <= i < |identity.contours| && Lower(Trim(identity.contours[i].name)) == Lower(Trim(query)) {
      assert Lower(Trim(names[i])) == Lower(Trim(query));
    }
  }

  /** The same for groups: flat ones, and those of any contour. */
  lemma GroupDecision(identity: Identity, query: string)
    ensures HasGroup(Some(identity), query)
            <==> Lower(Trim(identity.role)) == "owner"
                 || (Trim(query) != "" && (Spelled(identity.groups, query)
                       || exists i :: 0 <= i < |identity.contours| && Spelled(identity.contours[i].groups, query)))
    ensures !HasGroup(None, query)
  {
    hide Spelled, Matches;
    OwnerDecision(identity);
    MatchesSpelled(identity.groups, query);
    forall i | 0 <= i < |identity.contours|
      ensures Matches(Nested(identity.contours[i], Group), Trim(query)) <==> Spelled(identity.contours[i].groups, query)
    {
      MatchesSpelled(identity.contours[i].groups, query);
    }
  }

  /** The same for permissions. */
  lemma PermissionDecision(identity: Identity, query: string)
    ensures HasPermission(Some(identity), query)
            <==> Lower(Trim(identity.role)) == "owner"
                 || (Trim(query) != "" && (Spelled(identity.permissions, query)
                       || exists i :: 0 <= i < |identity.contours| && Spelled(identity.contours[i].permissions, query)))
    ensures !HasPermission(None, query)
  {
    hide Spelled, Matches;
    OwnerDecision(identity);
    MatchesSpelled(identity.permissions, query);
    forall i | 0 <= i < |identity.contours|
      ensures Matches(Nested(identity.contours[i], Permission), Trim(query)) <==> Spelled(identity.contours[i].permissions, query)
    {
      MatchesSpelled(identity.contours[i].permissions, query);
    }
  }

  // Normalising contours.

  ghost function Cleaned(contour: Contour): Contour {
    Contour(Trim(contour.name), Trim(contour.role), Normalized(contour.groups), Normalized(contour.permissions))
  }

  /** The first contour of each spelling, cleaned. */
  ghost function NormalizedContours(contours: seq<Contour>): seq<Contour> {
    KeptInRange(Names(contours));
    var kept := Kept(Names(contours));
    seq(|kept|, k requires 0 <= k < |kept| => Cleaned(contours[kept[k]]))
  }

  lemma ContoursAppend(contours: seq<Contour>, contour: Contour)
    ensures var names := Names(contours) + [contour.name];
            && Names(contours + [contour]) == names
            && NormalizedContours(contours + [contour])
               == if IsFirst(names, |contours|) then NormalizedContours(contours) + [Cleaned(contour)]
                  else NormalizedContours(contours)
  {
    assert Front(Names(contours + [contour])) == Names(contours);
    KeptInRange(Names(contours));
    KeptInRange(Names(contours + [contour]));
  }

  lemma NoContours()
    ensures NormalizedContours([]) == [] && Names([]) == []
  {}

  method NormalizeContours(input: seq<Contour>) returns (result: seq<Contour>)
    ensures result == NormalizedContours(input)
  {
    hide NormalizedContours, IsFirst, Seen;
    var seen: set<string> := {};
    result := [];
    NoContours();
    NothingSeen();
    for i := 0 to |input|
      invariant Seen(seen, Names(input[..i]))
      invariant result == NormalizedContours(input[..i])
    {
      var item := input[i];
      assert input[..i + 1] == input[..i] + [item];
      ContoursAppend(input[..i], item);
      SeenAppend(seen, Names(input[..i]), item.name);
      var contour := Trim(item.name);
      if contour == "" {
        continue;
      }
      var key := Lower(contour);
      if key in seen {
        assert seen + {key} == seen;
        continue;
      }
      seen := seen + {key};
      var groups := NormalizeStrings(item.groups);
      var permissions := NormalizeStrings(item.permissions);
      result := result + [Contour(contour, Trim(item.role), groups, permissions)];
    }
    assert input[..|input|] == input;
  }

  /** The identity that is built from an identity's claims. */
  ghost function NormalizedIdentity(identity: Identity): Identity {
    Identity(Trim(identity.role), NormalizedContours(identity.contours),
             Normalized(identity.groups), Normalized(identity.permissions))
  }

  lemma SameOwner(identity: Identity)
    ensures IsOwner(Some(NormalizedIdentity(identity))) <==> IsOwner(Some(identity))
  {
    TrimIdempotent(identity.role);
  }

  lemma NamesNormalized(contours: seq<Contour>)
    ensures Names(NormalizedContours(contours)) == Normalized(Names(contours))
  {
    KeptInRange(Names(contours));
  }

  /** Position `k` of the result is contour `i`, with the white space around its role
      and name gone and its lists normalised. */
  predicate CameFrom(result: seq<Contour>, k: int, contours: seq<Contour>, i: int) {
    && 0 <= k < |result| && 0 <= i < |contours|
    && result[k].name == Trim(contours[i].name) && result[k].role == Trim(contours[i].role)
  }

  /** The names are the normalised names; each contour that survives keeps its own role,
      groups and permissions. */
  lemma ContoursKept(contours: seq<Contour>, i: int)
    requires Survives(contours, i)
    ensures Names(NormalizedContours(contours)) == Normalized(Names(contours))
    ensures exists k :: CameFrom(NormalizedContours(contours), k, contours, i)
                        && NormalizedContours(contours)[k].groups == Normalized(contours[i].groups)
                        && NormalizedContours(contours)[k].permissions == Normalized(contours[i].permissions)
  {
    var names := Names(contours);
    NamesNormalized(contours);
    KeptSpec(names);
    assert i in Kept(names);
    var k :| 0 <= k < |Kept(names)| && Kept(names)[k] == i;
    assert CameFrom(NormalizedContours(contours), k, contours, i);
  }

  /** An identity that was normalised has no white space around its role, and normal lists. */
  lemma IdentityNormal(identity: Identity)
    ensures var normalized := NormalizedIdentity(identity);
            && normalized.role == Trim(identity.role)
            && normalized.groups == Normalized(identity.groups) && Normal(normalized.groups)
            && normalized.permissions == Normalized(identity.permissions) && Normal(normalized.permissions)
            && Normal(Names(normalized.contours))
  {
    hide Normal, Normalized;
    NamesNormalized(identity.contours);
    NormalizedIsNormal(identity.groups);
    NormalizedIsNormal(identity.permissions);
    NormalizedIsNormal(Names(identity.contours));
  }

  /** Normalising changes no decision about a contour. */
  lemma SameContours(identity: Identity, query: string)
    ensures HasContour(Some(NormalizedIdentity(identity)), query) <==> HasContour(Some(identity), query)
  {
    SameOwner(identity);
    NamesNormalized(identity.contours);
    if Trim(query) != "" {
      MatchesSame(Names(identity.contours), Trim(query));
    }
  }

  /** Contour `i` survives normalising: its name is not blank and not a repetition. */
  ghost predicate Survives(contours: seq<Contour>, i: int) {
    IsFirst(Names(contours), i)
  }

  ghost predicate InSurvivors(contours: seq<Contour>, kind: Kind, needle: string) {
    exists i :: Survives(contours, i) && Matches(Nested(contours[i], kind), needle)
  }

  lemma SameNested(contour: Contour, kind: Kind, needle: string)
    requires needle != ""
    ensures Matches(Nested(Cleaned(contour), kind), needle) <==> Matches(Nested(contour, kind), needle)
  {
    MatchesSame(contour.groups, needle);
    MatchesSame(contour.permissions, needle);
  }

  lemma SurvivorsMatch(contours: seq<Contour>, kind: Kind, needle: string)
    requires needle != ""
    ensures InContours(NormalizedContours(contours), kind, needle) <==> InSurvivors(contours, kind, needle)
  {
    var names := Names(contours);
    KeptSpec(names);
    KeptInRange(names);
    var kept, result := Kept(names), NormalizedContours(contours);
    if InContours(result, kind, needle) {
      var k :| 0 <= k < |result| && Matches(Nested(result[k], kind), needle);
      SameNested(contours[kept[k]], kind, needle);
      assert Survives(contours, kept[k]);
    }
    if InSurvivors(contours, kind, needle) {
      var i :| Survives(contours, i) && Matches(Nested(contours[i], kind), needle);
      assert i in kept;
      var k :| 0 <= k < |kept| && kept[k] == i;
      SameNested(contours[i], kind, needle);
      assert Matches(Nested(result[k], kind), needle);
    }
  }

  /** Exactly which groups and permissions are granted after normalising: those of
      the flat lists and of the surviving contours. */
  lemma GrantedAfter(identity: Identity, kind: Kind, item: string)
    ensures Has(Some(NormalizedIdentity(identity)), kind, item)
            <==> IsOwner(Some(identity))
                 || (Trim(item) != ""
                     && (Matches(Flat(identity, kind), Trim(item)) || InSurvivors(identity.contours, kind, Trim(item))))
  {
    SameOwner(identity);
    if Trim(item) != "" {
      MatchesSame(identity.groups, Trim(item));
      MatchesSame(identity.permissions, Trim(item));
      SurvivorsMatch(identity.contours, kind, Trim(item));
    }
  }

  /** Normalising never grants anything new. */
  lemma NothingGained(identity: Identity, kind: Kind, item: string)
    requires Has(Some(NormalizedIdentity(identity)), kind, item)
    ensures Has(Some(identity), kind, item)
  {
    GrantedAfter(identity, kind, item);
  }

  /** Every group or permission of a contour that does not survive is also granted elsewhere. */
  ghost predicate Covered(identity: Identity, kind: Kind) {
    forall i, j :: 0 <= i < |identity.contours| && !Survives(identity.contours, i)
                   && 0 <= j < |Nested(identity.contours[i], kind)| ==>
                     CoveredItem(identity, kind, Trim(Nested(identity.contours[i], kind)[j]))
  }

  ghost predicate CoveredItem(identity: Identity, kind: Kind, needle: string) {
    needle != "" ==> Matches(Flat(identity, kind), needle) || InSurvivors(identity.contours, kind, needle)
  }

  /** Normalising changes no decision about this query. */
  ghost predicate SameDecision(identity: Identity, kind: Kind, item: string) {
    Has(Some(NormalizedIdentity(identity)), kind, item) <==> Has(Some(identity), kind, item)
  }

  lemma MatchesFolded(values: seq<string>, a: string, b: string)
    requires EqualFold(a, b)
    ensures Matches(values, a) <==> Matches(values, b)
  {
    FoldIsLower(a, b);
    forall i | 0 <= i < |values| ensures EqualFold(Trim(values[i]), a) <==> EqualFold(Trim(values[i]), b) {
      FoldIsLower(Trim(values[i]), a);
      FoldIsLower(Trim(values[i]), b);
    }
  }

  lemma CoveredFolded(identity: Identity, kind: Kind, a: string, b: string)
    requires EqualFold(a, b) && CoveredItem(identity, kind, a)
    ensures CoveredItem(identity, kind, b)
  {
    MatchesFolded(Flat(identity, kind), a, b);
    forall i | Survives(identity.contours, i) && Matches(Nested(identity.contours[i], kind), a)
      ensures Matches(Nested(identity.contours[i], kind), b)
    {
      MatchesFolded(Nested(identity.contours[i], kind), a, b);
    }
  }

  lemma CoveredDecides(identity: Identity, kind: Kind, item: string)
    requires Covered(identity, kind)
    ensures SameDecision(identity, kind, item)
  {
    GrantedAfter(identity, kind, item);
    var needle := Trim(item);
    if needle != "" && InContours(identity.contours, kind, needle) {
      var i :| 0 <= i < |identity.contours| && Matches(Nested(identity.contours[i], kind), needle);
      if !Survives(identity.contours, i) {
        var list := Nested(identity.contours[i], kind);
        var j :| 0 <= j < |list| && EqualFold(Trim(list[j]), needle);
        assert CoveredItem(identity, kind, Trim(list[j]));
        CoveredFolded(identity, kind, Trim(list[j]), needle);
      }
    }
  }

  lemma DecidedCovers(identity: Identity, kind: Kind, i: int, j: int)
    requires 0 <= i < |identity.contours| && 0 <= j < |Nested(identity.contours[i], kind)|
    requires !IsOwner(Some(identity)) && SameDecision(identity, kind, Nested(identity.contours[i], kind)[j])
    ensures CoveredItem(identity, kind, Trim(Nested(identity.contours[i], kind)[j]))
  {
    var item := Nested(identity.contours[i], kind)[j];
    GrantedAfter(identity, kind, item);
    FoldIsLower(Trim(item), Trim(item));
    assert EqualFold(Trim(Nested(identity.contours[i], kind)[j]), Trim(item));
    assert Matches(Nested(identity.contours[i], kind), Trim(item));
  }

  /** Normalising changes no decision about groups (or permissions) if and only if
      the identity is the owner, or those of the contours dropped for a blank or
      repeated name are granted elsewhere too. */
  lemma DecisionsSame(identity: Identity, kind: Kind)
    ensures (forall item: string :: SameDecision(identity, kind, item))
            <==> IsOwner(Some(identity)) || Covered(identity, kind)
  {
    hide SameDecision, Covered, IsOwner;
    if IsOwner(Some(identity)) {
      forall item: string ensures SameDecision(identity, kind, item) {
        OwnerDecides(identity, kind, item);
      }
    } else if Covered(identity, kind) {
      forall item: string ensures SameDecision(identity, kind, item) {
        CoveredDecides(identity, kind, item);
      }
    } else if forall item: string :: SameDecision(identity, kind, item) {
      AllDecidedCover(identity, kind);
    }
  }

  lemma OwnerDecides(identity: Identity, kind: Kind, item: string)
    requires IsOwner(Some(identity))
    ensures SameDecision(identity, kind, item)
  {
    GrantedAfter(identity, kind, item);
  }

  lemma AllDecidedCover(identity: Identity, kind: Kind)
    requires !IsOwner(Some(identity)) && forall item: string :: SameDecision(identity, kind, item)
    ensures Covered(identity, kind)
  {
    hide SameDecision, IsOwner;
    forall i, j | 0 <= i < |identity.contours| && !Survives(identity.contours, i)
                  && 0 <= j < |Nested(identity.contours[i], kind)|
      ensures CoveredItem(identity, kind, Trim(Nested(identity.contours[i], kind)[j]))
    {
      DecidedCovers(identity, kind, i, j);
    }
  }

  /** With no contour name blank or repeated, every decision stays. */
  lemma DistinctNames(identity: Identity, kind: Kind, item: string)
    requires forall i :: 0 <= i < |identity.contours| ==> Survives(identity.contours, i)
    ensures SameDecision(identity, kind, item)
  {
    CoveredDecides(identity, kind, item);
  }

  /** A group and a permission of a repeated contour are lost. */
  lemma {:induction false} RepeatedContour() returns (identity: Identity)
    ensures HasGroup(Some(identity), "b") && !HasGroup(Some(NormalizedIdentity(identity)), "b")
    ensures HasPermission(Some(identity), "b") && !HasPermission(Some(NormalizedIdentity(identity)), "b")
  {
    var first, second := Contour("x", "", ["a"], ["a"]), Contour("X", "", ["b"], ["b"]);
    identity := Identity("", [first, second], [], []);
    var names := Names(identity.contours);
    assert Lower(Trim(names[0])) == Lower(Trim(names[1]));
    assert !Survives(identity.contours, 1);
    assert !EqualFold(Trim("a"), Trim("b")) && EqualFold(Trim("b"), Trim("b"));
    forall kind: Kind
      ensures Has(Some(identity), kind, "b") && !Has(Some(NormalizedIdentity(identity)), kind, "b")
    {
      assert Nested(identity.contours[1], kind)[0] == "b";
      assert Matches(Nested(identity.contours[1], kind), Trim("b"));
      GrantedAfter(identity, kind, "b");
    }
  }

  // Normalising rules.

  /** What one entry of the rules claim contributes. */
  ghost function RuleWrite(input: map<string, seq<string>>, key: string): Option<(string, seq<string>)> {
    if key !in input || Trim(key) == "" || Normalized(input[key]) == [] then None
    else Some((Trim(key), Normalized(input[key])))
  }

  ghost function RuleWrites(input: map<string, seq<string>>): string -> Option<(string, seq<string>)> {
    key => RuleWrite(input, key)
  }

  /** `order` is the order in which the runtime ranges over the map. */
  method NormalizeRules(input: map<string, seq<string>>, order: seq<string>) returns (result: map<string, seq<string>>)
    requires Enumerates(order, input.Keys)
    ensures result == Collect(order, RuleWrites(input))
  {
    hide Normalized;
    result := map[];
    for i := 0 to |order|
      invariant result == Collect(order[..i], RuleWrites(input))
    {
      assert order[..i + 1] == order[..i] + [order[i]];
      assert Front(order[..i + 1]) == order[..i];
      var key := Trim(order[i]);
      if key == "" {
        continue;
      }
      var values := NormalizeStrings(input[order[i]]);
      if |values| == 0 {
        continue;
      }
      result := result[key := values];
    }
    assert order[..|order|] == order;
  }

  /** The keys never depend on the order; the whole map is independent of it if and
      only if keys that are equal after trimming, with values left, have the same values. */
  lemma RulesOrder(input: map<string, seq<string>>, order: seq<string>, name: string)
    requires Enumerates(order, input.Keys)
    ensures name in Collect(order, RuleWrites(input))
            <==> exists key :: key in input && Trim(key) == name && name != "" && Normalized(input[key]) != []
    ensures OrderIrrelevant(input.Keys, RuleWrites(input)) <==> Agree(input.Keys, RuleWrites(input))
  {
    OrderTheorem(input.Keys, RuleWrites(input));
    NamesSame(input.Keys, RuleWrites(input), order, name);
    if key :| key in input && Trim(key) == name && name != "" && Normalized(input[key]) != [] {
      assert Writes(RuleWrites(input), key, name);
    }
    if Written(input.Keys, RuleWrites(input), name) {
      var key :| key in input.Keys && Writes(RuleWrites(input), key, name);
      assert key in input && Trim(key) == name;
    }
  }

  /** Trimmed keys that are distinct give one map for every order, with each key's own values. */
  lemma {:induction false} RulesDistinct(input: map<string, seq<string>>, order: seq<string>, order': seq<string>)
    requires Enumerates(order, input.Keys) && Enumerates(order', input.Keys)
    requires forall a, b :: a in input && b in input && a != b ==> Trim(a) != Trim(b)
    ensures Collect(order, RuleWrites(input)) == Collect(order', RuleWrites(input))
    ensures forall key :: key in input && Trim(key) != "" && Normalized(input[key]) != [] ==>
              Trim(key) in Collect(order, RuleWrites(input))
              && Collect(order, RuleWrites(input))[Trim(key)] == Normalized(input[key])
  {
    SameMap(input.Keys, RuleWrites(input), order, order');
    forall key | key in input && Trim(key) != "" && Normalized(input[key]) != []
      ensures Trim(key) in Collect(order, RuleWrites(input))
      ensures Collect(order, RuleWrites(input))[Trim(key)] == Normalized(input[key])
    {
      AgreedValue(input.Keys, RuleWrites(input), order, key);
    }
  }
}
