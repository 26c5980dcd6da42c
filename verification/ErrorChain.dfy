/** The error contract: chains of errors, what is read from them, and the one
    operation that rewrites them. */
module ErrorChain {
  import opened Sequences

  /** A Go map of details: shared by reference, changed in place. Values are opaque. */
  class DetailMap {
    var entries: map<string, int>

    constructor (entries: map<string, int>)
      ensures this.entries == entries
    {
      this.entries := entries;
    }
  }

  /** An error value with its chain. `address` is the identity of the object. */
  datatype Error =
    | Nil                            // no error
    | NilApp                         // a nil *AppError
    | App(address: nat, code: string, message: string, status: int, details: DetailMap?, cause: Error)
    | Wrapper(address: nat, cause: Error)  // any other error that wraps one
    | Leaf(address: nat)             // any other error

  /** A result, or a nil pointer dereference. */
  datatype Outcome<+T> = Value(value: T) | Panic

  const INTERNAL_CODE := "common.internal"
  const INTERNAL_MESSAGE := "Внутренняя ошибка сервиса"
  const INTERNAL_STATUS := 500

  // Reading.

  /** errors.As for *AppError, or for an interface only AppError implements. */
  function FirstApp(e: Error): (app: Error)
    ensures app.App? || app.NilApp? || app.Nil?
  {
    match e
    case Wrapper(_, cause) => FirstApp(cause)
    case Leaf(_) => Nil
    case _ => e
  }

  function CodeOf(e: Error): string {
    match FirstApp(e)
    case App(_, code, _, _, _, _) => code
    case NilApp => ""
    case _ => INTERNAL_CODE
  }

  function SafeMessageOf(e: Error): string {
    match FirstApp(e)
    case App(_, _, message, _, _, _) => message
    case NilApp => ""
    case _ => INTERNAL_MESSAGE
  }

  function HTTPStatusOf(e: Error): int {
    match FirstApp(e)
    case App(_, _, _, status, _, _) => if status > 0 then status else INTERNAL_STATUS
    case _ => INTERNAL_STATUS
  }

  /** The details object DetailsOf copies. */
  function DetailsIn(e: Error): DetailMap? {
    match FirstApp(e)
    case App(_, _, _, _, details, _) => details
    case _ => null
  }

  /** A nil map and an empty one read alike. */
  function Entries(details: DetailMap?): map<string, int>
    reads details
  {
    if details == null then map[] else details.entries
  }

  /** errors.Is below the top: each error of the chain is compared by identity, then by its own Is. */
  function Walk(e: Error, target: Error): Outcome<bool> {
    if e != Nil && e == target then Value(true)
    else
      match e
      case Nil => Value(false)
      case Leaf(_) => Value(false)
      case Wrapper(_, cause) => Walk(cause, target)
      // AppError.Is reads the receiver's code, and the target's if that is not empty.
      case NilApp => if target.App? then Panic else Value(false)
      case App(_, code, _, _, _, cause) =>
        if target.NilApp? && code != "" then Panic
        else if target.App? && code != "" && code == target.code then Value(true)
        else Walk(cause, target)
  }

  function Is(e: Error, target: Error): Outcome<bool> {
    if e.Nil? || target.Nil? then Value(e == target) else Walk(e, target)
  }

  // Constructors.

  datatype Kind = InvalidInput | Unauthorized | Forbidden | NotFound | Conflict | Internal

  function StatusOf(kind: Kind): int {
    match kind
    case InvalidInput => 400
    case Unauthorized => 401
    case Forbidden => 403
    case NotFound => 404
    case Conflict => 409
    case Internal => INTERNAL_STATUS
  }

  function SentinelCode(kind: Kind): string {
    match kind
    case InvalidInput => "common.invalid_input"
    case Unauthorized => "common.unauthorized"
    case Forbidden => "common.forbidden"
    case NotFound => "common.not_found"
    case Conflict => "common.conflict"
    case Internal => INTERNAL_CODE
  }

  function Wrap(address: nat, cause: Error, code: string, message: string, status: int): Error {
    App(address, code, message, status, null, cause)
  }

  /** One of the sentinel errors; `address` and `message` are its own. */
  function Sentinel(kind: Kind, address: nat, message: string): Error {
    Wrap(address, Nil, SentinelCode(kind), message, StatusOf(kind))
  }

  /** A constructed error keeps its own code and has its kind's status, it is its
      kind's sentinel, and no other sentinel unless by its own code. */
  lemma Constructed(kind: Kind, address: nat, code: string, message: string, sentinel: Error, target: Error, other: Kind)
    requires exists a: nat, m :: sentinel == Sentinel(kind, a, m)
    requires exists a: nat, m :: a != address && target == Sentinel(other, a, m)
    ensures var e := Wrap(address, sentinel, code, message, StatusOf(kind));
            && CodeOf(e) == code && HTTPStatusOf(e) == StatusOf(kind)
            && Is(e, sentinel) == Value(true)
            && (Is(e, target) == Value(true) <==> other == kind || code == SentinelCode(other))
  {
    var e := Wrap(address, sentinel, code, message, StatusOf(kind));
    assert Walk(sentinel, sentinel) == Value(true);
    assert Walk(sentinel, target) == Value(SentinelCode(kind) == SentinelCode(other));
    if kind != other {
      CodesDiffer(kind, other);
    }
  }

  lemma CodesDiffer(a: Kind, b: Kind)
    requires a != b
    ensures SentinelCode(a) != SentinelCode(b)
  {
    assert SentinelCode(a)[7] != SentinelCode(b)[7] || SentinelCode(a)[9] != SentinelCode(b)[9];
  }

  // Chains.

  /** The errors of a chain, outermost first. */
  function Chain(e: Error): seq<Error> {
    match e
    case Nil => []
    case Leaf(_) => [e]
    case NilApp => [e]
    case Wrapper(_, cause) => [e] + Chain(cause)
    case App(_, _, _, _, _, cause) => [e] + Chain(cause)
  }

  /** Position `i` is that of the first AppError. */
  predicate FirstAt(chain: seq<Error>, i: int) {
    && 0 <= i < |chain| && (chain[i].App? || chain[i].NilApp?)
    && forall j :: 0 <= j < i ==> !chain[j].App? && !chain[j].NilApp?
  }

  lemma FirstBehind(first: Error, chain: seq<Error>, i: int)
    requires !first.App? && !first.NilApp?
    ensures FirstAt([first] + chain, i) <==> FirstAt(chain, i - 1)
  {
    var all := [first] + chain;
    assert forall j :: 0 < j < |all| ==> all[j] == chain[j - 1];
    assert forall j :: 0 <= j < |chain| ==> chain[j] == all[j + 1];
    assert all[0] == first;
  }

  lemma {:induction false} FirstAppAt(e: Error)
    ensures forall i :: FirstAt(Chain(e), i) ==> FirstApp(e) == Chain(e)[i]
    ensures (forall i :: !FirstAt(Chain(e), i)) ==> FirstApp(e) == Nil
    decreases e
  {
    match e
    case Wrapper(_, cause) =>
      hide FirstAt;
      FirstAppAt(cause);
      forall i ensures FirstAt(Chain(e), i) <==> FirstAt(Chain(cause), i - 1) {
        FirstBehind(e, Chain(cause), i);
      }
      forall i | FirstAt(Chain(e), i) ensures FirstApp(e) == Chain(e)[i] {
        FirstInRange(Chain(cause), i - 1);
      }
      forall i | FirstAt(Chain(cause), i) ensures FirstAt(Chain(e), i + 1) {
        assert FirstAt(Chain(e), i + 1) <==> FirstAt(Chain(cause), i + 1 - 1);
      }
    case App(_, _, _, _, _, _) => assert FirstAt(Chain(e), 0);
    case NilApp => assert FirstAt(Chain(e), 0);
    case _ =>
  }

  lemma FirstInRange(chain: seq<Error>, i: int)
    ensures FirstAt(chain, i) ==> 0 <= i < |chain|
  {}

  /** What is read from a chain is read from its first AppError; a status that is not
      positive reads as 500, and a chain without an AppError as an internal error. */
  lemma ReadFirst(e: Error, i: int)
    requires FirstAt(Chain(e), i)
    ensures Chain(e)[i].App? ==>
              && CodeOf(e) == Chain(e)[i].code && SafeMessageOf(e) == Chain(e)[i].message
              && HTTPStatusOf(e) == (if Chain(e)[i].status > 0 then Chain(e)[i].status else 500)
              && DetailsIn(e) == Chain(e)[i].details
    ensures Chain(e)[i].NilApp? ==> CodeOf(e) == SafeMessageOf(e) == "" && HTTPStatusOf(e) == 500 && DetailsIn(e) == null
  {
    FirstAppAt(e);
  }

  lemma ReadNone(e: Error)
    requires forall i :: !FirstAt(Chain(e), i)
    ensures CodeOf(e) == "common.internal" && SafeMessageOf(e) == "Внутренняя ошибка сервиса"
    ensures HTTPStatusOf(e) == 500 && DetailsIn(e) == null
  {
    FirstAppAt(e);
  }

  /** The error `link` of a chain settles the search for `target`: it matches, or
      comparing the two dereferences a nil pointer. */
  predicate Settles(link: Error, target: Error) {
    Match(link, target) || Dereferences(link, target)
  }

  predicate Match(link: Error, target: Error) {
    link == target || (link.App? && target.App? && link.code != "" && link.code == target.code)
  }

  predicate Dereferences(link: Error, target: Error) {
    link != target && ((link.NilApp? && target.App?) || (link.App? && link.code != "" && target.NilApp?))
  }

  /** errors.Is says yes if and only if the first error of the chain that settles the
      search matches, and panics if and only if that one dereferences nil. */
  lemma {:induction false} IsSpec(e: Error, target: Error)
    requires !e.Nil? && !target.Nil?
    ensures Is(e, target) == Value(true) <==> exists i :: FirstSettles(Chain(e), target, i) && Match(Chain(e)[i], target)
    ensures Is(e, target) == Panic <==> exists i :: FirstSettles(Chain(e), target, i) && Dereferences(Chain(e)[i], target)
  {
    WalkSpec(e, target);
  }

  predicate FirstSettles(chain: seq<Error>, target: Error, i: int) {
    0 <= i < |chain| && Settles(chain[i], target) && forall j :: 0 <= j < i ==> !Settles(chain[j], target)
  }

  lemma SettlesBehind(first: Error, chain: seq<Error>, target: Error, i: int)
    requires !Settles(first, target)
    ensures FirstSettles([first] + chain, target, i) <==> FirstSettles(chain, target, i - 1)
  {
    hide Settles;
    var all := [first] + chain;
    assert forall j :: 0 < j < |all| ==> all[j] == chain[j - 1];
    assert forall j :: 0 <= j < |chain| ==> chain[j] == all[j + 1];
    assert all[0] == first;
  }

  lemma {:induction false} WalkSpec(e: Error, target: Error)
    requires !target.Nil?
    ensures forall i :: FirstSettles(Chain(e), target, i) ==>
              Walk(e, target) == if Match(Chain(e)[i], target) then Value(true) else Panic
    ensures (forall i :: !FirstSettles(Chain(e), target, i)) ==> Walk(e, target) == Value(false)
    ensures Walk(e, target) != Value(false) ==> exists i :: FirstSettles(Chain(e), target, i)
    decreases e
  {
    if e != Nil {
      if Settles(e, target) {
        assert FirstSettles(Chain(e), target, 0);
      } else if e.Wrapper? || e.App? {
        WalkSpec(e.cause, target);
        forall i ensures FirstSettles(Chain(e), target, i) <==> FirstSettles(Chain(e.cause), target, i - 1) {
          SettlesBehind(e, Chain(e.cause), target, i);
        }
        assert forall i :: 0 < i < |Chain(e)| ==> Chain(e)[i] == Chain(e.cause)[i - 1];
        if i :| FirstSettles(Chain(e.cause), target, i) {
          assert FirstSettles(Chain(e), target, i + 1);
        }
      }
    }
  }

  // Details.

  method CloneDetails(details: DetailMap?) returns (cloned: DetailMap?)
    ensures cloned == null <==> |Entries(details)| == 0
    ensures cloned != null ==> fresh(cloned)
    ensures Entries(cloned) == Entries(details)
  {
    if details == null || |details.entries| == 0 {
      assert Entries(details) == map[];
      return null;
    }
    cloned := new DetailMap(map[]);
    var left := details.entries.Keys;
    while left != {}
      invariant left <= details.entries.Keys && fresh(cloned)
      invariant details.entries == old(details.entries)
      invariant cloned.entries == map key | key in details.entries.Keys - left :: details.entries[key]
      decreases |left|
    {
      var key :| key in left;
      cloned.entries := cloned.entries[key := details.entries[key]];
      left := left - {key};
    }
  }

  /** The rewritten error: a copy of the first AppError of the chain with new
      details, or an internal error around a chain without one. */
  function Detailed(e: Error, address: nat, details: DetailMap): Outcome<Error> {
    match FirstApp(e)
    case App(_, code, message, status, _, cause) => Value(App(address, code, message, status, details, cause))
    case NilApp => Panic
    case Nil => Value(App(address, INTERNAL_CODE, INTERNAL_MESSAGE, INTERNAL_STATUS, details, e))
  }

  /** `address` is that of the newly allocated error. */
  method WithDetails(err: Error, details: DetailMap?, address: nat) returns (result: Outcome<Error>)
    ensures |Entries(details)| == 0 ==> result == Value(err)
    ensures |Entries(details)| > 0 ==> (result.Panic? <==> FirstApp(err).NilApp?)
    ensures |Entries(details)| > 0 && result.Value? ==>
              && var own := DetailsIn(result.value);
                 own != null && fresh(own) && own.entries == Entries(details)
                 && result == Detailed(err, address, own)
  {
    if details == null || |details.entries| == 0 {
      return Value(err);
    }
    var appErr := FirstApp(err);
    if appErr.NilApp? {
      return Panic;
    }
    var cloned := CloneDetails(details);
    if appErr.App? {
      return Value(appErr.(address := address, details := cloned));
    }
    return Value(App(address, INTERNAL_CODE, INTERNAL_MESSAGE, INTERNAL_STATUS, cloned, err));
  }

  method DetailsOf(err: Error) returns (details: DetailMap?)
    ensures Entries(details) == Entries(DetailsIn(err))
    ensures details != null ==> fresh(details)
  {
    details := CloneDetails(DetailsIn(err));
  }

  /** The caller's map and a map handed out are changed in every way; what the
      error holds stays. */
  method Isolated(err: Error, details: DetailMap, address: nat, later: map<string, int>, change: map<string, int>)
    returns (result: Outcome<Error>)
    requires |details.entries| > 0
    modifies details
    ensures result.Value? ==> Entries(DetailsIn(result.value)) == old(details.entries)
    ensures details.entries == later
  {
    result := WithDetails(err, details, address);
    details.entries := later;
    if result.Value? {
      var handedOut := DetailsOf(result.value);
      if handedOut != null {
        handedOut.entries := change;
      }
    }
  }

  // What WithDetails keeps.

  /** `e` inside any number of other errors that wrap it. */
  function Around(wrappers: seq<nat>, e: Error): Error {
    if wrappers == [] then e else Around(Front(wrappers), Wrapper(Last(wrappers), e))
  }

  lemma {:induction false} FirstAround(wrappers: seq<nat>, e: Error)
    ensures FirstApp(Around(wrappers, e)) == FirstApp(e)
    decreases |wrappers|
  {
    if wrappers != [] {
      FirstAround(Front(wrappers), Wrapper(Last(wrappers), e));
    }
  }

  /** Details change nothing else that is read from a chain, and they can be read
      however often the result is wrapped again. */
  lemma ReadingsKept(e: Error, address: nat, details: DetailMap, wrappers: seq<nat>)
    requires !FirstApp(e).NilApp?
    ensures var e' := Around(wrappers, Detailed(e, address, details).value);
            && CodeOf(e') == CodeOf(e)
            && SafeMessageOf(e') == SafeMessageOf(e)
            && HTTPStatusOf(e') == HTTPStatusOf(e)
            && DetailsIn(e') == details
  {
    FirstAround(wrappers, Detailed(e, address, details).value);
  }

  /** Before the first AppError of a chain nothing can match an AppError. */
  lemma {:induction false} WalkToFirst(e: Error, target: Error)
    requires target.App? || target.NilApp?
    ensures Walk(e, target) == Walk(FirstApp(e), target)
    decreases e
  {
    if e.Wrapper? {
      WalkToFirst(e.cause, target);
    }
  }

  /** For every AppError target with a code, errors.Is answers the same before and
      after; around a chain without an AppError it answers yes for the internal code alone. */
  lemma IsKept(e: Error, address: nat, details: DetailMap, target: Error)
    requires !FirstApp(e).NilApp? && target.App? && target.code != ""
    ensures var e' := Detailed(e, address, details).value;
            && (FirstApp(e).App? ==> Is(e', target) == Is(e, target))
            && (FirstApp(e).Nil? ==> Is(e, target) == Value(false) && Is(e', target) == Value(target.code == INTERNAL_CODE))
            && (Is(e, target) == Value(true) ==> Is(e', target) == Value(true))
  {
    WalkToFirst(e, target);
  }

  function Length(e: Error): nat {
    match e
    case App(_, _, _, _, _, cause) => 1 + Length(cause)
    case Wrapper(_, cause) => 1 + Length(cause)
    case _ => 0
  }

  /** Only an AppError with a code matches anything but itself, so any other match is in the chain. */
  lemma {:induction false} FoundInChain(e: Error, target: Error)
    requires target.App? ==> target.code == ""
    requires Walk(e, target) == Value(true)
    ensures Length(target) <= Length(e)
    decreases e
  {
    if e != target && (e.Wrapper? || e.App?) {
      FoundInChain(e.cause, target);
    }
  }

  /** For an AppError target without a code only identity counts, and the copy has a
      new one: the answer stays, but for the copied AppError itself, which no longer matches. */
  lemma UncodedTarget(e: Error, address: nat, details: DetailMap, target: Error)
    requires FirstApp(e).App? && target.App? && target.code == ""
    requires target != Detailed(e, address, details).value
    ensures var e' := Detailed(e, address, details).value;
            if target == FirstApp(e) then Is(e, target) == Value(true) && Is(e', target) != Value(true)
            else Is(e', target) == Is(e, target)
  {
    WalkToFirst(e, target);
    if target == FirstApp(e) && Walk(target.cause, target) == Value(true) {
      FoundInChain(target.cause, target);
    }
  }

  /** `target` is one of the errors wrapped around the first AppError of the chain. */
  predicate Outer(e: Error, target: Error) {
    e.Wrapper? && (e == target || Outer(e.cause, target))
  }

  lemma {:induction false} OuterFound(e: Error, target: Error)
    requires !target.App? && !target.Nil? && FirstApp(e).App?
    ensures Walk(e, target) == if Outer(e, target) then Value(true) else Walk(FirstApp(e), target)
    ensures Outer(e, target) ==> target.Wrapper? && Length(target) > Length(FirstApp(e))
    decreases e
  {
    if e.Wrapper? {
      OuterFound(e.cause, target);
      FirstIsShorter(e.cause);
    }
  }

  lemma {:induction false} FirstIsShorter(e: Error)
    ensures Length(FirstApp(e)) <= Length(e)
    decreases e
  {
    if e.Wrapper? {
      FirstIsShorter(e.cause);
    }
  }

  /** WithDetails drops the errors around the first AppError: exactly those stop
      matching, every other target that is not an AppError matches as before. */
  lemma OuterLost(e: Error, address: nat, details: DetailMap, target: Error)
    requires FirstApp(e).App? && !target.App? && !target.Nil?
    ensures var e' := Detailed(e, address, details).value;
            if Outer(e, target) then Is(e, target) == Value(true) && Is(e', target) == Value(false)
            else Is(e', target) == Is(e, target)
  {
    OuterFound(e, target);
    if Outer(e, target) {
      var cause := FirstApp(e).cause;
      NeverPanics(cause, target);
      assert Length(FirstApp(e)) == 1 + Length(cause);
      assert Walk(Detailed(e, address, details).value, target) == Walk(cause, target);
      if Walk(cause, target).value {
        FoundInChain(cause, target);
      }
    }
  }

  lemma {:induction false} NeverPanics(e: Error, target: Error)
    requires target.Wrapper? || target.Leaf?
    ensures Walk(e, target).Value?
    decreases e
  {
    if e.Wrapper? || e.App? {
      NeverPanics(e.cause, target);
    }
  }

  /** A chain without an AppError is kept whole, with all its matches. */
  lemma InnerKept(e: Error, address: nat, details: DetailMap, target: Error)
    requires FirstApp(e).Nil? && (target.Wrapper? || target.Leaf?)
    ensures Is(Detailed(e, address, details).value, target) == Is(e, target)
  {
    NeverPanics(e, target);
  }

  /** A constructed error reads the same however often it is wrapped; the statuses are
      those of HTTP for the kind. */
  lemma ConstructedRead(kind: Kind, address: nat, code: string, message: string, sentinel: Error, wrappers: seq<nat>)
    ensures var e := Around(wrappers, Wrap(address, sentinel, code, message, StatusOf(kind)));
            && CodeOf(e) == code && SafeMessageOf(e) == message && DetailsIn(e) == null
            && HTTPStatusOf(e) == match kind
               case InvalidInput => 400
               case Unauthorized => 401
               case Forbidden => 403
               case NotFound => 404
               case Conflict => 409
               case Internal => 500
  {
    FirstAround(wrappers, Wrap(address, sentinel, code, message, StatusOf(kind)));
  }
}
