/** Sequential use of a key cache against one fixed, available key set. */
module KeyCacheRuns {
  import opened Sequences
  import opened KeyCache
  import opened Spacing

  /** The cache after the calls, their answers, and the times of the fetches. */
  function ServeAll(policy: Policy, ttl: nat, cache: Cache, requests: seq<Request>): (Cache, seq<Answer>, seq<int>) {
    if requests == [] then (cache, [], [])
    else
      var (before, answers, fetches) := ServeAll(policy, ttl, cache, Front(requests));
      var (after, answer, fetch) := Serve(policy, ttl, before, Last(requests));
      (after, answers + [answer], fetches + fetch)
  }

  /** One call ends before the next begins. */
  predicate Timely(requests: seq<Request>) {
    && (forall i :: 0 <= i < |requests| ==> requests[i].readAt <= requests[i].storedAt <= requests[i].rereadAt)
    && (forall i :: 0 < i < |requests| ==> requests[i - 1].rereadAt <= requests[i].readAt)
  }

  /** Every fetch brings `document`, which has every requested kid, and the resolver
      reads again within the lifetime of what it has just stored. */
  predicate Available(policy: Policy, ttl: nat, document: seq<Jwk>, requests: seq<Request>) {
    forall i :: 0 <= i < |requests| ==>
      && requests[i].fetched == Some(document)
      && requests[i].kid in Keys(policy, document)
      && (policy.Resolver? ==> requests[i].rereadAt - requests[i].storedAt <= ttl)
  }

  /** The distance between two fetches: the resolver needs the age to exceed the TTL. */
  function Gap(policy: Policy, ttl: nat): nat {
    if policy.Resolver? then ttl + 1 else ttl
  }

  ghost predicate Settled(policy: Policy, ttl: nat, document: seq<Jwk>, cache: Cache, fetches: seq<int>, now: int) {
    && Spaced(fetches, Gap(policy, ttl))
    && (if fetches == [] then cache.keys == map[]
        else cache == Cache(Keys(policy, document), Last(fetches)) && Last(fetches) <= now)
  }

  function Direct(policy: Policy, document: seq<Jwk>, request: Request): Answer
    requires request.kid in Keys(policy, document)
  {
    Select(policy, Keys(policy, document)[request.kid], request.algorithm)
  }

  lemma ServeStep(policy: Policy, ttl: nat, document: seq<Jwk>, cache: Cache, fetches: seq<int>, now: int, request: Request)
    requires Settled(policy, ttl, document, cache, fetches, now)
    requires now <= request.readAt <= request.storedAt <= request.rereadAt
    requires request.fetched == Some(document) && request.kid in Keys(policy, document)
    requires policy.Resolver? ==> request.rereadAt - request.storedAt <= ttl
    ensures var (cache', answer, fetch) := Serve(policy, ttl, cache, request);
            && Settled(policy, ttl, document, cache', fetches + fetch, request.rereadAt)
            && answer == Direct(policy, document, request)
  {
    hide Keys, Select;
    KeysSpec(policy, document, request.kid);
  }

  lemma EmptySettled(policy: Policy, ttl: nat, document: seq<Jwk>, cache: Cache, now: int)
    ensures cache.keys == map[] ==> Settled(policy, ttl, document, cache, [], now)
  {}

  lemma {:induction false} ServeAllSettles(policy: Policy, ttl: nat, document: seq<Jwk>, zeroTime: int, requests: seq<Request>)
    requires Timely(requests) && Available(policy, ttl, document, requests)
    ensures var (cache, answers, fetches) := ServeAll(policy, ttl, Cache(map[], zeroTime), requests);
            && (requests != [] ==> Settled(policy, ttl, document, cache, fetches, Last(requests).rereadAt))
            && (requests == [] ==> fetches == [] && cache.keys == map[])
            && |answers| == |requests|
            && (forall i :: 0 <= i < |requests| ==> answers[i] == Direct(policy, document, requests[i]))
    decreases |requests|
  {
    hide Serve, Keys, Direct, Settled;
    if requests != [] {
      var earlier, request := Front(requests), Last(requests);
      assert requests == earlier + [request];
      assert forall i :: 0 <= i < |earlier| ==> earlier[i] == requests[i];
      assert requests[|requests| - 1] == request;
      ServeAllSettles(policy, ttl, document, zeroTime, earlier);
      var (cache, answers, fetches) := ServeAll(policy, ttl, Cache(map[], zeroTime), earlier);
      var now := if earlier == [] then request.readAt else Last(earlier).rereadAt;
      assert earlier != [] ==> requests[|requests| - 2] == Last(earlier);
      EmptySettled(policy, ttl, document, cache, now);
      ServeStep(policy, ttl, document, cache, fetches, now, request);
    }
  }

  /** Every answer is the direct lookup of the kid in the key set. */
  lemma AnswersDirect(policy: Policy, ttl: nat, document: seq<Jwk>, zeroTime: int, requests: seq<Request>, i: nat)
    requires Timely(requests) && Available(policy, ttl, document, requests) && i < |requests|
    ensures var answers := ServeAll(policy, ttl, Cache(map[], zeroTime), requests).1;
            i < |answers| && answers[i] == Direct(policy, document, requests[i])
  {
    ServeAllSettles(policy, ttl, document, zeroTime, requests);
  }

  /** n >= 2 fetches take more than (n-1)*TTL in the resolver, and at least that long in the verifier. */
  lemma FetchBound(policy: Policy, ttl: nat, document: seq<Jwk>, zeroTime: int, requests: seq<Request>)
    requires Timely(requests) && Available(policy, ttl, document, requests)
    ensures var fetches := ServeAll(policy, ttl, Cache(map[], zeroTime), requests).2;
            && (requests != [] ==> fetches != [])
            && (|fetches| >= 2 && policy.Resolver? ==> (|fetches| - 1) * ttl < Last(fetches) - fetches[0])
            && (|fetches| >= 2 && policy.Verifier? ==> (|fetches| - 1) * ttl <= Last(fetches) - fetches[0])
  {
    hide ServeAll, Timely, Available, Keys;
    ServeAllSettles(policy, ttl, document, zeroTime, requests);
    var fetches := ServeAll(policy, ttl, Cache(map[], zeroTime), requests).2;
    if requests != [] {
      FirstFetches(policy, ttl, document, zeroTime, requests);
    }
    if |fetches| >= 2 {
      SpacedLasts(fetches, Gap(policy, ttl));
      assert (|fetches| - 1) * (ttl + 1) == (|fetches| - 1) * ttl + (|fetches| - 1);
    }
  }

  /** An empty cache has to fetch. */
  lemma {:induction false} FirstFetches(policy: Policy, ttl: nat, document: seq<Jwk>, zeroTime: int, requests: seq<Request>)
    requires requests != [] && Available(policy, ttl, document, requests)
    ensures ServeAll(policy, ttl, Cache(map[], zeroTime), requests).2 != []
    decreases |requests|
  {
    if |requests| == 1 {
      assert Front(requests) == [] && Last(requests) == requests[0];
      KeysSpec(policy, document, requests[0].kid);
    } else {
      FirstFetches(policy, ttl, document, zeroTime, Front(requests));
    }
  }

  /** Both bounds are reached: two calls at the right distance fetch twice. */
  lemma BoundReached(policy: Policy, ttl: nat, document: seq<Jwk>, kid: string, algorithm: string)
    requires kid in Keys(policy, document)
    ensures var gap := Gap(policy, ttl);
            var requests := [Request(kid, algorithm, 0, Some(document), 0, 0),
                             Request(kid, algorithm, gap, Some(document), gap, gap)];
            && Timely(requests) && Available(policy, ttl, document, requests)
            && ServeAll(policy, ttl, Cache(map[], 0), requests).2 == [0, gap]
  {
    hide Keys;
    KeysSpec(policy, document, kid);
    var gap := Gap(policy, ttl);
    var first, second := Request(kid, algorithm, 0, Some(document), 0, 0), Request(kid, algorithm, gap, Some(document), gap, gap);
    assert Front([first, second]) == [first] && Front([first]) == [];
    var cache := Cache(Keys(policy, document), 0);
    assert Serve(policy, ttl, Cache(map[], 0), first) == (cache, Direct(policy, document, first), [0]);
    var none: (seq<Answer>, seq<int>) := ([], []);
    assert none.0 + [Direct(policy, document, first)] == [Direct(policy, document, first)] && none.1 + [0] == [0];
    assert ServeAll(policy, ttl, Cache(map[], 0), [first]) == (cache, [Direct(policy, document, first)], [0]);
    assert Serve(policy, ttl, cache, second).2 == [gap];
    assert [0] + [gap] == [0, gap];
  }

  /** The bound needs every kid to be in the set: a kid that is not is refused and
      fetched for at every call, however fresh the cache. */
  lemma {:induction false} UnknownKids(policy: Policy, ttl: nat, document: seq<Jwk>, zeroTime: int, requests: seq<Request>)
    requires forall i :: 0 <= i < |requests| ==>
               requests[i].kid != "" && requests[i].kid !in Keys(policy, document) && requests[i].fetched == Some(document)
    ensures var (cache, answers, fetches) := ServeAll(policy, ttl, Cache(map[], zeroTime), requests);
            && (cache.keys == map[] || cache.keys == Keys(policy, document))
            && |answers| == |fetches| == |requests|
            && (forall i :: 0 <= i < |requests| ==>
                  fetches[i] == requests[i].storedAt
                  && answers[i] == if Keys(policy, document) == map[] then FetchFailed else Unauthorized)
    decreases |requests|
  {
    if requests != [] {
      UnknownKids(policy, ttl, document, zeroTime, Front(requests));
    }
  }

  /** While every fetch fails, or brings no usable key, the cache stays as it is. It goes
      on answering as long as the TTL allows; then every call is refused as a failure. */
  lemma {:induction false} Outage(policy: Policy, ttl: nat, cache: Cache, requests: seq<Request>)
    requires forall i :: 0 <= i < |requests| ==>
               requests[i].fetched.None? || Keys(policy, requests[i].fetched.value) == map[]
    ensures var (cache', answers, _) := ServeAll(policy, ttl, cache, requests);
            && cache' == cache && |answers| == |requests|
            && (forall i :: 0 <= i < |requests| ==> answers[i] == OutageAnswer(policy, ttl, cache, requests[i]))
    decreases |requests|
  {
    hide Keys, Select;
    if requests != [] {
      Outage(policy, ttl, cache, Front(requests));
    }
  }

  function OutageAnswer(policy: Policy, ttl: nat, cache: Cache, request: Request): Answer {
    var age := request.readAt - cache.fetchedAt;
    if request.kid == "" then Unauthorized
    else if request.kid in cache.keys && (age < ttl || (policy.Resolver? && age == ttl)) then
      Select(policy, cache.keys[request.kid], request.algorithm)
    else FetchFailed
  }
}
