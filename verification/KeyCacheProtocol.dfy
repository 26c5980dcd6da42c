/** A key cache under concurrent calls: each call reads, may refresh, and reads
    again, and the steps of different calls interleave in any way. */
module KeyCacheProtocol {
  import opened Sequences
  import opened KeyCache

  /** Where one call stands. */
  datatype Call =
    | Fetching(kid: string, algorithm: string)
    | Rereading(kid: string, algorithm: string)
    | Returned(answer: Answer)

  /** A key set that was stored, when, and by which call. */
  datatype Snapshot = Snapshot(document: seq<Jwk>, at: int, caller: nat)

  datatype State = State(cache: Cache, now: int, calls: map<nat, Call>, snapshots: seq<Snapshot>)

  datatype Setting = Setting(policy: Policy, ttl: nat, zeroTime: int, startTime: int)

  datatype Step =
    | Read(id: nat, kid: string, algorithm: string)
    | Fail(id: nat)
    | Store(id: nat, document: seq<Jwk>)
    | Reread(id: nat)
    | Wait(time: nat)

  predicate Enabled(s: State, step: Step) {
    match step
    case Read(id, _, _) => id !in s.calls
    case Fail(id) => id in s.calls && s.calls[id].Fetching?
    case Store(id, _) => id in s.calls && s.calls[id].Fetching?
    case Reread(id) => id in s.calls && s.calls[id].Rereading?
    case Wait(_) => true
  }

  function Answered(s: State, id: nat, answer: Answer): State {
    s.(calls := s.calls[id := Returned(answer)])
  }

  function Apply(g: Setting, s: State, step: Step): State
    requires Enabled(s, step)
  {
    match step
    case Read(id, kid, algorithm) =>
      if kid == "" then Answered(s, id, Unauthorized)
      else
        (match FirstRead(g.policy, g.ttl, s.cache, kid, s.now)
         case Some(key) => Answered(s, id, Select(g.policy, key, algorithm))
         case None => s.(calls := s.calls[id := Fetching(kid, algorithm)]))
    case Fail(id) => Answered(s, id, FetchFailed)
    case Store(id, document) =>
      (match Stored(g.policy, document, s.now)
       case None => Answered(s, id, FetchFailed)
       case Some(cache) =>
         State(cache, s.now, s.calls[id := Rereading(s.calls[id].kid, s.calls[id].algorithm)],
               s.snapshots + [Snapshot(document, s.now, id)]))
    case Reread(id) =>
      Answered(s, id, AnswerOf(g.policy, SecondRead(g.policy, g.ttl, s.cache, s.calls[id].kid, s.now), s.calls[id].algorithm))
    case Wait(time) => s.(now := s.now + time)
  }

  predicate Legal(g: Setting, steps: seq<Step>)
    decreases |steps|, 0
  {
    steps == [] || (Legal(g, Front(steps)) && Enabled(Run(g, Front(steps)), Last(steps)))
  }

  function Run(g: Setting, steps: seq<Step>): State
    requires Legal(g, steps)
    decreases |steps|, 1
  {
    if steps == [] then State(Cache(map[], g.zeroTime), g.startTime, map[], [])
    else Apply(g, Run(g, Front(steps)), Last(steps))
  }

  // Invariants.

  /** The cache is the last snapshot, or still empty. */
  ghost predicate CacheInv(g: Setting, s: State) {
    if s.snapshots == [] then s.cache == Cache(map[], g.zeroTime)
    else s.cache == Cache(Keys(g.policy, Last(s.snapshots).document), Last(s.snapshots).at)
  }

  ghost predicate SnapshotInv(g: Setting, s: State) {
    && (forall n :: 0 <= n < |s.snapshots| ==> Keys(g.policy, s.snapshots[n].document) != map[] && s.snapshots[n].at <= s.now)
    && (forall m, n :: 0 <= m < n < |s.snapshots| ==> s.snapshots[m].at <= s.snapshots[n].at)
  }

  ghost predicate StoredBy(s: State, id: nat) {
    exists n :: 0 <= n < |s.snapshots| && s.snapshots[n].caller == id
  }

  ghost predicate RereadInv(s: State) {
    forall id :: id in s.calls && s.calls[id].Rereading? ==> StoredBy(s, id)
  }

  lemma CacheStep(g: Setting, s: State, step: Step)
    requires CacheInv(g, s) && Enabled(s, step)
    ensures CacheInv(g, Apply(g, s, step))
  {}

  lemma SnapshotStep(g: Setting, s: State, step: Step)
    requires SnapshotInv(g, s) && Enabled(s, step)
    ensures SnapshotInv(g, Apply(g, s, step))
  {}

  lemma RereadStep(g: Setting, s: State, step: Step)
    requires RereadInv(s) && Enabled(s, step)
    ensures RereadInv(Apply(g, s, step))
  {
    var s' := Apply(g, s, step);
    forall id | StoredBy(s, id) ensures StoredBy(s', id) {
      var n :| 0 <= n < |s.snapshots| && s.snapshots[n].caller == id;
      assert s'.snapshots[n].caller == id;
    }
    if step.Store? && |s'.snapshots| > |s.snapshots| {
      assert s'.snapshots[|s.snapshots|].caller == step.id;
    }
  }

  lemma {:induction false} Always(g: Setting, steps: seq<Step>)
    requires Legal(g, steps)
    ensures CacheInv(g, Run(g, steps)) && SnapshotInv(g, Run(g, steps)) && RereadInv(Run(g, steps))
    decreases |steps|
  {
    hide Apply, Enabled;
    if steps != [] {
      var s := Run(g, Front(steps));
      Always(g, Front(steps));
      CacheStep(g, s, Last(steps));
      SnapshotStep(g, s, Last(steps));
      RereadStep(g, s, Last(steps));
    }
  }

  // Snapshot safety.

  /** Keys and time always belong to one stored set that had a usable key, and the
      times of stored sets never decrease. */
  lemma {:induction false} OneSnapshot(g: Setting, steps: seq<Step>)
    requires Legal(g, steps)
    ensures var s := Run(g, steps);
            && (s.snapshots == [] ==> s.cache == Cache(map[], g.zeroTime))
            && (s.snapshots != [] ==> s.cache == Cache(Keys(g.policy, Last(s.snapshots).document), Last(s.snapshots).at)
                                      && s.cache.keys != map[] && s.cache.fetchedAt <= s.now)
            && (forall m, n :: 0 <= m < n < |s.snapshots| ==> s.snapshots[m].at <= s.snapshots[n].at)
  {
    Always(g, steps);
  }

  /** The snapshots grow exactly when a set with a usable key is stored, the cache
      changes only then, to that set at that time, and no step takes `fetchedAt` back. */
  lemma {:induction false} RefreshChanges(g: Setting, steps: seq<Step>, step: Step)
    requires Legal(g, steps) && Enabled(Run(g, steps), step)
    ensures var s, s' := Run(g, steps), Apply(g, Run(g, steps), step);
            var usable := step.Store? && Keys(g.policy, step.document) != map[];
            && s'.cache == (if usable then Cache(Keys(g.policy, step.document), s.now) else s.cache)
            && s'.snapshots == (if usable then s.snapshots + [Snapshot(step.document, s.now, step.id)] else s.snapshots)
            && (s.snapshots != [] ==> s.cache.fetchedAt <= s'.cache.fetchedAt)
  {
    Always(g, steps);
  }

  /** The key is the answer for `kid` in the last stored set. */
  ghost predicate FromLast(g: Setting, s: State, kid: string, algorithm: string, key: Key) {
    && s.snapshots != []
    && var keys := Keys(g.policy, Last(s.snapshots).document);
       kid in keys && Found(key) == Select(g.policy, keys[kid], algorithm)
  }

  /** A key returned without a refresh comes from the last stored set, within its TTL. */
  lemma FirstReadSafe(g: Setting, steps: seq<Step>, id: nat, kid: string, algorithm: string, key: Key)
    requires Legal(g, steps) && Enabled(Run(g, steps), Read(id, kid, algorithm))
    requires Apply(g, Run(g, steps), Read(id, kid, algorithm)).calls[id] == Returned(Found(key))
    ensures var s := Run(g, steps);
            && FromLast(g, s, kid, algorithm, key)
            && (if g.policy.Resolver? then s.now - Last(s.snapshots).at <= g.ttl else s.now - Last(s.snapshots).at < g.ttl)
  {
    Always(g, steps);
  }

  lemma SecondReadState(g: Setting, s: State, id: nat, key: Key)
    requires CacheInv(g, s) && SnapshotInv(g, s) && RereadInv(s) && Enabled(s, Reread(id))
    requires Apply(g, s, Reread(id)).calls[id] == Returned(Found(key))
    ensures FromLast(g, s, s.calls[id].kid, s.calls[id].algorithm, key)
    ensures g.policy.Resolver? ==> s.now - Last(s.snapshots).at <= g.ttl
    ensures OwnBefore(s, id)
  {
    hide Keys, Select;
    assert StoredBy(s, id);
    var n :| 0 <= n < |s.snapshots| && s.snapshots[n].caller == id;
    assert n < |s.snapshots| - 1 ==> s.snapshots[n].at <= s.snapshots[|s.snapshots| - 1].at;
  }

  /** The last stored set is call `id`'s own, or was stored no earlier. */
  ghost predicate OwnBefore(s: State, id: nat) {
    exists n :: 0 <= n < |s.snapshots| && s.snapshots[n].caller == id && s.snapshots[n].at <= Last(s.snapshots).at
  }

  /** A key returned after a refresh comes from the last stored set: in the resolver
      within its TTL, in the verifier stored no earlier than by this call itself. */
  lemma SecondReadSafe(g: Setting, steps: seq<Step>, id: nat, key: Key)
    requires Legal(g, steps) && Enabled(Run(g, steps), Reread(id))
    requires Apply(g, Run(g, steps), Reread(id)).calls[id] == Returned(Found(key))
    ensures var s := Run(g, steps);
            && FromLast(g, s, s.calls[id].kid, s.calls[id].algorithm, key)
            && (g.policy.Resolver? ==> s.now - Last(s.snapshots).at <= g.ttl)
            && OwnBefore(s, id)
  {
    hide Apply, Run, Legal;
    Always(g, steps);
    SecondReadState(g, Run(g, steps), id, key);
  }

  /** The verifier's second read is within the TTL exactly when a set was stored
      less than the TTL ago since this call stored its own, the `n`-th. If the call's
      own store is that recent it is; if no call stored after it, only then. */
  lemma SecondReadFresh(g: Setting, steps: seq<Step>, id: nat, key: Key, n: nat)
    requires g.policy.Verifier? && Legal(g, steps) && Enabled(Run(g, steps), Reread(id))
    requires Apply(g, Run(g, steps), Reread(id)).calls[id] == Returned(Found(key))
    requires n < |Run(g, steps).snapshots| && Run(g, steps).snapshots[n].caller == id
    ensures var s := Run(g, steps);
            var recent := s.now - Last(s.snapshots).at < g.ttl;
            && (recent <==> exists m :: n <= m < |s.snapshots| && s.now - s.snapshots[m].at < g.ttl)
            && (s.now - s.snapshots[n].at < g.ttl ==> recent)
            && (n == |s.snapshots| - 1 && recent ==> s.now - s.snapshots[n].at < g.ttl)
  {
    hide Apply, Run, Legal, Enabled, Keys, CacheInv, RereadInv;
    Always(g, steps);
    var s := Run(g, steps);
    assert forall m :: n <= m < |s.snapshots| ==> s.snapshots[m].at <= Last(s.snapshots).at;
    assert Last(s.snapshots) == s.snapshots[|s.snapshots| - 1];
  }

  /** Whether the last stored set has the kid, and is young enough to be used unasked. */
  ghost predicate Usable(g: Setting, s: State, kid: string, anyAge: bool) {
    && s.snapshots != [] && kid in Keys(g.policy, Last(s.snapshots).document)
    && var age := s.now - Last(s.snapshots).at;
       anyAge || age < g.ttl || (g.policy.Resolver? && age == g.ttl)
  }

  ghost function Direct(g: Setting, s: State, kid: string, algorithm: string): Answer
    requires Usable(g, s, kid, true)
  {
    Select(g.policy, Keys(g.policy, Last(s.snapshots).document)[kid], algorithm)
  }

  /** What the first read decides: a call without a kid is refused, one whose kid is in
      the last stored set is answered from it within the TTL, and any other fetches. */
  lemma FirstReadExact(g: Setting, steps: seq<Step>, id: nat, kid: string, algorithm: string)
    requires Legal(g, steps) && Enabled(Run(g, steps), Read(id, kid, algorithm))
    ensures var s := Run(g, steps);
            Apply(g, s, Read(id, kid, algorithm)).calls
            == s.calls[id := if kid == "" then Returned(Unauthorized)
                             else if Usable(g, s, kid, false) then Returned(Direct(g, s, kid, algorithm))
                             else Fetching(kid, algorithm)]
  {
    hide Keys, Select;
    Always(g, steps);
  }

  /** What the second read decides: the answer from the last stored set if it has the
      kid, in the resolver within the TTL only; otherwise the call is refused. */
  lemma SecondReadExact(g: Setting, steps: seq<Step>, id: nat)
    requires Legal(g, steps) && Enabled(Run(g, steps), Reread(id))
    ensures var s := Run(g, steps);
            var call := s.calls[id];
            Apply(g, s, Reread(id)).calls
            == s.calls[id := Returned(if Usable(g, s, call.kid, g.policy.Verifier?) then Direct(g, s, call.kid, call.algorithm)
                                      else Unauthorized)]
  {
    hide Keys, Select;
    Always(g, steps);
  }

  /** A fetch that fails, or brings no usable key, fails the call that made it, and no other. */
  lemma FetchesFail(g: Setting, steps: seq<Step>, id: nat, document: seq<Jwk>)
    requires Legal(g, steps) && Enabled(Run(g, steps), Store(id, document))
    ensures var s := Run(g, steps);
            && Enabled(s, Fail(id)) && Apply(g, s, Fail(id)).calls == s.calls[id := Returned(FetchFailed)]
            && var after := Apply(g, s, Store(id, document)).calls;
               if Keys(g.policy, document) == map[] then after == s.calls[id := Returned(FetchFailed)]
               else after == s.calls[id := Rereading(s.calls[id].kid, s.calls[id].algorithm)]
  {
    hide Keys;
  }

  lemma Extend(g: Setting, steps: seq<Step>, step: Step)
    requires Legal(g, steps) && Enabled(Run(g, steps), step)
    ensures Legal(g, steps + [step]) && Run(g, steps + [step]) == Apply(g, Run(g, steps), step)
  {
    assert Front(steps + [step]) == steps;
  }

  /** The verifier's second read can return a key that is past its TTL. */
  lemma StaleSecondRead(document: seq<Jwk>, kid: string, ttl: nat, key: Key)
    requires kid in Keys(Verifier, document) && Keys(Verifier, document)[kid] == key && key.Ed25519?
    ensures var g := Setting(Verifier, ttl, 0, 0);
            var steps := [Read(0, kid, "EdDSA")] + [Store(0, document)] + [Wait(ttl)] + [Reread(0)];
            && Legal(g, steps)
            && 0 in Run(g, steps).calls && Run(g, steps).calls[0] == Returned(Found(key))
            && Run(g, steps).now - Run(g, steps).cache.fetchedAt >= ttl
  {
    hide Legal, Run;
    var g := Setting(Verifier, ttl, 0, 0);
    KeysSpec(Verifier, document, kid);
    Start(g);
    assert "EdDSA"[0] == 'E' && KeyForAlgorithm(key, "EdDSA") == Found(key);
    var read := [] + [Read(0, kid, "EdDSA")];
    Extend(g, [], Read(0, kid, "EdDSA"));
    assert read == [Read(0, kid, "EdDSA")];
    Extend(g, read, Store(0, document));
    Extend(g, read + [Store(0, document)], Wait(ttl));
    Extend(g, read + [Store(0, document)] + [Wait(ttl)], Reread(0));
  }

  lemma Start(g: Setting)
    ensures Legal(g, []) && Run(g, []) == State(Cache(map[], g.zeroTime), g.startTime, map[], [])
  {}
}
