/** The two caches of signing keys: the resolver's and the verifier's.

    They keep the keys of the last JWK Set (section 5 of RFC 7517) that had a
    usable key, with the time it was stored. A fetch is any failure or any
    decoded set; times are those of a monotone clock. */
module KeyCache {
  import opened Sequences
  import opened Documents
  import opened Text
  import opened LastWins
  import opened RsaExponent
  import opened Int64
  import Base64Url

  datatype Policy = Resolver | Verifier

  /** One JWK; `x`, `n` and `e` are base64url texts. */
  datatype Jwk = Jwk(kty: string, kid: string, crv: string, x: string, n: string, e: string)

  datatype Key = Ed25519(bytes: seq<byte>) | Rsa(modulus: seq<byte>, exponent: int)

  const ED25519_SIZE := 32

  /** The bytes of an Ed25519 public key. */
  function PublicKey(text: string): Option<Key> {
    match Base64Url.Decode(text)
    case Some(bytes) => if |bytes| == ED25519_SIZE then Some(Ed25519(bytes)) else None
    case None => None
  }

  /** An OKP key of section 2 of RFC 8037, as the resolver takes it. */
  function ResolverKey(item: Jwk): Option<(string, Key)> {
    if !EqualFold(item.kty, "OKP") || !EqualFold(item.crv, "Ed25519") then None
    else if PublicKey(Trim(item.x)).None? || Trim(item.kid) == "" then None
    else Some((Trim(item.kid), PublicKey(Trim(item.x)).value))
  }

  function RsaKey(modulus: Option<seq<byte>>, exponent: Option<seq<byte>>): Option<Key> {
    if modulus.None? || modulus.value == [] || exponent.None? || exponent.value == [] then None
    else Some(Rsa(modulus.value, Wrap(BigEndian(exponent.value))))
  }

  function ParseJWK(item: Jwk): Option<Key> {
    if item.kty == "RSA" then RsaKey(Base64Url.Decode(item.n), Base64Url.Decode(item.e))
    else if item.kty == "OKP" && item.crv == "Ed25519" then PublicKey(item.x)
    else None
  }

  function VerifierKey(item: Jwk): Option<(string, Key)> {
    if item.kid == "" || ParseJWK(item).None? then None else Some((item.kid, ParseJWK(item).value))
  }

  function KeyWrite(policy: Policy): Jwk -> Option<(string, Key)> {
    if policy.Resolver? then ResolverKey else VerifierKey
  }

  /** The usable keys of a set; the last one of each kid wins. */
  function Keys(policy: Policy, document: seq<Jwk>): map<string, Key> {
    Collect(document, KeyWrite(policy))
  }

  /** The loop over the fetched set. */
  method ParseKeys(policy: Policy, document: seq<Jwk>) returns (keys: map<string, Key>)
    ensures keys == Keys(policy, document)
  {
    keys := map[];
    for i := 0 to |document|
      invariant keys == Keys(policy, document[..i])
    {
      assert Front(document[..i + 1]) == document[..i];
      var entry := KeyWrite(policy)(document[i]);
      if entry.None? {
        continue;
      }
      keys := keys[entry.value.0 := entry.value.1];
    }
    assert document[..|document|] == document;
  }

  /** Direct lookup: the last usable entry of the kid. */
  lemma KeysSpec(policy: Policy, document: seq<Jwk>, kid: string)
    requires kid in Keys(policy, document)
    ensures exists i :: LastWriter(document, KeyWrite(policy), kid, i)
                        && Keys(policy, document)[kid] == KeyWrite(policy)(document[i]).value.1
    ensures kid != ""
  {
    CollectSpec(document, KeyWrite(policy), kid);
  }

  /** An OKP key spelled as section 2 of RFC 8037 has it, with a kid of no outer white space. */
  predicate Canonical(item: Jwk) {
    item.kty == "OKP" && item.crv == "Ed25519" && Trim(item.kid) == item.kid
  }

  /** No white space other than line breaks around the text, or no key in it anyway. */
  predicate SameText(x: string) {
    Trimmed(Base64Url.WithoutBreaks(x)) || PublicKey(Trim(x)).None?
  }

  /** The resolver takes every canonical OKP key that the verifier takes, and no
      other exactly when trimming its text makes no difference. */
  lemma SameKey(item: Jwk)
    requires Canonical(item)
    ensures ResolverKey(item) == VerifierKey(item) <==> item.kid == "" || SameText(item.x)
    ensures VerifierKey(item).Some? ==> ResolverKey(item) == VerifierKey(item)
  {
    hide Base64Url.Decode, Base64Url.WithoutBreaks, Trim;
    FoldIsLower("OKP", "OKP");
    FoldIsLower("Ed25519", "Ed25519");
    assert "OKP" != "RSA" by {
      assert "OKP"[0] != "RSA"[0];
    }
    Base64Url.TrimThenDecode(item.x);
  }

  /** The two parsers take the same keys from a set of such keys. */
  lemma {:induction false} SameOkpKeys(document: seq<Jwk>)
    requires forall i :: 0 <= i < |document| ==> Canonical(document[i]) && SameText(document[i].x)
    ensures Keys(Resolver, document) == Keys(Verifier, document)
    decreases |document|
  {
    hide ResolverKey, VerifierKey, Canonical, SameText;
    if document != [] {
      SameOkpKeys(Front(document));
      SameKey(Last(document));
    }
  }

  /** A key whose text begins with a space: the resolver's only. */
  lemma SpacedText(bytes: seq<byte>, kid: string)
    requires |bytes| == ED25519_SIZE && Trim(kid) == kid != ""
    ensures var document := [Jwk("OKP", kid, "Ed25519", " " + Base64Url.Encode(bytes), "", "")];
            Keys(Resolver, document) == map[kid := Ed25519(bytes)] && Keys(Verifier, document) == map[]
  {
    hide ResolverKey, VerifierKey, Keys;
    SpacedKey(bytes, kid);
    var item := Jwk("OKP", kid, "Ed25519", " " + Base64Url.Encode(bytes), "", "");
    OneKey(Resolver, item);
    OneKey(Verifier, item);
  }

  lemma OneKey(policy: Policy, item: Jwk)
    ensures var entry := KeyWrite(policy)(item);
            Keys(policy, [item]) == match entry case None => map[] case Some(pair) => map[pair.0 := pair.1]
  {
    hide ResolverKey, VerifierKey;
    assert Front([item]) == [] && Last([item]) == item;
    assert Collect([], KeyWrite(policy)) == map[];
  }

  lemma SpacedKey(bytes: seq<byte>, kid: string)
    requires |bytes| == ED25519_SIZE && Trim(kid) == kid != ""
    ensures var item := Jwk("OKP", kid, "Ed25519", " " + Base64Url.Encode(bytes), "", "");
            ResolverKey(item) == Some((kid, Ed25519(bytes))) && VerifierKey(item) == None
  {
    hide Base64Url.Decode, Base64Url.WithoutBreaks, Base64Url.Encode;
    var text := Base64Url.Encode(bytes);
    var spaced := " " + text;
    var item := Jwk("OKP", kid, "Ed25519", spaced, "", "");
    Base64Url.DecodeEncoded(bytes);
    Base64Url.TrimThenDecode(text);
    Base64Url.TrimThenDecode(spaced);
    assert spaced[1..] == text && Trim(spaced) == Trim(text);
    Base64Url.BreaksConcat(" ", text);
    Base64Url.SpaceKept();
    SameKey(item);
  }

  // What becomes of one key.

  /** An Ed25519 key that is canonically encoded is stored if and only if it has 32 bytes. */
  lemma OkpStored(policy: Policy, kid: string, bytes: seq<byte>)
    requires Trim(kid) == kid != ""
    ensures Keys(policy, [Jwk("OKP", kid, "Ed25519", Base64Url.Encode(bytes), "", "")])
            == if |bytes| == 32 then map[kid := Ed25519(bytes)] else map[]
  {
    hide Base64Url.Decode, Base64Url.WithoutBreaks, Base64Url.Encode, Keys, Trim;
    var text := Base64Url.Encode(bytes);
    var item := Jwk("OKP", kid, "Ed25519", text, "", "");
    Base64Url.DecodeEncoded(bytes);
    Base64Url.TrimThenDecode(text);
    FoldIsLower("OKP", "OKP");
    FoldIsLower("Ed25519", "Ed25519");
    assert "OKP"[0] != "RSA"[0];
    OneKey(policy, item);
  }

  /** The verifier stores an RSA key with modulus and exponent as they were encoded, the
      exponent as a 64-bit integer; the resolver stores none. */
  lemma RsaStored(kid: string, crv: string, x: string, modulus: seq<byte>, exponent: seq<byte>)
    requires kid != "" && modulus != [] && exponent != []
    ensures var document := [Jwk("RSA", kid, crv, x, Base64Url.Encode(modulus), Base64Url.Encode(exponent))];
            && (BigEndian(exponent) < HALF ==> Keys(Verifier, document) == map[kid := Rsa(modulus, BigEndian(exponent))])
            && Keys(Verifier, document) == map[kid := Rsa(modulus, Wrap(BigEndian(exponent)))]
            && Keys(Resolver, document) == map[]
  {
    hide Base64Url.Decode, Base64Url.Encode, Keys, BigEndian, Wrap;
    var item := Jwk("RSA", kid, crv, x, Base64Url.Encode(modulus), Base64Url.Encode(exponent));
    Base64Url.DecodeEncoded(modulus);
    Base64Url.DecodeEncoded(exponent);
    ExponentExact(exponent);
    NotOkp();
    OneKey(Verifier, item);
    OneKey(Resolver, item);
  }

  lemma NotOkp()
    ensures "RSA" != "OKP" && !EqualFold("RSA", "OKP")
  {
    assert "RSA"[0] == 'R' && "OKP"[0] == 'O' && !EqualFoldChar('R', 'O');
  }

  /** An RSA key is refused if and only if its kid is empty, or one of the two texts is
      not base64url or has no bytes. */
  lemma RsaRefused(kid: string, crv: string, x: string, n: string, e: string)
    ensures Keys(Verifier, [Jwk("RSA", kid, crv, x, n, e)]) == map[] <==>
              || kid == ""
              || Base64Url.Decode(n).None? || Base64Url.Decode(n).value == []
              || Base64Url.Decode(e).None? || Base64Url.Decode(e).value == []
  {
    hide Base64Url.Decode, Keys, BigEndian, Wrap;
    NotOkp();
    var item := Jwk("RSA", kid, crv, x, n, e);
    OneKey(Verifier, item);
    assert VerifierKey(item).Some? ==> kid in Keys(Verifier, [item]);
  }

  /** The resolver takes exactly the keys whose type and curve have the right lower-case
      form, with a kid that is not blank and a text of 32 bytes, both trimmed. */
  lemma ResolverTakes(item: Jwk)
    ensures ResolverKey(item).Some? <==>
              && Lower(item.kty) == "okp" && Lower(item.crv) == "ed25519" && Trim(item.kid) != ""
              && Base64Url.Decode(Trim(item.x)).Some? && |Base64Url.Decode(Trim(item.x)).value| == 32
    ensures ResolverKey(item).Some? ==>
              ResolverKey(item).value == (Trim(item.kid), Ed25519(Base64Url.Decode(Trim(item.x)).value))
  {
    hide Base64Url.Decode, Trim;
    FoldIsLower(item.kty, "OKP");
    FoldIsLower(item.crv, "Ed25519");
    assert Lower("OKP") == "okp" && Lower("Ed25519") == "ed25519";
  }

  /** The verifier takes exactly the RSA keys with a modulus and an exponent, and the
      Ed25519 keys of 32 bytes, with the type and curve spelled exactly and a kid. */
  lemma VerifierTakes(item: Jwk)
    ensures VerifierKey(item).Some? <==>
              && item.kid != ""
              && ((item.kty == "RSA" && Base64Url.Decode(item.n).Some? && Base64Url.Decode(item.n).value != []
                                     && Base64Url.Decode(item.e).Some? && Base64Url.Decode(item.e).value != [])
                  || (item.kty == "OKP" && item.crv == "Ed25519"
                      && Base64Url.Decode(item.x).Some? && |Base64Url.Decode(item.x).value| == 32))
    ensures VerifierKey(item).Some? ==>
              && VerifierKey(item).value.0 == item.kid
              && VerifierKey(item).value.1
                 == if item.kty == "OKP" then Ed25519(Base64Url.Decode(item.x).value)
                    else Rsa(Base64Url.Decode(item.n).value, Wrap(BigEndian(Base64Url.Decode(item.e).value)))
  {
    hide Base64Url.Decode, BigEndian, Wrap;
    NotOkp();
  }

  datatype Answer = Found(key: Key) | Unauthorized | FetchFailed

  function KeyForAlgorithm(key: Key, algorithm: string): Answer {
    if "RS" <= algorithm || "PS" <= algorithm then
      if key.Rsa? then Found(key) else Unauthorized
    else if algorithm == "EdDSA" then
      if key.Ed25519? then Found(key) else Unauthorized
    else Unauthorized
  }

  /** The resolver has checked the algorithm already; the verifier matches it to the key. */
  function Select(policy: Policy, key: Key, algorithm: string): Answer {
    if policy.Resolver? then Found(key) else KeyForAlgorithm(key, algorithm)
  }

  /** RS and PS algorithms take RSA keys, EdDSA takes Ed25519 keys, and nothing else is
      accepted; the resolver has no say in it here, having admitted EdDSA alone. */
  lemma AlgorithmsAccept(key: Key, algorithm: string)
    ensures Select(Verifier, key, algorithm) == Found(key) <==>
              || (key.Rsa? && |algorithm| >= 2 && algorithm[0] in {'R', 'P'} && algorithm[1] == 'S')
              || (key.Ed25519? && algorithm == "EdDSA")
    ensures Select(Verifier, key, algorithm) in {Found(key), Unauthorized}
    ensures Select(Resolver, key, algorithm) == Found(key)
  {
    assert "EdDSA"[0] == 'E';
    assert |algorithm| >= 2 ==> algorithm[..2] == [algorithm[0], algorithm[1]];
  }

  datatype Cache = Cache(keys: map<string, Key>, fetchedAt: int)

  predicate Fresh(policy: Policy, ttl: nat, age: int) {
    if policy.Resolver? then age <= ttl else age < ttl
  }

  /** The read before a refresh. */
  function FirstRead(policy: Policy, ttl: nat, cache: Cache, kid: string, now: int): Option<Key> {
    if kid in cache.keys && Fresh(policy, ttl, now - cache.fetchedAt) then Some(cache.keys[kid]) else None
  }

  /** The read after a refresh: the verifier's does not look at the time. */
  function SecondRead(policy: Policy, ttl: nat, cache: Cache, kid: string, now: int): Option<Key> {
    if policy.Resolver? then FirstRead(policy, ttl, cache, kid, now)
    else if kid in cache.keys then Some(cache.keys[kid]) else None
  }

  function AnswerOf(policy: Policy, key: Option<Key>, algorithm: string): Answer {
    if key.Some? then Select(policy, key.value, algorithm) else Unauthorized
  }

  /** A set without usable keys is refused. */
  function Stored(policy: Policy, document: seq<Jwk>, now: int): Option<Cache> {
    if Keys(policy, document) == map[] then None else Some(Cache(Keys(policy, document), now))
  }

  /** The cache as the object the source has. */
  class JwksCache {
    const policy: Policy
    const ttl: nat
    var keys: map<string, Key>
    var fetchedAt: int

    ghost function View(): Cache
      reads this
    {
      Cache(keys, fetchedAt)
    }

    constructor (policy: Policy, ttl: nat, zeroTime: int)
      ensures this.policy == policy && this.ttl == ttl && View() == Cache(map[], zeroTime)
    {
      this.policy, this.ttl := policy, ttl;
      keys, fetchedAt := map[], zeroTime;
    }

    /** cachedKey, and the first read of the verifier's key. */
    method CachedKey(kid: string, now: int) returns (key: Option<Key>)
      ensures key.Some? <==> kid in keys && if policy.Resolver? then now - fetchedAt <= ttl else now - fetchedAt < ttl
      ensures key.Some? ==> key.value == keys[kid]
    {
      if !Fresh(policy, ttl, now - fetchedAt) {
        return None;
      }
      key := if kid in keys then Some(keys[kid]) else None;
    }

    /** refreshKeys and refresh, given what the fetch brought. */
    method Refresh(fetched: Option<seq<Jwk>>, now: int) returns (ok: bool)
      modifies this
      ensures ok <==> fetched.Some? && Keys(policy, fetched.value) != map[]
      ensures View() == if ok then Cache(Keys(policy, fetched.value), now) else old(View())
    {
      if fetched.None? {
        return false;
      }
      var parsed := ParseKeys(policy, fetched.value);
      if parsed == map[] {
        return false;
      }
      keys, fetchedAt := parsed, now;
      ok := true;
    }

    /** publicKeyFor and key, with no other call in between. */
    method PublicKeyFor(kid: string, algorithm: string, readAt: int, fetched: Option<seq<Jwk>>, storedAt: int, rereadAt: int)
      returns (answer: Answer, requests: seq<int>)
      modifies this
      ensures (View(), answer, requests)
              == Serve(policy, ttl, old(View()), Request(kid, algorithm, readAt, fetched, storedAt, rereadAt))
    {
      requests := [];
      if kid == "" {
        return Unauthorized, [];
      }
      var key := CachedKey(kid, readAt);
      if key.Some? {
        return Select(policy, key.value, algorithm), [];
      }
      var ok := Refresh(fetched, storedAt);
      requests := [storedAt];
      if !ok {
        return FetchFailed, requests;
      }
      if policy.Resolver? {
        key := CachedKey(kid, rereadAt);
      } else {
        key := if kid in keys then Some(keys[kid]) else None;
      }
      answer := if key.Some? then Select(policy, key.value, algorithm) else Unauthorized;
    }
  }

  /** One call, and the times at which it would read and store. */
  datatype Request = Request(kid: string, algorithm: string, readAt: int, fetched: Option<seq<Jwk>>, storedAt: int, rereadAt: int)

  /** The cache after a call, its answer, and the time of its fetch, if it made one. */
  function Serve(policy: Policy, ttl: nat, cache: Cache, request: Request): (Cache, Answer, seq<int>) {
    if request.kid == "" then (cache, Unauthorized, [])
    else
      var first := FirstRead(policy, ttl, cache, request.kid, request.readAt);
      if first.Some? then (cache, Select(policy, first.value, request.algorithm), [])
      else if request.fetched.None? then (cache, FetchFailed, [request.storedAt])
      else
        match Stored(policy, request.fetched.value, request.storedAt)
        case None => (cache, FetchFailed, [request.storedAt])
        case Some(cache') =>
          var second := SecondRead(policy, ttl, cache', request.kid, request.rereadAt);
          (cache', AnswerOf(policy, second, request.algorithm), [request.storedAt])
  }

  /** A call that finds its kid young enough makes no fetch; one that does not makes one,
      and if that brings usable keys it is answered from them, or refused for its kid (in
      the resolver also if they are too old by then). */
  lemma FetchAnswers(policy: Policy, ttl: nat, cache: Cache, request: Request)
    requires request.kid != ""
    ensures var (cache', answer, fetches) := Serve(policy, ttl, cache, request);
            var age, age' := request.readAt - cache.fetchedAt, request.rereadAt - request.storedAt;
            if request.kid in cache.keys && (age < ttl || (policy.Resolver? && age == ttl)) then
              cache' == cache && fetches == [] && answer == Select(policy, cache.keys[request.kid], request.algorithm)
            else
              && fetches == [request.storedAt]
              && (request.fetched.Some? && Keys(policy, request.fetched.value) != map[] ==>
                    var keys := Keys(policy, request.fetched.value);
                    && cache' == Cache(keys, request.storedAt)
                    && answer == if request.kid in keys && (policy.Verifier? || age' <= ttl) then
                                   Select(policy, keys[request.kid], request.algorithm)
                                 else Unauthorized)
  {
    hide Keys, Select;
  }

  /** A returned key is within its TTL when it is read: the resolver's always, the
      verifier's before a fetch, and after it exactly when it is read less than the TTL
      after it was stored. */
  lemma ReturnedFresh(policy: Policy, ttl: nat, cache: Cache, request: Request)
    requires Serve(policy, ttl, cache, request).1.Found?
    ensures var (cache', _, fetches) := Serve(policy, ttl, cache, request);
            var age := (if fetches == [] then request.readAt else request.rereadAt) - cache'.fetchedAt;
            && (policy.Resolver? ==> age <= ttl)
            && (policy.Verifier? ==> (age < ttl <==> fetches == [] || request.rereadAt - request.storedAt < ttl))
  {}
}
