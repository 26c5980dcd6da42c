/** The client-credentials token cache (the grant of section 4.4 of RFC 6749).

    Calls are serialised by a mutex, so a run is a list of calls. Times and
    lifetimes are in nanoseconds of a monotone clock. */
module TokenCache {
  import opened Sequences
  import opened Text
  import opened Int64
  import opened Spacing

  const SECOND := 1_000_000_000
  const WINDOW := 30 * SECOND
  const DEFAULT_LIFETIME := 300 * SECOND

  // The lifetime in a token response.

  /** The `expires_in` member, decoded; a number is taken as a real, without rounding. */
  datatype ExpiresIn = Absent | Number(value: real) | Quoted(text: string) | Other

  function DigitValue(c: char): nat
    requires '0' <= c <= '9'
  {
    c as nat - '0' as nat
  }

  predicate Digits(s: string) {
    s != "" && forall i :: 0 <= i < |s| ==> '0' <= s[i] <= '9'
  }

  function DigitsValue(s: string): nat
    requires forall i :: 0 <= i < |s| ==> '0' <= s[i] <= '9'
  {
    if s == "" then 0 else DigitsValue(Front(s)) * 10 + DigitValue(Last(s))
  }

  /** strconv.Atoi */
  function Atoi(text: string): Option<int> {
    var signed := text != "" && (text[0] == '-' || text[0] == '+');
    var digits := if signed then text[1..] else text;
    if !Digits(digits) then None
    else
      var magnitude: int := DigitsValue(digits);
      var value := if signed && text[0] == '-' then -magnitude else magnitude;
      if -HALF <= value < HALF then Some(value) else None
  }

  /** `outOfRange` is what the platform makes of a number beyond the 64-bit range. */
  function ParseExpiresIn(raw: ExpiresIn, outOfRange: int): int {
    match raw
    case Number(value) =>
      if value > 0.0 then
        var nanoseconds := (value * 1_000_000_000.0).Floor;
        if nanoseconds < HALF then nanoseconds else outOfRange
      else DEFAULT_LIFETIME
    case Quoted(text) =>
      (match Atoi(text)
       case Some(seconds) => if seconds > 0 then Wrap(seconds * SECOND) else DEFAULT_LIFETIME
       case None => DEFAULT_LIFETIME)
    case _ => DEFAULT_LIFETIME
  }

  /** Five minutes, unless the value is a positive number or quotes a positive one. */
  lemma DefaultLifetime(raw: ExpiresIn, outOfRange: int)
    requires raw.Number? ==> raw.value <= 0.0
    requires raw.Quoted? ==> Atoi(raw.text).None? || Atoi(raw.text).value <= 0
    ensures ParseExpiresIn(raw, outOfRange) == 300 * 1_000_000_000
  {}

  // Reading a decimal number.

  lemma {:induction false} DecimalValue(n: nat)
    ensures Digits(Decimal(n)) && DigitsValue(Decimal(n)) == n
    decreases n
  {
    if n < 10 {
      assert Front(Decimal(n)) == "";
    } else {
      DecimalValue(n / 10);
      assert Front(Decimal(n)) == Decimal(n / 10);
    }
  }

  /** A decimal number reads back. */
  lemma AtoiDecimal(n: nat)
    ensures Atoi(Decimal(n)) == if n < HALF then Some(n) else None
  {
    hide Decimal, DigitsValue;
    DecimalValue(n);
    AtoiSpec(Decimal(n));
  }

  /** Digits are read as a decimal number, with or without a sign before them, if that
      fits into 64 bits; any other text is refused. */
  lemma AtoiSpec(text: string)
    ensures Digits(text) ==> Atoi(text) == if DigitsValue(text) < HALF then Some(DigitsValue(text)) else None
    ensures Digits(text) ==> Atoi("+" + text) == Atoi(text)
    ensures Digits(text) ==> Atoi("-" + text) == if DigitsValue(text) <= HALF then Some(0 - DigitsValue(text) as int) else None
    ensures Atoi(text).Some? ==> Digits(text) || (text != "" && text[0] in {'+', '-'} && Digits(text[1..]))
  {
    hide DigitsValue;
    assert ("+" + text)[1..] == text && ("-" + text)[1..] == text;
  }

  const MAX_SECONDS := 9_223_372_036

  /** A quoted number of seconds is the lifetime exactly up to the largest count of
      seconds that fits; beyond it the product wraps around. */
  lemma QuotedLifetime(text: string, outOfRange: int)
    requires Atoi(text).Some? && Atoi(text).value > 0
    ensures ParseExpiresIn(Quoted(text), outOfRange) == Atoi(text).value * SECOND <==> Atoi(text).value <= MAX_SECONDS
  {}

  lemma {:induction false} DigitsAppend(digits: string, last: char, all: string)
    requires Digits(digits) && '0' <= last <= '9' && all == digits + [last]
    ensures Digits(all) && DigitsValue(all) == DigitsValue(digits) * 10 + DigitValue(last)
  {
    assert Front(all) == digits;
  }

  const BEYOND := "9223372037"

  lemma OneDigit()
    ensures Digits("9") && DigitsValue("9") == 9
  {
    assert Front("9") == "";
  }

  lemma BeyondValue()
    ensures Digits(BEYOND) && DigitsValue(BEYOND) == MAX_SECONDS + 1
  {
    hide Digits, DigitsValue;
    OneDigit();
    DigitsAppend("9", '2', "92");
    DigitsAppend("92", '2', "922");
    DigitsAppend("922", '3', "9223");
    DigitsAppend("9223", '3', "92233");
    DigitsAppend("92233", '7', "922337");
    DigitsAppend("922337", '2', "9223372");
    DigitsAppend("9223372", '0', "92233720");
    DigitsAppend("92233720", '3', "922337203");
    DigitsAppend("922337203", '7', "9223372037");
  }

  /** The first value beyond gives a negative lifetime: the token is never served from the cache. */
  lemma WrappedLifetime(outOfRange: int)
    ensures ParseExpiresIn(Quoted(BEYOND), outOfRange) < 0
  {
    hide Digits, DigitsValue;
    BeyondValue();
    assert BEYOND[0] == '9';
  }

  /** A number of seconds is rounded down to nanoseconds while it is in range, so a
      positive one can become a lifetime of zero. */
  lemma NumberLifetime(value: real, outOfRange: int)
    requires 0.0 < value && (value * 1_000_000_000.0).Floor < HALF
    ensures var lifetime := ParseExpiresIn(Number(value), outOfRange);
            && lifetime as real <= value * 1_000_000_000.0 < lifetime as real + 1.0
            && (lifetime == 0 <==> value * 1_000_000_000.0 < 1.0)
  {}

  // The cache.

  datatype Response = Failure | Success(accessToken: string, expiresIn: ExpiresIn, outOfRange: int)

  datatype Cache = Cache(token: string, expiry: int)

  /** One call: when it looks at the cache, what a request would bring, and when that would be stored. */
  datatype Call = Call(readAt: int, response: Response, storedAt: int)

  datatype Answer = Token(token: string) | Failed

  predicate Usable(cache: Cache, now: int) {
    cache.token != "" && cache.expiry - now > WINDOW
  }

  /** A response without a token counts as a failure. */
  function Granted(response: Response): Option<(string, int)> {
    if response.Failure? || Trim(response.accessToken) == "" then None
    else Some((Trim(response.accessToken), ParseExpiresIn(response.expiresIn, response.outOfRange)))
  }

  /** The cache after a call, its answer, and the time of its request, if it made one. */
  function Serve(cache: Cache, call: Call): (Cache, Answer, seq<int>) {
    if Usable(cache, call.readAt) then (cache, Token(cache.token), [])
    else
      match Granted(call.response)
      case None => (cache, Failed, [call.storedAt])
      case Some((token, lifetime)) => (Cache(token, call.storedAt + lifetime), Token(token), [call.storedAt])
  }

  class ClientCredentialsProvider {
    var token: string
    var expiry: int

    ghost function View(): Cache
      reads this
    {
      Cache(token, expiry)
    }

    constructor ()
      ensures View() == Cache("", 0)
    {
      token, expiry := "", 0;
    }

    method GetToken(call: Call) returns (answer: Answer, requests: seq<int>)
      modifies this
      ensures (View(), answer, requests) == Serve(old(View()), call)
    {
      if token != "" && expiry - call.readAt > WINDOW {
        return Token(token), [];
      }
      requests := [call.storedAt];
      if call.response.Failure? {
        return Failed, requests;
      }
      var accessToken := Trim(call.response.accessToken);
      if accessToken == "" {
        return Failed, requests;
      }
      var expiresIn := ParseExpiresIn(call.response.expiresIn, call.response.outOfRange);
      token := accessToken;
      expiry := call.storedAt + expiresIn;
      answer := Token(token);
    }
  }

  // Runs.

  /** The cache after the calls, their answers, and the times of the requests. */
  function ServeAll(cache: Cache, calls: seq<Call>): (Cache, seq<Answer>, seq<int>) {
    if calls == [] then (cache, [], [])
    else
      var (before, answers, requests) := ServeAll(cache, Front(calls));
      var (after, answer, request) := Serve(before, Last(calls));
      (after, answers + [answer], requests + request)
  }

  /** The mutex: one call ends before the next begins. */
  predicate Timely(calls: seq<Call>) {
    && (forall i :: 0 <= i < |calls| ==> calls[i].readAt <= calls[i].storedAt)
    && (forall i :: 0 < i < |calls| ==> calls[i - 1].storedAt <= calls[i].readAt)
  }

  /** The cache call `i` of a run finds. */
  function Before(cache: Cache, calls: seq<Call>, i: nat): Cache
    requires i < |calls|
  {
    ServeAll(cache, calls[..i]).0
  }

  /** Every request that is made brings a token that lives for at least `lifetime`. */
  ghost predicate AllGranted(cache: Cache, calls: seq<Call>, lifetime: int) {
    forall i :: 0 <= i < |calls| ==>
      Usable(Before(cache, calls, i), calls[i].readAt) || GrantedFor(calls[i].response, lifetime)
  }

  predicate GrantedFor(response: Response, lifetime: int) {
    Granted(response).Some? && Granted(response).value.1 >= lifetime
  }

  lemma GrantedEarlier(cache: Cache, calls: seq<Call>, lifetime: int)
    requires calls != [] && AllGranted(cache, calls, lifetime)
    ensures AllGranted(cache, Front(calls), lifetime)
    ensures Usable(ServeAll(cache, Front(calls)).0, Last(calls).readAt) || GrantedFor(Last(calls).response, lifetime)
  {
    forall i | 0 <= i < |Front(calls)| ensures Before(cache, Front(calls), i) == Before(cache, calls, i) {
      assert Front(calls)[..i] == calls[..i];
    }
    assert Before(cache, calls, |calls| - 1) == ServeAll(cache, Front(calls)).0;
  }

  ghost predicate Paced(cache: Cache, requests: seq<int>, lifetime: int, now: int) {
    && Spaced(requests, lifetime - WINDOW)
    && (requests == [] ==> cache.token == "")
    && (requests != [] ==> cache.token != "" && cache.expiry >= Last(requests) + lifetime && Last(requests) <= now)
  }

  lemma PacedStep(cache: Cache, requests: seq<int>, lifetime: int, now: int, call: Call)
    requires Paced(cache, requests, lifetime, now)
    requires now <= call.readAt <= call.storedAt
    requires Usable(cache, call.readAt) || GrantedFor(call.response, lifetime)
    ensures var (cache', _, request) := Serve(cache, call);
            Paced(cache', requests + request, lifetime, call.storedAt) && requests + request != []
  {}

  lemma {:induction false} ServeAllPaced(expiry: int, calls: seq<Call>, lifetime: int)
    requires Timely(calls) && AllGranted(Cache("", expiry), calls, lifetime) && calls != []
    ensures var (cache, _, requests) := ServeAll(Cache("", expiry), calls);
            Paced(cache, requests, lifetime, Last(calls).storedAt) && requests != []
    decreases |calls|
  {
    var earlier, call := Front(calls), Last(calls);
    GrantedEarlier(Cache("", expiry), calls, lifetime);
    if earlier == [] {
      PacedStep(Cache("", expiry), [], lifetime, call.readAt, call);
    } else {
      ServeAllPaced(expiry, earlier, lifetime);
      assert Last(earlier) == calls[|calls| - 2];
      var (cache, _, requests) := ServeAll(Cache("", expiry), earlier);
      PacedStep(cache, requests, lifetime, Last(earlier).storedAt, call);
    }
  }

  /** n requests whose tokens live for at least `lifetime` take at least
      (n-1) * (lifetime - 30 s). */
  lemma {:induction false} RequestRate(expiry: int, calls: seq<Call>, lifetime: int)
    requires Timely(calls) && AllGranted(Cache("", expiry), calls, lifetime) && calls != []
    ensures var requests := ServeAll(Cache("", expiry), calls).2;
            requests != [] && (|requests| - 1) * (lifetime - WINDOW) <= Last(requests) - requests[0]
  {
    ServeAllPaced(expiry, calls, lifetime);
    SpacedLasts(ServeAll(Cache("", expiry), calls).2, lifetime - WINDOW);
  }

  /** Two calls at the right distance request twice, so the rate is reached. */
  lemma RateReached(response: Response, lifetime: int)
    requires Granted(response).Some? && Granted(response).value.1 == lifetime > WINDOW
    ensures var later := lifetime - WINDOW;
            ServeAll(Cache("", 0), [Call(0, response, 0), Call(later, response, later)]).2 == [0, later]
  {
    var later := lifetime - WINDOW;
    var first, second := Call(0, response, 0), Call(later, response, later);
    var token := Granted(response).value.0;
    var none: (seq<Answer>, seq<int>) := ([], []);
    assert Front([first, second]) == [first] && Front([first]) == [];
    assert none.0 + [Token(token)] == [Token(token)] && none.1 + [0] == [0];
    assert ServeAll(Cache("", 0), [first]) == (Cache(token, lifetime), [Token(token)], [0]);
    assert Serve(Cache(token, lifetime), second).2 == [later];
    assert [0] + [later] == [0, later];
  }

  // Where a cached token comes from.

  /** Call `i` of the run made the request that brought the cache's token. */
  ghost predicate Brought(cache: Cache, calls: seq<Call>, i: int, now: Cache) {
    && 0 <= i < |calls|
    && !Usable(Before(cache, calls, i), calls[i].readAt)
    && Granted(calls[i].response) == Some((now.token, now.expiry - calls[i].storedAt))
  }

  lemma {:induction false} TokenOrigin(cache: Cache, calls: seq<Call>)
    requires cache.token == ""
    ensures var now := ServeAll(cache, calls).0;
            now.token != "" ==> exists i :: Brought(cache, calls, i, now)
    decreases |calls|
  {
    hide Granted, Usable;
    if calls != [] {
      var earlier, n := Front(calls), |calls| - 1;
      TokenOrigin(cache, earlier);
      var before, now := ServeAll(cache, earlier).0, ServeAll(cache, calls).0;
      assert Before(cache, calls, n) == before;
      if now == before && now.token != "" {
        var i :| Brought(cache, earlier, i, before);
        assert earlier[..i] == calls[..i];
        assert Brought(cache, calls, i, now);
      } else if now.token != "" {
        assert Brought(cache, calls, n, now);
      }
    }
  }

  /** A call that makes no request is served a token that an earlier request of the
      run brought and that has more than 30 seconds of its lifetime left. */
  lemma CachedToken(cache: Cache, calls: seq<Call>, call: Call)
    requires cache.token == "" && Serve(ServeAll(cache, calls).0, call).2 == []
    ensures var before := ServeAll(cache, calls).0;
            && Serve(before, call) == (before, Token(before.token), [])
            && exists i :: Brought(cache, calls, i, before)
                           && calls[i].storedAt + Granted(calls[i].response).value.1 > call.readAt + WINDOW
  {
    TokenOrigin(cache, calls);
    var before := ServeAll(cache, calls).0;
    var i :| Brought(cache, calls, i, before);
    assert calls[i].storedAt + Granted(calls[i].response).value.1 == before.expiry;
  }

  /** A request that fails changes neither token nor expiry, nor does any number of them in a row. */
  lemma {:induction false} FailuresKeep(cache: Cache, calls: seq<Call>)
    requires forall i :: 0 <= i < |calls| ==> Granted(calls[i].response).None?
    ensures ServeAll(cache, calls).0 == cache
    decreases |calls|
  {
    if calls != [] {
      FailuresKeep(cache, Front(calls));
    }
  }

  // What each call of a run answers.

  lemma {:induction false} Lengths(cache: Cache, calls: seq<Call>)
    ensures |ServeAll(cache, calls).1| == |calls|
    decreases |calls|
  {
    if calls != [] {
      Lengths(cache, Front(calls));
    }
  }

  /** The run up to call `i` is a beginning of the whole run. */
  lemma {:induction false} AnswersStay(cache: Cache, calls: seq<Call>, i: nat)
    requires i <= |calls|
    ensures ServeAll(cache, calls[..i]).1 <= ServeAll(cache, calls).1
    decreases |calls|
  {
    if i == |calls| {
      assert calls[..i] == calls;
    } else {
      AnswersStay(cache, Front(calls), i);
      assert Front(calls)[..i] == calls[..i];
    }
  }

  /** Call `i` requests unless the token it finds has more than 30 s left. A request that
      brings a token is answered with it, trimmed, and stores it with its own expiry; one
      that does not fails and stores nothing; a call without a request gets the stored token. */
  lemma AnswersOfRun(cache: Cache, calls: seq<Call>, i: nat)
    requires i < |calls|
    ensures |ServeAll(cache, calls).1| == |calls|
    ensures var (before, answers, requests) := ServeAll(cache, calls[..i]);
            var (after, answers', requests') := ServeAll(cache, calls[..i + 1]);
            var call := calls[i];
            var left := before.expiry - call.readAt;
            && answers' == answers + [ServeAll(cache, calls).1[i]]
            && requests' == requests + (if before.token != "" && left > 30 * 1_000_000_000 then [] else [call.storedAt])
            && (if requests' == requests then
                  after == before && answers' == answers + [Token(before.token)]
                else if call.response.Success? && Trim(call.response.accessToken) != "" then
                  && answers' == answers + [Token(Trim(call.response.accessToken))]
                  && after.token == Trim(call.response.accessToken)
                  && after.expiry == call.storedAt + ParseExpiresIn(call.response.expiresIn, call.response.outOfRange)
                else after == before && answers' == answers + [Failed])
  {
    hide Trim, ParseExpiresIn;
    Lengths(cache, calls[..i]);
    Lengths(cache, calls);
    AnswersStay(cache, calls, i + 1);
    assert Front(calls[..i + 1]) == calls[..i];
  }
}
