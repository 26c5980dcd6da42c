/** Colouring of trace ids in console output, and the rewriter that undoes the
    JSON escaping of the colour codes. */
module TraceColor {
  import opened Sequences
  import opened Text
  import opened Modular

  const ESC: char := '\U{1b}'
  const ESCAPED := "\\u001b"
  const VALUE_PREFIX := "\"trace_id\": \""
  const FIELD_PREFIX := "\"trace_id\": \"\\u001b["
  const RESET := "\\u001b[0m"
  const OPENING := "\\u001b["
  const CLOSING: string := [ESC] + "[0m"

  /** What JSON encoding does to the escape character. */
  function Escape(s: string): string {
    if s == "" then "" else (if s[0] == ESC then ESCAPED else [s[0]]) + Escape(s[1..])
  }

  function Restore(span: string): string {
    ReplaceAll(span, ESCAPED, [ESC])
  }

  lemma Patterns()
    ensures |VALUE_PREFIX| == 13 && |FIELD_PREFIX| == 20 && |RESET| == 9
    ensures FIELD_PREFIX[..|VALUE_PREFIX|] == VALUE_PREFIX
  {}

  /** The next span to rewrite: from the start of a colour value to the end of its reset code. */
  function NextSpan(output: string): (span: Option<(nat, nat)>)
    ensures span.Some? ==> |VALUE_PREFIX| <= span.value.0 < span.value.1 <= |output|
    ensures span.Some? ==> output[span.value.0 - |VALUE_PREFIX|..span.value.0] == VALUE_PREFIX
  {
    var match_ := Index(output, FIELD_PREFIX);
    if match_ < 0 then None
    else
      var start := match_ + |VALUE_PREFIX|;
      assert FIELD_PREFIX[..|VALUE_PREFIX|] == VALUE_PREFIX;
      assert output[match_..match_ + |FIELD_PREFIX|][..|VALUE_PREFIX|] == output[match_..start];
      var reset := Index(output[start..], RESET);
      if reset < 0 then None else Some((start, start + reset + |RESET|))
  }

  function Unescape(output: string): string {
    match NextSpan(output)
    case None => output
    case Some((start, end)) => output[..start] + Restore(output[start..end]) + Unescape(output[end..])
  }

  lemma {:induction false} SpanFound(output: string, start: nat, reset: nat)
    requires |VALUE_PREFIX| <= start <= |output|
    requires Index(output, FIELD_PREFIX) == start - |VALUE_PREFIX| && Index(output[start..], RESET) == reset
    ensures NextSpan(output) == Some((start, start + reset + |RESET|))
  {
    hide Index, VALUE_PREFIX, FIELD_PREFIX, RESET;
  }

  /** The next span of the rest of the output, found by absolute positions. */
  lemma NextSpanAt(output: string, position: nat, valueStart: nat, resetMatch: nat)
    requires position <= valueStart - |VALUE_PREFIX| && valueStart <= |output|
    requires Index(output[position..], FIELD_PREFIX) == valueStart - |VALUE_PREFIX| - position
    requires Index(output[valueStart..], RESET) == resetMatch
    ensures NextSpan(output[position..]) == Some((valueStart - position, valueStart + resetMatch + |RESET| - position))
  {
    hide Index, NextSpan;
    assert output[position..][valueStart - position..] == output[valueStart..];
    SpanFound(output[position..], valueStart - position, resetMatch);
  }

  lemma NoSpanAt(output: string, position: nat, valueStart: nat)
    requires position <= valueStart - |VALUE_PREFIX| && valueStart <= |output|
    requires Index(output[position..], FIELD_PREFIX) == valueStart - |VALUE_PREFIX| - position
    requires Index(output[valueStart..], RESET) < 0
    ensures NextSpan(output[position..]) == None
  {
    assert output[position..][valueStart - position..] == output[valueStart..];
  }

  lemma UnescapeFrom(output: string, position: nat, start: nat, end: nat)
    requires position <= start < end <= |output|
    requires NextSpan(output[position..]) == Some((start - position, end - position))
    ensures Unescape(output[position..])
            == output[position..start] + Restore(output[start..end]) + Unescape(output[end..])
  {
    hide NextSpan, Restore;
    var rest := output[position..];
    assert rest[..start - position] == output[position..start];
    assert rest[start - position..end - position] == output[start..end];
    assert rest[end - position..] == output[end..];
  }

  lemma Regroup(result: string, a: string, b: string, c: string)
    ensures result + (a + b + c) == result + a + b + c
  {}

  /** The scanner. */
  method UnescapeTraceIDColor(output: string) returns (result: string)
    ensures result == Unescape(output)
  {
    hide Unescape, Restore, VALUE_PREFIX, FIELD_PREFIX, RESET, Index;
    Patterns();
    result := "";
    var position := 0;
    while true
      invariant 0 <= position <= |output|
      invariant result + Unescape(output[position..]) == Unescape(output)
      decreases |output| - position
    {
      var found := Index(output[position..], FIELD_PREFIX);
      if found < 0 {
        UnescapeNone(output[position..]);
        result := result + output[position..];
        return;
      }
      var start := position + found;
      var valueStart := start + |VALUE_PREFIX|;
      var resetMatch := Index(output[valueStart..], RESET);
      if resetMatch < 0 {
        NoSpanAt(output, position, valueStart);
        UnescapeNone(output[position..]);
        result := result + output[position..];
        return;
      }
      var valueEnd := valueStart + resetMatch + |RESET|;
      NextSpanAt(output, position, valueStart, resetMatch);
      UnescapeFrom(output, position, valueStart, valueEnd);
      var restored := ReplaceAll(output[valueStart..valueEnd], ESCAPED, [ESC]);
      assert restored == Restore(output[valueStart..valueEnd]) by {
        RestoreIs(output[valueStart..valueEnd]);
      }
      Regroup(result, output[position..valueStart], restored, Unescape(output[valueEnd..]));
      result := result + output[position..valueStart];
      result := result + restored;
      position := valueEnd;
    }
  }

  lemma RestoreIs(span: string)
    ensures ReplaceAll(span, ESCAPED, [ESC]) == Restore(span)
  {}

  lemma UnescapeNone(output: string)
    requires NextSpan(output) == None
    ensures Unescape(output) == output
  {}

  // The rewriter is undone by escaping.

  lemma {:induction false} EscapeConcat(a: string, b: string)
    ensures Escape(a + b) == Escape(a) + Escape(b)
    decreases |a|
  {
    if a == "" {
      assert a + b == b;
    } else {
      assert (a + b)[1..] == a[1..] + b;
      EscapeConcat(a[1..], b);
    }
  }

  lemma {:induction false} EscapePlain(s: string)
    requires ESC !in s
    ensures Escape(s) == s
    decreases |s|
  {
    if s != "" {
      EscapePlain(s[1..]);
    }
  }

  lemma {:induction false} EscapeLeavesNone(s: string)
    ensures ESC !in Escape(s)
    decreases |s|
  {
    if s != "" {
      EscapeLeavesNone(s[1..]);
    }
  }

  lemma EscapeOne()
    ensures Escape([ESC]) == ESCAPED
  {
    assert [ESC][1..] == "";
  }

  lemma {:induction false} EscapeRestored(span: string)
    ensures Escape(Restore(span)) == Escape(span)
    decreases |span|
  {
    hide Escape;
    if span != "" {
      if ESCAPED <= span {
        var rest := span[|ESCAPED|..];
        EscapeRestored(rest);
        EscapeOne();
        EscapePlain(ESCAPED);
        EscapeConcat([ESC], Restore(rest));
        EscapeConcat(ESCAPED, rest);
        assert span == ESCAPED + rest;
      } else {
        EscapeRestored(span[1..]);
        EscapeConcat([span[0]], Restore(span[1..]));
        EscapeConcat([span[0]], span[1..]);
        assert span == [span[0]] + span[1..];
      }
    }
  }

  lemma {:induction false} EscapeUnescaped(output: string)
    ensures Escape(Unescape(output)) == Escape(output)
    decreases |output|
  {
    hide Escape, Restore, NextSpan;
    match NextSpan(output)
    case None =>
    case Some((start, end)) =>
      var before, span, rest := output[..start], output[start..end], output[end..];
      EscapeRestored(span);
      EscapeUnescaped(rest);
      EscapeConcat(before + Restore(span), Unescape(rest));
      EscapeConcat(before, Restore(span));
      EscapeConcat(before + span, rest);
      EscapeConcat(before, span);
      assert output == before + span + rest;
  }

  /** Rewriting changes nothing that escaping does not undo, so escaping the result
      gives the output back exactly when it had no raw escape character. */
  lemma RoundTrip(output: string)
    ensures Escape(Unescape(output)) == Escape(output)
    ensures Escape(Unescape(output)) == output <==> ESC !in output
  {
    EscapeUnescaped(output);
    EscapeLeavesNone(output);
    if ESC !in output {
      EscapePlain(output);
    }
  }

  // Colours.

  const COLORS: seq<nat> := [31, 32, 33, 34, 35, 36]
  const WORD := 0x1_0000_0000

  /** The id read as a polynomial in 31, without wrap-around. */
  function Polynomial(id: string): nat {
    if id == "" then 0 else Polynomial(Front(id)) * 31 + Last(id) as nat
  }

  function Color(id: string): (code: nat)
    ensures 31 <= code <= 36
  {
    COLORS[Polynomial(id) % WORD % 6]
  }

  function Colorize(id: string): string {
    [ESC] + "[" + Decimal(Color(id)) + "m" + id + CLOSING
  }

  function Power31(n: nat): nat {
    if n == 0 then 1 else 31 * Power31(n - 1)
  }

  lemma {:induction false} PolynomialConcat(a: string, b: string)
    ensures Polynomial(a + b) == Polynomial(a) * Power31(|b|) + Polynomial(b)
    decreases |b|
  {
    if b == "" {
      assert a + b == a;
    } else {
      assert Front(a + b) == a + Front(b);
      PolynomialConcat(a, Front(b));
      Times31(Polynomial(a), Power31(|b| - 1), Polynomial(Front(b)));
    }
  }

  lemma Times31(p: nat, q: nat, r: nat)
    ensures (p * q + r) * 31 == p * (31 * q) + r * 31
  {}

  /** The first colour is red, and the others follow in the order of their codes; each
      character weighs 31 times as much as the next. */
  lemma ColorSpec(id: string, symbol: char, rest: string)
    ensures Color(id) == 31 + Polynomial(id) % 0x1_0000_0000 % 6
    ensures Polynomial([symbol] + rest) == symbol as nat * Power31(|rest|) + Polynomial(rest)
    ensures Polynomial("") == 0
  {
    PolynomialConcat([symbol], rest);
    assert Front([symbol]) == "";
    assert Polynomial([symbol]) == symbol as nat;
  }

  lemma WrapStep(hash: nat, polynomial: nat, symbol: nat)
    requires hash == polynomial % WORD
    ensures (hash * 31 % WORD + symbol % WORD) % WORD == (polynomial * 31 + symbol) % WORD
  {
    var q := polynomial / WORD;
    assert polynomial * 31 + symbol == hash * 31 + symbol + WORD * (q * 31);
    var a, b := hash * 31 / WORD, symbol / WORD;
    assert hash * 31 + symbol == (hash * 31 % WORD + symbol % WORD) + WORD * (a + b);
    ModPlus(hash * 31 + symbol, WORD, q * 31);
    ModPlus(hash * 31 % WORD + symbol % WORD, WORD, a + b);
  }

  /** The loop over a 32-bit hash that wraps around picks the polynomial's colour. */
  method ColorizeTraceID(traceID: string) returns (colored: string)
    ensures colored == Colorize(traceID)
  {
    var hash: nat := 0;
    for i := 0 to |traceID|
      invariant hash == Polynomial(traceID[..i]) % WORD
    {
      assert Front(traceID[..i + 1]) == traceID[..i];
      WrapStep(hash, Polynomial(traceID[..i]), traceID[i] as nat);
      hash := (hash * 31 % WORD + traceID[i] as nat % WORD) % WORD;
    }
    assert traceID[..|traceID|] == traceID;
    var code := COLORS[hash % |COLORS|];
    colored := [ESC] + "[" + Decimal(code) + "m" + traceID + ([ESC] + "[0m");
  }
}
