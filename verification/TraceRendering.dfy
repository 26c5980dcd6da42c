/** A coloured id on its way through JSON encoding and the scanner. */
module TraceRendering {
  import opened Sequences
  import opened Text
  import opened TraceColor
  import opened TraceSpans

  // JSON encoding of a string.

  predicate Plain(c: char) {
    c >= ' ' && c != '\"' && c != '\\'
  }

  function Hex(n: nat): char
    requires n < 16
  {
    if n < 10 then '0' + n as char else 'a' + (n - 10) as char
  }

  /** Quotes, backslashes and control characters are escaped. */
  function JsonChar(c: char): string {
    if Plain(c) then [c]
    else if c == '\n' then "\\n"
    else if c == '\r' then "\\r"
    else if c == '\t' then "\\t"
    else if c < ' ' then "\\u00" + [Hex(c as nat / 16), Hex(c as nat % 16)]
    else ['\\', c]
  }

  function Json(s: string): string {
    if s == "" then "" else JsonChar(s[0]) + Json(s[1..])
  }

  /** JSON encoding changes nothing but escape characters. */
  predicate Encodable(s: string) {
    forall i :: 0 <= i < |s| ==> Plain(s[i]) || s[i] == ESC
  }

  lemma JsonOfChar(c: char)
    ensures ESC !in JsonChar(c) && JsonChar(c) != ""
    ensures JsonChar(ESC) == ESCAPED
    ensures c != ESC && !Plain(c) ==> |JsonChar(c)| > 1
  {}

  lemma {:induction false} JsonConcat(a: string, b: string)
    ensures Json(a + b) == Json(a) + Json(b)
    decreases |a|
  {
    hide JsonChar;
    if a == "" {
      assert a + b == b;
    } else {
      assert (a + b)[1..] == a[1..] + b;
      JsonConcat(a[1..], b);
    }
  }

  lemma {:induction false} JsonLeavesNone(s: string)
    ensures ESC !in Json(s)
    decreases |s|
  {
    hide JsonChar;
    if s != "" {
      JsonOfChar(s[0]);
      JsonLeavesNone(s[1..]);
    }
  }

  lemma {:induction false} JsonEncodable(s: string)
    requires Encodable(s)
    ensures Json(s) == Escape(s) && '\\' !in s && '\"' !in s
    decreases |s|
  {
    if s != "" {
      JsonOfChar(s[0]);
      assert s == [s[0]] + s[1..];
      JsonEncodable(s[1..]);
    }
  }

  lemma {:induction false} JsonLonger(s: string)
    ensures |Json(s)| >= |Escape(s)| && (!Encodable(s) ==> |Json(s)| > |Escape(s)|)
    decreases |s|
  {
    hide JsonChar;
    if s != "" {
      JsonOfChar(s[0]);
      JsonLonger(s[1..]);
      if Encodable(s[1..]) && (Plain(s[0]) || s[0] == ESC) {
        assert forall i :: 0 < i < |s| ==> s[i] == s[1..][i - 1];
      }
    }
  }

  /** An encoded string does not end before its closing quote. */
  lemma {:induction false} JsonOpen(s: string, rest: string)
    ensures Closes(Json(s) + rest, false) <==> Closes(rest, false)
    decreases |s|
  {
    hide JsonChar;
    if s == "" {
      assert Json(s) + rest == rest;
    } else {
      JsonOpen(s[1..], rest);
      OpenChar(s[0], Json(s[1..]) + rest);
      assert Json(s) + rest == JsonChar(s[0]) + (Json(s[1..]) + rest);
    }
  }

  lemma OpenChar(c: char, rest: string)
    ensures Closes(JsonChar(c) + rest, false) <==> Closes(rest, false)
  {
    var text := JsonChar(c);
    if Plain(c) {
      assert (text + rest)[1..] == rest;
    } else {
      assert text[0] == '\\' && (text + rest)[1..] == text[1..] + rest && (text[1..] + rest)[1..] == text[2..] + rest;
      ClosesPlain(text[2..], rest);
    }
  }

  // Where the first reset lies.

  ghost predicate NoReset(s: string) {
    forall i :: !OccursAt(s, CLOSING, i)
  }

  /** Plain text that an escaped text begins with is at the beginning of the text. */
  lemma {:induction false} PlainPrefix(p: string, t: string, rest: string)
    requires '\\' !in p
    ensures p <= Escape(t) + RESET + rest ==> p <= t
    decreases |p|
  {
    var whole := Escape(t) + RESET + rest;
    if p != "" && p <= whole {
      assert p[0] == whole[0] != '\\';
      if t != "" {
        assert whole[1..] == Escape(t[1..]) + RESET + rest;
        PlainPrefix(p[1..], t[1..], rest);
      }
    }
  }

  lemma {:induction false} NoResetAt(t: string, rest: string, j: nat)
    requires '\\' !in t && j < |Escape(t)| && NoReset(t)
    ensures !OccursAt(Escape(t) + RESET + rest, RESET, j)
    decreases |t|
  {
    hide OccursAt;
    var whole, first, after := Escape(t) + RESET + rest, if t[0] == ESC then ESCAPED else [t[0]], Escape(t[1..]) + RESET + rest;
    assert whole == first + after;
    forall i ensures !OccursAt(t[1..], CLOSING, i) {
      OccursBehind([t[0]], t[1..], CLOSING, i);
      assert [t[0]] + t[1..] == t;
    }
    if j >= |first| {
      NoResetAt(t[1..], rest, j - |first|);
      OccursBehind(first, after, RESET, j - |first|);
    } else if j > 0 || t[0] != ESC {
      assert whole[j] == first[j] != '\\';
      NotFirst(whole, RESET, j);
    } else {
      NotAtStart(t, rest);
    }
  }

  lemma OccursBehind(a: string, s: string, pattern: string, j: int)
    ensures OccursAt(s, pattern, j) ==> OccursAt(a + s, pattern, |a| + j)
    ensures j >= 0 && OccursAt(a + s, pattern, |a| + j) ==> OccursAt(s, pattern, j)
  {
    if 0 <= j <= |s| - |pattern| {
      assert (a + s)[|a| + j..|a| + j + |pattern|] == s[j..j + |pattern|];
    }
  }

  lemma OccursBefore(s: string, b: string, pattern: string, j: int)
    ensures OccursAt(s, pattern, j) ==> OccursAt(s + b, pattern, j)
  {
    if 0 <= j <= |s| - |pattern| {
      assert (s + b)[j..j + |pattern|] == s[j..j + |pattern|];
    }
  }

  lemma NotFirst(s: string, pattern: string, j: nat)
    requires j < |s| && pattern != "" && s[j] != pattern[0]
    ensures !OccursAt(s, pattern, j)
  {
    if j <= |s| - |pattern| {
      assert s[j..j + |pattern|][0] == s[j];
    }
  }

  lemma NotAtStart(t: string, rest: string)
    requires t != "" && t[0] == ESC && !OccursAt(t, CLOSING, 0)
    ensures !OccursAt(Escape(t) + RESET + rest, RESET, 0)
  {
    var whole, after := Escape(t) + RESET + rest, Escape(t[1..]) + RESET + rest;
    assert whole == ESCAPED + after && RESET == ESCAPED + "[0m";
    PrefixBehind(ESCAPED, "[0m", after);
    PlainPrefix("[0m", t[1..], rest);
    ClosingFirst(t);
  }

  lemma ClosingFirst(t: string)
    requires t != "" && t[0] == ESC
    ensures "[0m" <= t[1..] ==> OccursAt(t, CLOSING, 0)
  {
    assert t == [ESC] + t[1..];
  }

  lemma FirstReset(t: string, rest: string)
    requires '\\' !in t && NoReset(t)
    ensures Index(Escape(t) + RESET + rest, RESET) == |Escape(t)|
  {
    hide Escape, RESET;
    var whole := Escape(t) + RESET + rest;
    Slices(Escape(t), RESET, rest);
    forall j | 0 <= j < |Escape(t)| ensures !OccursAt(whole, RESET, j) {
      NoResetAt(t, rest, j);
    }
    IndexIs(whole, RESET, |Escape(t)|);
  }

  // Where the scan begins.

  lemma LastOnly(i: nat)
    requires i < |FIELD_PREFIX| - 1
    ensures FIELD_PREFIX[i] != '[' && FIELD_PREFIX[|FIELD_PREFIX| - 1] == '['
  {}

  /** The pattern has no proper border, as its last character occurs nowhere else
      in it: an occurrence that starts in `pre` lies in `pre`. */
  lemma NoStraddling(pre: string, tail: string, j: nat)
    requires j < |pre|
    ensures OccursAt(pre + FIELD_PREFIX + tail, FIELD_PREFIX, j) ==> OccursAt(pre, FIELD_PREFIX, j)
  {
    var whole := pre + FIELD_PREFIX + tail;
    var n := |FIELD_PREFIX|;
    if j + n <= |pre| {
      assert pre[j..j + n] == whole[j..j + n];
    } else {
      LastOnly(j + n - 1 - |pre|);
      assert whole[j..j + n][n - 1] == whole[j + n - 1];
    }
  }

  lemma FirstMatch(pre: string, tail: string)
    requires Index(pre, FIELD_PREFIX) < 0
    ensures Index(pre + FIELD_PREFIX + tail, FIELD_PREFIX) == |pre|
  {
    var whole := pre + FIELD_PREFIX + tail;
    assert whole[|pre|..|pre| + |FIELD_PREFIX|] == FIELD_PREFIX;
    forall j | 0 <= j < |pre| ensures !OccursAt(whole, FIELD_PREFIX, j) {
      NoStraddling(pre, tail, j);
    }
    IndexIs(whole, FIELD_PREFIX, |pre|);
  }

  /** The span of an opened value behind text without the pattern. */
  lemma ValueSpan(pre: string, value: string, reset: nat)
    requires Index(pre, FIELD_PREFIX) < 0 && OPENING <= value && Index(value, RESET) == reset
    ensures NextSpan(pre + VALUE_PREFIX + value) == Some((|pre + VALUE_PREFIX|, |pre + VALUE_PREFIX| + reset + |RESET|))
  {
    hide Index, NextSpan;
    var output := pre + VALUE_PREFIX + value;
    var tail := value[|OPENING|..];
    assert VALUE_PREFIX + OPENING == FIELD_PREFIX && value == OPENING + tail;
    assert output == pre + FIELD_PREFIX + tail;
    FirstMatch(pre, tail);
    assert output[|pre + VALUE_PREFIX|..] == value;
    SpanFound(output, |pre + VALUE_PREFIX|, reset);
  }

  lemma {:induction false} RestoreEscape(s: string)
    requires '\\' !in s
    ensures Restore(Escape(s)) == s
    decreases |s|
  {
    if s != "" {
      RestoreEscape(s[1..]);
      if s[0] == ESC {
        assert Escape(s)[|ESCAPED|..] == Escape(s[1..]);
      } else {
        assert Escape(s)[0] != ESCAPED[0] && Escape(s)[1..] == Escape(s[1..]);
      }
    }
  }

  lemma EscapedClosed(t: string)
    ensures Escape(t + CLOSING) == Escape(t) + RESET
  {
    hide Escape;
    EscapeConcat(t, CLOSING);
    EscapedClosing();
  }

  /** A text up to its first reset comes out as it was, and the scan goes on behind it. */
  lemma UpToReset(pre: string, t: string, rest: string)
    requires Index(pre, FIELD_PREFIX) < 0 && '\\' !in t && OPENING <= Escape(t) && NoReset(t)
    ensures var output := pre + VALUE_PREFIX + (Escape(t) + RESET + rest);
            && NextSpan(output) == Some((|pre + VALUE_PREFIX|, |pre + VALUE_PREFIX| + |Escape(t) + RESET|))
            && Unescape(output) == pre + VALUE_PREFIX + (t + CLOSING) + Unescape(rest)
  {
    hide Index, NextSpan, Escape, Restore, NoReset, RESET, CLOSING, VALUE_PREFIX;
    var value := Escape(t) + RESET + rest;
    FirstReset(t, rest);
    ValueSpan(pre, value, |Escape(t)|);
    EscapedClosed(t);
    NoBackslash(t);
    RestoreEscape(t + CLOSING);
    Slices(pre + VALUE_PREFIX, Escape(t) + RESET, rest);
    assert pre + VALUE_PREFIX + (Escape(t) + RESET) + rest == pre + VALUE_PREFIX + value;
  }

  lemma NoBackslash(t: string)
    requires '\\' !in t
    ensures '\\' !in t + CLOSING
  {}

  // The coloured id.

  /** For which ids the coloured id comes out as it went in: nothing in them is
      escaped but escape characters, and no reset is among them. */
  ghost predicate Clean(id: string) {
    Encodable(id) && NoReset(id)
  }

  /** A coloured id up to its reset. */
  function Opened(id: string): string {
    [ESC] + "[" + Decimal(Color(id)) + "m" + id
  }

  lemma DecimalColor(id: string)
    ensures Decimal(Color(id)) == ['3', Digit(Color(id) - 30)]
  {
    assert Decimal(3) == ['3'];
  }

  lemma OpenedShape(id: string)
    ensures Colorize(id) == Opened(id) + CLOSING
    ensures |Opened(id)| == 5 + |id| && Opened(id)[5..] == id
    ensures Opened(id)[..3] == [ESC] + "[3" && '0' <= Opened(id)[3] <= '9' && Opened(id)[4] == 'm'
  {
    DecimalColor(id);
  }

  lemma OpenedEncodable(id: string)
    ensures Encodable(Colorize(id)) <==> Encodable(id)
    ensures Encodable(id) ==> Encodable(Opened(id))
  {
    hide Opened, Colorize;
    OpenedShape(id);
    var c := Colorize(id);
    assert forall i :: 0 <= i < 5 ==> Plain(c[i]) || c[i] == ESC by {
      assert c[..3] == [ESC] + "[3";
    }
    assert forall i :: 5 <= i < 5 + |id| ==> c[i] == Opened(id)[i] == id[i - 5];
    assert forall i :: 5 + |id| <= i < |c| ==> c[i] == CLOSING[i - 5 - |id|];
    if Encodable(c) {
      forall i | 0 <= i < |id| ensures Plain(id[i]) || id[i] == ESC {
        assert c[i + 5] == id[i];
      }
    }
  }

  /** The colour code is no reset, so putting it in front makes none. */
  lemma OpenedResets(id: string, n: nat)
    requires n <= |id| && NoReset(id[..n])
    ensures NoReset(Opened(id)[..5 + n])
  {
    hide Opened;
    OpenedShape(id);
    var t := Opened(id)[..5 + n];
    forall i ensures !OccursAt(t, CLOSING, i) {
      if i >= 5 {
        assert t[..5] + id[..n] == t;
        OccursBehind(t[..5], id[..n], CLOSING, i - 5);
      } else if 0 <= i <= |t| - |CLOSING| {
        assert t[i..i + |CLOSING|][0] == t[i] && t[i..i + |CLOSING|][2] == t[i + 2];
        assert t[..3] == [ESC] + "[3";
      }
    }
  }

  lemma OpenedEscaped(id: string, n: nat)
    requires n <= |id|
    ensures OPENING <= Escape(Opened(id)[..5 + n])
  {
    hide Opened;
    OpenedShape(id);
    var t := Opened(id)[..5 + n];
    assert t == [ESC] + "[" + t[2..];
    hide Escape;
    EscapeConcat([ESC] + "[", t[2..]);
    EscapeConcat([ESC], "[");
    EscapeOne();
    EscapePlain("[");
  }

  lemma CleanRendered(pre: string, id: string, rest: string)
    requires Index(pre, FIELD_PREFIX) < 0 && Clean(id)
    ensures Unescape(pre + VALUE_PREFIX + Json(Colorize(id)) + rest) == pre + VALUE_PREFIX + Colorize(id) + Unescape(rest)
  {
    hide Unescape, Escape, Json, Opened, Colorize, Index, NoReset, Encodable, RESET, CLOSING, VALUE_PREFIX, OPENING;
    var t := Opened(id);
    OpenedShape(id);
    assert t[..5 + |id|] == t && id[..|id|] == id;
    OpenedEncodable(id);
    JsonEncodable(Colorize(id));
    JsonEncodable(t);
    OpenedResets(id, |id|);
    OpenedEscaped(id, |id|);
    EscapedClosed(t);
    UpToReset(pre, t, rest);
    assert pre + VALUE_PREFIX + (Escape(t) + RESET) + rest == pre + VALUE_PREFIX + (Escape(t) + RESET + rest);
  }

  /** What is rendered as it went in was escaped and nothing else. */
  lemma RenderedEncodable(pre: string, id: string, rest: string)
    requires Unescape(pre + VALUE_PREFIX + Json(Colorize(id)) + rest) == pre + VALUE_PREFIX + Colorize(id) + Unescape(rest)
    ensures Encodable(id)
  {
    hide Unescape, Escape, Json, Colorize, Encodable;
    var before, colored := pre + VALUE_PREFIX, Colorize(id);
    EscapeUnescaped(before + Json(colored) + rest);
    EscapeUnescaped(rest);
    EscapeConcat(before + Json(colored), rest);
    EscapeConcat(before, Json(colored));
    EscapeConcat(before + colored, Unescape(rest));
    EscapeConcat(before, colored);
    JsonLeavesNone(colored);
    EscapePlain(Json(colored));
    assert |Json(colored)| == |Escape(colored)|;
    JsonLonger(colored);
    OpenedEncodable(id);
  }

  /** Text without quotes is no part of a span. */
  lemma NoQuote(p: string, rest: string)
    requires '\"' !in p
    ensures p <= Unescape(p + rest)
  {
    hide NextSpan, Restore;
    var output := p + rest;
    if NextSpan(output).Some? {
      var start := NextSpan(output).value.0;
      var at := start - |VALUE_PREFIX|;
      assert output[at..start][0] == output[at] == '\"';
      assert p <= output[..start];
    }
  }

  /** An escaped text is no longer the text, if it had an escape character. */
  lemma {:induction false} EscapedDiffers(t: string, rest: string)
    requires ESC in t
    ensures !(Escape(t) <= t + rest)
    decreases |t|
  {
    if t[0] == ESC {
      assert Escape(t)[0] != (t + rest)[0];
    } else {
      EscapedDiffers(t[1..], rest);
      assert Escape(t) == [t[0]] + Escape(t[1..]) && t + rest == [t[0]] + (t[1..] + rest);
      PrefixBehind([t[0]], Escape(t[1..]), t[1..] + rest);
    }
  }

  lemma PrefixBehind(a: string, p: string, s: string)
    ensures a + p <= a + s ==> p <= s
  {
    assert (a + p)[|a|..] == p && (a + s)[|a|..] == s;
  }

  /** The first reset in an id. */
  lemma FirstClosing(id: string) returns (n: nat)
    requires !NoReset(id)
    ensures OccursAt(id, CLOSING, n) && n <= |id| && NoReset(id[..n])
  {
    n := Index(id, CLOSING);
    forall i ensures !OccursAt(id[..n], CLOSING, i) {
      assert id == id[..n] + id[n..];
      OccursBefore(id[..n], id[n..], CLOSING, i);
      assert i < n ==> !OccursAt(id, CLOSING, i);
    }
  }

  /** The coloured id and its encoding, divided at the id's first reset. */
  lemma Divided(id: string) returns (t: string, behind: string)
    requires Encodable(id) && !NoReset(id)
    ensures Colorize(id) == t + CLOSING + behind + CLOSING
    ensures Json(Colorize(id)) == Escape(t) + RESET + Escape(behind) + RESET
    ensures '\\' !in t && '\"' !in behind && OPENING <= Escape(t) && NoReset(t)
  {
    hide Escape, Json, Opened, Colorize, NoReset, Encodable, CLOSING, RESET, OPENING;
    var n := FirstClosing(id);
    OpenedShape(id);
    var all := Opened(id);
    ClosingAt(all, id, n);
    t, behind := all[..5 + n], all[5 + n + |CLOSING|..];
    OpenedEncodable(id);
    JsonEncodable(Colorize(id));
    JsonEncodable(all);
    OpenedResets(id, n);
    OpenedEscaped(id, n);
    EscapedClosed(all);
    EscapeConcat(t + CLOSING, behind);
    EscapedClosed(t);
  }

  lemma ResetRendered(pre: string, id: string, rest: string)
    requires Index(pre, FIELD_PREFIX) < 0 && Encodable(id) && !NoReset(id)
    ensures Unescape(pre + VALUE_PREFIX + Json(Colorize(id)) + rest) != pre + VALUE_PREFIX + Colorize(id) + Unescape(rest)
  {
    hide *;
    var t, behind := Divided(id);
    var before, remaining := pre + VALUE_PREFIX, Escape(behind) + RESET + rest;
    UpToReset(pre, t, remaining);
    assert before + (Escape(t) + RESET + Escape(behind) + RESET) + rest == before + (Escape(t) + RESET + remaining);
    Leftover(behind, rest);
    var expected := behind + CLOSING + Unescape(rest);
    assert before + (t + CLOSING + behind + CLOSING) + Unescape(rest) == before + (t + CLOSING) + expected;
    SameTail(before + (t + CLOSING), Unescape(remaining), expected);
  }

  lemma SameTail(a: string, b: string, c: string)
    ensures a + b == a + c ==> b == c
  {
    assert (a + b)[|a|..] == b && (a + c)[|a|..] == c;
  }

  lemma ClosingAt(all: string, id: string, n: nat)
    requires |all| == 5 + |id| && all[5..] == id && OccursAt(id, CLOSING, n)
    ensures 5 + n + |CLOSING| <= |all| && all == all[..5 + n] + CLOSING + all[5 + n + |CLOSING|..]
  {
    hide *;
    assert all == all[..5] + id;
    OccursBehind(all[..5], id, CLOSING, n);
    OccursSplits(all, CLOSING, 5 + n);
  }

  lemma OccursSplits(s: string, pattern: string, at: nat)
    requires OccursAt(s, pattern, at)
    ensures at + |pattern| <= |s| && s == s[..at] + pattern + s[at + |pattern|..]
  {}

  /** What follows the first reset stays escaped. */
  lemma Leftover(behind: string, rest: string)
    requires '\"' !in behind
    ensures Unescape(Escape(behind) + RESET + rest) != behind + CLOSING + Unescape(rest)
  {
    hide Unescape;
    EscapedClosed(behind);
    NoQuoteEscaped(behind + CLOSING);
    NoQuote(Escape(behind + CLOSING), rest);
    EscapedDiffers(behind + CLOSING, Unescape(rest));
  }

  lemma {:induction false} NoQuoteEscaped(t: string)
    requires '\"' !in t
    ensures '\"' !in Escape(t)
    decreases |t|
  {
    if t != "" {
      NoQuoteEscaped(t[1..]);
    }
  }

  /** A coloured id that was JSON-encoded after its field name comes out coloured, and
      the scan goes on behind it, exactly if the id is clean. */
  lemma Rendering(pre: string, id: string, rest: string)
    requires Index(pre, FIELD_PREFIX) < 0
    ensures Unescape(pre + VALUE_PREFIX + Json(Colorize(id)) + rest) == pre + VALUE_PREFIX + Colorize(id) + Unescape(rest)
            <==> Clean(id)
  {
    hide Unescape, Json, Colorize, Index, Encodable, NoReset;
    if Clean(id) {
      CleanRendered(pre, id, rest);
    } else if Encodable(id) {
      ResetRendered(pre, id, rest);
    } else if Unescape(pre + VALUE_PREFIX + Json(Colorize(id)) + rest) == pre + VALUE_PREFIX + Colorize(id) + Unescape(rest) {
      RenderedEncodable(pre, id, rest);
    }
  }

  // A coloured id, clean or not, stays in its value; other output may not.

  lemma {:induction false} ClosesMore(a: string, b: string, escaped: bool)
    ensures Closes(a, escaped) ==> Closes(a + b, escaped)
    decreases |a|
  {
    if a != "" {
      assert (a + b)[1..] == a[1..] + b;
      ClosesMore(a[1..], b, false);
      ClosesMore(a[1..], b, a[0] == '\\');
    }
  }

  lemma EncodedShape(id: string)
    ensures var encoded := Json(Colorize(id));
            OPENING <= encoded && |encoded| >= |RESET| && encoded[|encoded| - |RESET|..] == RESET
  {
    hide JsonChar, Json, Opened, Colorize;
    OpenedShape(id);
    var middle := Opened(id)[2..];
    assert Colorize(id) == [ESC] + "[" + middle + CLOSING;
    JsonConcat([ESC] + "[" + middle, CLOSING);
    JsonConcat([ESC] + "[", middle);
    JsonOpening();
  }

  lemma JsonOpening()
    ensures Json([ESC] + "[") == OPENING && Json(CLOSING) == RESET
  {
    hide JsonChar;
    JsonEncodable([ESC] + "[");
    JsonEncodable(CLOSING);
    EscapedClosing();
    EscapeConcat([ESC], "[");
    EscapeOne();
    EscapePlain("[");
  }

  lemma ResetComes(encoded: string, rest: string)
    requires |encoded| >= |RESET| && encoded[|encoded| - |RESET|..] == RESET
    ensures 0 <= Index(encoded + rest, RESET) <= |encoded| - |RESET|
  {
    hide Index, RESET;
    var at := |encoded| - |RESET|;
    assert (encoded + rest)[at..at + |RESET|] == encoded[at..];
    assert OccursAt(encoded + rest, RESET, at);
  }

  /** Whatever the id, the span at its field does not go beyond the id's value. */
  lemma ColoredStays(pre: string, id: string, rest: string)
    requires Index(pre, FIELD_PREFIX) < 0
    ensures var output := pre + VALUE_PREFIX + (Json(Colorize(id)) + rest);
            && NextSpan(output).Some?
            && var (start, end) := NextSpan(output).value;
               start == |pre + VALUE_PREFIX| && !Closes(output[start..end], false)
  {
    hide *;
    var encoded := Json(Colorize(id));
    EncodedShape(id);
    ResetComes(encoded, rest);
    var reset := Index(encoded + rest, RESET);
    assert OPENING <= encoded + rest;
    ValueSpan(pre, encoded + rest, reset);
    var before, size := pre + VALUE_PREFIX, reset + |RESET|;
    assert (before + (encoded + rest))[|before|..|before| + size] == encoded[..size];
    assert encoded[..size] + encoded[size..] == encoded && encoded + "" == encoded;
    ClosesMore(encoded[..size], encoded[size..], false);
    JsonOpen(Colorize(id), "");
    ClosedNot();
  }

  lemma ClosedNot()
    ensures !Closes("", false)
  {}

  lemma {:induction false} QuoteCloses(s: string, rest: string)
    requires '\\' !in s && '\"' in s
    ensures Closes(s + rest, false)
    decreases |s|
  {
    assert (s + rest)[1..] == s[1..] + rest;
    if s[0] != '\"' {
      QuoteCloses(s[1..], rest);
    }
  }

  /** A value that is not a coloured id but begins like one, and has no reset: the
      span runs on into the fields behind it, up to a reset there. */
  lemma RunsOn(fields: string, rest: string)
    requires '\\' !in fields && '\"' in fields && NoReset([ESC] + "[" + fields)
    ensures var t := [ESC] + "[" + fields;
            var output := VALUE_PREFIX + (Escape(t) + RESET + rest);
            Unescape(output) == VALUE_PREFIX + (t + CLOSING) + Unescape(rest) && !ResetsInValues(output)
  {
    hide Index, NextSpan, Restore, Escape, NoReset, Closes, RESET, CLOSING, VALUE_PREFIX, Unescape;
    var t := [ESC] + "[" + fields;
    var output := VALUE_PREFIX + (Escape(t) + RESET + rest);
    OpeningEscaped(fields);
    NoPattern();
    assert "" + VALUE_PREFIX == VALUE_PREFIX;
    UpToReset("", t, rest);
    Slices(VALUE_PREFIX, Escape(t) + RESET, rest);
    assert VALUE_PREFIX + (Escape(t) + RESET) + rest == output;
    QuoteCloses(t, CLOSING);
    EscapedClosed(t);
    NoBackslash(t);
    RestoreEscape(t + CLOSING);
    ClosesRestored(Escape(t) + RESET, false);
  }

  lemma NoPattern()
    ensures Index("", FIELD_PREFIX) < 0
  {}

  lemma OpeningEscaped(fields: string)
    ensures OPENING <= Escape([ESC] + "[" + fields)
  {
    hide Escape;
    EscapeConcat([ESC] + "[", fields);
    EscapeConcat([ESC], "[");
    EscapeOne();
    EscapePlain("[");
  }

  const FIELDS := "31m\", \"user\": \""

  /** `"trace_id": "\u001b[31m", "user": "\u001b[2J\u001b[0m"` */
  const UNCOLORED := VALUE_PREFIX + (ESCAPED + "[" + FIELDS + ESCAPED + "[2J" + RESET + "\"")

  /** A trace id in a nested object is not coloured: one that only opens a colour, with
      a reset in the next field, lets the control code of that field through. */
  lemma OtherField()
    ensures ESC !in UNCOLORED && !AllInValues(Unescape(UNCOLORED))
    ensures Unescape(UNCOLORED)
            == VALUE_PREFIX + ([ESC] + "[" + FIELDS + [ESC] + "[2J" + CLOSING) + "\""
  {
    hide *;
    var fields := FIELDS + [ESC] + "[2J";
    NoneInFields();
    TwoEscapes(FIELDS, "[2J");
    FieldsShape();
    UncoloredIs();
    RunsOn(fields, "\"");
    EscapesInValues(UNCOLORED);
    assert [ESC] + "[" + fields == [ESC] + "[" + FIELDS + [ESC] + "[2J";
    QuoteOnly();
  }

  lemma UncoloredIs()
    ensures UNCOLORED == VALUE_PREFIX + (ESCAPED + "[" + FIELDS + ESCAPED + "[2J" + RESET + "\"")
    ensures ESC !in UNCOLORED
  {
    hide ESCAPED, FIELDS, RESET, VALUE_PREFIX;
    NoneInFields();
  }

  lemma QuoteOnly()
    ensures Unescape("\"") == "\""
  {}

  lemma FieldsShape()
    ensures var fields := FIELDS + [ESC] + "[2J";
            '\\' !in fields && '\"' in fields && NoReset([ESC] + "[" + fields)
  {
    var fields := FIELDS + [ESC] + "[2J";
    assert fields[3] == '\"';
    var t := [ESC] + "[" + fields;
    forall i ensures !OccursAt(t, CLOSING, i) {
      if 0 <= i <= |t| - |CLOSING| {
        assert t[i..i + |CLOSING|][0] == t[i] && t[i..i + |CLOSING|][2] == t[i + 2];
      }
    }
  }

  lemma TwoEscapes(a: string, b: string)
    requires ESC !in a && ESC !in b
    ensures Escape([ESC] + "[" + (a + [ESC] + b)) == ESCAPED + "[" + a + ESCAPED + b
  {
    hide Escape, ESCAPED;
    EscapePlain("[" + a);
    EscapePlain(b);
    EscapeConcat([ESC] + ("[" + a) + [ESC], b);
    EscapeConcat([ESC] + ("[" + a), [ESC]);
    EscapeConcat([ESC], "[" + a);
    EscapeOne();
    assert [ESC] + "[" + (a + [ESC] + b) == [ESC] + ("[" + a) + [ESC] + b;
  }

  lemma NoneInFields()
    ensures ESC !in FIELDS && ESC !in "[2J" && ESC !in "[" && ESC !in "\"" && ESC !in VALUE_PREFIX && ESC !in ESCAPED && ESC !in RESET
  {}
}
