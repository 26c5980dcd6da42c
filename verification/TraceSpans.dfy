/** Where the scanner makes escape characters: only in spans of trace-id values,
    and when a span lies in one value only. */
module TraceSpans {
  import opened Sequences
  import opened Text
  import opened TraceColor

  // Restoring a span.

  lemma NoOverlap(a: string, b: string)
    requires 0 < |a| < |ESCAPED|
    ensures !(ESCAPED <= a + ESCAPED + b)
  {
    assert (a + ESCAPED + b)[|a|] == '\\';
    assert ESCAPED[|a|] != '\\';
  }

  /** `ESCAPED` cannot overlap itself, so an occurrence of it splits the work. */
  lemma {:induction false} RestoreAround(a: string, b: string)
    ensures Restore(a + ESCAPED + b) == Restore(a) + [ESC] + Restore(b)
    decreases |a|
  {
    var whole := a + ESCAPED + b;
    if 0 < |a| < |ESCAPED| {
      NoOverlap(a, b);
    }
    if a == "" {
      assert whole == ESCAPED + b && whole[|ESCAPED|..] == b;
    } else if ESCAPED <= whole {
      assert a[..|ESCAPED|] == whole[..|ESCAPED|] == ESCAPED;
      assert whole[|ESCAPED|..] == a[|ESCAPED|..] + ESCAPED + b;
      RestoreAround(a[|ESCAPED|..], b);
    } else {
      assert ESCAPED <= a ==> ESCAPED <= whole;
      assert whole[1..] == a[1..] + ESCAPED + b;
      RestoreAround(a[1..], b);
    }
  }

  lemma {:induction false} RestorePlain(s: string)
    requires '\\' !in s
    ensures Restore(s) == s
    decreases |s|
  {
    if s != "" {
      assert ESCAPED[0] == '\\';
      RestorePlain(s[1..]);
    }
  }

  // The shape of a span.

  predicate EndsWith(s: string, suffix: string) {
    |suffix| <= |s| && s[|s| - |suffix|..] == suffix
  }

  lemma SpanStarts(output: string)
    requires NextSpan(output).Some?
    ensures EndsWith(output[..NextSpan(output).value.0], VALUE_PREFIX)
  {
    hide Index;
    var start := NextSpan(output).value.0;
    var at := start - |VALUE_PREFIX|;
    assert output[..start][at..] == output[at..start];
  }

  lemma SpanOpens(output: string)
    requires NextSpan(output).Some?
    ensures var (start, end) := NextSpan(output).value;
            && |RESET| <= end - start && output[end - |RESET|..end] == RESET
            && output[start..start + |OPENING|] == OPENING
  {
    hide Index, RESET, VALUE_PREFIX, FIELD_PREFIX, OPENING;
    var (start, end) := NextSpan(output).value;
    var at := start - |VALUE_PREFIX|;
    PrefixParts();
    assert OccursAt(output, FIELD_PREFIX, at);
    assert output[at..at + |FIELD_PREFIX|] == FIELD_PREFIX;
    SubSlice(output, at, at + |FIELD_PREFIX|, |VALUE_PREFIX|);
    assert OccursAt(output[start..], RESET, end - |RESET| - start);
    assert output[start..][end - |RESET| - start..end - start] == output[end - |RESET|..end];
  }

  lemma PrefixParts()
    ensures |VALUE_PREFIX| + |OPENING| == |FIELD_PREFIX| && FIELD_PREFIX[|VALUE_PREFIX|..] == OPENING
  {}

  lemma SubSlice(s: string, from: nat, to: nat, skip: nat)
    requires from + skip <= to <= |s|
    ensures s[from..to][skip..] == s[from + skip..to]
  {}

  lemma SpanShape(output: string)
    requires NextSpan(output).Some?
    ensures var (start, end) := NextSpan(output).value;
            && OPENING <= output[start..end]
            && EndsWith(output[start..end], RESET)
            && EndsWith(output[..start], VALUE_PREFIX)
  {
    hide NextSpan;
    var (start, end) := NextSpan(output).value;
    SpanStarts(output);
    SpanOpens(output);
    assert output[start..end][..|OPENING|] == output[start..start + |OPENING|];
    SubSlice(output, start, end, end - start - |RESET|);
  }

  lemma RestoredShape(span: string)
    requires OPENING <= span && EndsWith(span, RESET)
    ensures Restore(span) != "" && Restore(span)[0] == ESC && EndsWith(Restore(span), CLOSING)
  {
    var inner := span[..|span| - |RESET|];
    assert span == inner + ESCAPED + "[0m";
    RestoreAround(inner, "[0m");
    RestorePlain("[0m");
    assert OPENING[..|ESCAPED|] == ESCAPED;
    assert span[..|OPENING|][..|ESCAPED|] == span[..|ESCAPED|];
  }

  // The span's only reset is its end, and restoring makes no other.

  lemma {:induction false} EscapeGrows(s: string)
    ensures |Escape(s)| >= |s|
    decreases |s|
  {
    if s != "" {
      EscapeGrows(s[1..]);
    }
  }

  lemma EscapedClosing()
    ensures Escape(CLOSING) == RESET
  {
    hide Escape;
    EscapeOne();
    EscapePlain("[0m");
    EscapeConcat([ESC], "[0m");
  }

  /** A reset in a text is a reset in its escaped form, with at least as much behind it. */
  lemma ClosingEscaped(s: string, end: nat)
    requires end <= |s| && EndsWith(s[..end], CLOSING)
    ensures var behind := |Escape(s[end..])|;
            behind >= |s| - end && OccursAt(Escape(s), RESET, |Escape(s)| - behind - |RESET|)
  {
    hide Escape, RESET;
    var head, tail := s[..end - |CLOSING|], s[end..];
    assert s == head + CLOSING + tail;
    EscapeConcat(head + CLOSING, tail);
    EscapeConcat(head, CLOSING);
    EscapedClosing();
    EscapeGrows(tail);
    Slices(Escape(head), RESET, Escape(tail));
    var all := Escape(s);
    assert all == Escape(head) + RESET + Escape(tail);
    assert all[|Escape(head)|..|Escape(head)| + |RESET|] == RESET;
  }

  lemma OneClosing(span: string)
    requires ESC !in span && Index(span, RESET) == |span| - |RESET|
    ensures forall e :: 0 <= e < |Restore(span)| ==> !EndsWith(Restore(span)[..e], CLOSING)
  {
    hide Escape, Restore, EndsWith, RESET;
    var restored := Restore(span);
    EscapeRestored(span);
    EscapePlain(span);
    forall e | 0 <= e < |restored| ensures !EndsWith(restored[..e], CLOSING) {
      if EndsWith(restored[..e], CLOSING) {
        ClosingEscaped(restored, e);
      }
    }
  }

  /** The first reset of a span is its end. */
  lemma FirstResetEnds(output: string)
    requires NextSpan(output).Some?
    ensures var (start, end) := NextSpan(output).value;
            Index(output[start..end], RESET) == end - start - |RESET|
  {
    hide Index, RESET, FIELD_PREFIX, VALUE_PREFIX;
    var (start, end) := NextSpan(output).value;
    var after, span := output[start..], output[start..end];
    var reset := Index(after, RESET);
    assert FirstAt(after, RESET, reset);
    assert span == after[..reset + |RESET|];
    assert span[reset..reset + |RESET|] == after[reset..reset + |RESET|];
    forall j | 0 <= j < reset ensures !OccursAt(span, RESET, j) {
      assert !OccursAt(after, RESET, j);
      assert span[j..j + |RESET|] == after[j..j + |RESET|];
    }
    IndexIs(span, RESET, reset);
  }

  // The theorem.

  /** A piece of text that starts right after `"trace_id": "` with an escape
      character and ends with the first reset behind that. */
  predicate Bracketed(s: string, start: int, end: int) {
    && 0 <= start < end <= |s|
    && EndsWith(s[..start], VALUE_PREFIX)
    && s[start] == ESC
    && EndsWith(s[..end], CLOSING)
    && (forall e :: start < e < end ==> !EndsWith(s[..e], CLOSING))
  }

  /** Position `k` lies in such a piece. */
  ghost predicate InSpan(s: string, k: int) {
    exists start, end :: start <= k < end && Bracketed(s, start, end)
  }

  lemma EndsWithMore(before: string, s: string, suffix: string)
    requires |suffix| <= |s|
    ensures EndsWith(before + s, suffix) <==> EndsWith(s, suffix)
  {
    assert (before + s)[|before + s| - |suffix|..] == s[|s| - |suffix|..];
  }

  lemma EndsWithShifted(before: string, s: string, e: nat, suffix: string)
    requires |suffix| <= e <= |s|
    ensures EndsWith((before + s)[..|before| + e], suffix) <==> EndsWith(s[..e], suffix)
  {
    assert (before + s)[..|before| + e] == before + s[..e];
    EndsWithMore(before, s[..e], suffix);
  }

  lemma BracketedShifts(before: string, s: string, start: int, end: int)
    requires Bracketed(s, start, end)
    ensures Bracketed(before + s, |before| + start, |before| + end)
  {
    hide EndsWith;
    var all, n := before + s, |before|;
    StartLength(s[..start]);
    EndsWithShifted(before, s, start, VALUE_PREFIX);
    EndsWithShifted(before, s, end, CLOSING);
    forall e | n + start < e < n + end ensures !EndsWith(all[..e], CLOSING) {
      EndsWithShifted(before, s, e - n, CLOSING);
    }
  }

  lemma StartLength(s: string)
    requires EndsWith(s, VALUE_PREFIX)
    ensures |CLOSING| <= |VALUE_PREFIX| <= |s|
  {}

  /** No reset reaches back over a span's start: the field name has no escape character. */
  lemma NoCrossing(before: string, span: string, e: nat)
    requires EndsWith(before, VALUE_PREFIX) && 0 < e < |span|
    requires !EndsWith(span[..e], CLOSING)
    ensures !EndsWith((before + span)[..|before| + e], CLOSING)
  {
    var all := (before + span)[..|before| + e];
    if e >= |CLOSING| {
      EndsWithShifted(before, span, e, CLOSING);
    } else {
      var back := |CLOSING| - e;
      assert all[|all| - |CLOSING|] == before[|before| - back] == VALUE_PREFIX[|VALUE_PREFIX| - back] by {
        assert before[|before| - |VALUE_PREFIX|..][|VALUE_PREFIX| - back] == before[|before| - back];
      }
      NoEscape(|VALUE_PREFIX| - back);
      assert |all| >= |CLOSING| && all[|all| - |CLOSING|..][0] == all[|all| - |CLOSING|];
    }
  }

  lemma NoEscape(i: nat)
    requires i < |VALUE_PREFIX|
    ensures VALUE_PREFIX[i] != ESC
  {}

  lemma RestoredBracketed(before: string, span: string, rest: string)
    requires EndsWith(before, VALUE_PREFIX) && span != "" && span[0] == ESC && EndsWith(span, CLOSING)
    requires forall e :: 0 <= e < |span| ==> !EndsWith(span[..e], CLOSING)
    ensures Bracketed(before + span + rest, |before|, |before + span|)
  {
    hide EndsWith;
    var all := before + span + rest;
    ClosingLength(span);
    assert all[..|before|] == before && all[..|before + span|] == before + span;
    EndsWithMore(before, span, CLOSING);
    forall e | |before| < e < |before + span| ensures !EndsWith(all[..e], CLOSING) {
      NoCrossing(before, span, e - |before|);
      assert all[..e] == (before + span)[..e];
    }
  }

  lemma ClosingLength(s: string)
    requires EndsWith(s, CLOSING)
    ensures |CLOSING| <= |s|
  {}

  /** The next span, rewritten, is bracketed in the whole result. */
  lemma SpanBracketed(output: string)
    requires ESC !in output && NextSpan(output).Some?
    ensures var (start, end) := NextSpan(output).value;
            var span := Restore(output[start..end]);
            && EndsWith(span, CLOSING)
            && Unescape(output) == output[..start] + span + Unescape(output[end..])
            && Bracketed(Unescape(output), start, start + |span|)
  {
    hide NextSpan, Restore, EndsWith, Index, Bracketed;
    var (start, end) := NextSpan(output).value;
    SpanShape(output);
    FirstResetEnds(output);
    RestoredShape(output[start..end]);
    OneClosing(output[start..end]);
    RestoredBracketed(output[..start], Restore(output[start..end]), Unescape(output[end..]));
  }

  /** Rewriting output without raw escape characters makes them only inside spans
      that start right after `"trace_id": "` and end with their own first reset. */
  lemma {:induction false} EscapesOnlyInSpans(output: string, k: nat)
    requires ESC !in output && k < |Unescape(output)| && Unescape(output)[k] == ESC
    ensures InSpan(Unescape(output), k)
    decreases |output|
  {
    hide NextSpan, Restore, EndsWith, Bracketed;
    match NextSpan(output)
    case Some((start, end)) =>
      var before, rest := output[..start] + Restore(output[start..end]), Unescape(output[end..]);
      SpanBracketed(output);
      if k >= |before| {
        EscapesOnlyInSpans(output[end..], k - |before|);
        var s, e :| s <= k - |before| < e && Bracketed(rest, s, e);
        BracketedShifts(before, rest, s, e);
      }
  }

  // Behind a reset.

  lemma NoM(i: nat)
    requires i < |VALUE_PREFIX|
    ensures VALUE_PREFIX[i] != 'm'
  {}

  lemma NotAcross(before: string, s: string, start: nat)
    requires EndsWith(before, CLOSING) && |before| <= start <= |before + s| && EndsWith((before + s)[..start], VALUE_PREFIX)
    ensures start - |VALUE_PREFIX| >= |before|
  {
    var all, n, from := before + s, |before|, start - |VALUE_PREFIX|;
    assert all[n - 1] == before[n - |CLOSING|..][|CLOSING| - 1] == 'm';
    if from < n {
      assert all[..start][from..][n - 1 - from] == all[n - 1];
      NoM(n - 1 - from);
    }
  }

  /** A piece that ends behind a reset starts, with its field name, behind it. */
  lemma Behind(before: string, s: string, start: int, end: int)
    requires EndsWith(before, CLOSING) && Bracketed(before + s, start, end) && end > |before|
    ensures start - |VALUE_PREFIX| >= |before| && Bracketed(s, start - |before|, end - |before|)
  {
    hide EndsWith;
    assert (before + s)[..|before|] == before;
    assert |before| <= start;
    NotAcross(before, s, start);
    Unshifted(before, s, start - |before|, end - |before|);
  }

  lemma Unshifted(before: string, s: string, start: int, end: int)
    requires |VALUE_PREFIX| <= start < end <= |s| && Bracketed(before + s, |before| + start, |before| + end)
    ensures Bracketed(s, start, end)
  {
    hide EndsWith;
    Lengths();
    EndsWithShifted(before, s, start, VALUE_PREFIX);
    EndsWithShifted(before, s, end, CLOSING);
    forall e | start < e < end ensures !EndsWith(s[..e], CLOSING) {
      EndsWithShifted(before, s, e, CLOSING);
      assert !EndsWith((before + s)[..|before| + e], CLOSING);
    }
  }

  lemma Lengths()
    ensures |CLOSING| == 4 && |VALUE_PREFIX| == 13
  {}

  /** Between a reset and an escape character: only if a field name lies right before
      the escape character, and behind the reset, can that be in a span. */
  lemma OutsideSpans(head: string, gap: string, rest: string)
    requires EndsWith(head, CLOSING)
    requires forall j :: !OccursAt(gap + [ESC], VALUE_PREFIX + [ESC], j)
    ensures !InSpan(head + (gap + [ESC] + rest), |head + gap|)
  {
    hide EndsWith;
    var s := gap + [ESC] + rest;
    forall start, end | start <= |head + gap| < end && Bracketed(head + s, start, end) ensures false {
      Behind(head, s, start, end);
      FieldOccurs(gap, rest, start - |head|, end - |head|);
    }
  }

  lemma FieldOccurs(gap: string, rest: string, start: int, end: int)
    requires |VALUE_PREFIX| <= start <= |gap| && Bracketed(gap + [ESC] + rest, start, end)
    ensures OccursAt(gap + [ESC], VALUE_PREFIX + [ESC], start - |VALUE_PREFIX|)
  {
    var s, from := gap + [ESC] + rest, start - |VALUE_PREFIX|;
    assert s[..start][from..] == s[from..start];
    assert (gap + [ESC])[from..start + 1] == s[from..start] + [s[start]];
  }

  // Values.

  /** A JSON string that goes on with `s` ends in it; `escaped` says that a backslash precedes. */
  predicate Closes(s: string, escaped: bool) {
    s != "" && (if escaped then Closes(s[1..], false) else s[0] == '\"' || Closes(s[1..], s[0] == '\\'))
  }

  /** Position `k` lies in a bracketed piece that does not go beyond the value it starts in. */
  ghost predicate InValue(s: string, k: int) {
    exists start, end :: start <= k < end && Bracketed(s, start, end) && !Closes(s[start..end], false)
  }

  ghost predicate AllInValues(s: string) {
    forall k :: 0 <= k < |s| && s[k] == ESC ==> InValue(s, k)
  }

  /** At each span found, the reset comes before the closing quote of the value. */
  predicate ResetsInValues(output: string)
    decreases |output|
  {
    match NextSpan(output)
    case None => true
    case Some((start, end)) => !Closes(output[start..end], false) && ResetsInValues(output[end..])
  }

  lemma {:induction false} ClosesPlain(a: string, b: string)
    requires '\\' !in a && '\"' !in a
    ensures Closes(a + b, false) <==> Closes(b, false)
    decreases |a|
  {
    if a == "" {
      assert a + b == b;
    } else {
      assert (a + b)[1..] == a[1..] + b;
      ClosesPlain(a[1..], b);
    }
  }

  lemma ClosesEscaped(rest: string, escaped: bool)
    ensures Closes(ESCAPED + rest, escaped) <==> Closes(rest, false)
  {
    assert (ESCAPED + rest)[1..] == "u001b" + rest;
    assert ("u001b" + rest)[1..] == "001b" + rest;
    ClosesPlain("u001b", rest);
    ClosesPlain("001b", rest);
  }

  /** Restoring moves no quote into or out of a value. */
  lemma {:induction false} ClosesRestored(s: string, escaped: bool)
    ensures Closes(Restore(s), escaped) <==> Closes(s, escaped)
    decreases |s|
  {
    if s != "" {
      if ESCAPED <= s {
        var rest := s[|ESCAPED|..];
        assert s == ESCAPED + rest;
        ClosesEscaped(rest, escaped);
        ClosesRestored(rest, false);
        assert Restore(s)[1..] == Restore(rest);
      } else {
        assert Restore(s)[1..] == Restore(s[1..]);
        ClosesRestored(s[1..], !escaped && s[0] == '\\');
      }
    }
  }

  lemma InValueShifts(before: string, s: string, k: int)
    requires EndsWith(before, CLOSING) && k >= 0
    ensures InValue(before + s, |before| + k) <==> InValue(s, k)
  {
    hide EndsWith, Closes;
    var all, n := before + s, |before|;
    if InValue(s, k) {
      var start, end :| start <= k < end && Bracketed(s, start, end) && !Closes(s[start..end], false);
      BracketedShifts(before, s, start, end);
      SameSlice(before, s, start, end);
    }
    if InValue(all, n + k) {
      var start, end :| start <= n + k < end && Bracketed(all, start, end) && !Closes(all[start..end], false);
      Behind(before, s, start, end);
      SameSlice(before, s, start - n, end - n);
    }
  }

  lemma SameSlice(before: string, s: string, start: int, end: int)
    requires Bracketed(s, start, end)
    ensures 0 <= start < end <= |s| && (before + s)[|before| + start..|before| + end] == s[start..end]
  {}

  lemma InFirst(s: string, start: int, end: int, k: int)
    requires Bracketed(s, start, end) && start <= k < end && !Closes(s[start..end], false)
    ensures InValue(s, k)
  {}

  /** The first escape character of a text is in no piece but the one it starts. */
  lemma FirstOnly(s: string, start: int, end: int)
    requires Bracketed(s, start, end) && ESC !in s[..start] && Closes(s[start..end], false)
    ensures !InValue(s, start)
  {
    hide EndsWith, Closes;
    forall i | 0 <= i < start ensures s[i] != ESC {
      assert s[..start][i] == s[i];
    }
    forall start', end' | start' <= start < end' && Bracketed(s, start', end') ensures start' == start && end' == end {
    }
  }

  lemma FirstSpan(output: string)
    requires ESC !in output && NextSpan(output).Some?
    ensures var (start, end) := NextSpan(output).value;
            var span := Restore(output[start..end]);
            && start < start + |span| <= |Unescape(output)| && Unescape(output)[start] == ESC
            && Unescape(output)[start..start + |span|] == span
            && ESC !in Unescape(output)[..start]
            && EndsWith(output[..start] + span, CLOSING)
            && (Closes(span, false) <==> Closes(output[start..end], false))
  {
    hide NextSpan, Restore, EndsWith, Closes;
    var (start, end) := NextSpan(output).value;
    SpanBracketed(output);
    ClosingLength(Restore(output[start..end]));
    EndsWithMore(output[..start], Restore(output[start..end]), CLOSING);
    ClosesRestored(output[start..end], false);
    assert Unescape(output)[..start] == output[..start];
  }

  lemma {:induction false} ResetsSuffice(output: string, k: nat)
    requires ESC !in output && ResetsInValues(output) && k < |Unescape(output)| && Unescape(output)[k] == ESC
    ensures InValue(Unescape(output), k)
    decreases |output|
  {
    hide NextSpan, Restore, EndsWith, Bracketed, Closes, InValue;
    match NextSpan(output)
    case Some((start, end)) =>
      var before, rest := output[..start] + Restore(output[start..end]), Unescape(output[end..]);
      SpanBracketed(output);
      FirstSpan(output);
      if k >= |before| {
        ResetsSuffice(output[end..], k - |before|);
        InValueShifts(before, rest, k - |before|);
      } else {
        InFirst(Unescape(output), start, |before|, k);
      }
  }

  lemma {:induction false} ResetsNeeded(output: string) returns (k: nat)
    requires ESC !in output && !ResetsInValues(output)
    ensures k < |Unescape(output)| && Unescape(output)[k] == ESC && !InValue(Unescape(output), k)
    decreases |output|
  {
    hide NextSpan, Restore, EndsWith, Bracketed, Closes, InValue;
    var (start, end) := NextSpan(output).value;
    var span := output[start..end];
    var before, rest := output[..start] + Restore(span), Unescape(output[end..]);
    SpanBracketed(output);
    FirstSpan(output);
    if Closes(span, false) {
      FirstOnly(Unescape(output), start, |before|);
      return start;
    }
    var k' := ResetsNeeded(output[end..]);
    InValueShifts(before, rest, k');
    k := |before| + k';
  }

  /** Every escape character made is in the value of a trace id if and only if each
      reset found comes before the closing quote of its value. */
  lemma EscapesInValues(output: string)
    requires ESC !in output
    ensures AllInValues(Unescape(output)) <==> ResetsInValues(output)
  {
    hide Unescape, ResetsInValues, InValue;
    if ResetsInValues(output) {
      forall k | 0 <= k < |Unescape(output)| && Unescape(output)[k] == ESC ensures InValue(Unescape(output), k) {
        ResetsSuffice(output, k);
      }
    } else {
      var k := ResetsNeeded(output);
    }
  }
}
