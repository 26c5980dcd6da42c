/** The string functions the repository uses, over ASCII text: white space and
    letter case are those of ASCII, every other character is left alone. */
module Text {
  import opened Sequences

  // White space.

  predicate IsSpace(c: char) {
    c == ' ' || '\t' <= c <= '\r'
  }

  lemma AsciiSpaces(c: char)
    ensures IsSpace(c) <==> c in " \t\n\U{0b}\U{0c}\r"
  {
    var spaces := " \t\n\U{0b}\U{0c}\r";
    assert spaces[0] == ' ' && spaces[1] == '\t' && spaces[2] == '\n';
    assert spaces[3] == '\U{0b}' && spaces[4] == '\U{0c}' && spaces[5] == '\r';
  }

  function TrimLeft(s: string): string {
    if s != "" && IsSpace(s[0]) then TrimLeft(s[1..]) else s
  }

  function TrimRight(s: string): string {
    if s != "" && IsSpace(Last(s)) then TrimRight(Front(s)) else s
  }

  /** strings.TrimSpace */
  function Trim(s: string): string {
    TrimRight(TrimLeft(s))
  }

  /** No white space at either end. */
  predicate Trimmed(s: string) {
    s != "" ==> !IsSpace(s[0]) && !IsSpace(Last(s))
  }

  lemma TrimLeftStart(s: string)
    ensures TrimLeft(s) != "" ==> !IsSpace(TrimLeft(s)[0])
  {}

  lemma {:induction false} TrimRightEnds(s: string)
    ensures TrimRight(s) <= s
    ensures TrimRight(s) != "" ==> !IsSpace(Last(TrimRight(s)))
    decreases |s|
  {
    if s != "" && IsSpace(Last(s)) {
      TrimRightEnds(Front(s));
    }
  }

  /** Trimming leaves no white space at the ends. */
  lemma TrimIsTrimmed(s: string)
    ensures Trimmed(Trim(s))
  {
    TrimLeftStart(s);
    TrimRightEnds(TrimLeft(s));
  }

  lemma {:induction false} TrimLeftKeeps(s: string)
    ensures forall c :: c in TrimLeft(s) ==> c in s
    decreases |s|
  {
    if s != "" && IsSpace(s[0]) {
      TrimLeftKeeps(s[1..]);
    }
  }

  /** Trimming only removes characters. */
  lemma TrimKeeps(s: string)
    ensures forall c :: c in Trim(s) ==> c in s
  {
    TrimLeftKeeps(s);
    TrimRightEnds(TrimLeft(s));
  }

  predicate Spaces(s: string) {
    forall i :: 0 <= i < |s| ==> IsSpace(s[i])
  }

  lemma {:induction false} TrimLeftSpec(s: string) returns (left: string)
    ensures s == left + TrimLeft(s) && Spaces(left)
    decreases |s|
  {
    left := "";
    if s != "" && IsSpace(s[0]) {
      left := TrimLeftSpec(s[1..]);
      left := [s[0]] + left;
    }
  }

  lemma {:induction false} TrimRightSpec(s: string) returns (right: string)
    ensures s == TrimRight(s) + right && Spaces(right)
    decreases |s|
  {
    right := "";
    if s != "" && IsSpace(Last(s)) {
      right := TrimRightSpec(Front(s));
      assert s == Front(s) + [Last(s)];
      right := right + [Last(s)];
    }
  }

  /** Only white space at the ends is removed. */
  lemma TrimSpec(s: string) returns (left: string, right: string)
    ensures s == left + Trim(s) + right && Spaces(left) && Spaces(right) && Trimmed(Trim(s))
  {
    left := TrimLeftSpec(s);
    right := TrimRightSpec(TrimLeft(s));
    TrimIsTrimmed(s);
  }

  lemma TrimTrimmed(s: string)
    requires Trimmed(s)
    ensures Trim(s) == s
  {}

  lemma TrimIdempotent(s: string)
    ensures Trim(Trim(s)) == Trim(s)
  {
    TrimIsTrimmed(s);
    TrimTrimmed(Trim(s));
  }

  // Letter case.

  function LowerChar(c: char): char {
    if 'A' <= c <= 'Z' then c + 32 as char else c
  }

  /** strings.ToLower */
  function Lower(s: string): string {
    seq(|s|, i requires 0 <= i < |s| => LowerChar(s[i]))
  }

  /** Equal, or the two cases of one letter. */
  predicate EqualFoldChar(a: char, b: char) {
    a == b || ('A' <= a <= 'Z' && b == a + 32 as char) || ('A' <= b <= 'Z' && a == b + 32 as char)
  }

  /** strings.EqualFold */
  predicate EqualFold(a: string, b: string) {
    |a| == |b| && forall i :: 0 <= i < |a| ==> EqualFoldChar(a[i], b[i])
  }

  lemma FoldIsLower(a: string, b: string)
    ensures EqualFold(a, b) <==> Lower(a) == Lower(b)
  {
    if |a| == |b| && Lower(a) == Lower(b) {
      forall i | 0 <= i < |a| ensures EqualFoldChar(a[i], b[i]) {
        assert Lower(a)[i] == Lower(b)[i];
      }
    }
    assert |Lower(a)| == |a| && |Lower(b)| == |b|;
  }

  // Searching.

  predicate OccursAt(s: string, pattern: string, at: int) {
    0 <= at <= |s| - |pattern| && s[at..at + |pattern|] == pattern
  }

  lemma OccursShift(s: string, pattern: string, j: int)
    requires s != "" && j > 0
    ensures OccursAt(s, pattern, j) <==> OccursAt(s[1..], pattern, j - 1)
  {
    if j <= |s| - |pattern| {
      assert s[1..][j - 1..j - 1 + |pattern|] == s[j..j + |pattern|];
    }
  }

  lemma OccursFirst(s: string, pattern: string)
    ensures OccursAt(s, pattern, 0) <==> pattern <= s
  {}

  /** `at` is where `pattern` first occurs, or -1. */
  ghost predicate FirstAt(s: string, pattern: string, at: int) {
    && (if at >= 0 then OccursAt(s, pattern, at) else at == -1 && forall j :: !OccursAt(s, pattern, j))
    && (forall j :: 0 <= j < at ==> !OccursAt(s, pattern, j))
  }

  lemma FirstShift(s: string, pattern: string, rest: int)
    requires s != "" && !(pattern <= s) && FirstAt(s[1..], pattern, rest)
    ensures FirstAt(s, pattern, if rest < 0 then -1 else rest + 1)
  {
    hide OccursAt;
    OccursFirst(s, pattern);
    NotNegative(s, pattern);
    forall j | j > 0 ensures OccursAt(s, pattern, j) <==> OccursAt(s[1..], pattern, j - 1) {
      OccursShift(s, pattern, j);
    }
  }

  lemma NotNegative(s: string, pattern: string)
    ensures forall j :: j < 0 ==> !OccursAt(s, pattern, j)
  {}

  /** strings.Index */
  function Index(s: string, pattern: string): (at: int)
    ensures FirstAt(s, pattern, at)
  {
    if pattern <= s then
      OccursFirst(s, pattern);
      0
    else if s == "" then -1
    else
      var rest := Index(s[1..], pattern);
      FirstShift(s, pattern, rest);
      if rest < 0 then -1 else rest + 1
  }

  lemma IndexIs(s: string, pattern: string, at: nat)
    requires OccursAt(s, pattern, at) && forall j :: 0 <= j < at ==> !OccursAt(s, pattern, j)
    ensures Index(s, pattern) == at
  {}

  /** strings.ReplaceAll: every leftmost, non-overlapping occurrence. */
  function ReplaceAll(s: string, old_: string, new_: string): string
    requires old_ != ""
  {
    if s == "" then ""
    else if old_ <= s then new_ + ReplaceAll(s[|old_|..], old_, new_)
    else [s[0]] + ReplaceAll(s[1..], old_, new_)
  }

  // Splitting and joining at a separator.

  /** strings.Split by one character. */
  function Split(s: string, separator: char): (parts: seq<string>)
    ensures parts != []
  {
    if s == "" then [""]
    else
      var rest := Split(s[1..], separator);
      if s[0] == separator then [""] + rest
      else [[s[0]] + rest[0]] + rest[1..]
  }

  /** strings.Join by one character. */
  function Join(parts: seq<string>, separator: char): string {
    if parts == [] then ""
    else if |parts| == 1 then parts[0]
    else parts[0] + [separator] + Join(parts[1..], separator)
  }

  // Decimal numbers.

  function Digit(n: nat): char
    requires n < 10
  {
    '0' + n as char
  }

  function Decimal(n: nat): string {
    if n < 10 then [Digit(n)] else Decimal(n / 10) + [Digit(n % 10)]
  }
}
