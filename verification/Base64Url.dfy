/** Unpadded base64url, section 5 of RFC 4648, as Go's lenient decoder reads it:
    line breaks anywhere are skipped and the spare bits of the last digit ignored. */
module Base64Url {
  import opened Sequences
  import opened Documents
  import opened Text
  import opened Modular

  /** The value of a base64url digit. */
  function Sextet(c: char): (value: int)
    ensures -1 <= value < 64
  {
    if 'A' <= c <= 'Z' then c as int - 'A' as int
    else if 'a' <= c <= 'z' then c as int - 'a' as int + 26
    else if '0' <= c <= '9' then c as int - '0' as int + 52
    else if c == '-' then 62
    else if c == '_' then 63
    else -1
  }

  predicate IsBreak(c: char) {
    c == '\n' || c == '\r'
  }

  function WithoutBreaks(s: string): string {
    if s == "" then "" else (if IsBreak(s[0]) then "" else [s[0]]) + WithoutBreaks(s[1..])
  }

  predicate AllDigits(s: string) {
    forall i :: 0 <= i < |s| ==> Sextet(s[i]) >= 0
  }

  function Byte(value: int): byte
    requires 0 <= value
  {
    (value % 256) as byte
  }

  function Bytes(digits: string): seq<byte>
    requires AllDigits(digits)
  {
    if |digits| < 2 then []
    else
      var a, b := Sextet(digits[0]), Sextet(digits[1]);
      if |digits| == 2 then [Byte(a * 4 + b / 16)]
      else
        var c := Sextet(digits[2]);
        if |digits| == 3 then [Byte(a * 4 + b / 16), Byte(b * 16 + c / 4)]
        else [Byte(a * 4 + b / 16), Byte(b * 16 + c / 4), Byte(c * 64 + Sextet(digits[3]))] + Bytes(digits[4..])
  }

  /** RawURLEncoding.DecodeString */
  function Decode(s: string): Option<seq<byte>> {
    var digits := WithoutBreaks(s);
    if AllDigits(digits) && |digits| % 4 != 1 then Some(Bytes(digits)) else None
  }

  // Encoding.

  function Digit(value: int): (c: char)
    requires 0 <= value < 64
    ensures Sextet(c) == value
  {
    if value < 26 then 'A' + value as char
    else if value < 52 then 'a' + (value - 26) as char
    else if value < 62 then '0' + (value - 52) as char
    else if value == 62 then '-'
    else '_'
  }

  function Encode(bytes: seq<byte>): string {
    if bytes == [] then ""
    else
      var a := bytes[0] as int;
      if |bytes| == 1 then [Digit(a / 4), Digit(a % 4 * 16)]
      else
        var b := bytes[1] as int;
        if |bytes| == 2 then [Digit(a / 4), Digit(a % 4 * 16 + b / 16), Digit(b % 16 * 4)]
        else
          var c := bytes[2] as int;
          [Digit(a / 4), Digit(a % 4 * 16 + b / 16), Digit(b % 16 * 4 + c / 64), Digit(c % 64)] + Encode(bytes[3..])
  }

  lemma FirstByte(a: byte, next: nat)
    requires next < 16
    ensures Byte(a as int / 4 * 4 + (a as int % 4 * 16 + next) / 16) == a
  {}

  lemma SecondByte(high: nat, b: byte, next: nat)
    requires next < 4
    ensures Byte((high * 16 + b as int / 16) * 16 + (b as int % 16 * 4 + next) / 4) == b
  {
    var low := b as int % 16;
    assert (low * 4 + next) / 4 == low;
    assert b as int / 16 * 16 + low == b as int;
    assert (high * 16 + b as int / 16) * 16 + low == b as int + 256 * high;
    ModPlus(b as int, 256, high);
  }

  lemma ThirdByte(high: nat, c: byte)
    ensures Byte((high * 4 + c as int / 64) * 64 + c as int % 64) == c
  {
    var low := c as int % 64;
    assert c as int / 64 * 64 + low == c as int;
    assert (high * 4 + c as int / 64) * 64 + low == c as int + 256 * high;
    ModPlus(c as int, 256, high);
  }

  lemma DecodeGroup(bytes: seq<byte>)
    requires 1 <= |bytes| <= 3
    ensures AllDigits(Encode(bytes)) && |Encode(bytes)| == |bytes| + 1 && Bytes(Encode(bytes)) == bytes
  {
    hide Sextet, Digit, Byte;
    var zero: byte := 0;
    if |bytes| == 3 {
      assert bytes[3..] == [] && Encode([]) == "";
    }
    var a, b := bytes[0] as int, if |bytes| > 1 then bytes[1] else zero;
    var c := if |bytes| > 2 then bytes[2] else zero;
    FirstByte(bytes[0], b as int / 16);
    SecondByte(a % 4, b, c as int / 64);
    ThirdByte(b as int % 16, c);
  }

  lemma DecodeNothing()
    ensures Encode([]) == "" && AllDigits("") && Bytes("") == []
  {}

  lemma EncodeGroup(bytes: seq<byte>)
    requires |bytes| > 3
    ensures Encode(bytes) == Encode(bytes[..3]) + Encode(bytes[3..])
  {
    hide Sextet, Digit;
    assert bytes[..3][3..] == [] && Encode([]) == "";
  }

  lemma DigitsConcat(a: string, b: string)
    requires AllDigits(a) && AllDigits(b)
    ensures AllDigits(a + b)
  {
    hide Sextet;
  }

  lemma BytesGroup(group: string, rest: string)
    requires |group| == 4 && AllDigits(group) && AllDigits(rest)
    ensures AllDigits(group + rest) && Bytes(group + rest) == Bytes(group) + Bytes(rest)
  {
    hide Byte;
    DigitsConcat(group, rest);
    hide Sextet, AllDigits;
    assert (group + rest)[4..] == rest && group[4..] == "";
  }

  lemma {:induction false} EncodedDigits(bytes: seq<byte>)
    ensures AllDigits(Encode(bytes)) && |Encode(bytes)| % 4 != 1 && Bytes(Encode(bytes)) == bytes
    decreases |bytes|
  {
    hide AllDigits, Bytes, Encode;
    if |bytes| > 3 {
      DecodeGroup(bytes[..3]);
      EncodedDigits(bytes[3..]);
      EncodeGroup(bytes);
      BytesGroup(Encode(bytes[..3]), Encode(bytes[3..]));
    } else if bytes != [] {
      DecodeGroup(bytes);
    } else {
      DecodeNothing();
    }
  }

  lemma {:induction false} DigitsKept(s: string)
    requires AllDigits(s)
    ensures WithoutBreaks(s) == s
    decreases |s|
  {
    if s != "" {
      DigitsKept(s[1..]);
    }
  }

  /** What was encoded decodes to the same bytes. */
  lemma DecodeEncoded(bytes: seq<byte>)
    ensures Decode(Encode(bytes)) == Some(bytes)
  {
    EncodedDigits(bytes);
    DigitsKept(Encode(bytes));
  }

  /** What is decoded: any number of line breaks, and digits of which a group of four
      does not have one alone at the end; three quarters of the digits are bytes. */
  lemma DecodeAccepts(s: string)
    ensures Decode(s).Some? <==>
              && (forall c :: c in s ==> 'A' <= c <= 'Z' || 'a' <= c <= 'z' || '0' <= c <= '9' || c in "-_\n\r")
              && |WithoutBreaks(s)| % 4 != 1
    ensures Decode(s).Some? ==> |Decode(s).value| == |WithoutBreaks(s)| * 3 / 4
  {
    hide Bytes, Sextet, WithoutBreaks, AllDigits, IsBreak;
    DigitsLeft(s);
    forall c ensures IsBreak(c) || Sextet(c) >= 0 <==>
                     'A' <= c <= 'Z' || 'a' <= c <= 'z' || '0' <= c <= '9' || c in "-_\n\r"
    {
      Alphabet(c);
    }
    if AllDigits(WithoutBreaks(s)) {
      BytesLength(WithoutBreaks(s));
    }
  }

  lemma Alphabet(c: char)
    ensures IsBreak(c) || Sextet(c) >= 0 <==>
            'A' <= c <= 'Z' || 'a' <= c <= 'z' || '0' <= c <= '9' || c in "-_\n\r"
  {
    var others := "-_\n\r";
    assert others[0] == '-' && others[1] == '_' && others[2] == '\n' && others[3] == '\r';
  }

  lemma {:induction false} DigitsLeft(s: string)
    ensures AllDigits(WithoutBreaks(s)) <==> forall i :: 0 <= i < |s| ==> IsBreak(s[i]) || Sextet(s[i]) >= 0
    decreases |s|
  {
    hide Sextet, IsBreak;
    if s != "" {
      DigitsLeft(s[1..]);
      var rest := WithoutBreaks(s[1..]);
      assert WithoutBreaks(s) == if IsBreak(s[0]) then rest else [s[0]] + rest;
      assert forall i :: 0 <= i < |s[1..]| ==> s[1..][i] == s[i + 1];
      assert forall i :: 0 < i < |s| ==> s[i] == s[1..][i - 1];
      AllDigitsFirst(s[0], rest);
    }
  }

  lemma AllDigitsFirst(c: char, rest: string)
    ensures AllDigits([c] + rest) <==> Sextet(c) >= 0 && AllDigits(rest)
  {
    hide Sextet;
    var all := [c] + rest;
    assert forall i :: 0 <= i < |rest| ==> all[i + 1] == rest[i];
    assert forall i :: 0 < i < |all| ==> all[i] == rest[i - 1];
    assert all[0] == c;
  }

  lemma {:induction false} BytesLength(digits: string)
    requires AllDigits(digits)
    ensures |digits| % 4 != 1 ==> |Bytes(digits)| == |digits| * 3 / 4
    decreases |digits|
  {
    hide Sextet, Byte;
    if |digits| >= 4 {
      BytesLength(digits[4..]);
    }
  }

  // Decoding and encoding again.

  lemma DigitOf(c: char)
    requires Sextet(c) >= 0
    ensures Digit(Sextet(c)) == c
  {}

  lemma Parts4(high: nat, low: nat)
    requires low < 4
    ensures (high * 4 + low) / 4 == high && (high * 4 + low) % 4 == low
  {}

  lemma Parts16(high: nat, low: nat)
    requires low < 16
    ensures (high * 16 + low) / 16 == high && (high * 16 + low) % 16 == low
  {}

  lemma Parts64(high: nat, low: nat)
    requires low < 64
    ensures (high * 64 + low) / 64 == high && (high * 64 + low) % 64 == low
  {}

  lemma Split2(a: nat, b: nat)
    requires a < 64 && b < 64
    ensures var v := Byte(a * 4 + b / 16) as int; v / 4 == a && v % 4 == b / 16
  {
    Parts4(a, b / 16);
    assert a * 4 + b / 16 < 256;
  }

  /** What is above eight bits is lost. */
  lemma ByteOf(n: nat, k: nat)
    requires n < 256
    ensures Byte(n + 256 * k) as int == n
  {
    ModPlus(n, 256, k);
  }

  lemma Divided(n: nat, m: nat) returns (high: nat, low: nat)
    requires m > 0
    ensures high == n / m && low == n % m && n == high * m + low
  {
    high, low := n / m, n % m;
  }

  lemma Split3(b: nat, c: nat)
    requires b < 64 && c < 64
    ensures var w := Byte(b * 16 + c / 4) as int; w / 16 == b % 16 && w % 16 == c / 4
  {
    hide Byte;
    var k, h := Divided(b, 16);
    var l, _ := Divided(c, 4);
    ByteOf(h * 16 + l, k);
    assert b * 16 + l == h * 16 + l + 256 * k;
    Parts16(h, l);
  }

  lemma Split4(c: nat, d: nat)
    requires c < 64 && d < 64
    ensures var u := Byte(c * 64 + d) as int; u / 64 == c % 4 && u % 64 == d
  {
    hide Byte;
    var k, h := Divided(c, 4);
    ByteOf(h * 64 + d, k);
    assert c * 64 + d == h * 64 + d + 256 * k;
    Parts64(h, d);
  }

  /** The bits of the last digit that belong to no byte. */
  function Spare(digits: string): (bits: nat)
    ensures bits > 0
  {
    if |digits| % 4 == 2 then 16 else if |digits| % 4 == 3 then 4 else 1
  }

  /** The same digits, but for the spare bits of the last one. */
  predicate SameButSpare(s: string, digits: string) {
    && |s| == |digits|
    && (forall i :: 0 <= i < |s| - 1 ==> s[i] == digits[i])
    && (s != "" ==> Sextet(Last(s)) / Spare(digits) == Sextet(Last(digits)) / Spare(digits))
  }

  lemma SpareCleared(s: string, digits: string)
    requires |s| == |digits| && 2 <= |s| <= 3 && AllDigits(digits)
    requires forall i :: 0 <= i < |s| - 1 ==> s[i] == digits[i]
    requires Sextet(Last(s)) == Sextet(Last(digits)) / Spare(digits) * Spare(digits)
    ensures SameButSpare(s, digits)
  {
    hide Sextet;
    var q := Sextet(Last(digits));
    Parts4(q / 4, 0);
    Parts16(q / 16, 0);
  }

  lemma EncodeOne(v: byte)
    ensures Encode([v]) == [Digit(v as int / 4), Digit(v as int % 4 * 16)]
  {}

  lemma EncodeBytes2(digits: string)
    requires AllDigits(digits) && |digits| == 2
    ensures SameButSpare(Encode(Bytes(digits)), digits)
  {
    hide Sextet, Byte, Digit, Encode, SameButSpare;
    var a, b := Sextet(digits[0]), Sextet(digits[1]);
    var v := Byte(a * 4 + b / 16);
    assert Bytes(digits) == [v];
    EncodeOne(v);
    Split2(a, b);
    DigitOf(digits[0]);
    assert Encode([v]) == [digits[0], Digit(b / 16 * 16)];
    SpareCleared(Encode([v]), digits);
  }

  lemma EncodeTwo(v: byte, w: byte)
    ensures var (i, j) := (v as int, w as int);
            Encode([v, w]) == [Digit(i / 4), Digit(i % 4 * 16 + j / 16), Digit(j % 16 * 4)]
  {}

  lemma EncodeThree(v: byte, w: byte, u: byte)
    ensures var (i, j, k) := (v as int, w as int, u as int);
            Encode([v, w, u]) == [Digit(i / 4), Digit(i % 4 * 16 + j / 16), Digit(j % 16 * 4 + k / 64), Digit(k % 64)]
  {
    hide Digit;
    assert [v, w, u][3..] == [] && Encode([]) == "";
  }

  lemma BytesOf(digits: string)
    requires AllDigits(digits) && 3 <= |digits| <= 4
    ensures var (a, b, c) := (Sextet(digits[0]), Sextet(digits[1]), Sextet(digits[2]));
            Bytes(digits) == if |digits| == 3 then [Byte(a * 4 + b / 16), Byte(b * 16 + c / 4)]
                             else [Byte(a * 4 + b / 16), Byte(b * 16 + c / 4), Byte(c * 64 + Sextet(digits[3]))]
  {
    hide Sextet, Byte;
    if |digits| == 4 {
      assert Bytes(digits[4..]) == [];
    }
  }

  lemma EncodeBytes3(digits: string)
    requires AllDigits(digits) && |digits| == 3
    ensures SameButSpare(Encode(Bytes(digits)), digits)
  {
    hide Sextet, Byte, Digit, Bytes, Encode, SameButSpare;
    var a, b, c := Sextet(digits[0]), Sextet(digits[1]), Sextet(digits[2]);
    var v, w := Byte(a * 4 + b / 16), Byte(b * 16 + c / 4);
    BytesOf(digits);
    EncodeTwo(v, w);
    Split2(a, b);
    Split3(b, c);
    Rejoin(b, c);
    DigitOf(digits[0]);
    DigitOf(digits[1]);
    var e := Encode(Bytes(digits));
    assert Bytes(digits) == [v, w];
    assert v as int % 4 * 16 + w as int / 16 == b && w as int % 16 * 4 == c / 4 * 4;
    assert e == [digits[0], digits[1], Digit(c / 4 * 4)];
    SpareCleared(e, digits);
  }

  lemma Rejoin(b: nat, c: nat)
    ensures b / 16 * 16 + b % 16 == b && c / 4 * 4 + c % 4 == c
  {}

  lemma EncodeBytes4(digits: string)
    requires AllDigits(digits) && |digits| == 4
    ensures Encode(Bytes(digits)) == digits
  {
    hide Sextet, Byte, Digit, Bytes, Encode;
    var a, b, c, d := Sextet(digits[0]), Sextet(digits[1]), Sextet(digits[2]), Sextet(digits[3]);
    var v, w, u := Byte(a * 4 + b / 16), Byte(b * 16 + c / 4), Byte(c * 64 + d);
    BytesOf(digits);
    EncodeThree(v, w, u);
    Split2(a, b);
    Split3(b, c);
    Split4(c, d);
    Rejoin(b, c);
    DigitOf(digits[0]);
    DigitOf(digits[1]);
    DigitOf(digits[2]);
    DigitOf(digits[3]);
    assert Bytes(digits) == [v, w, u];
    assert v as int % 4 * 16 + w as int / 16 == b && w as int % 16 * 4 + u as int / 64 == c;
    assert Encode(Bytes(digits)) == [digits[0], digits[1], digits[2], digits[3]];
  }

  /** Decoding digits and encoding the bytes gives the digits back, but for the spare bits. */
  lemma {:induction false} Reencoded(digits: string)
    requires AllDigits(digits) && |digits| % 4 != 1
    ensures SameButSpare(Encode(Bytes(digits)), digits)
    decreases |digits|
  {
    hide Sextet, Byte, Digit, Bytes, Encode;
    if digits == "" {
      DecodeNothing();
    } else if |digits| == 2 {
      EncodeBytes2(digits);
    } else if |digits| == 3 {
      EncodeBytes3(digits);
    } else {
      var group, rest := digits[..4], digits[4..];
      Reencoded(rest);
      EncodeBytes4(group);
      BytesGroup(group, rest);
      assert group + rest == digits;
      GroupLength(group);
      EncodeMore(Bytes(group), Bytes(rest));
      assert Encode(Bytes(digits)) == group + Encode(Bytes(rest));
    }
  }

  lemma GroupLength(group: string)
    requires |group| == 4 && AllDigits(group)
    ensures |Bytes(group)| == 3
  {
    hide Sextet, Byte;
    assert Bytes(group[4..]) == [];
  }

  lemma EncodeMore(a: seq<byte>, b: seq<byte>)
    requires |a| == 3
    ensures Encode(a + b) == Encode(a) + Encode(b)
  {
    hide Encode;
    if b == [] {
      DecodeNothing();
      assert a + b == a;
    } else {
      EncodeGroup(a + b);
      assert (a + b)[..3] == a && (a + b)[3..] == b;
    }
  }

  // Outer white space.

  lemma {:induction false} BreaksConcat(a: string, b: string)
    ensures WithoutBreaks(a + b) == WithoutBreaks(a) + WithoutBreaks(b)
    decreases |a|
  {
    if a == "" {
      assert a + b == b;
    } else {
      assert (a + b)[1..] == a[1..] + b;
      BreaksConcat(a[1..], b);
    }
  }

  lemma BreakLast(s: string)
    requires s != ""
    ensures WithoutBreaks(s) == WithoutBreaks(Front(s)) + if IsBreak(Last(s)) then "" else [Last(s)]
  {
    assert s == Front(s) + [Last(s)];
    BreaksConcat(Front(s), [Last(s)]);
    assert [Last(s)][1..] == "";
  }

  lemma {:induction false} LeftBreaks(s: string)
    ensures var digits := WithoutBreaks(s);
            (digits != "" && IsSpace(digits[0])) || WithoutBreaks(TrimLeft(s)) == digits
    decreases |s|
  {
    if s != "" && IsSpace(s[0]) && IsBreak(s[0]) {
      LeftBreaks(s[1..]);
    }
  }

  lemma {:induction false} RightBreaks(s: string)
    ensures var digits := WithoutBreaks(s);
            (digits != "" && IsSpace(Last(digits))) || WithoutBreaks(TrimRight(s)) == digits
    decreases |s|
  {
    if s != "" && IsSpace(Last(s)) {
      BreakLast(s);
      if IsBreak(Last(s)) {
        RightBreaks(Front(s));
      }
    }
  }

  /** Trimming first makes a difference exactly for outer white space other than line breaks. */
  lemma TrimThenDecode(s: string)
    ensures Decode(s) == if Trimmed(WithoutBreaks(s)) then Decode(Trim(s)) else None
  {
    hide WithoutBreaks, TrimLeft, TrimRight, Bytes;
    LeftBreaks(s);
    RightBreaks(TrimLeft(s));
    SpaceIsNoDigit();
    var digits := WithoutBreaks(s);
    if !Trimmed(digits) {
      assert Sextet(digits[0]) < 0 || Sextet(Last(digits)) < 0;
    }
  }

  lemma SpaceKept()
    ensures WithoutBreaks(" ") == " "
  {
    assert " "[1..] == "";
  }

  lemma SpaceIsNoDigit()
    ensures forall c :: IsSpace(c) ==> Sextet(c) == -1
  {}
}
