/** The public exponent of an RSA key, decoded from big-endian bytes as section
    6.3.1.2 of RFC 7518 has it, into a 64-bit integer. */
module RsaExponent {
  import opened Sequences
  import opened Documents
  import opened Int64

  /** The value of a big-endian byte string. */
  function BigEndian(bytes: seq<byte>): nat {
    if bytes == [] then 0 else BigEndian(Front(bytes)) * 256 + Last(bytes) as nat
  }

  function Power256(n: nat): nat {
    if n == 0 then 1 else 256 * Power256(n - 1)
  }

  lemma WrapStep(exponent: int, value: nat, next: nat)
    requires exponent == Wrap(value)
    ensures Wrap(Wrap(exponent * 256) + next) == Wrap(value * 256 + next)
  {
    var k := WrapWhole(value);
    var l := WrapWhole(exponent * 256);
    assert Wrap(exponent * 256) + next == value * 256 + next + WORD * (k * 256 + l);
    WrapShift(value * 256 + next, k * 256 + l);
  }

  /** The shift-and-add loop, wrapping around as the machine does. */
  method DecodeExponent(bytes: seq<byte>) returns (exponent: int)
    ensures exponent == Wrap(BigEndian(bytes))
  {
    exponent := 0;
    for i := 0 to |bytes|
      invariant exponent == Wrap(BigEndian(bytes[..i]))
    {
      assert Front(bytes[..i + 1]) == bytes[..i];
      WrapStep(exponent, BigEndian(bytes[..i]), bytes[i] as nat);
      exponent := Wrap(Wrap(exponent * 256) + bytes[i] as int);
    }
    assert bytes[..|bytes|] == bytes;
  }

  lemma {:induction false} BelowPower(bytes: seq<byte>)
    ensures BigEndian(bytes) < Power256(|bytes|)
    decreases |bytes|
  {
    if bytes != [] {
      BelowPower(Front(bytes));
    }
  }

  lemma {:induction false} PowerGrows(m: nat, n: nat)
    requires m <= n
    ensures 1 <= Power256(m) <= Power256(n)
    decreases n
  {
    if m < n {
      PowerGrows(m, n - 1);
    } else if n > 0 {
      PowerGrows(m - 1, n - 1);
    }
  }

  lemma Power7()
    ensures Power256(7) < HALF
  {
    assert Power256(1) == 256;
    assert Power256(3) == 256 * 256 * 256;
    assert Power256(5) == 256 * 256 * Power256(3);
  }

  /** The decoded exponent is the encoded one exactly when that fits in 63 bits,
      which it does for every string of at most seven bytes. */
  lemma ExponentExact(bytes: seq<byte>)
    ensures Wrap(BigEndian(bytes)) == BigEndian(bytes) <==> BigEndian(bytes) < HALF
    ensures |bytes| <= 7 ==> BigEndian(bytes) < HALF
  {
    BelowPower(bytes);
    if |bytes| <= 7 {
      PowerGrows(|bytes|, 7);
      Power7();
    }
  }

  lemma {:induction false} LeadingZeros(zeros: seq<byte>, bytes: seq<byte>)
    requires forall i :: 0 <= i < |zeros| ==> zeros[i] == 0
    ensures BigEndian(zeros + bytes) == BigEndian(bytes)
    decreases |zeros + bytes|
  {
    var all := zeros + bytes;
    if bytes != [] {
      assert Front(all) == zeros + Front(bytes);
      LeadingZeros(zeros, Front(bytes));
    } else if zeros != [] {
      assert all == zeros && Front(all) == Front(zeros) + [];
      LeadingZeros(Front(zeros), []);
    }
  }

  /** The shortest big-endian encoding. */
  function Minimal(n: nat): seq<byte> {
    if n == 0 then [] else Minimal(n / 256) + [(n % 256) as byte]
  }

  lemma DecodeLast(bytes: seq<byte>, last: byte)
    ensures BigEndian(bytes + [last]) == BigEndian(bytes) * 256 + last as nat
  {
    assert Front(bytes + [last]) == bytes;
  }

  lemma FirstByte(n: nat)
    requires n != 0 && (n / 256 != 0 ==> Minimal(n / 256) != [] && Minimal(n / 256)[0] != 0)
    ensures Minimal(n) != [] && Minimal(n)[0] != 0
  {}

  lemma {:induction false} DecodeMinimal(n: nat)
    ensures BigEndian(Minimal(n)) == n
    ensures n != 0 ==> Minimal(n) != [] && Minimal(n)[0] != 0
    decreases n
  {
    if n != 0 {
      DecodeMinimal(n / 256);
      DecodeLast(Minimal(n / 256), (n % 256) as byte);
      FirstByte(n);
    }
  }

  lemma {:induction false} EncodeDecoded(bytes: seq<byte>)
    requires bytes != [] ==> bytes[0] != 0
    ensures Minimal(BigEndian(bytes)) == bytes
    decreases |bytes|
  {
    if bytes != [] {
      EncodeDecoded(Front(bytes));
      NotZero(bytes);
      assert bytes == Front(bytes) + [Last(bytes)];
    }
  }

  lemma {:induction false} NotZero(bytes: seq<byte>)
    requires bytes != [] && bytes[0] != 0
    ensures BigEndian(bytes) > 0
    decreases |bytes|
  {
    if |bytes| > 1 {
      NotZero(Front(bytes));
    }
  }
}
