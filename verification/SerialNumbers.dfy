/**
 Certificate serial numbers as hexadecimal text: the canonical spelling the channel compares them in,
 and the proof that it identifies exactly the spellings of one number.
 */
module SerialNumbers {
  function ToUpper(c: char): char {
    if 'a' <= c <= 'z' then c - 32 as char else c
  }

  function Upper(s: string): (r: string)
    ensures |r| == |s| && forall i :: 0 <= i < |s| ==> r[i] == ToUpper(s[i])
  {
    seq(|s|, i requires 0 <= i < |s| => ToUpper(s[i]))
  }

  function TrimZeros(s: string): string {
    if s == "" then "0" else if s[0] == '0' then TrimZeros(s[1..]) else s
  }

  function Canonical(raw: string): string {
    TrimZeros(Upper(raw))
  }

  method NormalizeSerialHex(raw: string) returns (canonical: string)
    ensures canonical == Canonical(raw)
  {
    var upper := "";
    for i := 0 to |raw|
      invariant upper == Upper(raw)[..i]
    {
      upper := upper + [ToUpper(raw[i])];
    }
    assert upper == Upper(raw);
    var first := 0;
    while first < |upper| && upper[first] == '0'
      invariant first <= |upper| && TrimZeros(upper[first..]) == TrimZeros(upper)
    {
      first := first + 1;
    }
    if first == |upper| {
      return "0";
    }
    return upper[first..];
  }

  predicate IsHexDigit(c: char) {
    '0' <= c <= '9' || 'a' <= c <= 'f' || 'A' <= c <= 'F'
  }

  predicate IsHex(s: string) {
    forall i :: 0 <= i < |s| ==> IsHexDigit(s[i])
  }

  function HexDigit(c: char): (d: nat)
    requires IsHexDigit(c)
    ensures d < 16
  {
    if '0' <= c <= '9' then (c - '0') as nat
    else if 'a' <= c <= 'f' then (c - 'a') as nat + 10
    else (c - 'A') as nat + 10
  }

  // The number a hexadecimal text denotes.
  function HexValue(s: string): nat
    requires IsHex(s)
  {
    if s == "" then 0 else 16 * HexValue(s[..|s| - 1]) + HexDigit(s[|s| - 1])
  }

  function Pow16(n: nat): (p: nat)
    ensures p > 0
  {
    if n == 0 then 1 else 16 * Pow16(n - 1)
  }

  lemma UpperKeepsDigit(c: char)
    requires IsHexDigit(c)
    ensures IsHexDigit(ToUpper(c)) && HexDigit(ToUpper(c)) == HexDigit(c)
  {
  }

  lemma {:induction false} UpperKeepsValue(s: string)
    requires IsHex(s)
    ensures IsHex(Upper(s)) && HexValue(Upper(s)) == HexValue(s)
  {
    forall i | 0 <= i < |s|
      ensures IsHexDigit(Upper(s)[i])
    {
      UpperKeepsDigit(s[i]);
    }
    if s != "" {
      var n := |s| - 1;
      UpperKeepsValue(s[..n]);
      assert Upper(s)[..n] == Upper(s[..n]);
      UpperKeepsDigit(s[n]);
    }
  }

  lemma {:induction false} LeadingZeroKeepsValue(s: string)
    requires IsHex(s)
    ensures HexValue("0" + s) == HexValue(s)
  {
    if s == "" {
      assert "0" + s == "0" && "0"[..0] == "";
    } else {
      var n := |s| - 1;
      LeadingZeroKeepsValue(s[..n]);
      assert ("0" + s)[..n + 1] == "0" + s[..n];
    }
  }

  lemma {:induction false} TrimKeepsValue(s: string)
    requires IsHex(s)
    ensures IsHex(TrimZeros(s)) && HexValue(TrimZeros(s)) == HexValue(s)
    ensures TrimZeros(s) == "0" || (TrimZeros(s) != "" && TrimZeros(s)[0] != '0')
  {
    if s == "" {
      assert "0"[..0] == "";
    } else if s[0] == '0' {
      TrimKeepsValue(s[1..]);
      LeadingZeroKeepsValue(s[1..]);
      assert s == "0" + s[1..];
    }
  }

  lemma {:induction false} ValueBounds(s: string)
    requires IsHex(s) && s != ""
    ensures HexValue(s) < Pow16(|s|)
    ensures HexDigit(s[0]) > 0 ==> HexValue(s) >= Pow16(|s| - 1)
  {
    var n := |s| - 1;
    if n == 0 {
      assert s[..0] == "";
      assert Pow16(1) == 16 * Pow16(0);
    } else {
      ValueBounds(s[..n]);
      assert s[..n][0] == s[0];
    }
  }

  lemma SameDigitSameLetter(a: char, b: char)
    requires IsHexDigit(a) && IsHexDigit(b) && HexDigit(a) == HexDigit(b)
    ensures ToUpper(a) == ToUpper(b)
  {
    if 'a' <= a <= 'f' {
      assert ToUpper(a) as int == 'A' as int + (a as int - 'a' as int);
    }
    if 'a' <= b <= 'f' {
      assert ToUpper(b) as int == 'A' as int + (b as int - 'a' as int);
    }
  }

  lemma LastDigit(s: string)
    requires IsHex(s) && s != ""
    ensures HexDigit(s[|s| - 1]) == HexValue(s) % 16 && HexValue(s[..|s| - 1]) == HexValue(s) / 16
  {
    var q, d := HexValue(s[..|s| - 1]), HexDigit(s[|s| - 1]);
    assert HexValue(s) == 16 * q + d;
    DivideBySixteen(HexValue(s), q, d);
  }

  lemma DivideBySixteen(n: nat, q: nat, d: nat)
    requires n == 16 * q + d && d < 16
    ensures n % 16 == d && n / 16 == q
  {
  }

  lemma {:induction false} SameLengthSameValue(a: string, b: string)
    requires IsHex(a) && IsHex(b) && |a| == |b| && HexValue(a) == HexValue(b)
    ensures Upper(a) == Upper(b)
  {
    if a != "" {
      var n := |a| - 1;
      LastDigit(a);
      LastDigit(b);
      SameLengthSameValue(a[..n], b[..n]);
      SameDigitSameLetter(a[n], b[n]);
      UpperOfLast(a, n);
      UpperOfLast(b, n);
    }
  }

  lemma UpperOfLast(s: string, n: nat)
    requires n + 1 == |s|
    ensures Upper(s) == Upper(s[..n]) + [ToUpper(s[n])]
  {
    var whole, apart := Upper(s), Upper(s[..n]) + [ToUpper(s[n])];
    forall i | 0 <= i < |s|
      ensures whole[i] == apart[i]
    {
    }
  }

  lemma {:induction false} Pow16Grows(m: nat, n: nat)
    ensures m <= n ==> Pow16(m) <= Pow16(n)
    decreases n - m
  {
    if m < n {
      Pow16Grows(m + 1, n);
    }
  }

  lemma PositiveValueLength(a: string, b: string)
    requires IsHex(a) && IsHex(b) && a != "" && b != "" && a[0] != '0'
    requires HexValue(a) == HexValue(b)
    ensures |a| <= |b|
  {
    ValueBounds(a);
    ValueBounds(b);
    Pow16Grows(|b|, |a| - 1);
  }

  // Two hexadecimal spellings have one canonical form exactly when they denote the same number.
  lemma CanonicalIffSameNumber(a: string, b: string)
    requires IsHex(a) && IsHex(b)
    ensures Canonical(a) == Canonical(b) <==> HexValue(a) == HexValue(b)
  {
    UpperKeepsValue(a);
    UpperKeepsValue(b);
    TrimKeepsValue(Upper(a));
    TrimKeepsValue(Upper(b));
    var x, y := Canonical(a), Canonical(b);
    if HexValue(x) == HexValue(y) {
      assert "0"[..0] == "";
      if x[0] != '0' {
        PositiveValueLength(x, y);
      }
      if y[0] != '0' {
        PositiveValueLength(y, x);
      }
      CanonicalIsUpper(a);
      CanonicalIsUpper(b);
      SameLengthSameValue(x, y);
    }
  }

  lemma {:induction false} TrimOfUpper(s: string)
    requires Upper(s) == s
    ensures Upper(TrimZeros(s)) == TrimZeros(s)
  {
    if s != "" && s[0] == '0' {
      forall i | 0 <= i < |s[1..]| ensures Upper(s[1..])[i] == s[1..][i] {
        assert Upper(s)[i + 1] == s[i + 1];
      }
      assert Upper(s[1..]) == s[1..];
      TrimOfUpper(s[1..]);
    }
  }

  lemma CanonicalIsUpper(s: string)
    ensures Upper(Canonical(s)) == Canonical(s)
  {
    var u := Upper(s);
    forall i | 0 <= i < |u| ensures Upper(u)[i] == u[i] {
      assert u[i] == ToUpper(s[i]);
    }
    assert Upper(u) == u;
    TrimOfUpper(u);
  }

  lemma {:induction false} TrimIsNotEmpty(s: string)
    ensures TrimZeros(s) != ""
  {
    if s != "" && s[0] == '0' {
      TrimIsNotEmpty(s[1..]);
    }
  }
}
