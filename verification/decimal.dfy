/**
 Decimal rendering of non-negative integers as Python's string formatting does
 it: the `d` presentation type (shortest form, no leading zeros) and the `03d`
 format (zero-padded on the left to at least three characters). A decimal parser
 is defined beside it as the inverse the round-trip lemmas are stated against.
 */
module Decimal {

  predicate IsDigit(c: char) {
    '0' <= c <= '9'
  }

  predicate AllDigits(s: string) {
    forall i | 0 <= i < |s| :: IsDigit(s[i])
  }

  function DigitChar(d: nat): (c: char)
    requires d < 10
    ensures IsDigit(c)
  {
    ('0' as int + d) as char
  }

  function DigitValue(c: char): (d: nat)
    requires IsDigit(c)
    ensures d < 10 && DigitChar(d) == c
  {
    c as int - '0' as int
  }

  function Pow10(k: nat): (p: nat)
    ensures p >= 1
  {
    if k == 0 then 1 else 10 * Pow10(k - 1)
  }

  /** `k` zero characters. */
  function Zeros(k: nat): (z: string)
    ensures |z| == k && forall i | 0 <= i < k :: z[i] == '0'
  {
    seq(k, _ => '0')
  }

  /** The value of a string of decimal digits, most significant digit first. */
  function ParseDecimal(s: string): (n: nat)
    requires AllDigits(s)
    ensures n < Pow10(|s|)
    ensures |s| > 0 && s[0] != '0' ==> n >= Pow10(|s| - 1)
    decreases |s|
  {
    if s == [] then 0
    else
      var init := s[..|s| - 1];
      assert |init| > 0 ==> init[0] == s[0];
      ParseDecimal(init) * 10 + DigitValue(s[|s| - 1])
  }

  /** Python's `d` format (as `str`) of a non-negative `n`: the shortest decimal form. */
  function NatToDecimal(n: nat): (r: string)
    ensures |r| >= 1 && AllDigits(r)
    ensures r[0] == '0' <==> n == 0
    ensures ParseDecimal(r) == n
    decreases n
  {
    if n < 10 then
      var r := [DigitChar(n)];
      assert r[..0] == [];
      r
    else
      var init := NatToDecimal(n / 10);
      var r := init + [DigitChar(n % 10)];
      assert r[..|r| - 1] == init;
      r
  }

  /** Left-pads `s` with '0' up to `width` characters; longer strings are kept whole. */
  function PadLeftZeros(s: string, width: nat): (r: string)
    ensures |r| == if |s| >= width then |s| else width
    ensures r[|r| - |s|..] == s
    ensures forall i | 0 <= i < |r| - |s| :: r[i] == '0'
  {
    if |s| >= width then s else Zeros(width - |s|) + s
  }

  /** Python's `03d` format of a non-negative `id`: zero-padded on the left to at least three digits. */
  function Pad3(id: nat): (r: string)
    ensures AllDigits(r)
    ensures id < 1000 ==> |r| == 3
    ensures id >= 1000 ==> r == NatToDecimal(id) && |r| > 3
    ensures ParseDecimal(r) == id
  {
    var d := NatToDecimal(id);
    DecimalLength(id, 3);
    var k := if |d| < 3 then 3 - |d| else 0;
    var r := PadLeftZeros(d, 3);
    assert r == Zeros(k) + d;
    ParseLeadingZeros(k, d);
    r
  }

  lemma {:induction false} ParseZeros(k: nat)
    ensures ParseDecimal(Zeros(k)) == 0
  {
    if k > 0 {
      assert Zeros(k)[..k - 1] == Zeros(k - 1);
      ParseZeros(k - 1);
    }
  }

  /** Leading zeros do not change the value of a digit string. */
  lemma {:induction false} ParseLeadingZeros(k: nat, s: string)
    requires AllDigits(s)
    ensures AllDigits(Zeros(k) + s)
    ensures ParseDecimal(Zeros(k) + s) == ParseDecimal(s)
    decreases |s|
  {
    var z := Zeros(k) + s;
    if s == [] {
      assert z == Zeros(k);
      ParseZeros(k);
    } else {
      assert z[..|z| - 1] == Zeros(k) + s[..|s| - 1];
      ParseLeadingZeros(k, s[..|s| - 1]);
    }
  }

  /** The decimal form of `n` has at most `k` digits exactly when `n < 10^k`. */
  lemma {:induction false} DecimalLength(n: nat, k: nat)
    requires k >= 1
    ensures |NatToDecimal(n)| <= k <==> n < Pow10(k)
    decreases n
  {
    if n >= 10 {
      assert |NatToDecimal(n)| == |NatToDecimal(n / 10)| + 1;
      if k > 1 {
        DecimalLength(n / 10, k - 1);
        assert n / 10 < Pow10(k - 1) <==> n < Pow10(k);
      }
    }
  }

  /** Two digit strings of the same length with the same value are equal. */
  lemma {:induction false} DigitsUnique(s: string, t: string)
    requires AllDigits(s) && AllDigits(t) && |s| == |t|
    requires ParseDecimal(s) == ParseDecimal(t)
    ensures s == t
    decreases |s|
  {
    if s != [] {
      var ds, dt := DigitValue(s[|s| - 1]), DigitValue(t[|t| - 1]);
      var ps, pt := ParseDecimal(s[..|s| - 1]), ParseDecimal(t[..|t| - 1]);
      assert ps * 10 + ds == pt * 10 + dt;
      assert ds == dt && ps == pt;
      DigitsUnique(s[..|s| - 1], t[..|t| - 1]);
      assert s == s[..|s| - 1] + [s[|s| - 1]];
      assert t == t[..|t| - 1] + [t[|t| - 1]];
    }
  }

  /** A digit string without a superfluous leading zero is the decimal form of its value. */
  lemma {:induction false} DecimalOfParse(s: string)
    requires AllDigits(s) && |s| >= 1
    requires s[0] == '0' ==> |s| == 1
    ensures NatToDecimal(ParseDecimal(s)) == s
    decreases |s|
  {
    var init := s[..|s| - 1];
    var d := DigitValue(s[|s| - 1]);
    var n := ParseDecimal(s);
    assert n == ParseDecimal(init) * 10 + d;
    if |s| == 1 {
      assert n == d;
    } else {
      assert init[0] == s[0];
      DecimalOfParse(init);
      assert n / 10 == ParseDecimal(init) && n % 10 == d;
      assert s == init + [s[|s| - 1]];
    }
  }

  /** Distinct ids are rendered as distinct padded fields. */
  lemma Pad3Injective(a: nat, b: nat)
    requires a != b
    ensures Pad3(a) != Pad3(b)
  {
    // each padded field parses back to its own id (Pad3's contract)
  }

  /** Issue 5 is padded to "005". */
  lemma Pad3Of5()
    ensures Pad3(5) == "005"
  {
    assert NatToDecimal(5) == "5";
    assert Zeros(2) == "00";
  }

  lemma DecimalOf920()
    ensures NatToDecimal(920) == "920"
  {
    assert NatToDecimal(9) == "9";
    assert NatToDecimal(92) == NatToDecimal(9) + "2";
    assert DigitChar(0) == '0';
    assert NatToDecimal(920) == NatToDecimal(92) + [DigitChar(0)];
  }

  /** Issue 920 is rendered as "920". */
  lemma Pad3Of920()
    ensures Pad3(920) == "920"
  {
    DecimalOf920();
  }

  /** Issue 1234 keeps all four digits. */
  lemma Pad3Of1234()
    ensures Pad3(1234) == "1234"
  {
    assert NatToDecimal(12) == NatToDecimal(1) + "2";
    assert NatToDecimal(123) == NatToDecimal(12) + "3";
    assert NatToDecimal(1234) == NatToDecimal(123) + "4";
  }
}
