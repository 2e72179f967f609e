/**
 * `text_to_number` of ranking_scrapper.py: a total conversion of a cell's text
 * to a number that yields `None` where Python's `float()` raises.
 *
 * The accepted language is the decimal subset of `float()`: an optional sign,
 * then digits with at most one '.', and at least one digit ("12", "-3", "12.5",
 * "5.", ".5"). The value is the exact rational the numeral denotes.
 */
module NumberText {
  import opened Wrappers

  predicate IsDigit(c: char) { '0' <= c <= '9' }

  predicate AllDigits(s: string) { forall i :: 0 <= i < |s| ==> IsDigit(s[i]) }

  function DigitValue(c: char): nat
    requires IsDigit(c)
  {
    c as int - '0' as int
  }

  /** The value of a digit string, most significant digit first; "" denotes 0. */
  function DigitsValue(s: string): nat
    requires AllDigits(s)
  {
    if s == [] then 0 else DigitsValue(s[..|s| - 1]) * 10 + DigitValue(s[|s| - 1])
  }

  function Pow10(k: nat): (p: nat)
    ensures p >= 1
  {
    if k == 0 then 1 else 10 * Pow10(k - 1)
  }

  /** Position of the first '.' of s, or |s| when s has none. */
  function DotIndex(s: string): (k: nat)
    ensures k <= |s|
    ensures k < |s| ==> s[k] == '.'
    ensures forall i :: 0 <= i < k ==> s[i] != '.'
  {
    if s == [] || s[0] == '.' then 0 else 1 + DotIndex(s[1..])
  }

  /** The value of the digits after the decimal point. */
  function FractionValue(frac: string): real
    requires AllDigits(frac)
  {
    if frac == [] then 0.0 else DigitsValue(frac) as real / Pow10(|frac|) as real
  }

  /** Digits, an optional '.' and more digits, with at least one digit in all. */
  function ParseUnsigned(t: string): Option<real>
  {
    var k := DotIndex(t);
    ParseParts(t[..k], if k < |t| then t[k + 1..] else "")
  }

  /** The number with integer digits `whole` and fractional digits `frac`, if both are digit strings. */
  function ParseParts(whole: string, frac: string): Option<real>
  {
    if AllDigits(whole) && AllDigits(frac) && |whole| + |frac| > 0 then
      Some(DigitsValue(whole) as real + FractionValue(frac))
    else
      None
  }

  /** The text after a leading '+' or '-', if there is one. */
  function Unsigned(s: string): string
  {
    if |s| > 0 && (s[0] == '+' || s[0] == '-') then s[1..] else s
  }

  /** `float(s)` on success, `None` where `float(s)` raises; never fails itself. */
  function TextToNumber(s: string): Option<real>
  {
    if |s| > 0 && (s[0] == '+' || s[0] == '-') then
      match ParseUnsigned(s[1..])
      case None => None
      case Some(v) => Some(if s[0] == '-' then -v else v)
    else
      ParseUnsigned(s)
  }

  /**
   * The unsigned numerals, described character by character rather than by
   * the split at the first dot: only digits and '.', no two dots, some digit.
   */
  ghost predicate IsUnsignedNumeral(t: string)
  {
    && (forall i :: 0 <= i < |t| ==> IsDigit(t[i]) || t[i] == '.')
    && (forall i, j :: 0 <= i < j < |t| && t[i] == '.' ==> t[j] != '.')
    && (exists i :: 0 <= i < |t| && IsDigit(t[i]))
  }

  /** The texts `float()` accepts in this model: an optional sign, then an unsigned numeral. */
  ghost predicate IsNumeral(s: string)
  {
    IsUnsignedNumeral(Unsigned(s))
  }

  lemma ParseUnsignedAccepts(t: string)
    ensures ParseUnsigned(t).Some? <==> IsUnsignedNumeral(t)
  {
    var k := DotIndex(t);
    var whole := t[..k];
    var frac := if k < |t| then t[k + 1..] else "";
    if ParseUnsigned(t).Some? {
      assert AllDigits(whole) && AllDigits(frac) && |whole| + |frac| > 0;
      forall i | 0 <= i < |t| && i != k
        ensures IsDigit(t[i])
      {
        if i < k {
          assert t[i] == whole[i];
        } else {
          assert t[i] == frac[i - k - 1];
        }
      }
      if |whole| > 0 {
        assert IsDigit(t[0]);
      } else {
        assert IsDigit(t[k + 1]);
      }
    }
    if IsUnsignedNumeral(t) {
      forall i | 0 <= i < |frac|
        ensures IsDigit(frac[i])
      {
        assert frac[i] == t[k + 1 + i];
      }
      var d :| 0 <= d < |t| && IsDigit(t[d]);
      assert d < k || k < d;
    }
  }

  /** `TextToNumber` never fails, and gives a number exactly for the numerals. */
  lemma TextToNumberAccepts(s: string)
    ensures TextToNumber(s).Some? <==> IsNumeral(s)
  {
    ParseUnsignedAccepts(Unsigned(s));
  }

  function DigitChar(d: nat): (c: char)
    requires d < 10
    ensures IsDigit(c) && DigitValue(c) == d
  {
    ('0' as int + d) as char
  }

  /** The decimal spelling of n, as `str(n)` writes it. */
  function NatToText(n: nat): (s: string)
    ensures AllDigits(s) && |s| > 0
  {
    if n < 10 then [DigitChar(n)] else NatToText(n / 10) + [DigitChar(n % 10)]
  }

  /** The decimal spelling of an integer, with '-' for negative values. */
  function IntToText(n: int): string
  {
    if n < 0 then "-" + NatToText(-n) else NatToText(n)
  }

  lemma {:induction false} NatToTextValue(n: nat)
    ensures DigitsValue(NatToText(n)) == n
  {
    var s := NatToText(n);
    if n >= 10 {
      NatToTextValue(n / 10);
      assert s[..|s| - 1] == NatToText(n / 10);
    }
  }

  lemma ParseUnsignedDigits(t: string)
    requires AllDigits(t) && |t| > 0
    ensures ParseUnsigned(t) == Some(DigitsValue(t) as real)
  {
    var k := DotIndex(t);
    assert k == |t|;
    assert t[..k] == t;
    assert FractionValue("") == 0.0;
  }

  /** Reading back the spelling of any integer gives that integer. */
  lemma TextToNumberOfInt(n: int)
    ensures TextToNumber(IntToText(n)) == Some(n as real)
  {
    if n < 0 {
      var s := IntToText(n);
      assert s[1..] == NatToText(-n);
      ParseUnsignedDigits(NatToText(-n));
      NatToTextValue(-n);
    } else {
      ParseUnsignedDigits(NatToText(n));
      NatToTextValue(n);
    }
  }

  /** Cells a standings table typically holds, converted as `float()` would. */
  lemma TextToNumberExamples()
    ensures TextToNumber("12") == Some(12.0)
    ensures TextToNumber("12.5") == Some(12.5)
    ensures TextToNumber("-3") == Some(-3.0)
    ensures TextToNumber("") == None
    ensures TextToNumber("N/A") == None
  {
    TextToNumberOfInt(12);
    TextToNumberOfInt(-3);
    var t := "12.5";
    assert DotIndex(t) == 2 by {
      assert DotIndex(t[2..]) == 0;
      assert DotIndex(t[1..]) == 1;
    }
    assert t[..2] == "12" && t[3..] == "5";
    assert DigitsValue("12") == 12 by {
      assert "12"[..1] == "1";
    }
    assert DigitsValue("5") == 5 by {
      assert "5"[..0] == "";
    }
    assert TextToNumber("N/A") == None by {
      assert DotIndex("N/A") == 3 by {
        assert "N/A"[1..] == "/A" && "/A"[1..] == "A" && "A"[1..] == "";
      }
      assert !IsDigit("N/A"[..3][0]);
    }
  }

  lemma ShiftStep(a: nat, p: nat, b: nat, d: nat)
    ensures (a * p + b) * 10 + d == a * (p * 10) + (b * 10 + d)
  {
  }

  lemma {:induction false} DigitsValueAppend(w: string, f: string)
    requires AllDigits(w) && AllDigits(f)
    ensures AllDigits(w + f)
    ensures DigitsValue(w + f) == DigitsValue(w) * Pow10(|f|) + DigitsValue(f)
  {
    if f == [] {
      assert w + f == w;
    } else {
      var init := f[..|f| - 1];
      var d := DigitValue(f[|f| - 1]);
      DigitsValueAppend(w, init);
      var wf := w + f;
      assert wf[..|wf| - 1] == w + init;
      assert wf[|wf| - 1] == f[|f| - 1];
      assert DigitsValue(wf) == DigitsValue(w + init) * 10 + d;
      assert DigitsValue(f) == DigitsValue(init) * 10 + d;
      assert Pow10(|f|) == Pow10(|init|) * 10;
      ShiftStep(DigitsValue(w), Pow10(|init|), DigitsValue(init), d);
    }
  }

  /** Unfolds `ParseParts` for two digit strings, away from any other text. */
  lemma ParsePartsOfDigits(w: string, f: string)
    requires AllDigits(w) && AllDigits(f) && |w| + |f| > 0
    ensures ParseParts(w, f) == Some(DigitsValue(w) as real + FractionValue(f))
  {}

  /** Digits, then '.', then digits: the '.' is the first dot and splits the text there. */
  lemma ParseUnsignedSplit(w: string, f: string)
    requires AllDigits(w) && AllDigits(f) && |w| + |f| > 0
    ensures ParseUnsigned(w + "." + f) == Some(DigitsValue(w) as real + FractionValue(f))
  {
    ParsePartsOfDigits(w, f);
    var t := w + "." + f;
    DotIndexAfterDigits(w, f);
    assert t[..|w|] == w;
    assert t[|w| + 1..] == f;
  }

  lemma DotIndexAfterDigits(w: string, f: string)
    requires AllDigits(w)
    ensures DotIndex(w + "." + f) == |w|
  {
    var t := w + "." + f;
    assert t[|w|] == '.';
  }

  /**
   * The value of a numeral with a decimal point, stated without the split at
   * the dot: all its digits read as one integer, scaled down by ten to the
   * number of fractional digits; a leading '-' negates it, a leading '+' does not.
   */
  lemma TextToNumberDecimal(w: string, f: string)
    requires AllDigits(w) && AllDigits(f) && |w| + |f| > 0
    ensures AllDigits(w + f)
    ensures TextToNumber(w + "." + f) == Some(DigitsValue(w + f) as real / Pow10(|f|) as real)
    ensures TextToNumber("+" + w + "." + f) == TextToNumber(w + "." + f)
    ensures TextToNumber("-" + w + "." + f) == Some(-TextToNumber(w + "." + f).value)
  {
    var t := w + "." + f;
    assert "+" + w + "." + f == ['+'] + t;
    assert "-" + w + "." + f == ['-'] + t;
    assert t[0] != '+' && t[0] != '-' by {
      if |w| > 0 {
        assert t[0] == w[0];
      }
    }
    ParseUnsignedSplit(w, f);
    SignForms(t);
    DecimalValue(w, f);
  }

  /** On an unsigned numeral, a leading '+' keeps the value and a leading '-' negates it. */
  lemma SignForms(t: string)
    requires ParseUnsigned(t).Some?
    requires t != [] && t[0] != '+' && t[0] != '-'
    ensures TextToNumber(t) == ParseUnsigned(t)
    ensures TextToNumber(['+'] + t) == TextToNumber(t)
    ensures TextToNumber(['-'] + t) == Some(-TextToNumber(t).value)
  {
    assert (['+'] + t)[1..] == t;
    assert (['-'] + t)[1..] == t;
  }

  /** Whole part plus fraction equals all the digits scaled down by the fraction's length. */
  lemma DecimalValue(w: string, f: string)
    requires AllDigits(w) && AllDigits(f)
    ensures AllDigits(w + f)
    ensures DigitsValue(w) as real + FractionValue(f) == DigitsValue(w + f) as real / Pow10(|f|) as real
  {
    DigitsValueAppend(w, f);
    var p := Pow10(|f|);
    CastScaled(DigitsValue(w + f), DigitsValue(w), p, DigitsValue(f));
    if f == [] {
      assert FractionValue(f) == 0.0;
    }
  }

  lemma CastScaled(n: nat, a: nat, p: nat, b: nat)
    requires p >= 1 && n == a * p + b
    ensures n as real / p as real == a as real + b as real / p as real
  {
    var pr := p as real;
    assert (a * p) as real == a as real * pr;
    assert n as real == a as real * pr + b as real;
    assert (a as real * pr + b as real) / pr == a as real + b as real / pr;
  }
}
