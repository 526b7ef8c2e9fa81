/**
 * `age_to_num`: the leading integer of an age string such as "18 Years".
 * The first whitespace token goes through Python's `int()`, which takes an
 * optional sign and decimal digits with single underscores between digits.
 * Any failure gives None.
 */
module Age {
  import opened Base
  import opened Text

  predicate IsDigit(c: char) { '0' <= c <= '9' }

  function DigitValue(c: char): (d: nat)
    requires IsDigit(c)
    ensures d < 10
  {
    c as int - '0' as int
  }

  function DigitChar(d: nat): (c: char)
    requires d < 10
    ensures IsDigit(c) && DigitValue(c) == d
  {
    ('0' as int + d) as char
  }

  /** The characters `int()` can accept after the sign: digits and underscores. */
  predicate IsNumeral(c: char) { IsDigit(c) || c == '_' }

  /**
   * The value of `digit (["_"] digit)*`, read from the right: the text must
   * end in a digit, and an underscore must have a digit on each side.
   */
  function ParseDigits(s: string): (r: Option<nat>)
    ensures r.Some? ==> s != [] && IsDigit(s[0]) && IsDigit(s[|s| - 1])
    ensures r.Some? ==> forall k :: 0 <= k < |s| ==> IsNumeral(s[k])
    decreases |s|
  {
    if s == [] || !IsDigit(s[|s| - 1]) then None
    else
      var d := DigitValue(s[|s| - 1]);
      var rest := s[..|s| - 1];
      if rest == [] then Some(d)
      else
        var digits := if rest[|rest| - 1] == '_' then rest[..|rest| - 1] else rest;
        match ParseDigits(digits)
        case None => None
        case Some(v) =>
          assert forall k :: 0 <= k < |digits| ==> digits[k] == s[k];
          Some(10 * v + d)
  }

  /**
   * The grammar `digit ("_"? digit)*` that `int()` accepts after the sign:
   * digits and underscores, a digit at both ends, and no underscore after an underscore.
   */
  predicate IsUnderscoredNumeral(s: string) {
    s != [] && IsDigit(s[0]) && IsDigit(s[|s| - 1])
    && (forall k :: 0 <= k < |s| ==> IsNumeral(s[k]))
    && (forall k :: 0 < k < |s| && s[k] == '_' ==> s[k - 1] != '_')
  }

  /** The text with its underscores removed. */
  function DropUnderscores(s: string): (r: string)
    ensures |r| <= |s|
    decreases |s|
  {
    if s == [] then []
    else DropUnderscores(s[..|s| - 1]) + (if s[|s| - 1] == '_' then [] else [s[|s| - 1]])
  }

  predicate AllDigits(s: string) {
    forall k :: 0 <= k < |s| ==> IsDigit(s[k])
  }

  /** The value of a string of decimal digits, most significant first. */
  function DecimalValue(d: string): nat
    requires AllDigits(d)
    decreases |d|
  {
    if d == [] then 0 else 10 * DecimalValue(d[..|d| - 1]) + DigitValue(d[|d| - 1])
  }

  /** Removing the underscores from digits and underscores leaves digits only. */
  lemma {:induction false} DropUnderscoresDigits(s: string)
    requires forall k :: 0 <= k < |s| ==> IsNumeral(s[k])
    ensures AllDigits(DropUnderscores(s))
    decreases |s|
  {
    if s != [] {
      var init := s[..|s| - 1];
      assert forall k :: 0 <= k < |init| ==> init[k] == s[k];
      DropUnderscoresDigits(init);
    }
  }

  /** A numeral extended by a digit, where the numeral does not end in an underscore. */
  lemma NumeralSnocDigit(u: string, c: char)
    requires IsDigit(c) && u != [] && u[|u| - 1] != '_'
    ensures IsUnderscoredNumeral(u + [c]) <==> IsUnderscoredNumeral(u)
  {
    var s := u + [c];
    assert forall k :: 0 <= k < |u| ==> s[k] == u[k];
  }

  /** A numeral extended by an underscore and a digit. */
  lemma NumeralSnocUnderscore(u: string, c: char)
    requires IsDigit(c)
    ensures IsUnderscoredNumeral(u + ['_'] + [c]) <==> IsUnderscoredNumeral(u)
  {
    var s := u + ['_'] + [c];
    assert forall k :: 0 <= k < |u| ==> s[k] == u[k];
    assert s[|u|] == '_' && s[|u| + 1] == c;
    if IsUnderscoredNumeral(s) {
      assert s[0] != '_';
      assert u != [];
      assert s[|u| - 1] != '_';
    }
  }

  /**
   * `ParseDigits` accepts exactly the numerals of the grammar, and its value is
   * the decimal value of the digits once the underscores are removed.
   */
  lemma {:induction false} ParseDigitsSpec(s: string)
    ensures ParseDigits(s).Some? <==> IsUnderscoredNumeral(s)
    ensures ParseDigits(s).Some? ==>
              AllDigits(DropUnderscores(s)) && ParseDigits(s).value == DecimalValue(DropUnderscores(s))
    decreases |s|
  {
    if s != [] && IsDigit(s[|s| - 1]) {
      var c := s[|s| - 1];
      var init := s[..|s| - 1];
      assert s == init + [c];
      if init == [] {
        assert DropUnderscores(s) == DropUnderscores([]) + [c];
        assert DropUnderscores(s) == [c];
      } else if init[|init| - 1] == '_' {
        var digits := init[..|init| - 1];
        assert init == digits + ['_'];
        ParseDigitsSpec(digits);
        NumeralSnocUnderscore(digits, c);
        assert DropUnderscores(init) == DropUnderscores(digits);
        assert DropUnderscores(s) == DropUnderscores(digits) + [c];
        if ParseDigits(s).Some? {
          var dd := DropUnderscores(digits);
          assert (dd + [c])[..|dd|] == dd;
        }
      } else {
        ParseDigitsSpec(init);
        NumeralSnocDigit(init, c);
        assert DropUnderscores(s) == DropUnderscores(init) + [c];
        if ParseDigits(s).Some? {
          var dd := DropUnderscores(init);
          assert (dd + [c])[..|dd|] == dd;
        }
      }
      if ParseDigits(s).Some? {
        DropUnderscoresDigits(s);
      }
    }
  }

  /** Python's `int(token)` for a token without whitespace; None where it raises `ValueError`. */
  function ParseInt(t: string): (r: Option<int>)
    ensures r.Some? ==> t != [] && forall k :: 0 < k < |t| ==> IsNumeral(t[k])
    ensures r.Some? ==> IsDigit(t[0]) || t[0] == '+' || t[0] == '-'
  {
    if t != [] && (t[0] == '+' || t[0] == '-') then
      match ParseDigits(t[1..])
      case None => None
      case Some(v) =>
        assert forall k: int :: 0 < k < |t| ==> t[k] == t[1..][k - 1];
        var signed: int := if t[0] == '-' then -(v as int) else v;
        Some(signed)
    else
      match ParseDigits(t)
      case None => None
      case Some(v) => Some(v)
  }

  /** The value of a numeral of the grammar. */
  function NumeralValue(s: string): nat
    requires IsUnderscoredNumeral(s)
  {
    DropUnderscoresDigits(s);
    DecimalValue(DropUnderscores(s))
  }

  /**
   * `int()` accepts exactly a numeral of the grammar, optionally after one sign,
   * and gives its value, negated after a '-'.
   */
  lemma ParseIntSpec(t: string)
    ensures ParseInt(t).Some? <==>
              IsUnderscoredNumeral(t) || (t != [] && (t[0] == '+' || t[0] == '-') && IsUnderscoredNumeral(t[1..]))
    ensures ParseInt(t).Some? && IsDigit(t[0]) ==> ParseInt(t).value == NumeralValue(t)
    ensures ParseInt(t).Some? && t[0] == '+' ==> ParseInt(t).value == NumeralValue(t[1..])
    ensures ParseInt(t).Some? && t[0] == '-' ==> ParseInt(t).value == -(NumeralValue(t[1..]) as int)
  {
    ParseDigitsSpec(t);
    if t != [] {
      ParseDigitsSpec(t[1..]);
    }
  }

  /** Underscores between digits are accepted: `int("1_000")` is 1000. */
  lemma UnderscoreExample()
    ensures ParseInt("1_000") == Some(1000)
  {
    assert "1_000"[..4] == "1_00" && "1_00"[..3] == "1_0" && "1_0"[..2] == "1_" && "1_"[..1] == "1";
    assert ParseDigits("1") == Some(1);
    assert ParseDigits("1_0") == Some(10);
    assert ParseDigits("1_00") == Some(100);
    assert ParseDigits("1_000") == Some(1000);
  }

  /** Leading zeros are accepted: `int("007")` is 7 and `int("-0_5")` is -5. */
  lemma LeadingZeroExample()
    ensures ParseInt("007") == Some(7)
    ensures ParseInt("-0_5") == Some(-5)
  {
    assert "007"[..2] == "00" && "00"[..1] == "0";
    assert ParseDigits("0") == Some(0);
    assert ParseDigits("00") == Some(0);
    assert ParseDigits("007") == Some(7);
    assert "-0_5"[1..] == "0_5" && "0_5"[..2] == "0_";
    assert ParseDigits("0_5") == Some(5);
  }

  /** A doubled, trailing or leading underscore makes `int()` raise. */
  lemma BadUnderscoreExample()
    ensures ParseInt("1__0") == None
    ensures ParseInt("1_") == None
    ensures ParseInt("_1") == None
  {
    ParseIntSpec("1__0");
    assert "1__0"[2] == '_' && "1__0"[1] == '_';
    ParseIntSpec("_1");
  }

  /** `age_to_num(age_str)`; a missing field is None. */
  function AgeToNum(age: Option<string>): (r: Option<int>)
    ensures age.None? || age == Some("") || age == Some("N/A") ==> r.None?
    ensures age.Some? && AllSpace(age.value) ==> r.None?
    ensures r.Some? ==> age.Some? && Split(age.value) != [] && ParseInt(Split(age.value)[0]) == r
  {
    match age
    case None => None
    case Some(s) =>
      if s == "" || s == "N/A" then None
      else
        var tokens := Split(s);
        assert AllSpace(s) ==> tokens == [] by {
          if AllSpace(s) { SplitOfSpace(s); }
        }
        if tokens == [] then None else ParseInt(tokens[0])
  }

  /** Decimal notation of a natural number, without leading zeros. */
  function ShowNat(n: nat): (s: string)
    ensures s != [] && forall k :: 0 <= k < |s| ==> IsDigit(s[k])
  {
    if n < 10 then [DigitChar(n)] else ShowNat(n / 10) + [DigitChar(n % 10)]
  }

  /** Reading back the decimal notation of `n` gives `n`. */
  lemma {:induction false} ParseShowNat(n: nat)
    ensures ParseDigits(ShowNat(n)) == Some(n)
  {
    if n >= 10 {
      ParseShowNat(n / 10);
      var s := ShowNat(n);
      assert s[..|s| - 1] == ShowNat(n / 10);
    }
  }

  /** Every non-empty string of digits parses (leading zeros are allowed, as `int()` allows them). */
  lemma {:induction false} DigitsParse(s: string)
    requires s != [] && forall k :: 0 <= k < |s| ==> IsDigit(s[k])
    ensures ParseDigits(s).Some?
    decreases |s|
  {
    var rest := s[..|s| - 1];
    if rest != [] {
      assert forall k :: 0 <= k < |rest| ==> rest[k] == s[k];
      DigitsParse(rest);
    }
  }

  /**
   * An age whose first token is `w`, after any leading whitespace, is exactly
   * what `int(w)` gives: a signed value or None.
   */
  lemma AgeFirstToken(lead: string, w: string, rest: string)
    requires AllSpace(lead) && IsToken(w) && (rest == [] || IsSpace(rest[0]))
    ensures AgeToNum(Some(lead + w + rest)) == ParseInt(w)
  {
    FirstToken(lead, w, rest);
    if lead + w + rest == "N/A" {
      assert !IsSpace((lead + w + rest)[0]);
      assert lead == [];
      assert (lead + w + rest)[0] == w[0] == 'N';
    }
  }

  /** `int()` of an unsigned decimal numeral. */
  lemma ParseUnsigned(n: nat)
    ensures IsToken(ShowNat(n)) && ParseInt(ShowNat(n)) == Some(n)
  {
    ParseShowNat(n);
  }

  /** "18 Years", " 65 Years" and the like give their leading number. */
  lemma AgeWithUnit(lead: string, n: nat, unit: string)
    requires AllSpace(lead) && (unit == [] || IsSpace(unit[0]))
    ensures AgeToNum(Some(lead + ShowNat(n) + unit)) == Some(n as int)
  {
    ParseUnsigned(n);
    AgeFirstToken(lead, ShowNat(n), unit);
  }

  /** `int()` of a signed decimal numeral. */
  lemma ParseSigned(sign: char, n: nat)
    requires sign == '-' || sign == '+'
    ensures IsToken([sign] + ShowNat(n))
    ensures ParseInt([sign] + ShowNat(n)) == Some(if sign == '-' then -(n as int) else n)
  {
    var w := ShowNat(n);
    ParseShowNat(n);
    assert ([sign] + w)[1..] == w;
    forall k | 0 <= k < |[sign] + w| ensures !IsSpace(([sign] + w)[k]) {
      if k > 0 { assert ([sign] + w)[k] == w[k - 1]; }
    }
  }

  /** A signed leading number keeps its sign: "-5 Years" gives -5, "+5 Years" gives 5. */
  lemma SignedAgeWithUnit(lead: string, sign: char, n: nat, unit: string)
    requires sign == '-' || sign == '+'
    requires AllSpace(lead) && (unit == [] || IsSpace(unit[0]))
    ensures AgeToNum(Some(lead + ([sign] + ShowNat(n)) + unit)) == Some(if sign == '-' then -(n as int) else n)
  {
    ParseSigned(sign, n);
    AgeFirstToken(lead, [sign] + ShowNat(n), unit);
  }

  /** A first token holding anything besides digits, underscores and a leading sign gives None. */
  lemma NonNumericFirstToken(s: string, k: nat)
    requires Split(s) != [] && k < |Split(s)[0]|
    requires !IsNumeral(Split(s)[0][k]) && !(k == 0 && (Split(s)[0][0] == '+' || Split(s)[0][0] == '-'))
    ensures AgeToNum(Some(s)) == None
  {
  }
}
