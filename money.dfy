/**
 * Currency text as the loader reads it and as the page shows it: the
 * `[\$,]` clean-up applied to every money cell, a decimal reading of the
 * cleaned text in the manner of Python's `float()`, and the `$1,234.56`
 * display form. Amounts are exact `real`s.
 */
module Money {
  import opened Wrappers
  import opened Text

  /** The characters the loader's `[\$,]` pattern deletes. */
  predicate IsStripped(c: char) {
    c == '$' || c == ','
  }

  predicate NoneStripped(s: string) {
    forall i :: 0 <= i < |s| ==> !IsStripped(s[i])
  }

  /** The money-cell clean-up: every '$' and ',' removed, every other character kept in order. */
  function Clean(s: string): (r: string)
    ensures NoneStripped(r)
    ensures |r| <= |s|
  {
    if s == [] then [] else (if IsStripped(s[0]) then [] else [s[0]]) + Clean(s[1..])
  }

  /** Cleaning works character by character: it distributes over concatenation. */
  lemma {:induction false} CleanAppend(a: string, b: string)
    ensures Clean(a + b) == Clean(a) + Clean(b)
  {
    if a == [] {
      assert a + b == b;
    } else {
      assert (a + b)[1..] == a[1..] + b;
      CleanAppend(a[1..], b);
    }
  }

  /** Text without '$' or ',' passes through unchanged. */
  lemma {:induction false} CleanKeeps(s: string)
    requires NoneStripped(s)
    ensures Clean(s) == s
  {
    if s != [] {
      CleanKeeps(s[1..]);
    }
  }

  /** Cleaning twice is cleaning once. */
  lemma CleanIdempotent(s: string)
    ensures Clean(Clean(s)) == Clean(s)
  {
    CleanKeeps(Clean(s));
  }

  predicate IsDigit(c: char) {
    '0' <= c <= '9'
  }

  predicate AllDigits(s: string) {
    forall i :: 0 <= i < |s| ==> IsDigit(s[i])
  }

  function DigitValue(c: char): (d: nat)
    requires IsDigit(c)
    ensures d < 10
  {
    c as int - '0' as int
  }

  /** The number a string of decimal digits denotes (0 for the empty string). */
  function DigitsValue(ds: string): nat
    requires AllDigits(ds)
  {
    if ds == [] then 0 else DigitsValue(ds[..|ds| - 1]) * 10 + DigitValue(ds[|ds| - 1])
  }

  predicate IsNumeral(c: char) {
    IsDigit(c) || c == '.' || c == '+' || c == '-'
  }

  /** The value of the digits after a decimal point: `FractionValue("25") == 0.25`. */
  function FractionValue(ds: string): (v: real)
    requires AllDigits(ds)
    ensures 0.0 <= v < 1.0
  {
    if ds == [] then 0.0 else (DigitValue(ds[0]) as real + FractionValue(ds[1..])) / 10.0
  }

  /** Digits with at most one decimal point and at least one digit, read exactly. */
  function ParseUnsigned(t: string): (r: Option<real>)
    ensures r.Some? ==> 0 < |t| && 0.0 <= r.value
                        && forall i :: 0 <= i < |t| ==> IsDigit(t[i]) || t[i] == '.'
  {
    match IndexOf(t, '.')
    case None =>
      if 0 < |t| && AllDigits(t) then Some(DigitsValue(t) as real) else None
    case Some(k) =>
      var whole, frac := t[..k], t[k + 1..];
      if 0 < |whole| + |frac| && AllDigits(whole) && AllDigits(frac) then
        assert forall i :: 0 <= i < |t| && i != k ==> t[i] in whole || t[i] in frac;
        Some(DigitsValue(whole) as real + FractionValue(frac))
      else
        None
  }

  /**
   * A decimal number as `float()` reads it: surrounding whitespace ignored,
   * an optional sign, then ASCII digits with at most one decimal point. Text
   * with any other character (a letter, a space inside, '$', ',') has no
   * reading; so, unlike `float()`, exponents, `inf`/`nan`, underscores and
   * non-ASCII decimal digits have none either.
   */
  function ParseNumber(s: string): Option<real> {
    ParseSigned(Trim(s))
  }

  /** Only text made of digits, signs and points around optional whitespace has a reading. */
  lemma ReadableIsNumeral(s: string)
    ensures ParseNumber(s).Some? ==> 0 < |Trim(s)| && forall i :: 0 <= i < |Trim(s)| ==> IsNumeral(Trim(s)[i])
  {
  }

  /** A bare whole number reads as the number its digits denote. */
  lemma ReadWhole(whole: string)
    requires 0 < |whole| && AllDigits(whole)
    ensures ParseNumber(whole) == Some(DigitsValue(whole) as real)
  {
    assert !IsSpace(whole[0]) && !IsSpace(whole[|whole| - 1]);
    TrimTrimmed(whole);
    UnsignedWhenNoSign(whole);
    assert '.' !in whole by {
      assert forall i :: 0 <= i < |whole| ==> whole[i] != '.';
    }
  }

  /** Text with nothing to strip reads as its signed reading. */
  lemma StrippedNumber(s: string)
    requires IsTrimmed(s)
    ensures ParseNumber(s) == ParseSigned(s)
  {
    TrimTrimmed(s);
  }

  /** A signed numeral ending in a digit has nothing to strip. */
  lemma SignTrimmed(t: string, sign: char)
    requires 0 < |t| && IsDigit(t[|t| - 1]) && (sign == '-' || sign == '+')
    ensures IsTrimmed([sign] + t)
  {
    var s := [sign] + t;
    assert s[|s| - 1] == t[|t| - 1];
  }

  /** Past its sign, a signed numeral reads as the numeral after it. */
  lemma SignedText(t: string)
    requires 0 < |t| && IsDigit(t[0])
    ensures ParseSigned("-" + t).Some? <==> ParseSigned(t).Some?
    ensures ParseSigned(t).Some? ==> ParseSigned("-" + t).value == -ParseSigned(t).value
    ensures ParseSigned("+" + t) == ParseSigned(t)
  {
    UnsignedWhenNoSign(t);
    assert ("-" + t)[1..] == t;
    assert ("+" + t)[1..] == t;
  }

  /** A leading '-' negates the reading of a numeral, and reads exactly when the numeral does. */
  lemma NegatedReading(t: string)
    requires 0 < |t| && IsDigit(t[0]) && IsDigit(t[|t| - 1])
    ensures ParseNumber("-" + t).Some? <==> ParseNumber(t).Some?
    ensures ParseNumber(t).Some? ==> ParseNumber("-" + t).value == -ParseNumber(t).value
  {
    SignTrimmed(t, '-');
    StrippedNumber("-" + t);
    StrippedNumber(t);
    SignedText(t);
  }

  /** A leading '+' leaves the reading of a numeral as it is. */
  lemma PlusReading(t: string)
    requires 0 < |t| && IsDigit(t[0]) && IsDigit(t[|t| - 1])
    ensures ParseNumber("+" + t) == ParseNumber(t)
  {
    SignTrimmed(t, '+');
    StrippedNumber("+" + t);
    StrippedNumber(t);
    SignedText(t);
  }

  /** Text holding a character that is neither whitespace nor part of a numeral has no reading. */
  lemma UnreadableText(s: string, k: int)
    requires 0 <= k < |s| && !IsSpace(s[k]) && !IsNumeral(s[k])
    ensures ParseNumber(s).None?
  {
    var i :| StrippedAt(s, Trim(s), i);
    NonSpaceKept(s, Trim(s), i, k);
    ReadableIsNumeral(s);
  }

  /** A cell whose text, free of '$' and ',', holds a character outside any numeral is an error. */
  lemma UnreadableCell(s: string, k: int)
    requires NoneStripped(s) && 0 <= k < |s| && !IsSpace(s[k]) && !IsNumeral(s[k])
    ensures ParseCell(Some(s)) == Failure(s)
  {
    CleanKeeps(s);
    UnreadableText(s, k);
  }

  /**
   * Rate words such as "flat" or "year" are not numbers, so a cell holding
   * one is an error. (Tokens such as "n/a" never get here: the CSV reader
   * already turns them into NaN.)
   */
  lemma MarkerWordsUnreadable(w: string)
    requires w == "flat" || w == "year"
    ensures ParseCell(Some(w)) == Failure(w)
  {
    UnreadableCell(w, 0);
  }

  /** An optional sign followed by an unsigned decimal. */
  function ParseSigned(t: string): (r: Option<real>)
    ensures r.Some? ==> 0 < |t| && forall i :: 0 <= i < |t| ==> IsNumeral(t[i])
  {
    if 0 < |t| && (t[0] == '-' || t[0] == '+') then
      var u := ParseUnsigned(t[1..]);
      assert u.Some? ==> forall i :: 1 <= i < |t| ==> t[i] == t[1..][i - 1];
      match u
      case Some(x) => Some(if t[0] == '-' then -x else x)
      case None => None
    else
      ParseUnsigned(t)
  }

  /**
   * One money cell of the loader: a blank cell (NaN) stays blank; any other
   * text is cleaned and read as a number, and the cleaned text is the error
   * when it has no reading.
   */
  function ParseCell(cell: Option<string>): (r: Result<Option<real>, string>)
    ensures cell.None? <==> r == Success(None)
    ensures r.Success? && cell.Some? ==> Some(r.value.value) == ParseNumber(Clean(cell.value))
    ensures r.Failure? ==> cell.Some? && r.error == Clean(cell.value)
                           && ParseNumber(r.error).None?
  {
    match cell
    case None => Success(None)
    case Some(s) =>
      var t := Clean(s);
      match ParseNumber(t)
      case Some(x) => Success(Some(x))
      case None => Failure(t)
  }

  /** Thousands grouping of a digit string: a ',' before every third digit from the right. */
  function Group(ds: string): string {
    if |ds| <= 3 then ds else Group(ds[..|ds| - 3]) + "," + ds[|ds| - 3..]
  }

  /** Cleaning undoes the grouping. */
  lemma {:induction false} GroupClean(ds: string)
    ensures Clean(Group(ds)) == Clean(ds)
  {
    if |ds| > 3 {
      var head, tail := ds[..|ds| - 3], ds[|ds| - 3..];
      GroupClean(head);
      assert Clean(",") == [];
      CleanAppend(Group(head) + ",", tail);
      CleanAppend(Group(head), ",");
      CleanAppend(head, tail);
      assert ds == head + tail;
    }
  }

  /** Cleaning the display form of `whole.frac` gives back the bare numeral. */
  lemma CleanDisplay(whole: string, frac: string)
    requires AllDigits(whole) && AllDigits(frac)
    ensures Clean("$" + Group(whole) + "." + frac) == whole + "." + frac
  {
    var g := Group(whole);
    CleanKeeps(whole);
    CleanKeeps(frac);
    GroupClean(whole);
    assert Clean("$") == [];
    assert Clean(".") == ".";
    CleanAppend("$", g);
    assert Clean("$" + g) == whole;
    CleanAppend("$" + g, ".");
    assert Clean("$" + g + ".") == whole + ".";
    CleanAppend("$" + g + ".", frac);
  }

  /** Cleaning the display form of a whole amount gives back its digits. */
  lemma CleanDollarGroup(whole: string)
    requires AllDigits(whole)
    ensures Clean("$" + Group(whole)) == whole
  {
    CleanKeeps(whole);
    GroupClean(whole);
    assert Clean("$") == [];
    CleanAppend("$", Group(whole));
  }

  /** Reading back the display form `$18,000` of a whole amount gives exactly that amount. */
  lemma WholeRoundTrip(whole: string)
    requires 0 < |whole| && AllDigits(whole)
    ensures ParseCell(Some("$" + Group(whole))) == Success(Some(DigitsValue(whole) as real))
  {
    CleanDollarGroup(whole);
    ReadWhole(whole);
  }

  /** The first point of `whole.frac` is the one after `whole`. */
  lemma PointAfterWhole(whole: string, frac: string)
    requires AllDigits(whole)
    ensures IndexOf(whole + "." + frac, '.') == Some(|whole|)
  {
    var t := whole + "." + frac;
    assert t[|whole|] == '.';
    assert forall j :: 0 <= j < |whole| ==> t[j] == whole[j];
  }

  /** Without a leading sign the signed reading is the unsigned one. */
  lemma UnsignedWhenNoSign(t: string)
    requires 0 < |t| && IsDigit(t[0])
    ensures ParseSigned(t) == ParseUnsigned(t)
  {
  }

  /** A numeral that starts and ends with a digit has nothing to strip. */
  lemma NumeralTrimmed(whole: string, frac: string)
    requires 0 < |whole| && AllDigits(whole) && AllDigits(frac)
    ensures Trim(whole + "." + frac) == whole + "." + frac
  {
    var t := whole + "." + frac;
    assert !IsSpace(t[0]) && !IsSpace(t[|t| - 1]);
    TrimTrimmed(t);
  }

  /** The unsigned reading splits at the first point. */
  lemma UnsignedAtPoint(t: string, k: nat)
    requires IndexOf(t, '.') == Some(k)
    requires 0 < k && AllDigits(t[..k]) && AllDigits(t[k + 1..])
    ensures ParseUnsigned(t) == Some(DigitsValue(t[..k]) as real + FractionValue(t[k + 1..]))
  {
  }

  /** Unsigned, a numeral `whole.frac` reads as the whole part plus the fraction. */
  lemma UnsignedPointed(whole: string, frac: string)
    requires 0 < |whole| && AllDigits(whole) && AllDigits(frac)
    ensures ParseUnsigned(whole + "." + frac) == Some(DigitsValue(whole) as real + FractionValue(frac))
  {
    var t := whole + "." + frac;
    var k := |whole|;
    assert t[..k] == whole;
    assert t[k + 1..] == frac;
    PointAfterWhole(whole, frac);
    UnsignedAtPoint(t, k);
  }

  /** A numeral `whole.frac` reads as the whole part plus the fraction. */
  lemma ParsePointed(whole: string, frac: string)
    requires 0 < |whole| && AllDigits(whole) && AllDigits(frac)
    ensures ParseNumber(whole + "." + frac) == Some(DigitsValue(whole) as real + FractionValue(frac))
  {
    var t := whole + "." + frac;
    UnsignedPointed(whole, frac);
    assert t[0] == whole[0];
    UnsignedWhenNoSign(t);
    NumeralTrimmed(whole, frac);
  }

  /**
   * Reading back the display form `$1,234.56` of a number: the cleaned cell is
   * the bare numeral, and it reads as exactly the whole part plus the fraction.
   */
  lemma DisplayRoundTrip(whole: string, frac: string)
    requires 0 < |whole| && AllDigits(whole) && AllDigits(frac)
    ensures ParseCell(Some("$" + Group(whole) + "." + frac))
            == Success(Some(DigitsValue(whole) as real + FractionValue(frac)))
  {
    CleanDisplay(whole, frac);
    ParsePointed(whole, frac);
  }

  /** The cell text `$12,345.67` loads as 12345.67. */
  lemma DollarsExample()
    ensures ParseCell(Some("$12,345.67")) == Success(Some(12345.67))
  {
    assert DigitsValue("12345") == 12345 by {
      assert "12345"[..4] == "1234";
      assert "1234"[..3] == "123";
      assert "123"[..2] == "12";
      assert "12"[..1] == "1";
      assert "1"[..0] == "";
    }
    assert FractionValue("67") == 0.67 by {
      assert "67"[1..] == "7";
      assert "7"[1..] == "";
    }
    assert "$12,345.67" == "$" + Group("12345") + "." + "67" by {
      assert "12345"[..2] == "12" && "12345"[2..] == "345";
    }
    DisplayRoundTrip("12345", "67");
  }
}
