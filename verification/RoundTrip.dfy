/**
 What printf writes, strtol reads: the shell prints addresses with %lu (userland/Shell.cpp:124) and takes them
 back through strtol in base 10 (userland/Shell.cpp:147).
 */
module RoundTrip {
  import opened Prelude
  import opened Format
  import opened Numerals
  import opened Layout
  import opened Strtol
  import opened Printf

  // ---------- what is printed ----------

  /** A plain decimal conversion is the sign and the numeral. */
  lemma PlainDecimal(value: nat, negative: bool, f: Flags)
    requires value < WORD_MOD
    requires f == NO_FLAGS.(long := f.long)
    ensures NumberText(value, negative, 10, 0, 0, f) == (if negative then "-" else "") + Numeral(value, 10, false)
  {
    hide Numeral, NumberText, IsoLaid;
    PlainTextMatches(value, negative, 10, 0, 0, f);
    PlainLaid(if negative then "-" else "", Numeral(value, 10, false), f);
  }

  lemma PlainLaid(sign: string, digits: string, f: Flags)
    requires f == NO_FLAGS.(long := f.long)
    ensures IsoLaid(digits, sign, 0, 0, f) == sign + digits
  {
    hide Fill;
    EmptyFill(' ');
    EmptyFill('0');
    assert "" + (sign + "" + digits) + "" == sign + digits;
  }

  lemma LongIsPrinted(w: Word)
    ensures var v := Signed(w, WORD_MOD);
      Render("%ld", [Integer(w)]) == Some((if v < 0 then "-" else "") + Numeral(Abs(v), 10, false))
  {
    hide NumberText, Numeral, Signed;
    var v := Signed(w, WORD_MOD);
    var f := NO_FLAGS.(long := true);
    var d := Directive(f, 0, 0, 2, [Integer(w)]);
    assert Parse("%ld", 1, [Integer(w)]) == Some(d);
    hide Parse;
    OneDirective("%ld", [Integer(w)], d);
    assert IntegerFlags('d', f) == f && TypeModulus(f) == WORD_MOD;
    MagnitudeFits(w);
    PlainDecimal(Abs(v), v < 0, f);
  }

  /** "%d" and "%i" print an int as sign and numeral. */
  lemma IntIsPrinted(w: Word, c: char)
    requires c == 'd' || c == 'i'
    ensures var v := Signed(w, UINT_MOD);
      Render(['%', c], [Integer(w)]) == Some((if v < 0 then "-" else "") + Numeral(Abs(v), 10, false))
  {
    hide NumberText, Numeral, Signed;
    var v, fmt := Signed(w, UINT_MOD), ['%', c];
    var d := Directive(NO_FLAGS, 0, 0, 1, [Integer(w)]);
    assert Parse(fmt, 1, [Integer(w)]) == Some(d);
    hide Parse;
    OneDirective(fmt, [Integer(w)], d);
    assert IntegerFlags(c, NO_FLAGS) == NO_FLAGS && TypeModulus(NO_FLAGS) == UINT_MOD;
    IntMagnitudeFits(w);
    PlainDecimal(Abs(v), v < 0, NO_FLAGS);
  }

  lemma IntMagnitudeFits(w: Word)
    ensures Abs(Signed(w, UINT_MOD)) < WORD_MOD
  {
  }

  lemma MagnitudeFits(w: Word)
    ensures Abs(Signed(w, WORD_MOD)) < WORD_MOD
  {
  }

  lemma UnsignedLongIsPrinted(w: Word)
    ensures Render("%lu", [Integer(w)]) == Some(Numeral(w, 10, false))
  {
    hide NumberText, Numeral;
    var f := NO_FLAGS.(long := true);
    var d := Directive(f, 0, 0, 2, [Integer(w)]);
    assert Parse("%lu", 1, [Integer(w)]) == Some(d);
    hide Parse;
    OneDirective("%lu", [Integer(w)], d);
    assert IntegerFlags('u', f) == f && TypeModulus(f) == WORD_MOD;
    PlainDecimal(w, false, f);
    assert "" + Numeral(w, 10, false) == Numeral(w, 10, false);
  }

  // ---------- what is read ----------

  /** Digits are read the same in two strings that agree where they stand. */
  lemma {:induction false} NumberOfEqualDigits(s: string, t: string, base: nat, i: nat, j: nat)
    requires i <= j && forall k :: i <= k < j ==> At(s, k) == At(t, k) && IsDigitIn(At(s, k), base)
    ensures forall k :: i <= k < j ==> IsDigitIn(At(t, k), base)
    ensures Number(s, base, i, j) == Number(t, base, i, j)
    decreases j
  {
    assert forall k :: i <= k < j ==> At(t, k) == At(s, k);
    if i < j {
      NumberOfEqualDigits(s, t, base, i, j - 1);
    }
  }

  lemma {:induction false} RunEndIs(s: string, base: int, i: nat, j: nat)
    requires i <= j && (forall k :: i <= k < j ==> IsDigitIn(At(s, k), base)) && !IsDigitIn(At(s, j), base)
    ensures RunEnd(s, base, i) == j
    decreases j - i
  {
    if i < j {
      RunEndIs(s, base, i + 1, j);
    }
  }

  /** A digit character counts for what it was made of. */
  lemma DigitIsRead(d: nat, base: nat, uppercase: bool)
    requires d < base <= 16
    ensures DigitOf(DigitChar(d, uppercase)) == d && (base <= 10 ==> IsDigit(DigitChar(d, uppercase)))
  {
  }

  /** A numeral after any text is read back as the number, in every base that printf has. */
  lemma {:induction false} NumeralIsRead(before: string, v: nat, base: nat, uppercase: bool)
    requires 2 <= base <= 16
    ensures var s := before + Numeral(v, base, uppercase);
      && (forall k :: |before| <= k < |s| ==> IsDigitIn(At(s, k), base) && (base <= 10 ==> IsDigit(At(s, k))))
      && Number(s, base, |before|, |s|) == v
    decreases v
  {
    hide DigitChar, DigitOf, At, Number;
    var q, d := Divided(v, base);
    var c := DigitChar(d, uppercase);
    DigitIsRead(d, base, uppercase);
    if v < base {
      assert before + "" == before;
      NoDigits(before, base);
      AppendedDigit(before, c, base, |before|);
      assert Numeral(v, base, uppercase) == [c];
    } else {
      NumeralIsRead(before, q, base, uppercase);
      AppendedDigit(before + Numeral(q, base, uppercase), c, base, |before|);
      assert before + Numeral(v, base, uppercase) == before + Numeral(q, base, uppercase) + [c];
    }
  }

  lemma NoDigits(s: string, base: nat)
    ensures Number(s, base, |s|, |s|) == 0
  {
  }

  /** One digit more at the end of a string. */
  lemma AppendedDigit(t: string, c: char, base: nat, i: nat)
    requires i <= |t| && base <= 16 && 0 <= DigitOf(c) < base && (base <= 10 ==> IsDigit(c))
    requires forall k :: i <= k < |t| ==> IsDigitIn(At(t, k), base) && (base <= 10 ==> IsDigit(At(t, k)))
    ensures var s := t + [c];
      && (forall k :: i <= k < |s| ==> IsDigitIn(At(s, k), base) && (base <= 10 ==> IsDigit(At(s, k))))
      && Number(s, base, i, |s|) == Number(t, base, i, |t|) * base + DigitOf(c)
  {
    hide DigitOf;
    var s := t + [c];
    assert forall k: nat :: k < |t| ==> At(s, k) == At(t, k);
    assert At(s, |t|) == c;
    NumberOfEqualDigits(t, s, base, i, |t|);
    NumberGrows(s, base, i, |t|);
  }

  /** What strtol makes of a sign, a numeral and a NUL, whatever stands after that. */
  lemma SignedNumeralIsRead(sign: string, v: nat, s: string, front: (char, char))
    requires sign == "" || sign == "-"
    requires var text := sign + Numeral(v, 10, false); text <= s && At(s, |text|) == '\0'
    ensures var text := sign + Numeral(v, 10, false);
      && Head(s, 10) == (if sign == "-" then -1 else 1, 10, |sign|)
      && RunEnd(s, 10, |sign|) == StopAt(s, front, 10, |sign|) == |text| > 0
      && Number(s, 10, |sign|, |text|) == v
      && At(s, 0) != '\0' && IsDigit(At(s, |text| - 1))
  {
    var text := sign + Numeral(v, 10, false);
    NumeralIsRead(sign, v, 10, false);
    assert forall k :: 0 <= k < |text| ==> At(text, k) == At(s, k);
    NumberOfEqualDigits(text, s, 10, |sign|, |text|);
    RunEndIs(s, 10, |sign|, |text|);
    assert IsDigit(At(text, |sign|)) && IsDigit(At(text, |text| - 1));
    assert sign == "-" ==> At(text, 0) == '-';
    assert SkipSpaces(s, 0) == 0;
  }

  /**
   Printing into a buffer that is long enough and parsing the buffer: every long comes back from %ld, LONG_MIN
   included; an unsigned long comes back from %lu exactly when it is no more than LONG_MAX, and is clamped otherwise.
   The end pointer is left on the NUL.
   */
  method PrintAndReadBack(buffer: array<char>, front: (char, char), fmt: string, w: Word)
    returns (value: int, end: Option<int>, errno: Errno)
    requires fmt == "%ld" || fmt == "%lu"
    requires Render(fmt, [Integer(w)]).Some?
    requires |Render(fmt, [Integer(w)]).value| < buffer.Length < WORD_MOD
    modifies buffer
    ensures fmt == "%ld" ==> value == Signed(w, WORD_MOD) && errno == Unchanged
    ensures fmt == "%lu" ==> value == Min(w, LONG_MAX) && (errno == Unchanged <==> w <= LONG_MAX)
    ensures end == Some(|Render(fmt, [Integer(w)]).value|)
  {
    LongIsPrinted(w);
    UnsignedLongIsPrinted(w);
    hide Render, Numeral, RunEnd, Number, StopAt, Head;
    ghost var text := Render(fmt, [Integer(w)]).value;
    var _ := Vsnprintf(buffer, buffer.Length, fmt, [Integer(w)]);
    assert text <= buffer[..] && At(buffer[..], |text|) == '\0';
    ghost var v := if fmt == "%ld" then Signed(w, WORD_MOD) else w;
    SignedNumeralIsRead(if v < 0 then "-" else "", Abs(v), buffer[..], front);
    assert "" + Numeral(w, 10, false) == Numeral(w, 10, false);
    value, end, errno := Strtol.Strtol(buffer[..], front, 10);
  }
}
