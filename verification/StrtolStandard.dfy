/** strtol of userland/lib/cstring.h against section 7.22.1.4 of ISO/IEC 9899:2011, in the "C" locale. */
module StrtolStandard {
  import opened Prelude
  import opened Strtol

  // ---------- the standard ----------

  /** isspace of the standard. */
  predicate IsWhite(c: char) {
    c == ' ' || 9 <= c as int <= 13
  }

  function WhiteEnd(s: string, i: nat): (j: nat)
    ensures i <= j
    decreases |s| - i
  {
    if IsWhite(At(s, i)) then WhiteEnd(s, i + 1) else i
  }

  predicate IsSign(c: char) {
    c == '-' || c == '+'
  }

  /** Where the digits or their prefix stand: after white space and at most one sign. */
  function AfterSign(s: string): nat {
    var a := WhiteEnd(s, 0);
    if IsSign(At(s, a)) then a + 1 else a
  }

  /** A prefix counts only before a digit; otherwise its "0" is a number of its own. */
  predicate HasHexPrefix(s: string, j: nat) {
    At(s, j) == '0' && IsX(At(s, j + 1)) && IsDigitIn(At(s, j + 2), 16)
  }

  /** The base of the subject sequence, and where its digits start. */
  function Subject(s: string, base: int): (int, nat) {
    var j := AfterSign(s);
    if (base == 0 || base == 16) && HasHexPrefix(s, j) then (16, j + 2)
    else if base == 0 then (if At(s, j) == '0' then 8 else 10, j)
    else (base, j)
  }

  predicate BaseDefined(base: int) {
    base == 0 || BaseAccepted(base)
  }

  /** The value, the end pointer and errno. Without a subject sequence the end pointer is the start of the string. */
  function IsoAnswer(s: string, base: int): (int, Option<int>, Errno)
    requires BaseDefined(base)
  {
    var (b, q) := Subject(s, base);
    var e := RunEnd(s, b, q);
    if e == q then (0, Some(0), Unchanged)
    else
      var exact := (if At(s, WhiteEnd(s, 0)) == '-' then -1 else 1) * Number(s, b, q, e);
      (Clamp(exact), Some(e), ErrnoFor(exact))
  }

  // ---------- when the code agrees ----------

  predicate IsAlnum(c: char) {
    IsDigit(c) || IsAlpha(c)
  }

  /** At the digits or their prefix: "0x" has to be followed by a letter or digit other than G, and "x" by one above. */
  predicate PrefixConforms(s: string, front: (char, char), j: nat, base: int) {
    if (base == 16 || base == 0) && At(s, j) == '0' && IsX(At(s, j + 1)) then
      DigitOf(At(s, j + 2)) != -1 && DigitOf(At(s, j + 2)) != 16
    else if base == 16 && IsX(At(s, j)) then DigitOf(At(s, j + 1)) > 16
    else !(base == 16 && j == 0 && DigitOf(At(s, 0)) > 16 && IsX(front.0) && IsAlnum(front.1))
  }

  /** After "-+" the code must find nothing that it takes for a number. */
  predicate NoNumberAt(s: string, i: nat, base: int) {
    && !IsDigitIn(At(s, i), if base == 0 then 10 else base)
    && (base == 16 && IsX(At(s, i)) ==> DigitOf(At(s, i + 1)) > 16)
  }

  /**
   The string is not empty; white space other than spaces and tabs is not followed by a number, nor is "-+"; and the
   prefix is one that both read in the same way.
   */
  predicate Conforms(s: string, front: (char, char), base: int)
    requires BaseDefined(base)
  {
    var a := SkipSpaces(s, 0);
    && At(s, 0) != '\0'
    && if IsWhite(At(s, a)) then
         var (b, q) := Subject(s, base); !IsDigitIn(At(s, q), b)
       else if At(s, a) == '-' && At(s, a + 1) == '+' then NoNumberAt(s, a + 2, base)
       else PrefixConforms(s, front, if IsSign(At(s, a)) then a + 1 else a, base)
  }

  // ---------- the comparison ----------

  lemma {:induction false} SpacesAreWhite(s: string, i: nat)
    ensures SkipSpaces(s, i) <= WhiteEnd(s, i)
    ensures !IsWhite(At(s, SkipSpaces(s, i))) ==> SkipSpaces(s, i) == WhiteEnd(s, i)
    ensures SkipSpaces(s, i) > i ==> IsSpace(At(s, SkipSpaces(s, i) - 1))
    ensures !IsSpace(At(s, SkipSpaces(s, i)))
    decreases |s| - i
  {
    if IsSpace(At(s, i)) {
      SpacesAreWhite(s, i + 1);
    }
  }

  lemma {:induction false} LeadingZero(s: string, b: nat, q: nat, e: nat)
    requires q < e && At(s, q) == '0' && forall k :: q <= k < e ==> IsDigitIn(At(s, k), b)
    ensures Number(s, b, q, e) == Number(s, b, q + 1, e)
    decreases e
  {
    if e > q + 1 {
      LeadingZero(s, b, q, e - 1);
    } else {
      assert Number(s, b, q, q) == 0;
    }
  }

  /** Nothing is read from p on, and the character before is no letter or digit: value 0, and the end is the start. */
  lemma NothingAt(s: string, front: (char, char), b: nat, p: nat, sign: int)
    requires BaseAccepted(b) && (sign == 1 || sign == -1) && !IsDigitIn(At(s, p), b)
    ensures RunEnd(s, b, p) == p
    ensures Clamp(sign * Number(s, b, p, p)) == 0 && ErrnoFor(sign * Number(s, b, p, p)) == Unchanged
    ensures p > 0 && !IsAlnum(At(s, p - 1)) ==> EndAt(s, front, StopAt(s, front, b, p)) == 0
    ensures p == 0 && !(b == 16 && DigitOf(At(s, 0)) > 16 && IsX(front.0)) ==>
      EndAt(s, front, StopAt(s, front, b, p)) == 0
  {
    assert Number(s, b, p, p) == 0;
  }

  /** Something is read from p on: the end is after the last digit. */
  lemma SomethingAt(s: string, front: (char, char), b: nat, p: nat)
    requires BaseAccepted(b) && IsDigitIn(At(s, p), b)
    ensures RunEnd(s, b, p) > p && EndAt(s, front, StopAt(s, front, b, p)) == RunEnd(s, b, p)
  {
    var e := RunEnd(s, b, p);
    assert RunEnd(s, b, p) == RunEnd(s, b, p + 1);
    assert IsDigitIn(At(s, e - 1), b);
    assert IsAlnum(At(s, e - 1));
    assert b == 16 ==> !IsX(At(s, e - 1));
  }

  /** A number whose leading zero the code skips is the same number, and ends at the same place. */
  lemma ZeroSkipped(s: string, front: (char, char), b: nat, q: nat)
    requires BaseAccepted(b) && b <= 16 && At(s, q) == '0'
    ensures RunEnd(s, b, q) == RunEnd(s, b, q + 1) > q
    ensures Number(s, b, q, RunEnd(s, b, q)) == Number(s, b, q + 1, RunEnd(s, b, q))
    ensures EndAt(s, front, StopAt(s, front, b, q + 1)) == RunEnd(s, b, q)
  {
    assert IsDigitIn('0', b);
    LeadingZero(s, b, q, RunEnd(s, b, q));
    if IsDigitIn(At(s, q + 1), b) {
      SomethingAt(s, front, b, q + 1);
    }
  }

  /** Both read nothing. */
  lemma NothingForIso(s: string, base: int)
    requires BaseDefined(base)
    ensures var (b, q) := Subject(s, base);
      && (!IsDigitIn(At(s, q), b) ==> IsoAnswer(s, base) == (0, Some(0), Unchanged))
      && (IsDigitIn(At(s, q), b) ==> IsoAnswer(s, base).1 == Some(RunEnd(s, b, q)) && RunEnd(s, b, q) > 0)
  {
  }

  /** White space that the code does not skip. */
  lemma OtherWhite(s: string, front: (char, char), base: int)
    requires BaseDefined(base) && At(s, 0) != '\0' && IsWhite(At(s, SkipSpaces(s, 0)))
    ensures Answer(s, front, base) == IsoAnswer(s, base) <==> Conforms(s, front, base)
  {
    SpacesAreWhite(s, 0);
    var (sign, b, p) := Head(s, base);
    assert p == SkipSpaces(s, 0);
    NothingAt(s, front, b, p, sign);
    NothingForIso(s, base);
    hide IsoAnswer, RunEnd;
  }

  /** "-+": the code goes on where the standard reads nothing. */
  lemma TwoSigns(s: string, front: (char, char), base: int)
    requires BaseDefined(base) && At(s, 0) != '\0'
    requires var a := SkipSpaces(s, 0); At(s, a) == '-' && At(s, a + 1) == '+'
    ensures Answer(s, front, base) == IsoAnswer(s, base) <==> Conforms(s, front, base)
  {
    hide RunEnd, Number, Clamp, ErrnoFor, EndAt, StopAt, IsoAnswer;
    SpacesAreWhite(s, 0);
    NothingForIso(s, base);
    var a := SkipSpaces(s, 0);
    var (sign, b, p) := Head(s, base);
    AfterTwoSigns(s, base);
    if IsDigitIn(At(s, p), b) {
      SomethingAt(s, front, b, p);
    } else {
      NothingAt(s, front, b, p, sign);
      if p > a + 2 && At(s, p - 1) == '0' {
        EndAfterZero(s, front, b, p);
      } else if p > a + 2 {
        EndAfterX(s, front, p);
      }
    }
  }

  lemma AfterTwoSigns(s: string, base: int)
    requires BaseDefined(base)
    requires var a := SkipSpaces(s, 0); At(s, a) == '-' && At(s, a + 1) == '+'
    ensures var i, (sign, b, p) := SkipSpaces(s, 0) + 2, Head(s, base);
      && sign == -1 && i <= p && BaseAccepted(b)
      && (NoNumberAt(s, i, base) <==>
           !IsDigitIn(At(s, p), b) && (p == i || (b == 16 && p == i + 1 && IsX(At(s, i)) && DigitOf(At(s, p)) > 16)))
      && (!IsDigitIn(At(s, p), b) ==> p == i || At(s, p - 1) == '0' || (b == 16 && IsX(At(s, p - 1))))
  {
  }

  /** Between "x" and a letter above G the code goes back; what stands before the "x" decides then. */
  lemma EndAfterX(s: string, front: (char, char), p: nat)
    requires p > 1 && IsX(At(s, p - 1)) && !IsDigitIn(At(s, p), 16)
    ensures EndAt(s, front, StopAt(s, front, 16, p)) ==
      if DigitOf(At(s, p)) <= 16 then p else if IsAlnum(At(s, p - 2)) then p - 1 else 0
  {
    hide Number, IsDigitIn;
    assert RunEnd(s, 16, p) == p;
  }

  lemma EndAfterZero(s: string, front: (char, char), b: nat, p: nat)
    requires BaseAccepted(b) && p > 0 && At(s, p - 1) == '0'
    ensures EndAt(s, front, StopAt(s, front, b, p)) > 0
  {
    if IsDigitIn(At(s, p), b) {
      SomethingAt(s, front, b, p);
    }
  }

  /** No "-+", and no white space but spaces and tabs in front: j is where digits or prefix stand for both. */
  predicate Plain(s: string, j: nat, sign: int) {
    var a := SkipSpaces(s, 0);
    && At(s, 0) != '\0' && !IsWhite(At(s, a)) && !(At(s, a) == '-' && At(s, a + 1) == '+')
    && j == (if IsSign(At(s, a)) then a + 1 else a) && sign == (if At(s, a) == '-' then -1 else 1)
  }

  lemma PlainSubject(s: string, j: nat, sign: int)
    requires Plain(s, j, sign)
    ensures AfterSign(s) == j && sign == if At(s, WhiteEnd(s, 0)) == '-' then -1 else 1
    ensures j > 0 ==> !IsAlnum(At(s, j - 1)) && !IsX(At(s, j - 1))
  {
    SpacesAreWhite(s, 0);
  }

  /** "0x" in base 16, or 0. */
  lemma WithPrefix(s: string, front: (char, char), base: int, j: nat, sign: int)
    requires (base == 0 || base == 16) && Plain(s, j, sign) && At(s, j) == '0' && IsX(At(s, j + 1))
    ensures Answer(s, front, base) == IsoAnswer(s, base) <==> PrefixConforms(s, front, j, base)
  {
    hide RunEnd, Number, Clamp, ErrnoFor, EndAt, StopAt;
    PlainSubject(s, j, sign);
    assert Head(s, base) == (sign, 16, j + 2);
    hide Head, Plain;
    if HasHexPrefix(s, j) {
      SomethingAt(s, front, 16, j + 2);
    } else {
      NothingAt(s, front, 16, j + 2, sign);
      var b := if base == 0 then 8 else 16;
      ZeroSkipped(s, front, b, j);
      NothingAt(s, front, b, j + 1, sign);
      OnlyZero(s, front, b, j, sign);
      EndAfterX(s, front, j + 2);
    }
  }

  /** A zero and no digit after it is the number 0, which ends after the zero. */
  lemma OnlyZero(s: string, front: (char, char), b: nat, j: nat, sign: int)
    requires BaseAccepted(b) && b <= 16 && At(s, j) == '0' && !IsDigitIn(At(s, j + 1), b) && (sign == 1 || sign == -1)
    ensures RunEnd(s, b, j) == j + 1
    ensures Clamp(sign * Number(s, b, j, j + 1)) == 0 && ErrnoFor(sign * Number(s, b, j, j + 1)) == Unchanged
  {
    ZeroSkipped(s, front, b, j);
    NothingAt(s, front, b, j + 1, sign);
  }

  /** "x" without a zero in base 16. */
  lemma BareX(s: string, front: (char, char), j: nat, sign: int)
    requires Plain(s, j, sign) && IsX(At(s, j))
    ensures Answer(s, front, 16) == IsoAnswer(s, 16) <==> PrefixConforms(s, front, j, 16)
  {
    hide RunEnd, Number, Clamp, ErrnoFor, EndAt, StopAt, IsoAnswer;
    PlainSubject(s, j, sign);
    assert Head(s, 16) == (sign, 16, j + 1);
    hide Head, Plain;
    NothingForIso(s, 16);
    if IsDigitIn(At(s, j + 1), 16) {
      SomethingAt(s, front, 16, j + 1);
    } else {
      NothingAt(s, front, 16, j + 1, sign);
      if j > 0 {
        EndAfterX(s, front, j + 1);
      } else {
        EndAfterFirstX(s, front);
      }
    }
  }

  lemma EndAfterFirstX(s: string, front: (char, char))
    requires IsX(At(s, 0)) && !IsDigitIn(At(s, 1), 16)
    ensures EndAt(s, front, StopAt(s, front, 16, 1)) == if DigitOf(At(s, 1)) <= 16 then 1 else 0
  {
    hide Number, IsDigitIn;
    assert RunEnd(s, 16, 1) == 1;
  }

  /** A leading zero that the code skips. */
  lemma BareZero(s: string, front: (char, char), base: int, j: nat, sign: int)
    requires base == 0 || base == 8 || base == 16
    requires Plain(s, j, sign) && At(s, j) == '0' && (base == 8 || !IsX(At(s, j + 1)))
    ensures Answer(s, front, base) == IsoAnswer(s, base) && PrefixConforms(s, front, j, base)
  {
    hide RunEnd, Number, Clamp, ErrnoFor, EndAt, StopAt;
    PlainSubject(s, j, sign);
    var b := if base == 0 then 8 else base;
    assert Head(s, base) == (sign, b, j + 1);
    assert Subject(s, base) == (b, j);
    hide Head, Plain, Subject;
    ZeroSkipped(s, front, b, j);
  }

  /** No prefix at all. */
  lemma NoPrefixAt(s: string, front: (char, char), base: int, j: nat, sign: int)
    requires BaseDefined(base) && Plain(s, j, sign)
    requires base == 0 || base == 8 || base == 16 ==> At(s, j) != '0'
    requires base == 16 ==> !IsX(At(s, j))
    ensures Answer(s, front, base) == IsoAnswer(s, base) <==> PrefixConforms(s, front, j, base)
  {
    PlainSubject(s, j, sign);
    var b := if base == 0 then 10 else base;
    assert Head(s, base) == (sign, b, j);
    assert Subject(s, base) == (b, j);
    hide Head, Plain, Subject;
    if IsDigitIn(At(s, j), b) {
      SomethingAt(s, front, b, j);
    } else {
      NothingAt(s, front, b, j, sign);
    }
  }

  /**
   strtol does what the standard prescribes exactly when Conforms holds: for every string and every base for which the
   standard says anything, value, end pointer and errno.
   */
  lemma StrtolMatchesIso(s: string, front: (char, char), base: int)
    requires BaseDefined(base)
    ensures Answer(s, front, base) == IsoAnswer(s, base) <==> Conforms(s, front, base)
  {
    hide Answer, IsoAnswer, PrefixConforms, NoNumberAt;
    var a := SkipSpaces(s, 0);
    if At(s, 0) == '\0' {
      EmptyString(s, front, base);
    } else if IsWhite(At(s, a)) {
      OtherWhite(s, front, base);
    } else if At(s, a) == '-' && At(s, a + 1) == '+' {
      TwoSigns(s, front, base);
    } else {
      var j, sign := if IsSign(At(s, a)) then a + 1 else a, if At(s, a) == '-' then -1 else 1;
      if (base == 0 || base == 16) && At(s, j) == '0' && IsX(At(s, j + 1)) {
        WithPrefix(s, front, base, j, sign);
      } else if base == 16 && IsX(At(s, j)) {
        BareX(s, front, j, sign);
      } else if (base == 0 || base == 8 || base == 16) && At(s, j) == '0' {
        BareZero(s, front, base, j, sign);
      } else {
        NoPrefixAt(s, front, base, j, sign);
      }
    }
  }

  lemma EmptyString(s: string, front: (char, char), base: int)
    requires BaseDefined(base) && At(s, 0) == '\0'
    ensures Answer(s, front, base).1 == None && IsoAnswer(s, base).1.Some?
  {
  }

  /** "-+5" is read as -5, "x5" in base 16 as 5, and of "0xG" the code takes the "x" as well. */
  lemma WhereStrtolDeparts(front: (char, char))
    ensures Answer("-+5", front, 10) != IsoAnswer("-+5", 10)
    ensures Answer("x5", front, 16) != IsoAnswer("x5", 16)
    ensures Answer("0xG", front, 16) != IsoAnswer("0xG", 16)
  {
    hide Answer, IsoAnswer, RunEnd, Number, Subject;
    StrtolMatchesIso("-+5", front, 10);
    StrtolMatchesIso("x5", front, 16);
    StrtolMatchesIso("0xG", front, 16);
    assert SkipSpaces("-+5", 0) == 0 && At("-+5", 0) == '-' && At("-+5", 1) == '+' && At("-+5", 2) == '5';
    assert SkipSpaces("x5", 0) == 0 && At("x5", 0) == 'x' && At("x5", 1) == '5';
    assert SkipSpaces("0xG", 0) == 0 && At("0xG", 0) == '0' && At("0xG", 1) == 'x' && At("0xG", 2) == 'G';
    hide SkipSpaces, At;
  }
}
