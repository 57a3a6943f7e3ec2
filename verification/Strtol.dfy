/** strtol of userland/lib/cstring.h. */
module Strtol {
  import opened Prelude

  datatype Errno = Unchanged | Invalid | Range

  // ---------- characters ----------

  predicate IsSpace(c: char) {
    c == ' ' || c == '\t'
  }

  predicate IsAlpha(c: char) {
    'a' <= c <= 'z' || 'A' <= c <= 'Z'
  }

  function ToUpper(c: char): char {
    if 'a' <= c <= 'z' then ('A' as int + (c as int - 'a' as int)) as char else c
  }

  /** `number` in the loop of strtol: what a character counts for, -1 for none. */
  function DigitOf(c: char): (d: int)
    ensures -1 <= d < 36
  {
    if IsAlpha(c) then ToUpper(c) as int - 55
    else if 48 <= c as int <= 57 then c as int - 48
    else -1
  }

  predicate IsDigitIn(c: char, base: int) {
    DigitOf(c) < base && DigitOf(c) != -1
  }

  // ---------- what is read ----------

  function SkipSpaces(s: string, i: nat): (j: nat)
    ensures i <= j
    decreases |s| - i
  {
    if IsSpace(At(s, i)) then SkipSpaces(s, i + 1) else i
  }

  /** The sign, the base and the position at which the digits are looked for. */
  function Head(s: string, base: int): (r: (int, int, nat))
    ensures r.0 == 1 || r.0 == -1
  {
    var a := SkipSpaces(s, 0);
    var sign := if At(s, a) == '-' then -1 else 1;
    var b := if At(s, a) == '-' then a + 1 else a;
    var c := if At(s, b) == '+' then b + 1 else b;
    if base == 16 then
      var d := if At(s, c) == '0' then c + 1 else c;
      (sign, 16, if At(s, d) == 'x' || At(s, d) == 'X' then d + 1 else d)
    else if base == 8 then (sign, 8, if At(s, c) == '0' then c + 1 else c)
    else if base == 0 then
      if At(s, c) != '0' then (sign, 10, c)
      else if At(s, c + 1) == 'x' || At(s, c + 1) == 'X' then (sign, 16, c + 2)
      else (sign, 8, c + 1)
    else (sign, base, c)
  }

  lemma NotNegative(n: nat, base: nat)
    ensures n * base >= 0
  {
  }

  function RunEnd(s: string, base: int, i: nat): (j: nat)
    ensures i <= j && !IsDigitIn(At(s, j), base)
    ensures forall k :: i <= k < j ==> IsDigitIn(At(s, k), base)
    decreases |s| - i
  {
    if IsDigitIn(At(s, i), base) then RunEnd(s, base, i + 1) else i
  }

  /** The number the digits from i up to j denote. */
  function Number(s: string, base: nat, i: nat, j: nat): (n: nat)
    requires i <= j && forall k :: i <= k < j ==> IsDigitIn(At(s, k), base)
    decreases j
  {
    if j == i then 0
    else
      var n := Number(s, base, i, j - 1);
      assert IsDigitIn(At(s, j - 1), base);
      NotNegative(n, base);
      n * base + DigitOf(At(s, j - 1))
  }

  /** The string and the two characters in front of it, the nearer one first. */
  function CharAt(s: string, front: (char, char), i: int): char {
    if i >= 0 then At(s, i) else if i == -1 then front.0 else front.1
  }

  predicate IsX(c: char) {
    c == 'x' || c == 'X'
  }

  /** Where the loop over the digits leaves `pos`: in base 16 one back, between an "x" and a letter above 'G'. */
  function StopAt(s: string, front: (char, char), base: int, i: nat): (stop: int)
    ensures stop >= -1
  {
    var e := RunEnd(s, base, i);
    if base == 16 && DigitOf(At(s, e)) > 16 && IsX(CharAt(s, front, e - 1)) then e - 1 else e
  }

  predicate BaseAccepted(base: int) {
    2 <= base <= 36
  }

  /** Texts on which strtol looks at memory in front of the string: those of which it reads nothing. */
  predicate ReadsBeforeStart(s: string, front: (char, char), base: int) {
    var (_, b, p) := Head(s, base);
    At(s, 0) != '\0' && BaseAccepted(b) && StopAt(s, front, b, p) <= 0
  }

  /** The first character is no white space, sign or digit, nor, in base 16, a prefix that is read. */
  predicate StartsWithoutNumber(s: string, base: int) {
    var b := if base == 0 then 10 else base;
    var c := At(s, 0);
    && BaseAccepted(b) && c != '\0' && !IsSpace(c) && c != '-' && c != '+' && !IsDigitIn(c, b)
    && (b == 16 && (c == 'x' || c == 'X') ==> DigitOf(At(s, 1)) > 16)
  }

  /** When strtol looks in front of the string, told from its first two characters. */
  lemma ReadsBeforeStartExactly(s: string, front: (char, char), base: int)
    ensures ReadsBeforeStart(s, front, base) <==> StartsWithoutNumber(s, base)
  {
    var (_, b, p) := Head(s, base);
    if p == 0 && At(s, 0) != '\0' && BaseAccepted(b) {
      assert RunEnd(s, b, 0) == 0 <==> !IsDigitIn(At(s, 0), b);
    }
    if p == 1 {
      assert RunEnd(s, b, 1) == 1 <==> !IsDigitIn(At(s, 1), b);
    }
  }

  /** A word in base 10, and one in base 16 after an "x". */
  lemma ReadsBeforeWords(front: (char, char))
    ensures ReadsBeforeStart("abc", front, 10) && ReadsBeforeStart("xyz", front, 16)
    ensures !ReadsBeforeStart("xGz", front, 16)
  {
    ReadsBeforeStartExactly("abc", front, 10);
    ReadsBeforeStartExactly("xyz", front, 16);
    ReadsBeforeStartExactly("xGz", front, 16);
  }

  /** What characters count for as digits. */
  lemma DigitOfIs(c: char)
    ensures '0' <= c <= '9' ==> DigitOf(c) == c as int - '0' as int
    ensures 'a' <= c <= 'z' ==> DigitOf(c) == c as int - 'a' as int + 10
    ensures 'A' <= c <= 'Z' ==> DigitOf(c) == c as int - 'A' as int + 10
    ensures !('0' <= c <= '9') && !('a' <= c <= 'z') && !('A' <= c <= 'Z') ==> DigitOf(c) == -1
  {
  }

  /** Where *endPtr is put. */
  function EndAt(s: string, front: (char, char), stop: int): int {
    if IsDigit(CharAt(s, front, stop - 1)) || IsAlpha(CharAt(s, front, stop - 1)) then stop else 0
  }

  /**
   The end pointer of a text of which nothing is read: the start of the string, but for one case, in which it is put
   in front of the string, because it stands there between an "x" after a letter or digit and a letter above 'G'.
   */
  lemma NothingReadEnds(s: string, front: (char, char), base: int)
    requires StartsWithoutNumber(s, base)
    ensures var (_, b, p) := Head(s, base);
      && Number(s, b, p, RunEnd(s, b, p)) == 0
      && EndAt(s, front, StopAt(s, front, b, p)) ==
           if base == 16 && !IsX(At(s, 0)) && DigitOf(At(s, 0)) > 16 && IsX(front.0)
              && (IsDigit(front.1) || IsAlpha(front.1)) then -1 else 0
  {
    var (_, b, p) := Head(s, base);
    assert RunEnd(s, b, p) == p;
  }

  function Clamp(x: int): int {
    if x < LONG_MIN then LONG_MIN else if x > LONG_MAX then LONG_MAX else x
  }

  // ---------- arithmetic ----------

  /** Division as C does it, towards zero. */
  function CDiv(a: int, b: int): int
    requires b > 0
  {
    if a >= 0 then a / b else -((-a) / b)
  }

  lemma Product(a: int, x: int, b: int, y: int)
    ensures 0 <= a <= b && 0 <= x <= y ==> a * x <= b * y
  {
    if 0 <= a <= b && 0 <= x <= y {
      assert a * x <= b * x;
      assert b * x <= b * y;
    }
  }

  lemma FloorBound(m: nat, b: nat, y: int)
    requires b > 0
    ensures y <= m / b <==> y * b <= m
  {
    var q := m / b;
    assert q * b <= m < (q + 1) * b;
    if y <= q {
      if y >= 0 {
        Product(y, b, q, b);
      } else {
        assert y * b <= 0;
      }
    } else {
      Product(q + 1, b, y, b);
    }
  }

  /** One more digit: the guard of strtol tells exactly whether the new number fits a long, also once it saturated. */
  lemma OneMoreDigit(sign: int, n: nat, base: nat, d: nat)
    requires (sign == 1 || sign == -1) && BaseAccepted(base) && d < base
    ensures var sum := Clamp(sign * n);
      && (sign == -1 ==> (sum >= CDiv(LONG_MIN + d, base) <==> LONG_MIN <= sign * (n * base + d)))
      && (sign == 1 ==> (sum <= CDiv(LONG_MAX - d, base) <==> sign * (n * base + d) <= LONG_MAX))
      && (LONG_MIN <= sign * (n * base + d) <= LONG_MAX ==> sum == sign * n && LONG_MIN <= sum * base <= LONG_MAX)
  {
    var limit := if sign == 1 then LONG_MAX else -LONG_MIN;
    var m := if n <= limit then n else limit;
    FloorBound(limit - d, base, m);
    Product(n, 2, n, base);
    Product(limit, 2, m, base);
    assert m == n ==> m * base == n * base;
    assert m < n ==> n * base >= 2 * n > limit && m * base >= 2 * limit > limit;
    assert sign == -1 ==> Clamp(sign * n) == -m && (-m) * base == -(m * base);
  }

  // ---------- the function ----------

  /** The white space, sign and prefix part of strtol. */
  method ReadHead(s: string, base: int) returns (sign: int, b: int, pos: nat)
    ensures (sign, b, pos) == Head(s, base)
  {
    sign, b, pos := 1, base, 0;
    while IsSpace(At(s, pos))
      invariant SkipSpaces(s, pos) == SkipSpaces(s, 0)
      decreases |s| - pos
    {
      pos := pos + 1;
    }
    if At(s, pos) == '-' {
      sign := -1;
      pos := pos + 1;
    }
    if At(s, pos) == '+' {
      pos := pos + 1;
    }
    if b == 16 || b == 8 {
      if b == 16 && At(s, pos) == '0' {
        pos := pos + 1;
      }
      if b == 16 && (At(s, pos) == 'x' || At(s, pos) == 'X') {
        pos := pos + 1;
      }
      if b == 8 && At(s, pos) == '0' {
        pos := pos + 1;
      }
    }
    if b == 0 {
      b := 10;
      if At(s, pos) == '0' {
        b := 8;
        pos := pos + 1;
        if At(s, pos) == 'x' || At(s, pos) == 'X' {
          b := 16;
          pos := pos + 1;
        }
      }
    }
  }

  function ErrnoFor(x: int): Errno {
    if LONG_MIN <= x <= LONG_MAX then Unchanged else Range
  }

  /** One round of the loop over the digits, for a digit. No intermediate result leaves the range of long. */
  method AddDigit(sign: int, sum: int, base: nat, number: nat, errno: Errno, ghost n: nat)
    returns (sum': int, errno': Errno)
    requires (sign == 1 || sign == -1) && BaseAccepted(base) && number < base
    requires sum == Clamp(sign * n) && errno == ErrnoFor(sign * n)
    ensures sum' == Clamp(sign * (n * base + number)) && errno' == ErrnoFor(sign * (n * base + number))
  {
    OneMoreDigit(sign, n, base, number);
    SaturationAbsorbs(sign, n, base, number);
    sum', errno' := sum, errno;
    if sign == -1 {
      if sum >= CDiv(LONG_MIN + number, base) {
        assert LONG_MIN <= sum * base <= LONG_MAX;
        sum' := sum * base - number;
      } else {
        errno' := Range;
        sum' := LONG_MIN;
      }
    } else {
      if sum <= CDiv(LONG_MAX - number, base) {
        assert LONG_MIN <= sum * base <= LONG_MAX;
        sum' := sum * base + number;
      } else {
        errno' := Range;
        sum' := LONG_MAX;
      }
    }
  }

  /** A number that no longer fits does not fit with more digits either, and stays on its side. */
  lemma SaturationAbsorbs(sign: int, n: nat, base: nat, d: nat)
    requires (sign == 1 || sign == -1) && BaseAccepted(base)
    ensures n * base + d >= n
    ensures LONG_MIN <= sign * (n * base + d) <= LONG_MAX ==> LONG_MIN <= sign * n <= LONG_MAX
  {
    Product(n, 1, n, base);
  }

  lemma NumberGrows(s: string, base: nat, i: nat, j: nat)
    requires i <= j && (forall k :: i <= k < j ==> IsDigitIn(At(s, k), base)) && IsDigitIn(At(s, j), base)
    ensures Number(s, base, i, j + 1) == Number(s, base, i, j) * base + DigitOf(At(s, j))
  {
  }

  /** The loop of strtol over the digits. */
  method ReadDigits(s: string, front: (char, char), sign: int, base: nat, p: nat)
    returns (sum: int, errno: Errno, pos: int)
    requires (sign == 1 || sign == -1) && BaseAccepted(base)
    ensures var exact := sign * Number(s, base, p, RunEnd(s, base, p));
      sum == Clamp(exact) && errno == ErrnoFor(exact) && pos == StopAt(s, front, base, p)
  {
    hide Clamp, ErrnoFor, Number;
    var i: int := p;
    sum, errno, pos := 0, Unchanged, p;
    ghost var n := 0;
    assert Number(s, base, p, p) == 0 && Clamp(sign * 0) == 0 && ErrnoFor(sign * 0) == Unchanged by {
      NothingRead(s, base, p, sign);
    }
    while At(s, i) != '\0'
      invariant p <= i && pos == i && (forall k :: p <= k < i ==> IsDigitIn(At(s, k), base))
      invariant RunEnd(s, base, i) == RunEnd(s, base, p)
      invariant n == Number(s, base, p, i) && sum == Clamp(sign * n) && errno == ErrnoFor(sign * n)
      decreases |s| - i
    {
      var number := DigitOf(At(s, i));
      if number < base && number != -1 {
        NumberGrows(s, base, p, i);
        sum, errno := AddDigit(sign, sum, base, number, errno, n);
        n := Number(s, base, p, i + 1);
      } else if base == 16 && number > base && IsX(CharAt(s, front, i - 1)) {
        pos := i - 1;
        break;
      } else {
        break;
      }
      i := i + 1;
      pos := i;
    }
  }

  lemma NothingRead(s: string, base: nat, p: nat, sign: int)
    ensures Number(s, base, p, p) == 0 && Clamp(sign * 0) == 0 && ErrnoFor(sign * 0) == Unchanged
  {
  }

  /** What strtol returns, where it puts *endPtr, and errno. */
  function Answer(s: string, front: (char, char), base: int): (int, Option<int>, Errno) {
    var (sign, b, p) := Head(s, base);
    if At(s, 0) == '\0' then (0, None, Unchanged)
    else if !BaseAccepted(b) then (0, None, Invalid)
    else
      var exact := sign * Number(s, b, p, RunEnd(s, b, p));
      (Clamp(exact), Some(EndAt(s, front, StopAt(s, front, b, p))), ErrnoFor(exact))
  }

  /**
   strtol: the number the digits denote, clamped to a long; ERANGE exactly when it had to be clamped. `end` is
   None where *endPtr is not written. Where nothing can be read the code looks in front of the string; `front` is
   what it finds there (see NothingReadEnds for what comes of it).
   */
  method Strtol(s: string, front: (char, char), base: int) returns (value: int, end: Option<int>, errno: Errno)
    ensures (value, end, errno) == Answer(s, front, base)
  {
    hide Head, StopAt, Clamp, Number, RunEnd;
    if At(s, 0) == '\0' {
      return 0, None, Unchanged;
    }
    var sign, b, pos := ReadHead(s, base);
    if b < 2 || b > 36 {
      return 0, None, Invalid;
    }
    var stop;
    value, errno, stop := ReadDigits(s, front, sign, b, pos);
    if !IsDigit(CharAt(s, front, stop - 1)) && !IsAlpha(CharAt(s, front, stop - 1)) {
      stop := 0;
    }
    end := Some(stop);
  }

  /** An empty string gives 0, and nothing is written. */
  lemma EmptyIsZero(s: string, front: (char, char), base: int)
    requires At(s, 0) == '\0'
    ensures Answer(s, front, base) == (0, None, Unchanged)
  {
  }

  /**
   Apart from the empty string: EINVAL exactly for a base that is neither 0 nor from 2 to 36, and then the value is 0;
   ERANGE exactly when the number is below -2^63 or above 2^63 - 1, and then the value is the nearer of these.
   */
  lemma ErrnoExactly(s: string, front: (char, char), base: int)
    requires At(s, 0) != '\0'
    ensures Answer(s, front, base).2 == Invalid <==> base != 0 && !(2 <= base <= 36)
    ensures Answer(s, front, base).2 == Invalid ==> Answer(s, front, base).0 == 0 && Answer(s, front, base).1 == None
    ensures base == 0 || 2 <= base <= 36 ==>
      var (sign, b, p) := Head(s, base);
      var exact := sign * Number(s, b, p, RunEnd(s, b, p));
      var (value, _, errno) := Answer(s, front, base);
      && (errno == Range <==> exact < -0x8000_0000_0000_0000 || exact > 0x7fff_ffff_ffff_ffff)
      && value == if exact < -0x8000_0000_0000_0000 then -0x8000_0000_0000_0000
                  else if exact > 0x7fff_ffff_ffff_ffff then 0x7fff_ffff_ffff_ffff
                  else exact
  {
    hide Number, RunEnd, EndAt, StopAt;
  }
}
