/** The digits that userland/printf.c makes of a number, against the number and its usual numeral. */
module Numerals {
  import opened Prelude
  import opened Format

  // ---------- digits ----------

  function Pow(b: nat, e: nat): nat {
    if e == 0 then 1 else b * Pow(b, e - 1)
  }

  /** The number a digit character stands for. */
  function DigitValue(c: char): int {
    if '0' <= c <= '9' then c as int - '0' as int
    else if 'a' <= c <= 'f' then c as int - 'a' as int + 10
    else if 'A' <= c <= 'F' then c as int - 'A' as int + 10
    else -1
  }

  /** The number a string of digits, least significant first, stands for. */
  function Denotes(s: string, base: nat): int {
    if s == "" then 0 else DigitValue(s[0]) + base * Denotes(s[1..], base)
  }

  /** v is `low` with `rest` in the places above. */
  predicate Splits(v: nat, low: int, power: nat, rest: nat) {
    v == low + power * rest && 0 <= low < power
  }

  /** The digits denote the value, and where there is no room for all of them, its remainder. */
  lemma {:induction false} DigitsDenoteValue(v: nat, base: nat, uppercase: bool, room: nat) returns (rest: nat)
    requires 2 <= base <= 16 && 1 <= room
    ensures var s := Digits(v, base, uppercase, room);
      Splits(v, Denotes(s, base), Pow(base, |s|), rest) && (rest == 0 || |s| == room)
    decreases room
  {
    hide Splits;
    var q, d, tail := FirstDigit(v, base, uppercase, room);
    if tail != "" {
      rest := DigitsDenoteValue(q, base, uppercase, room - 1);
    } else {
      rest := q;
      NothingBelow(q, base);
    }
    OneDigitMore(v, base, d, q, Denotes(tail, base), Pow(base, |tail|), rest);
  }

  lemma NothingBelow(q: nat, base: nat)
    ensures Splits(q, Denotes("", base), Pow(base, 0), q)
  {
  }

  lemma Divided(v: nat, base: nat) returns (q: nat, d: nat)
    requires 2 <= base
    ensures q == v / base && d == v % base && v == base * q + d && d < base
    ensures (q == 0 <==> v < base) && (v > 0 ==> q < v)
  {
    q, d := v / base, v % base;
  }

  /** Digits, Denotes and Pow unfolded once. */
  lemma FirstDigit(v: nat, base: nat, uppercase: bool, room: nat) returns (q: nat, d: nat, tail: string)
    requires 2 <= base <= 16 && 1 <= room
    ensures v == base * q + d && d < base
    ensures q != 0 && 1 < room ==> tail == Digits(q, base, uppercase, room - 1)
    ensures q == 0 || 1 == room <==> tail == ""
    ensures var s := Digits(v, base, uppercase, room);
      && |s| == 1 + |tail| && Denotes(s, base) == d + base * Denotes(tail, base)
      && Pow(base, |s|) == base * Pow(base, |tail|)
  {
    hide DigitChar, DigitValue;
    q, d := Divided(v, base);
    tail := if q != 0 && 1 < room then Digits(q, base, uppercase, room - 1) else "";
    DigitCharDenotes(d, uppercase);
    assert ([DigitChar(d, uppercase)] + tail)[1..] == tail;
  }

  lemma DigitCharDenotes(d: nat, uppercase: bool)
    requires d < 16
    ensures DigitValue(DigitChar(d, uppercase)) == d
  {
  }

  lemma OneDigitMore(v: nat, base: nat, d: nat, q: nat, low: int, power: nat, rest: nat)
    requires d < base && v == base * q + d && Splits(q, low, power, rest)
    ensures Splits(v, d + base * low, base * power, rest)
  {
    Distribute(base, low, power * rest);
    Associate(base, power, rest);
    Distribute(base, low, 1);
    Monotone(base, low + 1, power);
    Monotone(base, 0, low);
  }

  lemma Distribute(a: int, x: int, y: int)
    ensures a * (x + y) == a * x + a * y
  {
  }

  lemma Associate(a: int, x: int, y: int)
    ensures a * (x * y) == (a * x) * y
  {
  }

  lemma Monotone(a: nat, x: int, y: int)
    ensures x <= y ==> a * x <= a * y
  {
  }

  lemma QuotientIsLess(v: nat, base: nat)
    requires 2 <= base
    ensures 0 <= v / base && 0 <= v % base < base && (v > 0 ==> v / base < v)
  {
    var q, d := Divided(v, base);
  }

  /** The usual numeral of v, most significant digit first. */
  function Numeral(v: nat, base: nat, uppercase: bool): (s: string)
    requires 2 <= base <= 16
    ensures |s| >= 1
  {
    QuotientIsLess(v, base);
    (if v < base then "" else Numeral(v / base, base, uppercase)) + [DigitChar(v % base, uppercase)]
  }

  lemma {:induction false} ReverseAppend(s: string, t: string)
    ensures Reverse(s + t) == Reverse(t) + Reverse(s)
  {
    if t == "" {
      assert s + t == s;
    } else {
      assert (s + t)[..|s + t| - 1] == s + t[..|t| - 1];
      ReverseAppend(s, t[..|t| - 1]);
    }
  }

  lemma {:induction false} ReverseFill(c: char, k: int)
    ensures Reverse(Fill(c, k)) == Fill(c, k)
  {
    if k > 0 {
      assert Fill(c, k)[..k - 1] == Fill(c, k - 1);
      ReverseFill(c, k - 1);
      FillIs(c, k - 1);
      FillIs(c, k);
    }
  }

  lemma FillIs(c: char, k: int)
    ensures forall i :: 0 <= i < k ==> Fill(c, k)[i] == c
  {
  }

  /** Where the numeral fits, the digit loop makes it, backwards. */
  lemma {:induction false} DigitsSpellNumeral(v: nat, base: nat, uppercase: bool, room: nat)
    requires 2 <= base <= 16 && |Numeral(v, base, uppercase)| <= room
    ensures Reverse(Digits(v, base, uppercase, room)) == Numeral(v, base, uppercase)
    decreases room
  {
    var q, _ := Divided(v, base);
    var d := [DigitChar(v % base, uppercase)];
    assert Reverse(d) == d + Reverse("") == d;
    if v >= base {
      var more := Digits(q, base, uppercase, room - 1);
      assert Numeral(v, base, uppercase) == Numeral(q, base, uppercase) + d;
      assert Digits(v, base, uppercase, room) == d + more;
      DigitsSpellNumeral(q, base, uppercase, room - 1);
      ReverseAppend(d, more);
    }
  }

  /** In base 8 and above a machine word has at most 22 digits. */
  lemma {:induction false} NumeralIsShort(v: nat, base: nat, uppercase: bool, k: nat)
    requires 8 <= base <= 16 && v < Pow(8, k) && k >= 1
    ensures |Numeral(v, base, uppercase)| <= k
    decreases k
  {
    var q, _ := Divided(v, base);
    if v >= base {
      QuotientBelow(v, base, q, Pow(8, k - 1));
      NumeralIsShort(q, base, uppercase, k - 1);
    }
  }

  lemma QuotientBelow(v: nat, base: nat, q: nat, bound: nat)
    requires 8 <= base && base * q <= v < 8 * bound
    ensures q < bound
  {
    Monotone(base, bound, q);
    Monotone(bound, 8, base);
  }

  lemma {:induction false} NumeralStartsWithDigit(v: nat, base: nat, uppercase: bool)
    requires 2 <= base <= 16
    ensures v > 0 ==> Numeral(v, base, uppercase)[0] != '0'
    decreases v
  {
    var q, _ := Divided(v, base);
    if v >= base {
      NumeralStartsWithDigit(q, base, uppercase);
    }
  }

  // ---------- words ----------

  lemma EightToThe22()
    ensures Pow(8, 22) > WORD_MOD
  {
    assert Pow(8, 2) == 8 * Pow(8, 1) == 64;
    PowAdds(8, 2, 2);
    PowAdds(8, 4, 4);
    PowAdds(8, 8, 8);
    PowAdds(8, 16, 4);
    PowAdds(8, 20, 2);
  }

  lemma {:induction false} PowAdds(b: nat, m: nat, n: nat)
    ensures Pow(b, m + n) == Pow(b, m) * Pow(b, n)
  {
    if m > 0 {
      PowAdds(b, m - 1, n);
      Associate(b, Pow(b, m - 1), Pow(b, n));
    }
  }

  /** The digits of a word, in reading order: its numeral, short and without a leading zero. */
  lemma SpelledOut(value: nat, base: nat, f: Flags)
    requires value < WORD_MOD && 8 <= base <= 16
    ensures var digits := if f.precision && value == 0 then "" else Numeral(value, base, f.uppercase);
      && Reverse(NumberDigits(value, base, f)) == digits && |digits| <= 22
      && (f.precision && digits != "" ==> digits[0] != '0')
  {
    hide Numeral, Digits;
    if f.precision && value == 0 {
      assert Reverse("") == "";
    } else {
      EightToThe22();
      NumeralIsShort(value, base, f.uppercase, 22);
      DigitsSpellNumeral(value, base, f.uppercase, NTOA);
      NumeralStartsWithDigit(value, base, f.uppercase);
    }
  }

  lemma {:induction false} NumeralHasNoSpace(v: nat, base: nat, uppercase: bool)
    requires 2 <= base <= 16
    ensures ' ' !in Numeral(v, base, uppercase)
    decreases v
  {
    var q, d := Divided(v, base);
    assert DigitChar(d, uppercase) != ' ';
    if v >= base {
      NumeralHasNoSpace(q, base, uppercase);
    }
  }

  // ---------- what the vocabulary means ----------

  /** The digit characters, one by one. */
  lemma DigitCharIs(d: nat)
    requires d < 16
    ensures DigitChar(d, false) == "0123456789abcdef"[d] && DigitChar(d, true) == "0123456789ABCDEF"[d]
  {
  }

  /** The one number in the range of a signed type that is congruent to the word. */
  lemma SignedExactly(w: nat, modulus: nat)
    requires modulus > 0
    ensures 0 - modulus <= 2 * Signed(w, modulus) < modulus
    ensures (w - Signed(w, modulus)) % modulus == 0
  {
    var q := w / modulus;
    assert w == modulus * q + w % modulus;
    MultipleOf(modulus, q);
    MultipleOf(modulus, q + 1);
    Distribute(modulus, q, 1);
  }

  lemma MultipleOf(modulus: nat, q: nat)
    requires modulus > 0
    ensures modulus * q % modulus == 0
  {
    var r := modulus * q % modulus;
    var p := modulus * q / modulus;
    assert modulus * q == modulus * p + r;
    Distribute(modulus, q - p, p);
    if q - p >= 1 {
      Monotone(modulus, 1, q - p);
    } else if q - p < 0 {
      Monotone(modulus, 1, p - q);
      Distribute(modulus, p - q, q - p);
    }
  }

  lemma {:induction false} ReverseTwice(s: string)
    ensures Reverse(Reverse(s)) == s
  {
    if s != "" {
      var last := [s[|s| - 1]];
      ReverseTwice(s[..|s| - 1]);
      ReverseAppend(last, Reverse(s[..|s| - 1]));
      assert Reverse(last) == last + Reverse("") == last;
      assert s == s[..|s| - 1] + last;
    }
  }

  /** The numeral of a number denotes it, and shows the digit characters of its base. */
  lemma NumeralDenotes(v: nat, base: nat, uppercase: bool)
    requires 2 <= base <= 16
    ensures Denotes(Reverse(Numeral(v, base, uppercase)), base) == v
  {
    hide Numeral, Digits, Denotes, Pow, Reverse;
    var room := |Numeral(v, base, uppercase)| + 1;
    DigitsSpellNumeral(v, base, uppercase, room);
    ReverseTwice(Digits(v, base, uppercase, room));
    var rest := DigitsDenoteValue(v, base, uppercase, room);
    assert rest == 0;
  }
}
