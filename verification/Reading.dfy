/** How userland/printf.c reads a directive, against how section 7.21.6.1 of ISO/IEC 9899:2011 reads it. */
module Reading {
  import opened Prelude
  import opened Format
  import opened Standard

  /**
   The code has read what the standard reads, but for two things: numbers are reduced modulo 2^32, and a dropped
   precision is still taken for one.
   */
  predicate Agree(d: Directive, spec: Spec) {
    && d.f.left == spec.left && d.f.plus == spec.plus && d.f.space == spec.space && d.f.hash == spec.hash
    && d.f.zeropad == spec.zero && !d.f.uppercase
    && d.width == spec.width % UINT_MOD
    && (d.f.precision <==> spec.precision.Some? || spec.dropped)
    && (spec.dropped ==> spec.precision.None?)
    && d.precision == (if spec.precision.Some? then spec.precision.value % UINT_MOD else 0)
    && TypeModulus(d.f) == spec.modulus && d.at == spec.at && d.va == spec.va
  }

  lemma OneFlag(fmt: string, i: nat, j: nat, c: char)
    requires i < j
    ensures HasFlag(fmt, i, j, c) <==> At(fmt, i) == c || HasFlag(fmt, i + 1, j, c)
  {
  }

  function MoreFlags(f: Flags, zero: bool, minus: bool, plus: bool, space: bool, hash: bool): Flags {
    Flags(f.zeropad || zero, f.left || minus, f.plus || plus, f.space || space, f.hash || hash,
          f.uppercase, f.chr, f.short, f.long, f.longLong, f.precision)
  }

  /** The flags of f and those in the format. */
  function WithFlags(f: Flags, fmt: string, i: nat, j: nat): Flags {
    MoreFlags(f, HasFlag(fmt, i, j, '0'), HasFlag(fmt, i, j, '-'), HasFlag(fmt, i, j, '+'), HasFlag(fmt, i, j, ' '),
              HasFlag(fmt, i, j, '#'))
  }

  function WithFlag(f: Flags, c: char): Flags {
    MoreFlags(f, c == '0', c == '-', c == '+', c == ' ', c == '#')
  }

  lemma FlagsAddUp(f: Flags, c: char, zero: bool, minus: bool, plus: bool, space: bool, hash: bool)
    ensures MoreFlags(WithFlag(f, c), zero, minus, plus, space, hash)
            == MoreFlags(f, c == '0' || zero, c == '-' || minus, c == '+' || plus, c == ' ' || space, c == '#' || hash)
  {
  }

  lemma FirstFlag(f: Flags, fmt: string, i: nat, j: nat)
    requires i < j && IsFlag(At(fmt, i))
    ensures WithFlags(WithFlag(f, At(fmt, i)), fmt, i + 1, j) == WithFlags(f, fmt, i, j)
  {
    hide HasFlag, WithFlag, MoreFlags, At;
    FlagsAddUp(f, At(fmt, i), HasFlag(fmt, i + 1, j, '0'), HasFlag(fmt, i + 1, j, '-'), HasFlag(fmt, i + 1, j, '+'),
               HasFlag(fmt, i + 1, j, ' '), HasFlag(fmt, i + 1, j, '#'));
    OneFlag(fmt, i, j, '0');
    OneFlag(fmt, i, j, '-');
    OneFlag(fmt, i, j, '+');
    OneFlag(fmt, i, j, ' ');
    OneFlag(fmt, i, j, '#');
  }

  lemma ParseOneFlag(fmt: string, i: nat, f: Flags)
    ensures ParseFlags(fmt, i, f) ==
            if IsFlag(At(fmt, i)) then ParseFlags(fmt, i + 1, WithFlag(f, At(fmt, i))) else (f, i)
  {
  }

  lemma NoFlag(f: Flags, fmt: string, i: nat)
    ensures WithFlags(f, fmt, i, i) == f
  {
  }

  lemma {:induction false} FlagsAgree(fmt: string, i: nat, f: Flags)
    ensures ParseFlags(fmt, i, f) == (WithFlags(f, fmt, i, FlagsEnd(fmt, i)), FlagsEnd(fmt, i))
    decreases |fmt| - i
  {
    hide WithFlags, HasFlag, WithFlag, ParseFlags;
    ParseOneFlag(fmt, i, f);
    if IsFlag(At(fmt, i)) {
      FirstFlag(f, fmt, i, FlagsEnd(fmt, i));
      FlagsAgree(fmt, i + 1, WithFlag(f, At(fmt, i)));
    } else {
      NoFlag(f, fmt, i);
    }
  }

  lemma AnotherDigit(n: nat, d: nat)
    ensures (n % UINT_MOD * 10 + d) % UINT_MOD == (n * 10 + d) % UINT_MOD
  {
    var q := n / UINT_MOD;
    assert n * 10 + d == n % UINT_MOD * 10 + d + q * 10 * UINT_MOD;
  }

  /** _atoi reads a number modulo 2^32. */
  lemma {:induction false} NumberAgrees(fmt: string, i: nat, m: nat)
    requires i <= m <= DigitsEnd(fmt, i)
    ensures ParseNumber(fmt, m, Decimal(fmt, i, m) % UINT_MOD)
            == (Decimal(fmt, i, DigitsEnd(fmt, i)) % UINT_MOD, DigitsEnd(fmt, i))
    decreases DigitsEnd(fmt, i) - m
  {
    var j := DigitsEnd(fmt, i);
    DigitsStop(fmt, i);
    if m < j {
      AnotherDigit(Decimal(fmt, i, m), At(fmt, m) as int - '0' as int);
      assert Decimal(fmt, i, m + 1) == Decimal(fmt, i, m) * 10 + (At(fmt, m) as int - '0' as int);
      NumberAgrees(fmt, i, m + 1);
    }
  }

  lemma {:induction false} DigitsStop(fmt: string, i: nat)
    ensures !IsDigit(At(fmt, DigitsEnd(fmt, i)))
    decreases |fmt| - i
  {
    if IsDigit(At(fmt, i)) {
      DigitsStop(fmt, i + 1);
    }
  }

  lemma AtoiAgrees(fmt: string, i: nat)
    ensures ParseNumber(fmt, i, 0) == (Decimal(fmt, i, DigitsEnd(fmt, i)) % UINT_MOD, DigitsEnd(fmt, i))
    ensures !IsDigit(At(fmt, i)) ==> DigitsEnd(fmt, i) == i && Decimal(fmt, i, i) == 0
  {
    NumberAgrees(fmt, i, i);
  }

  lemma IntIsShort(w: Word)
    ensures Abs(Signed(w, UINT_MOD)) % UINT_MOD == Abs(Signed(w, UINT_MOD))
  {
  }

  lemma WidthAgrees(fmt: string, i: nat, f: Flags, va: seq<Arg>)
    ensures ParseWidth(fmt, i, f, va).Some? <==> ReadWidth(fmt, i, va).Some?
    ensures ParseWidth(fmt, i, f, va).Some? ==>
      var d, (width, minus, k, va') := ParseWidth(fmt, i, f, va).value, ReadWidth(fmt, i, va).value;
      && d.f == (if minus then f.(left := true) else f)
      && d.width == width % UINT_MOD && d.precision == 0 && d.at == k && d.va == va'
  {
    hide ParseNumber, Decimal, DigitsEnd, Signed, At;
    AtoiAgrees(fmt, i);
    if va != [] && va[0].Integer? {
      IntIsShort(va[0].w);
    }
  }

  lemma PrecisionAgrees(fmt: string, d: Directive)
    requires d.precision == 0
    ensures ParsePrecision(fmt, d).Some? <==> ReadPrecision(fmt, d.at, d.va).Some?
    ensures ParsePrecision(fmt, d).Some? ==>
      var e, (precision, dropped, l, va') := ParsePrecision(fmt, d).value, ReadPrecision(fmt, d.at, d.va).value;
      && e.f == (if precision.Some? || dropped then d.f.(precision := true) else d.f)
      && (dropped ==> precision.None?)
      && e.precision == (if precision.Some? then precision.value % UINT_MOD else 0)
      && e.width == d.width && e.at == l && e.va == va'
  {
    hide ParseNumber, Decimal, DigitsEnd, Signed, At;
    AtoiAgrees(fmt, d.at + 1);
    if d.va != [] && d.va[0].Integer? {
      IntIsShort(d.va[0].w);
    }
  }

  lemma LengthAgrees(fmt: string, d: Directive)
    requires !d.f.chr && !d.f.short && !d.f.long && !d.f.longLong
    ensures TypeModulus(ParseLength(fmt, d).f) == ReadLengthModifier(fmt, d.at).0
    ensures ParseLength(fmt, d).at == ReadLengthModifier(fmt, d.at).1
  {
    hide At;
  }

  lemma LengthChangesNothingElse(fmt: string, d: Directive)
    ensures var e := ParseLength(fmt, d);
      && e.f.left == d.f.left && e.f.plus == d.f.plus && e.f.space == d.f.space && e.f.hash == d.f.hash
      && e.f.zeropad == d.f.zeropad && e.f.uppercase == d.f.uppercase && e.f.precision == d.f.precision
      && e.width == d.width && e.precision == d.precision && e.va == d.va
  {
    hide At;
  }

  /** The code reads every directive the standard reads, and no others, and reads the same but as Agree says. */
  lemma DirectivesAgree(fmt: string, i: nat, va: seq<Arg>)
    ensures Parse(fmt, i, va).Some? <==> ReadSpec(fmt, i, va).Some?
    ensures Parse(fmt, i, va).Some? ==> Agree(Parse(fmt, i, va).value, ReadSpec(fmt, i, va).value)
  {
    hide ParseFlags, ParseWidth, ParsePrecision, ParseLength, ReadWidth, ReadPrecision, ReadLengthModifier;
    hide TypeModulus, HasFlag, FlagsEnd;
    FlagsAgree(fmt, i, NO_FLAGS);
    var (f, j) := ParseFlags(fmt, i, NO_FLAGS);
    WidthAgrees(fmt, j, f, va);
    if ParseWidth(fmt, j, f, va).Some? {
      var d := ParseWidth(fmt, j, f, va).value;
      PrecisionAgrees(fmt, d);
      if ParsePrecision(fmt, d).Some? {
        LengthAgrees(fmt, ParsePrecision(fmt, d).value);
        LengthChangesNothingElse(fmt, ParsePrecision(fmt, d).value);
      }
    }
  }
}
