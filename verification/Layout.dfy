/**
 The layout of a converted integer by userland/printf.c against the one that section 7.21.6.1 of ISO/IEC 9899:2011
 prescribes.
 */
module Layout {
  import opened Prelude
  import opened Format
  import opened Numerals
  import opened Standard
  import opened Reading

  // ---------- the code's layout without '#' ----------

  /** Text between spaces. */
  function Laid(lead: int, core: string, tail: int): string {
    Fill(' ', lead) + core + Fill(' ', tail)
  }

  /** Sign, zeros, digits. */
  function Core(sign: string, zeros: int, digits: string): string {
    sign + Fill('0', zeros) + digits
  }

  /** How many zeros the code puts before the digits. */
  function ZerosBefore(d: nat, sign: string, precision: nat, width: nat, f: Flags): int {
    var w := if f.zeropad && width > 0 && sign != "" then width - 1 else width;
    if f.left then 0 else (if f.zeropad then Min(w, NTOA) else Min(precision, NTOA)) - d
  }

  /** The code's layout, piece by piece. */
  function CodeText(digits: string, sign: string, precision: nat, width: nat, f: Flags): string {
    var zeros := ZerosBefore(|digits|, sign, precision, width, f);
    var length := |digits| + Max(zeros, 0);
    var put := if length < NTOA then sign else "";
    Laid(if f.left || f.zeropad then 0 else width - length - |put|, Core(put, zeros, digits),
         if f.left then width - length - |put| else 0)
  }

  /** What the buffer holds when _out_rev gets it, and what it says backwards. */
  lemma BufferContents(buf: string, negative: bool, base: nat, precision: nat, width: nat, f: Flags)
    returns (all: string, put: string)
    requires |buf| < NTOA && !f.hash && (f.zeropad ==> precision == 0)
    ensures FormatDigits(buf, negative, base, precision, width, f) == Padded(all, WidthLeft(negative, width, f), f)
    ensures var zeros := ZerosBefore(|buf|, SignText(negative, f), precision, width, f);
      && put == (if |buf| + Max(zeros, 0) < NTOA then SignText(negative, f) else "")
      && |all| == |buf| + Max(zeros, 0) + |put|
      && Reverse(all) == Core(put, zeros, Reverse(buf))
  {
    hide Fill, Reverse, LeadingZeros, WithSign, Padded, Prefix, SignText, Core;
    var w := WidthLeft(negative, width, f);
    ZerosAdded(buf, precision, w, f);
    var filled := LeadingZeros(buf, precision, w, f);
    NoPrefix(filled, base, precision, w, f);
    SignAdded(filled, negative, f);
    put := if |filled| < NTOA then SignText(negative, f) else "";
    all := filled + put;
    ReverseOfPieces(buf, ZerosBefore(|buf|, SignText(negative, f), precision, width, f), put);
  }

  lemma NoPrefix(buf: string, base: nat, precision: nat, width: nat, f: Flags)
    requires |buf| <= NTOA && !f.hash
    ensures Prefix(buf, base, precision, width, f) == buf
  {
  }

  lemma TextIsCodeText(buf: string, negative: bool, base: nat, precision: nat, width: nat, f: Flags)
    requires |buf| < NTOA && !f.hash && (f.zeropad ==> precision == 0)
    ensures FormatDigits(buf, negative, base, precision, width, f) ==
            CodeText(Reverse(buf), SignText(negative, f), precision, width, f)
  {
    hide Fill, Reverse, FormatDigits, Padded, Laid, Core, SignText, ZerosBefore, CodeText;
    var all, put := BufferContents(buf, negative, base, precision, width, f);
    PaddedIsLaid(all, negative, width, f);
    CodeTextIsLaid(Reverse(buf), SignText(negative, f), precision, width, f, put, |all|);
  }

  lemma CodeTextIsLaid(digits: string, sign: string, precision: nat, width: nat, f: Flags, put: string, n: nat)
    requires var length := |digits| + Max(ZerosBefore(|digits|, sign, precision, width, f), 0);
      put == (if length < NTOA then sign else "") && n == length + |put|
    ensures CodeText(digits, sign, precision, width, f) ==
            Laid(if f.left || f.zeropad then 0 else width - n,
                 Core(put, ZerosBefore(|digits|, sign, precision, width, f), digits),
                 if f.left then width - n else 0)
  {
    hide Laid, Core, ZerosBefore;
  }

  lemma ZerosAdded(buf: string, precision: nat, w: nat, f: Flags)
    requires |buf| < NTOA && (f.zeropad ==> precision == 0)
    ensures var fill := if f.zeropad then Min(w, NTOA) else Min(precision, NTOA);
      LeadingZeros(buf, precision, w, f) == buf + Fill('0', if f.left then 0 else fill - |buf|)
  {
    hide Fill;
    EmptyFill('0');
    assert buf + "" == buf;
  }

  lemma EmptyFill(c: char)
    ensures forall k :: k <= 0 ==> Fill(c, k) == ""
  {
  }

  lemma SignAdded(buf: string, negative: bool, f: Flags)
    requires |buf| <= NTOA
    ensures WithSign(buf, negative, f) == buf + if |buf| < NTOA then SignText(negative, f) else ""
  {
  }

  lemma ReverseOfPieces(buf: string, zeros: int, sign: string)
    requires |sign| <= 1
    ensures Reverse(buf + Fill('0', zeros) + sign) == Core(sign, zeros, Reverse(buf))
  {
    hide Fill, Reverse;
    ReverseAppend(buf + Fill('0', zeros), sign);
    ReverseAppend(buf, Fill('0', zeros));
    ReverseFill('0', zeros);
    ReverseOne(sign);
    assert sign + (Fill('0', zeros) + Reverse(buf)) == sign + Fill('0', zeros) + Reverse(buf);
  }

  lemma ReverseOne(s: string)
    requires |s| <= 1
    ensures Reverse(s) == s
  {
    if s != "" {
      assert s[..0] == "" && Reverse(s) == [s[0]] + Reverse(s[..0]);
    }
  }

  lemma PaddedIsLaid(buf: string, negative: bool, width: nat, f: Flags)
    ensures Padded(buf, WidthLeft(negative, width, f), f) ==
            Laid(if f.left || f.zeropad then 0 else width - |buf|, Reverse(buf), if f.left then width - |buf| else 0)
  {
    hide Fill, Reverse, Padded, Laid;
    if f.left {
      PaddedOnRight(buf, width, f);
    } else if f.zeropad {
      NotPadded(buf, WidthLeft(negative, width, f), f);
    } else {
      PaddedOnLeft(buf, width, f);
    }
  }

  lemma PaddedOnRight(buf: string, w: nat, f: Flags)
    requires f.left
    ensures Padded(buf, w, f) == Laid(0, Reverse(buf), w - |buf|)
  {
    hide Fill, Reverse;
    EmptyFill(' ');
  }

  lemma PaddedOnLeft(buf: string, w: nat, f: Flags)
    requires !f.left && !f.zeropad
    ensures Padded(buf, w, f) == Laid(w - |buf|, Reverse(buf), 0)
  {
    hide Fill, Reverse;
    EmptyFill(' ');
  }

  lemma NotPadded(buf: string, w: nat, f: Flags)
    requires !f.left && f.zeropad
    ensures Padded(buf, w, f) == Laid(0, Reverse(buf), 0)
  {
    hide Fill, Reverse;
    EmptyFill(' ');
  }

  // ---------- against the standard, without '#' ----------

  /**
   When the 32-byte buffer and the order of its filling do no harm: a left-justified number asks for no zeros, and
   the others fit the buffer with their sign. (A sign that is a space and is lost cannot be told from padding.)
   */
  predicate PlainConforms(digits: nat, sign: string, precision: nat, width: nat, left: bool, zeropad: bool) {
    if left then precision <= digits
    else if zeropad then width <= NTOA
    else Max(precision, digits) + |sign| <= NTOA || (sign == " " && precision == NTOA && width > NTOA)
  }

  /** How many zeros the standard puts before the digits. */
  function IsoZeros(d: nat, sign: string, precision: nat, width: nat, f: Flags): int {
    if f.zeropad && !f.left then width - |sign| - d else precision - d
  }

  function IsoLaid(digits: string, sign: string, precision: nat, width: nat, f: Flags): string {
    var zeros := IsoZeros(|digits|, sign, precision, width, f);
    var space := width - |digits| - Max(zeros, 0) - |sign|;
    Laid(if f.left || f.zeropad then 0 else space, Core(sign, zeros, digits), if f.left then space else 0)
  }

  /** Which character stands at a position of a laid out number. */
  lemma LaidAt(lead: int, sign: string, zeros: int, digits: string, tail: int, i: nat)
    ensures var text := Laid(lead, Core(sign, zeros, digits), tail);
      var l, z := Max(lead, 0), Max(zeros, 0);
      && |text| == l + |sign| + z + |digits| + Max(tail, 0)
      && (i < |text| ==> (
           text[i] ==
             if i < l then ' '
             else if i < l + |sign| then sign[i - l]
             else if i < l + |sign| + z then '0'
             else if i < l + |sign| + z + |digits| then digits[i - l - |sign| - z]
             else ' '))
  {
    FillIs(' ', lead);
    FillIs('0', zeros);
    FillIs(' ', tail);
  }

  lemma FillOfNothing(c: char, j: int, k: int)
    ensures Max(j, 0) == Max(k, 0) ==> Fill(c, j) == Fill(c, k)
  {
  }

  lemma ConformingTextsAgree(digits: string, sign: string, precision: nat, width: nat, f: Flags)
    requires |digits| + |sign| <= NTOA && |sign| <= 1 && (f.zeropad ==> precision == 0)
    requires PlainConforms(|digits|, sign, precision, width, f.left, f.zeropad)
    ensures CodeText(digits, sign, precision, width, f) == IsoLaid(digits, sign, precision, width, f)
  {
    hide Fill;
    var zc, zi := ZerosBefore(|digits|, sign, precision, width, f), IsoZeros(|digits|, sign, precision, width, f);
    FillOfNothing('0', zc, zi);
    if !f.left && !f.zeropad && Max(precision, |digits|) + |sign| > NTOA {
      SpaceForSign(digits, width);
    }
  }

  /** A lost space sign is made up for by one more space of padding. */
  lemma SpaceForSign(digits: string, width: nat)
    requires width > NTOA
    ensures Laid(width - NTOA, Core("", NTOA - |digits|, digits), 0)
            == Laid(width - NTOA - 1, Core(" ", NTOA - |digits|, digits), 0)
  {
    var z := NTOA - |digits|;
    var a, b := Laid(width - NTOA, Core("", z, digits), 0), Laid(width - NTOA - 1, Core(" ", z, digits), 0);
    forall i: nat | i < |a| && i < |b| ensures a[i] == b[i] {
      LaidAt(width - NTOA, "", z, digits, 0, i);
      LaidAt(width - NTOA - 1, " ", z, digits, 0, i);
    }
    LaidAt(width - NTOA, "", z, digits, 0, 0);
    LaidAt(width - NTOA - 1, " ", z, digits, 0, 0);
  }

  lemma OtherTextsDiffer(digits: string, sign: string, precision: nat, width: nat, f: Flags)
    requires |digits| <= 22 && |sign| <= 1 && (f.zeropad ==> precision == 0)
    requires sign != "0" && (precision > 0 && digits != "" ==> digits[0] != '0')
    requires !PlainConforms(|digits|, sign, precision, width, f.left, f.zeropad)
    ensures CodeText(digits, sign, precision, width, f) != IsoLaid(digits, sign, precision, width, f)
  {
    hide Laid, Core, Fill;
    var d, s := |digits|, |sign|;
    var zc, zi := ZerosBefore(d, sign, precision, width, f), IsoZeros(d, sign, precision, width, f);
    var put := if d + Max(zc, 0) < NTOA then sign else "";
    var ec, ei := width - d - Max(zc, 0) - |put|, width - d - Max(zi, 0) - s;
    var i := if f.left then s
             else if f.zeropad then 0
             else Max(ei, 0) + if s == 1 && sign == " " && precision > NTOA then 1 else 0;
    LaidAt(if f.left || f.zeropad then 0 else ec, put, zc, digits, if f.left then ec else 0, i);
    LaidAt(if f.left || f.zeropad then 0 else ei, sign, zi, digits, if f.left then ei else 0, i);
  }

  /** A conversion without '#', in terms of IsoLaid. */
  lemma PlainTextMatches(value: nat, negative: bool, base: nat, precision: nat, width: nat, f: Flags)
    requires value < WORD_MOD && 8 <= base <= 16 && (f.hash ==> value == 0)
    requires (f.zeropad ==> precision == 0) && (precision > 0 ==> f.precision)
    ensures var digits, sign := FieldDigits(value, base, f), SignText(negative, f);
      && (NumberText(value, negative, base, precision, width, f) == IsoLaid(digits, sign, precision, width, f)
          <==> PlainConforms(|digits|, sign, precision, width, f.left, f.zeropad))
      && |digits| <= 22
  {
    hide FormatDigits, CodeText, IsoLaid, PlainConforms, Numeral, Digits, Reverse;
    var g := if value == 0 then f.(hash := false) else f;
    var buf, sign, digits := NumberDigits(value, base, g), SignText(negative, f), FieldDigits(value, base, f);
    SpelledOut(value, base, g);
    TextIsCodeText(buf, negative, base, precision, width, g);
    assert CodeText(digits, sign, precision, width, g) == CodeText(digits, sign, precision, width, f) by {
      HashDoesNotMatter(digits, sign, precision, width, f);
    }
    if PlainConforms(|digits|, sign, precision, width, f.left, f.zeropad) {
      ConformingTextsAgree(digits, sign, precision, width, f);
    } else {
      OtherTextsDiffer(digits, sign, precision, width, f);
    }
  }

  function FieldDigits(value: nat, base: nat, f: Flags): string
    requires 2 <= base <= 16
  {
    if f.precision && value == 0 then "" else Numeral(value, base, f.uppercase)
  }

  lemma HashDoesNotMatter(digits: string, sign: string, precision: nat, width: nat, f: Flags)
    ensures CodeText(digits, sign, precision, width, f.(hash := false)) == CodeText(digits, sign, precision, width, f)
  {
  }

  // ---------- the code's layout with '#' ----------

  /** How many characters the '#' part of _ntoa_format takes off the front: padding zeros or, by mistake, digits. */
  function TakenOff(length: nat, base: nat, width: nat, f: Flags): (k: nat)
    ensures length > 0 ==> k <= length
  {
    if f.precision || length != width then 0 else if base == 16 && length > 1 then 2 else 1
  }

  function HashLetter(length: nat, base: nat, f: Flags): (s: string)
    ensures |s| <= 1
  {
    if base != 16 || length >= NTOA then "" else if f.uppercase then "X" else "x"
  }

  function HashZero(length: nat): (s: string)
    ensures |s| <= 1
  {
    if length < NTOA then "0" else ""
  }

  function HashPrefix(length: nat, base: nat, f: Flags): string {
    var letter := HashLetter(length, base, f);
    HashZero(length + |letter|) + letter
  }

  /** What an alternative octal or hexadecimal form looks like without the spaces around it. */
  function HashCore(digits: string, base: nat, precision: nat, width: nat, f: Flags): string
    requires digits != ""
  {
    var filled := Fill('0', ZerosBefore(|digits|, "", precision, width, f)) + digits;
    var kept := filled[TakenOff(|filled|, base, width, f)..];
    HashPrefix(|kept|, base, f) + kept
  }

  lemma {:induction false} ReverseFront(s: string, k: nat)
    requires k <= |s|
    ensures Reverse(s[..|s| - k]) == Reverse(s)[k..]
  {
    if k == 0 {
      assert s[..|s|] == s;
    } else {
      var t := s[..|s| - 1];
      assert t[..|t| - (k - 1)] == s[..|s| - k];
      ReverseFront(t, k - 1);
      assert Reverse(s)[k..] == Reverse(t)[k - 1..];
    }
  }

  /** The '#' part takes characters off the end of the buffer and puts the prefix there. */
  lemma PrefixAtEnd(buf: string, base: nat, width: nat, f: Flags)
    requires 0 < |buf| <= NTOA && f.hash && (base == 8 || base == 16)
    ensures var b := buf[..|buf| - TakenOff(|buf|, base, width, f)];
      var letter := HashLetter(|b|, base, f);
      Prefix(buf, base, 0, width, f) == b + letter + HashZero(|b| + |letter|)
  {
    var b := buf[..|buf| - TakenOff(|buf|, base, width, f)];
    assert b + "" == b;
    var letter := HashLetter(|b|, base, f);
    assert BaseLetter(b, base, f) == b + letter;
    assert b + letter + "" == b + letter;
    assert buf[..|buf|] == buf;
  }

  lemma PrefixIsHashPrefix(buf: string, base: nat, width: nat, f: Flags)
    requires 0 < |buf| <= NTOA && f.hash && (base == 8 || base == 16)
    ensures Reverse(Prefix(buf, base, 0, width, f)) ==
            (var kept := Reverse(buf)[TakenOff(|buf|, base, width, f)..]; HashPrefix(|kept|, base, f) + kept)
  {
    hide Reverse, HashLetter, HashZero, TakenOff, Prefix;
    PrefixAtEnd(buf, base, width, f);
    var k := TakenOff(|buf|, base, width, f);
    ReverseFront(buf, k);
    var letter := HashLetter(|buf| - k, base, f);
    ReverseWithPrefix(buf[..|buf| - k], letter, HashZero(|buf| - k + |letter|));
  }

  lemma ReverseWithPrefix(b: string, letter: string, zero: string)
    requires |letter| <= 1 && |zero| <= 1
    ensures Reverse(b + letter + zero) == zero + letter + Reverse(b)
  {
    hide Reverse;
    ReverseAppend(b + letter, zero);
    ReverseAppend(b, letter);
    ReverseOne(letter);
    ReverseOne(zero);
    assert zero + (letter + Reverse(b)) == zero + letter + Reverse(b);
  }

  /** A precision that comes without its flag does not occur, so that the code compares with the width only. */
  lemma PrecisionIsIrrelevant(buf: string, base: nat, precision: nat, width: nat, f: Flags)
    requires |buf| <= NTOA && (precision > 0 ==> f.precision)
    ensures Prefix(buf, base, precision, width, f) == Prefix(buf, base, 0, width, f)
  {
  }

  /** The buffer that _out_rev gets, backwards. */
  lemma HashBuffer(buf: string, base: nat, precision: nat, width: nat, f: Flags)
    requires 0 < |buf| < NTOA && f.hash && (base == 8 || base == 16)
    requires (f.zeropad ==> precision == 0) && (precision > 0 ==> f.precision)
    ensures Reverse(Prefix(LeadingZeros(buf, precision, width, f), base, precision, width, f))
            == HashCore(Reverse(buf), base, precision, width, f)
  {
    hide Fill, Reverse, LeadingZeros, Prefix, HashPrefix, TakenOff, ZerosBefore;
    FilledReversed(buf, precision, width, f);
    var filled := LeadingZeros(buf, precision, width, f);
    PrecisionIsIrrelevant(filled, base, precision, width, f);
    PrefixIsHashPrefix(filled, base, width, f);
  }

  lemma HashTextIsHashCore(buf: string, base: nat, precision: nat, width: nat, f: Flags)
    requires 0 < |buf| < NTOA && f.hash && (base == 8 || base == 16) && !f.plus && !f.space
    requires (f.zeropad ==> precision == 0) && (precision > 0 ==> f.precision)
    ensures var core := HashCore(Reverse(buf), base, precision, width, f);
      FormatDigits(buf, false, base, precision, width, f) ==
        if f.zeropad && !f.left then core else Justified(core, width, f.left)
  {
    hide Fill, Reverse, LeadingZeros, Padded, Prefix, WithSign, Justified, HashCore, WidthLeft;
    HashBuffer(buf, base, precision, width, f);
    assert WidthLeft(false, width, f) == width by {
      NoSignNoRoom(width, f);
    }
    var all := Prefix(LeadingZeros(buf, precision, width, f), base, precision, width, f);
    NoSign(all, f);
    PaddedIsJustified(all, width, f);
  }

  lemma NoSignNoRoom(width: nat, f: Flags)
    requires !f.plus && !f.space
    ensures WidthLeft(false, width, f) == width
  {
  }

  lemma PaddedIsJustified(all: string, width: nat, f: Flags)
    requires !f.plus && !f.space
    ensures Padded(all, WidthLeft(false, width, f), f) ==
            if f.zeropad && !f.left then Reverse(all) else Justified(Reverse(all), width, f.left)
  {
    hide Fill, Reverse, Padded, Laid, Justified, WidthLeft;
    PaddedIsLaid(all, false, width, f);
    LaidIsJustified(Reverse(all), width, f);
  }

  lemma FilledReversed(buf: string, precision: nat, width: nat, f: Flags)
    requires 0 < |buf| < NTOA && (f.zeropad ==> precision == 0)
    ensures var filled, zeros := LeadingZeros(buf, precision, width, f), ZerosBefore(|buf|, "", precision, width, f);
      0 < |filled| && Reverse(filled) == Fill('0', zeros) + Reverse(buf)
  {
    hide Fill, Reverse, LeadingZeros;
    var zeros := ZerosBefore(|buf|, "", precision, width, f);
    ZerosAdded(buf, precision, width, f);
    ReverseAppend(buf, Fill('0', zeros));
    ReverseFill('0', zeros);
  }

  lemma NoSign(buf: string, f: Flags)
    requires |buf| <= NTOA && !f.plus && !f.space
    ensures WithSign(buf, false, f) == buf
  {
    assert buf + "" == buf;
  }

  lemma LaidIsJustified(core: string, width: nat, f: Flags)
    ensures Laid(if f.left || f.zeropad then 0 else width - |core|, core, if f.left then width - |core| else 0)
            == if f.zeropad && !f.left then core else Justified(core, width, f.left)
  {
    hide Fill;
    EmptyFill(' ');
    assert "" + core + "" == core;
    assert "" + core == core;
    assert Fill(' ', width - |core|) + core + "" == Fill(' ', width - |core|) + core;
  }

  // ---------- against the standard, with '#' ----------

  /** When an alternative form of a number that is not 0 comes out right; d is the number of its digits. */
  predicate HashConforms(d: nat, c: char, precision: Option<nat>, width: nat, left: bool, zero: bool) {
    match precision
    case Some(p) =>
      if c == 'o' then (if left then p <= d + 1 else p <= d || p == NTOA)
      else (if left then p <= d else Max(p, d) + 2 <= NTOA)
    case None =>
      width != d && (zero && !left ==> width <= NTOA && (c == 'o' || width != d + 1))
  }

  lemma HashCoreLength(digits: string, base: nat, precision: nat, width: nat, f: Flags)
    requires digits != ""
    ensures var length := |digits| + Max(ZerosBefore(|digits|, "", precision, width, f), 0);
      var kept := length - TakenOff(length, base, width, f);
      |HashCore(digits, base, precision, width, f)| ==
        kept + (if base != 16 then (if kept < NTOA then 1 else 0) else Min(2, Max(NTOA - kept, 0)))
  {
  }

  /** The flags and numbers of a directive with '#' as the code and the standard hold them. */
  predicate SameHash(c: char, precision: nat, width: nat, f: Flags, spec: Spec) {
    && (c == 'o' || c == 'x' || c == 'X') && spec.hash && f.hash && !f.plus && !f.space
    && f.left == spec.left && f.zeropad == (spec.zero && spec.precision.None?) && f.uppercase == (c == 'X')
    && width == spec.width && f.precision == spec.precision.Some?
    && precision == (if spec.precision.Some? then spec.precision.value else 0)
  }

  lemma IsoCoreLength(v: int, c: char, spec: Spec)
    ensures |IsoCore(v, c, spec)| ==
      |IsoSign(v, c, spec)| + |IsoPrefix(v, c, spec)| + Max(IsoLeast(v, c, spec), |IsoDigits(v, c, spec)|)
  {
  }

  /** Where the form does not conform, even its length is wrong. */
  lemma HashLengths(v: int, c: char, precision: nat, width: nat, f: Flags, spec: Spec, digits: string)
    requires SameHash(c, precision, width, f, spec) && v > 0
    requires digits == IsoDigits(v, c, spec) && digits != "" && digits[0] != '0' && |digits| <= 22
    ensures |HashCore(digits, BaseOf(c), precision, width, f)| == |IsoCore(v, c, spec)|
            <==> HashConforms(|digits|, c, spec.precision, width, spec.left, spec.zero)
  {
    hide HashCore, IsoCore, IsoDigits;
    HashCoreLength(digits, BaseOf(c), precision, width, f);
    IsoCoreLength(v, c, spec);
  }

  lemma FillTail(c: char, n: nat, k: nat, rest: string)
    requires k <= n
    ensures (Fill(c, n) + rest)[k..] == Fill(c, n - k) + rest
  {
    FillIs(c, n);
    FillIs(c, n - k);
  }

  lemma ZeroFirst(k: nat, rest: string)
    ensures "0" + (Fill('0', k) + rest) == Fill('0', k + 1) + rest
  {
    FillIs('0', k);
    FillIs('0', k + 1);
  }

  /** Where the form conforms, only padding zeros are taken off, and as many stay as are needed. */
  lemma HashZeros(v: int, c: char, precision: nat, width: nat, f: Flags, spec: Spec, d: nat)
    requires SameHash(c, precision, width, f, spec) && v > 0
    requires var digits := IsoDigits(v, c, spec); digits != "" && digits[0] != '0' && d == |digits| <= 22
    requires HashConforms(d, c, spec.precision, width, spec.left, spec.zero)
    ensures var zeros := Max(ZerosBefore(d, "", precision, width, f), 0);
      var taken := TakenOff(d + zeros, BaseOf(c), width, f);
      var more := Max(IsoLeast(v, c, spec) - d, 0);
      && taken <= zeros
      && (c == 'o' ==> more == zeros - taken + if d + zeros - taken < NTOA then 1 else 0)
      && (c != 'o' ==> more == zeros - taken && d + more + 2 <= NTOA)
  {
    hide IsoDigits;
  }

  function Prefixed(prefix: string, zeros: nat, digits: string): string {
    prefix + (Fill('0', zeros) + digits)
  }

  lemma HashCoreKeeps(digits: string, base: nat, precision: nat, width: nat, f: Flags, zeros: nat, kept: nat)
    requires digits != "" && zeros == Max(ZerosBefore(|digits|, "", precision, width, f), 0)
    requires kept == zeros - TakenOff(|digits| + zeros, base, width, f)
    ensures HashCore(digits, base, precision, width, f) ==
            Prefixed(HashPrefix(|digits| + kept, base, f), kept, digits)
  {
    hide Fill, ZerosBefore, TakenOff, HashPrefix;
    FillOfNothing('0', ZerosBefore(|digits|, "", precision, width, f), zeros);
    FillTail('0', zeros, zeros - kept, digits);
  }

  lemma IsoCoreIs(v: int, c: char, spec: Spec, more: nat)
    requires !ConversionOf(c).signed && more == Max(IsoLeast(v, c, spec) - |IsoDigits(v, c, spec)|, 0)
    ensures IsoCore(v, c, spec) == Prefixed(IsoPrefix(v, c, spec), more, IsoDigits(v, c, spec))
  {
    hide Fill, IsoLeast, IsoDigits, IsoPrefix;
    FillOfNothing('0', IsoLeast(v, c, spec) - |IsoDigits(v, c, spec)|, more);
    var prefix, zeros, digits := IsoPrefix(v, c, spec), Fill('0', more), IsoDigits(v, c, spec);
    assert "" + prefix + zeros + digits == prefix + (zeros + digits);
  }

  lemma HashCoresAgree(v: int, c: char, precision: nat, width: nat, f: Flags, spec: Spec, digits: string)
    requires SameHash(c, precision, width, f, spec) && v > 0
    requires digits == IsoDigits(v, c, spec) && digits != "" && digits[0] != '0' && |digits| <= 22
    requires HashConforms(|digits|, c, spec.precision, width, spec.left, spec.zero)
    ensures HashCore(digits, BaseOf(c), precision, width, f) == IsoCore(v, c, spec)
  {
    hide Fill, IsoDigits, ZerosBefore, TakenOff, IsoLeast, HashConforms;
    hide HashCore, IsoCore, HashPrefix, IsoPrefix, Prefixed;
    HashZeros(v, c, precision, width, f, spec, |digits|);
    var zeros := Max(ZerosBefore(|digits|, "", precision, width, f), 0);
    var kept := zeros - TakenOff(|digits| + zeros, BaseOf(c), width, f);
    var more := Max(IsoLeast(v, c, spec) - |digits|, 0);
    HashCoreKeeps(digits, BaseOf(c), precision, width, f, zeros, kept);
    IsoCoreIs(v, c, spec, more);
    PrefixesAgree(v, c, |digits|, kept, more, f, spec);
    SamePrefixed(HashPrefix(|digits| + kept, BaseOf(c), f), IsoPrefix(v, c, spec), kept, more, digits);
  }

  lemma HashPrefixIs(v: int, c: char, length: nat, f: Flags, spec: Spec)
    requires v > 0 && spec.hash && f.uppercase == (c == 'X')
    ensures c == 'o' ==> IsoPrefix(v, c, spec) == "" && HashPrefix(length, 8, f) == if length < NTOA then "0" else ""
    ensures (c == 'x' || c == 'X') && length + 2 <= NTOA ==> HashPrefix(length, 16, f) == IsoPrefix(v, c, spec)
  {
  }

  lemma PrefixesAgree(v: int, c: char, d: nat, kept: nat, more: nat, f: Flags, spec: Spec)
    requires v > 0 && spec.hash && f.uppercase == (c == 'X') && (c == 'o' || c == 'x' || c == 'X')
    requires c == 'o' ==> more == kept + if d + kept < NTOA then 1 else 0
    requires c != 'o' ==> more == kept && d + more + 2 <= NTOA
    ensures var p, q := HashPrefix(d + kept, BaseOf(c), f), IsoPrefix(v, c, spec);
      (p == q && kept == more) || (p == "0" && q == "" && more == kept + 1)
  {
    HashPrefixIs(v, c, d + kept, f, spec);
    hide HashPrefix, IsoPrefix;
  }

  lemma SamePrefixed(p: string, q: string, kept: nat, more: nat, digits: string)
    requires (p == q && kept == more) || (p == "0" && q == "" && more == kept + 1)
    ensures Prefixed(p, kept, digits) == Prefixed(q, more, digits)
  {
    ZeroFirst(kept, digits);
    hide Fill;
    assert "" + (Fill('0', more) + digits) == Fill('0', more) + digits;
  }

  lemma JustifiedAt(core: string, width: nat, left: bool, i: nat)
    ensures var s := Justified(core, width, left);
      && |s| == Max(width, |core|)
      && (i < |s| ==>
           s[i] == if left then (if i < |core| then core[i] else ' ')
                   else if i < |s| - |core| then ' ' else core[i - (|s| - |core|)])
  {
    FillIs(' ', width - |core|);
  }

  /** Texts without spaces, of different lengths, differ in a field too. */
  lemma JustifiedDiffer(a: string, b: string, width: nat, left: bool)
    requires ' ' !in a && ' ' !in b && |a| != |b|
    ensures Justified(a, width, left) != Justified(b, width, left)
  {
    hide Justified;
    var i := if left then Min(|a|, |b|) else Max(Max(width, |a|) - Max(|a|, |b|), 0);
    JustifiedAt(a, width, left, i);
    JustifiedAt(b, width, left, i);
  }

  lemma HashCoreHasNoSpace(digits: string, base: nat, precision: nat, width: nat, f: Flags)
    requires digits != "" && ' ' !in digits
    ensures ' ' !in HashCore(digits, base, precision, width, f)
  {
    FillIs('0', ZerosBefore(|digits|, "", precision, width, f));
    hide Fill, ZerosBefore, TakenOff;
  }

  lemma IsoCoreHasNoSpace(v: int, c: char, spec: Spec)
    requires !ConversionOf(c).signed
    ensures ' ' !in IsoCore(v, c, spec)
  {
    NumeralHasNoSpace(Abs(v), ConversionOf(c).base, ConversionOf(c).capital);
    FillIs('0', IsoLeast(v, c, spec) - |IsoDigits(v, c, spec)|);
    hide Fill, IsoLeast, Numeral;
  }

  /** An alternative form of a number that is not 0 is the standard's exactly when HashConforms holds. */
  lemma HashTextMatches(v: int, c: char, precision: nat, width: nat, f: Flags, spec: Spec)
    requires SameHash(c, precision, width, f, spec) && 0 < v < WORD_MOD
    ensures NumberText(v, false, BaseOf(c), precision, width, f) == IsoText(v, c, spec)
            <==> HashConforms(|IsoDigits(v, c, spec)|, c, spec.precision, width, spec.left, spec.zero)
  {
    hide FormatDigits, HashCore, IsoCore, HashConforms, Numeral, Justified, Digits, Reverse, ZerosBefore;
    var digits := IsoDigits(v, c, spec);
    var buf := NumberDigits(v, BaseOf(c), f);
    SpelledOut(v, BaseOf(c), f);
    NumeralStartsWithDigit(v, BaseOf(c), f.uppercase);
    HashTextIsHashCore(buf, BaseOf(c), precision, width, f);
    var core, core' := HashCore(digits, BaseOf(c), precision, width, f), IsoCore(v, c, spec);
    HashLengths(v, c, precision, width, f, spec, digits);
    if HashConforms(|digits|, c, spec.precision, width, spec.left, spec.zero) {
      HashCoresAgree(v, c, precision, width, f, spec, digits);
    }
    if f.zeropad && !f.left {
      FilledToWidth(v, c, spec);
    } else {
      NumeralHasNoSpace(v, BaseOf(c), f.uppercase);
      HashCoreHasNoSpace(digits, BaseOf(c), precision, width, f);
      IsoCoreHasNoSpace(v, c, spec);
      if |core| != |core'| {
        JustifiedDiffer(core, core', width, f.left);
      }
    }
  }

  lemma FilledToWidth(v: int, c: char, spec: Spec)
    requires spec.zero && !spec.left && spec.precision.None?
    ensures IsoText(v, c, spec) == IsoCore(v, c, spec)
  {
    hide IsoCore, IsoDigits;
    IsoCoreLength(v, c, spec);
    assert Fill(' ', spec.width - |IsoCore(v, c, spec)|) == "";
    assert "" + IsoCore(v, c, spec) == IsoCore(v, c, spec);
  }

  // ---------- plain forms ----------

  /** The flags and numbers of a directive as the code and the standard hold them, when '#' plays no part. */
  predicate SamePlain(v: int, c: char, precision: nat, width: nat, f: Flags, spec: Spec) {
    && IsConversion(c) && (IsSignedSpecifier(c) || v >= 0)
    && f.plus == (spec.plus && IsSignedSpecifier(c)) && f.space == (spec.space && IsSignedSpecifier(c))
    && f.left == spec.left && f.zeropad == (spec.zero && spec.precision.None?) && f.uppercase == (c == 'X')
    && width == spec.width && f.precision == spec.precision.Some?
    && precision == (if spec.precision.Some? then spec.precision.value else 0)
  }

  /** '#' changes nothing: there is none, or the number is decimal, or a zero that shows a digit anyway. */
  predicate HashIsIdle(v: int, c: char, spec: Spec) {
    !spec.hash || ConversionOf(c).base == 10 || (v == 0 && !(c == 'o' && spec.precision == Some(0)))
  }

  lemma IdleZeros(v: int, c: char, precision: nat, width: nat, f: Flags, spec: Spec)
    requires SamePlain(v, c, precision, width, f, spec) && HashIsIdle(v, c, spec)
    ensures var d, sign := |IsoDigits(v, c, spec)|, IsoSign(v, c, spec);
      Max(IsoLeast(v, c, spec) - d, 0) == Max(IsoZeros(d, sign, precision, width, f), 0)
    ensures IsoPrefix(v, c, spec) == "" && IsoSign(v, c, spec) == SignText(v < 0, f)
    ensures IsoDigits(v, c, spec) == FieldDigits(Abs(v), BaseOf(c), f)
  {
    if v == 0 && spec.precision.None? {
      assert Numeral(0, BaseOf(c), c == 'X') == "0";
    }
    hide Numeral;
  }

  lemma PlainIsoIsLaid(v: int, c: char, precision: nat, width: nat, f: Flags, spec: Spec)
    requires SamePlain(v, c, precision, width, f, spec) && HashIsIdle(v, c, spec)
    ensures IsoText(v, c, spec) ==
            IsoLaid(FieldDigits(Abs(v), BaseOf(c), f), SignText(v < 0, f), precision, width, f)
  {
    IdleZeros(v, c, precision, width, f, spec);
    hide Fill, IsoLeast, IsoDigits, IsoPrefix, IsoSign, SignText, IsoZeros, FieldDigits;
    var digits, sign := IsoDigits(v, c, spec), IsoSign(v, c, spec);
    var zeros := IsoZeros(|digits|, sign, precision, width, f);
    FillOfNothing('0', IsoLeast(v, c, spec) - |digits|, zeros);
    assert sign + "" == sign;
    assert IsoCore(v, c, spec) == Core(sign, zeros, digits);
    var core := IsoCore(v, c, spec);
    LaidIsJustified(core, width, f);
    if f.zeropad && !f.left {
      FilledToWidth(v, c, spec);
    }
  }

  // ---------- the comparison ----------

  /** Whether a converted integer comes out as the standard has it, when no precision was dropped. */
  predicate FieldsConform(v: int, c: char, spec: Spec) {
    var d, sign := |IsoDigits(v, c, spec)|, IsoSign(v, c, spec);
    if spec.hash && ConversionOf(c).base != 10 && v != 0 then
      HashConforms(d, c, spec.precision, spec.width, spec.left, spec.zero)
    else
      && (spec.hash && c == 'o' ==> spec.precision != Some(0))
      && PlainConforms(d, sign, if spec.precision.Some? then spec.precision.value else 0, spec.width, spec.left,
                       spec.zero && spec.precision.None?)
  }

  /** The flags as PutConversion leaves them, apart from what the length field says. */
  predicate SameFields(v: int, c: char, precision: nat, width: nat, f: Flags, spec: Spec) {
    SamePlain(v, c, precision, width, f, spec) && f.hash == (spec.hash && BaseOf(c) != 10)
  }

  /**
   A converted integer is laid out as the standard prescribes exactly when FieldsConform holds: for every value,
   specifier, set of flags, width and precision.
   */
  lemma NumberTextMatchesIso(v: int, c: char, precision: nat, width: nat, f: Flags, spec: Spec)
    requires SameFields(v, c, precision, width, f, spec) && Abs(v) < WORD_MOD
    ensures NumberText(Abs(v), v < 0, BaseOf(c), precision, width, f) == IsoText(v, c, spec)
            <==> FieldsConform(v, c, spec)
  {
    hide NumberText, IsoText, HashConforms, PlainConforms, IsoLaid, Numeral, IsoSign, SignText;
    if f.hash && v != 0 {
      HashTextMatches(v, c, precision, width, f, spec);
    } else {
      PlainTextMatches(Abs(v), v < 0, BaseOf(c), precision, width, f);
      if HashIsIdle(v, c, spec) {
        PlainIsoIsLaid(v, c, precision, width, f, spec);
        IdleZeros(v, c, precision, width, f, spec);
      } else {
        OctalZeroIsLost(f, precision, width, spec);
      }
    }
  }

  /** "%#.0o" of 0: the standard asks for a "0", the code prints no digit. */
  lemma OctalZeroIsLost(f: Flags, precision: nat, width: nat, spec: Spec)
    requires SameFields(0, 'o', precision, width, f, spec) && spec.hash && spec.precision == Some(0)
    ensures NumberText(0, false, 8, precision, width, f) != IsoText(0, 'o', spec)
  {
    var plain := spec.(hash := false);
    assert PlainConforms(0, "", 0, width, f.left, f.zeropad);
    PlainTextMatches(0, false, 8, precision, width, f);
    PlainIsoIsLaid(0, 'o', precision, width, f, plain);
    NoZeroInText('o', plain);
    ZeroInText('o', spec);
  }

  lemma NoZeroInText(c: char, spec: Spec)
    requires spec.precision == Some(0) && !spec.hash
    ensures '0' !in IsoText(0, c, spec)
  {
    var core := IsoCore(0, c, spec);
    assert core == IsoSign(0, c, spec) + "" + "" + "";
    assert '0' !in core;
    FillIs(' ', spec.width - |core|);
    hide IsoCore;
  }

  lemma ZeroInText(c: char, spec: Spec)
    requires spec.precision.None? || (spec.precision == Some(0) && spec.hash && c == 'o')
    ensures '0' in IsoText(0, c, spec)
  {
    var digits, zeros := IsoDigits(0, c, spec), IsoLeast(0, c, spec) - |IsoDigits(0, c, spec)|;
    assert Numeral(0, ConversionOf(c).base, ConversionOf(c).capital) == "0";
    if spec.precision.None? {
      assert digits[0] == '0';
    } else {
      FillIs('0', zeros);
      assert Fill('0', zeros)[0] == '0';
    }
    assert '0' in IsoCore(0, c, spec);
    hide IsoCore;
  }

  // ---------- a dropped precision ----------

  /** The code takes a dropped precision for one of 0: a zero loses its digit, and the '0' flag its effect. */
  predicate DropIsHarmless(v: int, c: char, spec: Spec) {
    && v != 0
    && (spec.zero && !spec.left ==>
         spec.width <= |IsoSign(v, c, spec)| + |IsoPrefix(v, c, spec)| + (if spec.hash && c == 'o' then 1 else 0)
                       + |IsoDigits(v, c, spec)|)
  }

  lemma DroppedCores(v: int, c: char, spec: Spec)
    requires v != 0 && spec.precision.None?
    ensures var given := spec.(precision := Some(0));
      && IsoDigits(v, c, given) == IsoDigits(v, c, spec) && IsoSign(v, c, given) == IsoSign(v, c, spec)
      && (DropIsHarmless(v, c, spec) ==> IsoCore(v, c, given) == IsoCore(v, c, spec))
      && (!DropIsHarmless(v, c, spec) ==>
           && |IsoCore(v, c, given)| < spec.width && spec.zero && !spec.left
           && IsoLeast(v, c, spec) > |IsoDigits(v, c, spec)|)
  {
    var given := spec.(precision := Some(0));
    NumeralStartsWithDigit(Abs(v), ConversionOf(c).base, ConversionOf(c).capital);
    hide Numeral, Fill;
    var d := |IsoDigits(v, c, spec)|;
    FillOfNothing('0', IsoLeast(v, c, given) - d, IsoLeast(v, c, spec) - d);
    IsoCoreLength(v, c, given);
  }

  lemma ZeroAfterSign(v: int, c: char, spec: Spec)
    requires IsoLeast(v, c, spec) > |IsoDigits(v, c, spec)|
    ensures |IsoCore(v, c, spec)| > |IsoSign(v, c, spec)| && IsoCore(v, c, spec)[|IsoSign(v, c, spec)|] == '0'
  {
    hide IsoDigits, IsoLeast, IsoSign;
    FillIs('0', IsoLeast(v, c, spec) - |IsoDigits(v, c, spec)|);
  }

  lemma SignComesFirst(v: int, c: char, spec: Spec)
    ensures var sign, core := IsoSign(v, c, spec), IsoCore(v, c, spec);
      |sign| == 1 ==> |core| > 0 && core[0] == sign[0] != '0'
  {
    hide IsoDigits, IsoLeast, IsoPrefix;
  }

  lemma DroppedText(v: int, c: char, spec: Spec)
    requires v != 0 && spec.precision.None?
    ensures IsoText(v, c, spec.(precision := Some(0))) == IsoText(v, c, spec) <==> DropIsHarmless(v, c, spec)
  {
    var given := spec.(precision := Some(0));
    DroppedCores(v, c, spec);
    hide IsoCore, IsoSign, IsoPrefix, IsoDigits, IsoLeast, DropIsHarmless, Justified;
    if !DropIsHarmless(v, c, spec) {
      var i := |IsoSign(v, c, spec)|;
      FilledToWidth(v, c, spec);
      ZeroAfterSign(v, c, spec);
      SignComesFirst(v, c, given);
      JustifiedAt(IsoCore(v, c, given), spec.width, false, i);
    }
  }

  // ---------- directives ----------

  /** Numbers of 2^32 and more ask for a text that the code, which reduces them, never makes. */
  lemma CodeTextIsShort(value: nat, negative: bool, base: nat, precision: nat, width: nat, f: Flags)
    requires 2 <= base <= 16
    ensures |NumberText(value, negative, base, precision, width, f)| <= Max(width, NTOA)
  {
    hide Fill, Reverse, LeadingZeros, Prefix, WithSign, NumberDigits;
  }

  lemma IsoTextIsLong(v: int, c: char, spec: Spec)
    ensures |IsoText(v, c, spec)| >= spec.width
    ensures spec.precision.Some? ==> |IsoText(v, c, spec)| >= spec.precision.value
  {
    hide IsoCore, Fill;
    IsoCoreLength(v, c, spec);
  }

  /**
   When the text of a directive is the standard's: its numbers fit an unsigned int; a negative precision argument,
   which the standard drops, does no harm; and the fields are laid out as the standard wants.
   */
  predicate Conforms(v: int, c: char, spec: Spec) {
    && spec.width < UINT_MOD && (spec.precision.Some? ==> spec.precision.value < UINT_MOD)
    && if spec.dropped then DropIsHarmless(v, c, spec) else FieldsConform(v, c, spec)
  }

  lemma ValuesAgree(w: Word, modulus: nat)
    requires modulus == WORD_MOD || modulus == UINT_MOD || modulus == 0x1_0000 || modulus == 0x100
    ensures Abs(Signed(w, modulus)) < WORD_MOD && w % modulus < WORD_MOD
  {
  }

  lemma TextOfFields(d: Directive, spec: Spec, c: char, w: Word)
    requires Agree(d, spec) && IsConversion(c)
    ensures var v, f := ValueOf(w, c, spec), IntegerFlags(c, d.f);
      && IntegerText(c, d, w) == NumberText(Abs(v), v < 0, BaseOf(c), d.precision, d.width, f)
      && Abs(v) < WORD_MOD
  {
    hide NumberText, Signed;
    ValuesAgree(w, spec.modulus);
  }

  lemma SmallTextMatches(d: Directive, spec: Spec, c: char, w: Word)
    requires Agree(d, spec) && IsConversion(c)
    requires spec.width < UINT_MOD && (spec.precision.Some? ==> spec.precision.value < UINT_MOD)
    ensures IntegerText(c, d, w) == IsoText(ValueOf(w, c, spec), c, spec) <==> Conforms(ValueOf(w, c, spec), c, spec)
  {
    hide NumberText, IsoText, FieldsConform, DropIsHarmless, IntegerText, ValueOf;
    TextOfFields(d, spec, c, w);
    var v, f := ValueOf(w, c, spec), IntegerFlags(c, d.f);
    assert IsSignedSpecifier(c) || v >= 0 by {
      UnsignedIsNotNegative(w, c, spec);
    }
    if !spec.dropped {
      NumberTextMatchesIso(v, c, d.precision, d.width, f, spec);
    } else {
      DroppedMatches(v, c, d.width, f, spec);
    }
  }

  lemma UnsignedIsNotNegative(w: Word, c: char, spec: Spec)
    requires spec.modulus > 0 && IsConversion(c)
    ensures IsSignedSpecifier(c) || ValueOf(w, c, spec) >= 0
  {
  }

  /** The code takes a dropped precision for one of 0. */
  lemma DroppedMatches(v: int, c: char, width: nat, f: Flags, spec: Spec)
    requires spec.precision.None? && SameFields(v, c, 0, width, f, spec.(precision := Some(0))) && Abs(v) < WORD_MOD
    ensures NumberText(Abs(v), v < 0, BaseOf(c), 0, width, f) == IsoText(v, c, spec) <==> DropIsHarmless(v, c, spec)
  {
    hide NumberText, IsoText, IsoDigits, IsoSign, IsoPrefix;
    var given := spec.(precision := Some(0));
    if v != 0 {
      assert FieldsConform(v, c, given) by {
        PrecisionOfZeroConforms(v, c, given);
      }
      NumberTextMatchesIso(v, c, 0, width, f, given);
      DroppedText(v, c, spec);
    } else {
      var plain, g := given.(hash := false), f.(hash := false);
      assert FieldsConform(0, c, plain) by {
        PrecisionOfZeroConforms(0, c, plain);
      }
      NumberTextMatchesIso(0, c, 0, width, g, plain);
      ZeroHasNoHash(BaseOf(c), width, f);
      NoZeroInText(c, plain);
      ZeroInText(c, spec);
    }
  }

  lemma ZeroHasNoHash(base: nat, width: nat, f: Flags)
    requires 2 <= base <= 16
    ensures NumberText(0, false, base, 0, width, f) == NumberText(0, false, base, 0, width, f.(hash := false))
  {
    hide FormatDigits, NumberDigits;
    assert f.(hash := false).(hash := false) == f.(hash := false);
  }

  lemma PrecisionOfZeroConforms(v: int, c: char, spec: Spec)
    requires IsConversion(c) && spec.precision == Some(0) && Abs(v) < WORD_MOD
    requires v != 0 || !spec.hash
    ensures FieldsConform(v, c, spec)
  {
    EightToThe22();
    NumeralIsShort(Abs(v), BaseOf(c), c == 'X', 22);
    hide Numeral;
  }

  /**
   The specifiers d, i, u, o, x and X, for every directive and every argument: the code takes one argument, and prints
   what the standard prescribes for it exactly when Conforms holds of the directive as the standard reads it.
   */
  lemma IntegerConversionMatchesIso(fmt: string, i: nat, va: seq<Arg>, c: char)
    requires Parse(fmt, i, va).Some? && IsConversion(c)
    requires Parse(fmt, i, va).value.va != [] && Parse(fmt, i, va).value.va[0].Integer?
    ensures ReadSpec(fmt, i, va).Some?
    ensures var d, spec := Parse(fmt, i, va).value, ReadSpec(fmt, i, va).value;
      && spec.va != [] && spec.va[0].Integer?
      && var v := ValueOf(spec.va[0].w, c, spec);
         && Convert(c, d).Some? && Convert(c, d).value.1 == spec.va[1..]
         && (Convert(c, d).value.0 == IsoText(v, c, spec) <==> Conforms(v, c, spec))
  {
    DirectivesAgree(fmt, i, va);
    hide Parse, ReadSpec, IsoText, FieldsConform, DropIsHarmless, ValueOf, IntegerFlags, IntegerText;
    var d, spec := Parse(fmt, i, va).value, ReadSpec(fmt, i, va).value;
    var w := spec.va[0].w;
    var v := ValueOf(w, c, spec);
    if spec.width < UINT_MOD && (spec.precision.Some? ==> spec.precision.value < UINT_MOD) {
      SmallTextMatches(d, spec, c, w);
    } else {
      TextOfFields(d, spec, c, w);
      hide NumberText;
      CodeTextIsShort(Abs(v), v < 0, BaseOf(c), d.precision, d.width, IntegerFlags(c, d.f));
      IsoTextIsLong(v, c, spec);
    }
  }

  /** "%.*d" with a precision of -1 and a zero: the standard asks for "0", the code prints nothing. */
  lemma NegativePrecisionLosesZero()
    ensures var va := [Integer(0xFFFF_FFFF), Integer(0)];
      && Render("%.*d", va) == Some("")
      && ReadSpec("%.*d", 1, va).Some? && IsoText(0, 'd', ReadSpec("%.*d", 1, va).value) == "0"
  {
    var va := [Integer(0xFFFF_FFFF), Integer(0)];
    var d := Directive(NO_FLAGS.(precision := true), 0, 0, 3, [Integer(0)]);
    NegativePrecisionIsRead(va);
    hide Parse, ReadSpec, IntegerText, IsoText;
    OneDirective("%.*d", va, d);
    NothingIsPrinted(d);
  }

  lemma NegativePrecisionIsRead(va: seq<Arg>)
    requires va == [Integer(0xFFFF_FFFF), Integer(0)]
    ensures Parse("%.*d", 1, va) == Some(Directive(NO_FLAGS.(precision := true), 0, 0, 3, [Integer(0)]))
    ensures ReadSpec("%.*d", 1, va).Some? && IsoText(0, 'd', ReadSpec("%.*d", 1, va).value) == "0"
  {
    assert Signed(0xFFFF_FFFF, UINT_MOD) == -1;
    assert va[1..] == [Integer(0)];
    DirectivesAgree("%.*d", 1, va);
    var spec := ReadSpec("%.*d", 1, va).value;
    assert FlagsEnd("%.*d", 1) == 1 && DigitsEnd("%.*d", 1) == 1;
    assert spec.dropped && spec.precision == None && spec.width == 0;
    hide Parse, ReadSpec;
    assert IsoDigits(0, 'd', spec) == Numeral(0, 10, false) == "0";
  }

  lemma NothingIsPrinted(d: Directive)
    requires d.f == NO_FLAGS.(precision := true) && d.width == 0 && d.precision == 0
    ensures IntegerText('d', d, 0) == ""
  {
    assert IntegerFlags('d', d.f) == d.f;
    assert NumberDigits(0, 10, d.f) == "";
    hide NumberDigits;
  }

  /** "%#2x" of 0x12: the '#' part takes both digits for padding zeros, and only the prefix is left. */
  lemma PrefixTakesDigits()
    ensures var va := [Integer(0x12)];
      && Render("%#2x", va) == Some("0x")
      && ReadSpec("%#2x", 1, va).Some? && IsoText(0x12, 'x', ReadSpec("%#2x", 1, va).value) == "0x12"
  {
    var va := [Integer(0x12)];
    var d := Directive(NO_FLAGS.(hash := true), 2, 0, 3, va);
    TwoColumnsAreRead(va);
    TwoDigitsAreTaken(d);
    hide Parse, IntegerText, ReadSpec, IsoText;
    OneDirective("%#2x", va, d);
  }

  lemma TwoColumnsAreRead(va: seq<Arg>)
    ensures var f := NO_FLAGS.(hash := true);
      Parse("%#2x", 1, va) == Some(Directive(f, 2, 0, 3, va))
    ensures ReadSpec("%#2x", 1, va).Some? && IsoText(0x12, 'x', ReadSpec("%#2x", 1, va).value) == "0x12"
  {
    var f := NO_FLAGS.(hash := true);
    assert ParseFlags("%#2x", 2, f) == (f, 2);
    assert ParseNumber("%#2x", 3, 2) == (2, 3);
    DirectivesAgree("%#2x", 1, va);
    var spec := ReadSpec("%#2x", 1, va).value;
    assert DigitsEnd("%#2x", 2) == 3 && Decimal("%#2x", 2, 3) == 2;
    hide Parse, ReadSpec;
    assert Numeral(0x1, 16, false) == "1" && Numeral(0x12, 16, false) == "12";
  }

  lemma TwoDigitsAreTaken(d: Directive)
    requires d.f == NO_FLAGS.(hash := true) && d.width == 2 && d.precision == 0
    ensures IntegerText('x', d, 0x12) == "0x"
  {
    hide NumberDigits, FormatDigits;
    TwoDigits(d.f);
    OnlyPrefixIsLeft(d.f);
    assert IntegerFlags('x', d.f) == d.f;
  }

  lemma TwoDigits(f: Flags)
    requires f == NO_FLAGS.(hash := true)
    ensures NumberDigits(0x12, 16, f) == "21"
  {
    assert Digits(1, 16, false, 31) == "1";
    assert Digits(0x12, 16, false, 32) == "21";
  }

  lemma OnlyPrefixIsLeft(f: Flags)
    requires f == NO_FLAGS.(hash := true)
    ensures FormatDigits("21", false, 16, 0, 2, f) == "0x"
  {
    assert LeadingZeros("21", 0, 2, f) == "21";
    assert "21"[..0] == "" && Prefix("21", 16, 0, 2, f) == "x0";
    hide LeadingZeros, Prefix, Reverse;
    ReverseAppend("x", "0");
    ReverseOne("x");
    ReverseOne("0");
    assert "x" + "0" == "x0";
  }

  lemma LeftTextFillsField(value: nat, negative: bool, base: nat, precision: nat, width: nat, f: Flags)
    requires 2 <= base <= 16 && f.left
    ensures |NumberText(value, negative, base, precision, width, f)| >= width
  {
    hide Fill, Reverse, LeadingZeros, Prefix, WithSign, NumberDigits;
  }

  /** "%*d" in a field of 2^31 columns is a text whose length is no int. */
  lemma TextTooLongForInt()
    ensures var va := [Integer(0x8000_0000), Integer(0)];
      Render("%*d", va).Some? && |Render("%*d", va).value| == 0x8000_0000
  {
    var va := [Integer(0x8000_0000), Integer(0)];
    var d := Directive(NO_FLAGS.(left := true), 0x8000_0000, 0, 2, [Integer(0)]);
    assert Signed(0x8000_0000, UINT_MOD) == -0x8000_0000;
    assert va[1..] == [Integer(0)];
    assert Parse("%*d", 1, va) == Some(d);
    hide Parse, NumberText;
    OneDirective("%*d", va, d);
    var f := IntegerFlags('d', d.f);
    LeftTextFillsField(0, false, 10, 0, 0x8000_0000, f);
    CodeTextIsShort(0, false, 10, 0, 0x8000_0000, f);
  }
}
