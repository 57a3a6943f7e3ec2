/**
 Whole formats: the directives c, s, p and %, several directives in one format, and the text of a format against
 section 7.21.6.1 of ISO/IEC 9899:2011.
 */
module Directives {
  import opened Prelude
  import opened Format
  import opened Numerals
  import opened Standard
  import opened Reading
  import opened Layout

  // ---------- characters and strings ----------

  lemma FieldIsJustified(s: string, width: nat, f: Flags)
    requires |s| < UINT_MOD
    ensures Field(s, width, f) == Justified(s, width, f.left)
  {
  }

  /** A character comes out as the standard has it exactly when the width fits an unsigned int. */
  lemma CharMatchesIso(d: Directive, spec: Spec, w: Word)
    requires Agree(d, spec)
    ensures Field([(w % 0x100) as char], d.width, d.f) == IsoCharText(w, spec) <==> spec.width < UINT_MOD
  {
    hide Fill;
    var c := [(w % 0x100) as char];
    FieldIsJustified(c, d.width, d.f);
    JustifiedAt(c, d.width, d.f.left, 0);
    JustifiedAt(c, spec.width, d.f.left, 0);
  }

  /** How many characters of a string the code shows. */
  function ShownByCode(s: string, spec: Spec): nat {
    if spec.dropped then 0
    else if spec.precision.Some? then Min(spec.precision.value % UINT_MOD, |s|)
    else |s|
  }

  /** How many the standard wants to be shown. */
  function ShownByIso(s: string, spec: Spec): nat {
    if spec.precision.Some? then Min(spec.precision.value, |s|) else |s|
  }

  /**
   Both fields are equally long, and the characters that the code leaves out cannot be told from padding. With numbers
   and strings below 2^32 and no negative precision that is always so: see OrdinaryStringsConform.
   */
  predicate StringConforms(s: string, spec: Spec) {
    var a, b := ShownByCode(s, spec), ShownByIso(s, spec);
    && Max(spec.width % UINT_MOD - a % UINT_MOD, 0) + a == Max(spec.width - b, 0) + b
    && a <= b <= |s| && LooksTheSame(s, a, b, spec.left)
  }

  /** The first a characters look like the first b when spaces make up for the rest. */
  predicate LooksTheSame(s: string, a: nat, b: nat, left: bool)
    requires a <= b <= |s|
  {
    if left then forall k :: a <= k < b ==> s[k] == ' '
    else forall k :: 0 <= k < b ==> s[k] == MovedRight(s, a, b, k)
  }

  function MovedRight(s: string, a: nat, b: nat, k: nat): char
    requires a <= b <= |s| && k < b
  {
    if k < b - a then ' ' else s[k - (b - a)]
  }

  lemma OrdinaryStringsConform(s: string, spec: Spec)
    requires !spec.dropped && spec.width < UINT_MOD && |s| < UINT_MOD
    requires spec.precision.Some? ==> spec.precision.value < UINT_MOD
    ensures StringConforms(s, spec)
  {
  }

  lemma CutIsShown(s: string, d: Directive, spec: Spec)
    requires Agree(d, spec)
    ensures ShownByCode(s, spec) <= ShownByIso(s, spec) <= |s|
    ensures Cut(s, d) == s[..ShownByCode(s, spec)] && IsoShown(s, spec) == s[..ShownByIso(s, spec)]
  {
    assert s[..|s|] == s;
  }

  /** Which character stands where in a field of the code. */
  lemma FieldAt(s: string, width: nat, f: Flags, i: nat)
    ensures var t, n := Field(s, width, f), Max(width - |s| % UINT_MOD, 0) + |s|;
      && |t| == n
      && (i < n ==>
           t[i] == if f.left then (if i < |s| then s[i] else ' ') else if i < n - |s| then ' ' else s[i - (n - |s|)])
  {
    FillIs(' ', width - |s| % UINT_MOD);
  }

  /** Which character stands where in a field of n columns that shows the first k characters of s. */
  function ColumnOf(s: string, k: nat, n: nat, left: bool, i: nat): char
    requires k <= |s| && k <= n && i < n
  {
    if left then (if i < k then s[i] else ' ') else if i < n - k then ' ' else s[i - (n - k)]
  }

  /** A string comes out as the standard has it exactly when StringConforms holds. */
  lemma StringMatchesIso(d: Directive, spec: Spec, s: string)
    requires Agree(d, spec)
    ensures Field(Cut(s, d), d.width, d.f) == IsoStringText(s, spec) <==> StringConforms(s, spec)
  {
    CutIsShown(s, d, spec);
    hide Field, Justified, Cut, IsoShown, ShownByCode, ShownByIso, LooksTheSame, ColumnOf;
    var a, b := ShownByCode(s, spec), ShownByIso(s, spec);
    var t, u := Field(s[..a], d.width, d.f), Justified(s[..b], spec.width, spec.left);
    FieldAt(s[..a], d.width, d.f, 0);
    JustifiedAt(s[..b], spec.width, spec.left, 0);
    if |t| == |u| {
      var n := |t|;
      forall i: nat | i < n ensures t[i] == ColumnOf(s, a, n, spec.left, i) && u[i] == ColumnOf(s, b, n, spec.left, i) {
        ColumnsOfFields(s, a, b, d, spec, i);
      }
      FieldsOfOneString(s, a, b, n, spec.left, t, u);
    }
  }

  lemma ColumnsOfFields(s: string, a: nat, b: nat, d: Directive, spec: Spec, i: nat)
    requires a <= b <= |s| && d.f.left == spec.left
    ensures var t, u := Field(s[..a], d.width, d.f), Justified(s[..b], spec.width, spec.left);
      && (i < |t| ==> a <= |t| && t[i] == ColumnOf(s, a, |t|, spec.left, i))
      && (i < |u| ==> b <= |u| && u[i] == ColumnOf(s, b, |u|, spec.left, i))
  {
    hide Field, Justified;
    FieldAt(s[..a], d.width, d.f, i);
    JustifiedAt(s[..b], spec.width, spec.left, i);
  }

  lemma FieldsOfOneString(s: string, a: nat, b: nat, n: nat, left: bool, t: string, u: string)
    requires a <= b <= |s| && b <= n == |t| == |u|
    requires forall i: nat :: i < n ==> t[i] == ColumnOf(s, a, n, left, i) && u[i] == ColumnOf(s, b, n, left, i)
    ensures t == u <==> LooksTheSame(s, a, b, left)
  {
    if t == u {
      if left {
        forall k | a <= k < b ensures s[k] == ' ' {
          assert t[k] == u[k];
        }
      } else {
        forall k | 0 <= k < b ensures s[k] == MovedRight(s, a, b, k) {
          assert t[n - b + k] == u[n - b + k];
        }
      }
    } else {
      var i :| 0 <= i < n && t[i] != u[i];
      if left {
        assert a <= i < b && s[i] != ' ';
      } else {
        var k := i - (n - b);
        assert 0 <= k < b && s[k] != MovedRight(s, a, b, k);
      }
    }
  }

  /** "%p" is sixteen upper-case hexadecimal digits. */
  lemma PointerIsPrinted(w: Word)
    ensures var n := Numeral(w, 16, true);
      |n| <= 16 && Render("%p", [Integer(w)]) == Some(Fill('0', 16 - |n|) + n)
  {
    hide NumberText, Numeral;
    var d := Directive(NO_FLAGS, 0, 0, 1, [Integer(w)]);
    assert Parse("%p", 1, [Integer(w)]) == Some(d);
    hide Parse;
    PointerText(w);
    var text := NumberText(w, false, 16, 0, 16, NO_FLAGS.(zeropad := true, uppercase := true));
    assert d.va[1..] == [];
    assert Convert('p', d) == Some((text, []));
    assert RenderFrom("%p", 2, []) == Some("");
    assert text + "" == text;
  }

  lemma PointerText(w: Word)
    ensures var n := Numeral(w, 16, true);
      && |n| <= 16
      && NumberText(w, false, 16, 0, 16, NO_FLAGS.(zeropad := true, uppercase := true)) == Fill('0', 16 - |n|) + n
  {
    hide NumberText, Numeral, Fill;
    var f, n := NO_FLAGS.(zeropad := true, uppercase := true), Numeral(w, 16, true);
    SixteenHexDigits(w);
    PlainTextMatches(w, false, 16, 0, 16, f);
    EmptyFill(' ');
    assert FieldDigits(w, 16, f) == n;
    assert "" + ("" + Fill('0', 16 - |n|) + n) + "" == Fill('0', 16 - |n|) + n;
  }

  lemma {:induction false} HexIsShort(v: nat, k: nat)
    requires v < Pow(16, k) && k >= 1
    ensures |Numeral(v, 16, true)| <= k
    decreases k
  {
    var q, _ := Divided(v, 16);
    if v >= 16 {
      HexIsShort(q, k - 1);
    }
  }

  lemma SixteenHexDigits(w: Word)
    ensures |Numeral(w, 16, true)| <= 16
  {
    assert Pow(16, 1) == 16;
    PowAdds(16, 1, 1);
    PowAdds(16, 2, 2);
    PowAdds(16, 4, 4);
    PowAdds(16, 8, 8);
    HexIsShort(w, 16);
  }

  /** The code's own "%b" is the binary numeral of an unsigned int. */
  lemma BinaryIsPrinted(w: Word)
    ensures Render("%b", [Integer(w)]) == Some(Numeral(w % UINT_MOD, 2, false))
  {
    hide NumberText, Numeral;
    var d := Directive(NO_FLAGS, 0, 0, 1, [Integer(w)]);
    assert Parse("%b", 1, [Integer(w)]) == Some(d);
    hide Parse;
    OneDirective("%b", [Integer(w)], d);
    assert IntegerFlags('b', NO_FLAGS) == NO_FLAGS && TypeModulus(NO_FLAGS) == UINT_MOD;
    BinaryText(w % UINT_MOD);
  }

  lemma {:induction false} BinaryIsShort(v: nat, k: nat)
    requires v < Pow(2, k) && k >= 1
    ensures |Numeral(v, 2, false)| <= k
    decreases k
  {
    var q, _ := Divided(v, 2);
    if v >= 2 {
      BinaryIsShort(q, k - 1);
    }
  }

  lemma BinaryText(v: nat)
    requires v < UINT_MOD
    ensures NumberText(v, false, 2, 0, 0, NO_FLAGS) == Numeral(v, 2, false)
  {
    hide Numeral, Reverse;
    assert Pow(2, 1) == 2;
    PowAdds(2, 1, 1);
    PowAdds(2, 2, 2);
    PowAdds(2, 4, 4);
    PowAdds(2, 8, 8);
    PowAdds(2, 16, 16);
    BinaryIsShort(v, 32);
    DigitsSpellNumeral(v, 2, false, NTOA);
    hide Digits, Pow;
    var buf := Digits(v, 2, false, NTOA);
    assert NO_FLAGS.(hash := false) == NO_FLAGS;
    BareText(buf);
  }

  lemma BareText(buf: string)
    requires |buf| <= NTOA
    ensures FormatDigits(buf, false, 2, 0, 0, NO_FLAGS) == Reverse(buf)
  {
    hide Reverse;
    assert Fill('0', Min(0, NTOA) - |buf|) == "" && Fill(' ', 0 - |buf|) == "";
    assert buf + "" == buf;
    assert "" + Reverse(buf) + "" == Reverse(buf);
  }

  /** A character that is no specifier is printed after '%' as it is, "%%" included. */
  lemma OtherIsPrinted(c: char)
    requires !IsFlag(c) && !IsDigit(c) && c !in "*.lhtjz" && c !in "diuxXobcspfFeEgG" && c != '\0'
    ensures Render(['%', c], []) == Some([c])
  {
    var fmt := ['%', c];
    assert Parse(fmt, 1, []) == Some(Directive(NO_FLAGS, 0, 0, 1, [])) by {
      OtherIsRead(fmt, c);
    }
    hide Parse;
    assert RenderFrom(fmt, 2, []) == Some("");
    assert [c] + "" == [c];
  }

  lemma OtherIsRead(fmt: string, c: char)
    requires fmt == ['%', c] && !IsFlag(c) && !IsDigit(c) && c !in "*.lhtjz"
    ensures Parse(fmt, 1, []) == Some(Directive(NO_FLAGS, 0, 0, 1, []))
  {
    assert At(fmt, 1) == c;
    hide At;
    assert c != '*' && c != '.' && c != 'l' && c != 'h' && c != 't' && c != 'j' && c != 'z' by {
      assert forall k :: 0 <= k < 7 ==> "*.lhtjz"[k] in "*.lhtjz";
      assert "*.lhtjz"[0] == '*' && "*.lhtjz"[1] == '.' && "*.lhtjz"[2] == 'l' && "*.lhtjz"[3] == 'h';
    }
    assert WithLength(NO_FLAGS, Int) == NO_FLAGS;
  }

  // ---------- a format against the standard ----------

  /** When the text of one directive is the standard's. */
  predicate DirectiveConforms(c: char, spec: Spec)
    requires spec.modulus > 0 && IsoDirective(c, spec).Some?
  {
    if IsConversion(c) then Conforms(ValueOf(spec.va[0].w, c, spec), c, spec)
    else if c == 'c' then spec.width < UINT_MOD
    else StringConforms(spec.va[0].s, spec)
  }

  /** One directive: the code prints the standard's text exactly when DirectiveConforms holds, and takes as much. */
  lemma DirectiveMatchesIso(fmt: string, i: nat, va: seq<Arg>)
    requires ReadSpec(fmt, i, va).Some?
    requires var spec := ReadSpec(fmt, i, va).value; IsoDirective(At(fmt, spec.at), spec).Some?
    ensures Parse(fmt, i, va).Some?
    ensures var d, spec := Parse(fmt, i, va).value, ReadSpec(fmt, i, va).value;
      var c := At(fmt, spec.at);
      && d.at == spec.at && Convert(c, d).Some?
      && Convert(c, d).value.1 == IsoDirective(c, spec).value.1
      && (Convert(c, d).value.0 == IsoDirective(c, spec).value.0 <==> DirectiveConforms(c, spec))
  {
    DirectivesAgree(fmt, i, va);
    var d, spec := Parse(fmt, i, va).value, ReadSpec(fmt, i, va).value;
    var c := At(fmt, spec.at);
    hide Parse, ReadSpec, IsoText, IsoCharText, IsoStringText, Field, Cut, IntegerText;
    hide Conforms, StringConforms, ValueOf;
    if IsConversion(c) {
      IntegerConversionMatchesIso(fmt, i, va, c);
    } else if c == 'c' {
      CharMatchesIso(d, spec, spec.va[0].w);
    } else {
      StringMatchesIso(d, spec, spec.va[0].s);
    }
  }

  /** Every directive from position i on conforms. */
  predicate FormatConforms(fmt: string, i: nat, va: seq<Arg>)
    requires IsoFormat(fmt, i, va).Some?
    decreases |fmt| - i
  {
    if At(fmt, i) == '\0' then true
    else if At(fmt, i) != '%' then FormatConforms(fmt, i + 1, va)
    else if At(fmt, i + 1) == '%' then FormatConforms(fmt, i + 2, va)
    else
      var spec := ReadSpec(fmt, i + 1, va).value;
      var c := At(fmt, spec.at);
      DirectiveConforms(c, spec) && FormatConforms(fmt, spec.at + 1, IsoDirective(c, spec).value.1)
  }

  lemma PercentIsRead(fmt: string, i: nat, va: seq<Arg>)
    requires At(fmt, i) == '%' && At(fmt, i + 1) == '%'
    ensures RenderFrom(fmt, i, va) ==
      match RenderFrom(fmt, i + 2, va)
      case None => None
      case Some(rest) => Some("%" + rest)
  {
    assert Parse(fmt, i + 1, va) == Some(Directive(NO_FLAGS, 0, 0, i + 1, va)) by {
      NothingIsRead(fmt, i + 1, va);
    }
    hide Parse;
  }

  lemma NothingIsRead(fmt: string, i: nat, va: seq<Arg>)
    requires At(fmt, i) == '%'
    ensures Parse(fmt, i, va) == Some(Directive(NO_FLAGS, 0, 0, i, va))
  {
    hide At;
    assert WithLength(NO_FLAGS, Int) == NO_FLAGS;
  }

  /** The code prints of every format the text that the standard prescribes, when all its directives conform. */
  lemma {:induction false} FormatMatchesIso(fmt: string, i: nat, va: seq<Arg>)
    requires IsoFormat(fmt, i, va).Some? && FormatConforms(fmt, i, va)
    ensures RenderFrom(fmt, i, va) == IsoFormat(fmt, i, va)
    decreases |fmt| - i
  {
    hide Parse, ReadSpec, Convert, IsoDirective, DirectiveConforms;
    if At(fmt, i) == '\0' {
    } else if At(fmt, i) != '%' {
      FormatMatchesIso(fmt, i + 1, va);
    } else if At(fmt, i + 1) == '%' {
      PercentIsRead(fmt, i, va);
      FormatMatchesIso(fmt, i + 2, va);
    } else {
      DirectiveMatchesIso(fmt, i + 1, va);
      var spec := ReadSpec(fmt, i + 1, va).value;
      FormatMatchesIso(fmt, spec.at + 1, IsoDirective(At(fmt, spec.at), spec).value.1);
    }
  }

  /** Text without directives is printed as it is. */
  lemma {:induction false} LiteralText(fmt: string, i: nat, va: seq<Arg>)
    requires i <= |fmt| && '%' !in fmt && '\0' !in fmt
    ensures RenderFrom(fmt, i, va) == Some(fmt[i..])
    decreases |fmt| - i
  {
    if i < |fmt| {
      assert fmt[i] in fmt;
      LiteralText(fmt, i + 1, va);
      assert fmt[i..] == [fmt[i]] + fmt[i + 1..];
    } else {
      assert fmt[i..] == "";
    }
  }
}
