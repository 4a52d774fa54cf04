/**
 * `parse_status`: turns a status cell into a small integer code, or into no
 * code at all. Only the code 2 ("no longer in force") changes what the
 * comparison table shows.
 */
module StatusParser {
  import opened Values

  /** The status text meaning "no longer in force"; it reads as code 2. */
  const Inactive: string := "غير ساري"

  predicate IsSeparator(c: char) {
    c == ',' || c == '.'
  }

  datatype Sign = Unsigned | Plus | Minus

  /** A number as `float()` reads it in this model: an optional sign, the
      whole-number digits, and optionally a decimal point followed by the
      fraction digits. */
  datatype Numeral = Numeral(sign: Sign, whole: string, point: bool, frac: string)

  /** Digits only, a fraction only after a point, and at least one digit
      (so "", "+", "." and "-." are not numerals). */
  predicate WellFormed(n: Numeral) {
    && AllDigits(n.whole) && AllDigits(n.frac)
    && (n.point || n.frac == [])
    && |n.whole| + |n.frac| > 0
  }

  function SignText(s: Sign): string {
    match s
    case Unsigned => ""
    case Plus => "+"
    case Minus => "-"
  }

  /** The numeral written out with `sep` as its decimal separator. */
  function Spell(n: Numeral, sep: char): string {
    SignText(n.sign) + n.whole + (if n.point then [sep] else []) + n.frac
  }

  /** `int(float(...))`: the fraction is dropped, truncating toward zero. */
  function Truncate(n: Numeral): int
    requires AllDigits(n.whole)
  {
    if n.sign == Minus then -(DigitsValue(n.whole) as int) else DigitsValue(n.whole)
  }

  /** The length of the run of digits that `s` starts with. */
  function DigitRun(s: string): (k: nat)
    ensures k <= |s| && AllDigits(s[..k])
    ensures k < |s| ==> !IsDigit(s[k])
  {
    if s != [] && IsDigit(s[0]) then
      var k := 1 + DigitRun(s[1..]);
      assert s[..k] == [s[0]] + s[1..][..k - 1];
      k
    else 0
  }

  lemma {:induction false} DigitRunOf(w: string, rest: string)
    requires AllDigits(w)
    requires rest == [] || !IsDigit(rest[0])
    ensures DigitRun(w + rest) == |w|
  {
    if w != [] {
      assert (w + rest)[1..] == w[1..] + rest;
      DigitRunOf(w[1..], rest);
    } else {
      assert w + rest == rest;
    }
  }

  /** Reads the text after the sign: digits, then optionally '.' and more
      digits, and nothing else. */
  function ReadUnsigned(sign: Sign, body: string): (r: Option<Numeral>)
    ensures r.Some? ==> WellFormed(r.value) && r.value.sign == sign
    ensures r.Some? ==> body == r.value.whole + (if r.value.point then "." else "") + r.value.frac
  {
    var k := DigitRun(body);
    var rest := body[k..];
    if rest == [] then
      if k > 0 then
        assert body == body[..k] + [] + [];
        Some(Numeral(sign, body[..k], false, []))
      else None
    else if rest[0] == '.' && AllDigits(rest[1..]) && k + |rest| > 1 then
      assert body == body[..k] + "." + rest[1..];
      Some(Numeral(sign, body[..k], true, rest[1..]))
    else None
  }

  /** Reads a whole text as a numeral with '.' as its separator; any other
      text is rejected. What is read spells the text back exactly. */
  function ReadNumeral(u: string): (r: Option<Numeral>)
    ensures r.Some? ==> WellFormed(r.value) && Spell(r.value, '.') == u
  {
    var signed := u != [] && (u[0] == '-' || u[0] == '+');
    var sign := if !signed then Unsigned else if u[0] == '-' then Minus else Plus;
    var body := if signed then u[1..] else u;
    assert u == SignText(sign) + body;
    var r := ReadUnsigned(sign, body);
    if r.Some? then
      SpellBody(r.value, '.');
      r
    else r
  }

  lemma SpellBody(n: Numeral, sep: char)
    ensures Spell(n, sep) == SignText(n.sign) + (n.whole + (if n.point then [sep] else []) + n.frac)
  {
  }

  lemma ReadUnsignedSpell(n: Numeral)
    requires WellFormed(n)
    ensures ReadUnsigned(n.sign, n.whole + ((if n.point then "." else "") + n.frac)) == Some(n)
  {
    var rest := (if n.point then "." else "") + n.frac;
    var body := n.whole + rest;
    assert rest == [] || rest[0] == '.' by {
      if n.point { assert rest[0] == '.'; }
    }
    DigitRunOf(n.whole, rest);
    assert body[..|n.whole|] == n.whole;
    assert body[|n.whole|..] == rest;
    if n.point {
      assert rest[1..] == n.frac;
    }
  }

  /** Every well-formed numeral is read back as itself. */
  lemma ReadSpell(n: Numeral)
    requires WellFormed(n)
    ensures ReadNumeral(Spell(n, '.')) == Some(n)
  {
    var rest := (if n.point then "." else "") + n.frac;
    var body := n.whole + rest;
    var u := Spell(n, '.');
    SpellBody(n, '.');
    assert u == SignText(n.sign) + body;
    if n.sign == Unsigned {
      assert u == body;
      assert u[0] != '-' && u[0] != '+' by {
        if n.whole != [] {
          assert u[0] == n.whole[0];
        } else {
          assert n.point && u[0] == rest[0] == '.';
        }
      }
    } else {
      assert u[0] == SignText(n.sign)[0];
      assert u[1..] == body;
    }
    ReadUnsignedSpell(n);
  }

  /** `v.replace(',', '.')` */
  function ReplaceCommas(t: string): (r: string)
    ensures |r| == |t|
    ensures forall i :: 0 <= i < |t| ==> r[i] == if t[i] == ',' then '.' else t[i]
  {
    seq(|t|, i requires 0 <= i < |t| => if t[i] == ',' then '.' else t[i])
  }

  /** `parse_status(val)`. Total: every path that makes the Python code raise
      ends in `None` here. */
  function ParseStatus(v: Value): (r: Option<int>)
    ensures IsNa(v) ==> r == None
    ensures v.Int? ==> r == Some(v.i)
    ensures v.Float? ==> r == Some(v.whole)
  {
    match v
    case Null => None
    case NaN => None          // int(float('nan')) raises ValueError
    case Int(i) => Some(i)
    case Float(w) => Some(w)
    case Text(s) => ParseText(Strip(s))
  }

  lemma ParseStatusText(s: string)
    ensures ParseStatus(Text(s)) == ParseText(Strip(s))
  {
  }

  /** The text branch of `parse_status`, after `str(val).strip()`. Every
      code other than the inactive token's is what `float()` reads from the
      text with commas replaced, truncated: the `isdigit` shortcut never
      disagrees with the float path. */
  function ParseText(t: string): (r: Option<int>)
    ensures t == "" ==> r == None
    ensures r.Some? && t != Inactive ==>
      ReadNumeral(ReplaceCommas(t)).Some? && r == Some(Truncate(ReadNumeral(ReplaceCommas(t)).value))
  {
    if t == "" then None
    else if t == Inactive then Some(2)
    else if IsDigits(t) then
      var n := Numeral(Unsigned, t, false, []);
      assert Spell(n, '.') == t;
      assert ReplaceCommas(t) == t;
      ReadSpell(n);
      Some(DigitsValue(t))
    else
      match ReadNumeral(ReplaceCommas(t))
      case None => None
      case Some(n) => Some(Truncate(n))
  }

  // ---------------------------------------------------------------------
  // Facts about spelled numerals used by the parser lemmas

  lemma SpellShape(n: Numeral, sep: char)
    requires WellFormed(n) && IsSeparator(sep)
    ensures var t := Spell(n, sep); |t| > 0 && !IsSpace(t[0]) && !IsSpace(t[|t| - 1])
    ensures forall q :: 0 <= q < |Spell(n, sep)| ==> Spell(n, sep)[q] != '\U{063A}'
  {
    var pt: string := if n.point then [sep] else [];
    var t := Spell(n, sep);
    assert t == SignText(n.sign) + (n.whole + pt + n.frac);
    forall q | 0 <= q < |t| ensures t[q] == '+' || t[q] == '-' || IsSeparator(t[q]) || IsDigit(t[q]) {
      SpellAt(n, sep, q);
    }
  }

  /** Each character of a spelled numeral is its sign, its separator or a digit. */
  lemma SpellAt(n: Numeral, sep: char, q: int)
    requires WellFormed(n) && 0 <= q < |Spell(n, sep)|
    ensures var t := Spell(n, sep); var p := |SignText(n.sign)| + |n.whole|;
      && (q < |SignText(n.sign)| ==> t[q] == (if n.sign == Minus then '-' else '+'))
      && (n.point && q == p ==> t[q] == sep)
      && (q >= |SignText(n.sign)| && !(n.point && q == p) ==> IsDigit(t[q]))
  {
    var pt: string := if n.point then [sep] else [];
    var t := Spell(n, sep);
    var s := |SignText(n.sign)|;
    assert t == SignText(n.sign) + n.whole + pt + n.frac;
    if q < s {
    } else if q < s + |n.whole| {
      assert t[q] == n.whole[q - s];
    } else if q < s + |n.whole| + |pt| {
    } else {
      assert t[q] == n.frac[q - s - |n.whole| - |pt|];
    }
  }

  /** Away from the point, the separator chosen does not show. */
  lemma SpellOffPoint(n: Numeral, sep1: char, sep2: char, q: int)
    requires 0 <= q < |Spell(n, sep1)|
    requires !(n.point && q == |SignText(n.sign)| + |n.whole|)
    ensures |Spell(n, sep2)| == |Spell(n, sep1)| && Spell(n, sep1)[q] == Spell(n, sep2)[q]
  {
    var pt1: string := if n.point then [sep1] else [];
    var pt2: string := if n.point then [sep2] else [];
    var s := |SignText(n.sign)|;
    assert Spell(n, sep1) == SignText(n.sign) + n.whole + pt1 + n.frac;
    assert Spell(n, sep2) == SignText(n.sign) + n.whole + pt2 + n.frac;
    if q < s + |n.whole| {
    } else {
      assert Spell(n, sep1)[q] == n.frac[q - s - |n.whole| - |pt1|];
    }
  }

  /** A spelled numeral has at most one separator, where its point is. */
  lemma SpellSeparatorAt(n: Numeral, sep: char, q: int)
    requires WellFormed(n) && IsSeparator(sep) && 0 <= q < |Spell(n, sep)|
    requires IsSeparator(Spell(n, sep)[q])
    ensures n.point && q == |SignText(n.sign)| + |n.whole|
  {
    SpellAt(n, sep, q);
  }

  /** Spelling with ',' or '.' differs only at the point. */
  lemma SpellSeparators(n: Numeral, sep: char)
    requires WellFormed(n) && IsSeparator(sep)
    ensures ReplaceCommas(Spell(n, sep)) == Spell(n, '.')
  {
    var t := Spell(n, sep);
    assert |t| == |Spell(n, '.')|;
    forall q | 0 <= q < |t| ensures ReplaceCommas(t)[q] == Spell(n, '.')[q] {
      SpellAt(n, sep, q);
      SpellAt(n, '.', q);
    }
  }

  // ---------------------------------------------------------------------
  // The parser's behaviour, rule by rule

  /** None and NaN cells, and texts that are blank after stripping, have no
      status code. */
  lemma ParseBlank(v: Value)
    requires IsNa(v) || (v.Text? && AllSpace(v.s))
    ensures ParseStatus(v) == None
  {
    if v.Text? {
      StripEmptyIffSpace(v.s);
    }
  }

  /** The inactive token, with any white space around it, reads as 2. */
  lemma ParseInactive(pre: string, post: string)
    requires AllSpace(pre) && AllSpace(post)
    ensures ParseStatus(Text(pre + Inactive + post)) == Some(2)
  {
    StripPadded(pre, Inactive, post);
  }

  /** A well-formed numeral with either decimal separator, padded with white
      space, reads as its value truncated toward zero: "7" is 7, "1,5" is 1,
      "1,000" is 1, "-2.9" is -2. */
  lemma ParseNumeral(pre: string, n: Numeral, sep: char, post: string)
    requires WellFormed(n) && IsSeparator(sep)
    requires AllSpace(pre) && AllSpace(post)
    ensures ParseStatus(Text(pre + Spell(n, sep) + post)) == Some(Truncate(n))
  {
    var t := Spell(n, sep);
    SpellShape(n, sep);
    StripPadded(pre, t, post);
    ParseStatusText(pre + t + post);
    ParseTextSpell(n, sep);
  }

  /** The text branch on a spelled numeral, before any padding. */
  lemma ParseTextSpell(n: Numeral, sep: char)
    requires WellFormed(n) && IsSeparator(sep)
    ensures ParseText(Spell(n, sep)) == Some(Truncate(n))
  {
    var t := Spell(n, sep);
    SpellShape(n, sep);
    SpellNotInactive(n, sep);
    if IsDigits(t) {
      SpellDigits(n, sep);
    } else {
      SpellSeparators(n, sep);
      ReadSpell(n);
    }
  }

  lemma SpellNotInactive(n: Numeral, sep: char)
    requires WellFormed(n) && IsSeparator(sep)
    ensures Spell(n, sep) != Inactive
  {
    SpellShape(n, sep);
    assert Inactive[0] == '\U{063A}';
  }

  /** A spelled numeral made of digits only is its whole-number part. */
  lemma SpellDigits(n: Numeral, sep: char)
    requires WellFormed(n) && IsSeparator(sep) && IsDigits(Spell(n, sep))
    ensures n.sign == Unsigned && !n.point && n.frac == [] && Spell(n, sep) == n.whole
  {
    if n.sign != Unsigned {
      SpellAt(n, sep, 0);
      assert false;
    }
    if n.point {
      SpellAt(n, sep, |n.whole|);
      assert false;
    }
    assert Spell(n, sep) == "" + n.whole + [] + [];
  }

  /** A plain digit string reads as the number it denotes. */
  lemma ParseDigits(d: string)
    requires IsDigits(d)
    ensures ParseStatus(Text(d)) == Some(DigitsValue(d))
  {
    var n := Numeral(Unsigned, d, false, []);
    assert [] + Spell(n, '.') + [] == d;
    ParseNumeral([], n, '.', []);
  }

  /** A text with two separators is not a number: "1,5,3" has no code. */
  lemma ParseTwoSeparators(s: string, i: int, j: int)
    requires 0 <= i < j < |s| && IsSeparator(s[i]) && IsSeparator(s[j])
    ensures ParseStatus(Text(s)) == None
  {
    var i', j' := StripTwoSeparators(s, i, j);
    ParseTextTwoSeparators(Strip(s), i', j');
    ParseStatusText(s);
  }

  /** Both separators survive `strip`, still in order. */
  lemma StripTwoSeparators(s: string, i: int, j: int) returns (i': int, j': int)
    requires 0 <= i < j < |s| && IsSeparator(s[i]) && IsSeparator(s[j])
    ensures 0 <= i' < j' < |Strip(s)| && IsSeparator(Strip(s)[i']) && IsSeparator(Strip(s)[j'])
  {
    i' := StripKeepsSeparator(s, i);
    j' := StripKeepsSeparator(s, j);
  }

  lemma StripKeepsSeparator(s: string, i: int) returns (k: int)
    requires 0 <= i < |s| && IsSeparator(s[i])
    ensures k == i - StripOffset(s) && 0 <= k < |Strip(s)| && IsSeparator(Strip(s)[k])
  {
    assert !IsSpace(s[i]);
    StripKeeps(s, i);
    k := i - StripOffset(s);
  }

  lemma ParseTextTwoSeparators(t: string, i: int, j: int)
    requires 0 <= i < j < |t| && IsSeparator(t[i]) && IsSeparator(t[j])
    ensures ParseText(t) == None
  {
    assert t != Inactive;
    assert !IsDigit(t[i]);
    var u := ReplaceCommas(t);
    var r := ReadNumeral(u);
    if r.Some? {
      SpellSeparatorAt(r.value, '.', i);
      SpellSeparatorAt(r.value, '.', j);
    }
  }

  /** The converse direction: a text reads as a code only when, stripped, it
      is the inactive token (code 2) or a well-formed numeral with one of the
      two separators (its truncated value). Everything else has no code. */
  lemma ParseOnlyNumerals(s: string, code: int)
    requires ParseStatus(Text(s)) == Some(code)
    ensures || (Strip(s) == Inactive && code == 2)
            || exists n: Numeral, sep: char :: WellFormed(n) && IsSeparator(sep)
                 && Spell(n, sep) == Strip(s) && code == Truncate(n)
  {
    ParseStatusText(s);
    var t := Strip(s);
    if t != Inactive {
      var n, sep := ParseTextNumeral(t, code);
    }
  }

  /** Finds the numeral that a text other than the inactive token was read as. */
  lemma ParseTextNumeral(t: string, code: int) returns (n: Numeral, sep: char)
    requires ParseText(t) == Some(code) && t != Inactive
    ensures WellFormed(n) && IsSeparator(sep) && Spell(n, sep) == t && code == Truncate(n)
  {
    n := ReadNumeral(ReplaceCommas(t)).value;
    sep := UnreplaceCommas(t, n);
  }

  /** A numeral read after `replace(',', '.')` was spelled with one of the
      two separators in the original text. */
  lemma UnreplaceCommas(t: string, n: Numeral) returns (sep: char)
    requires WellFormed(n) && Spell(n, '.') == ReplaceCommas(t)
    ensures IsSeparator(sep) && Spell(n, sep) == t
  {
    var p := |SignText(n.sign)| + |n.whole|;
    sep := '.';
    if n.point {
      SpellAt(n, '.', p);
      sep := t[p];
    }
    forall q | 0 <= q < |t| ensures Spell(n, sep)[q] == t[q] {
      if !(n.point && q == p) {
        SpellAt(n, '.', q);
        SpellOffPoint(n, '.', sep, q);
      }
    }
  }

  /** `str(w)` spelled as a numeral without a point. */
  lemma IntNumeral(w: int) returns (n: Numeral)
    ensures WellFormed(n) && !n.point && n.frac == []
    ensures Spell(n, '.') == IntToString(w) && Truncate(n) == w
  {
    var digits := if w < 0 then IntToString(w)[1..] else IntToString(w);
    n := Numeral(if w < 0 then Minus else Unsigned, digits, false, []);
    if w < 0 {
      assert IntToString(w) == "-" + digits;
      assert Spell(n, '.') == "-" + digits + [] + [];
    } else {
      assert Spell(n, '.') == "" + digits + [] + [];
    }
  }

  /** The text `str(v)` of a numeric cell as a numeral. */
  lemma ShownNumeral(v: Value) returns (n: Numeral)
    requires v.Int? || v.Float?
    ensures WellFormed(n) && Spell(n, '.') == Str(v)
    ensures Truncate(n) == if v.Int? then v.i else v.whole
  {
    var w := if v.Int? then v.i else v.whole;
    var m := IntNumeral(w);
    if v.Int? {
      n := m;
    } else {
      n := m.(point := true, frac := "0");
      assert Spell(m, '.') == SignText(m.sign) + m.whole + [] + [];
      assert Spell(n, '.') == SignText(m.sign) + m.whole + ['.'] + "0";
      assert Str(v) == IntToString(w) + ".0";
    }
  }

  /** The text the comparison table shows for a numeric cell reads back as
      the same status code as the cell: `parse_status(str(v)) == parse_status(v)`. */
  lemma ParseShownNumber(v: Value)
    requires v.Int? || v.Float?
    ensures ParseStatus(Text(Str(v))) == ParseStatus(v)
  {
    var n := ShownNumeral(v);
    var t := [] + Spell(n, '.') + [];
    assert t == Str(v);
    ParseNumeral([], n, '.', []);
    assert ParseStatus(Text(t)) == Some(Truncate(n));
  }

  // ---------------------------------------------------------------------
  // The cases named by the status convention

  lemma ExampleInactive()
    ensures ParseStatus(Text("غير ساري")) == Some(2)
  {
    ParseInactive([], []);
    assert [] + Inactive + [] == "غير ساري";
  }

  lemma ExamplePaddedDigits()
    ensures ParseStatus(Text(" 2 ")) == Some(2)
  {
    var n := Numeral(Unsigned, "2", false, []);
    assert Truncate(n) == 2;
    assert " " + Spell(n, '.') + " " == " 2 ";
    ParseNumeral(" ", n, '.', " ");
  }

  lemma ExampleCommaDecimal()
    ensures ParseStatus(Text("1,5")) == Some(1)
  {
    var n := Numeral(Unsigned, "1", true, "5");
    assert Truncate(n) == 1;
    assert [] + Spell(n, ',') + [] == "1,5";
    ParseNumeral([], n, ',', []);
  }

  /** A comma used as a thousands separator is read as a decimal comma. */
  lemma ExampleThousands()
    ensures ParseStatus(Text("1,000")) == Some(1)
  {
    var n := Numeral(Unsigned, "1", true, "000");
    assert Truncate(n) == 1;
    assert [] + Spell(n, ',') + [] == "1,000";
    ParseNumeral([], n, ',', []);
  }

  lemma ExampleTwoCommas()
    ensures ParseStatus(Text("1,5,3")) == None
  {
    ParseTwoSeparators("1,5,3", 1, 3);
  }

  lemma ExampleEmpty()
    ensures ParseStatus(Text("")) == None
  {
    ParseBlank(Text(""));
  }
}
