/**
 * Cell values as the review tool receives them from pandas, and the few
 * Python string operations the rest of the model relies on: `str(v)`,
 * `str.strip()`, `str.isdigit()` and the decimal reading of a digit string.
 */
module Values {

  datatype Option<T> = None | Some(value: T)

  /** A spreadsheet cell. `Float(w)` is a Python float whose value is the
      whole number `w` (pandas turns an integer column that has an empty cell
      into floats); fractional floats are not part of this model. */
  datatype Value =
    | Null              // Python None, also what `dict.get` returns for a missing key
    | NaN               // float('nan'), pandas' empty cell
    | Int(i: int)
    | Float(whole: int)
    | Text(s: string)

  /** `pd.isna(v)`: true for None and NaN only. */
  predicate IsNa(v: Value) {
    v.Null? || v.NaN?
  }

  /** `c.isspace()` in Python 3. */
  predicate IsSpace(c: char) {
    || c == ' ' || '\t' <= c <= '\r' || '\U{1C}' <= c <= '\U{1F}'
    || c == '\U{85}' || c == '\U{A0}' || c == '\U{1680}'
    || '\U{2000}' <= c <= '\U{200A}' || c == '\U{2028}' || c == '\U{2029}'
    || c == '\U{202F}' || c == '\U{205F}' || c == '\U{3000}'
  }

  predicate AllSpace(s: string) {
    forall i :: 0 <= i < |s| ==> IsSpace(s[i])
  }

  /** White space followed by white space is white space. */
  lemma AllSpaceJoin(a: string, b: string)
    requires AllSpace(a) && AllSpace(b)
    ensures AllSpace(a + b)
  {
    forall i | 0 <= i < |a + b| ensures IsSpace((a + b)[i]) {
      if i < |a| {
        assert (a + b)[i] == a[i];
      } else {
        assert (a + b)[i] == b[i - |a|];
      }
    }
  }

  /** `s.lstrip()` */
  function TrimStart(s: string): (r: string)
    ensures |r| <= |s| && r == s[|s| - |r|..]
    ensures r == [] || !IsSpace(r[0])
  {
    if s != [] && IsSpace(s[0]) then
      var r := TrimStart(s[1..]);
      assert s[|s| - |r|..] == s[1..][|s| - 1 - |r|..];
      r
    else s
  }

  /** `s.rstrip()` */
  function TrimEnd(s: string): (r: string)
    ensures |r| <= |s| && r == s[..|r|]
    ensures r == [] || !IsSpace(r[|r| - 1])
  {
    if s != [] && IsSpace(s[|s| - 1]) then
      var r := TrimEnd(s[..|s| - 1]);
      assert s[..|r|] == s[..|s| - 1][..|r|];
      r
    else s
  }

  /** `s.strip()` */
  function Strip(s: string): (r: string)
    ensures |r| <= |s|
    ensures r == [] || (!IsSpace(r[0]) && !IsSpace(r[|r| - 1]))
  {
    TrimEnd(TrimStart(s))
  }

  /** How much white space `strip` removes from the front of `s`. */
  function StripOffset(s: string): nat {
    |s| - |TrimStart(s)|
  }

  /** `lstrip` removes white space only. */
  lemma {:induction false} TrimStartSpace(s: string)
    ensures AllSpace(s[..|s| - |TrimStart(s)|])
  {
    if s != [] && IsSpace(s[0]) {
      var r := TrimStart(s[1..]);
      TrimStartSpace(s[1..]);
      AllSpaceJoin([s[0]], s[1..][..|s| - 1 - |r|]);
      ConsPrefix(s, |s| - |r|);
    }
  }

  /** `rstrip` removes white space only. */
  lemma {:induction false} TrimEndSpace(s: string)
    ensures AllSpace(s[|TrimEnd(s)|..])
  {
    if s != [] && IsSpace(s[|s| - 1]) {
      var p := s[..|s| - 1];
      var r := TrimEnd(p);
      TrimEndSpace(p);
      AllSpaceJoin(p[|r|..], [s[|s| - 1]]);
      SnocSuffix(s, |r|);
    }
  }

  /** What `strip` keeps is one slice of the text, with only white space
      outside it. */
  lemma StripSlice(s: string)
    ensures StripOffset(s) + |Strip(s)| <= |s|
    ensures Strip(s) == s[StripOffset(s)..StripOffset(s) + |Strip(s)|]
    ensures AllSpace(s[..StripOffset(s)]) && AllSpace(s[StripOffset(s) + |Strip(s)|..])
  {
    TrimStartSpace(s);
    StripWithin(s);
    StripSpaceAfter(s);
  }

  lemma StripWithin(s: string)
    ensures StripOffset(s) + |Strip(s)| <= |s|
    ensures Strip(s) == s[StripOffset(s)..StripOffset(s) + |Strip(s)|]
  {
    var t := TrimStart(s);
    var r := TrimEnd(t);
    var a := |s| - |t|;
    assert r == t[..|r|];
    assert t[..|r|] == s[a..a + |r|];
  }

  lemma StripSpaceAfter(s: string)
    ensures StripOffset(s) + |Strip(s)| <= |s|
    ensures AllSpace(s[StripOffset(s) + |Strip(s)|..])
  {
    var t := TrimStart(s);
    var r := TrimEnd(t);
    TrimEndSpace(t);
    SuffixOfSuffix(s, t, |r|);
  }

  lemma ConsPrefix(s: string, k: nat)
    requires 0 < k <= |s|
    ensures s[..k] == [s[0]] + s[1..][..k - 1]
  {
  }

  lemma SnocSuffix(s: string, k: nat)
    requires k < |s|
    ensures s[k..] == s[..|s| - 1][k..] + [s[|s| - 1]]
  {
  }

  lemma SuffixOfSuffix(s: string, t: string, k: nat)
    requires |t| <= |s| && t == s[|s| - |t|..] && k <= |t|
    ensures t[k..] == s[|s| - |t| + k..]
  {
  }

  /** `strip` keeps every character that is not white space. */
  lemma StripKeeps(s: string, i: int)
    requires 0 <= i < |s| && !IsSpace(s[i])
    ensures StripOffset(s) <= i < StripOffset(s) + |Strip(s)|
    ensures Strip(s)[i - StripOffset(s)] == s[i]
  {
    StripSlice(s);
    var a := StripOffset(s);
    var e := a + |Strip(s)|;
    assert Strip(s)[i - a] == s[a..e][i - a];
  }

  lemma {:induction false} TrimStartPadded(pre: string, t: string)
    requires AllSpace(pre)
    requires t == [] || !IsSpace(t[0])
    ensures TrimStart(pre + t) == t
  {
    if pre != [] {
      assert (pre + t)[1..] == pre[1..] + t;
      TrimStartPadded(pre[1..], t);
    }
  }

  lemma {:induction false} TrimEndPadded(t: string, post: string)
    requires AllSpace(post)
    requires t == [] || !IsSpace(t[|t| - 1])
    ensures TrimEnd(t + post) == t
  {
    if post != [] {
      assert (t + post)[..|t + post| - 1] == t + post[..|post| - 1];
      TrimEndPadded(t, post[..|post| - 1]);
    }
  }

  /** White space around a text that neither starts nor ends with white
      space is exactly what `strip` removes. */
  lemma StripPadded(pre: string, t: string, post: string)
    requires AllSpace(pre) && AllSpace(post)
    requires t == [] || (!IsSpace(t[0]) && !IsSpace(t[|t| - 1]))
    ensures Strip(pre + t + post) == t
  {
    if t == [] {
      assert pre + t + post == pre + post;
      TrimStartPadded(pre + post, []);
      assert pre + post + [] == pre + post;
    } else {
      assert pre + t + post == pre + (t + post);
      TrimStartPadded(pre, t + post);
      TrimEndPadded(t, post);
    }
  }

  /** A text made of white space only strips to the empty text, and only
      such a text does. */
  lemma StripEmptyIffSpace(s: string)
    ensures Strip(s) == [] <==> AllSpace(s)
  {
    if AllSpace(s) {
      StripPadded(s, [], []);
      assert s + [] + [] == s;
    } else {
      var i :| 0 <= i < |s| && !IsSpace(s[i]);
      StripKeeps(s, i);
    }
  }

  /** A decimal digit that `int()` and `float()` accept: ASCII, Arabic-Indic
      (U+0660..U+0669) or extended Arabic-Indic (U+06F0..U+06F9). */
  predicate IsDigit(c: char) {
    '0' <= c <= '9' || '\U{0660}' <= c <= '\U{0669}' || '\U{06F0}' <= c <= '\U{06F9}'
  }

  function DigitValue(c: char): (d: nat)
    requires IsDigit(c)
    ensures d < 10
  {
    if '0' <= c <= '9' then c as int - '0' as int
    else if '\U{0660}' <= c <= '\U{0669}' then c as int - 0x0660
    else c as int - 0x06F0
  }

  predicate AllDigits(s: string) {
    forall i :: 0 <= i < |s| ==> IsDigit(s[i])
  }

  /** `s.isdigit()` restricted to the digits above: non-empty, digits only. */
  predicate IsDigits(s: string) {
    |s| > 0 && AllDigits(s)
  }

  /** The number a digit string denotes, most significant digit first. */
  function DigitsValue(s: string): (n: nat)
    requires AllDigits(s)
  {
    if s == [] then 0 else DigitsValue(s[..|s| - 1]) * 10 + DigitValue(s[|s| - 1])
  }

  function DigitChar(d: nat): (c: char)
    requires d < 10
    ensures '0' <= c <= '9' && IsDigit(c) && DigitValue(c) == d
  {
    ('0' as int + d) as char
  }

  /** `str(n)` for a non-negative int: ASCII digits that read back as `n`. */
  function NatToString(n: nat): (r: string)
    ensures IsDigits(r) && DigitsValue(r) == n
    ensures forall i :: 0 <= i < |r| ==> '0' <= r[i] <= '9'
    ensures r[0] == '0' <==> n == 0
    ensures n == 0 ==> r == "0"
  {
    if n < 10 then [DigitChar(n)]
    else
      var p := NatToString(n / 10);
      var r := p + [DigitChar(n % 10)];
      assert r[..|r| - 1] == p;
      r
  }

  /** `str(i)` for an int. */
  function IntToString(i: int): (r: string)
    ensures |r| > 0 && r[|r| - 1] != '-' && !IsSpace(r[0]) && !IsSpace(r[|r| - 1])
    ensures i >= 0 ==> IsDigits(r) && DigitsValue(r) == i
    ensures i < 0 ==> r[0] == '-' && IsDigits(r[1..]) && DigitsValue(r[1..]) == -i
    ensures i >= 0 ==> (r[0] == '0' <==> i == 0)
    ensures i < 0 ==> r[1] != '0'
    ensures i >= 0 ==> r == NatToString(i)
    ensures i < 0 ==> r == "-" + NatToString(-i)
  {
    if i < 0 then
      var p := NatToString(-i);
      var r := "-" + p;
      assert r[1..] == p;
      r
    else NatToString(i)
  }

  /** `str(i)` never holds a decimal point. */
  lemma NoPointInInt(i: int)
    ensures forall k :: 0 <= k < |IntToString(i)| ==> IntToString(i)[k] != '.'
  {
    var r := IntToString(i);
    forall k | 0 <= k < |r| ensures r[k] != '.' {
      if i < 0 && k > 0 {
        assert r[k] == r[1..][k - 1];
      }
    }
  }

  /** `str(w)` of a whole float: the int's digits and ".0", without
      surrounding white space. */
  function FloatToString(w: int): (r: string)
    ensures r == IntToString(w) + ".0"
    ensures |r| >= 3 && r[|r| - 2..] == ".0" && !IsSpace(r[0]) && !IsSpace(r[|r| - 1])
  {
    var r := IntToString(w) + ".0";
    assert r[|r| - 2..] == ".0";
    assert r[0] == IntToString(w)[0];
    r
  }

  /** `str(v)`, the text the comparison table shows and compares. A text is
      itself; any other cell gives a non-empty text without surrounding white
      space, an int has no decimal point and a float always ends in ".0", so
      an int and a float never show the same text. */
  function Str(v: Value): (r: string)
    ensures v.Text? ==> r == v.s
    ensures v.Null? ==> r == "None"
    ensures v.NaN? ==> r == "nan"
    ensures v.Int? ==> r == IntToString(v.i)
    ensures v.Float? ==> r == IntToString(v.whole) + ".0"
    ensures !v.Text? ==> |r| > 0 && !IsSpace(r[0]) && !IsSpace(r[|r| - 1])
    ensures v.Int? ==> forall k :: 0 <= k < |r| ==> r[k] != '.'
    ensures v.Float? ==> |r| >= 3 && r[|r| - 2..] == ".0"
  {
    match v
    case Null => "None"
    case NaN => "nan"
    case Int(i) => NoPointInInt(i); IntToString(i)
    case Float(w) => FloatToString(w)
    case Text(s) => s
  }
}
