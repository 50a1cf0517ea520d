/**
 * The few Ruby String operations the relation relies on: `String#to_i`,
 * `Integer#to_s`, `String#blank?`, `Symbol#upcase`, `split(', ')` and
 * `split(/\W+/)`. Only ASCII character classes are modelled.
 */
module RubyText {

  /** Ruby's ISSPACE: the characters `to_i` skips and `blank?` accepts. */
  predicate IsSpace(c: char) {
    c == ' ' || c == '\t' || c == '\n' || c == '\U{0B}' || c == '\U{0C}' || c == '\r'
  }

  predicate IsDigit(c: char) {
    '0' <= c <= '9'
  }

  /** A character matched by the regular expression `\w`. */
  predicate IsWordChar(c: char) {
    IsDigit(c) || 'a' <= c <= 'z' || 'A' <= c <= 'Z' || c == '_'
  }

  /** A word of `\w` characters only. */
  predicate IsWord(w: string) {
    forall j :: 0 <= j < |w| ==> IsWordChar(w[j])
  }

  /** `String#blank?`: empty or whitespace only. */
  predicate IsBlankText(s: string)
    ensures s == [] ==> IsBlankText(s)
    ensures s != [] && !IsSpace(s[0]) ==> !IsBlankText(s)
  {
    forall i :: 0 <= i < |s| ==> IsSpace(s[i])
  }

  function UpcaseChar(c: char): (u: char) {
    if 'a' <= c <= 'z' then (c as int - 'a' as int + 'A' as int) as char else c
  }

  /** `upcase` on a Symbol's name, for ASCII letters. */
  function Upcase(s: string): (u: string)
    ensures |u| == |s|
    ensures forall i :: 0 <= i < |s| ==> u[i] == UpcaseChar(s[i])
  {
    if s == [] then [] else [UpcaseChar(s[0])] + Upcase(s[1..])
  }

  // ---------------------------------------------------------------------
  // String#to_i (base 10)
  // ---------------------------------------------------------------------

  /** The whitespace `to_i` skips: the longest all-space prefix is dropped. */
  function DropSpaces(s: string): (t: string)
    ensures t == [] || !IsSpace(t[0])
    ensures |t| <= |s| && t == s[|s| - |t|..]
    ensures forall i :: 0 <= i < |s| - |t| ==> IsSpace(s[i])
  {
    if s != [] && IsSpace(s[0]) then
      var t := DropSpaces(s[1..]);
      assert forall i :: 1 <= i < |s| - |t| ==> s[i] == s[1..][i - 1];
      t
    else s
  }

  /**
   * The run of decimal digits at the front of `s`, where a single `_` may
   * separate two digits (as in "1_000"); the underscores are dropped.
   */
  function LeadingDigits(s: string): (d: string)
    ensures forall i :: 0 <= i < |d| ==> IsDigit(d[i])
    ensures s == [] || !IsDigit(s[0]) ==> d == []
  {
    if s == [] || !IsDigit(s[0]) then []
    else if |s| >= 3 && s[1] == '_' && IsDigit(s[2]) then [s[0]] + LeadingDigits(s[2..])
    else [s[0]] + LeadingDigits(s[1..])
  }

  /**
   * The digits `to_i` reads are exactly the leading digit string: after it
   * comes neither a digit nor an underscore followed by a digit.
   */
  predicate EndsNumber(t: string) {
    t == [] || (!IsDigit(t[0]) && !(t[0] == '_' && |t| >= 2 && IsDigit(t[1])))
  }

  lemma {:induction false} LeadingDigitsPrefix(d: string, t: string)
    requires forall i :: 0 <= i < |d| ==> IsDigit(d[i])
    requires EndsNumber(t)
    ensures LeadingDigits(d + t) == d
  {
    if d == [] {
      assert d + t == t;
    } else {
      assert (d + t)[1..] == d[1..] + t;
      LeadingDigitsPrefix(d[1..], t);
      if |d| == 1 {
        assert d + t == [d[0]] + t;
      } else {
        assert (d + t)[1] == d[1];
      }
    }
  }

  /** A single `_` between two digits is dropped and the number goes on. */
  lemma {:induction false} LeadingDigitsUnderscore(a: char, b: char, t: string)
    requires IsDigit(a) && IsDigit(b)
    ensures LeadingDigits([a, '_', b] + t) == [a] + LeadingDigits([b] + t)
  {
    assert ([a, '_', b] + t)[2..] == [b] + t;
  }

  /** Whitespace in front of the text is all skipped. */
  lemma {:induction false} DropSpacesPrefix(w: string, s: string)
    requires forall i :: 0 <= i < |w| ==> IsSpace(w[i])
    ensures DropSpaces(w + s) == DropSpaces(s)
  {
    if w == [] {
      assert w + s == s;
    } else {
      assert (w + s)[1..] == w[1..] + s;
      DropSpacesPrefix(w[1..], s);
    }
  }

  function DigitValue(c: char): (n: nat)
    requires IsDigit(c)
  {
    c as int - '0' as int
  }

  /** The number a string of decimal digits denotes. */
  function DigitsValue(d: string): (n: nat)
    requires forall i :: 0 <= i < |d| ==> IsDigit(d[i])
  {
    if d == [] then 0 else DigitsValue(d[..|d| - 1]) * 10 + DigitValue(d[|d| - 1])
  }

  /**
   * `String#to_i`: skip leading whitespace, read an optional sign and the
   * leading digits; anything that is not a number reads as 0.
   */
  function ToI(s: string): (n: int)
    ensures DropSpaces(s) == [] ==> n == 0
    ensures (DropSpaces(s) != [] && !IsDigit(DropSpaces(s)[0])
             && DropSpaces(s)[0] != '-' && DropSpaces(s)[0] != '+') ==> n == 0
  {
    var t := DropSpaces(s);
    if t != [] && t[0] == '-' then -(DigitsValue(LeadingDigits(t[1..])) as int)
    else if t != [] && t[0] == '+' then DigitsValue(LeadingDigits(t[1..]))
    else DigitsValue(LeadingDigits(t))
  }

  /** `"12abc".to_i == 12`: a numeral followed by other text reads as the numeral. */
  lemma ToIDigitsThen(d: string, t: string)
    requires d != [] && forall i :: 0 <= i < |d| ==> IsDigit(d[i])
    requires EndsNumber(t)
    ensures ToI(d + t) == DigitsValue(d)
  {
    var x := d + t;
    assert x[0] == d[0] && IsDigit(x[0]) && !IsSpace(x[0]);
    assert DropSpaces(x) == x;
    LeadingDigitsPrefix(d, t);
    assert LeadingDigits(x) == d;
  }

  lemma ToITrailingText()
    ensures ToI("12abc") == 12
  {
    assert "12abc" == "12" + "abc";
    ToIDigitsThen("12", "abc");
  }

  /** `to_i` skips leading whitespace: `(w + s).to_i == s.to_i` for blank `w`. */
  lemma ToISkipsSpaces(w: string, s: string)
    requires forall i :: 0 <= i < |w| ==> IsSpace(w[i])
    ensures ToI(w + s) == ToI(s)
  {
    DropSpacesPrefix(w, s);
    ToISameAfterSpaces(w + s, s);
  }

  lemma ToISameAfterSpaces(x: string, s: string)
    requires DropSpaces(x) == DropSpaces(s)
    ensures ToI(x) == ToI(s)
  {
  }

  /**
   * An underscore between two digits is invisible to `to_i`: `"1_000"`
   * reads as `"1000"` does.
   */
  lemma ToIUnderscore(a: char, b: char, t: string)
    requires IsDigit(a) && IsDigit(b)
    ensures ToI([a, '_', b] + t) == ToI([a, b] + t)
  {
    var x, y := [a, '_', b] + t, [a, b] + t;
    assert x[0] == a && y[0] == a && !IsSpace(a);
    assert DropSpaces(x) == x && DropSpaces(y) == y;
    LeadingDigitsUnderscore(a, b, t);
    assert y[1..] == [b] + t;
    assert LeadingDigits(y) == [a] + LeadingDigits([b] + t);
  }

  // ---------------------------------------------------------------------
  // Integer#to_s
  // ---------------------------------------------------------------------

  function DigitChar(k: nat): (c: char)
    requires k < 10
    ensures IsDigit(c) && DigitValue(c) == k
  {
    ('0' as int + k) as char
  }

  function ShowNat(n: nat): (d: string)
    ensures |d| > 0
    ensures forall i :: 0 <= i < |d| ==> IsDigit(d[i])
  {
    if n < 10 then [DigitChar(n)] else ShowNat(n / 10) + [DigitChar(n % 10)]
  }

  /** `Integer#to_s`: the decimal numeral, with a leading '-' when negative. */
  function Show(n: int): (d: string)
    ensures |d| > 0
    ensures (d[0] == '-') <==> n < 0
    ensures forall i :: (if n < 0 then 1 else 0) <= i < |d| ==> IsDigit(d[i])
  {
    if n < 0 then "-" + ShowNat(-n) else ShowNat(n)
  }

  lemma {:induction false} DigitsValueShowNat(n: nat)
    ensures DigitsValue(ShowNat(n)) == n
  {
    if n >= 10 {
      var d := ShowNat(n);
      assert d[..|d| - 1] == ShowNat(n / 10);
      DigitsValueShowNat(n / 10);
    }
  }

  lemma {:induction false} LeadingDigitsOfDigits(d: string)
    requires forall i :: 0 <= i < |d| ==> IsDigit(d[i])
    ensures LeadingDigits(d) == d
  {
    if d != [] {
      LeadingDigitsOfDigits(d[1..]);
    }
  }

  /** Reading back a decimal numeral gives the number: `n.to_s.to_i == n`. */
  lemma ToIShow(n: int)
    ensures ToI(Show(n)) == n
  {
    var s := Show(n);
    assert !IsSpace(s[0]);
    assert DropSpaces(s) == s;
    if n < 0 {
      var d := ShowNat(-n);
      assert s[0] == '-' && s[1..] == d;
      LeadingDigitsOfDigits(d);
      DigitsValueShowNat(-n);
    } else {
      var d := ShowNat(n);
      assert IsDigit(d[0]);
      LeadingDigitsOfDigits(d);
      DigitsValueShowNat(n);
    }
  }

  /** `Integer#to_s` is injective, since `to_i` inverts it. */
  lemma ShowInjective(m: int, n: int)
    ensures Show(m) == Show(n) <==> m == n
  {
    ToIShow(m);
    ToIShow(n);
  }

  /** A leading zero does not change the number a string of digits denotes. */
  lemma {:induction false} DigitsValueLeadingZero(d: string)
    requires forall i :: 0 <= i < |d| ==> IsDigit(d[i])
    ensures DigitsValue("0" + d) == DigitsValue(d)
  {
    if d != [] {
      var z := "0" + d;
      assert z[..|z| - 1] == "0" + d[..|d| - 1];
      assert z[|z| - 1] == d[|d| - 1];
      DigitsValueLeadingZero(d[..|d| - 1]);
    } else {
      assert ("0" + d)[..0] == [];
    }
  }

  /** Only the numeral of 0 starts with '0': `to_s` never pads. */
  lemma {:induction false} ShowNatLeadingZero(n: nat)
    requires ShowNat(n)[0] == '0'
    ensures n == 0
  {
    if n >= 10 {
      assert ShowNat(n)[0] == ShowNat(n / 10)[0];
      ShowNatLeadingZero(n / 10);
    }
  }

  /**
   * A zero-padded numeral reads as the same number with `to_i`, yet is
   * the `to_s` of no integer: `"07".to_i == 7`, and no `m.to_s` is "07".
   */
  lemma PaddedNumeral(n: nat, m: int)
    ensures ToI("0" + Show(n)) == n
    ensures Show(m) != "0" + Show(n)
  {
    var d := ShowNat(n);
    var z := "0" + d;
    assert Show(n) == d;
    assert !IsSpace(z[0]) && DropSpaces(z) == z;
    assert forall i :: 0 <= i < |z| ==> IsDigit(z[i]);
    LeadingDigitsOfDigits(z);
    DigitsValueLeadingZero(d);
    DigitsValueShowNat(n);
    if Show(m) == z {
      assert m >= 0;
      ShowNatLeadingZero(m);
    }
  }

  // ---------------------------------------------------------------------
  // String#split
  // ---------------------------------------------------------------------

  /** Ruby's split drops the empty fields at the end of its result. */
  function DropTrailingEmpty(xs: seq<string>): (r: seq<string>)
    ensures |r| <= |xs| && r == xs[..|r|]
    ensures r == [] || r[|r| - 1] != ""
    ensures forall i :: |r| <= i < |xs| ==> xs[i] == ""
  {
    if xs != [] && xs[|xs| - 1] == "" then DropTrailingEmpty(xs[..|xs| - 1]) else xs
  }

  /** `xs.join(', ')`. */
  function JoinCommaSpace(xs: seq<string>): (s: string) {
    if xs == [] then "" else if |xs| == 1 then xs[0] else xs[0] + ", " + JoinCommaSpace(xs[1..])
  }

  /** `w` contains the separator ", ". */
  predicate HasCommaSpace(w: string) {
    exists i :: 0 <= i < |w| - 1 && w[i] == ',' && w[i + 1] == ' '
  }

  /** Putting a character in front of the first field puts it in front of the join. */
  lemma JoinConsHead(c: char, xs: seq<string>)
    requires xs != []
    ensures JoinCommaSpace([[c] + xs[0]] + xs[1..]) == [c] + JoinCommaSpace(xs)
  {
    var ys := [[c] + xs[0]] + xs[1..];
    assert ys[1..] == xs[1..];
  }

  /** A character in front of a field without ", " adds none unless it is ',' before ' '. */
  lemma NoCommaSpaceCons(c: char, w: string)
    requires !HasCommaSpace(w)
    requires c == ',' ==> w == [] || w[0] != ' '
    ensures !HasCommaSpace([c] + w)
  {
    var h := [c] + w;
    forall i | 0 <= i < |h| - 1
      ensures !(h[i] == ',' && h[i + 1] == ' ')
    {
      if i > 0 {
        assert h[i] == w[i - 1] && h[i + 1] == w[i];
      }
    }
  }

  /**
   * The fields of `s` between the occurrences of ", ", empty ones
   * included: joined with ", " they give back `s`, and none contains the
   * separator. Since ", " cannot overlap itself, these two facts fix the
   * fields.
   */
  function RawSplitCommaSpace(s: string): (r: seq<string>)
    ensures |r| > 0
    ensures JoinCommaSpace(r) == s
    ensures forall i :: 0 <= i < |r| ==> !HasCommaSpace(r[i])
    ensures |r[0]| <= |s| && r[0] == s[..|r[0]|]
  {
    if |s| >= 2 && s[0] == ',' && s[1] == ' ' then
      var rest := RawSplitCommaSpace(s[2..]);
      SplitAtSeparator(s, rest);
      [""] + rest
    else if s == [] then [""]
    else
      var rest := RawSplitCommaSpace(s[1..]);
      SplitAtCharacter(s, rest);
      [[s[0]] + rest[0]] + rest[1..]
  }

  /** A leading ", " opens an empty first field in front of the fields of the rest. */
  lemma SplitAtSeparator(s: string, rest: seq<string>)
    requires |s| >= 2 && s[0] == ',' && s[1] == ' '
    requires rest != [] && JoinCommaSpace(rest) == s[2..]
    requires forall i :: 0 <= i < |rest| ==> !HasCommaSpace(rest[i])
    ensures JoinCommaSpace([""] + rest) == s
    ensures forall i :: 0 <= i < |[""] + rest| ==> !HasCommaSpace(([""] + rest)[i])
  {
    var r := [""] + rest;
    assert r[1..] == rest;
    assert s == ", " + s[2..];
    assert forall i :: 0 < i < |r| ==> r[i] == rest[i - 1];
  }

  /** Any other leading character joins the first field of the rest. */
  lemma SplitAtCharacter(s: string, rest: seq<string>)
    requires s != [] && !(|s| >= 2 && s[0] == ',' && s[1] == ' ')
    requires rest != [] && JoinCommaSpace(rest) == s[1..]
    requires forall i :: 0 <= i < |rest| ==> !HasCommaSpace(rest[i])
    requires |rest[0]| <= |s[1..]| && rest[0] == s[1..][..|rest[0]|]
    ensures JoinCommaSpace([[s[0]] + rest[0]] + rest[1..]) == s
    ensures forall i :: 0 <= i < |rest| ==> !HasCommaSpace(([[s[0]] + rest[0]] + rest[1..])[i])
    ensures [s[0]] + rest[0] == s[..1 + |rest[0]|]
  {
    var head := [s[0]] + rest[0];
    var r := [head] + rest[1..];
    JoinConsHead(s[0], rest);
    assert s == [s[0]] + s[1..];
    assert rest[0] != [] ==> rest[0][0] == s[1];
    NoCommaSpaceCons(s[0], rest[0]);
    assert forall i :: 0 < i < |r| ==> r[i] == rest[i];
  }

  /** `s.split(', ')`: the raw fields less the empty ones at the end. */
  function SplitCommaSpace(s: string): (r: seq<string>)
    ensures |r| <= |RawSplitCommaSpace(s)| && r == RawSplitCommaSpace(s)[..|r|]
    ensures r == [] || r[|r| - 1] != ""
    ensures forall i :: |r| <= i < |RawSplitCommaSpace(s)| ==> RawSplitCommaSpace(s)[i] == ""
  {
    DropTrailingEmpty(RawSplitCommaSpace(s))
  }

  /** `s` less its leading run of non-word characters: the separator `split(/\W+/)` skips. */
  function DropNonWord(s: string): (t: string)
    ensures |t| <= |s| && t == s[|s| - |t|..]
    ensures forall i :: 0 <= i < |s| - |t| ==> !IsWordChar(s[i])
    ensures t == [] || IsWordChar(t[0])
  {
    if s != [] && !IsWordChar(s[0]) then
      var u := s[1..];
      var t := DropNonWord(u);
      assert u[|u| - |t|..] == s[|s| - |t|..];
      assert forall i :: 1 <= i < |s| - |t| ==> s[i] == u[i - 1];
      t
    else s
  }

  /** The fields of `s` between the maximal runs of non-word characters. */
  function RawSplitWords(s: string): (r: seq<string>)
    ensures |r| > 0
    ensures forall i :: 0 <= i < |r| ==> IsWord(r[i])
    ensures forall i :: 0 < i < |r| - 1 ==> r[i] != ""
    decreases |s|
  {
    if s == [] then [""]
    else if IsWordChar(s[0]) then
      var rest := RawSplitWords(s[1..]);
      var r := [[s[0]] + rest[0]] + rest[1..];
      assert IsWord(r[0]) by { assert forall j :: 0 < j < |r[0]| ==> r[0][j] == rest[0][j - 1]; }
      assert forall i :: 0 < i < |r| ==> r[i] == rest[i];
      r
    else
      var rest := RawSplitWords(DropNonWord(s));
      assert rest[0] == [] ==> DropNonWord(s) == [];
      var r := [""] + rest;
      assert forall i :: 0 < i < |r| ==> r[i] == rest[i - 1];
      r
  }

  /** `s.split(/\W+/)`: the raw fields less the empty ones at the end. */
  function SplitWords(s: string): (r: seq<string>)
    ensures |r| <= |RawSplitWords(s)| && r == RawSplitWords(s)[..|r|]
    ensures r == [] || r[|r| - 1] != ""
    ensures forall i :: |r| <= i < |RawSplitWords(s)| ==> RawSplitWords(s)[i] == ""
  {
    DropTrailingEmpty(RawSplitWords(s))
  }

  /**
   * The words `split(/\W+/)` yields consist of word characters only, and
   * every one of them but the first is non-empty (the first is empty when
   * `s` starts with a separator).
   */
  lemma SplitWordsAreWords(s: string)
    ensures forall i :: 0 <= i < |SplitWords(s)| ==> IsWord(SplitWords(s)[i])
    ensures forall i :: 0 < i < |SplitWords(s)| ==> SplitWords(s)[i] != ""
  {
    var raw := RawSplitWords(s);
    var r := SplitWords(s);
    assert r == raw[..|r|];
    forall i | 0 < i < |r|
      ensures r[i] != ""
    {
      if i == |r| - 1 { } else { assert r[i] == raw[i]; }
    }
  }

  /** A text without a comma is one field of `split(', ')`. */
  lemma {:induction false} CommaSplitNone(s: string)
    requires forall i :: 0 <= i < |s| ==> s[i] != ','
    ensures RawSplitCommaSpace(s) == [s]
  {
    if s != [] {
      CommaSplitNone(s[1..]);
      assert [s[0]] + s[1..] == s;
    }
  }

  /** `(a + ", " + b).split(', ')` starts with `a` when `a` has no comma. */
  lemma {:induction false} CommaSplitPrefix(a: string, b: string)
    requires forall i :: 0 <= i < |a| ==> a[i] != ','
    ensures RawSplitCommaSpace(a + ", " + b) == [a] + RawSplitCommaSpace(b)
  {
    var s := a + ", " + b;
    if a == [] {
      assert s[2..] == b;
    } else {
      assert s[1..] == a[1..] + ", " + b;
      CommaSplitPrefix(a[1..], b);
      assert [a[0]] + a[1..] == a;
    }
  }

  /** A run of word characters is one field of `split(/\W+/)`. */
  lemma {:induction false} WordSplitNone(s: string)
    requires IsWord(s)
    ensures RawSplitWords(s) == [s]
  {
    if s != [] {
      WordSplitNone(s[1..]);
      assert [s[0]] + s[1..] == s;
    }
  }

  lemma {:induction false} DropNonWordRun(sep: string, b: string)
    requires forall i :: 0 <= i < |sep| ==> !IsWordChar(sep[i])
    requires b == [] || IsWordChar(b[0])
    ensures DropNonWord(sep + b) == b
  {
    if sep != [] {
      assert (sep + b)[1..] == sep[1..] + b;
      DropNonWordRun(sep[1..], b);
    }
  }

  /**
   * `(a + sep + b).split(/\W+/)` starts with the word `a` when `sep` is a
   * non-empty run of separators and `b` starts with a word character.
   */
  lemma {:induction false} WordSplitPrefix(a: string, sep: string, b: string)
    requires IsWord(a)
    requires sep != [] && forall i :: 0 <= i < |sep| ==> !IsWordChar(sep[i])
    requires b == [] || IsWordChar(b[0])
    ensures RawSplitWords(a + sep + b) == [a] + RawSplitWords(b)
  {
    var s := a + sep + b;
    if a == [] {
      assert s == sep + b;
      assert s[0] == sep[0] && !IsWordChar(s[0]);
      DropNonWordRun(sep, b);
      assert RawSplitWords(s) == [""] + RawSplitWords(DropNonWord(s));
    } else {
      var a' := a[1..];
      assert IsWord(a') by { assert forall j :: 0 <= j < |a'| ==> a'[j] == a[j + 1]; }
      assert s[1..] == a' + sep + b;
      WordSplitPrefix(a', sep, b);
      var rest := RawSplitWords(s[1..]);
      assert rest == [a'] + RawSplitWords(b);
      assert s[0] == a[0] && IsWordChar(s[0]);
      assert RawSplitWords(s) == [[s[0]] + rest[0]] + rest[1..];
      assert rest[1..] == RawSplitWords(b);
      assert [a[0]] + a' == a;
    }
  }
}
