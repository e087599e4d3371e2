/** Reading a keyword/value string by the rule of section 34.1.1.1 of the PostgreSQL 16 documentation. */
module KeywordValue {
  import opened Wrappers

  /** The blanks are the white space characters of ASCII. */
  predicate IsBlank(c: char) {
    c == ' ' || 9 <= c as int <= 13
  }

  function SkipBlanks(s: string): (r: string)
    ensures |r| <= |s| && (r != [] ==> !IsBlank(r[0]))
  {
    if s == [] || !IsBlank(s[0]) then s else SkipBlanks(s[1..])
  }

  /** A value up to its closing quote, or up to a blank when unquoted; a backslash takes the next character
      literally. Returns the value and the text after it. */
  function ReadValue(s: string, quoted: bool): (r: Option<(string, string)>)
    ensures r.Some? ==> |r.value.1| <= |s|
  {
    if s == [] then (if quoted then None else Some(([], [])))
    else if quoted && s[0] == '\'' then Some(([], s[1..]))
    else if !quoted && IsBlank(s[0]) then Some(([], s))
    else if s[0] == '\\' then
      if |s| == 1 then (if quoted then None else Some(([], [])))
      else PrependChar(s[1], ReadValue(s[2..], quoted))
    else PrependChar(s[0], ReadValue(s[1..], quoted))
  }

  function PrependChar(c: char, r: Option<(string, string)>): Option<(string, string)> {
    match r case Some((value, rest)) => Some(([c] + value, rest)) case None => None
  }

  /** The value behind an equal sign and any blanks, in quotes or not. */
  function ReadAfterEqual(s: string): (r: Option<(string, string)>)
    ensures r.Some? ==> |r.value.1| <= |s|
  {
    var t := SkipBlanks(s);
    if t != [] && t[0] == '\'' then ReadValue(t[1..], true) else ReadValue(t, false)
  }

  /** A keyword ends at the equal sign or a blank. */
  function KeyLength(s: string): (n: nat)
    ensures n <= |s|
  {
    if s == [] || s[0] == '=' || IsBlank(s[0]) then 0 else 1 + KeyLength(s[1..])
  }

  type Settings = seq<(string, string)>

  function PrependSetting(k: string, v: string, r: Option<Settings>): Option<Settings> {
    match r case Some(settings) => Some([(k, v)] + settings) case None => None
  }

  /** The settings of a string; `None` if it is malformed. */
  function ReadSettings(s: string): Option<Settings>
    decreases |s|
  {
    if s == [] then Some([])
    else if IsBlank(s[0]) then ReadSettings(s[1..])
    else
      var n := KeyLength(s);
      var equal := SkipBlanks(s[n..]);
      if equal == [] || equal[0] != '=' then None
      else
        match ReadAfterEqual(equal[1..])
        case None => None
        case Some((value, rest)) => PrependSetting(s[..n], value, ReadSettings(rest))
  }

  // ---------------------------------------------------------------- One setting

  predicate IsKey(k: string) {
    k != [] && forall i | 0 <= i < |k| :: k[i] != '=' && !IsBlank(k[i])
  }

  lemma {:induction false} KeyReads(k: string, rest: string)
    requires forall i | 0 <= i < |k| :: k[i] != '=' && !IsBlank(k[i])
    ensures KeyLength(k + ['='] + rest) == |k|
  {
    if k != [] {
      assert (k + ['='] + rest)[1..] == k[1..] + ['='] + rest;
      KeyReads(k[1..], rest);
    }
  }

  /** A keyword with an equal sign right behind it is followed by its value. */
  lemma SettingReads(k: string, s: string)
    requires IsKey(k)
    ensures ReadSettings(k + ['='] + s) ==
      match ReadAfterEqual(s)
      case None => None
      case Some((value, rest)) => PrependSetting(k, value, ReadSettings(rest))
  {
    var all := k + ['='] + s;
    KeyReads(k, s);
    assert all[..|k|] == k && all[|k|..] == ['='] + s;
    assert SkipBlanks(all[|k|..]) == ['='] + s && (['='] + s)[1..] == s;
  }

  // ---------------------------------------------------------------- Values in quotes

  /** A value that means itself between quotes. */
  predicate NeedsNoEscape(v: string) {
    forall i | 0 <= i < |v| :: v[i] != '\'' && v[i] != '\\'
  }

  lemma {:induction false} CleanReads(v: string, rest: string)
    requires NeedsNoEscape(v)
    ensures ReadValue(v + ['\''] + rest, true) == Some((v, rest))
  {
    var s := v + ['\''] + rest;
    if v == [] {
      assert s[1..] == rest;
    } else {
      assert s[1..] == v[1..] + ['\''] + rest;
      CleanReads(v[1..], rest);
      assert [v[0]] + v[1..] == v;
    }
  }

  /** What is read of a text whose first quote is at `q`: either it has a quote before position `q`, which was
      escaped, or it is read from the part before `q`. */
  lemma {:induction false} FirstQuote(s: string, q: nat)
    requires q < |s| && s[q] == '\'' && forall i | 0 <= i < q :: s[i] != '\''
    requires ReadValue(s, true).Some?
    ensures var v := ReadValue(s, true).value.0;
      || (exists i :: 0 <= i < q && i < |v| && v[i] == '\'')
      || (|v| <= q && (|v| == q ==> forall i | 0 <= i < q :: s[i] != '\\'))
    decreases q
  {
    var v := ReadValue(s, true).value.0;
    if q > 0 {
      var step := if s[0] == '\\' then 2 else 1;
      if step == 2 && q == 1 {
        assert v[0] == '\'';
      } else {
        var t := s[step..];
        assert forall i | 0 <= i < q - step :: t[i] == s[i + step];
        FirstQuote(t, q - step);
        var w := ReadValue(t, true).value.0;
        assert v == [v[0]] + w;
        if i :| 0 <= i < q - step && i < |w| && w[i] == '\'' {
          assert v[i + 1] == '\'';
        } else if |v| == q {
          assert step == 1;
          forall i | 0 <= i < q
            ensures s[i] != '\\'
          {
            assert i > 0 ==> t[i - 1] == s[i];
          }
        }
      }
    }
  }

  /** Between quotes exactly the values without quote and backslash mean themselves. */
  lemma QuotedMeansItselfIff(v: string, rest: string)
    ensures NeedsNoEscape(v) <==>
      var r := ReadValue(v + ['\''] + rest, true); r.Some? && r.value.0 == v
    ensures NeedsNoEscape(v) ==> ReadValue(v + ['\''] + rest, true) == Some((v, rest))
  {
    var s := v + ['\''] + rest;
    if NeedsNoEscape(v) {
      CleanReads(v, rest);
    } else if ReadValue(s, true).Some? {
      var q := FirstQuoteOf(s, |v|);
      FirstQuote(s, q);
      assert forall i | 0 <= i < |v| :: s[i] == v[i];
    }
  }

  lemma FirstQuoteOf(s: string, n: nat) returns (q: nat)
    requires n < |s| && s[n] == '\''
    ensures q <= n && s[q] == '\'' && forall i | 0 <= i < q :: s[i] != '\''
  {
    q := 0;
    while s[q] != '\''
      invariant q <= n && forall i | 0 <= i < q :: s[i] != '\''
      decreases n - q
    {
      q := q + 1;
    }
  }

  // ---------------------------------------------------------------- Values without quotes

  predicate IsPlain(v: string) {
    forall i | 0 <= i < |v| :: !IsBlank(v[i]) && v[i] != '\\'
  }

  /** A value that means itself without quotes. */
  predicate NeedsNoQuotes(v: string) {
    v != [] && v[0] != '\'' && IsPlain(v)
  }

  predicate EndsSetting(rest: string) {
    rest == [] || IsBlank(rest[0])
  }

  lemma {:induction false} PlainReads(v: string, rest: string)
    requires IsPlain(v) && EndsSetting(rest)
    ensures ReadValue(v + rest, false) == Some((v, rest))
  {
    if v == [] {
      assert v + rest == rest;
    } else {
      assert (v + rest)[1..] == v[1..] + rest;
      PlainReads(v[1..], rest);
      assert [v[0]] + v[1..] == v;
    }
  }

  lemma BareReads(v: string, rest: string)
    requires NeedsNoQuotes(v) && EndsSetting(rest)
    ensures ReadAfterEqual(v + rest) == Some((v, rest))
  {
    assert (v + rest)[0] == v[0];
    PlainReads(v, rest);
  }

  /** What is read of `a` when a blank and a plain `b` follow: part of `a`, all of it only if it is plain, or,
      if a backslash ends `a`, a text that ends like `b`. */
  ghost predicate ReadOf(a: string, b: string, v: string)
    requires b != []
  {
    || (|v| <= |a| && (|v| == |a| ==> IsPlain(a)))
    || (a != [] && a[|a| - 1] == '\\' && v != [] && v[|v| - 1] == b[|b| - 1])
  }

  lemma ReadOfMore(a: string, step: nat, b: string, c: char, w: string)
    requires b != [] && 1 <= step <= |a| && ReadOf(a[step..], b, w)
    requires step == 1 ==> !IsBlank(a[0]) && a[0] != '\\'
    ensures ReadOf(a, b, [c] + w)
  {
    var d, v := a[step..], [c] + w;
    assert d != [] ==> d[|d| - 1] == a[|a| - 1];
    assert w != [] ==> v[|v| - 1] == w[|w| - 1];
    if |v| == |a| && step == 1 && IsPlain(d) {
      assert a == [a[0]] + d;
    }
  }

  lemma {:induction false} UnquotedRead(a: string, b: string, c: string)
    requires b != [] && IsPlain(b) && EndsSetting(c)
    ensures var r := ReadValue(a + [' '] + b + c, false); r.Some? && ReadOf(a, b, r.value.0)
    decreases |a|
  {
    var s := a + [' '] + b + c;
    if a == [] || IsBlank(a[0]) {
      assert IsBlank(s[0]) && ReadValue(s, false) == Some(([], s));
    } else if a == ['\\'] {
      assert s[2..] == b + c;
      PlainReads(b, c);
    } else {
      var step := if a[0] == '\\' then 2 else 1;
      assert s[step..] == a[step..] + [' '] + b + c;
      UnquotedRead(a[step..], b, c);
      var w := ReadValue(s[step..], false).value.0;
      assert ReadValue(s, false).value.0 == [s[step - 1]] + w;
      ReadOfMore(a, step, b, s[step - 1], w);
    }
  }

  function Quotes(s: string): nat {
    multiset(s)['\'']
  }

  lemma QuotesAdd(a: string, b: string)
    ensures Quotes(a + b) == Quotes(a) + Quotes(b)
  {
  }

  /** A value in quotes has the quotes of the text it is read from but for the closing one. */
  lemma {:induction false} QuotesOfValue(s: string)
    requires ReadValue(s, true).Some?
    ensures var (v, rest) := ReadValue(s, true).value; Quotes(v) + 1 + Quotes(rest) == Quotes(s)
    decreases |s|
  {
    if s[0] == '\'' {
      assert s == ['\''] + s[1..];
    } else {
      var step := if s[0] == '\\' then 2 else 1;
      assert s == (if step == 2 then [s[0]] + [s[1]] else [s[0]]) + s[step..];
      QuotesOfValue(s[step..]);
      var w := ReadValue(s[step..], true).value.0;
      assert ReadValue(s, true).value.0 == [s[step - 1]] + w;
    }
  }

  /** A quote behind a nonempty text without backslash ends the value, if it did not end before. */
  lemma {:induction false} EndsByThen(a: string, b: string, more: string)
    requires b != [] && NeedsNoEscape(b) && ReadValue(a + b + ['\''] + more, true).Some?
    ensures |ReadValue(a + b + ['\''] + more, true).value.1| >= |more|
    decreases |a|
  {
    var s := a + b + ['\''] + more;
    if a == [] {
      assert s == b + ['\''] + more;
      CleanReads(b, more);
    } else if a == ['\\'] {
      assert s[2..] == b[1..] + ['\''] + more;
      CleanReads(b[1..], more);
    } else if a[0] != '\'' {
      var step := if a[0] == '\\' then 2 else 1;
      assert s[step..] == a[step..] + b + ['\''] + more;
      EndsByThen(a[step..], b, more);
    }
  }

  lemma {:induction false} RestIsSuffix(s: string, quoted: bool)
    requires ReadValue(s, quoted).Some?
    ensures var rest := ReadValue(s, quoted).value.1; rest == s[|s| - |rest|..]
    decreases |s|
  {
    if s != [] && !(quoted && s[0] == '\'') && !(!quoted && IsBlank(s[0])) {
      if s[0] != '\\' {
        RestIsSuffix(s[1..], quoted);
      } else if |s| > 1 {
        RestIsSuffix(s[2..], quoted);
      }
    }
  }

  /** So it has fewer quotes than an `a` that begins behind an opening one. */
  lemma QuotedLosesQuotes(a: string, b: string, more: string)
    requires b != [] && NeedsNoEscape(b) && ReadValue(a + b + ['\''] + more, true).Some?
    ensures Quotes(ReadValue(a + b + ['\''] + more, true).value.0) <= Quotes(a)
  {
    var s := a + b + ['\''] + more;
    var rest := ReadValue(s, true).value.1;
    EndsByThen(a, b, more);
    QuotesOfValue(s);
    RestIsSuffix(s, true);
    var left := rest[..|rest| - |more|];
    assert rest == left + more;
    QuotesAdd(left, more);
    assert Quotes(b) == 0;
    QuotesAdd(a + b + ['\''], more);
    QuotesAdd(a + b, ['\'']);
    QuotesAdd(a, b);
  }

  lemma {:induction false} SkipBlanksOf(v: string, rest: string)
    ensures SkipBlanks(v + rest) == if SkipBlanks(v) == [] then SkipBlanks(rest) else SkipBlanks(v) + rest
  {
    if v == [] {
      assert v + rest == rest;
    } else {
      assert (v + rest)[1..] == v[1..] + rest;
      SkipBlanksOf(v[1..], rest);
    }
  }

  /** What is left behind the blanks ends like the text, has the same quotes, and is the text if as long. */
  lemma {:induction false} BehindBlanks(v: string)
    ensures var a := SkipBlanks(v);
      && Quotes(a) == Quotes(v)
      && (a != [] ==> a[|a| - 1] == v[|v| - 1])
      && (|a| == |v| ==> a == v)
  {
    if v != [] && IsBlank(v[0]) {
      BehindBlanks(v[1..]);
      assert v == [v[0]] + v[1..];
    }
  }

  /** A value that starts with an opening quote, behind blanks or not, loses it. */
  lemma OpenedChanges(v: string, rest: string, between: string, more: string)
    requires rest == between + ['\''] + more && between != [] && NeedsNoEscape(between)
    requires SkipBlanks(v) != [] && SkipBlanks(v)[0] == '\''
    ensures var r := ReadValue((SkipBlanks(v) + rest)[1..], true); r.Some? ==> r.value.0 != v
  {
    var a := SkipBlanks(v);
    assert (a + rest)[1..] == a[1..] + between + ['\''] + more;
    if ReadValue(a[1..] + between + ['\''] + more, true).Some? {
      QuotedLosesQuotes(a[1..], between, more);
      BehindBlanks(v);
      assert a == ['\''] + a[1..];
      QuotesAdd(['\''], a[1..]);
    }
  }

  lemma NotReadAsItself(v: string, b: string)
    requires NeedsNoQuotes(b) && !NeedsNoQuotes(v) && SkipBlanks(v) != [] && SkipBlanks(v)[0] != '\''
    ensures !ReadOf(SkipBlanks(v), b, v)
  {
    BehindBlanks(v);
  }

  /** A value with a blank or a backslash, or with blanks in front, is changed. */
  lemma UnquotedChanges(v: string, rest: string, b: string, after: string)
    requires rest == [' '] + b + after && NeedsNoQuotes(b) && EndsSetting(after)
    requires !NeedsNoQuotes(v) && SkipBlanks(v) != [] && SkipBlanks(v)[0] != '\''
    ensures var r := ReadValue(SkipBlanks(v) + rest, false); r.Some? ==> r.value.0 != v
  {
    var a := SkipBlanks(v);
    assert a + rest == a + [' '] + b + after;
    UnquotedRead(a, b, after);
    NotReadAsItself(v, b);
  }

  lemma ReadAfterBlanks(v: string, rest: string)
    requires SkipBlanks(v) != []
    ensures var a := SkipBlanks(v);
      ReadAfterEqual(v + rest)
         == if a[0] == '\'' then ReadValue((a + rest)[1..], true) else ReadValue(a + rest, false)
  {
    SkipBlanksOf(v, rest);
    assert (SkipBlanks(v) + rest)[0] == SkipBlanks(v)[0];
  }

  /** Without quotes, in front of a blank and a plain text and with a quote somewhere behind, exactly the values
      that need no quotes mean themselves. */
  lemma BareMeansItselfIff(v: string, rest: string, b: string, after: string, between: string, more: string)
    requires rest == [' '] + b + after && NeedsNoQuotes(b) && EndsSetting(after)
    requires rest == between + ['\''] + more && NeedsNoEscape(between) && between != []
    ensures NeedsNoQuotes(v) <==> var r := ReadAfterEqual(v + rest); r.Some? && r.value.0 == v
    ensures NeedsNoQuotes(v) ==> ReadAfterEqual(v + rest) == Some((v, rest))
  {
    if NeedsNoQuotes(v) {
      BareReads(v, rest);
    } else if SkipBlanks(v) != [] {
      ReadAfterBlanks(v, rest);
      if SkipBlanks(v)[0] == '\'' {
        OpenedChanges(v, rest, between, more);
      } else {
        UnquotedChanges(v, rest, b, after);
      }
    } else {
      SkipBlanksOf(v, rest);
      assert rest[1..] == b + after;
      assert (b + after)[0] == b[0];
      assert SkipBlanks(rest) == b + after;
      PlainReads(b, after);
    }
  }
}
