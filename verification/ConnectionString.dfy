/** Building the keyword/value connection string, and reading it back. */
module ConnectionString {
  import opened Wrappers
  import opened Decimal
  import opened IntegerFormat
  import opened KeywordValue

  /** strings.ReplaceAll for a one-character pattern. */
  function ReplaceAll(s: string, pattern: char, replacement: string): string {
    if s == [] then []
    else (if s[0] == pattern then replacement else [s[0]]) + ReplaceAll(s[1..], pattern, replacement)
  }

  function EscapeConnectionParam(param: string): string {
    ReplaceAll(ReplaceAll(param, '\\', "\\\\"), '\'', "\\'")
  }

  /** A backslash in front of every backslash and every quote. */
  function EscapeEach(s: string): string {
    if s == [] then []
    else (if s[0] == '\\' || s[0] == '\'' then ['\\', s[0]] else [s[0]]) + EscapeEach(s[1..])
  }

  lemma {:induction false} ReplaceAllAppend(a: string, b: string, pattern: char, replacement: string)
    ensures ReplaceAll(a + b, pattern, replacement)
         == ReplaceAll(a, pattern, replacement) + ReplaceAll(b, pattern, replacement)
  {
    if a == [] {
      assert a + b == b;
    } else {
      assert (a + b)[1..] == a[1..] + b;
      ReplaceAllAppend(a[1..], b, pattern, replacement);
    }
  }

  lemma ReplaceOne(c: char, pattern: char, replacement: string)
    ensures ReplaceAll([c], pattern, replacement) == if c == pattern then replacement else [c]
  {
    assert [c][1..] == [];
    assert ReplaceAll([], pattern, replacement) == [];
  }

  /** The two successive replacements never disturb each other: a backslash goes in front of every backslash and
      every quote, and nothing else changes. */
  lemma {:induction false} TwoPassesAreOneEscape(s: string)
    ensures EscapeConnectionParam(s) == EscapeEach(s)
    ensures EscapeConnectionParam([]) == []
    ensures s != [] ==>
      var first := if s[0] == '\\' then "\\\\" else if s[0] == '\'' then "\\'" else [s[0]];
      EscapeConnectionParam(s) == first + EscapeConnectionParam(s[1..])
  {
    if s != [] {
      var c, tail := s[0], s[1..];
      TwoPassesAreOneEscape(tail);
      var first := if c == '\\' then "\\\\" else [c];
      var middle := ReplaceAll(tail, '\\', "\\\\");
      ReplaceAllAppend(first, middle, '\'', "\\'");
      ReplaceOne(c, '\'', "\\'");
      if c == '\\' {
        assert first == ['\\'] + ['\\'];
        ReplaceAllAppend(['\\'], ['\\'], '\'', "\\'");
      }
    }
  }

  // ---------------------------------------------------------------- The escaped value

  /** An escaped value in quotes ends exactly at the closing quote, reads back as the parameter, and leaves
      the rest of the string alone. */
  lemma {:induction false} EscapedReadsBack(param: string, rest: string)
    ensures ReadValue(EscapeConnectionParam(param) + ['\''] + rest, true) == Some((param, rest))
  {
    TwoPassesAreOneEscape(param);
    var s := EscapeEach(param) + ['\''] + rest;
    if param == [] {
      assert s[1..] == rest;
    } else {
      var c, more := param[0], param[1..];
      var tail := EscapeEach(more) + ['\''] + rest;
      EscapedReadsBack(more, rest);
      TwoPassesAreOneEscape(more);
      if c == '\\' || c == '\'' {
        assert s == ['\\', c] + tail;
        assert s[2..] == tail;
      } else {
        assert s == [c] + tail;
        assert s[1..] == tail;
      }
      assert [c] + more == param;
    }
  }

  lemma EscapeIsInjective(a: string, b: string)
    requires EscapeConnectionParam(a) == EscapeConnectionParam(b)
    ensures a == b
  {
    EscapedReadsBack(a, []);
    EscapedReadsBack(b, []);
  }

  // ---------------------------------------------------------------- The whole string

  /** What the string is built from; empty `krbsrvname` and `sslmode` get defaults. */
  datatype Parameters = Parameters(
    user: string,
    dbname: string,
    krbsrvname: string,
    host: string,
    port: int,
    sslmode: string)

  function OrDefault(v: string, default: string): string { if v == "" then default else v }

  /** A setting behind a blank, its text in quotes, in front of `rest`. */
  function Quoted(key: string, text: string, rest: string): string {
    [' '] + (key + ['='] + (['\''] + (text + ['\''] + rest)))
  }

  /** A setting behind a blank, its text without quotes, in front of `rest`. */
  function Bare(key: string, text: string, rest: string): string {
    [' '] + (key + ['='] + (text + rest))
  }

  /** The settings behind the names, in front of `suffix`. */
  function OtherSettings(p: Parameters, suffix: string): string {
    Quoted("krbsrvname", OrDefault(p.krbsrvname, "postgres"),
    Bare("host", p.host,
    PortAndSettings(p, suffix)))
  }

  function PortAndSettings(p: Parameters, suffix: string): string {
    Bare("port", SignedNumeral(p.port),
    Quoted("sslmode", OrDefault(p.sslmode, "prefer"),
    LastSettings(suffix)))
  }

  function LastSettings(suffix: string): string {
    Bare("statement_cache_capacity", "0", Bare("default_query_exec_mode", "exec", suffix))
  }

  /** The connection string. */
  function ConnStr(p: Parameters): string {
    AllSettings(p, "")[1..]
  }

  function AllSettings(p: Parameters, suffix: string): string {
    Quoted("user", EscapeConnectionParam(p.user),
    Quoted("dbname", EscapeConnectionParam(p.dbname), OtherSettings(p, suffix)))
  }

  /** What utility mode appends. */
  const SESSION_ROLE := " gp_session_role=utility"
  const ROLE := " gp_role=utility"

  lemma QuotedAppend(key: string, text: string, rest: string, suffix: string)
    ensures Quoted(key, text, rest) + suffix == Quoted(key, text, rest + suffix)
  {
  }

  lemma BareAppend(key: string, text: string, rest: string, suffix: string)
    ensures Bare(key, text, rest) + suffix == Bare(key, text, rest + suffix)
  {
  }

  lemma LastAppend(suffix: string)
    ensures LastSettings("") + suffix == LastSettings(suffix)
  {
    assert "" + suffix == suffix;
    BareAppend("default_query_exec_mode", "exec", "", suffix);
    BareAppend("statement_cache_capacity", "0", Bare("default_query_exec_mode", "exec", ""), suffix);
  }

  lemma PortAppend(p: Parameters, suffix: string)
    ensures PortAndSettings(p, "") + suffix == PortAndSettings(p, suffix)
  {
    var sslmode := OrDefault(p.sslmode, "prefer");
    LastAppend(suffix);
    QuotedAppend("sslmode", sslmode, LastSettings(""), suffix);
    BareAppend("port", SignedNumeral(p.port), Quoted("sslmode", sslmode, LastSettings("")), suffix);
  }

  lemma OtherAppend(p: Parameters, suffix: string)
    ensures OtherSettings(p, "") + suffix == OtherSettings(p, suffix)
  {
    var host := Bare("host", p.host, PortAndSettings(p, ""));
    PortAppend(p, suffix);
    BareAppend("host", p.host, PortAndSettings(p, ""), suffix);
    QuotedAppend("krbsrvname", OrDefault(p.krbsrvname, "postgres"), host, suffix);
  }

  /** A suffix comes behind the settings of the string. */
  lemma SuffixIsBehind(p: Parameters, suffix: string)
    ensures ConnStr(p) + suffix == AllSettings(p, suffix)[1..]
  {
    OtherAppend(p, suffix);
    QuotedAppend("dbname", EscapeConnectionParam(p.dbname), OtherSettings(p, ""), suffix);
    var more := Quoted("dbname", EscapeConnectionParam(p.dbname), OtherSettings(p, ""));
    QuotedAppend("user", EscapeConnectionParam(p.user), more, suffix);
    DropFirst(AllSettings(p, ""), suffix);
  }

  lemma DropFirst(s: string, t: string)
    requires s != []
    ensures s[1..] + t == (s + t)[1..]
  {
  }

  lemma BehindBlank(s: string)
    ensures ReadSettings([' '] + s) == ReadSettings(s)
  {
    assert ([' '] + s)[1..] == s;
    assert IsBlank(([' '] + s)[0]);
  }

  /** A setting in quotes is followed by what its text reads as. */
  lemma QuotedReads(key: string, text: string, rest: string)
    requires IsKey(key)
    ensures ReadSettings(Quoted(key, text, rest)) ==
      match ReadValue(text + ['\''] + rest, true)
      case None => None
      case Some((value, more)) => PrependSetting(key, value, ReadSettings(more))
  {
    var after := ['\''] + (text + ['\''] + rest);
    BehindBlank(key + ['='] + after);
    SettingReads(key, after);
    assert SkipBlanks(after) == after && after[1..] == text + ['\''] + rest;
  }

  lemma BareReadsAs(key: string, text: string, rest: string)
    requires IsKey(key)
    ensures ReadSettings(Bare(key, text, rest)) ==
      match ReadAfterEqual(text + rest)
      case None => None
      case Some((value, more)) => PrependSetting(key, value, ReadSettings(more))
  {
    BehindBlank(key + ['='] + (text + rest));
    SettingReads(key, text + rest);
  }

  /** An escaped setting comes back whatever its value contains. */
  lemma EscapedSettingReads(key: string, v: string, rest: string)
    requires IsKey(key)
    ensures ReadSettings(Quoted(key, EscapeConnectionParam(v), rest)) == PrependSetting(key, v, ReadSettings(rest))
  {
    QuotedReads(key, EscapeConnectionParam(v), rest);
    EscapedReadsBack(v, rest);
  }

  lemma BareSettingReads(key: string, v: string, rest: string)
    requires IsKey(key) && NeedsNoQuotes(v) && EndsSetting(rest)
    ensures ReadSettings(Bare(key, v, rest)) == PrependSetting(key, v, ReadSettings(rest))
  {
    BareReadsAs(key, v, rest);
    BareReads(v, rest);
  }

  lemma FirstKeys()
    ensures IsKey("user") && IsKey("dbname") && IsKey("krbsrvname") && IsKey("host")
  {
  }

  lemma LastKeys()
    ensures IsKey("port") && IsKey("sslmode")
    ensures IsKey("statement_cache_capacity") && IsKey("default_query_exec_mode")
  {
  }

  lemma FixedTexts()
    ensures NeedsNoQuotes("0") && NeedsNoQuotes("exec") && NeedsNoQuotes("utility")
    ensures NeedsNoEscape("postgres") && NeedsNoEscape("prefer")
  {
  }

  lemma DefaultsNeedNoEscape(p: Parameters)
    ensures NeedsNoEscape(OrDefault(p.krbsrvname, "postgres")) <==> NeedsNoEscape(p.krbsrvname)
    ensures NeedsNoEscape(OrDefault(p.sslmode, "prefer")) <==> NeedsNoEscape(p.sslmode)
  {
    FixedTexts();
  }

  lemma TwoEscapedRead(k: string, v: string, l: string, w: string, rest: string)
    requires IsKey(k) && IsKey(l)
    ensures ReadSettings(Quoted(k, EscapeConnectionParam(v), Quoted(l, EscapeConnectionParam(w), rest))[1..])
         == PrependSetting(k, v, PrependSetting(l, w, ReadSettings(rest)))
  {
    var more := Quoted(l, EscapeConnectionParam(w), rest);
    var s := Quoted(k, EscapeConnectionParam(v), more);
    BehindBlank(s[1..]);
    assert s == [' '] + s[1..];
    EscapedSettingReads(l, w, rest);
    EscapedSettingReads(k, v, more);
  }

  /** User and database name come back whatever they contain, and the rest of the string means what it
      means on its own. */
  lemma NamesReadBack(p: Parameters, suffix: string)
    ensures ReadSettings(ConnStr(p) + suffix)
         == PrependSetting("user", p.user, PrependSetting("dbname", p.dbname, ReadSettings(OtherSettings(p, suffix))))
  {
    FirstKeys();
    SuffixIsBehind(p, suffix);
    TwoEscapedRead("user", p.user, "dbname", p.dbname, OtherSettings(p, suffix));
  }

  // ---------------------------------------------------------------- The parameters that are not escaped

  /** The parameters that the source does not escape need no escaping, and the host no quotes. */
  predicate Unambiguous(p: Parameters) {
    NeedsNoEscape(p.krbsrvname) && NeedsNoQuotes(p.host) && NeedsNoEscape(p.sslmode)
  }

  /** A value put between quotes as it is comes back exactly if it has neither quote nor backslash. */
  lemma RawQuotedIff(key: string, v: string, rest: string, settings: Settings)
    requires IsKey(key)
    ensures ReadSettings(Quoted(key, v, rest)) == Some([(key, v)] + settings)
       <==> NeedsNoEscape(v) && ReadSettings(rest) == Some(settings)
  {
    QuotedReads(key, v, rest);
    QuotedMeansItselfIff(v, rest);
    var r := ReadValue(v + ['\''] + rest, true);
    if r.Some? {
      FirstSetting(key, r.value.0, ReadSettings(r.value.1), v, settings);
    }
  }

  lemma FirstSetting(key: string, w: string, r: Option<Settings>, v: string, settings: Settings)
    ensures PrependSetting(key, w, r) == Some([(key, v)] + settings) <==> w == v && r == Some(settings)
  {
    if r.Some? {
      assert ([(key, w)] + r.value)[0] == (key, w) && ([(key, w)] + r.value)[1..] == r.value;
      assert ([(key, v)] + settings)[0] == (key, v) && ([(key, v)] + settings)[1..] == settings;
    }
  }

  lemma PortNeedsNoQuotes(n: int)
    ensures NeedsNoQuotes(SignedNumeral(n)) && NeedsNoEscape(SignedNumeral(n))
  {
    NumeralReadsBack(if n < 0 then -n else n);
  }

  /** The host comes back exactly if it needs no quotes. */
  lemma HostIff(p: Parameters, suffix: string, settings: Settings)
    ensures ReadSettings(Bare("host", p.host, PortAndSettings(p, suffix))) == Some([("host", p.host)] + settings)
       <==> NeedsNoQuotes(p.host) && ReadSettings(PortAndSettings(p, suffix)) == Some(settings)
  {
    var port, sslmode := "port" + ['='] + SignedNumeral(p.port), OrDefault(p.sslmode, "prefer");
    var rest, after := PortAndSettings(p, suffix), Quoted("sslmode", sslmode, LastSettings(suffix));
    var between := [' '] + port + [' '] + "sslmode" + ['='];
    var more := sslmode + ['\''] + LastSettings(suffix);
    PortNeedsNoQuotes(p.port);
    assert rest == [' '] + port + after;
    assert rest == between + ['\''] + more;
    BareMeansItselfIff(p.host, rest, port, after, between, more);
    BareReadsAs("host", p.host, rest);
    var r := ReadAfterEqual(p.host + rest);
    if r.Some? {
      FirstSetting("host", r.value.0, ReadSettings(r.value.1), p.host, settings);
    }
  }

  /** What the string is meant to say behind the names. */
  function LastMeant(settings: Settings): Settings {
    [("statement_cache_capacity", "0")] + ([("default_query_exec_mode", "exec")] + settings)
  }

  function PortMeant(p: Parameters, settings: Settings): Settings {
    [("port", SignedNumeral(p.port))] + ([("sslmode", OrDefault(p.sslmode, "prefer"))] + LastMeant(settings))
  }

  function OtherMeant(p: Parameters, settings: Settings): Settings {
    [("krbsrvname", OrDefault(p.krbsrvname, "postgres"))] + ([("host", p.host)] + PortMeant(p, settings))
  }

  lemma LastRead(k: string, v: string, l: string, w: string, suffix: string, settings: Settings)
    requires IsKey(k) && IsKey(l) && NeedsNoQuotes(v) && NeedsNoQuotes(w)
    requires EndsSetting(suffix) && ReadSettings(suffix) == Some(settings)
    ensures ReadSettings(Bare(k, v, Bare(l, w, suffix))) == Some([(k, v)] + ([(l, w)] + settings))
  {
    BareSettingReads(l, w, suffix);
    BareSettingReads(k, v, Bare(l, w, suffix));
  }

  lemma BareAndQuotedIff(k: string, v: string, l: string, w: string, rest: string, settings: Settings)
    requires IsKey(k) && IsKey(l) && NeedsNoQuotes(v) && ReadSettings(rest) == Some(settings)
    ensures ReadSettings(Bare(k, v, Quoted(l, w, rest))) == Some([(k, v)] + ([(l, w)] + settings)) <==> NeedsNoEscape(w)
  {
    var quoted := Quoted(l, w, rest);
    RawQuotedIff(l, w, rest, settings);
    BareSettingReads(k, v, quoted);
    FirstSetting(k, v, ReadSettings(quoted), v, [(l, w)] + settings);
  }

  lemma PortIff(p: Parameters, suffix: string, settings: Settings)
    requires EndsSetting(suffix) && ReadSettings(suffix) == Some(settings)
    ensures ReadSettings(PortAndSettings(p, suffix)) == Some(PortMeant(p, settings)) <==> NeedsNoEscape(p.sslmode)
  {
    LastKeys();
    FixedTexts();
    PortNeedsNoQuotes(p.port);
    DefaultsNeedNoEscape(p);
    LastRead("statement_cache_capacity", "0", "default_query_exec_mode", "exec", suffix, settings);
    BareAndQuotedIff("port", SignedNumeral(p.port), "sslmode", OrDefault(p.sslmode, "prefer"),
                     LastSettings(suffix), LastMeant(settings));
  }

  /** What follows two settings that come back decides whether all do. */
  lemma BehindTwo(k: string, v: string, l: string, w: string, r: Option<Settings>, settings: Settings)
    ensures PrependSetting(k, v, PrependSetting(l, w, r)) == Some([(k, v)] + ([(l, w)] + settings))
       <==> r == Some(settings)
  {
    FirstSetting(l, w, r, w, settings);
    FirstSetting(k, v, PrependSetting(l, w, r), v, [(l, w)] + settings);
  }

  /** What the string is meant to say. */
  function Meant(p: Parameters): Settings {
    [("user", p.user), ("dbname", p.dbname),
     ("krbsrvname", if p.krbsrvname == "" then "postgres" else p.krbsrvname),
     ("host", p.host), ("port", SignedNumeral(p.port)),
     ("sslmode", if p.sslmode == "" then "prefer" else p.sslmode),
     ("statement_cache_capacity", "0"), ("default_query_exec_mode", "exec")]
  }

  lemma MeantIsNested(p: Parameters, settings: Settings)
    ensures Meant(p) + settings == [("user", p.user)] + ([("dbname", p.dbname)] + OtherMeant(p, settings))
  {
  }

  /** All settings of the string come back as they were meant, in order and in front of those of the suffix,
      exactly if the parameters that are put in as they are cannot be misread. */
  lemma ConnStrReadsBackIff(p: Parameters, suffix: string, settings: Settings)
    requires EndsSetting(suffix) && ReadSettings(suffix) == Some(settings)
    ensures ReadSettings(ConnStr(p) + suffix) == Some(Meant(p) + settings) <==> Unambiguous(p)
  {
    var others, meant := ReadSettings(OtherSettings(p, suffix)), OtherMeant(p, settings);
    FirstKeys();
    DefaultsNeedNoEscape(p);
    NamesReadBack(p, suffix);
    MeantIsNested(p, settings);
    BehindTwo("user", p.user, "dbname", p.dbname, others, meant);
    RawQuotedIff("krbsrvname", OrDefault(p.krbsrvname, "postgres"), Bare("host", p.host, PortAndSettings(p, suffix)),
                 [("host", p.host)] + PortMeant(p, settings));
    HostIff(p, suffix, PortMeant(p, settings));
    PortIff(p, suffix, settings);
  }

  lemma NoHostReads(key: string, text: string, after: string)
    requires IsKey(key) && NeedsNoQuotes(text) && EndsSetting(after)
    ensures ReadSettings(Bare(key, "", [' '] + text + after)) == PrependSetting(key, text, ReadSettings(after))
  {
    BareReadsAs(key, "", [' '] + text + after);
    assert "" + ([' '] + text + after) == [' '] + (text + after);
    BlankInFront(text + after);
    BareReads(text, after);
  }

  lemma BlankInFront(s: string)
    ensures ReadAfterEqual([' '] + s) == ReadAfterEqual(s)
  {
    var t := [' '] + s;
    assert t[1..] == s;
    assert SkipBlanks(t) == SkipBlanks(s);
  }

  /** Without a host, the port is read as the host and is lost. */
  lemma EmptyHostTakesPort(p: Parameters, suffix: string)
    requires p.host == ""
    ensures ReadSettings(Bare("host", p.host, PortAndSettings(p, suffix)))
         == PrependSetting("host", "port" + ['='] + SignedNumeral(p.port),
              ReadSettings(Quoted("sslmode", OrDefault(p.sslmode, "prefer"), LastSettings(suffix))))
  {
    var port := "port" + ['='] + SignedNumeral(p.port);
    var after := Quoted("sslmode", OrDefault(p.sslmode, "prefer"), LastSettings(suffix));
    FirstKeys();
    PortNeedsNoQuotes(p.port);
    assert PortAndSettings(p, suffix) == [' '] + port + after;
    NoHostReads("host", port, after);
  }

  lemma OneSettingReads(key: string, v: string)
    requires IsKey(key) && NeedsNoQuotes(v)
    ensures EndsSetting(Bare(key, v, [])) && ReadSettings(Bare(key, v, [])) == Some([(key, v)])
  {
    BareSettingReads(key, v, []);
    assert [(key, v)] + [] == [(key, v)];
  }

  lemma RoleKeys()
    ensures IsKey("gp_role") && IsKey("gp_session_role")
  {
  }

  /** The suffixes of utility mode. */
  lemma RoleSuffixesRead()
    ensures EndsSetting(ROLE) && ReadSettings(ROLE) == Some([("gp_role", "utility")])
    ensures EndsSetting(SESSION_ROLE) && ReadSettings(SESSION_ROLE) == Some([("gp_session_role", "utility")])
  {
    RoleKeys();
    FixedTexts();
    OneSettingReads("gp_role", "utility");
    OneSettingReads("gp_session_role", "utility");
    RoleSuffixes();
  }

  lemma RoleSuffixes()
    ensures ROLE == Bare("gp_role", "utility", [])
    ensures SESSION_ROLE == Bare("gp_session_role", "utility", [])
  {
  }
}
