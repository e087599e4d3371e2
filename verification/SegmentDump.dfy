/** The parser of the gpsegconfig_dump file. */
module SegmentDump {
  import opened Wrappers
  import opened Decimal
  import opened IntegerFormat
  import opened Segments

  // ---------------------------------------------------------------- Library functions the parser calls

  /** unicode.IsSpace. */
  predicate IsSpace(c: char) {
    var n := c as int;
    || 9 <= n <= 13 || n == 0x20 || n == 0x85 || n == 0xA0
    || n == 0x1680 || 0x2000 <= n <= 0x200A || n == 0x2028 || n == 0x2029 || n == 0x202F || n == 0x205F || n == 0x3000
  }

  predicate AllSpace(s: string) {
    forall i | 0 <= i < |s| :: IsSpace(s[i])
  }

  predicate IsWord(s: string) {
    s != [] && forall i | 0 <= i < |s| :: !IsSpace(s[i])
  }

  function WordLength(s: string): (n: nat)
    ensures n <= |s|
    ensures forall i | 0 <= i < n :: !IsSpace(s[i])
    ensures n < |s| ==> IsSpace(s[n])
  {
    if s == [] || IsSpace(s[0]) then 0 else 1 + WordLength(s[1..])
  }

  /** strings.Fields. */
  function Fields(s: string): seq<string>
    decreases |s|
  {
    if s == [] then []
    else if IsSpace(s[0]) then Fields(s[1..])
    else
      var n := WordLength(s);
      [s[..n]] + Fields(s[n..])
  }

  predicate FitsInt64(n: int) {
    MIN_INT64 <= n <= MAX_INT64
  }

  /** strconv.Atoi on a 64-bit platform. */
  function Atoi(s: string): Option<int> {
    var signed := s != [] && (s[0] == '-' || s[0] == '+');
    var digits := if signed then s[1..] else s;
    if digits == [] || !AllDigits(digits) then None
    else
      var n := if signed && s[0] == '-' then 0 - Value(digits) else Value(digits);
      if FitsInt64(n) then Some(n) else None
  }

  // ---------------------------------------------------------------- The parser

  datatype LineError =
    | WrongFieldCount(parts: nat)
    | BadDbID(text: string)
    | BadContent(text: string)
    | BadPort(text: string)

  function ParseLine(line: string): Result<SegConfig, LineError> {
    var fields := Fields(line);
    var parts := |fields|;
    if parts != 9 && parts != 10 then Err(WrongFieldCount(parts))
    else
      match (Atoi(fields[0]), Atoi(fields[1]), Atoi(fields[6]))
      case (None, _, _) => Err(BadDbID(fields[0]))
      case (_, None, _) => Err(BadContent(fields[1]))
      case (_, _, None) => Err(BadPort(fields[6]))
      case (Some(dbID), Some(content), Some(port)) =>
        Ok(SegConfig(dbID, content, fields[2], fields[3], fields[4], fields[5], port, fields[7], fields[8],
                     if parts == 10 then fields[9] else ""))
  }

  /** What opening the file and scanning it yields. */
  datatype Dump = CannotOpen | Opened(lines: seq<string>, readFails: bool)

  datatype DumpError = EmptyPath | OpenFailed | BadLine(index: nat, error: LineError) | ReadFailed

  /** The configuration the file stands for: line by line, or the first failure. */
  ghost predicate Describes(dir: string, dump: Dump, r: Result<seq<SegConfig>, DumpError>) {
    match r
    case Ok(segs) =>
      && !AllSpace(dir) && dump.Opened? && !dump.readFails
      && |segs| == |dump.lines|
      && forall i | 0 <= i < |segs| :: ParseLine(dump.lines[i]) == Ok(segs[i])
    case Err(EmptyPath) => AllSpace(dir)
    case Err(OpenFailed) => !AllSpace(dir) && dump.CannotOpen?
    case Err(BadLine(k, e)) =>
      && !AllSpace(dir) && dump.Opened? && k < |dump.lines|
      && ParseLine(dump.lines[k]) == Err(e)
      && forall i | 0 <= i < k :: ParseLine(dump.lines[i]).Ok?
    case Err(ReadFailed) =>
      && !AllSpace(dir) && dump.Opened? && dump.readFails
      && forall i | 0 <= i < |dump.lines| :: ParseLine(dump.lines[i]).Ok?
  }

  /** The loop body: one line into one segment. */
  method ScanLine(line: string) returns (r: Result<SegConfig, LineError>)
    ensures r == ParseLine(line)
  {
    var fields := Fields(line);
    var parts := |fields|;
    if parts != 9 && parts != 10 {
      return Err(WrongFieldCount(parts));
    }
    var dbID := Atoi(fields[0]);
    if dbID.None? {
      return Err(BadDbID(fields[0]));
    }
    var content := Atoi(fields[1]);
    if content.None? {
      return Err(BadContent(fields[1]));
    }
    var port := Atoi(fields[6]);
    if port.None? {
      return Err(BadPort(fields[6]));
    }
    var datadir := "";
    if parts == 10 {
      datadir := fields[9];
    }
    return Ok(SegConfig(dbID.value, content.value, fields[2], fields[3], fields[4], fields[5],
                        port.value, fields[7], fields[8], datadir));
  }

  method GetSegmentConfigurationFromFile(dir: string, dump: Dump) returns (r: Result<seq<SegConfig>, DumpError>)
    ensures Describes(dir, dump, r)
  {
    if AllSpace(dir) {
      return Err(EmptyPath);
    }
    if dump.CannotOpen? {
      return Err(OpenFailed);
    }
    var results: seq<SegConfig> := [];
    for i := 0 to |dump.lines|
      invariant |results| == i
      invariant forall j | 0 <= j < i :: ParseLine(dump.lines[j]) == Ok(results[j])
    {
      var seg := ScanLine(dump.lines[i]);
      if seg.Err? {
        return Err(BadLine(i, seg.error));
      }
      results := results + [seg.value];
    }
    if dump.readFails {
      return Err(ReadFailed);
    }
    return Ok(results);
  }

  /** There is exactly one outcome: a list only if every line is good, and otherwise the first bad line. */
  lemma OutcomeIsUnique(dir: string, dump: Dump,
                        r: Result<seq<SegConfig>, DumpError>, q: Result<seq<SegConfig>, DumpError>)
    requires Describes(dir, dump, r) && Describes(dir, dump, q)
    ensures r == q
  {
    if r.Ok? && q.Ok? {
      forall i | 0 <= i < |r.value|
        ensures r.value[i] == q.value[i]
      {
        assert ParseLine(dump.lines[i]) == Ok(r.value[i]);
        assert ParseLine(dump.lines[i]) == Ok(q.value[i]);
      }
      assert r.value == q.value;
    }
    assert r.Err? && r.error.BadLine? ==> !ParseLine(dump.lines[r.error.index]).Ok?;
    assert q.Err? && q.error.BadLine? ==> !ParseLine(dump.lines[q.error.index]).Ok?;
  }

  /** There is a list exactly if a directory was named, the file could be opened and read to its end, and every
      line is good. */
  lemma ListIff(dir: string, dump: Dump, r: Result<seq<SegConfig>, DumpError>)
    requires Describes(dir, dump, r)
    ensures r.Ok? <==>
      && (exists i :: 0 <= i < |dir| && !IsSpace(dir[i]))
      && dump.Opened? && !dump.readFails
      && forall k | 0 <= k < |dump.lines| :: ParseLine(dump.lines[k]).Ok?
  {
    if r.Ok? {
      assert forall k | 0 <= k < |dump.lines| :: ParseLine(dump.lines[k]) == Ok(r.value[k]);
    }
  }

  // ---------------------------------------------------------------- Fields, exactly

  /** Words with blanks around them: gap, word, gap, word, ..., gap. */
  function Spread(words: seq<string>, gaps: seq<string>): string
    requires |gaps| == |words| + 1
  {
    if words == [] then gaps[0] else gaps[0] + (words[0] + Spread(words[1..], gaps[1..]))
  }

  /** All gaps are blank, and those between two words are not empty. */
  predicate LegalGaps(words: seq<string>, gaps: seq<string>) {
    && |gaps| == |words| + 1
    && (forall i | 0 <= i < |gaps| :: AllSpace(gaps[i]))
    && (forall i | 1 <= i < |words| :: gaps[i] != [])
  }

  predicate AllWords(words: seq<string>) {
    forall i | 0 <= i < |words| :: IsWord(words[i])
  }

  lemma {:induction false} GapSkipped(gap: string, rest: string)
    requires AllSpace(gap)
    ensures Fields(gap + rest) == Fields(rest)
  {
    if gap == [] {
      assert gap + rest == rest;
    } else {
      assert (gap + rest)[1..] == gap[1..] + rest;
      GapSkipped(gap[1..], rest);
    }
  }

  lemma {:induction false} WordEnds(word: string, rest: string)
    requires forall i | 0 <= i < |word| :: !IsSpace(word[i])
    requires rest == [] || IsSpace(rest[0])
    ensures WordLength(word + rest) == |word|
  {
    if word == [] {
      assert word + rest == rest;
    } else {
      assert (word + rest)[1..] == word[1..] + rest;
      WordEnds(word[1..], rest);
    }
  }

  lemma FirstWord(word: string, rest: string)
    requires IsWord(word) && (rest == [] || IsSpace(rest[0]))
    ensures Fields(word + rest) == [word] + Fields(rest)
  {
    WordEnds(word, rest);
    var s := word + rest;
    assert s[0] == word[0];
    assert s[..|word|] == word && s[|word|..] == rest;
  }

  lemma {:induction false} SpreadStartsBlank(words: seq<string>, gaps: seq<string>)
    requires LegalGaps(words, gaps) && (words != [] ==> gaps[0] != [])
    ensures Spread(words, gaps) == [] || IsSpace(Spread(words, gaps)[0])
  {
    if gaps[0] != [] {
      assert Spread(words, gaps)[0] == gaps[0][0];
    }
  }

  /** Splitting gives back the words, however they are spread out. */
  lemma {:induction false} FieldsOfSpread(words: seq<string>, gaps: seq<string>)
    requires AllWords(words) && LegalGaps(words, gaps)
    ensures Fields(Spread(words, gaps)) == words
  {
    if words == [] {
      GapSkipped(gaps[0], []);
      assert gaps[0] + [] == gaps[0];
    } else {
      var tail := Spread(words[1..], gaps[1..]);
      assert LegalGaps(words[1..], gaps[1..]) by {
        assert forall i | 1 <= i < |words| - 1 :: gaps[1..][i] == gaps[i + 1];
      }
      SpreadStartsBlank(words[1..], gaps[1..]);
      GapSkipped(gaps[0], words[0] + tail);
      FirstWord(words[0], tail);
      FieldsOfSpread(words[1..], gaps[1..]);
      assert words == [words[0]] + words[1..];
    }
  }

  /** Every text is its fields spread out. */
  lemma {:induction false} TextIsSpread(s: string) returns (gaps: seq<string>)
    ensures AllWords(Fields(s)) && LegalGaps(Fields(s), gaps) && s == Spread(Fields(s), gaps)
    ensures s != [] && IsSpace(s[0]) ==> gaps[0] != []
    decreases |s|
  {
    if s == [] {
      gaps := [[]];
    } else if IsSpace(s[0]) {
      var more := TextIsSpread(s[1..]);
      gaps := more[0 := [s[0]] + more[0]];
      assert Fields(s) == Fields(s[1..]);
      LongerGap(Fields(s), more, s[0]);
      assert s == [s[0]] + s[1..];
    } else {
      var n := WordLength(s);
      var more := TextIsSpread(s[n..]);
      gaps := [[]] + more;
      WordsFromHere(s, n, more, gaps);
      assert Fields(s) == [s[..n]] + Fields(s[n..]);
      WordInFront(s[..n], Fields(s[n..]), more);
      assert s == s[..n] + s[n..];
    }
  }

  /** One more blank in front. */
  lemma LongerGap(words: seq<string>, gaps: seq<string>, c: char)
    requires LegalGaps(words, gaps) && IsSpace(c)
    ensures var longer := gaps[0 := [c] + gaps[0]];
      LegalGaps(words, longer) && Spread(words, longer) == [c] + Spread(words, gaps)
  {
    var longer := gaps[0 := [c] + gaps[0]];
    assert longer[1..] == gaps[1..];
    if words != [] {
      assert ([c] + gaps[0]) + (words[0] + Spread(words[1..], gaps[1..]))
          == [c] + (gaps[0] + (words[0] + Spread(words[1..], gaps[1..])));
    }
  }

  lemma WordInFront(word: string, words: seq<string>, gaps: seq<string>)
    requires |gaps| == |words| + 1
    ensures Spread([word] + words, [[]] + gaps) == word + Spread(words, gaps)
  {
    assert ([word] + words)[1..] == words && ([[]] + gaps)[1..] == gaps;
    assert [] + (word + Spread(words, gaps)) == word + Spread(words, gaps);
  }

  lemma WordsFromHere(s: string, n: nat, more: seq<string>, gaps: seq<string>)
    requires s != [] && !IsSpace(s[0]) && n == WordLength(s)
    requires LegalGaps(Fields(s[n..]), more) && AllWords(Fields(s[n..])) && gaps == [[]] + more
    requires s[n..] != [] && IsSpace(s[n..][0]) ==> more[0] != []
    ensures AllWords(Fields(s)) && LegalGaps(Fields(s), gaps)
  {
    var rest := Fields(s[n..]);
    assert Fields(s) == [s[..n]] + rest;
    if rest != [] {
      assert s[n..] != [];
    }
    forall i | 1 <= i < |Fields(s)|
      ensures gaps[i] != []
    {
      assert gaps[i] == more[i - 1];
    }
  }

  /** strings.Fields exactly: the words of the only way to see the text as blank-separated words. */
  lemma FieldsExactly(s: string, words: seq<string>)
    ensures Fields(s) == words
       <==> AllWords(words) && exists gaps :: LegalGaps(words, gaps) && s == Spread(words, gaps)
  {
    if Fields(s) == words {
      var gaps := TextIsSpread(s);
    }
    if AllWords(words) {
      forall gaps | LegalGaps(words, gaps) && s == Spread(words, gaps)
        ensures Fields(s) == words
      {
        FieldsOfSpread(words, gaps);
      }
    }
  }

  // ---------------------------------------------------------------- Lines, exactly

  /** An optional sign and at least one digit, for a number of 64 bits. */
  ghost predicate Denotes(text: string, n: int) {
    && -0x8000_0000_0000_0000 <= n <= 0x7FFF_FFFF_FFFF_FFFF
    && exists sign, digits ::
         && (sign == "" || sign == "-" || sign == "+")
         && digits != [] && AllDigits(digits) && text == sign + digits
         && n == if sign == "-" then 0 - Value(digits) else Value(digits)
  }

  lemma AtoiExactly(s: string, n: int)
    ensures Atoi(s) == Some(n) <==> Denotes(s, n)
  {
    if Atoi(s) == Some(n) {
      if s[0] == '-' || s[0] == '+' {
        assert s == [s[0]] + s[1..];
      } else {
        assert s == "" + s;
      }
    }
    forall sign, digits |
      && (sign == "" || sign == "-" || sign == "+")
      && digits != [] && AllDigits(digits) && s == sign + digits
      && n == (if sign == "-" then 0 - Value(digits) else Value(digits))
      && -0x8000_0000_0000_0000 <= n <= 0x7FFF_FFFF_FFFF_FFFF
      ensures Atoi(s) == Some(n)
    {
      if sign == "" {
        assert s == digits && IsDigit(s[0]);
      } else {
        assert s[0] == sign[0] && s[1..] == digits;
      }
    }
  }

  ghost predicate IsNumber(text: string) {
    exists n :: Denotes(text, n)
  }

  lemma AtoiDefined(s: string)
    ensures Atoi(s).Some? <==> IsNumber(s)
  {
    forall n
      ensures Atoi(s) == Some(n) <==> Denotes(s, n)
    {
      AtoiExactly(s, n);
    }
  }

  /** Nine or ten words, with numbers in the first, second and seventh place, stand for a segment; otherwise the
      first of these that fails is named. */
  ghost predicate WordsMean(f: seq<string>, r: Result<SegConfig, LineError>) {
    if |f| < 9 || |f| > 10 then r == Err(WrongFieldCount(|f|))
    else
      match r
      case Err(WrongFieldCount(_)) => false
      case Err(BadDbID(text)) => text == f[0] && !IsNumber(f[0])
      case Err(BadContent(text)) => text == f[1] && IsNumber(f[0]) && !IsNumber(f[1])
      case Err(BadPort(text)) => text == f[6] && IsNumber(f[0]) && IsNumber(f[1]) && !IsNumber(f[6])
      case Ok(s) =>
        && Denotes(f[0], s.dbID) && Denotes(f[1], s.contentID) && Denotes(f[6], s.port)
        && s.role == f[2] && s.preferredRole == f[3] && s.mode == f[4] && s.status == f[5]
        && s.hostname == f[7] && s.address == f[8]
        && s.dataDir == if |f| == 10 then f[9] else ""
  }

  lemma FieldsMeanSegment(line: string, s: SegConfig)
    ensures ParseLine(line) == Ok(s) <==> WordsMean(Fields(line), Ok(s))
  {
    var f := Fields(line);
    if 9 <= |f| <= 10 {
      AtoiExactly(f[0], s.dbID);
      AtoiExactly(f[1], s.contentID);
      AtoiExactly(f[6], s.port);
    }
  }

  lemma FieldsMeanError(line: string, e: LineError)
    ensures ParseLine(line) == Err(e) <==> WordsMean(Fields(line), Err(e))
  {
    var f := Fields(line);
    if 9 <= |f| <= 10 {
      AtoiDefined(f[0]);
      AtoiDefined(f[1]);
      AtoiDefined(f[6]);
    }
  }

  /** What a line parses to: what the words mean that it can be seen to consist of. */
  lemma LineExactly(line: string, r: Result<SegConfig, LineError>)
    ensures ParseLine(line) == r <==> exists words, gaps ::
      AllWords(words) && LegalGaps(words, gaps) && line == Spread(words, gaps) && WordsMean(words, r)
  {
    match r {
      case Ok(s) => FieldsMeanSegment(line, s);
      case Err(e) => FieldsMeanError(line, e);
    }
    var gaps := TextIsSpread(line);
    forall words, gaps | AllWords(words) && LegalGaps(words, gaps) && line == Spread(words, gaps)
      ensures Fields(line) == words
    {
      FieldsOfSpread(words, gaps);
    }
  }

  // ---------------------------------------------------------------- Round trip

  /** What a dump can hold: words, numbers of 64 bits, and a data directory that may be missing. */
  predicate Printable(s: SegConfig) {
    && FitsInt64(s.dbID) && FitsInt64(s.contentID) && FitsInt64(s.port)
    && IsWord(s.role) && IsWord(s.preferredRole) && IsWord(s.mode) && IsWord(s.status)
    && IsWord(s.hostname) && IsWord(s.address)
    && (s.dataDir == "" || IsWord(s.dataDir))
  }

  function NineFields(s: SegConfig): seq<string> {
    [SignedNumeral(s.dbID), SignedNumeral(s.contentID), s.role, s.preferredRole, s.mode, s.status,
     SignedNumeral(s.port), s.hostname, s.address]
  }

  function FieldsFor(s: SegConfig): seq<string> {
    if s.dataDir == "" then NineFields(s) else NineFields(s) + [s.dataDir]
  }

  lemma NumeralIsWord(n: int)
    ensures IsWord(SignedNumeral(n))
    ensures FitsInt64(n) ==> Atoi(SignedNumeral(n)) == Some(n)
  {
    var magnitude := if n < 0 then -n else n;
    NumeralReadsBack(magnitude);
    var digits := Numeral(magnitude);
    assert forall i | 0 <= i < |digits| :: IsDigit(digits[i]);
    if n < 0 {
      assert SignedNumeral(n)[1..] == digits;
    } else {
      assert IsDigit(digits[0]);
    }
  }

  lemma FieldsForAreWords(s: SegConfig)
    requires Printable(s)
    ensures AllWords(FieldsFor(s))
  {
    NumeralIsWord(s.dbID);
    NumeralIsWord(s.contentID);
    NumeralIsWord(s.port);
    NineWords(SignedNumeral(s.dbID), SignedNumeral(s.contentID), s.role, s.preferredRole, s.mode, s.status,
              SignedNumeral(s.port), s.hostname, s.address);
  }

  lemma NineWords(a: string, b: string, c: string, d: string, e: string, f: string, g: string, h: string, i: string)
    requires IsWord(a) && IsWord(b) && IsWord(c) && IsWord(d) && IsWord(e) && IsWord(f) && IsWord(g)
    requires IsWord(h) && IsWord(i)
    ensures AllWords([a, b, c, d, e, f, g, h, i])
  {
  }

  /** A printed line parses to the segment, whatever blanks are between and around the fields. */
  lemma LineRoundTrip(s: SegConfig, gaps: seq<string>)
    requires Printable(s) && LegalGaps(FieldsFor(s), gaps)
    ensures ParseLine(Spread(FieldsFor(s), gaps)) == Ok(s)
  {
    FieldsForAreWords(s);
    FieldsOfSpread(FieldsFor(s), gaps);
    NumeralIsWord(s.dbID);
    NumeralIsWord(s.contentID);
    NumeralIsWord(s.port);
  }

  /** Printable segments are exactly those some line parses to. */
  lemma ParsedIsPrintable(line: string)
    requires ParseLine(line).Ok?
    ensures Printable(ParseLine(line).value)
  {
    var gaps := TextIsSpread(line);
    var fields := Fields(line);
    assert forall i | 0 <= i < |fields| :: IsWord(fields[i]);
  }

  /** A dump printed line by line, forms with and without data directory mixed freely, reads back as the
      same list. */
  lemma DumpRoundTrip(dir: string, segs: seq<SegConfig>, gaps: seq<seq<string>>, lines: seq<string>,
                      r: Result<seq<SegConfig>, DumpError>)
    requires !AllSpace(dir) && |segs| == |gaps| == |lines|
    requires forall i | 0 <= i < |segs| ::
      Printable(segs[i]) && LegalGaps(FieldsFor(segs[i]), gaps[i]) && lines[i] == Spread(FieldsFor(segs[i]), gaps[i])
    requires Describes(dir, Opened(lines, false), r)
    ensures r == Ok(segs)
  {
    forall i | 0 <= i < |segs|
      ensures ParseLine(lines[i]) == Ok(segs[i])
    {
      LineRoundTrip(segs[i], gaps[i]);
    }
    OutcomeIsUnique(dir, Opened(lines, false), r, Ok(segs));
  }
}
