/** Exactly which texts the array scanner rejects, and with which error. */
module StringArrayErrors {
  import opened Wrappers
  import opened StringArrays
  import opened StringArrayLanguage

  /** Legal elements, each with its comma. */
  function Listed(ts: seq<Text>): bytes {
    if ts == [] then [] else Written(ts[0]) + ([','] + Listed(ts[1..]))
  }

  predicate AllLegal(ts: seq<Text>) {
    forall i | 0 <= i < |ts| :: LegalText(ts[i])
  }

  /** What is wrong with an element that starts here as the one of this index: a brace; a quote never closed,
      perhaps because a last backslash has nothing to escape; a closing quote not followed by a comma or the
      end; the bare word NULL. */
  ghost predicate Faulty(s: bytes, index: nat, e: ScanError) {
    match e
    case Multidimensional => s != [] && s[0] == '{'
    case Unterminated =>
      exists ps, cut: bytes :: LegalPieces(ps) && (cut == [] || cut == ['\\']) && s == ['"'] + (PiecesText(ps) + cut)
    case ExpectedComma =>
      exists ps, rest: bytes :: LegalPieces(ps) && rest != [] && rest[0] != ',' && s == Written(InQuotes(ps)) + rest
    case NullElement(i) => i == index && exists rest: bytes :: (rest == [] || rest[0] == ',') && s == "NULL" + rest
    case _ => false
  }

  // ---------------------------------------------------------------- Faulty elements fail

  lemma {:induction false} NeverCloses(ps: seq<Piece>, cut: bytes)
    requires LegalPieces(ps) && (cut == [] || cut == ['\\'])
    ensures Quoted(PiecesText(ps) + cut) == None
  {
    if ps == [] {
      assert PiecesText(ps) + cut == cut;
      assert cut != [] ==> cut[1..] == [];
    } else {
      var tail := PiecesText(ps[1..]) + cut;
      NeverCloses(ps[1..], cut);
      match ps[0] {
        case Plain(c) =>
          assert PiecesText(ps) + cut == [c] + tail;
          QuotedPlain(c, tail);
        case Escaped(c) =>
          assert PiecesText(ps) + cut == ['\\', c] + tail;
          QuotedEscaped(c, tail);
      }
    }
  }

  lemma UnclosedFails(s: bytes, index: nat)
    requires Faulty(s, index, Unterminated)
    ensures Elements(s, index) == Err(Unterminated)
  {
    var ps, cut: bytes :| LegalPieces(ps) && (cut == [] || cut == ['\\']) && s == ['"'] + (PiecesText(ps) + cut);
    NeverCloses(ps, cut);
    assert s[1..] == PiecesText(ps) + cut;
  }

  lemma BadFollowerFails(ps: seq<Piece>, rest: bytes, index: nat)
    requires LegalPieces(ps) && rest != [] && rest[0] != ','
    ensures Elements(Written(InQuotes(ps)) + rest, index) == Err(ExpectedComma)
  {
    var s := Written(InQuotes(ps)) + rest;
    QuotedReads(ps, rest);
    assert s[1..] == PiecesText(ps) + ['"'] + rest;
    assert s[0] == '"';
    assert Elements(s, index) == After(PiecesValue(ps), rest, index);
  }

  lemma FaultyFails(s: bytes, index: nat, e: ScanError)
    requires Faulty(s, index, e)
    ensures Elements(s, index) == Err(e)
  {
    match e
    case Multidimensional =>
    case Unterminated => UnclosedFails(s, index);
    case ExpectedComma =>
      var ps, rest: bytes :| LegalPieces(ps) && rest != [] && rest[0] != ',' && s == Written(InQuotes(ps)) + rest;
      BadFollowerFails(ps, rest, index);
    case NullElement(i) =>
      var rest: bytes :| (rest == [] || rest[0] == ',') && s == "NULL" + rest;
      NullReads(rest, index);
  }

  lemma {:induction false} ListedThenFails(ts: seq<Text>, s: bytes, index: nat, at: nat, e: ScanError)
    requires AllLegal(ts) && at == index + |ts| && Elements(s, at) == Err(e)
    ensures Elements(Listed(ts) + s, index) == Err(e)
    decreases |ts|
  {
    if ts == [] {
      assert Listed(ts) + s == s;
    } else {
      var more := ts[1..];
      ListedThenFails(more, s, index + 1, at, e);
      assert ts == [ts[0]] + more;
      ListedFirst(ts[0], more, s);
      ElementThenComma(ts[0], Listed(more) + s, index);
    }
  }

  // ---------------------------------------------------------------- What fails is faulty

  lemma {:induction false} UnclosedIsFaulty(s: bytes) returns (ps: seq<Piece>, cut: bytes)
    requires Quoted(s) == None
    ensures LegalPieces(ps) && (cut == [] || cut == ['\\']) && s == PiecesText(ps) + cut
    decreases |s|
  {
    if s == [] {
      ps, cut := [], [];
    } else if s == ['\\'] {
      ps, cut := [], ['\\'];
    } else {
      var more;
      if s[0] == '\\' {
        more, cut := UnclosedIsFaulty(s[2..]);
        ps := [Escaped(s[1])] + more;
        PieceTextFirst(Escaped(s[1]), more);
        assert s == ['\\', s[1]] + s[2..];
      } else {
        more, cut := UnclosedIsFaulty(s[1..]);
        ps := [Plain(s[0])] + more;
        PieceTextFirst(Plain(s[0]), more);
        assert s == [s[0]] + s[1..];
      }
    }
  }

  /** The first element of a rejected text is faulty, or legal with a comma and a rejected rest. */
  lemma FirstOfRejected(s: bytes, index: nat, e: ScanError) returns (faulty: bool, t: Text, rest: bytes)
    requires Elements(s, index) == Err(e)
    ensures faulty ==> Faulty(s, index, e)
    ensures !faulty ==>
      LegalText(t) && s == Written(t) + ([','] + rest) && Elements(rest, index + 1) == Err(e) && |rest| < |s|
  {
    faulty, t, rest := true, Bare([]), [];
    if s[0] == '{' {
    } else if s[0] == '"' {
      assert s == ['"'] + s[1..];
      if Quoted(s[1..]).None? {
        var ps, cut := UnclosedIsFaulty(s[1..]);
      } else {
        var ps := QuotedIsLegal(s[1..]);
        var after := Quoted(s[1..]).value.1;
        assert s == Written(InQuotes(ps)) + after;
        if after[0] == ',' {
          faulty, t, rest := false, InQuotes(ps), after[1..];
          assert after == [','] + rest;
        }
      }
    } else {
      var n := BareLength(s);
      assert s == s[..n] + s[n..];
      if s[..n] == "NULL" {
        assert s == "NULL" + s[n..];
      } else {
        faulty, t, rest := false, Bare(s[..n]), s[n..][1..];
        assert s[n..] == [','] + rest;
      }
    }
  }

  lemma {:induction false} RejectedIsFaulty(s: bytes, index: nat, e: ScanError)
    returns (ts: seq<Text>, tail: bytes, at: nat)
    requires Elements(s, index) == Err(e)
    ensures AllLegal(ts) && s == Listed(ts) + tail && at == index + |ts| && Faulty(tail, at, e)
    decreases |s|
  {
    var faulty, t, rest := FirstOfRejected(s, index, e);
    if faulty {
      ts, tail, at := [], s, index;
      assert Listed(ts) + tail == s;
    } else {
      var more;
      more, tail, at := RejectedIsFaulty(rest, index + 1, e);
      ts := [t] + more;
      ListedFirst(t, more, tail);
    }
  }

  lemma ListedFirst(t: Text, more: seq<Text>, tail: bytes)
    ensures Listed([t] + more) + tail == Written(t) + ([','] + (Listed(more) + tail))
  {
    assert ([t] + more)[1..] == more;
  }

  /** The text has no braces around it, or after some number of legal elements the first faulty one names the
      error. */
  ghost predicate RejectedWith(src: bytes, e: ScanError) {
    if |src| < 2 || src[0] != '{' || src[|src| - 1] != '}' then e == MalformedLiteral
    else exists ts, tail :: AllLegal(ts) && src == ['{'] + (Listed(ts) + tail) + ['}'] && Faulty(tail, |ts|, e)
  }

  /** The rejected texts, and the error of each. */
  lemma ErrorsExactly(src: bytes, e: ScanError)
    ensures Parse(src) == Err(e) <==> RejectedWith(src, e)
  {
    if |src| >= 2 && src[0] == '{' && src[|src| - 1] == '}' {
      var body := src[1..|src| - 1];
      assert src == ['{'] + body + ['}'];
      if Parse(src) == Err(e) {
        var ts, tail, at := RejectedIsFaulty(body, 0, e);
        assert at == |ts|;
      }
      forall ts, tail | AllLegal(ts) && src == ['{'] + (Listed(ts) + tail) + ['}'] && Faulty(tail, |ts|, e)
        ensures Parse(src) == Err(e)
      {
        FaultyFails(tail, |ts|, e);
        ListedThenFails(ts, tail, 0, |ts|, e);
        BracedParses(Listed(ts) + tail);
      }
    }
  }

  // ---------------------------------------------------------------- The receiver after a scan

  /** Scanning bytes or text that is a legal way of writing a list gives the receiver that list; any other is
      rejected with its error and leaves the receiver as it was. */
  lemma ScanExactly(src: Source, text: bytes, before: Option<seq<bytes>>)
    requires src == BytesSource(text) || src == StringSource(text)
    ensures forall ts, trailing | Legal(ts, trailing) && text == Literal(ts, trailing) ::
      ScanResult(src, before) == (Some(Meanings(ts)), None)
    ensures forall e :: RejectedWith(text, e) <==> ScanResult(src, before).1 == Some(e)
    ensures ScanResult(src, before).1.None? ==>
      exists ts, trailing :: Legal(ts, trailing) && text == Literal(ts, trailing)
    ensures ScanResult(src, before).1.Some? ==> ScanResult(src, before).0 == before
  {
    forall ts, trailing | Legal(ts, trailing) && text == Literal(ts, trailing)
      ensures Parse(text) == Ok(Meanings(ts))
    {
      LegalParses(ts, trailing);
    }
    forall e
      ensures RejectedWith(text, e) <==> Parse(text) == Err(e)
    {
      ErrorsExactly(text, e);
    }
    if Parse(text).Ok? {
      ExactLanguage(text, Parse(text).value);
    }
  }

  /** A nil source makes the receiver nil; a source of another type is refused and changes nothing. */
  lemma ScanOfOthers(before: Option<seq<bytes>>)
    ensures ScanResult(NilSource, before) == (None, None)
    ensures ScanResult(OtherSource, before) == (before, Some(UnsupportedSource))
  {
  }
}
