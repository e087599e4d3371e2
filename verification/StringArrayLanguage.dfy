/** Exactly which texts the array scanner accepts, and what they mean. */
module StringArrayLanguage {
  import opened Wrappers
  import opened Decimal
  import opened StringArrays

  /** One character of a quoted element, written as itself or behind a backslash. */
  datatype Piece = Plain(c: byte) | Escaped(c: byte)

  datatype Text = InQuotes(pieces: seq<Piece>) | Bare(text: bytes)

  function PiecesText(ps: seq<Piece>): bytes {
    if ps == [] then []
    else (match ps[0] case Plain(c) => [c] case Escaped(c) => ['\\', c]) + PiecesText(ps[1..])
  }

  function PiecesValue(ps: seq<Piece>): bytes {
    seq(|ps|, i requires 0 <= i < |ps| => ps[i].c)
  }

  function Written(t: Text): bytes {
    match t
    case InQuotes(ps) => ['"'] + PiecesText(ps) + ['"']
    case Bare(text) => text
  }

  function Meaning(t: Text): bytes {
    match t
    case InQuotes(ps) => PiecesValue(ps)
    case Bare(text) => text
  }

  function Meanings(ts: seq<Text>): seq<bytes> {
    seq(|ts|, i requires 0 <= i < |ts| => Meaning(ts[i]))
  }

  /** The elements separated by commas, with or without a trailing comma. */
  function Body(ts: seq<Text>, trailing: bool): bytes {
    if ts == [] then []
    else if |ts| == 1 then Written(ts[0]) + if trailing then [','] else []
    else Written(ts[0]) + [','] + Body(ts[1..], trailing)
  }

  function Literal(ts: seq<Text>, trailing: bool): bytes {
    ['{'] + Body(ts, trailing) + ['}']
  }

  predicate LegalPieces(ps: seq<Piece>) {
    forall i | 0 <= i < |ps| :: ps[i].Plain? ==> ps[i].c != '"' && ps[i].c != '\\'
  }

  /** Unquoted text may hold anything but a comma, must not open a quote or a brace, and is not `NULL`. */
  predicate LegalText(t: Text) {
    match t
    case InQuotes(ps) => LegalPieces(ps)
    case Bare(text) => ',' !in text && text != "NULL" && (text != [] ==> text[0] != '{' && text[0] != '"')
  }

  /** An empty unquoted element needs a comma after it, and there is no comma without an element. */
  predicate Legal(ts: seq<Text>, trailing: bool) {
    && (forall i | 0 <= i < |ts| :: LegalText(ts[i]))
    && (trailing ==> ts != [])
    && (!trailing && ts != [] ==> ts[|ts| - 1] != Bare([]))
  }

  // ---------------------------------------------------------------- Legal texts are accepted

  lemma QuotedPlain(c: byte, tail: bytes)
    requires c != '"' && c != '\\'
    ensures Quoted([c] + tail) == PrependText([c], Quoted(tail))
  {
    assert ([c] + tail)[1..] == tail;
  }

  lemma QuotedEscaped(c: byte, tail: bytes)
    ensures Quoted(['\\', c] + tail) == PrependText([c], Quoted(tail))
  {
    assert (['\\', c] + tail)[2..] == tail;
  }

  lemma {:induction false} QuotedReads(ps: seq<Piece>, rest: bytes)
    requires LegalPieces(ps)
    ensures Quoted(PiecesText(ps) + ['"'] + rest) == Some((PiecesValue(ps), rest))
  {
    var s := PiecesText(ps) + ['"'] + rest;
    if ps == [] {
      assert s[1..] == rest;
    } else {
      var tail := PiecesText(ps[1..]) + ['"'] + rest;
      QuotedReads(ps[1..], rest);
      match ps[0] {
        case Plain(c) =>
          assert s == [c] + tail;
          QuotedPlain(c, tail);
        case Escaped(c) =>
          assert s == ['\\', c] + tail;
          QuotedEscaped(c, tail);
      }
      assert PiecesValue(ps) == [ps[0].c] + PiecesValue(ps[1..]);
    }
  }

  lemma {:induction false} BareReads(text: bytes, rest: bytes)
    requires ',' !in text && (rest == [] || rest[0] == ',')
    ensures BareLength(text + rest) == |text|
  {
    if text != [] {
      assert (text + rest)[1..] == text[1..] + rest;
      BareReads(text[1..], rest);
    } else {
      assert text + rest == rest;
    }
  }

  /** A legal element in front of a comma or the end of the text is read as its meaning. */
  lemma ElementReads(t: Text, rest: bytes, index: nat)
    requires LegalText(t) && (rest == [] || rest[0] == ',')
    requires t == Bare([]) ==> rest != []
    ensures Elements(Written(t) + rest, index) == After(Meaning(t), rest, index)
  {
    var s := Written(t) + rest;
    match t
    case InQuotes(ps) =>
      assert s[1..] == PiecesText(ps) + ['"'] + rest;
      QuotedReads(ps, rest);
    case Bare(text) =>
      BareReads(text, rest);
      assert s[..|text|] == text && s[|text|..] == rest;
  }

  lemma ElementThenComma(t: Text, rest: bytes, index: nat)
    requires LegalText(t)
    ensures Elements(Written(t) + ([','] + rest), index) == Prepend(Meaning(t), Elements(rest, index + 1))
  {
    ElementReads(t, [','] + rest, index);
    assert ([','] + rest)[1..] == rest;
  }

  lemma {:induction false} LegalReads(ts: seq<Text>, trailing: bool, index: nat)
    requires Legal(ts, trailing)
    ensures Elements(Body(ts, trailing), index) == Ok(Meanings(ts))
    decreases |ts|
  {
    if |ts| == 1 {
      var rest: bytes := if trailing then [','] else [];
      ElementReads(ts[0], rest, index);
      assert trailing ==> rest[1..] == [];
      assert Meanings(ts) == [Meaning(ts[0])];
      assert [Meaning(ts[0])] + [] == [Meaning(ts[0])];
    } else if |ts| > 1 {
      assert Body(ts, trailing) == Written(ts[0]) + ([','] + Body(ts[1..], trailing));
      ElementThenComma(ts[0], Body(ts[1..], trailing), index);
      assert ts[1..][|ts| - 2] == ts[|ts| - 1];
      LegalReads(ts[1..], trailing, index + 1);
      assert Meanings(ts) == [Meaning(ts[0])] + Meanings(ts[1..]);
    } else {
      assert Meanings(ts) == [];
    }
  }

  // ---------------------------------------------------------------- Accepted texts are legal

  lemma PieceTextFirst(p: Piece, more: seq<Piece>)
    ensures PiecesText([p] + more) == (match p case Plain(c) => [c] case Escaped(c) => ['\\', c]) + PiecesText(more)
    ensures PiecesValue([p] + more) == [p.c] + PiecesValue(more)
  {
    assert ([p] + more)[1..] == more;
  }

  lemma {:induction false} QuotedIsLegal(s: bytes) returns (ps: seq<Piece>)
    requires Quoted(s).Some?
    ensures LegalPieces(ps) && PiecesValue(ps) == Quoted(s).value.0
    ensures s == PiecesText(ps) + ['"'] + Quoted(s).value.1
    decreases |s|, 0
  {
    if s[0] == '"' {
      ps := [];
      assert PiecesValue(ps) == [];
    } else if s[0] == '\\' {
      assert |s| > 1;
      var tail := s[2..];
      assert s == ['\\', s[1]] + tail;
      QuotedEscaped(s[1], tail);
      ps := PrependPiece(Escaped(s[1]), tail);
    } else {
      var tail := s[1..];
      assert s == [s[0]] + tail;
      QuotedPlain(s[0], tail);
      ps := PrependPiece(Plain(s[0]), tail);
    }
  }

  lemma {:induction false} PrependPiece(p: Piece, tail: bytes) returns (ps: seq<Piece>)
    requires Quoted(tail).Some? && LegalPieces([p])
    ensures var (value, rest) := Quoted(tail).value;
      && LegalPieces(ps)
      && PiecesValue(ps) == [p.c] + value
      && (match p case Plain(c) => [c] case Escaped(c) => ['\\', c]) + tail == PiecesText(ps) + ['"'] + rest
    decreases |tail|, 1
  {
    var more := QuotedIsLegal(tail);
    ps := [p] + more;
    PieceTextFirst(p, more);
  }

  lemma FirstElementIsLegal(s: bytes, index: nat) returns (t: Text, rest: bytes)
    requires s != [] && Elements(s, index).Ok?
    ensures LegalText(t) && s == Written(t) + rest
    ensures Elements(s, index) == After(Meaning(t), rest, index)
    ensures t == Bare([]) ==> rest != []
  {
    if s[0] == '"' {
      var ps := QuotedIsLegal(s[1..]);
      t, rest := InQuotes(ps), Quoted(s[1..]).value.1;
      assert s == ['"'] + s[1..];
    } else {
      var n := BareLength(s);
      t, rest := Bare(s[..n]), s[n..];
    }
  }

  lemma ExtendLegal(t: Text, rest: bytes, more: seq<Text>, trailing: bool)
    requires LegalText(t) && rest != [] && rest[0] == ','
    requires Legal(more, trailing) && rest[1..] == Body(more, trailing)
    ensures Legal([t] + more, more == [] || trailing)
    ensures Written(t) + rest == Body([t] + more, more == [] || trailing)
    ensures Meanings([t] + more) == [Meaning(t)] + Meanings(more)
  {
    var ts := [t] + more;
    assert ts[1..] == more;
    assert rest == [','] + rest[1..];
    assert more != [] ==> ts[|ts| - 1] == more[|more| - 1];
  }

  lemma {:induction false} AcceptedIsLegal(s: bytes, index: nat) returns (ts: seq<Text>, trailing: bool)
    requires Elements(s, index).Ok?
    ensures Legal(ts, trailing) && s == Body(ts, trailing) && Elements(s, index) == Ok(Meanings(ts))
    decreases |s|
  {
    if s == [] {
      ts, trailing := [], false;
      assert Meanings(ts) == [];
    } else {
      var t, rest := FirstElementIsLegal(s, index);
      if rest == [] {
        ts, trailing := [t], false;
        assert Meanings(ts) == [Meaning(t)];
      } else {
        assert |rest[1..]| < |s|;
        var more, last := AcceptedIsLegal(rest[1..], index + 1);
        ExtendLegal(t, rest, more, last);
        ts, trailing := [t] + more, more == [] || last;
      }
    }
  }

  /** The accepted language: `src` parses to `xs` exactly if it is the literal of legal texts meaning `xs`. */
  lemma ExactLanguage(src: bytes, xs: seq<bytes>)
    ensures Parse(src) == Ok(xs)
       <==> exists ts, trailing :: Legal(ts, trailing) && src == Literal(ts, trailing) && Meanings(ts) == xs
  {
    if Parse(src) == Ok(xs) {
      var body := src[1..|src| - 1];
      var ts, trailing := AcceptedIsLegal(body, 0);
      assert src == ['{'] + body + ['}'];
    }
    forall ts, trailing | Legal(ts, trailing) && src == Literal(ts, trailing) && Meanings(ts) == xs
      ensures Parse(src) == Ok(xs)
    {
      LegalParses(ts, trailing);
    }
  }

  lemma BracedParses(body: bytes)
    ensures Parse(['{'] + body + ['}']) == Elements(body, 0)
  {
    var src := ['{'] + body + ['}'];
    assert src[1..|src| - 1] == body;
  }

  lemma LegalParses(ts: seq<Text>, trailing: bool)
    requires Legal(ts, trailing)
    ensures Parse(Literal(ts, trailing)) == Ok(Meanings(ts))
  {
    BracedParses(Body(ts, trailing));
    LegalReads(ts, trailing, 0);
  }

  // ---------------------------------------------------------------- The printer

  /** How to print one element: as it is, or in quotes, escaping what must be and what `escapes` asks for. */
  datatype Choice = Unquoted | QuotedWith(escapes: seq<bool>)

  predicate NeedsQuotes(c: byte) {
    c in {',', '{', '}', '"', '\\', ' ', '\t', '\n', '\r', 11 as char, 12 as char}
  }

  predicate MustQuote(x: bytes) {
    x == [] || x == "NULL" || exists i | 0 <= i < |x| :: NeedsQuotes(x[i])
  }

  function Render(x: bytes, choice: Choice): Text {
    match choice
    case Unquoted => Bare(x)
    case QuotedWith(escapes) =>
      InQuotes(seq(|x|, i requires 0 <= i < |x| =>
        if x[i] == '"' || x[i] == '\\' || (i < |escapes| && escapes[i]) then Escaped(x[i]) else Plain(x[i])))
  }

  predicate Admissible(xs: seq<bytes>, choices: seq<Choice>) {
    |choices| == |xs| && forall i | 0 <= i < |xs| :: MustQuote(xs[i]) ==> choices[i].QuotedWith?
  }

  function Print(xs: seq<bytes>, choices: seq<Choice>): bytes
    requires |choices| == |xs|
  {
    Literal(seq(|xs|, i requires 0 <= i < |xs| => Render(xs[i], choices[i])), false)
  }

  lemma RenderedIsLegal(x: bytes, choice: Choice)
    requires MustQuote(x) ==> choice.QuotedWith?
    ensures LegalText(Render(x, choice)) && Meaning(Render(x, choice)) == x && Render(x, choice) != Bare([])
  {
    if choice.Unquoted? {
      assert forall i | 0 <= i < |x| :: !NeedsQuotes(x[i]);
    }
  }

  /** Whatever quoting and escaping the printer chooses, scanning gives the list back. */
  lemma RoundTrip(xs: seq<bytes>, choices: seq<Choice>)
    requires Admissible(xs, choices)
    ensures Parse(Print(xs, choices)) == Ok(xs)
    ensures forall before ::
      ScanResult(BytesSource(Print(xs, choices)), before) == ScanResult(StringSource(Print(xs, choices)), before)
        == (Some(xs), None)
  {
    var ts := seq(|xs|, i requires 0 <= i < |xs| => Render(xs[i], choices[i]));
    forall i | 0 <= i < |xs|
      ensures LegalText(ts[i]) && Meaning(ts[i]) == xs[i] && ts[i] != Bare([])
    {
      RenderedIsLegal(xs[i], choices[i]);
    }
    LegalParses(ts, false);
    assert Meanings(ts) == xs;
  }

  /** Two lists never print alike. */
  lemma PrinterIsInjective(xs: seq<bytes>, xc: seq<Choice>, ys: seq<bytes>, yc: seq<Choice>)
    requires Admissible(xs, xc) && Admissible(ys, yc) && Print(xs, xc) == Print(ys, yc)
    ensures xs == ys
  {
    RoundTrip(xs, xc);
    RoundTrip(ys, yc);
  }

  // ---------------------------------------------------------------- NULL elements

  function WrittenOrNull(t: Option<Text>): bytes { if t.Some? then Written(t.value) else "NULL" }

  /** The elements separated by commas, an absent one as the bare word NULL. */
  function NullableBody(ts: seq<Option<Text>>): bytes {
    if ts == [] then [] else WrittenOrNull(ts[0]) + NullableRest(ts[1..])
  }

  function NullableRest(ts: seq<Option<Text>>): bytes {
    if ts == [] then [] else [','] + (WrittenOrNull(ts[0]) + NullableRest(ts[1..]))
  }

  lemma NullReads(rest: bytes, index: nat)
    requires rest == [] || rest[0] == ','
    ensures Elements("NULL" + rest, index) == Err(NullElement(index))
  {
    var s := "NULL" + rest;
    BareReads("NULL", rest);
    assert s[..4] == "NULL";
  }

  /** The first `k` entries are legal texts and the next is absent. */
  ghost predicate FirstNullAt(ts: seq<Option<Text>>, k: nat) {
    && k < |ts| && ts[k].None?
    && forall i | 0 <= i < k :: ts[i].Some? && LegalText(ts[i].value)
  }

  lemma NullFirst(ts: seq<Option<Text>>, index: nat)
    requires FirstNullAt(ts, 0)
    ensures Elements(NullableBody(ts), index) == Err(NullElement(index))
  {
    NullReads(NullableRest(ts[1..]), index);
  }

  lemma NullLater(ts: seq<Option<Text>>, k: nat, index: nat)
    requires FirstNullAt(ts, k) && k > 0
    ensures FirstNullAt(ts[1..], k - 1)
    ensures Elements(NullableBody(ts[1..]), index + 1).Err? ==>
      Elements(NullableBody(ts), index) == Elements(NullableBody(ts[1..]), index + 1)
  {
    var more := ts[1..];
    assert more[k - 1] == ts[k];
    assert forall i | 0 <= i < k - 1 :: more[i] == ts[i + 1];
    assert NullableBody(ts) == Written(ts[0].value) + ([','] + NullableBody(more));
    ElementThenComma(ts[0].value, NullableBody(more), index);
  }

  lemma {:induction false} FirstNullFails(ts: seq<Option<Text>>, k: nat, index: nat, at: nat)
    requires FirstNullAt(ts, k) && at == index + k
    ensures Elements(NullableBody(ts), index) == Err(NullElement(at))
    decreases k
  {
    if k == 0 {
      NullFirst(ts, index);
    } else {
      NullLater(ts, k, index);
      FirstNullFails(ts[1..], k - 1, index + 1, at);
    }
  }

  /** The first absent element fails the scan by its index, whatever comes after it, and the receiver
      keeps what it held. */
  lemma NullDetection(ts: seq<Option<Text>>, k: nat, before: Option<seq<bytes>>)
    requires FirstNullAt(ts, k)
    ensures ParseInto(['{'] + NullableBody(ts) + ['}'], before) == (before, Some(NullElement(k)))
  {
    var body := NullableBody(ts);
    BracedParses(body);
    FirstNullFails(ts, k, 0, k);
  }

  /** The string NULL is accepted wherever it stands, exactly when it is written in quotes. */
  lemma QuotedNullIsAString(ts: seq<Text>, trailing: bool, k: nat)
    requires Legal(ts, trailing) && k < |ts| && Meaning(ts[k]) == "NULL"
    ensures ts[k].InQuotes? && Written(ts[k])[0] == '"'
    ensures Parse(Literal(ts, trailing)).Ok? && |Parse(Literal(ts, trailing)).value| == |ts|
    ensures Parse(Literal(ts, trailing)).value[k] == "NULL"
  {
    LegalParses(ts, trailing);
  }

  /** A trailing comma adds no element; a comma before it stands for an empty one. */
  lemma TrailingCommaIsIgnored(ts: seq<Text>)
    requires Legal(ts, true) && ts[|ts| - 1] != Bare([])
    ensures Parse(Literal(ts, true)) == Parse(Literal(ts, false)) == Ok(Meanings(ts))
  {
    LegalParses(ts, true);
    LegalParses(ts, false);
  }
}
