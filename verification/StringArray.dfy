/** The scanner for PostgreSQL text-format arrays. */
module StringArrays {
  import opened Wrappers
  import opened Decimal

  type bytes = seq<byte>

  datatype ScanError =
    | UnsupportedSource
    | MalformedLiteral
    | Multidimensional
    | Unterminated
    | NullElement(index: nat)
    | ExpectedComma

  // ---------------------------------------------------------------- The scanner as functions of the text left

  /** The text after an opening quote: the element up to its closing quote, and what follows that quote. */
  function Quoted(s: bytes): (r: Option<(bytes, bytes)>)
    ensures r.Some? ==> |r.value.1| < |s|
  {
    if s == [] then None
    else if s[0] == '"' then Some(([], s[1..]))
    else
      var escaped := s[0] == '\\' && |s| > 1;
      match Quoted(if escaped then s[2..] else s[1..])
      case None => None
      case Some((value, rest)) => Some(([if escaped then s[1] else s[0]] + value, rest))
  }

  /** The length of an unquoted element. */
  function BareLength(s: bytes): (n: nat)
    ensures n <= |s|
    ensures n < |s| ==> s[n] == ','
    ensures ',' !in s[..n]
  {
    if s == [] || s[0] == ',' then 0 else
      var n := BareLength(s[1..]);
      assert s[..1 + n] == [s[0]] + s[1..][..n];
      1 + n
  }

  function Prepend(v: bytes, r: Result<seq<bytes>, ScanError>): Result<seq<bytes>, ScanError> {
    match r case Ok(vs) => Ok([v] + vs) case Err(e) => Err(e)
  }

  /** The elements of the text left, when `index` elements came before. */
  function Elements(s: bytes, index: nat): Result<seq<bytes>, ScanError>
    decreases |s|, 1
  {
    if s == [] then Ok([])
    else if s[0] == '{' then Err(Multidimensional)
    else if s[0] == '"' then
      match Quoted(s[1..])
      case None => Err(Unterminated)
      case Some((value, rest)) => After(value, rest, index)
    else
      var n := BareLength(s);
      if s[..n] == "NULL" then Err(NullElement(index))
      else After(s[..n], s[n..], index)
  }

  /** What follows an element: nothing, or a comma and the next elements. */
  function After(value: bytes, rest: bytes, index: nat): Result<seq<bytes>, ScanError>
    decreases |rest|, 0
  {
    if rest == [] then Ok([value])
    else if rest[0] != ',' then Err(ExpectedComma)
    else Prepend(value, Elements(rest[1..], index + 1))
  }

  function Parse(src: bytes): Result<seq<bytes>, ScanError> {
    if |src| < 2 || src[0] != '{' || src[|src| - 1] != '}' then Err(MalformedLiteral)
    else Elements(src[1..|src| - 1], 0)
  }

  // ---------------------------------------------------------------- The scanner as the source writes it

  function PrependAll(vs: seq<bytes>, r: Result<seq<bytes>, ScanError>): Result<seq<bytes>, ScanError> {
    match r case Ok(ws) => Ok(vs + ws) case Err(e) => Err(e)
  }

  function PrependText(v: bytes, r: Option<(bytes, bytes)>): Option<(bytes, bytes)> {
    match r case Some((w, rest)) => Some((v + w, rest)) case None => None
  }

  lemma PrependTextUnit(r: Option<(bytes, bytes)>)
    ensures PrependText([], r) == r
  {
    if r.Some? {
      assert [] + r.value.0 == r.value.0;
    }
  }

  lemma PrependTextMore(v: bytes, c: byte, r: Option<(bytes, bytes)>)
    ensures PrependText(v + [c], r) == PrependText(v, PrependText([c], r))
  {
    if r.Some? {
      assert v + [c] + r.value.0 == v + ([c] + r.value.0);
    }
  }

  lemma PrependAllMore(vs: seq<bytes>, v: bytes, r: Result<seq<bytes>, ScanError>)
    ensures PrependAll([], r) == r
    ensures PrependAll(vs + [v], r) == PrependAll(vs, Prepend(v, r))
  {
    if r.Ok? {
      assert [] + r.value == r.value;
      assert vs + [v] + r.value == vs + ([v] + r.value);
    }
  }

  /** The inner loop over a quoted element that starts at `i`. */
  method ScanQuoted(body: bytes, start: nat) returns (buf: bytes, i: nat)
    requires start <= |body|
    ensures start <= i <= |body|
    ensures Quoted(body[start..]) == if i < |body| then Some((buf, body[i + 1..])) else None
  {
    buf, i := [], start;
    PrependTextUnit(Quoted(body[start..]));
    while i < |body| && body[i] != '"'
      invariant start <= i <= |body|
      invariant Quoted(body[start..]) == PrependText(buf, Quoted(body[i..]))
      decreases |body| - i
    {
      ghost var s := body[i..];
      assert s[1..] == body[i + 1..];
      if body[i] == '\\' && i + 1 < |body| {
        assert s[2..] == body[i + 2..];
        PrependTextMore(buf, body[i + 1], Quoted(body[i + 2..]));
        buf := buf + [body[i + 1]];
        i := i + 2;
        continue;
      }
      PrependTextMore(buf, body[i], Quoted(body[i + 1..]));
      buf := buf + [body[i]];
      i := i + 1;
    }
    if i < |body| {
      assert body[i..][1..] == body[i + 1..];
      assert buf + [] == buf;
    }
  }

  method ScanBare(body: bytes, start: nat) returns (i: nat)
    requires start <= |body|
    ensures i == start + BareLength(body[start..])
  {
    i := start;
    while i < |body| && body[i] != ','
      invariant start <= i <= |body|
      invariant BareLength(body[start..]) == i - start + BareLength(body[i..])
    {
      assert body[i..][1..] == body[i + 1..];
      i := i + 1;
    }
  }

  datatype Source = NilSource | BytesSource(data: bytes) | StringSource(text: bytes) | OtherSource

  /** One element, quoted or not: its value and the index just after it. */
  method ScanElement(body: bytes, start: nat, index: nat) returns (r: Result<(bytes, nat), ScanError>)
    requires start < |body|
    ensures r.Err? ==> Elements(body[start..], index) == Err(r.error)
    ensures r.Ok? ==>
      && start <= r.value.1 <= |body|
      && Elements(body[start..], index) == After(r.value.0, body[r.value.1..], index)
  {
    ghost var s := body[start..];
    if body[start] == '{' {
      return Err(Multidimensional);
    }
    if body[start] == '"' {
      var buf, close := ScanQuoted(body, start + 1);
      assert s[1..] == body[start + 1..];
      if close >= |body| {
        return Err(Unterminated);
      }
      return Ok((buf, close + 1));
    } else {
      var i := ScanBare(body, start);
      assert body[start..i] == s[..i - start] && body[i..] == s[i - start..];
      if body[start..i] == "NULL" {
        return Err(NullElement(index));
      }
      return Ok((body[start..i], i));
    }
  }

  /** The receiver gets the elements, or keeps what it held. */
  function ParseInto(src: bytes, before: Option<seq<bytes>>): (Option<seq<bytes>>, Option<ScanError>) {
    match Parse(src)
    case Ok(xs) => (Some(xs), None)
    case Err(e) => (before, Some(e))
  }

  /** What `Scan` does to a receiver that holds `before`. */
  function ScanResult(src: Source, before: Option<seq<bytes>>): (Option<seq<bytes>>, Option<ScanError>) {
    match src
    case NilSource => (None, None)
    case OtherSource => (before, Some(UnsupportedSource))
    case BytesSource(data) => ParseInto(data, before)
    case StringSource(text) => ParseInto(text, before)
  }

  /** The receiver; `None` is the nil slice. */
  class StringArray {
    var elems: Option<seq<bytes>>

    constructor ()
      ensures elems == None
    {
      elems := None;
    }

    method Scan(src: Source) returns (err: Option<ScanError>)
      modifies this
      ensures (elems, err) == ScanResult(src, old(elems))
    {
      match src
      case NilSource =>
        elems := None;
        return None;
      case BytesSource(data) =>
        err := ScanBytes(data);
      case StringSource(text) =>
        err := ScanBytes(text);
      case OtherSource =>
        return Some(UnsupportedSource);
    }

    method ScanBytes(src: bytes) returns (err: Option<ScanError>)
      modifies this
      ensures (elems, err) == ParseInto(src, old(elems))
    {
      if |src| < 2 || src[0] != '{' || src[|src| - 1] != '}' {
        return Some(MalformedLiteral);
      }
      var body := src[1..|src| - 1];
      if |body| == 0 {
        elems := Some([]);
        return None;
      }
      var out: seq<bytes> := [];
      var i := 0;
      assert body[0..] == body;
      PrependAllMore([], [], Elements(body, 0));
      while i < |body|
        invariant 0 <= i <= |body|
        invariant elems == old(elems)
        invariant Elements(body, 0) == PrependAll(out, Elements(body[i..], |out|))
        decreases |body| - i
      {
        var r := ScanElement(body, i, |out|);
        if r.Err? {
          return Some(r.error);
        }
        ghost var was := out;
        out, i := out + [r.value.0], r.value.1;
        if i < |body| {
          if body[i] != ',' {
            return Some(ExpectedComma);
          }
          assert body[i..][1..] == body[i + 1..];
          i := i + 1;
          PrependAllMore(was, r.value.0, Elements(body[i..], |out|));
        } else {
          assert body[i..] == [];
          assert [r.value.0] + [] == [r.value.0];
          PrependAllMore(was, r.value.0, Ok([]));
        }
      }
      assert body[i..] == [] && out + [] == out;
      elems := Some(out);
      err := None;
    }
  }
}
