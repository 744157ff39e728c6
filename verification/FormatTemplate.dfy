/**
  The parser of format templates: literals with brace escapes, and placeholders with an
  optional position, debug style, right-aligned width and precision.
 */
module FormatTemplate {
  import opened Options

  const USIZE: nat := 0x1_0000_0000_0000_0000

  datatype Style = Display | Debug
  datatype Align = Unaligned | Right

  datatype Placeholder = Placeholder(position: Option<nat>, style: Style, align: Align,
                                     width: Option<nat>, precision: Option<nat>)

  datatype Segment = Literal(text: string) | Slot(placeholder: Placeholder)

  datatype Error = UnmatchedBrace | UnsupportedSpec(body: string)
  datatype Result<T> = Ok(value: T) | Err(error: Error)

  // ----- numbers -----

  function DigitValue(c: char): (v: int)
    ensures -1 <= v < 10
  {
    if '0' <= c <= '9' then c as int - '0' as int else -1
  }

  function DecimalValue(s: string): Option<nat>
  {
    if s == "" then Some(0) else
      var front, d := DecimalValue(s[..|s| - 1]), DigitValue(s[|s| - 1]);
      if front.None? || d < 0 then None else Some(front.value * 10 + d)
  }

  /** `str::parse::<usize>`: an optional plus sign, at least one digit, no overflow. */
  function ParseUsize(s: string): (r: Option<nat>)
    ensures r.Some? ==> r.value < USIZE
  {
    var digits := if s != "" && s[0] == '+' then s[1..] else s;
    if digits == "" then None
    else
      var v := DecimalValue(digits);
      if v.None? || v.value >= USIZE then None else v
  }

  /** Index of the first `c`, or the length. */
  function IndexOf(s: string, c: char): (i: nat)
    ensures i <= |s|
    ensures i < |s| ==> s[i] == c
    ensures forall k :: 0 <= k < i ==> s[k] != c
  {
    if s == "" || s[0] == c then 0
    else
      var rest := IndexOf(s[1..], c);
      assert forall k :: 1 <= k < rest + 1 ==> s[k] == s[1..][k - 1];
      1 + rest
  }

  // ----- placeholders -----

  /** The width part of a spec: nothing, or '>' and a number. */
  function ParseMain(main: string): Option<(Align, Option<nat>)>
  {
    if main == "" then Some((Unaligned, None))
    else if main[0] != '>' then None
    else
      var width := ParseUsize(main[1..]);
      if width.None? then None else Some((Right, width))
  }

  function ParseSpec(position: Option<nat>, spec: string): Option<Placeholder>
  {
    if spec == "" then Some(Placeholder(position, Display, Unaligned, None, None))
    else if spec == "?" then Some(Placeholder(position, Debug, Unaligned, None, None))
    else
      var dot := IndexOf(spec, '.');
      var main := ParseMain(spec[..dot]);
      if dot == |spec| then
        if main.None? then None else Some(Placeholder(position, Display, main.value.0, main.value.1, None))
      else
        var precision := ParseUsize(spec[dot + 1..]);
        if precision.None? || main.None? then None
        else Some(Placeholder(position, Display, main.value.0, main.value.1, precision))
  }

  function ParsePlaceholder(body: string): Result<Placeholder>
  {
    var colon := IndexOf(body, ':');
    var positionPart := body[..colon];
    var specPart := if colon < |body| then body[colon + 1..] else "";
    var position := ParseUsize(positionPart);
    if positionPart != "" && position.None? then Err(UnsupportedSpec(body))
    else
      var p := ParseSpec(if positionPart == "" then None else position, specPart);
      if p.None? then Err(UnsupportedSpec(body)) else Ok(p.value)
  }

  // ----- templates -----

  function Flush(literal: string): seq<Segment>
  {
    if literal == "" then [] else [Literal(literal)]
  }

  function Prepend(front: seq<Segment>, r: Result<seq<Segment>>): Result<seq<Segment>>
  {
    if r.Err? then r else Ok(front + r.value)
  }

  /** The front of a template: an error, one literal character, or a placeholder, and how long it is. */
  datatype Piece = Bad(error: Error) | Letter(c: char, length: nat) | Hole(placeholder: Placeholder, length: nat)

  function Scan(t: string): (piece: Piece)
    requires t != ""
    ensures !piece.Bad? ==> 0 < piece.length <= |t|
  {
    if t[0] == '{' then
      if |t| > 1 && t[1] == '{' then Letter('{', 2)
      else
        var close := IndexOf(t[1..], '}');
        if close == |t| - 1 then Bad(UnmatchedBrace)
        else
          var p := ParsePlaceholder(t[1..][..close]);
          if p.Err? then Bad(p.error) else Hole(p.value, close + 2)
    else if t[0] == '}' then
      if |t| > 1 && t[1] == '}' then Letter('}', 2) else Bad(UnmatchedBrace)
    else Letter(t[0], 1)
  }

  /** The parser with `literal` collected so far. */
  function Parse(t: string, literal: string): Result<seq<Segment>>
    decreases |t|
  {
    if t == "" then Ok(Flush(literal))
    else
      match Scan(t)
      case Bad(error) => Err(error)
      case Letter(c, n) => Parse(t[n..], literal + [c])
      case Hole(p, n) => Prepend(Flush(literal) + [Slot(p)], Parse(t[n..], ""))
  }

  /** The scan for the closing brace of a placeholder. */
  method CollectBody(template: string, start: nat) returns (closed: bool, body: string, pos: nat)
    requires start <= |template|
    ensures closed <==> IndexOf(template[start..], '}') < |template| - start
    ensures closed ==> body == template[start..][..IndexOf(template[start..], '}')]
    ensures closed ==> pos == start + IndexOf(template[start..], '}') + 1 <= |template|
  {
    hide IndexOf;
    ghost var rest := template[start..];
    body, pos, closed := "", start, false;
    while pos < |template|
      invariant start <= pos <= |template|
      invariant body == rest[..pos - start]
      invariant forall k :: 0 <= k < pos - start ==> rest[k] != '}'
    {
      var inner := template[pos];
      pos := pos + 1;
      if inner == '}' {
        FirstIndex(rest, '}', pos - 1 - start);
        return true, body, pos;
      }
      body := body + [inner];
    }
  }

  lemma FirstIndex(s: string, c: char, i: nat)
    requires i < |s| && s[i] == c && forall k :: 0 <= k < i ==> s[k] != c
    ensures IndexOf(s, c) == i
  {
    hide IndexOf;
  }

  lemma NoIndex(s: string, c: char)
    requires forall k :: 0 <= k < |s| ==> s[k] != c
    ensures IndexOf(s, c) == |s|
  {
    hide IndexOf;
  }

  /** One turn of the parser's loop, from the cursor `start`. */
  method ScanAt(template: string, start: nat) returns (piece: Piece)
    requires start < |template|
    ensures piece == Scan(template[start..])
  {
    hide ParsePlaceholder, IndexOf;
    ghost var rest := template[start..];
    var pos := start + 1;
    assert rest[1..] == template[pos..] && (pos < |template| ==> rest[1] == template[pos]);
    var ch := template[start];
    if ch == '{' {
      if pos < |template| && template[pos] == '{' {
        return Letter('{', 2);
      }
      var closed, body, after := CollectBody(template, pos);
      if !closed {
        return Bad(UnmatchedBrace);
      }
      var p := ParsePlaceholder(body);
      if p.Err? {
        return Bad(p.error);
      }
      return Hole(p.value, after - start);
    } else if ch == '}' {
      if pos < |template| && template[pos] == '}' {
        return Letter('}', 2);
      }
      return Bad(UnmatchedBrace);
    }
    return Letter(ch, 1);
  }

  method ParseTemplate(template: string) returns (r: Result<seq<Segment>>)
    ensures r == Parse(template, "")
  {
    hide Scan;
    var segments: seq<Segment> := [];
    var literal := "";
    var pos := 0;
    ghost var goal := Parse(template, "");
    assert template[0..] == template;
    PrependNothing(goal);
    while pos < |template|
      invariant 0 <= pos <= |template|
      invariant goal == Prepend(segments, Parse(template[pos..], literal))
    {
      var piece := ScanAt(template, pos);
      match piece {
        case Bad(error) =>
          return Err(error);
        case Letter(c, n) =>
          assert template[pos..][n..] == template[pos + n..];
          literal := literal + [c];
          pos := pos + n;
        case Hole(p, n) =>
          assert template[pos..][n..] == template[pos + n..];
          PrependTwice(segments, Flush(literal) + [Slot(p)], Parse(template[pos + n..], ""));
          segments := segments + (Flush(literal) + [Slot(p)]);
          literal := "";
          pos := pos + n;
      }
    }
    assert template[pos..] == "";
    r := Ok(segments + Flush(literal));
  }

  lemma PrependNothing(r: Result<seq<Segment>>)
    ensures Prepend([], r) == r
  {
    if r.Ok? {
      assert [] + r.value == r.value;
    }
  }

  lemma PrependTwice(x: seq<Segment>, y: seq<Segment>, r: Result<seq<Segment>>)
    ensures Prepend(x + y, r) == Prepend(x, Prepend(y, r))
  {
    if r.Ok? {
      assert x + y + r.value == x + (y + r.value);
    }
  }

  // ----- required arguments -----

  /** Arguments a template consumes automatically. */
  function AutoCount(segments: seq<Segment>): nat
  {
    if segments == [] then 0 else
      var last := segments[|segments| - 1];
      AutoCount(segments[..|segments| - 1]) + if last.Slot? && last.placeholder.position.None? then 1 else 0
  }

  /** The largest `position + 1`, computed in machine words. */
  function ExplicitRequired(segments: seq<Segment>): nat
  {
    if segments == [] then 0 else
      var front, last := ExplicitRequired(segments[..|segments| - 1]), segments[|segments| - 1];
      if last.Slot? && last.placeholder.position.Some? then Max(front, (last.placeholder.position.value + 1) % USIZE)
      else front
  }

  function Max(a: nat, b: nat): nat
  {
    if a < b then b else a
  }

  method RequiredArgCount(segments: seq<Segment>) returns (n: nat)
    ensures n == Max(AutoCount(segments), ExplicitRequired(segments))
  {
    var autoCount, explicitRequired := 0, 0;
    assert segments[..0] == [];
    for i := 0 to |segments|
      invariant autoCount == AutoCount(segments[..i])
      invariant explicitRequired == ExplicitRequired(segments[..i])
    {
      assert segments[..i + 1][..i] == segments[..i];
      if segments[i].Literal? {
        continue;
      }
      var placeholder := segments[i].placeholder;
      if placeholder.position.Some? {
        explicitRequired := Max(explicitRequired, (placeholder.position.value + 1) % USIZE);
      } else {
        autoCount := autoCount + 1;
      }
    }
    assert segments[..|segments|] == segments;
    n := Max(autoCount, explicitRequired);
  }
}
