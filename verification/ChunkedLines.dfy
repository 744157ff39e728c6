/**
  The size lines of the chunked decoder, described without its parser: white space, an
  optional plus sign, hexadecimal digits, white space, and then the end or a semicolon.
  Section 7.1 of RFC 9112 allows only digits and, after a semicolon, well-formed extensions.
 */
module ChunkedLines {
  import opened Options
  import opened Words
  import opened Chunked
  import opened ChunkedText

  predicate Blank(t: seq<int>)
  {
    forall k :: 0 <= k < |t| ==> t[k] in WHITE_SPACE
  }

  predicate Spells(before: seq<int>, sign: seq<int>, digits: seq<int>, after: seq<int>, rest: seq<int>, n: nat)
  {
    && Blank(before) && (sign == [] || sign == [0x2b]) && Hexadecimal(digits) && Blank(after)
    && (rest == [] || rest[0] == 0x3b) && NumberOf(digits) == n < USIZE
  }

  /** The line is text that spells the number. */
  ghost predicate Announces(line: seq<byte>, n: nat)
  {
    exists before, sign, digits, after, rest ::
      Spells(before, sign, digits, after, rest, n) && IsEncoded(line, before + sign + digits + after + rest)
  }

  ghost predicate IsEncoded(line: seq<byte>, t: seq<int>)
  {
    Text(t) && EncodeText(t) == line
  }

  // ----- from the text to the number -----

  lemma {:induction false} SemicolonEnds(t: seq<int>, rest: seq<int>)
    requires (forall k :: 0 <= k < |t| ==> t[k] != 0x3b) && (rest == [] || rest[0] == 0x3b)
    ensures BeforeSemicolon(t + rest) == t
    decreases |t|
  {
    if t == [] {
      assert t + rest == rest;
    } else {
      SemicolonEnds(t[1..], rest);
      assert (t + rest)[1..] == t[1..] + rest;
    }
  }

  lemma {:induction false} TrimBefore(before: seq<int>, t: seq<int>)
    requires Blank(before) && t != [] && !IsSpace(t[0])
    ensures TrimStart(before + t) == t
    decreases |before|
  {
    hide IsSpace, WHITE_SPACE;
    if before == [] {
      assert before + t == t;
    } else {
      TrimBefore(before[1..], t);
      SpaceIff(before[0]);
      assert (before + t)[1..] == before[1..] + t;
    }
  }

  lemma {:induction false} TrimAfter(t: seq<int>, after: seq<int>)
    requires Blank(after) && t != [] && !IsSpace(t[|t| - 1])
    ensures TrimEnd(t + after) == t
    decreases |after|
  {
    if after == [] {
      assert t + after == t;
    } else {
      var n := |after| - 1;
      TrimAfter(t, after[..n]);
      SpaceIff(after[n]);
      assert (t + after)[..|t + after| - 1] == t + after[..n];
    }
  }

  lemma SignedNumber(sign: seq<int>, digits: seq<int>)
    requires (sign == [] || sign == [0x2b]) && Hexadecimal(digits) && NumberOf(digits) < USIZE
    ensures FromHex(sign + digits) == Some(NumberOf(digits))
  {
    NumberNatural(digits);
    DigitsIff(digits, NumberOf(digits));
    hide Digits, NumberOf;
    if sign == [] {
      assert sign + digits == digits && digits[0] != 0x2b;
    } else {
      assert (sign + digits)[1..] == digits;
    }
  }

  /** Neither end of a signed number is white space, and it holds no semicolon. */
  lemma SignedEnds(sign: seq<int>, digits: seq<int>)
    requires (sign == [] || sign == [0x2b]) && Hexadecimal(digits)
    ensures var word := sign + digits;
            word != [] && !IsSpace(word[0]) && !IsSpace(word[|word| - 1]) && forall k :: 0 <= k < |word| ==> word[k] != 0x3b
  {
    var word := sign + digits;
    assert word[|word| - 1] == digits[|digits| - 1];
  }

  lemma NoSemicolon(before: seq<int>, word: seq<int>, after: seq<int>)
    requires Blank(before) && Blank(after) && forall k :: 0 <= k < |word| ==> word[k] != 0x3b
    ensures var t := before + (word + after); forall k :: 0 <= k < |t| ==> t[k] != 0x3b
  {
    assert forall k :: 0 <= k < |before| ==> before[k] != 0x3b;
    assert forall k :: 0 <= k < |after| ==> after[k] != 0x3b;
  }

  lemma SpelledNumber(before: seq<int>, sign: seq<int>, digits: seq<int>, after: seq<int>, rest: seq<int>, n: nat)
    requires Spells(before, sign, digits, after, rest, n)
    ensures FromHex(TrimEnd(TrimStart(BeforeSemicolon(before + sign + digits + after + rest)))) == Some(n)
  {
    hide BeforeSemicolon, TrimStart, TrimEnd, FromHex, Blank, Hexadecimal, IsSpace, NumberOf;
    var word := sign + digits;
    SignedEnds(sign, digits);
    NoSemicolon(before, word, after);
    assert before + sign + digits + after + rest == before + (word + after) + rest;
    SemicolonEnds(before + (word + after), rest);
    assert (word + after)[0] == word[0];
    TrimBefore(before, word + after);
    TrimAfter(word, after);
    SignedNumber(sign, digits);
  }

  // ----- from the number to the text -----

  lemma {:induction false} CutSemicolon(t: seq<int>) returns (rest: seq<int>)
    ensures t == BeforeSemicolon(t) + rest && (rest == [] || rest[0] == 0x3b)
    decreases |t|
  {
    if t == [] || t[0] == 0x3b {
      rest := t;
    } else {
      rest := CutSemicolon(t[1..]);
      assert t == [t[0]] + t[1..];
    }
  }

  lemma {:induction false} CutStart(t: seq<int>) returns (before: seq<int>)
    ensures Blank(before) && t == before + TrimStart(t)
    decreases |t|
  {
    before := [];
    if t != [] && IsSpace(t[0]) {
      var more := CutStart(t[1..]);
      before := [t[0]] + more;
      SpaceIff(t[0]);
      assert t == [t[0]] + t[1..];
    }
  }

  lemma {:induction false} CutEnd(t: seq<int>) returns (after: seq<int>)
    ensures Blank(after) && t == TrimEnd(t) + after
    decreases |t|
  {
    after := [];
    if t != [] && IsSpace(t[|t| - 1]) {
      var n := |t| - 1;
      var more := CutEnd(t[..n]);
      after := more + [t[n]];
      SpaceIff(t[n]);
      assert t == t[..n] + [t[n]];
    }
  }

  lemma CutSign(word: seq<int>, n: nat) returns (sign: seq<int>, digits: seq<int>)
    requires FromHex(word) == Some(n)
    ensures (sign == [] || sign == [0x2b]) && Hexadecimal(digits) && NumberOf(digits) == n < USIZE && word == sign + digits
  {
    sign := if word != [] && word[0] == 0x2b then [0x2b] else [];
    digits := word[|sign|..];
    DigitsIff(digits, n);
    hide Digits, NumberOf;
    assert word == sign + digits;
  }

  lemma NumberSpelled(t: seq<int>, n: nat) returns (before: seq<int>, sign: seq<int>, digits: seq<int>, after: seq<int>, rest: seq<int>)
    requires FromHex(TrimEnd(TrimStart(BeforeSemicolon(t)))) == Some(n)
    ensures Spells(before, sign, digits, after, rest, n) && t == before + sign + digits + after + rest
  {
    hide BeforeSemicolon, TrimStart, TrimEnd, FromHex, Blank, Hexadecimal, IsSpace, NumberOf;
    rest := CutSemicolon(t);
    before := CutStart(BeforeSemicolon(t));
    after := CutEnd(TrimStart(BeforeSemicolon(t)));
    sign, digits := CutSign(TrimEnd(TrimStart(BeforeSemicolon(t))), n);
    assert before + (sign + digits + after) + rest == before + sign + digits + after + rest;
  }

  /** The decoder reads a size from exactly the lines of this shape. */
  lemma SizeIff(line: seq<byte>, n: nat)
    ensures SizeOf(line) == Some(n) <==> Announces(line, n)
  {
    hide Utf8, BeforeSemicolon, TrimStart, TrimEnd, FromHex, Spells, EncodeText, Text;
    if SizeOf(line) == Some(n) {
      var before, sign, digits, after, rest := NumberSpelled(Utf8(line).value, n);
      Utf8Iff(line, Utf8(line).value);
      assert IsEncoded(line, before + sign + digits + after + rest);
    }
    if Announces(line, n) {
      var before, sign, digits, after, rest :|
        Spells(before, sign, digits, after, rest, n) && IsEncoded(line, before + sign + digits + after + rest);
      Utf8Iff(line, before + sign + digits + after + rest);
      SpelledNumber(before, sign, digits, after, rest, n);
    }
  }
}
