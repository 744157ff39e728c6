/**
  What the anchors of a pattern do. The matcher looks for a prefix of the text, whether or
  not the pattern begins with a caret or ends in a dollar sign. The theorems say exactly for
  which patterns that is what the anchors promise.
 */
module RegexAnchors {
  import opened Words
  import opened Regex

  // ----- the shortest word of a pattern -----

  predicate AllAny(ts: seq<Token>)
  {
    forall i :: 0 <= i < |ts| ==> ts[i].Any?
  }

  /** Runs are empty and every free byte is `f`. */
  function Word(ts: seq<Token>, f: byte): (w: seq<byte>)
    ensures |w| <= |ts|
  {
    if ts == [] then [] else
      (match ts[0] case Byte(value) => [value] case Any => [f] case AnyRun => []) + Word(ts[1..], f)
  }

  lemma {:induction false} WordDenoted(ts: seq<Token>, f: byte)
    ensures Denotes(ts, Word(ts, f))
    decreases |ts|
  {
    if ts != [] {
      var w := Word(ts, f);
      WordDenoted(ts[1..], f);
      if ts[0].AnyRun? {
        assert w[0..] == Word(ts[1..], f);
      } else {
        assert w[1..] == Word(ts[1..], f);
      }
    }
  }

  /** The matcher accepts that word, and any text it begins, with one step a token. */
  lemma {:induction false} WordAccepted(p: seq<byte>, f: byte, rest: seq<byte>)
    ensures Unlimited(p, Word(Tokens(p), f) + rest) == Full(true, |Tokens(p)|) && |Tokens(p)| <= |p|
    decreases |p|
  {
    if p != [] && p != [DOLLAR] {
      var k, ts := Width(p), Tokens(p);
      WordAccepted(p[k..], f, rest);
      TokensStep(p);
      UnlimitedStep(p, Word(ts, f) + rest);
      if p[0] != CARET {
        assert ts[1..] == Tokens(p[k..]);
        WordStep(ts, f, rest);
      }
      hide Tokens, Unlimited, Word;
    }
  }

  lemma WordStep(ts: seq<Token>, f: byte, rest: seq<byte>)
    requires ts != []
    ensures var t, u := Word(ts, f) + rest, Word(ts[1..], f) + rest;
            && (ts[0].AnyRun? ==> t == u)
            && (!ts[0].AnyRun? ==> t != [] && t[1..] == u && (ts[0].Byte? ==> t[0] == ts[0].value))
  {
    var w := Word(ts[1..], f);
    assert ts[0].AnyRun? ==> Word(ts, f) == w;
    assert ts[0].Byte? ==> Word(ts, f) == [ts[0].value] + w;
    assert ts[0].Any? ==> Word(ts, f) == [f] + w;
    hide Word;
  }

  /** The matcher at the first token of a pattern, when the rest is accepted at once. */
  lemma UnlimitedStep(p: seq<byte>, t: seq<byte>)
    requires p != [] && p != [DOLLAR]
    ensures p[0] == CARET ==> Unlimited(p, t) == Unlimited(p[1..], t)
    ensures p[0] != CARET ==> Tokens(p) != []
    ensures p[0] != CARET && Tokens(p)[0].AnyRun? && Unlimited(p[2..], t).yes ==>
              Width(p) == 2 && Unlimited(p, t) == Spend(Unlimited(p[2..], t))
    ensures p[0] != CARET && !Tokens(p)[0].AnyRun? && t != [] && (Tokens(p)[0].Byte? ==> t[0] == Tokens(p)[0].value) ==>
              Unlimited(p, t) == Spend(Unlimited(p[Width(p)..], t[1..]))
  {
    assert t[0..] == t;
  }

  /** How many bytes of the pattern its first token takes. */
  function Width(p: seq<byte>): (k: nat)
    requires p != []
    ensures 0 < k <= |p|
  {
    if |p| > 1 && ((p[0] == DOT && p[1] == STAR) || p[0] == BACKSLASH) then 2 else 1
  }

  lemma TokensStep(p: seq<byte>)
    requires p != [] && p != [DOLLAR]
    ensures p[0] == CARET ==> Tokens(p) == Tokens(p[1..])
    ensures p[0] != CARET ==> Tokens(p) == [Tokens(p)[0]] + Tokens(p[Width(p)..])
  {
  }

  // ----- the end of the text -----

  /** The last token that is not a single free byte is a run. */
  predicate EndsOpen(ts: seq<Token>)
  {
    ts != [] && (EndsOpen(ts[1..]) || (ts[0].AnyRun? && AllAny(ts[1..])))
  }

  lemma {:induction false} AllAnyDenotes(ts: seq<Token>, w: seq<byte>)
    requires AllAny(ts)
    ensures Denotes(ts, w) <==> |w| == |ts|
    decreases |ts|
  {
    if ts != [] && w != [] {
      AllAnyDenotes(ts[1..], w[1..]);
    }
  }

  lemma OpenRun(ts: seq<Token>, w: seq<byte>)
    requires ts != [] && ts[0].AnyRun? && AllAny(ts[1..])
    ensures Denotes(ts, w) <==> |w| >= |ts| - 1
  {
    if Denotes(ts, w) {
      var i :| 0 <= i <= |w| && Denotes(ts[1..], w[i..]);
      AllAnyDenotes(ts[1..], w[i..]);
    }
    if |w| >= |ts| - 1 {
      var i := |w| - (|ts| - 1);
      AllAnyDenotes(ts[1..], w[i..]);
      assert 0 <= i <= |w| && Denotes(ts[1..], w[i..]);
    }
  }

  /** An open end takes one more byte. */
  lemma {:induction false} OpenAbsorbs(ts: seq<Token>, w: seq<byte>, b: byte)
    requires EndsOpen(ts) && Denotes(ts, w)
    ensures Denotes(ts, w + [b])
    decreases |ts|
  {
    if ts[0].AnyRun? && AllAny(ts[1..]) {
      hide Denotes;
      OpenRun(ts, w);
      OpenRun(ts, w + [b]);
    } else if ts[0].AnyRun? {
      var i :| 0 <= i <= |w| && Denotes(ts[1..], w[i..]);
      OpenAbsorbs(ts[1..], w[i..], b);
      assert (w + [b])[i..] == w[i..] + [b];
    } else {
      OpenAbsorbs(ts[1..], w[1..], b);
      assert (w + [b])[1..] == w[1..] + [b];
    }
  }

  lemma {:induction false} OpenTakesAll(ts: seq<Token>, t: seq<byte>, k: nat)
    requires EndsOpen(ts) && k <= |t| && Denotes(ts, t[..k])
    ensures Denotes(ts, t)
    decreases |t| - k
  {
    hide Denotes, EndsOpen;
    if k == |t| {
      assert t[..k] == t;
    } else {
      OpenAbsorbs(ts, t[..k], t[k]);
      assert t[..k] + [t[k]] == t[..k + 1];
      OpenTakesAll(ts, t, k + 1);
    }
  }

  /** The free bytes after the last token that is not one. */
  function Trail(ts: seq<Token>): (n: nat)
    ensures n <= |ts|
  {
    if AllAny(ts) then |ts| else Trail(ts[1..])
  }

  /** The byte a closed pattern ends in, before its free bytes. */
  function LastByte(ts: seq<Token>): byte
  {
    if AllAny(ts) then 0 else if AllAny(ts[1..]) && ts[0].Byte? then ts[0].value else LastByte(ts[1..])
  }

  lemma {:induction false} ClosedEnd(ts: seq<Token>, w: seq<byte>)
    requires !EndsOpen(ts) && !AllAny(ts) && Denotes(ts, w)
    ensures |w| > Trail(ts) && w[|w| - 1 - Trail(ts)] == LastByte(ts)
    decreases |ts|
  {
    var rest := ts[1..];
    if AllAny(rest) {
      assert ts[0].Byte?;
      AllAnyDenotes(rest, w[1..]);
      assert Trail(ts) == |rest|;
    } else if ts[0].AnyRun? {
      var i :| 0 <= i <= |w| && Denotes(rest, w[i..]);
      ClosedEnd(rest, w[i..]);
    } else {
      ClosedEnd(rest, w[1..]);
    }
  }

  lemma {:induction false} WordTail(ts: seq<Token>, f: byte, j: nat)
    requires j < Trail(ts)
    ensures |Word(ts, f)| >= Trail(ts) && Word(ts, f)[|Word(ts, f)| - 1 - j] == f
    decreases |ts|
  {
    var rest := ts[1..];
    if AllAny(ts) {
      assert AllAny(rest);
      if j < |rest| {
        WordTail(rest, f, j);
      }
      WordOfAny(rest, f);
    } else {
      WordTail(rest, f, j);
    }
  }

  lemma {:induction false} WordOfAny(ts: seq<Token>, f: byte)
    requires AllAny(ts)
    ensures |Word(ts, f)| == |ts|
    decreases |ts|
  {
    if ts != [] {
      WordOfAny(ts[1..], f);
    }
  }

  function Other(b: byte): byte
  {
    if b == 0 then 1 else 0
  }

  /** A text that begins with a word of the pattern and is none itself. */
  function Overrun(ts: seq<Token>): seq<byte>
  {
    var f := Other(LastByte(ts));
    Word(ts, f) + [f]
  }

  lemma OverrunIsNone(ts: seq<Token>)
    requires !EndsOpen(ts)
    ensures !Denotes(ts, Overrun(ts))
  {
    var f, w := Other(LastByte(ts)), Overrun(ts);
    if AllAny(ts) {
      WordOfAny(ts, f);
      AllAnyDenotes(ts, w);
    } else if Denotes(ts, w) {
      ClosedEnd(ts, w);
      if Trail(ts) > 0 {
        WordTail(ts, f, Trail(ts) - 1);
      }
    }
  }

  /** A prefix match is a match of the whole text exactly when the pattern ends open. */
  lemma WholeIff(ts: seq<Token>)
    ensures (forall t :: PrefixMatch(ts, t) <==> Denotes(ts, t)) <==> EndsOpen(ts)
  {
    hide Denotes, EndsOpen, Word;
    if EndsOpen(ts) {
      forall t
        ensures PrefixMatch(ts, t) <==> Denotes(ts, t)
      {
        OpenWhole(ts, t);
      }
    } else {
      var f, t := Other(LastByte(ts)), Overrun(ts);
      OverrunIsNone(ts);
      WordDenoted(ts, f);
      assert t[..|Word(ts, f)|] == Word(ts, f);
      assert PrefixMatch(ts, t);
    }
  }

  lemma OpenWhole(ts: seq<Token>, t: seq<byte>)
    requires EndsOpen(ts)
    ensures PrefixMatch(ts, t) <==> Denotes(ts, t)
  {
    hide Denotes, EndsOpen;
    if PrefixMatch(ts, t) {
      var k :| 0 <= k <= |t| && Denotes(ts, t[..k]);
      OpenTakesAll(ts, t, k);
    }
    if Denotes(ts, t) {
      assert t[..|t|] == t;
    }
  }

  /** Whenever it answers, the matcher says whether the whole text is a word of the pattern. */
  ghost predicate DecidesWhole(p: seq<byte>)
  {
    forall t :: MatchAt(p, t, 0).verdict != Exhausted ==>
      (MatchAt(p, t, 0).verdict == Yes <==> Denotes(Tokens(p), t))
  }

  /** For every pattern that compiles: a final dollar sign means the end of the text exactly when the pattern ends open. */
  lemma DollarIff(p: seq<byte>)
    requires |p| <= MAX_PATTERN
    ensures DecidesWhole(p) <==> EndsOpen(Tokens(p))
  {
    hide MatchAt, Denotes, EndsOpen, Tokens, PrefixMatch;
    var ts := Tokens(p);
    if EndsOpen(ts) {
      forall t
        ensures MatchAt(p, t, 0).verdict != Exhausted ==> (MatchAt(p, t, 0).verdict == Yes <==> Denotes(ts, t))
      {
        VerdictCorrect(p, t, 0);
        OpenWhole(ts, t);
      }
    } else {
      OverrunAccepted(p);
      OverrunIsNone(ts);
    }
  }

  lemma OverrunAccepted(p: seq<byte>)
    requires |p| <= MAX_PATTERN
    ensures MatchAt(p, Overrun(Tokens(p)), 0).verdict == Yes
  {
    hide MatchAt, Unlimited, Tokens, Word;
    var f := Other(LastByte(Tokens(p)));
    WordAccepted(p, f, [f]);
    BudgetExact(p, Overrun(Tokens(p)), 0);
  }

  /** The pattern `a$` accepts the text `ab`. */
  lemma DollarWitness()
    ensures Tokens([97, DOLLAR]) == [Byte(97)] && MatchAt([97, DOLLAR], [97, 98], 0).verdict == Yes
    ensures !Denotes([Byte(97)], [97, 98])
  {
    var p, t := [97, DOLLAR], [97, 98];
    assert p[1..] == [DOLLAR] && t[1..] == [98];
    assert Tokens(p) == [Byte(97)] + Tokens([DOLLAR]);
    assert MatchAt(p, t, 0) == MatchAt([DOLLAR], [98], 1);
    assert [Byte(97)][1..] == [] && !Denotes([], t[1..]);
  }

  // ----- appending a dollar sign -----

  /** What the last byte of a pattern is to the matcher. */
  datatype Ending = Clean | Anchor | Dangling

  function EndingOf(p: seq<byte>): Ending
    decreases |p|
  {
    if p == [] then Clean
    else if p == [DOLLAR] then Anchor
    else if p == [BACKSLASH] then Dangling
    else EndingOf(p[Width(p)..])
  }

  function Last(ts: seq<Token>): Token
  {
    if ts == [] then Any else ts[|ts| - 1]
  }

  /**
    One more dollar sign: ignored after a clean end, a literal for the one before it after an
    anchor, and escaped after a dangling backslash.
   */
  lemma {:induction false} DollarAppended(p: seq<byte>)
    ensures EndingOf(p) == Clean ==> Tokens(p + [DOLLAR]) == Tokens(p)
    ensures EndingOf(p) == Anchor ==> Tokens(p + [DOLLAR]) == Tokens(p) + [Byte(DOLLAR)]
    ensures EndingOf(p) == Dangling ==>
      Last(Tokens(p)) == Byte(BACKSLASH) && Tokens(p) != []
      && Tokens(p + [DOLLAR]) == Tokens(p)[..|Tokens(p)| - 1] + [Byte(DOLLAR)]
    decreases |p|
  {
    if p == [] {
      assert p + [DOLLAR] == [DOLLAR];
    } else if p == [DOLLAR] || p == [BACKSLASH] {
      DollarAfterOne(p[0]);
    } else {
      var k, q := Width(p), p + [DOLLAR];
      DollarAppended(p[k..]);
      TokensStep(p);
      TokensStep(q);
      SameFirst(p);
      assert q[k..] == p[k..] + [DOLLAR];
      hide Tokens;
      LastOfRest(Tokens(p), Tokens(p[k..]));
    }
  }

  lemma DollarAfterOne(b: byte)
    requires b == DOLLAR || b == BACKSLASH
    ensures Tokens([b]) == (if b == DOLLAR then [] else [Byte(BACKSLASH)])
    ensures Tokens([b] + [DOLLAR]) == [Byte(DOLLAR)]
  {
    var q := [b] + [DOLLAR];
    assert q[1..] == [DOLLAR] && q[2..] == [] && [b][1..] == [];
    assert Tokens([DOLLAR]) == [] && Tokens([]) == [];
  }

  lemma SameFirst(p: seq<byte>)
    requires p != [] && p != [DOLLAR] && p != [BACKSLASH]
    ensures Width(p + [DOLLAR]) == Width(p)
    ensures p[0] != CARET ==> Tokens(p) != [] && Tokens(p + [DOLLAR]) != [] && Tokens(p + [DOLLAR])[0] == Tokens(p)[0]
  {
  }

  lemma LastOfRest(ts: seq<Token>, rest: seq<Token>)
    requires ts == rest || (ts != [] && ts == [ts[0]] + rest)
    ensures rest != [] ==> Last(ts) == Last(rest) && ts[..|ts| - 1] == ts[..|ts| - |rest|] + rest[..|rest| - 1]
  {
  }

  // ----- the start of the text -----

  /** No byte is fixed before the first run. */
  predicate StartsOpen(ts: seq<Token>)
  {
    ts == [] || ts[0].AnyRun? || (ts[0].Any? && StartsOpen(ts[1..]))
  }

  /** An open start skips one more byte. */
  lemma {:induction false} StartSkips(ts: seq<Token>, t: seq<byte>, b: byte)
    requires StartsOpen(ts) && PrefixMatch(ts, t)
    ensures PrefixMatch(ts, [b] + t)
    decreases |ts|
  {
    hide PrefixMatch, MatchFrom;
    var u := [b] + t;
    assert u[1..] == t;
    if ts == [] {
      MatchNothing(u);
    } else if ts[0].AnyRun? {
      MatchRun(ts, t);
      MatchRun(ts, u);
      LaterStart(ts[1..], t, b);
    } else {
      MatchOne(ts, t);
      MatchOne(ts, u);
      StartSkips(ts[1..], t[1..], t[0]);
      assert [t[0]] + t[1..] == t;
    }
  }

  lemma LaterStart(ts: seq<Token>, t: seq<byte>, b: byte)
    requires MatchFrom(ts, t, 0)
    ensures MatchFrom(ts, [b] + t, 0)
  {
    hide PrefixMatch;
    var j :| 0 <= j <= |t| && PrefixMatch(ts, t[j..]);
    assert ([b] + t)[j + 1..] == t[j..];
  }

  lemma {:induction false} StartAnywhere(ts: seq<Token>, t: seq<byte>, j: nat)
    requires StartsOpen(ts) && j <= |t| && PrefixMatch(ts, t[j..])
    ensures PrefixMatch(ts, t)
    decreases j
  {
    hide PrefixMatch, StartsOpen;
    if j == 0 {
      assert t[0..] == t;
    } else {
      StartSkips(ts, t[j..], t[j - 1]);
      assert [t[j - 1]] + t[j..] == t[j - 1..];
      StartAnywhere(ts, t, j - 1);
    }
  }

  /** The free bytes before the first fixed one, and that byte. */
  function Lead(ts: seq<Token>): nat
  {
    if ts != [] && ts[0].Any? then 1 + Lead(ts[1..]) else 0
  }

  function FirstByte(ts: seq<Token>): byte
  {
    if ts == [] then 0 else match ts[0] case Byte(value) => value case _ => FirstByte(ts[1..])
  }

  /** Without the fixed byte in its place the matcher says no at once. */
  lemma {:induction false} ClosedStart(p: seq<byte>, t: seq<byte>)
    requires !StartsOpen(Tokens(p)) && Lead(Tokens(p)) < |t| && t[Lead(Tokens(p))] != FirstByte(Tokens(p))
    ensures Unlimited(p, t) == Full(false, Lead(Tokens(p)) + 1) && Lead(Tokens(p)) < |p|
    decreases |p|
  {
    TokensStep(p);
    if p[0] == CARET {
      ClosedStart(p[1..], t);
    } else {
      var ts := Tokens(p);
      assert ts[1..] == Tokens(p[Width(p)..]);
      if ts[0].Any? {
        ClosedStart(p[1..], t[1..]);
      }
    }
  }

  lemma {:induction false} WordLead(ts: seq<Token>, f: byte, j: nat)
    requires !StartsOpen(ts) && j < Lead(ts)
    ensures Lead(ts) < |Word(ts, f)| && Word(ts, f)[j] == f
    decreases |ts|
  {
    LeadFits(ts, f);
    if j > 0 {
      WordLead(ts[1..], f, j - 1);
    }
  }

  lemma {:induction false} LeadFits(ts: seq<Token>, f: byte)
    requires !StartsOpen(ts)
    ensures Lead(ts) < |Word(ts, f)|
    decreases |ts|
  {
    if ts[0].Any? {
      LeadFits(ts[1..], f);
    }
  }

  /** A text with a word of the pattern after its first byte, and none at its start. */
  function Offset(ts: seq<Token>): seq<byte>
  {
    var f := Other(FirstByte(ts));
    [f] + Word(ts, f)
  }

  lemma OffsetRefused(p: seq<byte>)
    requires |p| <= MAX_PATTERN && !StartsOpen(Tokens(p))
    ensures MatchAt(p, Offset(Tokens(p)), 0).verdict == No
  {
    var ts := Tokens(p);
    var f, t := Other(FirstByte(ts)), Offset(ts);
    LeadFits(ts, f);
    if Lead(ts) > 0 {
      WordLead(ts, f, Lead(ts) - 1);
    }
    hide MatchAt, Unlimited, Tokens, Word, StartsOpen;
    ClosedStart(p, t);
    BudgetExact(p, t, 0);
  }

  lemma OffsetFound(ts: seq<Token>)
    ensures MatchFrom(ts, Offset(ts), 0)
  {
    hide Word, Denotes;
    var f, t := Other(FirstByte(ts)), Offset(ts);
    WordDenoted(ts, f);
    assert t[1..] == Word(ts, f) && t[1..][..|t[1..]|] == t[1..];
    assert PrefixMatch(ts, t[1..]);
  }

  /** Whenever it answers, the matcher says whether the pattern occurs somewhere in the text. */
  ghost predicate DecidesSearch(p: seq<byte>)
  {
    forall t :: MatchAt(p, t, 0).verdict != Exhausted ==>
      (MatchAt(p, t, 0).verdict == Yes <==> MatchFrom(Tokens(p), t, 0))
  }

  /** For every pattern that compiles: a caret would make no difference exactly when the pattern starts open. */
  lemma CaretIff(p: seq<byte>)
    requires |p| <= MAX_PATTERN
    ensures DecidesSearch(p) <==> StartsOpen(Tokens(p))
    ensures forall t, steps :: MatchAt([CARET] + p, t, steps) == MatchAt(p, t, steps)
  {
    CaretSkipped(p);
    hide MatchAt, StartsOpen, Tokens, PrefixMatch;
    var ts := Tokens(p);
    if StartsOpen(ts) {
      forall t
        ensures MatchAt(p, t, 0).verdict != Exhausted ==> (MatchAt(p, t, 0).verdict == Yes <==> MatchFrom(ts, t, 0))
      {
        VerdictCorrect(p, t, 0);
        SearchIsPrefix(ts, t);
      }
    } else {
      OffsetRefused(p);
      OffsetFound(ts);
    }
  }

  lemma SearchIsPrefix(ts: seq<Token>, t: seq<byte>)
    requires StartsOpen(ts)
    ensures MatchFrom(ts, t, 0) <==> PrefixMatch(ts, t)
  {
    hide PrefixMatch, StartsOpen;
    if MatchFrom(ts, t, 0) {
      var j :| 0 <= j <= |t| && PrefixMatch(ts, t[j..]);
      StartAnywhere(ts, t, j);
    }
    if PrefixMatch(ts, t) {
      assert t[0..] == t;
    }
  }

  lemma CaretSkipped(p: seq<byte>)
    ensures forall t, steps :: MatchAt([CARET] + p, t, steps) == MatchAt(p, t, steps)
  {
    assert ([CARET] + p)[1..] == p;
  }
}
