/**
  The batching loops round by round, for all limits: the two programs stay in step even when
  they never stop, and the Python program, which also takes negative limits, stops exactly
  when both are positive or there is no work.
 */
module BatchingLimits {
  import opened Options
  import opened Batching
  import opened BatchingTheorems

  // ----- both programs, round by round -----

  datatype Progress = Running(load: Load) | Stopped(load: Load) | Broke

  /** The loop after at most `k` rounds. */
  function Rounds(p: Params, h: Host, s: Load, k: nat): Progress
    requires Good(p, s)
    decreases k
  {
    if s.finished >= |p.arrivals| then Stopped(s)
    else if RoundFails(p, h, s) then Broke
    else if k == 0 then Running(s)
    else
      RoundConserves(p, h, s);
      Rounds(p, h, Round(p, h, s), k - 1)
  }

  /** After any number of rounds, with any limits, the programs are in the same state. */
  lemma {:induction false} ProgramsInStep(p: Params, s: Load, k: nat)
    requires Good(p, s) && forall ids, step :: FitI64(p.decode(ids, step))
    ensures Rounds(p, RustHost(), s, k) == Rounds(p, PythonHost(), s, k)
    decreases k
  {
    hide Round, RoundFails, FitI64, PythonHost, RustHost;
    RoundsAgree(p, s);
    if s.finished < |p.arrivals| && !RoundFails(p, PythonHost(), s) && k > 0 {
      RoundConserves(p, PythonHost(), s);
      ProgramsInStep(p, Round(p, PythonHost(), s), k - 1);
    }
  }

  // ----- the Python program with any integer limits -----

  datatype Job = Job(arrivals: seq<Arrival>, maxBatch: int, maxNew: int, decode: (seq<int>, nat) -> seq<int>)

  function Clip(n: int, lo: int, hi: int): int
  {
    if n < lo then lo else if n > hi then hi else n
  }

  /** Where a Python slice bound falls in a list of this length. */
  function Bound(n: int, length: nat): (b: nat)
    ensures b <= length
  {
    if n < 0 then Clip(length + n, 0, length) else Clip(n, 0, length)
  }

  /** The limits as the admission loop and the token loop use them. */
  function Clipped(j: Job): Params
  {
    Params(j.arrivals, if j.maxBatch < 0 then 0 else j.maxBatch, if j.maxNew < 0 then 0 else j.maxNew, j.decode)
  }

  /** One round of the Python loop; None is the RuntimeError. */
  function PythonRound(j: Job, s: Load): Option<Load>
    requires s.idx <= |j.arrivals|
  {
    var a := Admit(Clipped(j), s);
    if a.active == [] then Some(a.(step := a.step + 1))
    else
      var batch := a.active[..Bound(j.maxBatch, |a.active|)];
      var tokens := j.decode(IdsOf(batch), a.step);
      var consumed := if j.maxBatch < |a.active| then j.maxBatch else |a.active|;
      var decoded := a.active[..Clip(consumed, 0, |a.active|)];
      if |tokens| != |batch| then None
      else
        var rest := Unfinished(decoded);
        var kept := if consumed < |a.active| then a.active[Bound(consumed, |a.active|)..] else [];
        Some(Load(a.idx, rest + kept, a.finished + |decoded| - |rest|,
                  if j.maxBatch < 0 then a.checksum else Summed(PythonHost(), a.checksum, decoded, tokens, a.step),
                  a.tokens + |decoded|, a.step + 1, a.emitted + IdsOf(decoded),
                  if j.maxBatch < 0 then a.calls else a.calls + [Call(a.step, a.active, tokens)]))
  }

  /** With limits that are not negative this is the round of the shared model. */
  lemma RoundIsShared(j: Job, s: Load)
    requires s.idx <= |j.arrivals| && j.maxBatch >= 0
    ensures PythonRound(j, s).None? <==> RoundFails(Clipped(j), PythonHost(), s)
    ensures PythonRound(j, s).Some? ==> PythonRound(j, s).value == Round(Clipped(j), PythonHost(), s)
  {
    hide Summed, Unfinished, Requests, IdsOf, Admissible;
    var p := Clipped(j);
    var a := Admit(p, s);
    assert Bound(j.maxBatch, |a.active|) == Consumed(p, a.active);
    assert a.active[|a.active|..] == [];
  }

  ghost predicate PythonStops(j: Job, s: Load, k: nat)
    requires s.idx <= |j.arrivals|
    decreases k
  {
    || s.finished >= |j.arrivals|
    || PythonRound(j, s).None?
    || (k > 0 && PythonStops(j, PythonRound(j, s).value, k - 1))
  }

  lemma {:induction false} SharedStops(j: Job, s: Load, k: nat)
    requires Good(Clipped(j), s) && j.maxBatch >= 0
    ensures PythonStops(j, s, k) <==> StopsWithin(Clipped(j), PythonHost(), s, k)
    decreases k
  {
    hide PythonRound, Round, RoundFails;
    RoundIsShared(j, s);
    if k > 0 && PythonRound(j, s).Some? {
      RoundConserves(Clipped(j), PythonHost(), s);
      SharedStops(j, PythonRound(j, s).value, k - 1);
    }
  }

  /** With a negative batch limit nothing is decoded, so nothing is ever finished. */
  lemma {:induction false} NegativeNeverStops(j: Job, s: Load, k: nat)
    requires s.idx <= |j.arrivals| && s.finished < |j.arrivals| && j.maxBatch < 0
    requires forall ids, step :: |j.decode(ids, step)| == |ids|
    ensures !PythonStops(j, s, k)
    decreases k
  {
    NegativeRound(j, s);
    hide PythonRound;
    if k > 0 {
      NegativeNeverStops(j, PythonRound(j, s).value, k - 1);
    }
  }

  lemma NegativeRound(j: Job, s: Load)
    requires s.idx <= |j.arrivals| && j.maxBatch < 0 && forall ids, step :: |j.decode(ids, step)| == |ids|
    ensures PythonRound(j, s).Some? && PythonRound(j, s).value.finished == s.finished
    ensures PythonRound(j, s).value.tokens == s.tokens
  {
    hide Requests, IdsOf, Admissible;
    assert Unfinished([]) == [];
  }

  /** For all integer limits and a kernel that answers: the loop stops iff it has no work or both limits are positive. */
  lemma PythonStopsIff(j: Job)
    requires forall ids, step :: |j.decode(ids, step)| == |ids|
    ensures (exists k :: PythonStops(j, START, k)) <==> j.arrivals == [] || (j.maxBatch > 0 && j.maxNew > 0)
  {
    hide PythonRound;
    if j.maxBatch < 0 {
      forall k: nat
        ensures PythonStops(j, START, k) <==> j.arrivals == []
      {
        if j.arrivals != [] {
          NegativeNeverStops(j, START, k);
        }
      }
      assert j.arrivals == [] ==> PythonStops(j, START, 0);
    } else {
      hide PythonStops;
      forall k: nat
        ensures PythonStops(j, START, k) <==> StopsWithin(Clipped(j), PythonHost(), START, k)
      {
        SharedStops(j, START, k);
      }
      StopsIff(Clipped(j), PythonHost());
      SameStops(j);
    }
  }

  lemma SameStops(j: Job)
    requires forall k: nat :: PythonStops(j, START, k) <==> StopsWithin(Clipped(j), PythonHost(), START, k)
    ensures (exists k :: PythonStops(j, START, k)) <==> (exists k :: StopsWithin(Clipped(j), PythonHost(), START, k))
  {
    hide PythonStops, StopsWithin;
    if k: nat :| PythonStops(j, START, k) {
      assert StopsWithin(Clipped(j), PythonHost(), START, k);
      assert exists k :: StopsWithin(Clipped(j), PythonHost(), START, k);
    }
    if k: nat :| StopsWithin(Clipped(j), PythonHost(), START, k) {
      assert PythonStops(j, START, k);
      assert exists k :: PythonStops(j, START, k);
    }
  }
}
