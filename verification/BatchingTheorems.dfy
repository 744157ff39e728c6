/**
  What the batching loop guarantees: termination exactly for positive limits, conservation
  of tokens, tight bounds on its steps, and the agreement of the two programs.
 */
module BatchingTheorems {
  import opened Batching

  ghost predicate Positive(p: Params)
  {
    p.maxBatch > 0 && p.maxNew > 0
  }

  // ----- conservation -----

  lemma RoundConserves(p: Params, h: Host, s: Load)
    requires Good(p, s) && !RoundFails(p, h, s)
    ensures var t := Round(p, h, s);
            && Good(p, t)
            && t.tokens + Owed(Pending(p, t)) == s.tokens + Owed(Pending(p, s))
            && multiset(t.emitted) + OwedIds(Pending(p, t)) == multiset(s.emitted) + OwedIds(Pending(p, s))
  {
    hide Decodes, Owed, OwedIds, Pending, Good, Decode;
    AdmitKeeps(p, s);
    if Admit(p, s).active == [] {
      StepOnly(p, Admit(p, s));
    } else {
      DecodeKeeps(p, h, Admit(p, s));
    }
  }

  lemma StepOnly(p: Params, s: Load)
    requires Good(p, s)
    ensures Good(p, s.(step := s.step + 1)) && Pending(p, s.(step := s.step + 1)) == Pending(p, s)
  {
  }

  lemma {:induction false} RunConserves(p: Params, h: Host, s: Load)
    requires Good(p, s) && Positive(p) && Run(p, h, s).Ends?
    ensures var l := Run(p, h, s).load;
            && l.finished == |p.arrivals| && l.active == []
            && l.tokens == s.tokens + Owed(Pending(p, s))
            && multiset(l.emitted) == multiset(s.emitted) + OwedIds(Pending(p, s))
    decreases Owed(Pending(p, s)), Gap(p, s)
  {
    if s.finished < |p.arrivals| {
      hide Owed, OwedIds, Gap, Round, RoundFails, Run, Pending;
      RunStep(p, h, s);
      RoundConserves(p, h, s);
      RunConserves(p, h, Round(p, h, s));
    } else {
      assert Pending(p, s) == [];
    }
  }

  /** Every request is decoded exactly as often as it is long (at least once), and nothing else is. */
  lemma TokensConserved(p: Params, h: Host)
    requires Positive(p) && Run(p, h, START).Ends?
    ensures var l := Run(p, h, START).load;
            && l.tokens == Owed(Requests(p.arrivals)) == |l.emitted|
            && multiset(l.emitted) == OwedIds(Requests(p.arrivals))
  {
    RunConserves(p, h, START);
    assert Pending(p, START) == Requests(p.arrivals) by {
      assert p.arrivals[0..] == p.arrivals;
    }
    OwedIdsSize(Requests(p.arrivals));
    var l := Run(p, h, START).load;
    assert multiset(l.emitted) == OwedIds(Requests(p.arrivals));
    assert |multiset(l.emitted)| == |l.emitted|;
  }

  lemma {:induction false} OwedIdsSize(rs: seq<Request>)
    ensures |OwedIds(rs)| == Owed(rs)
    decreases |rs|
  {
    if rs != [] {
      OwedIdsSize(rs[..|rs| - 1]);
    }
  }

  /** With distinct ids: the request with id `x` is decoded exactly its own length. */
  lemma {:induction false} OwedToEach(rs: seq<Request>, k: nat)
    requires k < |rs| && forall i, j :: 0 <= i < j < |rs| ==> rs[i].id != rs[j].id
    ensures OwedIds(rs)[rs[k].id] == Need(rs[k].remaining)
    decreases |rs|
  {
    var n := |rs| - 1;
    if k < n {
      OwedToEach(rs[..n], k);
    } else {
      OwedToNone(rs[..n], rs[n].id);
    }
  }

  lemma {:induction false} OwedToNone(rs: seq<Request>, x: int)
    requires forall i :: 0 <= i < |rs| ==> rs[i].id != x
    ensures OwedIds(rs)[x] == 0
    decreases |rs|
  {
    if rs != [] {
      OwedToNone(rs[..|rs| - 1], x);
    }
  }

  // ----- steps -----

  function LastTime(arrivals: seq<Arrival>): (t: nat)
    ensures forall i :: 0 <= i < |arrivals| ==> arrivals[i].time <= t
    ensures |arrivals| > 0 ==> exists i :: 0 <= i < |arrivals| && arrivals[i].time == t
  {
    if arrivals == [] then 0 else
      var n := |arrivals| - 1;
      var before := LastTime(arrivals[..n]);
      assert forall i :: 0 <= i < n ==> arrivals[..n][i] == arrivals[i];
      if n == 0 || before < arrivals[n].time then arrivals[n].time else before
  }

  /** Upper and lower bounds the loop keeps: every idle step waits for an arrival. */
  ghost predicate Paced(p: Params, s: Load)
  {
    && s.idx <= |p.arrivals|
    && s.step <= LastTime(p.arrivals) + s.tokens
    && s.tokens <= p.maxBatch * s.step
    && forall i :: 0 <= i < s.idx ==> p.arrivals[i].time < s.step
  }

  /** Those admitted have arrived, and only the limit or the next arrival's time keeps more out. */
  lemma {:induction false} AdmissibleTimes(p: Params, idx: nat, step: nat, room: nat)
    requires idx <= |p.arrivals|
    ensures forall i :: idx <= i < idx + Admissible(p, idx, step, room) ==> p.arrivals[i].time <= step
    ensures var end := idx + Admissible(p, idx, step, room);
            end == idx + room || end == |p.arrivals| || p.arrivals[end].time > step
    decreases room
  {
    if idx < |p.arrivals| && p.arrivals[idx].time <= step && room > 0 {
      AdmissibleTimes(p, idx + 1, step, room - 1);
    }
  }

  lemma OneMoreStep(batch: nat, step: nat)
    ensures batch * (step + 1) == batch * step + batch
  {
  }

  lemma RoundPaced(p: Params, h: Host, s: Load)
    requires Good(p, s) && Paced(p, s) && Positive(p) && s.finished < |p.arrivals| && !RoundFails(p, h, s)
    ensures Paced(p, Round(p, h, s))
  {
    hide LastTime, Summed, Decodes, Unfinished, IdsOf, Requests;
    var a := Admit(p, s);
    AdmissibleTimes(p, s.idx, s.step, p.maxNew);
    OneMoreStep(p.maxBatch, s.step);
    if a.active == [] {
      assert p.arrivals[s.idx].time > s.step;
    }
  }

  lemma {:induction false} RunPaced(p: Params, h: Host, s: Load)
    requires Good(p, s) && Positive(p) && Paced(p, s) && Run(p, h, s).Ends?
    ensures Paced(p, Run(p, h, s).load) && Run(p, h, s).load.idx == |p.arrivals|
    decreases Owed(Pending(p, s)), Gap(p, s)
  {
    if s.finished < |p.arrivals| {
      hide Owed, Gap, Round, RoundFails, Run, Pending, Paced;
      RunStep(p, h, s);
      RoundPaced(p, h, s);
      RunPaced(p, h, Round(p, h, s));
    }
  }

  /** Steps lie strictly after the last arrival, and at most one per token beyond it. */
  lemma StepBounds(p: Params, h: Host)
    requires Positive(p) && Run(p, h, START).Ends?
    ensures var l := Run(p, h, START).load;
            && l.step <= LastTime(p.arrivals) + l.tokens
            && l.tokens <= p.maxBatch * l.step
            && (p.arrivals != [] ==> LastTime(p.arrivals) < l.step)
  {
    hide Run;
    RunPaced(p, h, START);
  }

  // ----- termination -----

  /** The loop, run for at most `k` rounds, stops. */
  ghost predicate StopsWithin(p: Params, h: Host, s: Load, k: nat)
    requires Good(p, s)
    decreases k
  {
    || s.finished >= |p.arrivals|
    || RoundFails(p, h, s)
    || (k > 0 && (RoundConserves(p, h, s); StopsWithin(p, h, Round(p, h, s), k - 1)))
  }

  lemma {:induction false} PositiveStops(p: Params, h: Host, s: Load) returns (k: nat)
    requires Good(p, s) && Positive(p)
    ensures StopsWithin(p, h, s, k)
    decreases Owed(Pending(p, s)), Gap(p, s)
  {
    k := 0;
    if s.finished < |p.arrivals| && !RoundFails(p, h, s) {
      hide Owed, Gap, Round, RoundFails, Run, Pending;
      RunStep(p, h, s);
      var j := PositiveStops(p, h, Round(p, h, s));
      k := j + 1;
    }
  }

  /** Nothing is ever finished when a limit is zero. */
  ghost predicate Stuck(p: Params, s: Load)
  {
    s.finished == 0 && (p.maxBatch == 0 || (p.maxNew == 0 && s.active == []))
  }

  lemma {:induction false} ZeroNeverStops(p: Params, h: Host, s: Load, k: nat)
    requires Good(p, s) && Stuck(p, s) && p.arrivals != []
    requires forall ids, step :: |p.decode(ids, step)| == |ids| && h.accepts(p.decode(ids, step))
    ensures !StopsWithin(p, h, s, k)
    decreases k
  {
    hide Owed, OwedIds, Pending, Summed;
    assert !RoundFails(p, h, s);
    if k > 0 {
      RoundConserves(p, h, s);
      StuckRound(p, h, s);
      ZeroNeverStops(p, h, Round(p, h, s), k - 1);
    }
  }

  lemma StuckRound(p: Params, h: Host, s: Load)
    requires Good(p, s) && Stuck(p, s) && !RoundFails(p, h, s)
    ensures Stuck(p, Round(p, h, s))
  {
    hide Owed, OwedIds, Pending, Summed, Decodes;
    var a := Admit(p, s);
    assert p.maxNew == 0 ==> a.active == s.active + [];
    if p.maxBatch == 0 {
      assert a.active[..0] == [];
    }
  }

  lemma NoWorkStops(p: Params, h: Host) returns (k: nat)
    requires p.arrivals == []
    ensures StopsWithin(p, h, START, k)
  {
    k := 0;
  }

  /** With a kernel that answers every batch, the loop stops exactly when it has no work or both limits are positive. */
  lemma StopsIff(p: Params, h: Host)
    requires forall ids, step :: |p.decode(ids, step)| == |ids| && h.accepts(p.decode(ids, step))
    ensures (exists k :: StopsWithin(p, h, START, k)) <==> p.arrivals == [] || Positive(p)
  {
    if p.arrivals == [] {
      var k := NoWorkStops(p, h);
      assert StopsWithin(p, h, START, k);
      assert exists k :: StopsWithin(p, h, START, k);
    } else if Positive(p) {
      var k := PositiveStops(p, h, START);
      assert StopsWithin(p, h, START, k);
    } else {
      forall k: nat
        ensures !StopsWithin(p, h, START, k)
      {
        ZeroNeverStops(p, h, START, k);
      }
    }
  }

  // ----- the two programs agree -----

  lemma WrapShift(v: int, k: int)
    ensures Wrap(v + k * M64) == Wrap(v)
  {
    assert (v + k * M64) % M64 == v % M64;
  }

  lemma WrapInside(v: int, d: int)
    ensures Wrap(Wrap(v) + d) == Wrap(v + d)
  {
    var q := v / M64;
    assert v == M64 * q + v % M64;
    if v % M64 >= M63 {
      assert Wrap(v) + d == v + d + (-q - 1) * M64;
      WrapShift(v + d, -q - 1);
    } else {
      assert Wrap(v) + d == v + d + (-q) * M64;
      WrapShift(v + d, -q);
    }
  }

  /** One wrap at the end equals three wrapping additions. */
  lemma AddsAgree(checksum: int, token: int, id: int, step: nat)
    ensures RustAdd(checksum, token, id, step) == PythonAdd(checksum, token, id, step)
  {
    hide Wrap;
    WrapInside(checksum + token, id);
    var c := checksum + token + id;
    WrapInside(c, Wrap(step));
    WrapInside(step, c);
    assert Wrap(step) + c == c + Wrap(step) && step + c == c + step;
  }

  lemma {:induction false} SumsAgree(checksum: int, batch: seq<Request>, tokens: seq<int>, step: nat)
    requires |batch| == |tokens|
    ensures Summed(RustHost(), checksum, batch, tokens, step) == Summed(PythonHost(), checksum, batch, tokens, step)
    decreases |batch|
  {
    if batch != [] {
      var n := |batch| - 1;
      SumsAgree(checksum, batch[..n], tokens[..n], step);
      hide RustAdd, PythonAdd;
      AddsAgree(Summed(PythonHost(), checksum, batch[..n], tokens[..n], step), tokens[n], batch[n].id, step);
    }
  }

  lemma RoundsAgree(p: Params, s: Load)
    requires Good(p, s) && forall ids, step :: FitI64(p.decode(ids, step))
    ensures RoundFails(p, RustHost(), s) <==> RoundFails(p, PythonHost(), s)
    ensures !RoundFails(p, PythonHost(), s) ==> Round(p, RustHost(), s) == Round(p, PythonHost(), s)
  {
    hide Summed, Unfinished, FitI64, PythonAdd, RustAdd;
    var a := Admit(p, s);
    var batch := a.active[..Consumed(p, a.active)];
    if Decodes(p, PythonHost(), a) {
      SumsAgree(a.checksum, batch, p.decode(IdsOf(batch), a.step), a.step);
    }
  }

  lemma {:induction false} RunsAgree(p: Params, s: Load)
    requires Good(p, s) && Positive(p) && forall ids, step :: FitI64(p.decode(ids, step))
    ensures Run(p, RustHost(), s) == Run(p, PythonHost(), s)
    decreases Owed(Pending(p, s)), Gap(p, s)
  {
    hide Owed, Gap, Pending, Round, RoundFails, FitI64, Run, PythonHost, RustHost;
    if s.finished < |p.arrivals| {
      RunStep(p, PythonHost(), s);
      RunStep(p, RustHost(), s);
      RoundsAgree(p, s);
      if !RoundFails(p, PythonHost(), s) {
        RunsAgree(p, Round(p, PythonHost(), s));
      }
    } else {
      RunStop(p, PythonHost(), s);
      RunStop(p, RustHost(), s);
    }
  }

  /** Both programs return the same checksum, token count and step count. */
  lemma ProgramsAgree(p: Params)
    requires Positive(p) && forall ids, step :: FitI64(p.decode(ids, step))
    ensures Visible(Run(p, RustHost(), START)) == Visible(Run(p, PythonHost(), START))
  {
    RunsAgree(p, START);
  }
}
