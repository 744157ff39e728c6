/**
  What a run of the batching loop did, read off its kernel calls: on which requests each
  call was made, what the checksum adds up, and that nobody already in a batch is
  pushed out of the next one.
 */
module BatchingRecord {
  import opened Batching
  import opened BatchingTheorems

  /** The requests a call decodes: as many from the front as the batch limit admits. */
  function Batch(p: Params, active: seq<Request>): (batch: seq<Request>)
    ensures batch <= active && |batch| <= p.maxBatch && (|batch| == p.maxBatch || batch == active)
  {
    if p.maxBatch < |active| then active[..p.maxBatch] else active
  }

  /** A call that was made with something to decode, and answered with one token for each request. */
  predicate Answered(p: Params, c: Call)
  {
    && c.active != []
    && c.tokens == p.decode(IdsOf(Batch(p, c.active)), c.step)
    && |c.tokens| == |Batch(p, c.active)|
  }

  ghost predicate AllAnswered(p: Params, calls: seq<Call>)
  {
    forall c <- calls :: Answered(p, c)
  }

  /** The sum over all decoded tokens of token, id and step. */
  ghost function Total(p: Params, calls: seq<Call>): int
    requires AllAnswered(p, calls)
  {
    if calls == [] then 0 else
      var c := calls[|calls| - 1];
      assert c in calls;
      Total(p, calls[..|calls| - 1]) + TokenSum(IdsOf(Batch(p, c.active)), c.tokens, c.step)
  }

  function IdsDecoded(p: Params, calls: seq<Call>): seq<int>
  {
    if calls == [] then [] else
      IdsDecoded(p, calls[..|calls| - 1]) + IdsOf(Batch(p, calls[|calls| - 1].active))
  }

  /** Who is still active after a call: those of the batch that want more, then those not in it. */
  function Leftover(p: Params, c: Call): seq<Request>
  {
    Unfinished(Batch(p, c.active)) + c.active[|Batch(p, c.active)|..]
  }

  /** Each call finds the leftover of the one before at the front of its active list. */
  ghost predicate Follow(p: Params, calls: seq<Call>, active: seq<Request>)
  {
    && (forall i :: 0 < i < |calls| ==> Leftover(p, calls[i - 1]) <= calls[i].active)
    && (calls != [] ==> Leftover(p, calls[|calls| - 1]) <= active)
  }

  ghost predicate Dated(calls: seq<Call>, step: nat)
  {
    && (forall i, j :: 0 <= i < j < |calls| ==> calls[i].step < calls[j].step)
    && (forall c <- calls :: c.step < step)
  }

  ghost predicate Recorded(p: Params, s: Load)
  {
    && AllAnswered(p, s.calls) && Dated(s.calls, s.step) && Follow(p, s.calls, s.active)
    && s.emitted == IdsDecoded(p, s.calls) && s.tokens == |s.emitted|
    && Represents(s.checksum, Total(p, s.calls))
  }

  lemma StartRecorded(p: Params)
    ensures Recorded(p, START)
  {
  }

  // ----- one call more -----

  lemma AnsweredMore(p: Params, calls: seq<Call>, c: Call)
    requires AllAnswered(p, calls) && Answered(p, c)
    ensures AllAnswered(p, calls + [c])
    ensures Total(p, calls + [c]) == Total(p, calls) + TokenSum(IdsOf(Batch(p, c.active)), c.tokens, c.step)
    ensures IdsDecoded(p, calls + [c]) == IdsDecoded(p, calls) + IdsOf(Batch(p, c.active))
  {
    hide Answered, TokenSum, Batch, IdsOf;
    assert (calls + [c])[..|calls|] == calls;
  }

  lemma FollowMore(p: Params, calls: seq<Call>, c: Call)
    requires Follow(p, calls, c.active)
    ensures Follow(p, calls + [c], Leftover(p, c))
  {
    hide Leftover;
    var all := calls + [c];
    forall i | 0 < i < |all|
      ensures Leftover(p, all[i - 1]) <= all[i].active
    {
      if i < |calls| {
        assert all[i - 1] == calls[i - 1] && all[i] == calls[i];
      }
    }
  }

  lemma DatedMore(calls: seq<Call>, c: Call)
    requires Dated(calls, c.step)
    ensures Dated(calls + [c], c.step + 1)
  {
    var all := calls + [c];
    forall i, j | 0 <= i < j < |all|
      ensures all[i].step < all[j].step
    {
      assert all[i] == calls[i] && calls[i] in calls;
    }
  }

  lemma AdmitRecorded(p: Params, s: Load)
    requires Recorded(p, s) && s.idx <= |p.arrivals|
    ensures Recorded(p, Admit(p, s))
  {
    hide AllAnswered, Dated, Total, IdsDecoded, Represents, Admissible, Leftover, Requests;
  }

  lemma DatedLater(calls: seq<Call>, step: nat)
    requires Dated(calls, step)
    ensures Dated(calls, step + 1)
  {
  }

  lemma IdleRecorded(p: Params, s: Load)
    requires Recorded(p, s)
    ensures Recorded(p, s.(step := s.step + 1))
  {
    hide AllAnswered, Dated, Follow, Total, IdsDecoded, Represents;
    DatedLater(s.calls, s.step);
  }

  lemma DecodeIsCall(p: Params, h: Host, s: Load)
    requires Decodes(p, h, s) && s.active != []
    ensures var c, t, ids := Call(s.step, s.active, p.decode(IdsOf(Batch(p, s.active)), s.step)), Decode(p, h, s), IdsOf(Batch(p, s.active));
            && Answered(p, c) && t.calls == s.calls + [c] && t.active == Leftover(p, c) && t.step == s.step + 1
            && t.emitted == s.emitted + ids && t.tokens == s.tokens + |ids|
            && t.checksum == Summed(h, s.checksum, Batch(p, s.active), c.tokens, s.step)
  {
    hide Unfinished, Summed, IdsOf;
    assert s.active[..|s.active|] == s.active;
    assert Batch(p, s.active) == s.active[..Consumed(p, s.active)];
  }

  lemma DecodeRecorded(p: Params, h: Host, s: Load)
    requires Recorded(p, s) && Decodes(p, h, s) && s.active != [] && Known(h)
    ensures Recorded(p, Decode(p, h, s))
  {
    hide AllAnswered, Answered, Dated, Follow, Total, IdsDecoded, Represents, Decodes, Decode, Known, Leftover, Summed, TokenSum, IdsOf, Batch;
    var batch := Batch(p, s.active);
    var c := Call(s.step, s.active, p.decode(IdsOf(batch), s.step));
    DecodeIsCall(p, h, s);
    AnsweredCount(p, c);
    AnsweredMore(p, s.calls, c);
    FollowMore(p, s.calls, c);
    DatedMore(s.calls, c);
    SumRepresents(h, s.checksum, Total(p, s.calls), batch, c.tokens, s.step);
  }

  lemma AnsweredCount(p: Params, c: Call)
    requires Answered(p, c)
    ensures |c.tokens| == |Batch(p, c.active)|
  {
  }

  lemma RoundRecorded(p: Params, h: Host, s: Load)
    requires Good(p, s) && Recorded(p, s) && !RoundFails(p, h, s) && Known(h)
    ensures Recorded(p, Round(p, h, s))
  {
    hide Recorded, Admit, Decodes, Decode, Known;
    AdmitRecorded(p, s);
    if Admit(p, s).active == [] {
      IdleRecorded(p, Admit(p, s));
    } else {
      DecodeRecorded(p, h, Admit(p, s));
    }
  }

  // ----- whole runs -----

  lemma {:induction false} RunRecordedFrom(p: Params, h: Host, s: Load)
    requires Good(p, s) && Positive(p) && Recorded(p, s) && Known(h) && Run(p, h, s).Ends?
    ensures Recorded(p, Run(p, h, s).load)
    decreases Owed(Pending(p, s)), Gap(p, s)
  {
    hide Owed, Gap, Pending, Round, RoundFails, Run, Known, Recorded;
    if s.finished < |p.arrivals| {
      RunStep(p, h, s);
      if !RoundFails(p, h, s) {
        RoundRecorded(p, h, s);
        RunRecordedFrom(p, h, Round(p, h, s));
      }
    } else {
      RunStop(p, h, s);
    }
  }

  /** Of every run that ends: what it decoded, in which order, and what its checksum means. */
  lemma RunRecorded(p: Params, h: Host)
    requires Positive(p) && Known(h) && Run(p, h, START).Ends?
    ensures var l := Run(p, h, START).load;
            && AllAnswered(p, l.calls) && Dated(l.calls, l.step) && Follow(p, l.calls, [])
            && multiset(IdsDecoded(p, l.calls)) == OwedIds(Requests(p.arrivals))
            && Represents(l.checksum, Total(p, l.calls))
  {
    hide AllAnswered, Dated, Follow, Total, IdsDecoded, Represents, Recorded, Known, Run, Owed, OwedIds, Requests;
    RunRecordedStart(p, h);
    TokensConserved(p, h);
    RunParts(p, Run(p, h, START).load);
  }

  lemma RunRecordedStart(p: Params, h: Host)
    requires Positive(p) && Known(h) && Run(p, h, START).Ends?
    ensures Recorded(p, Run(p, h, START).load) && Run(p, h, START).load.active == []
  {
    hide Run, Recorded, Known, Owed, Pending;
    StartRecorded(p);
    RunRecordedFrom(p, h, START);
    RunConserves(p, h, START);
  }

  lemma RunParts(p: Params, l: Load)
    requires Recorded(p, l) && l.active == []
    ensures AllAnswered(p, l.calls) && Dated(l.calls, l.step) && Follow(p, l.calls, [])
    ensures l.emitted == IdsDecoded(p, l.calls) && Represents(l.checksum, Total(p, l.calls))
  {
    hide AllAnswered, Dated, Follow, Total, IdsDecoded, Represents;
  }

  // ----- nobody is pushed out of a batch -----

  /** `rest` lists the requests of `batch` that want more than one token, in order, each with one fewer to go. */
  ghost predicate OneFewer(batch: seq<Request>, rest: seq<Request>, at: seq<nat>)
  {
    && |at| == |rest|
    && (forall i, j :: 0 <= i < j < |at| ==> at[i] < at[j])
    && (forall i :: 0 <= i < |at| ==>
          at[i] < |batch| && batch[at[i]].remaining > 1
          && rest[i] == Request(batch[at[i]].id, batch[at[i]].remaining - 1))
    && (forall k :: 0 <= k < |batch| && batch[k].remaining > 1 ==> k in at)
  }

  lemma {:induction false} UnfinishedInOrder(batch: seq<Request>) returns (at: seq<nat>)
    ensures OneFewer(batch, Unfinished(batch), at)
    decreases |batch|
  {
    if batch == [] {
      at := [];
    } else {
      var n := |batch| - 1;
      var front := UnfinishedInOrder(batch[..n]);
      at := if batch[n].remaining > 1 then front + [n] else front;
      Extend(batch, n, Unfinished(batch[..n]), front);
    }
  }

  lemma Extend(batch: seq<Request>, n: nat, rest: seq<Request>, at: seq<nat>)
    requires |batch| == n + 1 && OneFewer(batch[..n], rest, at)
    ensures batch[n].remaining > 1 ==>
              OneFewer(batch, rest + [Request(batch[n].id, batch[n].remaining - 1)], at + [n])
    ensures batch[n].remaining <= 1 ==> OneFewer(batch, rest, at)
  {
    assert forall i :: 0 <= i < |at| ==> batch[..n][at[i]] == batch[at[i]];
    forall k | 0 <= k < n && batch[k].remaining > 1
      ensures k in at
    {
      assert batch[..n][k] == batch[k];
    }
  }

  /** Whoever is decoded by a call and wants more is decoded again by the next one, at the front of its batch. */
  lemma NoPreemption(p: Params, calls: seq<Call>, i: nat)
    requires Follow(p, calls, []) && 0 < i < |calls|
    ensures Unfinished(Batch(p, calls[i - 1].active)) <= Batch(p, calls[i].active)
  {
    hide Unfinished;
    var rest, active := Unfinished(Batch(p, calls[i - 1].active)), calls[i].active;
    assert rest <= Leftover(p, calls[i - 1]) <= active;
    assert |rest| <= p.maxBatch;
  }
}
