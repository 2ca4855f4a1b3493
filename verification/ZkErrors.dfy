/** Where the error comes from that a callback is told: from a reply the server sent for its request, or from
    the failure that freed it. */
module ZkErrors {
  import opened ZkProtocol
  import ZkSafety

  /** A reply on its way: not yet matched with a request. */
  predicate Waiting(s: State, h: Header) {
    h in s.inFlight || h in s.toProcess || (s.io.Packet? && s.io.header == h)
  }

  ghost predicate InJobs(jobs: seq<Job>, h: Header) {
    exists i | 0 <= i < |jobs| :: jobs[i].Answer? && jobs[i].header == h
  }

  ghost predicate InOutcomes(outcomes: seq<Outcome>, h: Header) {
    exists i | 0 <= i < |outcomes| :: outcomes[i].header == h
  }

  /** A header some request has got, or is about to get. */
  ghost predicate Assigned(s: State, h: Header) {
    || (s.io.Matched? && s.io.answer == h) || InJobs(s.completions, h)
    || (s.comp.Calling? && InJobs([s.comp.job], h)) || InOutcomes(s.finished, h)
  }

  /** The server's reply: to the frame whose turn it is, or out of turn. */
  predicate Replies(s: State, step: Step, h: Header) {
    match step
    case Serve(err) => s.atServer != [] && h == Header(s.atServer[0], err)
    case Inject(header) => h == header
    case _ => false
  }

  /** Freeing a request of this xid for this reason. */
  predicate Frees(s: State, step: Step, h: Header) {
    && h.xid in Xids(s.sent)
    && ((step.CleanUp? && s.io.Failing? && h.err == s.io.rc) || (step.FreeRest? && h.err == INVALID_STATE))
  }

  // ----- One step -----

  lemma ServerStep(s: State, step: Step, h: Header)
    requires Enabled(s, step) && (step.Serve? || step.Notify? || step.Inject?)
    ensures Waiting(Next(s, step), h) && !Untracked(h.xid) ==> Waiting(s, h) || Replies(s, step, h)
    ensures Assigned(Next(s, step), h) ==> Assigned(s, h)
  {
  }

  lemma TravelStep(s: State, step: Step, h: Header)
    requires Enabled(s, step) && (step.Receive? || step.DequeueBuffer? || step.HandleUntracked?)
    ensures Waiting(Next(s, step), h) ==> Waiting(s, h)
    ensures Assigned(Next(s, step), h) ==> Assigned(s, h)
  {
  }

  lemma MatchStep(s: State, h: Header)
    requires Enabled(s, Match)
    ensures Waiting(Next(s, Match), h) ==> Waiting(s, h)
    ensures Assigned(Next(s, Match), h) ==> Assigned(s, h) || (Waiting(s, h) && !Untracked(h.xid))
  {
  }

  /** Nothing but the completion queue and the finished callbacks grows. */
  lemma Grown(jobs: seq<Job>, more: seq<Job>, done: seq<Outcome>, later: seq<Outcome>, h: Header)
    ensures InJobs(jobs + more, h) ==> InJobs(jobs, h) || InJobs(more, h)
    ensures InOutcomes(done + later, h) ==> InOutcomes(done, h) || InOutcomes(later, h)
  {
    if InJobs(jobs + more, h) {
      var i :| 0 <= i < |jobs + more| && (jobs + more)[i].Answer? && (jobs + more)[i].header == h;
      assert i >= |jobs| ==> more[i - |jobs|].header == h;
    }
    if InOutcomes(done + later, h) {
      var i :| 0 <= i < |done + later| && (done + later)[i].header == h;
      assert i >= |done| ==> later[i - |done|].header == h;
    }
  }

  lemma DeliverStep(s: State, step: Step, h: Header)
    requires Enabled(s, step) && (step.Deliver? || step.HandleEvent? || step.SessionEvent? || step.QueueDeath?)
    ensures Waiting(Next(s, step), h) ==> Waiting(s, h)
    ensures Assigned(Next(s, step), h) ==> Assigned(s, h)
  {
    if step.Deliver? {
      Grown(s.completions, [Answer(s.io.entry, s.io.answer)], s.finished, [Outcome(s.io.entry, s.io.answer)], h);
    } else {
      Grown(s.completions, [Event], s.finished, [], h);
      Grown(s.completions, [Death], s.finished, [], h);
    }
  }

  lemma {:induction false} FreedXids(sent: seq<Entry>, reason: int, h: Header)
    ensures InJobs(FakeReplies(sent, reason), h) ==> h.xid in Xids(sent)
    ensures InOutcomes(FailedCalls(sent, reason), h) ==> h.xid in Xids(sent)
  {
    if sent != [] {
      FreedXids(sent[1..], reason, h);
      assert Xids(sent) == [sent[0].xid] + Xids(sent[1..]);
      var first, header := sent[0], Header(sent[0].xid, reason);
      var job := if first.xid == PING_XID || first.sync then [] else [Answer(first, header)];
      var call := if first.xid != PING_XID && first.sync then [Outcome(first, header)] else [];
      Grown(job, FakeReplies(sent[1..], reason), call, FailedCalls(sent[1..], reason), h);
    }
  }

  lemma FreedHeaders(sent: seq<Entry>, reason: int, h: Header)
    ensures InJobs(FakeReplies(sent, reason), h) || InOutcomes(FailedCalls(sent, reason), h)
            ==> h.xid in Xids(sent) && h.err == reason
  {
    FreedCarryReason(sent, reason);
    FreedXids(sent, reason, h);
  }

  lemma FreeingStep(s: State, step: Step, h: Header)
    requires Enabled(s, step) && (step.CleanUp? || step.FreeRest?)
    ensures Waiting(Next(s, step), h) ==> Waiting(s, h)
    ensures Assigned(Next(s, step), h) ==> Assigned(s, h) || Frees(s, step, h)
  {
    var reason := if step.CleanUp? then s.io.rc else INVALID_STATE;
    var events := if step.CleanUp? && step.event then [Event] else [];
    assert s.completions + [] == s.completions;
    FreedHeaders(s.sent, reason, h);
    Grown(s.completions, events, s.finished, [], h);
    Grown(s.completions + events, FakeReplies(s.sent, reason), s.finished, FailedCalls(s.sent, reason), h);
  }

  lemma CompletionStep(s: State, step: Step, h: Header)
    requires Enabled(s, step) && (step.Take? || step.Call?)
    ensures Waiting(Next(s, step), h) ==> Waiting(s, h)
    ensures Assigned(Next(s, step), h) ==> Assigned(s, h)
  {
    if step.Take? {
      var t := Next(s, step);
      assert InJobs(t.completions, h) ==> InJobs(s.completions, h);
      if t.comp.Calling? && InJobs([t.comp.job], h) {
        assert s.completions[0].Answer? && s.completions[0].header == h;
      }
    } else {
      var later := if s.comp.job.Answer? then [Outcome(s.comp.job.entry, s.comp.job.header)] else [];
      Grown(s.completions, [], s.finished, later, h);
      assert InOutcomes(later, h) ==> [s.comp.job][0].Answer? && [s.comp.job][0].header == h;
    }
  }

  predicate Elsewhere(step: Step) {
    || step.DrawXid? || step.Submit? || step.QueueUntracked? || step.Transmit? || step.Close? || step.Ping?
    || step.Reconnect? || step.Requeue? || step.Lose? || step.ExitIo? || step.Join? || step.Finish?
  }

  lemma OtherStep(s: State, step: Step, h: Header)
    requires Enabled(s, step) && Elsewhere(step)
    ensures Waiting(Next(s, step), h) ==> Waiting(s, h)
    ensures Assigned(Next(s, step), h) ==> Assigned(s, h)
  {
  }

  /** A header is new only where the server replies, and assigned only to a match or a freed request. */
  lemma HeadersOfStep(s: State, step: Step, h: Header)
    requires Enabled(s, step)
    ensures Waiting(Next(s, step), h) && !Untracked(h.xid) ==> Waiting(s, h) || Replies(s, step, h)
    ensures Assigned(Next(s, step), h) ==>
              Assigned(s, h) || (Waiting(s, h) && !Untracked(h.xid)) || Frees(s, step, h)
  {
    if step.Serve? || step.Notify? || step.Inject? {
      ServerStep(s, step, h);
    } else if step.Receive? || step.DequeueBuffer? || step.HandleUntracked? {
      TravelStep(s, step, h);
    } else if step.Match? {
      MatchStep(s, h);
    } else if step.Deliver? || step.HandleEvent? || step.SessionEvent? || step.QueueDeath? {
      DeliverStep(s, step, h);
    } else if step.CleanUp? || step.FreeRest? {
      FreeingStep(s, step, h);
    } else if step.Take? || step.Call? {
      CompletionStep(s, step, h);
    } else {
      OtherStep(s, step, h);
    }
  }

  // ----- Runs -----

  /** Step `j` of the run is the server's reply with this header. */
  ghost predicate RepliedAt(run: seq<Step>, j: nat, h: Header) {
    j < |run| && IsRun(run[..j]) && Replies(After(run[..j]), run[j], h)
  }

  ghost predicate FreedAt(run: seq<Step>, j: nat, h: Header) {
    j < |run| && IsRun(run[..j]) && Frees(After(run[..j]), run[j], h)
  }

  lemma Earlier(run: seq<Step>, h: Header, j: nat)
    requires run != [] && j < |run| - 1
    ensures RepliedAt(run[..|run| - 1], j, h) ==> RepliedAt(run, j, h)
    ensures FreedAt(run[..|run| - 1], j, h) ==> FreedAt(run, j, h)
  {
    assert run[..|run| - 1][..j] == run[..j];
  }

  lemma {:induction false} WaitingWasSent(run: seq<Step>, h: Header) returns (j: nat)
    requires IsRun(run) && Waiting(After(run), h) && !Untracked(h.xid)
    ensures RepliedAt(run, j, h)
    decreases |run|
  {
    var before, step := run[..|run| - 1], run[|run| - 1];
    HeadersOfStep(After(before), step, h);
    if Waiting(After(before), h) {
      j := WaitingWasSent(before, h);
      Earlier(run, h, j);
    } else {
      j := |run| - 1;
    }
  }

  lemma {:induction false} AssignedHasSource(run: seq<Step>, h: Header) returns (j: nat)
    requires IsRun(run) && Assigned(After(run), h)
    ensures RepliedAt(run, j, h) || FreedAt(run, j, h)
    decreases |run|
  {
    var before, step := run[..|run| - 1], run[|run| - 1];
    HeadersOfStep(After(before), step, h);
    if Assigned(After(before), h) {
      j := AssignedHasSource(before, h);
      Earlier(run, h, j);
    } else if Waiting(After(before), h) && !Untracked(h.xid) {
      j := WaitingWasSent(before, h);
      Earlier(run, h, j);
    } else {
      j := |run| - 1;
    }
  }

  /** Whatever the server sends and whatever fails: what a callback is told was sent by the server for its
      request, or is the reason for which its request was freed. */
  lemma OutcomeHasSource(run: seq<Step>, i: nat) returns (j: nat)
    requires IsRun(run) && i < |After(run).finished|
    ensures var o := After(run).finished[i];
            o.header.xid == o.entry.xid && (RepliedAt(run, j, o.header) || FreedAt(run, j, o.header))
  {
    ZkSafety.OwnReply(run, i);
    j := AssignedHasSource(run, After(run).finished[i].header);
  }

  // ----- Ok means that the server said so -----

  /** The reasons of a clean-up are errors. */
  predicate FailsWithError(s: State) {
    s.io.Failing? ==> s.io.rc < 0
  }

  lemma FailsWithErrorKept(s: State, step: Step)
    requires FailsWithError(s) && Enabled(s, step)
    ensures FailsWithError(Next(s, step))
  {
    if step.Lose? || step.Requeue? || step.HandleUntracked? {
      FailureHasReason(s, step);
    } else {
      NoNewFailure(s, step);
    }
  }

  lemma FailureHasReason(s: State, step: Step)
    requires Enabled(s, step) && (step.Lose? || step.Requeue? || step.HandleUntracked?)
    ensures FailsWithError(Next(s, step))
  {
  }

  lemma NoNewFailure(s: State, step: Step)
    requires Enabled(s, step) && !step.Lose? && !step.Requeue? && !step.HandleUntracked?
    ensures Next(s, step).io.Failing? ==> Next(s, step).io == s.io
  {
    if ByIoThread(step) {
      NoNewFailureByIoThread(s, step);
    } else {
      IoUntouched(s, step);
    }
  }

  lemma NoNewFailureByIoThread(s: State, step: Step)
    requires Enabled(s, step) && ByIoThread(step) && !step.Lose? && !step.Requeue? && !step.HandleUntracked?
    ensures Next(s, step).io.Failing? ==> Next(s, step).io == s.io
  {
  }

  lemma IoUntouched(s: State, step: Step)
    requires Enabled(s, step) && !ByIoThread(step)
    ensures Next(s, step).io == s.io
  {
  }

  lemma {:induction false} EveryFailureIsError(run: seq<Step>)
    requires IsRun(run)
    ensures FailsWithError(After(run))
    decreases |run|
  {
    if run != [] {
      EveryFailureIsError(run[..|run| - 1]);
      FailsWithErrorKept(After(run[..|run| - 1]), run[|run| - 1]);
    }
  }

  /** A callback is told Ok only if the server has sent Ok for its request. */
  lemma OkWasReplied(run: seq<Step>, i: nat) returns (j: nat)
    requires IsRun(run) && i < |After(run).finished| && After(run).finished[i].header.err == OK
    ensures RepliedAt(run, j, Header(After(run).finished[i].entry.xid, OK))
  {
    j := OutcomeHasSource(run, i);
    if FreedAt(run, j, After(run).finished[i].header) {
      EveryFailureIsError(run[..j]);
    }
  }
}
