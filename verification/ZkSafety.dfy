/** What every run of the ZooKeeper client keeps: replies meet their requests in order, and every
    accepted completion is called back exactly once. */
module ZkSafety {
  import opened ZkProtocol

  // ----- The phases of shutting down -----

  function Deaths(jobs: seq<Job>): nat {
    if jobs == [] then 0 else (if jobs[0].Death? then 1 else 0) + Deaths(jobs[1..])
  }

  lemma {:induction false} DeathsAppend(a: seq<Job>, b: seq<Job>)
    ensures Deaths(a + b) == Deaths(a) + Deaths(b)
  {
    if a == [] {
      assert a + b == b;
    } else {
      assert (a + b)[1..] == a[1..] + b;
      DeathsAppend(a[1..], b);
    }
  }

  lemma {:induction false} NoDeathFreed(sent: seq<Entry>, rc: int)
    ensures Deaths(FakeReplies(sent, rc)) == 0
  {
    if sent != [] {
      NoDeathFreed(sent[1..], rc);
      DeathsAppend(if sent[0].xid == PING_XID || sent[0].sync then [] else [Answer(sent[0], Header(sent[0].xid, rc))],
                   FakeReplies(sent[1..], rc));
    }
  }

  /** The completion thread has met the packet of death. */
  predicate PastDeath(comp: Completer) {
    comp.Joining? || comp.Joined? || comp.Draining? || comp.Done? || (comp.Calling? && comp.last)
  }

  /** The completion thread has freed what the I/O thread left behind. */
  predicate PastFreeing(comp: Completer) {
    comp.Draining? || comp.Done? || (comp.Calling? && comp.last)
  }

  ghost predicate Phases(s: State) {
    && (s.deathQueued ==> s.closing)
    && Deaths(s.completions) + (if PastDeath(s.comp) then 1 else 0) == (if s.deathQueued then 1 else 0)
    && (s.comp.Joined? || PastFreeing(s.comp) ==> s.io.Exited?)
    && (PastFreeing(s.comp) ==> s.sent == [])
    && (s.comp.Done? ==> s.completions == [])
    && (s.comp.Calling? ==> !s.comp.job.Death?)
  }

  lemma PhasesByOthers(s: State, step: Step)
    requires Phases(s) && Enabled(s, step) && !ByIoThread(step) && !ByCompletionThread(step)
    ensures Phases(Next(s, step))
  {
    if step.QueueDeath? {
      DeathsAppend(s.completions, [Death]);
    }
  }

  lemma PhasesByCompletionThread(s: State, step: Step)
    requires Phases(s) && Enabled(s, step) && ByCompletionThread(step)
    ensures Phases(Next(s, step))
  {
    if step.FreeRest? {
      DeathsAppend(s.completions, FakeReplies(s.sent, INVALID_STATE));
      NoDeathFreed(s.sent, INVALID_STATE);
    }
  }

  /** Nothing the phases depend on changes. */
  predicate PhasesUntouched(s: State, t: State) {
    t.deathQueued == s.deathQueued && t.comp == s.comp && t.closing == s.closing && s.io != Exited
  }

  lemma PhasesUntouchedMatching(s: State, step: Step)
    requires Enabled(s, step) && (step.Match? || step.Deliver? || step.HandleUntracked?)
    ensures PhasesUntouched(s, Next(s, step))
  {
  }

  lemma PhasesUntouchedReceiving(s: State, step: Step)
    requires Enabled(s, step) && (step.Receive? || step.DequeueBuffer? || step.HandleEvent?)
    ensures PhasesUntouched(s, Next(s, step))
  {
  }

  lemma PhasesUntouchedOtherwise(s: State, step: Step)
    requires Enabled(s, step) && ByIoThread(step) && !Answering(step)
    ensures PhasesUntouched(s, Next(s, step))
  {
  }

  lemma PhasesCarry(s: State, t: State)
    requires Phases(s) && PhasesUntouched(s, t) && Deaths(t.completions) == Deaths(s.completions)
    ensures Phases(t)
  {
  }

  lemma PhasesByIoThread(s: State, step: Step)
    requires Phases(s) && Enabled(s, step) && ByIoThread(step) && !step.CleanUp?
    ensures Phases(Next(s, step))
  {
    if step.Match? || step.Deliver? || step.HandleUntracked? {
      PhasesUntouchedMatching(s, step);
    } else if Answering(step) {
      PhasesUntouchedReceiving(s, step);
    } else {
      PhasesUntouchedOtherwise(s, step);
    }
    IoThreadQueuesNoDeath(s, step);
    PhasesCarry(s, Next(s, step));
  }

  lemma IoThreadQueuesNoDeath(s: State, step: Step)
    requires Enabled(s, step) && ByIoThread(step) && !step.CleanUp?
    ensures Deaths(Next(s, step).completions) == Deaths(s.completions)
  {
    if step.SessionEvent? || step.HandleEvent? {
      DeathsAppend(s.completions, [Event]);
    } else if step.Deliver? {
      DeathsAppend(s.completions, [Answer(s.io.entry, s.io.answer)]);
    } else {
      NothingQueued(s, step);
    }
  }

  lemma NothingQueued(s: State, step: Step)
    requires Enabled(s, step) && ByIoThread(step)
    requires !step.CleanUp? && !step.SessionEvent? && !step.HandleEvent? && !step.Deliver?
    ensures Next(s, step).completions == s.completions
  {
    if step.Match? || step.Requeue? || step.HandleUntracked? {
      NothingQueuedByHandling(s, step);
    } else {
      NothingQueuedOtherwise(s, step);
    }
  }

  lemma NothingQueuedByHandling(s: State, step: Step)
    requires Enabled(s, step) && (step.Match? || step.Requeue? || step.HandleUntracked?)
    ensures Next(s, step).completions == s.completions
  {
  }

  lemma NothingQueuedOtherwise(s: State, step: Step)
    requires Enabled(s, step)
    requires step.Ping? || step.Reconnect? || step.Receive? || step.DequeueBuffer? || step.Lose? || step.ExitIo?
    ensures Next(s, step).completions == s.completions
  {
  }

  lemma PhasesCleanedUp(s: State, event: bool)
    requires Phases(s) && Enabled(s, CleanUp(event))
    ensures Phases(Next(s, CleanUp(event)))
  {
    var events := if event then [Event] else [];
    DeathsAppend(s.completions, events);
    DeathsAppend(s.completions + events, FakeReplies(s.sent, s.io.rc));
    NoDeathFreed(s.sent, s.io.rc);
  }

  lemma PhasesKept(s: State, step: Step)
    requires Phases(s) && Enabled(s, step)
    ensures Phases(Next(s, step))
  {
    if ByCompletionThread(step) {
      PhasesByCompletionThread(s, step);
    } else if step.CleanUp? {
      PhasesCleanedUp(s, step.event);
    } else if ByIoThread(step) {
      PhasesByIoThread(s, step);
    } else {
      PhasesByOthers(s, step);
    }
  }

  // ----- Replies meet their requests -----

  /** The xids of sent_requests are those of the tracked packets and frames on their way round, in
      order; once closing, frames without a completion may follow. */
  ghost predicate Matching(s: State) {
    && !s.crashed && !s.io.Mismatched?
    && Xids(s.sent) <= Tracked(Line(s))
    && (!s.closing ==> Xids(s.sent) == Tracked(Line(s)))
  }

  lemma LineTransmits(s: State)
    requires Enabled(s, Transmit)
    ensures Line(Next(s, Transmit)) == Line(s)
  {
    assert s.atServer + s.toSend == s.atServer + [s.toSend[0]] + s.toSend[1..];
  }

  lemma LineServes(s: State, err: int)
    requires Enabled(s, Serve(err))
    ensures Line(Next(s, Serve(err))) == Line(s)
  {
    assert HeaderXids(s.inFlight + [Header(s.atServer[0], err)]) == HeaderXids(s.inFlight) + [s.atServer[0]];
    assert s.atServer == [s.atServer[0]] + s.atServer[1..];
  }

  lemma LineReceives(s: State)
    requires Enabled(s, Receive)
    ensures Line(Next(s, Receive)) == Line(s)
  {
    assert HeaderXids(s.toProcess + [s.inFlight[0]]) == HeaderXids(s.toProcess) + [s.inFlight[0].xid];
    assert HeaderXids(s.inFlight) == [s.inFlight[0].xid] + HeaderXids(s.inFlight[1..]);
  }

  lemma LineDequeues(s: State)
    requires Enabled(s, DequeueBuffer)
    ensures Line(Next(s, DequeueBuffer)) == Line(s)
  {
    assert HeaderXids(s.toProcess) == [s.toProcess[0].xid] + HeaderXids(s.toProcess[1..]);
  }

  /** A frame queued for sending comes last. */
  lemma LineGrows(s: State, t: State, frame: int)
    requires t.io == s.io && t.toProcess == s.toProcess && t.inFlight == s.inFlight && t.atServer == s.atServer
    requires t.toSend == s.toSend + [frame]
    ensures Tracked(Line(t)) == Tracked(Line(s)) + (if Untracked(frame) then [] else [frame])
  {
    assert Line(t) == Line(s) + [frame];
    TrackedAppend(Line(s), [frame]);
  }

  /** An unsolicited packet that no completion waits for. */
  lemma LineNotified(s: State, t: State, header: Header)
    requires Untracked(header.xid) && t == s.(inFlight := s.inFlight + [header])
    ensures Tracked(Line(t)) == Tracked(Line(s))
  {
    var front := (if s.io.Packet? then [s.io.header.xid] else []) + HeaderXids(s.toProcess) + HeaderXids(s.inFlight);
    var back := s.atServer + s.toSend;
    assert HeaderXids(t.inFlight) == HeaderXids(s.inFlight) + [header.xid];
    assert Line(s) == front + back && Line(t) == front + [header.xid] + back;
    TrackedAppend(front, back);
    TrackedAppend(front + [header.xid], back);
    TrackedAppend(front, [header.xid]);
  }

  /** The packet in hand is the head of the line. */
  lemma LineHead(s: State, t: State)
    requires s.io.Packet? && !t.io.Packet?
    requires t.toProcess == s.toProcess && t.inFlight == s.inFlight && t.atServer == s.atServer && t.toSend == s.toSend
    ensures Tracked(Line(s)) == (if Untracked(s.io.header.xid) then [] else [s.io.header.xid]) + Tracked(Line(t))
  {
    assert Line(s) == [s.io.header.xid] + Line(t);
    TrackedAppend([s.io.header.xid], Line(t));
  }

  lemma SubmitMatches(s: State, step: Step)
    requires Matching(s) && Enabled(s, step) && (step.Submit? || step.Ping? || step.QueueUntracked?)
    ensures Matching(Next(s, step))
  {
    var t := Next(s, step);
    LineGrows(s, t, t.toSend[|s.toSend|]);
    if |t.sent| > |s.sent| {
      assert Xids(t.sent) == Xids(s.sent) + [t.sent[|s.sent|].xid];
    }
  }

  lemma MatchMatches(s: State)
    requires Matching(s) && Enabled(s, Match)
    ensures Matching(Next(s, Match))
  {
    var t := Next(s, Match);
    LineHead(s, t);
    if s.sent != [] {
      assert Xids(s.sent) == [s.sent[0].xid] + Xids(t.sent);
      assert s.io.header.xid == Tracked(Line(s))[0] == Xids(s.sent)[0];
      assert Tracked(Line(s))[1..] == Tracked(Line(t));
    }
  }

  /** Nothing moves along the line. */
  predicate LineUntouched(s: State, t: State) {
    && t.toSend == s.toSend && t.atServer == s.atServer && t.inFlight == s.inFlight && t.toProcess == s.toProcess
    && t.sent == s.sent && !t.crashed && !t.io.Mismatched? && (t.io == s.io || (!s.io.Packet? && !t.io.Packet?))
    && (s.closing ==> t.closing)
  }

  lemma LineUntouchedByIoThread(s: State, step: Step)
    requires Matching(s) && Enabled(s, step)
    requires step.Reconnect? || step.SessionEvent? || step.Deliver? || step.Lose? || step.ExitIo?
    ensures LineUntouched(s, Next(s, step))
  {
  }

  lemma LineUntouchedByOthers(s: State, step: Step)
    requires Matching(s) && Enabled(s, step)
    requires step.DrawXid? || step.Close? || step.QueueDeath? || (ByCompletionThread(step) && !step.FreeRest?)
    ensures LineUntouched(s, Next(s, step))
  {
  }

  lemma UntouchedMatches(s: State, t: State)
    requires Matching(s) && LineUntouched(s, t)
    ensures Matching(t)
  {
    assert Line(t) == Line(s);
  }

  lemma MatchingKept(s: State, step: Step)
    requires Matching(s) && Phases(s) && Enabled(s, step) && InAnswerOrder(step)
    ensures Matching(Next(s, step))
  {
    if step.Submit? || step.Ping? || step.QueueUntracked? {
      SubmitMatches(s, step);
    } else if step.Reconnect? || step.SessionEvent? || step.Deliver? || step.Lose? || step.ExitIo? {
      LineUntouchedByIoThread(s, step);
      UntouchedMatches(s, Next(s, step));
    } else if step.DrawXid? || step.Close? || step.QueueDeath? || (ByCompletionThread(step) && !step.FreeRest?) {
      LineUntouchedByOthers(s, step);
      UntouchedMatches(s, Next(s, step));
    } else if step.Transmit? || step.Serve? || step.Receive? || step.DequeueBuffer? || step.Notify? || step.Inject? {
      TravelMatches(s, step);
    } else {
      HandlingMatches(s, step);
    }
  }

  /** Packets and frames go on along the line, or untracked ones join it. */
  lemma TravelMatches(s: State, step: Step)
    requires Matching(s) && Enabled(s, step) && InAnswerOrder(step)
    requires step.Transmit? || step.Serve? || step.Receive? || step.DequeueBuffer? || step.Notify? || step.Inject?
    ensures Matching(Next(s, step))
  {
    var t := Next(s, step);
    match step
    case Transmit => LineTransmits(s);
    case Serve(err) => LineServes(s, err);
    case Receive => LineReceives(s);
    case DequeueBuffer => LineDequeues(s);
    case Notify => LineNotified(s, t, Header(WATCHER_EVENT_XID, 0));
    case Inject(header) => LineNotified(s, t, header);
  }

  /** The packet in hand is dealt with, or everything is freed. */
  lemma HandlingMatches(s: State, step: Step)
    requires Matching(s) && Phases(s) && Enabled(s, step)
    requires step.HandleEvent? || step.HandleUntracked? || step.Match? || step.Requeue? || step.FreeRest?
             || step.CleanUp?
    ensures Matching(Next(s, step))
  {
    var t := Next(s, step);
    match step
    case HandleEvent => LineHead(s, t);
    case HandleUntracked(_) => LineHead(s, t);
    case Match => MatchMatches(s);
    case FreeRest => JoinedIsClosing(s);
    case CleanUp(_) => assert t.sent == [] && Line(t) == [];
  }

  lemma JoinedIsClosing(s: State)
    requires Phases(s) && PastDeath(s.comp)
    ensures s.closing
  {
  }

  // ----- Where every completion is -----

  ghost predicate JobsAreAsync(jobs: seq<Job>) {
    forall i | 0 <= i < |jobs| && jobs[i].Answer? :: jobs[i].entry.xid != PING_XID && !jobs[i].entry.sync
  }

  ghost predicate AsyncQueued(s: State) {
    JobsAreAsync(s.completions) && (s.comp.Calling? ==> JobsAreAsync([s.comp.job]))
  }

  /** The completions of one kind, place by place: called back, in the completion thread's hands, in
      its queue, in the I/O thread's hands, waiting for a reply. */
  function Places(s: State, sync: bool): seq<Entry> {
    PlacesOf(s.finished, s.comp, s.completions, s.io, s.sent, sync)
  }

  function PlacesOf(finished: seq<Outcome>, comp: Completer, jobs: seq<Job>, io: Io, sent: seq<Entry>,
                    sync: bool): seq<Entry>
  {
    InRow(Kind(OutcomeEntries(finished), sync), Kind(CompEntries(comp), sync), Kind(JobEntries(jobs), sync),
          Kind(IoEntries(io), sync), Kind(sent, sync))
  }

  function InRow(a: seq<Entry>, b: seq<Entry>, c: seq<Entry>, d: seq<Entry>, e: seq<Entry>): seq<Entry> {
    a + (b + (c + (d + e)))
  }

  lemma {:induction false} AsyncJobs(jobs: seq<Job>)
    requires JobsAreAsync(jobs)
    ensures Kind(JobEntries(jobs), true) == [] && Kind(JobEntries(jobs), false) == JobEntries(jobs)
  {
    if jobs != [] {
      AsyncJobs(jobs[1..]);
      KindAppend(if jobs[0].Answer? then [jobs[0].entry] else [], JobEntries(jobs[1..]), true);
      KindAppend(if jobs[0].Answer? then [jobs[0].entry] else [], JobEntries(jobs[1..]), false);
    }
  }

  lemma {:induction false} FakesAreAsync(sent: seq<Entry>, rc: int)
    ensures JobsAreAsync(FakeReplies(sent, rc))
  {
    if sent != [] {
      FakesAreAsync(sent[1..], rc);
    }
  }

  lemma {:induction false} KindTwice(entries: seq<Entry>, kind: bool, sync: bool)
    ensures Kind(Kind(entries, kind), sync) == if kind == sync then Kind(entries, kind) else []
  {
    if entries != [] {
      KindTwice(entries[1..], kind, sync);
      KindAppend(if entries[0].xid != PING_XID && entries[0].sync == kind then [entries[0]] else [],
                 Kind(entries[1..], kind), sync);
    }
  }

  lemma OutcomesAppend(a: seq<Outcome>, b: seq<Outcome>, sync: bool)
    ensures Kind(OutcomeEntries(a + b), sync) == Kind(OutcomeEntries(a), sync) + Kind(OutcomeEntries(b), sync)
  {
    assert OutcomeEntries(a + b) == OutcomeEntries(a) + OutcomeEntries(b);
    KindAppend(OutcomeEntries(a), OutcomeEntries(b), sync);
  }

  lemma JobKindsAppend(a: seq<Job>, b: seq<Job>, sync: bool)
    ensures Kind(JobEntries(a + b), sync) == Kind(JobEntries(a), sync) + Kind(JobEntries(b), sync)
  {
    JobsAppend(a, b);
    KindAppend(JobEntries(a), JobEntries(b), sync);
  }

  lemma RowMoves(a: seq<Entry>, b: seq<Entry>, c: seq<Entry>, d: seq<Entry>, e: seq<Entry>, x: seq<Entry>)
    ensures InRow(a + x, [], c, d, e) == InRow(a, x, c, d, e)
    ensures InRow(a, x, c, d, e) == InRow(a, [], x + c, d, e)
    ensures InRow(a, b, c + x, [], e) == InRow(a, b, c, x, e) == InRow(a, b, c, [], x + e)
    ensures InRow(a + x, [], [], [], e) == InRow(a, [], [], x, e)
    ensures InRow(a, b, c, d, e + x) == InRow(a, b, c, d, e) + x
  {
  }

  /** Freeing sent_requests moves each completion to its kind's place. */
  lemma FreeingKeepsPlaces(finished: seq<Outcome>, comp: Completer, jobs: seq<Job>, io: Io, sent: seq<Entry>, rc: int,
                           sync: bool)
    requires JobsAreAsync(jobs) && (comp.Calling? ==> JobsAreAsync([comp.job])) && IoEntries(io) == []
    ensures PlacesOf(finished + FailedCalls(sent, rc), comp, jobs + FakeReplies(sent, rc), io, [], sync)
            == PlacesOf(finished, comp, jobs, io, sent, sync)
  {
    JobKindsAppend(jobs, FakeReplies(sent, rc), sync);
    OutcomesAppend(finished, FailedCalls(sent, rc), sync);
    FreedEntries(sent, rc);
    KindTwice(sent, false, sync);
    KindTwice(sent, true, sync);
    FakesAreAsync(sent, rc);
    AsyncJobs(jobs);
    if comp.Calling? {
      AsyncJobs([comp.job]);
    }
    var a, b, c, x := Kind(OutcomeEntries(finished), sync), Kind(CompEntries(comp), sync),
        Kind(JobEntries(jobs), sync), Kind(sent, sync);
    RowMoves(a, b, c, [], [], x);
    assert a + [] == a && c + [] == c && x + [] == x;
  }

  lemma DeliveryKeepsPlaces(finished: seq<Outcome>, comp: Completer, jobs: seq<Job>, e: Entry, h: Header,
                            sent: seq<Entry>, sync: bool)
    requires JobsAreAsync(jobs) && (comp.Calling? ==> JobsAreAsync([comp.job]))
    ensures var before := PlacesOf(finished, comp, jobs, Matched(e, h), sent, sync);
            if e.xid == PING_XID then PlacesOf(finished, comp, jobs, Idle, sent, sync) == before
            else if e.sync then PlacesOf(finished + [Outcome(e, h)], comp, jobs, Idle, sent, sync) == before
            else PlacesOf(finished, comp, jobs + [Answer(e, h)], Idle, sent, sync) == before
  {
    OutcomesAppend(finished, [Outcome(e, h)], sync);
    JobKindsAppend(jobs, [Answer(e, h)], sync);
    assert OutcomeEntries([Outcome(e, h)]) == [e] && JobEntries([Answer(e, h)]) == [e];
    AsyncJobs(jobs);
    if comp.Calling? {
      AsyncJobs([comp.job]);
    }
    RowMoves(Kind(OutcomeEntries(finished), sync), Kind(CompEntries(comp), sync), Kind(JobEntries(jobs), sync), [],
             Kind(sent, sync), Kind([e], sync));
    var a, c := Kind(OutcomeEntries(finished), sync), Kind(JobEntries(jobs), sync);
    assert a + [] == a && c + [] == c;
  }

  lemma MatchKeepsPlaces(finished: seq<Outcome>, comp: Completer, jobs: seq<Job>, h: Header, e: Entry,
                         rest: seq<Entry>, sync: bool)
    ensures PlacesOf(finished, comp, jobs, Packet(h), [e] + rest, sync)
            == PlacesOf(finished, comp, jobs, Matched(e, h), rest, sync)
    ensures PlacesOf(finished, comp, jobs, Packet(h), [e] + rest, sync)
            == PlacesOf(finished, comp, jobs, Mismatched(e), rest, sync)
  {
    KindAppend([e], rest, sync);
    RowMoves(Kind(OutcomeEntries(finished), sync), Kind(CompEntries(comp), sync), Kind(JobEntries(jobs), sync), [],
             Kind(rest, sync), Kind([e], sync));
  }

  lemma TakeKeepsPlaces(finished: seq<Outcome>, comp: Completer, next: Completer, job: Job, rest: seq<Job>, io: Io,
                        sent: seq<Entry>, sync: bool)
    requires !comp.Calling? && CompEntries(next) == JobEntries([job])
    ensures PlacesOf(finished, next, rest, io, sent, sync) == PlacesOf(finished, comp, [job] + rest, io, sent, sync)
  {
    JobKindsAppend([job], rest, sync);
    RowMoves(Kind(OutcomeEntries(finished), sync), [], Kind(JobEntries(rest), sync), Kind(IoEntries(io), sync),
             Kind(sent, sync), Kind(JobEntries([job]), sync));
  }

  lemma CallKeepsPlaces(finished: seq<Outcome>, job: Job, last: bool, next: Completer, jobs: seq<Job>, io: Io,
                        sent: seq<Entry>, sync: bool)
    requires !next.Calling?
    ensures PlacesOf(finished + (if job.Answer? then [Outcome(job.entry, job.header)] else []), next, jobs, io, sent,
                     sync)
            == PlacesOf(finished, Calling(job, last), jobs, io, sent, sync)
  {
    var outcomes := if job.Answer? then [Outcome(job.entry, job.header)] else [];
    OutcomesAppend(finished, outcomes, sync);
    assert OutcomeEntries(outcomes) == JobEntries([job]);
    RowMoves(Kind(OutcomeEntries(finished), sync), [], Kind(JobEntries(jobs), sync), Kind(IoEntries(io), sync),
             Kind(sent, sync), Kind(JobEntries([job]), sync));
  }

  lemma NoticeKeepsPlaces(finished: seq<Outcome>, comp: Completer, jobs: seq<Job>, notice: seq<Job>, io: Io,
                          sent: seq<Entry>, sync: bool)
    requires JobEntries(notice) == []
    ensures PlacesOf(finished, comp, jobs + notice, io, sent, sync) == PlacesOf(finished, comp, jobs, io, sent, sync)
  {
    JobKindsAppend(jobs, notice, sync);
    assert Kind(JobEntries(jobs), sync) + [] == Kind(JobEntries(jobs), sync);
  }

  lemma SendingKeepsPlaces(finished: seq<Outcome>, comp: Completer, jobs: seq<Job>, io: Io, sent: seq<Entry>,
                           e: Entry, sync: bool)
    ensures PlacesOf(finished, comp, jobs, io, sent + [e], sync)
            == PlacesOf(finished, comp, jobs, io, sent, sync) + Kind([e], sync)
  {
    KindAppend(sent, [e], sync);
    RowMoves(Kind(OutcomeEntries(finished), sync), Kind(CompEntries(comp), sync), Kind(JobEntries(jobs), sync),
             Kind(IoEntries(io), sync), Kind(sent, sync), Kind([e], sync));
  }

  lemma AsyncAppend(a: seq<Job>, b: seq<Job>)
    requires JobsAreAsync(a) && JobsAreAsync(b)
    ensures JobsAreAsync(a + b)
  {
  }

  lemma AsyncByIoThread(s: State, step: Step)
    requires AsyncQueued(s) && Enabled(s, step) && (step.SessionEvent? || step.HandleEvent? || step.Deliver?)
    ensures AsyncQueued(Next(s, step))
  {
    var t := Next(s, step);
    if step.Deliver? {
      AsyncAppend(s.completions, t.completions[|s.completions|..]);
      assert t.completions == s.completions + t.completions[|s.completions|..];
    } else {
      AsyncAppend(s.completions, [Event]);
    }
  }

  lemma AsyncFreed(s: State, step: Step)
    requires AsyncQueued(s) && Enabled(s, step) && (step.CleanUp? || step.FreeRest?)
    ensures AsyncQueued(Next(s, step))
  {
    var events := if step.CleanUp? && step.event then [Event] else [];
    var rc := if step.CleanUp? then s.io.rc else INVALID_STATE;
    FakesAreAsync(s.sent, rc);
    AsyncAppend(s.completions, events);
    AsyncAppend(s.completions + events, FakeReplies(s.sent, rc));
    assert s.completions + [] == s.completions;
  }

  lemma AsyncTaken(s: State, step: Step)
    requires AsyncQueued(s) && Enabled(s, step) && (step.Take? || step.Call? || step.QueueDeath?)
    ensures AsyncQueued(Next(s, step))
  {
    if step.QueueDeath? {
      AsyncAppend(s.completions, [Death]);
    }
  }

  lemma AsyncKept(s: State, step: Step)
    requires AsyncQueued(s) && Enabled(s, step)
    ensures AsyncQueued(Next(s, step))
  {
    if step.SessionEvent? || step.HandleEvent? || step.Deliver? {
      AsyncByIoThread(s, step);
    } else if step.CleanUp? || step.FreeRest? {
      AsyncFreed(s, step);
    } else if step.Take? || step.Call? || step.QueueDeath? {
      AsyncTaken(s, step);
    } else if step.Submit? || step.Ping? || step.Match? || step.Requeue? {
      assert Next(s, step).completions == s.completions && Next(s, step).comp == s.comp;
    } else if ByIoThread(step) {
      UntouchedByIoThread(s, step);
    } else {
      UntouchedByOthers(s, step);
    }
  }

  predicate Untouched(s: State, t: State) {
    && t.sent == s.sent && t.completions == s.completions && t.finished == s.finished && t.accepted == s.accepted
    && (t.comp == s.comp || (!s.comp.Calling? && !t.comp.Calling?))
    && IoEntries(t.io) == IoEntries(s.io)
  }

  lemma UntouchedByIoThread(s: State, step: Step)
    requires Enabled(s, step)
    requires step.Reconnect? || step.Receive? || step.DequeueBuffer? || step.HandleUntracked? || step.Lose?
             || step.ExitIo?
    ensures Untouched(s, Next(s, step))
  {
  }

  lemma UntouchedByOthers(s: State, step: Step)
    requires Enabled(s, step)
    requires step.DrawXid? || step.QueueUntracked? || step.Transmit? || step.Close? || step.Serve? || step.Notify?
             || step.Inject? || step.Join? || step.Finish?
    ensures Untouched(s, Next(s, step))
  {
  }

  lemma UntouchedKeepsPlaces(s: State, t: State, sync: bool)
    requires Untouched(s, t)
    ensures Places(t, sync) == Places(s, sync)
  {
    assert CompEntries(t.comp) == CompEntries(s.comp);
  }

  lemma EventsKeepPlaces(s: State, step: Step, sync: bool)
    requires Enabled(s, step) && (step.SessionEvent? || step.HandleEvent?)
    ensures Places(Next(s, step), sync) == Places(s, sync)
  {
    var t := Next(s, step);
    assert IoEntries(t.io) == IoEntries(s.io);
    EventKeepsPlaces(s, t, sync);
  }

  lemma EventKeepsPlaces(s: State, t: State, sync: bool)
    requires t.finished == s.finished && t.comp == s.comp && t.completions == s.completions + [Event]
             && t.sent == s.sent
    requires IoEntries(t.io) == IoEntries(s.io)
    ensures Places(t, sync) == Places(s, sync)
  {
    assert JobEntries([Event]) == [];
    NoticeKeepsPlaces(s.finished, s.comp, s.completions, [Event], s.io, s.sent, sync);
  }

  lemma DeliverKeepsPlaces(s: State, sync: bool)
    requires AsyncQueued(s) && Enabled(s, Deliver)
    ensures Places(Next(s, Deliver), sync) == Places(s, sync)
  {
    DeliveryKeepsPlaces(s.finished, s.comp, s.completions, s.io.entry, s.io.answer, s.sent, sync);
  }

  lemma MatchTakesFirst(s: State)
    requires Enabled(s, Match)
    ensures var t := Next(s, Match);
            && t.finished == s.finished && t.comp == s.comp && t.completions == s.completions
            && if s.sent == [] then t.sent == [] && t.io == Idle
               else t.sent == s.sent[1..] && (t.io == Matched(s.sent[0], s.io.header) || t.io == Mismatched(s.sent[0]))
  {
  }

  lemma MatchingKeepsPlaces(s: State, sync: bool)
    requires Enabled(s, Match)
    ensures Places(Next(s, Match), sync) == Places(s, sync)
  {
    MatchTakesFirst(s);
    if s.sent != [] {
      assert [s.sent[0]] + s.sent[1..] == s.sent;
      MatchKeepsPlaces(s.finished, s.comp, s.completions, s.io.header, s.sent[0], s.sent[1..], sync);
    }
  }

  lemma PingKeepsPlaces(s: State, sync: bool)
    requires Enabled(s, Ping)
    ensures Places(Next(s, Ping), sync) == Places(s, sync)
  {
    SendingKeepsPlaces(s.finished, s.comp, s.completions, s.io, s.sent, Entry(PING_XID, false), sync);
    assert Places(s, sync) + [] == Places(s, sync);
  }

  lemma CleanUpKeepsPlaces(s: State, event: bool, sync: bool)
    requires AsyncQueued(s) && Enabled(s, CleanUp(event))
    ensures Places(Next(s, CleanUp(event)), sync) == Places(s, sync)
  {
    var events := if event then [Event] else [];
    assert JobEntries(events) == [];
    NoticeKeepsPlaces(s.finished, s.comp, s.completions, events, s.io, s.sent, sync);
    FreeingKeepsPlaces(s.finished, s.comp, s.completions + events, s.io, s.sent, s.io.rc, sync);
  }

  lemma CompletionThreadKeepsPlaces(s: State, step: Step, sync: bool)
    requires AsyncQueued(s) && Phases(s) && Enabled(s, step) && (step.Take? || step.Call? || step.FreeRest?)
    ensures Places(Next(s, step), sync) == Places(s, sync)
  {
    var t := Next(s, step);
    if step.Take? {
      assert [s.completions[0]] + s.completions[1..] == s.completions;
      assert s.completions[0].Death? ==> JobEntries([s.completions[0]]) == [];
      TakeKeepsPlaces(s.finished, s.comp, t.comp, s.completions[0], s.completions[1..], s.io, s.sent, sync);
    } else if step.Call? {
      CallKeepsPlaces(s.finished, s.comp.job, s.comp.last, t.comp, s.completions, s.io, s.sent, sync);
    } else {
      FreeingKeepsPlaces(s.finished, s.comp, s.completions, s.io, s.sent, INVALID_STATE, sync);
    }
  }

  lemma SubmitAddsOne(s: State, step: Step, sync: bool)
    requires Enabled(s, step) && step.Submit?
    ensures var t := Next(s, step);
            Places(t, sync) == Places(s, sync) + (if s.closing then [] else Kind([Entry(step.xid, step.sync)], sync))
  {
    SendingKeepsPlaces(s.finished, s.comp, s.completions, s.io, s.sent, Entry(step.xid, step.sync), sync);
    assert Places(s, sync) + [] == Places(s, sync);
  }

  /** A step puts at most a newly accepted completion anywhere, and takes none away or past another
      of its kind; requeueing after a mismatch is the one exception. */
  lemma PlacesKept(s: State, step: Step, sync: bool)
    requires AsyncQueued(s) && Phases(s) && Enabled(s, step) && !step.Requeue?
    ensures var t := Next(s, step);
            Places(t, sync) == Places(s, sync) + NewlyAccepted(s, step, sync)
  {
    assert Places(s, sync) + [] == Places(s, sync);
    if step.Submit? {
      SubmitAddsOne(s, step, sync);
    } else if step.SessionEvent? || step.HandleEvent? {
      EventsKeepPlaces(s, step, sync);
    } else if step.Match? {
      MatchingKeepsPlaces(s, sync);
    } else if step.Deliver? {
      DeliverKeepsPlaces(s, sync);
    } else if step.Ping? {
      PingKeepsPlaces(s, sync);
    } else if step.CleanUp? {
      CleanUpKeepsPlaces(s, step.event, sync);
    } else if step.Take? || step.Call? || step.FreeRest? {
      CompletionThreadKeepsPlaces(s, step, sync);
    } else if step.QueueDeath? {
      assert JobEntries([Death]) == [];
      NoticeKeepsPlaces(s.finished, s.comp, s.completions, [Death], s.io, s.sent, sync);
    } else {
      if ByIoThread(step) {
        UntouchedByIoThread(s, step);
      } else {
        UntouchedByOthers(s, step);
      }
      UntouchedKeepsPlaces(s, Next(s, step), sync);
    }
  }

  lemma RequeueShuffles(a: seq<Entry>, b: seq<Entry>, c: seq<Entry>, d: seq<Entry>, e: seq<Entry>)
    ensures multiset(InRow(a, b, c, [], e + d)) == multiset(InRow(a, b, c, d, e))
  {
    assert multiset(e + d) == multiset(d + e);
  }

  lemma RequeuePlaces(finished: seq<Outcome>, comp: Completer, jobs: seq<Job>, e: Entry, next: Io, sent: seq<Entry>,
                      sync: bool)
    requires IoEntries(next) == []
    ensures multiset(PlacesOf(finished, comp, jobs, next, sent + [e], sync))
            == multiset(PlacesOf(finished, comp, jobs, Mismatched(e), sent, sync))
  {
    KindAppend(sent, [e], sync);
    RequeueShuffles(Kind(OutcomeEntries(finished), sync), Kind(CompEntries(comp), sync), Kind(JobEntries(jobs), sync),
                    Kind([e], sync), Kind(sent, sync));
  }

  lemma RequeueKeepsPlaces(s: State, sync: bool)
    requires Enabled(s, Requeue)
    ensures multiset(Places(Next(s, Requeue), sync)) == multiset(Places(s, sync))
  {
    RequeuePlaces(s.finished, s.comp, s.completions, s.io.entry, Next(s, Requeue).io, s.sent, sync);
  }

  /** What add_completion has accepted, and what it has freed. */
  predicate Recorded(s: State, t: State) {
    t.accepted == s.accepted && t.refused == s.refused && t.drawn == s.drawn && t.nextXid == s.nextXid
  }

  lemma RecordedByIoThread(s: State, step: Step)
    requires Enabled(s, step) && ByIoThread(step)
    ensures Recorded(s, Next(s, step))
  {
    if step.Match? || step.Deliver? || step.HandleUntracked? {
      RecordedMatching(s, step);
    } else if Answering(step) {
      RecordedReceiving(s, step);
    } else {
      RecordedOtherwise(s, step);
    }
  }

  lemma RecordedMatching(s: State, step: Step)
    requires Enabled(s, step) && (step.Match? || step.Deliver? || step.HandleUntracked?)
    ensures Recorded(s, Next(s, step))
  {
  }

  lemma RecordedReceiving(s: State, step: Step)
    requires Enabled(s, step) && (step.Receive? || step.DequeueBuffer? || step.HandleEvent?)
    ensures Recorded(s, Next(s, step))
  {
  }

  lemma RecordedOtherwise(s: State, step: Step)
    requires Enabled(s, step) && ByIoThread(step) && !Answering(step)
    ensures Recorded(s, Next(s, step))
  {
  }

  lemma RecordedByOthers(s: State, step: Step)
    requires Enabled(s, step) && !ByIoThread(step) && !step.Submit? && !step.DrawXid?
    ensures Recorded(s, Next(s, step))
  {
  }

  lemma AcceptedGrows(s: State, step: Step)
    requires Enabled(s, step)
    ensures Next(s, step).accepted == s.accepted
            + (if step.Submit? && !s.closing then [Entry(step.xid, step.sync)] else [])
  {
    if ByIoThread(step) {
      RecordedByIoThread(s, step);
    } else if !step.Submit? && !step.DrawXid? {
      RecordedByOthers(s, step);
    }
  }

  // ----- Xids are unique -----

  ghost predicate Numbered(s: State) {
    && (forall x | x in s.drawn :: x < s.nextXid)
    && (forall i | 0 <= i < |s.accepted| :: 0 <= s.accepted[i].xid < s.nextXid && s.accepted[i].xid !in s.drawn)
    && (forall i | 0 <= i < |s.refused| :: 0 <= s.refused[i].xid < s.nextXid && s.refused[i].xid !in s.drawn)
    && (forall i, j | 0 <= i < j < |s.accepted| :: s.accepted[i].xid != s.accepted[j].xid)
    && (forall i, j | 0 <= i < |s.accepted| && 0 <= j < |s.refused| :: s.accepted[i].xid != s.refused[j].xid)
  }

  lemma NumberedKept(s: State, step: Step)
    requires Numbered(s) && Enabled(s, step)
    ensures Numbered(Next(s, step))
  {
    if ByIoThread(step) {
      RecordedByIoThread(s, step);
    } else if !step.Submit? && !step.DrawXid? {
      RecordedByOthers(s, step);
    }
  }

  // ----- No callback gets another request's reply -----

  ghost predicate OwnJobs(jobs: seq<Job>) {
    forall i | 0 <= i < |jobs| && jobs[i].Answer? :: jobs[i].header.xid == jobs[i].entry.xid
  }

  ghost predicate OwnReplies(s: State) {
    && (forall i | 0 <= i < |s.finished| :: s.finished[i].header.xid == s.finished[i].entry.xid)
    && OwnJobs(s.completions) && (s.comp.Calling? ==> OwnJobs([s.comp.job]))
    && (s.io.Matched? ==> s.io.answer.xid == s.io.entry.xid)
  }

  lemma {:induction false} FreedAreOwn(sent: seq<Entry>, rc: int)
    ensures OwnJobs(FakeReplies(sent, rc))
    ensures forall i | 0 <= i < |FailedCalls(sent, rc)| ::
              FailedCalls(sent, rc)[i].header.xid == FailedCalls(sent, rc)[i].entry.xid
  {
    if sent != [] {
      FreedAreOwn(sent[1..], rc);
    }
  }

  lemma OwnAppend(a: seq<Job>, b: seq<Job>)
    requires OwnJobs(a) && OwnJobs(b)
    ensures OwnJobs(a + b)
  {
  }

  lemma OwnDelivered(s: State, step: Step)
    requires OwnReplies(s) && Enabled(s, step)
             && (step.SessionEvent? || step.HandleEvent? || step.Match? || step.Deliver?)
    ensures OwnReplies(Next(s, step))
  {
    OwnAppend(s.completions, [Event]);
    if step.Deliver? {
      OwnAppend(s.completions, [Answer(s.io.entry, s.io.answer)]);
    }
  }

  lemma OwnCleanedUp(s: State, event: bool)
    requires OwnReplies(s) && Enabled(s, CleanUp(event))
    ensures OwnReplies(Next(s, CleanUp(event)))
  {
    var events := if event then [Event] else [];
    FreedAreOwn(s.sent, s.io.rc);
    OwnAppend(s.completions, events);
    OwnAppend(s.completions + events, FakeReplies(s.sent, s.io.rc));
  }

  lemma OwnUntouched(s: State, step: Step)
    requires OwnReplies(s) && Enabled(s, step) && ByIoThread(step)
    requires !(step.SessionEvent? || step.HandleEvent? || step.Match? || step.Deliver? || step.CleanUp?)
    ensures OwnReplies(Next(s, step))
  {
    if step.Requeue? || step.Ping? {
      assert Next(s, step).finished == s.finished && Next(s, step).completions == s.completions;
    } else {
      UntouchedByIoThread(s, step);
    }
  }

  lemma OwnByOthers(s: State, step: Step)
    requires OwnReplies(s) && Enabled(s, step) && !ByIoThread(step)
    ensures OwnReplies(Next(s, step))
  {
    if step.FreeRest? {
      FreedAreOwn(s.sent, INVALID_STATE);
      OwnAppend(s.completions, FakeReplies(s.sent, INVALID_STATE));
    } else if step.QueueDeath? {
      OwnAppend(s.completions, [Death]);
    } else if step.Call? {
      assert s.comp.job == [s.comp.job][0];
    }
  }

  // ----- Every run -----

  /** What holds whatever the server sends. */
  ghost predicate Safe(s: State) {
    && Phases(s) && AsyncQueued(s) && Numbered(s) && OwnReplies(s)
    && multiset(Places(s, false)) == multiset(Kind(s.accepted, false))
    && multiset(Places(s, true)) == multiset(Kind(s.accepted, true))
  }

  /** What holds as long as the server answers in order. */
  ghost predicate InOrder(s: State) {
    Matching(s) && Places(s, false) == Kind(s.accepted, false) && Places(s, true) == Kind(s.accepted, true)
  }

  /** What a step adds to the accepted completions of one kind. */
  function NewlyAccepted(s: State, step: Step, sync: bool): seq<Entry> {
    if step.Submit? && !s.closing then Kind([Entry(step.xid, step.sync)], sync) else []
  }

  lemma AcceptedKind(s: State, t: State, step: Step, sync: bool)
    requires t.accepted == s.accepted + (if step.Submit? && !s.closing then [Entry(step.xid, step.sync)] else [])
    ensures Kind(t.accepted, sync) == Kind(s.accepted, sync) + NewlyAccepted(s, step, sync)
  {
    if step.Submit? && !s.closing {
      KindAppend(s.accepted, [Entry(step.xid, step.sync)], sync);
    } else {
      assert s.accepted + [] == s.accepted && Kind(s.accepted, sync) + [] == Kind(s.accepted, sync);
    }
  }

  lemma CountKept(s: State, step: Step, sync: bool)
    requires AsyncQueued(s) && Phases(s) && Enabled(s, step)
    requires multiset(Places(s, sync)) == multiset(Kind(s.accepted, sync))
    ensures multiset(Places(Next(s, step), sync)) == multiset(Kind(Next(s, step).accepted, sync))
  {
    AcceptedGrows(s, step);
    AcceptedKind(s, Next(s, step), step, sync);
    if step.Requeue? {
      RequeueKeepsPlaces(s, sync);
    } else {
      PlacesKept(s, step, sync);
    }
  }

  lemma OrderKept(s: State, step: Step, sync: bool)
    requires AsyncQueued(s) && Phases(s) && Enabled(s, step) && !step.Requeue?
    requires Places(s, sync) == Kind(s.accepted, sync)
    ensures Places(Next(s, step), sync) == Kind(Next(s, step).accepted, sync)
  {
    PlacesKept(s, step, sync);
    AcceptedGrows(s, step);
    AcceptedKind(s, Next(s, step), step, sync);
  }

  lemma OwnKept(s: State, step: Step)
    requires OwnReplies(s) && Enabled(s, step)
    ensures OwnReplies(Next(s, step))
  {
    if step.SessionEvent? || step.HandleEvent? || step.Match? || step.Deliver? {
      OwnDelivered(s, step);
    } else if step.CleanUp? {
      OwnCleanedUp(s, step.event);
    } else if ByIoThread(step) {
      OwnUntouched(s, step);
    } else {
      OwnByOthers(s, step);
    }
  }

  lemma SafeKept(s: State, step: Step)
    ensures Safe(s) && Enabled(s, step) ==> Safe(Next(s, step))
  {
    if Safe(s) && Enabled(s, step) {
      PhasesKept(s, step);
      AsyncKept(s, step);
      NumberedKept(s, step);
      OwnKept(s, step);
      CountKept(s, step, false);
      CountKept(s, step, true);
    }
  }

  lemma InitiallySafe()
    ensures Safe(INITIAL) && InOrder(INITIAL)
  {
    NothingIsSafe(INITIAL);
    NothingIsInOrder(INITIAL);
  }

  lemma NothingIsSafe(s: State)
    requires s.drawn == {} && s.accepted == s.refused == s.sent == [] && s.completions == [] && s.finished == []
    requires s.io == Idle && s.comp == Running && !s.deathQueued
    ensures Safe(s)
  {
    NothingIsPlaced(s, false);
    NothingIsPlaced(s, true);
    assert Phases(s) && AsyncQueued(s) && Numbered(s) && OwnReplies(s);
  }

  lemma NothingIsPlaced(s: State, sync: bool)
    requires s.sent == [] && s.completions == [] && s.finished == [] && s.io == Idle && s.comp == Running
    ensures Places(s, sync) == []
  {
  }

  lemma NothingIsInOrder(s: State)
    requires s.accepted == s.sent == [] && s.completions == [] && s.finished == [] && s.io == Idle && s.comp == Running
    requires s.toSend == s.atServer == [] && s.inFlight == s.toProcess == [] && !s.crashed
    ensures InOrder(s)
  {
    NothingIsPlaced(s, false);
    NothingIsPlaced(s, true);
    assert Line(s) == [];
  }

  lemma {:induction false} EveryRunIsSafe(run: seq<Step>)
    requires IsRun(run)
    ensures Safe(After(run))
    decreases |run|
  {
    if run == [] {
      InitiallySafe();
    } else {
      var before, step := run[..|run| - 1], run[|run| - 1];
      EveryRunIsSafe(before);
      SafeKept(After(before), step);
    }
  }

  lemma InOrderKept(s: State, step: Step)
    requires Safe(s) && InOrder(s) && Enabled(s, step) && InAnswerOrder(step)
    ensures InOrder(Next(s, step))
  {
    MatchingKept(s, step);
    OrderKept(s, step, false);
    OrderKept(s, step, true);
  }

  lemma {:induction false} HonestRunsAreInOrder(run: seq<Step>)
    requires IsRun(run) && Honest(run)
    ensures InOrder(After(run))
    decreases |run|
  {
    if run == [] {
      InitiallySafe();
    } else {
      var before, step := run[..|run| - 1], run[|run| - 1];
      HonestRunsAreInOrder(before);
      EveryRunIsSafe(before);
      InOrderKept(After(before), step);
    }
  }

  /** FIFO matching: against a server that answers in order, with notifications and untracked packets
      in between, the xid check never fails, the assertion never fires, and the xids of sent_requests
      are those on their way round; a frame without a completion needs close_requested. */
  lemma MatchingNeverFails(run: seq<Step>)
    requires IsRun(run) && Honest(run)
    ensures Matching(After(run))
  {
    HonestRunsAreInOrder(run);
  }

  /** The callbacks of one kind that have run are the first of those accepted, in that order; all of
      them once do_completion has returned. */
  ghost predicate CalledInOrder(s: State, sync: bool) {
    && Kind(OutcomeEntries(s.finished), sync) <= Kind(s.accepted, sync)
    && (s.comp.Done? ==> Kind(OutcomeEntries(s.finished), sync) == Kind(s.accepted, sync))
  }

  /** Callbacks of each kind run in the order in which their requests were accepted, whatever
      connections were lost in between, and all have run once do_completion returns. */
  lemma CallbacksRunInOrder(run: seq<Step>, sync: bool)
    requires IsRun(run) && Honest(run)
    ensures CalledInOrder(After(run), sync)
  {
    HonestRunsAreInOrder(run);
    EveryRunIsSafe(run);
    InOrderCalls(After(run), sync);
  }

  lemma InOrderCalls(s: State, sync: bool)
    requires InOrder(s) && Phases(s)
    ensures CalledInOrder(s, sync)
  {
    if s.comp.Done? {
      DonePlaces(s, sync);
    }
  }

  lemma DonePlaces(s: State, sync: bool)
    requires Phases(s) && s.comp.Done?
    ensures Places(s, sync) == Kind(OutcomeEntries(s.finished), sync)
  {
    assert s.sent == [] && s.completions == [] && s.io == Exited;
    var a := Kind(OutcomeEntries(s.finished), sync);
    assert InRow(a, [], [], [], []) == a;
  }

  lemma {:induction false} KindCount(entries: seq<Entry>, e: Entry)
    requires e.xid != PING_XID
    ensures multiset(Kind(entries, e.sync))[e] == multiset(entries)[e]
  {
    if entries != [] {
      KindCount(entries[1..], e);
      assert entries == [entries[0]] + entries[1..];
    }
  }

  function Copies(s: State, e: Entry): nat {
    multiset(OutcomeEntries(s.finished))[e] + multiset(CompEntries(s.comp))[e] + multiset(JobEntries(s.completions))[e]
    + multiset(IoEntries(s.io))[e] + multiset(s.sent)[e]
  }

  lemma CopiesArePlaces(s: State, e: Entry)
    requires e.xid != PING_XID
    ensures Copies(s, e) == multiset(Places(s, e.sync))[e]
  {
    KindCount(OutcomeEntries(s.finished), e);
    KindCount(CompEntries(s.comp), e);
    KindCount(JobEntries(s.completions), e);
    KindCount(IoEntries(s.io), e);
    KindCount(s.sent, e);
  }

  lemma {:induction false} DistinctCount(entries: seq<Entry>, e: Entry)
    requires forall i, j | 0 <= i < j < |entries| :: entries[i].xid != entries[j].xid
    ensures multiset(entries)[e] == if e in entries then 1 else 0
  {
    if entries != [] {
      DistinctCount(entries[1..], e);
      assert entries == [entries[0]] + entries[1..];
      assert forall j | 0 <= j < |entries[1..]| :: entries[1..][j].xid != entries[0].xid;
    }
  }

  ghost predicate OnlyOnce(s: State, e: Entry) {
    && (e in s.accepted ==> Copies(s, e) == 1)
    && (e in s.accepted && s.comp.Done? ==> multiset(OutcomeEntries(s.finished))[e] == 1)
    && (e in s.refused ==> Copies(s, e) == 0)
  }

  lemma CountedInAccepted(s: State, e: Entry)
    requires Numbered(s) && (e in s.accepted || e in s.refused)
    ensures e.xid != PING_XID
    ensures multiset(Kind(s.accepted, e.sync))[e] == if e in s.accepted then 1 else 0
    ensures e in s.refused ==> e !in s.accepted
  {
    KindCount(s.accepted, e);
    DistinctCount(s.accepted, e);
  }

  /** Exactly once, whatever the server sends, whenever connections fail and whenever the client is
      closed: an accepted completion is in exactly one place, so its callback never runs twice; and
      once do_completion returns it has run. A completion refused because of close_requested is
      nowhere and never runs. */
  lemma ExactlyOnce(run: seq<Step>, e: Entry)
    requires IsRun(run)
    ensures OnlyOnce(After(run), e)
  {
    var s := After(run);
    EveryRunIsSafe(run);
    if e in s.accepted || e in s.refused {
      CountedInAccepted(s, e);
      CopiesArePlaces(s, e);
      assert multiset(Places(s, e.sync))[e] == multiset(Kind(s.accepted, e.sync))[e];
      if s.comp.Done? {
        DonePlaces(s, e.sync);
        KindCount(OutcomeEntries(s.finished), e);
      }
    }
  }

  /** Whatever the server sends, a callback is only ever handed the header of its own request. */
  lemma OwnReply(run: seq<Step>, i: nat)
    requires IsRun(run) && i < |After(run).finished|
    ensures After(run).finished[i].header.xid == After(run).finished[i].entry.xid
  {
    EveryRunIsSafe(run);
  }

  // ----- What an Ok answer means -----

  lemma RefusedGrows(s: State, step: Step)
    requires Enabled(s, step)
    ensures Next(s, step).refused == s.refused
            + (if step.Submit? && s.closing then [Entry(step.xid, step.sync)] else [])
  {
    if ByIoThread(step) {
      RecordedByIoThread(s, step);
    } else if !step.Submit? && !step.DrawXid? {
      RecordedByOthers(s, step);
    }
  }

  /** Every request of a run is on one of the two records from then on. */
  lemma {:induction false} RequestRecorded(run: seq<Step>, i: nat)
    requires IsRun(run) && i < |run| && run[i].Submit?
    ensures IsRun(run[..i])
    ensures var e := Entry(run[i].xid, run[i].sync);
            if After(run[..i]).closing then e in After(run).refused else e in After(run).accepted
    decreases |run|
  {
    var before, step := run[..|run| - 1], run[|run| - 1];
    AcceptedGrows(After(before), step);
    RefusedGrows(After(before), step);
    assert before[..i] == run[..i];
    if i < |run| - 1 {
      RequestRecorded(before, i);
    }
  }

  /** How often the callback of a request has run. */
  function Calls(s: State, step: Step): nat
    requires step.Submit?
  {
    multiset(OutcomeEntries(s.finished))[Entry(step.xid, step.sync)]
  }

  /** Every request is answered Ok; once do_completion has returned, its callback has run once if the
      client had not been asked to close when the request was made, and never otherwise. */
  lemma CalledOnceIff(run: seq<Step>, i: nat)
    requires IsRun(run) && i < |run| && run[i].Submit?
    ensures IsRun(run[..i]) && Reported(CompletionCode(After(run[..i]).closing)) == OK
    ensures After(run).comp.Done? ==> Calls(After(run), run[i]) == if After(run[..i]).closing then 0 else 1
    ensures Calls(After(run), run[i]) <= 1
  {
    RequestRecorded(run, i);
    ExactlyOnce(run, Entry(run[i].xid, run[i].sync));
  }

  lemma RunExtends(run: seq<Step>, step: Step)
    requires IsRun(run) && Enabled(After(run), step)
    ensures IsRun(run + [step]) && After(run + [step]) == Next(After(run), step)
  {
    assert (run + [step])[..|run|] == run;
  }

  /** There is such a request: answered Ok after the close was requested, it is never called back. */
  lemma OkButNeverCalled() returns (run: seq<Step>, i: nat)
    ensures IsRun(run) && i < |run| && run[i].Submit? && After(run).comp.Done?
    ensures IsRun(run[..i]) && Reported(CompletionCode(After(run[..i]).closing)) == OK
    ensures Calls(After(run), run[i]) == 0
  {
    var closed := ClosedRun();
    run, i := closed + [Submit(0, false)], 2;
    RunExtends(closed, Submit(0, false));
    run := ShutDown(run);
    CalledOnceIff(run, i);
  }

  lemma ClosedRun() returns (run: seq<Step>)
    ensures run == [DrawXid, Close] && IsRun(run)
    ensures After(run) == INITIAL.(nextXid := 1, drawn := {0}, closing := true)
  {
    assert IsRun([]) && After([]) == INITIAL;
    RunExtends([], DrawXid);
    assert [] + [DrawXid] == [DrawXid];
    RunExtends([DrawXid], Close);
    run := [DrawXid] + [Close];
  }

  /** From an idle client that has been asked to close to the return of do_completion. */
  lemma ShutDown(start: seq<Step>) returns (run: seq<Step>)
    requires IsRun(start)
    requires var s := After(start);
             && s.closing && !s.crashed && !s.deathQueued && s.io.Idle? && s.comp.Running? && s.sent == []
             && s.completions == []
    ensures IsRun(run) && start <= run && After(run).comp.Done?
  {
    RunExtends(start, QueueDeath);
    var queued := start + [QueueDeath];
    RunExtends(queued, ExitIo);
    run := Drain(queued + [ExitIo]);
  }

  /** From the packet of death to the return of do_completion. */
  lemma Drain(start: seq<Step>) returns (run: seq<Step>)
    requires IsRun(start)
    requires var s := After(start);
             !s.crashed && s.io.Exited? && s.comp.Running? && s.sent == [] && s.completions == [Death]
    ensures IsRun(run) && start <= run && After(run).comp.Done?
  {
    var s0 := After(start);
    var s1 := MeetsDeath(s0);
    var s2 := Joins(s1);
    var s3 := FreesNothing(s2);
    var s4 := Finishes(s3);
    RunExtends(start, Take);
    RunExtends(start + [Take], Join);
    RunExtends(start + [Take] + [Join], FreeRest);
    RunExtends(start + [Take] + [Join] + [FreeRest], Finish);
    run := start + [Take] + [Join] + [FreeRest] + [Finish];
  }

  lemma MeetsDeath(s: State) returns (t: State)
    requires !s.crashed && s.comp.Running? && s.completions == [Death]
    ensures Enabled(s, Take) && t == Next(s, Take) && t == s.(completions := [], comp := Joining)
  {
    t := Next(s, Take);
  }

  lemma Joins(s: State) returns (t: State)
    requires !s.crashed && s.comp.Joining? && s.io.Exited?
    ensures Enabled(s, Join) && t == Next(s, Join) && t == s.(comp := Joined)
  {
    t := Next(s, Join);
  }

  lemma FreesNothing(s: State) returns (t: State)
    requires !s.crashed && s.comp.Joined? && s.sent == [] && s.completions == []
    ensures Enabled(s, FreeRest) && t == Next(s, FreeRest) && t == s.(comp := Draining)
  {
    t := Next(s, FreeRest);
    assert s.finished + [] == s.finished && s.completions + [] == s.completions;
  }

  lemma Finishes(s: State) returns (t: State)
    requires !s.crashed && s.comp.Draining? && s.completions == []
    ensures Enabled(s, Finish) && t == Next(s, Finish) && t == s.(comp := Done)
  {
    t := Next(s, Finish);
  }
}
