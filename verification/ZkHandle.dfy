/** The handle's queues as the client's threads change them: one method per critical section or loop of
    the source, each proved equal to the steps of the protocol it stands for. */
module ZkHandle {
  import opened Common
  import opened ZkProtocol

  /** The part of the handle the reply loop works on. */
  datatype Queues = Queues(
    sent: seq<Entry>,
    completions: seq<Job>,
    toSend: seq<int>,
    toProcess: seq<Header>,
    finished: seq<Outcome>,
    connected: bool,
    unrecoverable: bool)

  /** How a call of the reply loop ends; Aborted is a failed assertion. */
  datatype Status = Finished | Invalid | AuthenticationFailed | Inconsistent | Aborted

  datatype Processed = Processed(q: Queues, status: Status)

  function Freed(q: Queues, rc: int): Queues {
    q.(sent := [],
       completions := q.completions + FakeReplies(q.sent, rc),
       finished := q.finished + FailedCalls(q.sent, rc))
  }

  /** handle_error: a session event if the session was up or is lost for good, then cleanup_bufs. */
  function Failed(q: Queues, rc: int): Queues {
    Freed(q.(completions := q.completions + (if q.unrecoverable || q.connected then [Event] else []),
             toSend := [], toProcess := []), rc)
    .(connected := false)
  }

  /** What becomes of a reply and the completion it belongs to. */
  function Delivered(q: Queues, e: Entry, h: Header): Queues {
    if h.xid == PING_XID then q
    else if e.sync then q.(finished := q.finished + [Outcome(e, h)])
    else q.(completions := q.completions + [Answer(e, h)])
  }

  /** One reply: the queues after it, and whether the loop has to return. */
  function Handled(q: Queues, closing: bool): Processed
    requires q.toProcess != []
  {
    var h, rest := q.toProcess[0], q.(toProcess := q.toProcess[1..]);
    if h.xid == WATCHER_EVENT_XID then Processed(rest.(completions := rest.completions + [Event]), Finished)
    else if h.xid == SET_WATCHES_XID then Processed(rest, Finished)
    else if h.xid == AUTH_XID then
      if h.err == OK then Processed(rest, Finished)
      else Processed(Failed(rest.(unrecoverable := true), AUTH_FAILED), AuthenticationFailed)
    else if q.sent == [] then Processed(rest, if closing then Invalid else Aborted)
    else if q.sent[0].xid != h.xid then
      Processed(Failed(rest.(sent := q.sent[1..] + [q.sent[0]]), RUNTIME_INCONSISTENCY), Inconsistent)
    else Processed(Delivered(rest.(sent := q.sent[1..]), q.sent[0], h), Finished)
  }

  /** The loop stops early after a reply that carries an error. */
  function ProcessedAll(q: Queues, closing: bool, rc: int): Processed
    decreases |q.toProcess|
  {
    if rc < 0 || q.toProcess == [] then Processed(q, Finished)
    else
      var h, p := q.toProcess[0], Handled(q, closing);
      if p.status != Finished then p else ProcessedAll(p.q, closing, if Untracked(h.xid) then rc else h.err)
  }

  function OneCall(job: Job): seq<Outcome> {
    if job.Answer? then [Outcome(job.entry, job.header)] else []
  }

  /** The callbacks process_completions runs: those before the packet of death. */
  function Called(jobs: seq<Job>): seq<Outcome> {
    if jobs == [] || jobs[0].Death? then []
    else OneCall(jobs[0]) + Called(jobs[1..])
  }

  /** What it leaves behind. */
  function AfterDeath(jobs: seq<Job>): seq<Job> {
    if jobs == [] then [] else if jobs[0].Death? then jobs[1..] else AfterDeath(jobs[1..])
  }

  lemma FreedAreTold(q: Queues, reason: int)
    ensures var f := Freed(q, reason);
            && q.completions <= f.completions && q.finished <= f.finished
            && Told(q.sent, f.completions[|q.completions|..], f.finished[|q.finished|..], reason)
  {
    FreedCarryReason(q.sent, reason);
    FreedEntries(q.sent, reason);
    assert Freed(q, reason).completions[|q.completions|..] == FakeReplies(q.sent, reason);
    assert Freed(q, reason).finished[|q.finished|..] == FailedCalls(q.sent, reason);
  }

  /** What a failure leaves: nothing sent or queued, and everyone who waited told the reason, after the session
      event. */
  ghost predicate Ended(sent: seq<Entry>, completions: seq<Job>, q: Queues, after: Queues, reason: int) {
    && after.sent == [] && after.toSend == [] && after.toProcess == [] && !after.connected
    && completions <= after.completions && q.finished <= after.finished
    && Told(sent, after.completions[|completions|..], after.finished[|q.finished|..], reason)
  }

  lemma FailedEnds(q: Queues, rc: int)
    ensures var event := if q.unrecoverable || q.connected then [Event] else [];
            Ended(q.sent, q.completions + event, q, Failed(q, rc), rc)
    ensures Failed(q, rc).unrecoverable == q.unrecoverable
  {
    FreedAreTold(q.(completions := q.completions + (if q.unrecoverable || q.connected then [Event] else []),
                    toSend := [], toProcess := []), rc);
  }

  /** The first reply by its xid, in the wire's numbers. Watch events are queued; replies to set_watches (-8) and
      good replies to add_auth (-4) are dropped; a bad one fails everything with -115; without anyone waiting the
      loop ends, with an error when closing and by a failed assertion otherwise; a reply out of turn fails
      everything with -2, its place in line lost. */
  lemma SpecialReply(q: Queues, closing: bool)
    requires q.toProcess != []
    ensures var h, p, later := q.toProcess[0], ProcessedAll(q, closing, 0), q.(toProcess := q.toProcess[1..]);
            var event := q.completions + if q.connected then [Event] else [];
            && (h.xid == -1 ==> p == ProcessedAll(later.(completions := q.completions + [Event]), closing, 0))
            && (h.xid == -8 || (h.xid == -4 && h.err == 0) ==> p == ProcessedAll(later, closing, 0))
            && (h.xid == -4 && h.err != 0 ==>
                  p.status == AuthenticationFailed && p.q.unrecoverable
                  && Ended(q.sent, q.completions + [Event], q, p.q, -115))
            && (h.xid !in {-1, -4, -8} && q.sent == [] ==>
                  p == Processed(later, if closing then Invalid else Aborted))
            && (h.xid !in {-1, -4, -8} && q.sent != [] && q.sent[0].xid != h.xid ==>
                  p.status == Inconsistent && p.q.unrecoverable == q.unrecoverable
                  && Ended(q.sent[1..] + [q.sent[0]], if q.unrecoverable then q.completions + [Event] else event, q,
                           p.q, -2))
  {
    var h, later := q.toProcess[0], q.(toProcess := q.toProcess[1..]);
    if h.xid == AUTH_XID {
      FailedEnds(later.(unrecoverable := true), AUTH_FAILED);
    } else if q.sent != [] {
      FailedEnds(later.(sent := q.sent[1..] + [q.sent[0]]), RUNTIME_INCONSISTENCY);
    }
  }

  /** A reply in turn goes to the request at the front: a ping's (-2) to nobody, a synchronous one's is called at
      once, an asynchronous one's is queued. A negative code ends the loop, with the rest of the replies kept. */
  lemma ReplyInTurn(q: Queues, closing: bool)
    requires q.toProcess != [] && q.toProcess[0].xid !in {-1, -4, -8}
    requires q.sent != [] && q.sent[0].xid == q.toProcess[0].xid
    ensures var h, e, p := q.toProcess[0], q.sent[0], ProcessedAll(q, closing, 0);
            var later := q.(toProcess := q.toProcess[1..], sent := q.sent[1..]);
            var next := if h.xid == -2 then later
                        else if e.sync then later.(finished := q.finished + [Outcome(e, h)])
                        else later.(completions := q.completions + [Answer(e, h)]);
            p == if h.err < 0 then Processed(next, Finished) else ProcessedAll(next, closing, 0)
  {
    AnyGoodCode(Handled(q, closing).q, closing, q.toProcess[0].err);
  }

  /** Which code came before does not matter as long as it is not negative. */
  lemma AnyGoodCode(q: Queues, closing: bool, rc: int)
    ensures rc >= 0 ==> ProcessedAll(q, closing, rc) == ProcessedAll(q, closing, 0)
    decreases |q.toProcess|
  {
    if rc >= 0 && q.toProcess != [] && Handled(q, closing).status == Finished && Untracked(q.toProcess[0].xid) {
      AnyGoodCode(Handled(q, closing).q, closing, rc);
    }
  }

  class Handle {
    var sent: seq<Entry>
    var completions: seq<Job>
    var toSend: seq<int>
    var toProcess: seq<Header>
    var connected: bool
    var unrecoverable: bool
    var closeRequested: bool
    ghost var finished: seq<Outcome>

    ghost function View(): Queues
      reads this
    {
      Queues(sent, completions, toSend, toProcess, finished, connected, unrecoverable)
    }

    /** add_completion and queue_buffer, as every request makes them under the handle's mutex, and the
        answer to the caller: Ok in either case, because the code of a refusal is not negative. */
    method Submit(xid: int, sync: bool) returns (answer: int)
      modifies this
      ensures closeRequested == old(closeRequested) && answer == Reported(CompletionCode(closeRequested)) == OK
      ensures View() == old(View()).(toSend := old(toSend) + [xid],
                                     sent := if closeRequested then old(sent) else old(sent) + [Entry(xid, sync)])
    {
      var rc := OK;
      if !closeRequested {
        sent := sent + [Entry(xid, sync)];
      } else {
        rc := INVALID_STATE;
      }
      toSend := toSend + [xid];
      answer := if rc < 0 then MARSHALLING_ERROR else OK;
    }

    method FreeCompletions(reason: int)
      modifies this
      ensures closeRequested == old(closeRequested) && View() == Freed(old(View()), reason)
      ensures sent == [] && old(completions) <= completions && old(finished) <= finished
      ensures Told(old(sent), completions[|old(completions)|..], finished[|old(finished)|..], reason)
    {
      ghost var was := View();
      while sent != []
        invariant closeRequested == old(closeRequested)
        invariant Freed(View(), reason) == Freed(was, reason)
        decreases |sent|
      {
        var c := sent[0];
        sent := sent[1..];
        if c.xid == PING_XID {
        } else if c.sync {
          finished := finished + [Outcome(c, Header(c.xid, reason))];
        } else {
          completions := completions + [Answer(c, Header(c.xid, reason))];
        }
      }
      FreedAreTold(was, reason);
    }

    method CleanupBufs(rc: int)
      modifies this
      ensures closeRequested == old(closeRequested)
      ensures View() == Freed(old(View()).(toSend := [], toProcess := []), rc)
      ensures sent == [] && toSend == [] && toProcess == []
      ensures old(completions) <= completions && old(finished) <= finished
      ensures Told(old(sent), completions[|old(completions)|..], finished[|old(finished)|..], rc)
    {
      toSend := [];
      toProcess := [];
      FreeCompletions(rc);
    }

    /** A session event comes first if the session was up or is lost for good. */
    method HandleError(rc: int)
      modifies this
      ensures closeRequested == old(closeRequested) && View() == Failed(old(View()), rc)
      ensures !connected && unrecoverable == old(unrecoverable) && sent == [] && toSend == [] && toProcess == []
      ensures var before := old(completions) + if old(unrecoverable || connected) then [Event] else [];
              && before <= completions && old(finished) <= finished
              && Told(old(sent), completions[|before|..], finished[|old(finished)|..], rc)
    {
      if unrecoverable {
        completions := completions + [Event];
      } else if connected {
        completions := completions + [Event];
      } else {
        assert completions + [] == completions;
      }
      connected := false;
      CleanupBufs(rc);
    }

    method ZookeeperProcess() returns (status: Status)
      modifies this
      ensures closeRequested == old(closeRequested)
      ensures Processed(View(), status) == ProcessedAll(old(View()), closeRequested, OK)
    {
      ghost var goal := ProcessedAll(View(), closeRequested, OK);
      var rc := OK;
      while rc >= 0 && toProcess != []
        invariant closeRequested == old(closeRequested)
        invariant ProcessedAll(View(), closeRequested, rc) == goal
        decreases |toProcess|
      {
        var header := toProcess[0];
        toProcess := toProcess[1..];
        if header.xid == WATCHER_EVENT_XID {
          completions := completions + [Event];
        } else if header.xid == SET_WATCHES_XID {
        } else if header.xid == AUTH_XID {
          if header.err != OK {
            unrecoverable := true;
            HandleError(AUTH_FAILED);
            return AuthenticationFailed;
          }
        } else {
          rc := header.err;
          if sent == [] {
            return if closeRequested then Invalid else Aborted;
          }
          var c := sent[0];
          sent := sent[1..];
          if c.xid != header.xid {
            sent := sent + [c];
            HandleError(RUNTIME_INCONSISTENCY);
            return Inconsistent;
          }
          if header.xid == PING_XID {
          } else if c.sync {
            finished := finished + [Outcome(c, header)];
          } else {
            completions := completions + [Answer(c, header)];
          }
        }
      }
      status := Finished;
    }

    /** Answers whether the packet of death was met. */
    method ProcessCompletions() returns (death: bool)
      modifies this
      ensures closeRequested == old(closeRequested) && death == (Death in old(completions))
      ensures View() == old(View()).(completions := AfterDeath(old(completions)),
                                     finished := old(finished) + Called(old(completions)))
    {
      ghost var jobs, done := completions, finished;
      while completions != []
        invariant closeRequested == old(closeRequested) && (Death in completions <==> Death in jobs)
        invariant finished + Called(completions) == done + Called(jobs) && AfterDeath(completions) == AfterDeath(jobs)
        invariant View() == old(View()).(completions := completions, finished := finished)
        decreases |completions|
      {
        var job := completions[0];
        completions := completions[1..];
        if job.Death? {
          return true;
        }
        Assoc(finished, OneCall(job), Called(completions));
        if job.Answer? {
          finished := finished + [Outcome(job.entry, job.header)];
        } else {
          assert finished + [] == finished;
        }
      }
      death := false;
    }
  }

  // ----- The methods are runs of the protocol -----

  function ViewOf(s: State): Queues {
    Queues(s.sent, s.completions, s.toSend, s.toProcess, s.finished, s.connected, s.unrecoverable)
  }

  ghost predicate CanTake(s: State, steps: seq<Step>)
    decreases |steps|
  {
    steps == [] || (Enabled(s, steps[0]) && CanTake(Next(s, steps[0]), steps[1..]))
  }

  ghost function Taken(s: State, steps: seq<Step>): State
    requires CanTake(s, steps)
    decreases |steps|
  {
    if steps == [] then s else Taken(Next(s, steps[0]), steps[1..])
  }

  lemma TakeOne(s: State, step: Step, rest: seq<Step>)
    requires Enabled(s, step)
    ensures CanTake(s, [step] + rest) <==> CanTake(Next(s, step), rest)
    ensures CanTake(Next(s, step), rest) ==> Taken(s, [step] + rest) == Taken(Next(s, step), rest)
  {
    assert ([step] + rest)[0] == step && ([step] + rest)[1..] == rest;
  }

  /** What the I/O thread does with the packet it holds. */
  function PacketSteps(s: State): seq<Step>
    requires s.io.Packet?
  {
    var h := s.io.header;
    if h.xid == WATCHER_EVENT_XID then [HandleEvent]
    else if h.xid == SET_WATCHES_XID || (h.xid == AUTH_XID && h.err == OK) then [HandleUntracked(true)]
    else if h.xid == AUTH_XID then [HandleUntracked(false), CleanUp(true)]
    else if s.sent == [] then [Match]
    else if s.sent[0].xid != h.xid then [Match, Requeue, CleanUp(s.unrecoverable || s.connected)]
    else [Match, Deliver]
  }

  /** The view of a state whose I/O thread holds a packet: the packet still counts as unprocessed. */
  function ViewWithPacket(s: State): Queues
    requires s.io.Packet?
  {
    ViewOf(s).(toProcess := [s.io.header] + s.toProcess)
  }

  /** The I/O thread is done with the packet. */
  predicate Settled(s: State, t: State) {
    t.io.Idle? && t.closing == s.closing
  }

  lemma AuthFailureIsSteps(s: State)
    requires !s.crashed && s.io.Packet? && s.io.header.xid == AUTH_XID && s.io.header.err != OK
    ensures CanTake(s, PacketSteps(s))
    ensures ViewOf(Taken(s, PacketSteps(s))) == Handled(ViewWithPacket(s), s.closing).q
            && !Taken(s, PacketSteps(s)).crashed
    ensures Settled(s, Taken(s, PacketSteps(s)))
  {
    var s1 := Next(s, HandleUntracked(false));
    assert PacketSteps(s) == [HandleUntracked(false)] + [CleanUp(true)];
    TakeOne(s, HandleUntracked(false), [CleanUp(true)]);
    TakeOne(s1, CleanUp(true), []);
    assert [CleanUp(true)] == [CleanUp(true)] + [];
    assert ViewWithPacket(s).toProcess[1..] == s.toProcess;
  }

  lemma MismatchIsSteps(s: State)
    requires !s.crashed && s.io.Packet? && !Untracked(s.io.header.xid) && s.sent != []
             && s.sent[0].xid != s.io.header.xid
    ensures CanTake(s, PacketSteps(s))
    ensures ViewOf(Taken(s, PacketSteps(s))) == Handled(ViewWithPacket(s), s.closing).q
            && !Taken(s, PacketSteps(s)).crashed
    ensures Settled(s, Taken(s, PacketSteps(s)))
  {
    var clean := CleanUp(s.unrecoverable || s.connected);
    var s1 := Mismatches(s);
    var s2 := Requeues(s1);
    var s3 := CleansUp(s2, clean.event);
    var later, all := [Requeue] + [clean], PacketSteps(s);
    assert all == [Match] + later && [clean] == [clean] + [];
    TakeOne(s2, clean, []);
    TakeOne(s1, Requeue, [clean]);
    TakeOne(s, Match, later);
    assert Taken(s, all) == s3;
    assert ViewWithPacket(s).toProcess[1..] == s.toProcess;
  }

  lemma Mismatches(s: State) returns (t: State)
    requires !s.crashed && s.io.Packet? && !Untracked(s.io.header.xid) && s.sent != []
    requires s.sent[0].xid != s.io.header.xid
    ensures Enabled(s, Match) && t == Next(s, Match) && t == s.(sent := s.sent[1..], io := Mismatched(s.sent[0]))
  {
    t := Next(s, Match);
  }

  lemma Requeues(s: State) returns (t: State)
    requires !s.crashed && s.io.Mismatched?
    ensures Enabled(s, Requeue) && t == Next(s, Requeue)
    ensures t == s.(sent := s.sent + [s.io.entry], io := Failing(RUNTIME_INCONSISTENCY))
  {
    t := Next(s, Requeue);
  }

  lemma CleansUp(s: State, event: bool) returns (t: State)
    requires !s.crashed && s.io.Failing?
    ensures Enabled(s, CleanUp(event)) && t == Next(s, CleanUp(event)) && Settled(s, t) && !t.crashed
    ensures ViewOf(t) == Freed(ViewOf(s).(completions := s.completions + (if event then [Event] else []),
                                          toSend := [], toProcess := []), s.io.rc).(connected := false)
  {
    t := Next(s, CleanUp(event));
  }

  lemma MatchIsSteps(s: State)
    requires !s.crashed && s.io.Packet? && !Untracked(s.io.header.xid) && s.sent != []
             && s.sent[0].xid == s.io.header.xid
    ensures CanTake(s, PacketSteps(s))
    ensures ViewOf(Taken(s, PacketSteps(s))) == Handled(ViewWithPacket(s), s.closing).q
            && !Taken(s, PacketSteps(s)).crashed
    ensures Settled(s, Taken(s, PacketSteps(s)))
  {
    var s1 := Next(s, Match);
    assert PacketSteps(s) == [Match] + [Deliver];
    TakeOne(s, Match, [Deliver]);
    TakeOne(s1, Deliver, []);
    assert [Deliver] == [Deliver] + [];
    assert ViewWithPacket(s).toProcess[1..] == s.toProcess;
  }

  lemma SimplePacketIsStep(s: State)
    requires !s.crashed && s.io.Packet?
    requires s.io.header.xid == WATCHER_EVENT_XID || s.io.header.xid == SET_WATCHES_XID
             || (s.io.header.xid == AUTH_XID && s.io.header.err == OK) || (s.sent == [] && !Untracked(s.io.header.xid))
    ensures CanTake(s, PacketSteps(s))
    ensures var t, p := Taken(s, PacketSteps(s)), Handled(ViewWithPacket(s), s.closing);
            ViewOf(t) == p.q && (t.crashed <==> p.status == Aborted) && Settled(s, t)
  {
    var step := PacketSteps(s)[0];
    assert PacketSteps(s) == [step] + [];
    TakeOne(s, step, []);
    assert ViewWithPacket(s).toProcess[1..] == s.toProcess;
  }

  /** One pass of the reply loop is a run of the protocol from the moment the packet is dequeued, and
      fails its assertion exactly when that run does. */
  lemma PacketIsSteps(s: State)
    requires !s.crashed && s.io.Packet?
    ensures CanTake(s, PacketSteps(s))
    ensures var t, p := Taken(s, PacketSteps(s)), Handled(ViewWithPacket(s), s.closing);
            ViewOf(t) == p.q && (t.crashed <==> p.status == Aborted) && Settled(s, t)
  {
    var h := s.io.header;
    if h.xid == AUTH_XID && h.err != OK {
      AuthFailureIsSteps(s);
    } else if Untracked(h.xid) || s.sent == [] {
      SimplePacketIsStep(s);
    } else if s.sent[0].xid != h.xid {
      MismatchIsSteps(s);
    } else {
      MatchIsSteps(s);
    }
  }

  lemma {:induction false} TakeMany(s: State, a: seq<Step>, b: seq<Step>)
    requires CanTake(s, a)
    ensures CanTake(s, a + b) <==> CanTake(Taken(s, a), b)
    ensures CanTake(Taken(s, a), b) ==> Taken(s, a + b) == Taken(Taken(s, a), b)
    decreases |a|
  {
    if a == [] {
      assert a + b == b;
    } else {
      TakeMany(Next(s, a[0]), a[1..], b);
      TakeOne(s, a[0], a[1..] + b);
      assert a + b == [a[0]] + (a[1..] + b);
    }
  }

  /** One pass from the moment the I/O thread is free: the packet is dequeued and handled. */
  lemma PassIsSteps(s: State) returns (steps: seq<Step>)
    requires !s.crashed && s.io.Idle? && s.toProcess != []
    ensures CanTake(s, steps) && forall i | 0 <= i < |steps| :: ByIoThread(steps[i])
    ensures var t, p := Taken(s, steps), Handled(ViewOf(s), s.closing);
            ViewOf(t) == p.q && (t.crashed <==> p.status == Aborted) && Settled(s, t)
  {
    var s1 := Next(s, DequeueBuffer);
    PacketIsSteps(s1);
    TakeOne(s, DequeueBuffer, PacketSteps(s1));
    assert [s.toProcess[0]] + s.toProcess[1..] == s.toProcess;
    steps := [DequeueBuffer] + PacketSteps(s1);
  }

  /** A finished pass leaves the packets behind it to the next one. */
  lemma FinishedPass(q: Queues, closing: bool)
    requires q.toProcess != [] && Handled(q, closing).status == Finished
    ensures Handled(q, closing).q.toProcess == q.toProcess[1..]
  {
  }

  /** The whole reply loop is a run of the I/O thread, which fails its assertion exactly when the loop
      does. */
  lemma {:induction false} ProcessingIsSteps(s: State, rc: int) returns (steps: seq<Step>)
    requires !s.crashed && s.io.Idle?
    ensures CanTake(s, steps) && forall i | 0 <= i < |steps| :: ByIoThread(steps[i])
    ensures var t, p := Taken(s, steps), ProcessedAll(ViewOf(s), s.closing, rc);
            ViewOf(t) == p.q && (t.crashed <==> p.status == Aborted) && Settled(s, t)
    decreases |s.toProcess|
  {
    if rc < 0 || s.toProcess == [] {
      steps := [];
    } else {
      var first := PassIsSteps(s);
      var h, t := s.toProcess[0], Taken(s, first);
      steps := first;
      if Handled(ViewOf(s), s.closing).status == Finished {
        FinishedPass(ViewOf(s), s.closing);
        var later := ProcessingIsSteps(t, if Untracked(h.xid) then rc else h.err);
        TakeMany(s, first, later);
        steps := first + later;
      }
    }
  }

  /** process_completions, called when the completion thread runs or drains. */
  function CompletionSteps(jobs: seq<Job>): seq<Step> {
    if jobs == [] then []
    else if jobs[0].Death? then [Take]
    else [Take] + ([Call] + CompletionSteps(jobs[1..]))
  }

  /** The state after one callback. */
  function CalledOne(s: State): State
    requires !s.crashed && (s.comp.Running? || s.comp.Draining?) && s.completions != [] && !s.completions[0].Death?
  {
    Next(Next(s, Take), Call)
  }

  lemma OneCompletion(s: State, later: seq<Step>)
    requires !s.crashed && (s.comp.Running? || s.comp.Draining?) && s.completions != [] && !s.completions[0].Death?
    ensures var t := CalledOne(s);
            && !t.crashed && t.comp == s.comp
            && ViewOf(t) == ViewOf(s).(completions := s.completions[1..],
                                       finished := s.finished + OneCall(s.completions[0]))
            && (CanTake(t, later) ==>
                  CanTake(s, [Take] + ([Call] + later)) && Taken(s, [Take] + ([Call] + later)) == Taken(t, later))
  {
    TakeOne(Next(s, Take), Call, later);
    TakeOne(s, Take, [Call] + later);
  }

  /** Running the queued completions up to the packet of death is a run of the completion thread. */
  lemma {:induction false} CompletionsAreSteps(s: State)
    requires !s.crashed && (s.comp.Running? || s.comp.Draining?)
    ensures CanTake(s, CompletionSteps(s.completions))
    ensures ViewOf(Taken(s, CompletionSteps(s.completions)))
            == ViewOf(s).(completions := AfterDeath(s.completions), finished := s.finished + Called(s.completions))
    decreases |s.completions|
  {
    if s.completions == [] {
      assert s.finished + [] == s.finished;
    } else if s.completions[0].Death? {
      DeathIsOneStep(s);
    } else {
      var t := CalledOne(s);
      OneCompletion(s, CompletionSteps(s.completions[1..]));
      CompletionsAreSteps(t);
      Assoc(s.finished, OneCall(s.completions[0]), Called(s.completions[1..]));
    }
  }

  lemma DeathIsOneStep(s: State)
    requires !s.crashed && (s.comp.Running? || s.comp.Draining?) && s.completions != [] && s.completions[0].Death?
    ensures CanTake(s, [Take])
    ensures ViewOf(Taken(s, [Take])) == ViewOf(s).(completions := s.completions[1..], finished := s.finished + [])
  {
    assert [Take] == [Take] + [];
    TakeOne(s, Take, []);
    assert s.finished + [] == s.finished;
  }
}
