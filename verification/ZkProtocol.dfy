/** The ZooKeeper client as a state machine: application threads, the I/O thread, the completion
    thread, the connection and the server interleave in steps, each one critical section. */
module ZkProtocol {
  import opened Common

  const WATCHER_EVENT_XID := -1
  const PING_XID := -2
  const AUTH_XID := -4
  const SET_WATCHES_XID := -8

  const OK := 0
  const RUNTIME_INCONSISTENCY := -2
  const MARSHALLING_ERROR := -5
  const INVALID_STATE := 2
  const AUTH_FAILED := -115

  /** A completion: who waits for the reply with this xid. */
  datatype Entry = Entry(xid: int, sync: bool)

  datatype Header = Header(xid: int, err: int)

  /** What the completion thread is asked to do. */
  datatype Job = Death | Event | Answer(entry: Entry, header: Header)

  /** A callback that has run, and the reply header it was given. */
  datatype Outcome = Outcome(entry: Entry, header: Header)

  /** What the I/O thread holds between two critical sections. */
  datatype Io = Idle | Packet(header: Header) | Matched(entry: Entry, answer: Header) | Mismatched(entry: Entry)
              | Failing(rc: int) | Exited

  /** Where do_completion stands. */
  datatype Completer = Running | Calling(job: Job, last: bool) | Joining | Joined | Draining | Done

  datatype State = State(
    nextXid: nat,
    drawn: set<nat>,           // xids taken by callers that have not submitted yet
    accepted: seq<Entry>,      // completions queued by add_completion, pings aside
    refused: seq<Entry>,       // completions add_completion freed because of close_requested
    sent: seq<Entry>,          // sent_requests
    toSend: seq<int>,          // xids of the frames in to_send
    atServer: seq<int>,        // frames the server has not answered
    inFlight: seq<Header>,     // replies not yet received
    toProcess: seq<Header>,
    completions: seq<Job>,     // completions_to_process
    finished: seq<Outcome>,
    io: Io,
    comp: Completer,
    connected: bool,
    unrecoverable: bool,
    closing: bool,             // close_requested
    deathQueued: bool,
    crashed: bool)             // assert(cptr) has failed

  const INITIAL := State(0, {}, [], [], [], [], [], [], [], [], [], Idle, Running, false, false, false, false, false)

  /** Replies that no completion waits for. */
  predicate Untracked(xid: int) {
    xid == WATCHER_EVENT_XID || xid == AUTH_XID || xid == SET_WATCHES_XID
  }

  // ----- free_completions -----

  /** The fake replies queued for the completion thread. */
  function FakeReplies(sent: seq<Entry>, rc: int): seq<Job> {
    if sent == [] then []
    else (if sent[0].xid == PING_XID || sent[0].sync then [] else [Answer(sent[0], Header(sent[0].xid, rc))])
         + FakeReplies(sent[1..], rc)
  }

  /** The synchronous callbacks run on the spot. */
  function FailedCalls(sent: seq<Entry>, rc: int): seq<Outcome> {
    if sent == [] then []
    else (if sent[0].xid != PING_XID && sent[0].sync then [Outcome(sent[0], Header(sent[0].xid, rc))] else [])
         + FailedCalls(sent[1..], rc)
  }

  // ----- Steps -----

  datatype Step =
    // any application thread
    | DrawXid | Submit(xid: nat, sync: bool) | QueueUntracked(frame: int) | Transmit | Close | QueueDeath
    // server and network
    | Serve(err: int) | Notify | Inject(header: Header)
    // I/O thread
    | Ping | Reconnect | SessionEvent | Receive | DequeueBuffer | HandleEvent | HandleUntracked(authOk: bool)
    | Match | Deliver
    | Requeue | Lose(why: int, fatal: bool) | CleanUp(event: bool) | ExitIo
    // completion thread
    | Take | Call | Join | FreeRest | Finish

  predicate ByCompletionThread(step: Step) {
    step.Take? || step.Call? || step.Join? || step.FreeRest? || step.Finish?
  }

  predicate ByIoThread(step: Step) {
    step.Ping? || step.Reconnect? || step.SessionEvent? || step.Receive? || step.DequeueBuffer? || step.HandleEvent?
    || step.HandleUntracked? || step.Match? || step.Deliver? || step.Requeue? || step.Lose? || step.CleanUp?
    || step.ExitIo?
  }

  /** Taking a reply from the connection to whoever waits for it. */
  predicate Answering(step: Step) {
    step.Receive? || step.DequeueBuffer? || step.HandleEvent? || step.HandleUntracked? || step.Match? || step.Deliver?
  }

  predicate Enabled(s: State, step: Step) {
    !s.crashed &&
    match step
    case DrawXid => true
    case Submit(xid, _) => xid in s.drawn
    case QueueUntracked(frame) => frame == AUTH_XID || frame == SET_WATCHES_XID
    case Transmit => s.connected && s.toSend != []
    case Close => !s.closing
    case QueueDeath => s.closing && !s.deathQueued
    case Serve(_) => s.atServer != []
    case Notify => s.connected
    case Inject(_) => s.connected
    case Ping => s.io.Idle? && s.connected
    case Reconnect => s.io.Idle? && !s.connected && !s.unrecoverable
    case SessionEvent => s.io.Idle?
    case Receive => s.io.Idle? && s.inFlight != []
    case DequeueBuffer => s.io.Idle? && s.toProcess != []
    case HandleEvent => s.io.Packet? && s.io.header.xid == WATCHER_EVENT_XID
    case HandleUntracked(authOk) =>
      s.io.Packet? && (s.io.header.xid == AUTH_XID || (s.io.header.xid == SET_WATCHES_XID && authOk))
    case Match => s.io.Packet? && !Untracked(s.io.header.xid)
    case Deliver => s.io.Matched?
    case Requeue => s.io.Mismatched?
    case Lose(why, _) => s.io.Idle? && why < 0
    case CleanUp(_) => s.io.Failing?
    case ExitIo => s.io.Idle? && (s.closing || s.unrecoverable)
    case Take => (s.comp.Running? || s.comp.Draining?) && s.completions != []
    case Call => s.comp.Calling?
    case Join => s.comp.Joining? && s.io.Exited?
    case FreeRest => s.comp.Joined?
    case Finish => s.comp.Draining? && s.completions == []
  }

  function Next(s: State, step: Step): State
    requires Enabled(s, step)
  {
    match step
    case DrawXid => s.(nextXid := s.nextXid + 1, drawn := s.drawn + {s.nextXid})
    case Submit(xid, sync) => AddCompletion(s, xid, sync).(drawn := s.drawn - {xid})
    case QueueUntracked(frame) => s.(toSend := s.toSend + [frame])
    case Transmit => s.(toSend := s.toSend[1..], atServer := s.atServer + [s.toSend[0]])
    case Close => s.(closing := true)
    case QueueDeath => s.(deathQueued := true, completions := s.completions + [Death])
    case Serve(err) => s.(atServer := s.atServer[1..], inFlight := s.inFlight + [Header(s.atServer[0], err)])
    case Notify => s.(inFlight := s.inFlight + [Header(WATCHER_EVENT_XID, 0)])
    case Inject(header) => s.(inFlight := s.inFlight + [header])
    case Ping =>
      if s.closing then s.(toSend := s.toSend + [PING_XID])
      else s.(toSend := s.toSend + [PING_XID], sent := s.sent + [Entry(PING_XID, false)])
    case Reconnect => s.(connected := true)
    case SessionEvent => s.(completions := s.completions + [Event])
    case Receive => s.(inFlight := s.inFlight[1..], toProcess := s.toProcess + [s.inFlight[0]])
    case DequeueBuffer => s.(toProcess := s.toProcess[1..], io := Packet(s.toProcess[0]))
    case HandleEvent => s.(io := Idle, completions := s.completions + [Event])
    case HandleUntracked(authOk) =>
      if authOk then s.(io := Idle) else s.(io := Failing(AUTH_FAILED), unrecoverable := true)
    case Match =>
      if s.sent == [] then s.(io := Idle, crashed := !s.closing)
      else s.(sent := s.sent[1..],
              io := if s.sent[0].xid == s.io.header.xid then Matched(s.sent[0], s.io.header) else Mismatched(s.sent[0]))
    case Deliver =>
      if s.io.entry.xid == PING_XID then s.(io := Idle)
      else if s.io.entry.sync then s.(io := Idle, finished := s.finished + [Outcome(s.io.entry, s.io.answer)])
      else s.(io := Idle, completions := s.completions + [Answer(s.io.entry, s.io.answer)])
    case Requeue => s.(sent := s.sent + [s.io.entry], io := Failing(RUNTIME_INCONSISTENCY))
    case Lose(why, fatal) => s.(io := Failing(why), unrecoverable := s.unrecoverable || fatal)
    case CleanUp(event) =>
      FreeSent(s.(completions := s.completions + if event then [Event] else []), s.io.rc)
      .(io := Idle, connected := false, toSend := [], toProcess := [], atServer := [], inFlight := [])
    case ExitIo => s.(io := Exited)
    case Take =>
      var job := s.completions[0];
      s.(completions := s.completions[1..],
         comp := if job.Death? then (if s.comp.Running? then Joining else Done) else Calling(job, s.comp.Draining?))
    case Call =>
      s.(comp := if s.comp.last then Draining else Running,
         finished := s.finished + if s.comp.job.Answer? then [Outcome(s.comp.job.entry, s.comp.job.header)] else [])
    case Join => s.(comp := Joined)
    case FreeRest => FreeSent(s, INVALID_STATE).(comp := Draining)
    case Finish => s.(comp := Done)
  }

  /** add_completion and queue_buffer under the handle's mutex: the frame is queued in any case. */
  function AddCompletion(s: State, xid: nat, sync: bool): State {
    if s.closing then s.(toSend := s.toSend + [xid], refused := s.refused + [Entry(xid, sync)])
    else
      s.(toSend := s.toSend + [xid],
         sent := s.sent + [Entry(xid, sync)],
         accepted := s.accepted + [Entry(xid, sync)])
  }

  /** The code add_completion returns. */
  function CompletionCode(closing: bool): int {
    if closing then INVALID_STATE else OK
  }

  /** What a request function makes of that code for its caller. */
  function Reported(rc: int): int {
    if rc < 0 then MARSHALLING_ERROR else OK
  }

  function FreeSent(s: State, rc: int): State {
    s.(sent := [],
       completions := s.completions + FakeReplies(s.sent, rc),
       finished := s.finished + FailedCalls(s.sent, rc))
  }

  // ----- Runs -----

  ghost predicate IsRun(run: seq<Step>)
    decreases |run|, 0
  {
    run == [] || (IsRun(run[..|run| - 1]) && Enabled(After(run[..|run| - 1]), run[|run| - 1]))
  }

  ghost function After(run: seq<Step>): State
    requires IsRun(run)
    decreases |run|, 1
  {
    if run == [] then INITIAL else Next(After(run[..|run| - 1]), run[|run| - 1])
  }

  /** A packet no frame has asked for is one that no completion waits for: a watcher event, an auth or a
      set-watches reply. */
  predicate InAnswerOrder(step: Step) {
    step.Inject? ==> Untracked(step.header.xid)
  }

  /** The server answers in order and sends nothing else but such packets, whenever it likes. */
  ghost predicate Honest(run: seq<Step>) {
    forall i | 0 <= i < |run| :: InAnswerOrder(run[i])
  }

  // ----- What a run is measured by -----

  function Xids(entries: seq<Entry>): seq<int> {
    seq(|entries|, i requires 0 <= i < |entries| => entries[i].xid)
  }

  function HeaderXids(headers: seq<Header>): seq<int> {
    seq(|headers|, i requires 0 <= i < |headers| => headers[i].xid)
  }

  function Tracked(xids: seq<int>): seq<int> {
    if xids == [] then [] else (if Untracked(xids[0]) then [] else [xids[0]]) + Tracked(xids[1..])
  }

  /** Everything on its way round: from the packet in the I/O thread's hands back to the frames not
      yet sent. */
  function Line(s: State): seq<int> {
    (if s.io.Packet? then [s.io.header.xid] else [])
    + HeaderXids(s.toProcess) + HeaderXids(s.inFlight) + s.atServer + s.toSend
  }

  /** The completions of one kind, without pings. */
  function Kind(entries: seq<Entry>, sync: bool): seq<Entry> {
    if entries == [] then []
    else (if entries[0].xid != PING_XID && entries[0].sync == sync then [entries[0]] else []) + Kind(entries[1..], sync)
  }

  function JobEntries(jobs: seq<Job>): seq<Entry> {
    if jobs == [] then []
    else (if jobs[0].Answer? then [jobs[0].entry] else []) + JobEntries(jobs[1..])
  }

  function OutcomeEntries(outcomes: seq<Outcome>): seq<Entry> {
    seq(|outcomes|, i requires 0 <= i < |outcomes| => outcomes[i].entry)
  }

  function IoEntries(io: Io): seq<Entry> {
    if io.Matched? || io.Mismatched? then [io.entry] else []
  }

  function CompEntries(comp: Completer): seq<Entry> {
    if comp.Calling? then JobEntries([comp.job]) else []
  }

  // ----- Sequences -----

  lemma {:induction false} TrackedAppend(a: seq<int>, b: seq<int>)
    ensures Tracked(a + b) == Tracked(a) + Tracked(b)
  {
    if a == [] {
      assert a + b == b;
    } else {
      assert (a + b)[1..] == a[1..] + b;
      TrackedAppend(a[1..], b);
    }
  }

  lemma {:induction false} KindAppend(a: seq<Entry>, b: seq<Entry>, sync: bool)
    ensures Kind(a + b, sync) == Kind(a, sync) + Kind(b, sync)
  {
    if a == [] {
      assert a + b == b;
    } else {
      assert (a + b)[1..] == a[1..] + b;
      KindAppend(a[1..], b, sync);
    }
  }

  lemma {:induction false} JobsAppend(a: seq<Job>, b: seq<Job>)
    ensures JobEntries(a + b) == JobEntries(a) + JobEntries(b)
  {
    if a == [] {
      assert a + b == b;
    } else {
      assert (a + b)[0] == a[0] && (a + b)[1..] == a[1..] + b;
      JobsAppend(a[1..], b);
      Assoc(if a[0].Answer? then [a[0].entry] else [], JobEntries(a[1..]), JobEntries(b));
    }
  }

  /** Freeing the sent completions keeps each one, in order, in its kind's place. */
  lemma {:induction false} FreedEntries(sent: seq<Entry>, rc: int)
    ensures JobEntries(FakeReplies(sent, rc)) == Kind(sent, false)
    ensures OutcomeEntries(FailedCalls(sent, rc)) == Kind(sent, true)
  {
    if sent != [] {
      FreedEntries(sent[1..], rc);
      JobsAppend(if sent[0].xid == PING_XID || sent[0].sync then [] else [Answer(sent[0], Header(sent[0].xid, rc))],
                 FakeReplies(sent[1..], rc));
    }
  }

  /** Each of these answers tells its own request this error. */
  ghost predicate JobsCarry(jobs: seq<Job>, err: int) {
    forall i | 0 <= i < |jobs| :: jobs[i].Answer? && jobs[i].header == Header(jobs[i].entry.xid, err)
  }

  ghost predicate OutcomesCarry(outcomes: seq<Outcome>, err: int) {
    forall i | 0 <= i < |outcomes| :: outcomes[i].header == Header(outcomes[i].entry.xid, err)
  }

  /** Whoever is freed is told the reason. */
  lemma {:induction false} FreedCarryReason(sent: seq<Entry>, reason: int)
    ensures JobsCarry(FakeReplies(sent, reason), reason) && OutcomesCarry(FailedCalls(sent, reason), reason)
  {
    if sent != [] {
      FreedCarryReason(sent[1..], reason);
    }
  }

  /** All who were waiting have been told the reason, in order: the synchronous callers by these calls, the
      others by these answers. */
  ghost predicate Told(sent: seq<Entry>, answers: seq<Job>, calls: seq<Outcome>, reason: int) {
    && JobEntries(answers) == Kind(sent, false) && JobsCarry(answers, reason)
    && OutcomeEntries(calls) == Kind(sent, true) && OutcomesCarry(calls, reason)
  }
}
