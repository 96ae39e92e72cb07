/**
 The pipelined Redis connection shared by the enqueuing thread, the periodic flusher
 and any number of flush jobs (redis_queue.c).

 The system is a transition system. Each step is one lock operation, one semaphore
 operation, one access to the connection or one update of a shared counter, so every
 interleaving of the threads is a sequence of actions. A step that would block is `None`.
 */
module RedisPipeline {
  import opened Bytes

  const PIPELINE_LIMIT: nat := 16384
  const BYTE_LIMIT: nat := 262144000

  /** A disk write handed to the enqueuer: first sector and payload. */
  datatype Write = Write(sector: int, data: seq<Byte>)

  /** What an RPUSH carries: the sector number, or the payload. */
  datatype Command = Sector(sector: int) | Data(data: seq<Byte>)

  datatype Owner = Free | ByEnqueuer | ByFlusher | ByJob(id: nat)

  /** Program counter of `redis_async_write_enqueue`. */
  datatype EnqueuerPc =
    | EIdle
    | EWaitConn
    | ETryCmd
    | EDropConn
    | EWaitCmd
    | EPushSector
    | EPushData
    | EFreeConn
    | ECountSector
    | ECountData
    | ECheck
    | ESnapshot
    | EReset(k: nat)
    | EFreeCmdJob(k: nat)
    | EPost(k: nat)
    | ESpawn(k: nat)
    | EClearBytes
    | EFreeCmd

  /** Program counter of `redis_periodic_flusher`. */
  datatype FlusherPc =
    | FSleep
    | FWantCmd
    | FSnapshot
    | FReset(k: nat)
    | FFreeCmd(k: nat)
    | FPost(k: nat)
    | FStart(k: nat)
    | FRunning(id: nat)

  /** Program counter of `redis_flush_thread_pipeline`. */
  datatype JobPc =
    | JWantFlush
    | JLoop
    | JWantConn
    | JRead
    | JFreeConn
    | JDecrement
    | JSemWait
    | JFreeFlush
    | JDone

  datatype Job = Job(cmds: nat, pc: JobPc)

  datatype State = State(
    sent: seq<Command>,   // commands appended to the connection, oldest first
    unread: nat,          // how many of their replies are not yet read
    counter: nat,         // outstanding_pipelined_cmds
    bytes: nat,           // outstanding_bytes
    flush: Owner,         // flush_lock
    conn: Owner,          // conn_lock
    cmd: Owner,           // cmd_lock
    sem: nat,             // thread_counter
    enq: EnqueuerPc,
    op: Write,            // the write the enqueuer is working on
    flusher: FlusherPc,
    jobs: seq<Job>,       // every job ever started, finished ones included
    dropped: seq<Write>)  // writes refused with EXIT_FAILURE

  datatype Action =
    | Begin(w: Write)     // the read loop calls redis_async_write_enqueue
    | StepEnqueuer
    | Wake                // the periodic flusher's sleep is over
    | StepFlusher
    | StepJob(id: nat)

  /** State after redis_init; `outstanding_bytes` is never initialised by the source. */
  function Init(bytes: nat): State {
    State([], 0, 0, bytes, Free, Free, Free, 0, EIdle, Write(0, []), FSleep, [], [])
  }

  /** Entry of redis_async_write_enqueue: try conn_lock, consult the filter if it is taken. */
  function BeginEnqueue(marked: int -> bool, s: State, w: Write): Option<State> {
    if s.enq != EIdle then
      None
    else if s.conn == Free then
      Some(s.(conn := ByEnqueuer, enq := ETryCmd, op := w))
    else if !marked(w.sector) then
      Some(s.(dropped := s.dropped + [w]))
    else
      Some(s.(enq := EWaitConn, op := w))
  }

  function EnqueuerNext(marked: int -> bool, s: State): Option<State> {
    match s.enq
    case EIdle => None
    case EWaitConn => if s.conn == Free then Some(s.(conn := ByEnqueuer, enq := ETryCmd)) else None
    case ETryCmd =>
      if s.cmd == Free then Some(s.(cmd := ByEnqueuer, enq := EPushSector))
      else if !marked(s.op.sector) then Some(s.(enq := EDropConn))
      else Some(s.(enq := EWaitCmd))
    case EDropConn => Some(s.(conn := Free, enq := EIdle, dropped := s.dropped + [s.op]))
    case EWaitCmd => if s.cmd == Free then Some(s.(cmd := ByEnqueuer, enq := EPushSector)) else None
    case EPushSector => Some(s.(sent := s.sent + [Sector(s.op.sector)], unread := s.unread + 1, enq := EPushData))
    case EPushData => Some(s.(sent := s.sent + [Data(s.op.data)], unread := s.unread + 1, enq := EFreeConn))
    case EFreeConn => Some(s.(conn := Free, enq := ECountSector))
    case ECountSector => Some(s.(counter := s.counter + 1, bytes := s.bytes + 8, enq := ECountData))
    case ECountData => Some(s.(counter := s.counter + 1, bytes := s.bytes + |s.op.data|, enq := ECheck))
    case ECheck =>
      if s.counter >= PIPELINE_LIMIT || s.bytes > BYTE_LIMIT then Some(s.(enq := ESnapshot))
      else Some(s.(enq := EFreeCmd))
    case ESnapshot => Some(s.(enq := EReset(s.counter)))
    case EReset(k) => Some(s.(counter := 0, enq := EFreeCmdJob(k)))
    case EFreeCmdJob(k) => Some(s.(cmd := Free, enq := EPost(k)))
    case EPost(k) => Some(s.(sem := s.sem + 1, enq := ESpawn(k)))
    case ESpawn(k) => Some(s.(jobs := s.jobs + [Job(k, JWantFlush)], enq := EClearBytes))
    case EClearBytes => Some(s.(bytes := 0, enq := EIdle))
    case EFreeCmd => Some(s.(cmd := Free, enq := EIdle))
  }

  function FlusherNext(s: State): Option<State> {
    match s.flusher
    case FSleep => None
    case FWantCmd => if s.cmd == Free then Some(s.(cmd := ByFlusher, flusher := FSnapshot)) else None
    case FSnapshot => Some(s.(flusher := FReset(s.counter)))
    case FReset(k) => Some(s.(counter := 0, flusher := FFreeCmd(k)))
    case FFreeCmd(k) => Some(s.(cmd := Free, flusher := FPost(k)))
    case FPost(k) => Some(s.(sem := s.sem + 1, flusher := FStart(k)))
    case FStart(k) => Some(s.(jobs := s.jobs + [Job(k, JWantFlush)], flusher := FRunning(|s.jobs|)))
    case FRunning(id) =>
      if id < |s.jobs| && s.jobs[id].pc == JDone then Some(s.(flusher := FSleep)) else None
  }

  /** One step of flush job `id`; the flusher runs its own job inline, one job at a time. */
  function JobNext(s: State, id: nat): Option<State> {
    if id >= |s.jobs| then None else
    var j := s.jobs[id];
    match j.pc
    case JWantFlush =>
      if s.flush == Free then Some(s.(flush := ByJob(id), jobs := s.jobs[id := j.(pc := JLoop)])) else None
    case JLoop => Some(s.(jobs := s.jobs[id := j.(pc := if j.cmds > 0 then JWantConn else JSemWait)]))
    case JWantConn =>
      if s.conn == Free then Some(s.(conn := ByJob(id), jobs := s.jobs[id := j.(pc := JRead)])) else None
    case JRead =>
      if s.unread > 0 then Some(s.(unread := s.unread - 1, jobs := s.jobs[id := j.(pc := JFreeConn)])) else None
    case JFreeConn => Some(s.(conn := Free, jobs := s.jobs[id := j.(pc := JDecrement)]))
    case JDecrement => Some(s.(jobs := s.jobs[id := Job(if j.cmds > 0 then j.cmds - 1 else 0, JLoop)]))
    case JSemWait =>
      if s.sem > 0 then Some(s.(sem := s.sem - 1, jobs := s.jobs[id := j.(pc := JFreeFlush)])) else None
    case JFreeFlush => Some(s.(flush := Free, jobs := s.jobs[id := j.(pc := JDone)]))
    case JDone => None
  }

  function Next(marked: int -> bool, s: State, a: Action): Option<State> {
    match a
    case Begin(w) => BeginEnqueue(marked, s, w)
    case StepEnqueuer => EnqueuerNext(marked, s)
    case Wake => if s.flusher == FSleep then Some(s.(flusher := FWantCmd)) else None
    case StepFlusher => FlusherNext(s)
    case StepJob(id) => JobNext(s, id)
  }

  /** The state after a schedule, or None if the schedule takes a blocked step. */
  function Run(marked: int -> bool, s: State, schedule: seq<Action>): Option<State>
    decreases schedule
  {
    if schedule == [] then Some(s) else
    match Next(marked, s, schedule[0])
    case None => None
    case Some(t) => Run(marked, t, schedule[1..])
  }

  // ---------------------------------------------------------------- accounting

  /** Replies a job still has to read. */
  function Remaining(j: Job): nat {
    if (j.pc.JFreeConn? || j.pc.JDecrement?) && j.cmds > 0 then j.cmds - 1 else j.cmds
  }

  function TotalRemaining(jobs: seq<Job>): nat {
    if jobs == [] then 0 else TotalRemaining(jobs[..|jobs| - 1]) + Remaining(jobs[|jobs| - 1])
  }

  /** A job whose semaphore post has not yet been consumed. */
  function Posted(j: Job): nat {
    if j.pc.JFreeFlush? || j.pc.JDone? then 0 else 1
  }

  function TotalPosted(jobs: seq<Job>): nat {
    if jobs == [] then 0 else TotalPosted(jobs[..|jobs| - 1]) + Posted(jobs[|jobs| - 1])
  }

  /** Commands the enqueuer has appended but not yet added to the counter. */
  function Uncounted(e: EnqueuerPc): nat {
    match e
    case EPushData => 1
    case EFreeConn => 2
    case ECountSector => 2
    case ECountData => 1
    case _ => 0
  }

  /** Commands moved out of the counter into a job that has not started yet. */
  function InHandEnqueuer(e: EnqueuerPc): nat {
    match e
    case EFreeCmdJob(k) => k
    case EPost(k) => k
    case ESpawn(k) => k
    case _ => 0
  }

  function InHandFlusher(f: FlusherPc): nat {
    match f
    case FFreeCmd(k) => k
    case FPost(k) => k
    case FStart(k) => k
    case _ => 0
  }

  ghost predicate Accounting(s: State) {
    s.unread == s.counter + TotalRemaining(s.jobs) + Uncounted(s.enq)
                + InHandEnqueuer(s.enq) + InHandFlusher(s.flusher)
  }

  ghost predicate Semaphore(s: State) {
    s.sem == TotalPosted(s.jobs) + (if s.enq.ESpawn? then 1 else 0) + (if s.flusher.FStart? then 1 else 0)
  }

  predicate EnqueuerHoldsConn(e: EnqueuerPc) {
    e.ETryCmd? || e.EDropConn? || e.EWaitCmd? || e.EPushSector? || e.EPushData? || e.EFreeConn?
  }

  predicate EnqueuerHoldsCmd(e: EnqueuerPc) {
    || e.EPushSector? || e.EPushData? || e.EFreeConn? || e.ECountSector? || e.ECountData?
    || e.ECheck? || e.ESnapshot? || e.EReset? || e.EFreeCmdJob? || e.EFreeCmd?
  }

  predicate FlusherHoldsCmd(f: FlusherPc) {
    f.FSnapshot? || f.FReset? || f.FFreeCmd?
  }

  predicate JobHoldsConn(j: Job) {
    j.pc.JRead? || j.pc.JFreeConn?
  }

  predicate JobHoldsFlush(j: Job) {
    !j.pc.JWantFlush? && !j.pc.JDone?
  }

  /** The jobs hold conn_lock and flush_lock exactly where their program counters say so. */
  ghost predicate JobLocks(jobs: seq<Job>, conn: Owner, flush: Owner) {
    && (conn.ByJob? ==> conn.id < |jobs|)
    && (flush.ByJob? ==> flush.id < |jobs|)
    && (forall i :: 0 <= i < |jobs| ==> (JobHoldsConn(jobs[i]) <==> conn == ByJob(i)))
    && (forall i :: 0 <= i < |jobs| ==> (JobHoldsFlush(jobs[i]) <==> flush == ByJob(i)))
  }

  /** The enqueuer and the flusher hold conn_lock and cmd_lock exactly where they should. */
  ghost predicate ThreadLocks(s: State) {
    && (s.conn == ByEnqueuer <==> EnqueuerHoldsConn(s.enq))
    && (s.cmd == ByEnqueuer <==> EnqueuerHoldsCmd(s.enq))
    && (s.cmd == ByFlusher <==> FlusherHoldsCmd(s.flusher))
    && !s.cmd.ByJob? && s.conn != ByFlusher && s.flush != ByEnqueuer && s.flush != ByFlusher
  }

  /** Who holds each lock is determined by where the threads are. */
  ghost predicate Ownership(s: State) {
    ThreadLocks(s) && JobLocks(s.jobs, s.conn, s.flush)
  }

  ghost predicate Snapshots(s: State) {
    && (s.enq.EReset? ==> s.enq.k == s.counter)
    && (s.flusher.FReset? ==> s.flusher.k == s.counter)
    && (s.flusher.FRunning? ==> s.flusher.id < |s.jobs|)
  }

  predicate JobOk(j: Job) {
    && (j.pc.JWantConn? || j.pc.JRead? || j.pc.JFreeConn? || j.pc.JDecrement? ==> j.cmds > 0)
    && (j.pc.JSemWait? || j.pc.JFreeFlush? || j.pc.JDone? ==> j.cmds == 0)
  }

  lemma {:induction false} TotalsUpdate(jobs: seq<Job>, i: nat, j: Job)
    requires i < |jobs|
    ensures TotalRemaining(jobs[i := j]) == TotalRemaining(jobs) - Remaining(jobs[i]) + Remaining(j)
    ensures TotalPosted(jobs[i := j]) == TotalPosted(jobs) - Posted(jobs[i]) + Posted(j)
    ensures Remaining(jobs[i]) <= TotalRemaining(jobs) && Posted(jobs[i]) <= TotalPosted(jobs)
  {
    var n := |jobs| - 1;
    if i == n {
      assert jobs[i := j][..n] == jobs[..n];
    } else {
      TotalsUpdate(jobs[..n], i, j);
      assert jobs[i := j][..n] == jobs[..n][i := j];
    }
  }

  lemma {:induction false} TotalsAppend(jobs: seq<Job>, j: Job)
    ensures TotalRemaining(jobs + [j]) == TotalRemaining(jobs) + Remaining(j)
    ensures TotalPosted(jobs + [j]) == TotalPosted(jobs) + Posted(j)
  {
    assert (jobs + [j])[..|jobs|] == jobs;
  }

  ghost predicate Counts(s: State) {
    Accounting(s) && Semaphore(s)
  }

  /** The jobs, the snapshots and the refused writes. */
  ghost predicate Locals(marked: int -> bool, s: State) {
    && Snapshots(s)
    && (forall i :: 0 <= i < |s.jobs| ==> JobOk(s.jobs[i]))
    && (forall w :: w in s.dropped ==> !marked(w.sector))
    && (s.enq.EDropConn? ==> !marked(s.op.sector))
  }

  /** Commands of the current write already in the counter but not yet past the limit check. */
  function Unchecked(e: EnqueuerPc): nat {
    match e
    case ECountData => 1
    case ECheck => 2
    case ESnapshot => 2
    case EReset(_) => 2
    case _ => 0
  }

  /** The backlog stays within the pipeline limit plus the one write that crossed it. */
  ghost predicate Backlog(s: State) {
    && s.counter < PIPELINE_LIMIT + Unchecked(s.enq)
    && InHandEnqueuer(s.enq) < PIPELINE_LIMIT + 2
    && InHandFlusher(s.flusher) < PIPELINE_LIMIT + 2
    && (forall i :: 0 <= i < |s.jobs| ==> s.jobs[i].cmds < PIPELINE_LIMIT + 2)
  }

  /** The commands with which the enqueuer is starting a job, if it is. */
  function Starting(s: State): Option<nat> {
    match s.enq
    case ESnapshot => Some(s.counter)
    case EReset(k) => Some(k)
    case EFreeCmdJob(k) => Some(k)
    case EPost(k) => Some(k)
    case ESpawn(k) => Some(k)
    case _ => None
  }

  predicate BeforePush(e: EnqueuerPc) {
    e.EIdle? || e.EWaitConn? || e.ETryCmd? || e.EDropConn? || e.EWaitCmd? || e.EPushSector?
  }

  /** The enqueuer starts a job exactly when a limit is passed: it is over one while it starts a job, and
      under both when it has not started one. */
  ghost predicate Limits(s: State) {
    && (Starting(s).Some? ==> Starting(s).value >= PIPELINE_LIMIT || s.bytes > BYTE_LIMIT)
    && (s.enq.EFreeCmd? ==> s.counter < PIPELINE_LIMIT)
    && (s.enq.EFreeCmd? || (BeforePush(s.enq) && s.sent != []) ==> s.bytes <= BYTE_LIMIT)
  }

  ghost predicate Inv(marked: int -> bool, s: State) {
    Counts(s) && Ownership(s) && Locals(marked, s) && Backlog(s) && Limits(s)
  }

  lemma {:induction false} BeginKeepsInv(marked: int -> bool, s: State, w: Write)
    requires Inv(marked, s) && BeginEnqueue(marked, s, w).Some?
    ensures Inv(marked, BeginEnqueue(marked, s, w).value)
  {
    hide TotalRemaining, TotalPosted;
  }

  lemma {:induction false} EnqueuerKeepsAccounting(marked: int -> bool, s: State)
    requires Accounting(s) && Snapshots(s) && EnqueuerNext(marked, s).Some?
    ensures Accounting(EnqueuerNext(marked, s).value)
  {
    hide TotalRemaining, TotalPosted;
    if s.enq.ESpawn? {
      TotalsAppend(s.jobs, Job(s.enq.k, JWantFlush));
    }
  }

  lemma {:induction false} EnqueuerKeepsSemaphore(marked: int -> bool, s: State)
    requires Semaphore(s) && EnqueuerNext(marked, s).Some?
    ensures Semaphore(EnqueuerNext(marked, s).value)
  {
    hide TotalRemaining, TotalPosted;
    if s.enq.ESpawn? {
      TotalsAppend(s.jobs, Job(s.enq.k, JWantFlush));
    }
  }

  lemma {:induction false} EnqueuerKeepsThreadLocks(marked: int -> bool, s: State)
    requires ThreadLocks(s) && EnqueuerNext(marked, s).Some?
    ensures ThreadLocks(EnqueuerNext(marked, s).value)
  {
  }

  lemma {:induction false} EnqueuerKeepsJobLocks(marked: int -> bool, s: State)
    requires Ownership(s) && EnqueuerNext(marked, s).Some?
    ensures var t := EnqueuerNext(marked, s).value; JobLocks(t.jobs, t.conn, t.flush)
  {
    var t := EnqueuerNext(marked, s).value;
    assert t.flush == s.flush && (t.conn == s.conn || (!t.conn.ByJob? && !s.conn.ByJob?));
    assert t.jobs == s.jobs || t.jobs == s.jobs + [Job(s.enq.k, JWantFlush)];
  }

  lemma {:induction false} EnqueuerKeepsLocals(marked: int -> bool, s: State)
    requires ThreadLocks(s) && Locals(marked, s) && EnqueuerNext(marked, s).Some?
    ensures Locals(marked, EnqueuerNext(marked, s).value)
  {
  }

  lemma {:induction false} FlusherKeepsAccounting(s: State)
    requires Accounting(s) && Snapshots(s) && FlusherNext(s).Some?
    ensures Accounting(FlusherNext(s).value)
  {
    hide TotalRemaining, TotalPosted;
    if s.flusher.FStart? {
      TotalsAppend(s.jobs, Job(s.flusher.k, JWantFlush));
    }
  }

  lemma {:induction false} FlusherKeepsSemaphore(s: State)
    requires Semaphore(s) && FlusherNext(s).Some?
    ensures Semaphore(FlusherNext(s).value)
  {
    hide TotalRemaining, TotalPosted;
    if s.flusher.FStart? {
      TotalsAppend(s.jobs, Job(s.flusher.k, JWantFlush));
    }
  }

  lemma {:induction false} FlusherKeepsThreadLocks(s: State)
    requires ThreadLocks(s) && FlusherNext(s).Some?
    ensures ThreadLocks(FlusherNext(s).value)
  {
  }

  lemma {:induction false} FlusherKeepsJobLocks(s: State)
    requires JobLocks(s.jobs, s.conn, s.flush) && FlusherNext(s).Some?
    ensures var t := FlusherNext(s).value; JobLocks(t.jobs, t.conn, t.flush)
  {
    var t := FlusherNext(s).value;
    assert t.flush == s.flush && t.conn == s.conn;
    assert t.jobs == s.jobs || t.jobs == s.jobs + [Job(s.flusher.k, JWantFlush)];
  }

  lemma {:induction false} FlusherKeepsLocals(marked: int -> bool, s: State)
    requires ThreadLocks(s) && Locals(marked, s) && FlusherNext(s).Some?
    ensures Locals(marked, FlusherNext(s).value)
  {
  }

  lemma {:induction false} JobKeepsAccounting(s: State, id: nat)
    requires Accounting(s) && JobNext(s, id).Some? && JobOk(s.jobs[id])
    ensures Accounting(JobNext(s, id).value)
  {
    hide TotalRemaining, TotalPosted;
    var t := JobNext(s, id).value;
    TotalsUpdate(s.jobs, id, t.jobs[id]);
    assert t.jobs == s.jobs[id := t.jobs[id]];
  }

  lemma {:induction false} JobKeepsSemaphore(s: State, id: nat)
    requires Semaphore(s) && JobNext(s, id).Some?
    ensures Semaphore(JobNext(s, id).value)
  {
    hide TotalRemaining, TotalPosted;
    var t := JobNext(s, id).value;
    TotalsUpdate(s.jobs, id, t.jobs[id]);
    assert t.jobs == s.jobs[id := t.jobs[id]];
  }

  lemma {:induction false} JobLocksUpdate(jobs: seq<Job>, id: nat, j: Job, conn: Owner, flush: Owner, conn': Owner, flush': Owner)
    requires id < |jobs| && JobLocks(jobs, conn, flush)
    requires conn' == conn || (conn' in {Free, ByJob(id)} && conn in {Free, ByJob(id)})
    requires flush' == flush || (flush' in {Free, ByJob(id)} && flush in {Free, ByJob(id)})
    requires JobHoldsConn(j) <==> conn' == ByJob(id)
    requires JobHoldsFlush(j) <==> flush' == ByJob(id)
    ensures JobLocks(jobs[id := j], conn', flush')
  {
  }

  lemma {:induction false} JobKeepsJobLocks(s: State, id: nat)
    requires JobLocks(s.jobs, s.conn, s.flush) && JobNext(s, id).Some?
    ensures var t := JobNext(s, id).value; JobLocks(t.jobs, t.conn, t.flush)
  {
    var t := JobNext(s, id).value;
    var j := s.jobs[id];
    assert (JobHoldsConn(j) <==> s.conn == ByJob(id)) && (JobHoldsFlush(j) <==> s.flush == ByJob(id));
    JobLocksUpdate(s.jobs, id, t.jobs[id], s.conn, s.flush, t.conn, t.flush);
    assert t.jobs == s.jobs[id := t.jobs[id]];
  }

  lemma {:induction false} JobKeepsThreadLocks(s: State, id: nat)
    requires ThreadLocks(s) && JobNext(s, id).Some?
    requires JobHoldsConn(s.jobs[id]) ==> s.conn == ByJob(id)
    ensures ThreadLocks(JobNext(s, id).value)
  {
  }

  lemma {:induction false} JobKeepsLocals(marked: int -> bool, s: State, id: nat)
    requires Locals(marked, s) && JobNext(s, id).Some?
    ensures Locals(marked, JobNext(s, id).value)
  {
  }

  lemma {:induction false} EnqueuerKeepsBacklog(marked: int -> bool, s: State)
    requires ThreadLocks(s) && Snapshots(s) && Backlog(s) && EnqueuerNext(marked, s).Some?
    ensures Backlog(EnqueuerNext(marked, s).value)
  {
  }

  lemma {:induction false} EnqueuerKeepsLimits(marked: int -> bool, s: State)
    requires Snapshots(s) && Limits(s) && EnqueuerNext(marked, s).Some?
    ensures Limits(EnqueuerNext(marked, s).value)
  {
  }

  lemma {:induction false} FlusherKeepsLimits(s: State)
    requires ThreadLocks(s) && Limits(s) && FlusherNext(s).Some?
    ensures Limits(FlusherNext(s).value)
  {
  }

  lemma {:induction false} JobKeepsLimits(s: State, id: nat)
    requires Limits(s) && JobNext(s, id).Some?
    ensures Limits(JobNext(s, id).value)
  {
  }

  lemma {:induction false} FlusherKeepsBacklog(s: State)
    requires ThreadLocks(s) && Snapshots(s) && Backlog(s) && FlusherNext(s).Some?
    ensures Backlog(FlusherNext(s).value)
  {
  }

  lemma {:induction false} JobKeepsBacklog(s: State, id: nat)
    requires Backlog(s) && JobNext(s, id).Some?
    ensures Backlog(JobNext(s, id).value)
  {
  }

  /** Every step of every thread keeps the invariant. */
  lemma {:induction false} StepKeepsInv(marked: int -> bool, s: State, a: Action)
    requires Inv(marked, s) && Next(marked, s, a).Some?
    ensures Inv(marked, Next(marked, s, a).value)
  {
    hide TotalRemaining, TotalPosted, EnqueuerNext, FlusherNext, BeginEnqueue;
    match a
    case Begin(w) => BeginKeepsInv(marked, s, w);
    case StepEnqueuer =>
      EnqueuerKeepsAccounting(marked, s);
      EnqueuerKeepsSemaphore(marked, s);
      EnqueuerKeepsThreadLocks(marked, s);
      EnqueuerKeepsJobLocks(marked, s);
      EnqueuerKeepsLocals(marked, s);
      EnqueuerKeepsBacklog(marked, s);
      EnqueuerKeepsLimits(marked, s);
    case Wake =>
    case StepFlusher =>
      FlusherKeepsAccounting(s);
      FlusherKeepsSemaphore(s);
      FlusherKeepsThreadLocks(s);
      FlusherKeepsJobLocks(s);
      FlusherKeepsLocals(marked, s);
      FlusherKeepsBacklog(s);
      FlusherKeepsLimits(s);
    case StepJob(id) =>
      JobKeepsAccounting(s, id);
      JobKeepsSemaphore(s, id);
      JobKeepsThreadLocks(s, id);
      JobKeepsJobLocks(s, id);
      JobKeepsLocals(marked, s, id);
      JobKeepsBacklog(s, id);
      JobKeepsLimits(s, id);
  }

  lemma {:induction false} RunKeepsInv(marked: int -> bool, s: State, schedule: seq<Action>)
    requires Inv(marked, s) && Run(marked, s, schedule).Some?
    ensures Inv(marked, Run(marked, s, schedule).value)
    decreases schedule
  {
    if schedule != [] {
      StepKeepsInv(marked, s, schedule[0]);
      RunKeepsInv(marked, Next(marked, s, schedule[0]).value, schedule[1..]);
    }
  }

  ghost predicate Reachable(marked: int -> bool, s: State) {
    exists bytes: nat, schedule :: Run(marked, Init(bytes), schedule) == Some(s)
  }

  lemma {:induction false} InitInv(marked: int -> bool, bytes: nat)
    ensures Inv(marked, Init(bytes))
  {
  }

  lemma {:induction false} ReachableInv(marked: int -> bool, s: State)
    requires Reachable(marked, s)
    ensures Inv(marked, s)
  {
    hide Run, Inv;
    var bytes: nat, schedule :| Run(marked, Init(bytes), schedule) == Some(s);
    InitInv(marked, bytes);
    RunKeepsInv(marked, Init(bytes), schedule);
  }

  /** In every interleaving the unread replies are exactly those somebody is going to read:
      the counter, the jobs, the enqueuer's uncounted commands and the jobs being handed over.
      No job waits for a reply that never comes, and the semaphore is the number of posted
      unfinished jobs. */
  lemma {:induction false} AccountingTheorem(marked: int -> bool, s: State)
    requires Reachable(marked, s)
    ensures s.unread == s.counter + TotalRemaining(s.jobs) + Uncounted(s.enq)
                        + InHandEnqueuer(s.enq) + InHandFlusher(s.flusher)
    ensures Semaphore(s)
    ensures forall i :: 0 <= i < |s.jobs| && s.jobs[i].pc == JRead ==> s.unread > 0
    ensures forall i :: 0 <= i < |s.jobs| && s.jobs[i].pc == JSemWait ==> s.sem > 0
  {
    ReachableInv(marked, s);
    forall i | 0 <= i < |s.jobs|
      ensures Remaining(s.jobs[i]) <= s.unread && Posted(s.jobs[i]) <= s.sem
    {
      TotalsUpdate(s.jobs, i, s.jobs[i]);
    }
  }

  /** However the threads are scheduled, at most one write more than the pipeline limit is ever
      waiting in the counter or in one job; between calls the byte counter is within its limit, and the
      enqueuer starts a job only when over one of the two. */
  lemma {:induction false} BacklogTheorem(marked: int -> bool, s: State)
    requires Reachable(marked, s)
    ensures s.counter <= PIPELINE_LIMIT + 1
    ensures s.cmd != ByEnqueuer ==> s.counter < PIPELINE_LIMIT
    ensures forall i :: 0 <= i < |s.jobs| ==> s.jobs[i].cmds <= PIPELINE_LIMIT + 1
    ensures s.enq == EIdle && s.sent != [] ==> s.bytes <= BYTE_LIMIT
    ensures Starting(s).Some? ==> Starting(s).value >= PIPELINE_LIMIT || s.bytes > BYTE_LIMIT
  {
    ReachableInv(marked, s);
  }

  /** A write whose sector the filter marks is never refused, however contended the locks are. */
  lemma {:induction false} MarkedNeverDropped(marked: int -> bool, s: State, w: Write)
    requires Reachable(marked, s) && marked(w.sector)
    ensures w !in s.dropped
  {
    ReachableInv(marked, s);
  }

  // ---------------------------------------------------------------- no write is lost

  /** The writes a schedule hands to the enqueuer, in order. */
  function Begun(schedule: seq<Action>): seq<Write> {
    if schedule == [] then [] else
    var n := |schedule| - 1;
    Begun(schedule[..n]) + (if schedule[n].Begin? then [schedule[n].w] else [])
  }

  /** Sector and payload of each write, one pair after the other. */
  function Pairs(ws: seq<Write>): seq<Command> {
    if ws == [] then [] else
    var n := |ws| - 1;
    Pairs(ws[..n]) + [Sector(ws[n].sector), Data(ws[n].data)]
  }

  /** `all` is `a` and `b` merged, each in its own order. */
  predicate Merges(all: seq<Write>, a: seq<Write>, b: seq<Write>) {
    if all == [] then a == [] && b == [] else
    var n := |all| - 1;
    || (a != [] && a[|a| - 1] == all[n] && Merges(all[..n], a[..|a| - 1], b))
    || (b != [] && b[|b| - 1] == all[n] && Merges(all[..n], a, b[..|b| - 1]))
  }

  lemma {:induction false} MergesLeft(all: seq<Write>, a: seq<Write>, b: seq<Write>, w: Write)
    requires Merges(all, a, b)
    ensures Merges(all + [w], a + [w], b)
  {
    assert (all + [w])[..|all|] == all && (a + [w])[..|a|] == a;
  }

  lemma {:induction false} MergesRight(all: seq<Write>, a: seq<Write>, b: seq<Write>, w: Write)
    requires Merges(all, a, b)
    ensures Merges(all + [w], a, b + [w])
  {
    assert (all + [w])[..|all|] == all && (b + [w])[..|b|] == b;
  }

  lemma {:induction false} MergesKeeps(all: seq<Write>, a: seq<Write>, b: seq<Write>)
    requires Merges(all, a, b)
    ensures multiset(all) == multiset(a) + multiset(b)
  {
    if all != [] {
      var n := |all| - 1;
      LastOff(all);
      if a != [] && a[|a| - 1] == all[n] && Merges(all[..n], a[..|a| - 1], b) {
        hide Merges;
        MergesKeeps(all[..n], a[..|a| - 1], b);
        LastOff(a);
      } else {
        hide Merges;
        MergesKeeps(all[..n], a, b[..|b| - 1]);
        LastOff(b);
      }
    }
  }

  lemma {:induction false} LastOff(ws: seq<Write>)
    requires ws != []
    ensures multiset(ws) == multiset(ws[..|ws| - 1]) + multiset{ws[|ws| - 1]}
  {
    assert ws == ws[..|ws| - 1] + [ws[|ws| - 1]];
  }

  lemma {:induction false} PairsAppend(ws: seq<Write>, w: Write)
    ensures Pairs(ws + [w]) == Pairs(ws) + [Sector(w.sector), Data(w.data)]
  {
    assert (ws + [w])[..|ws|] == ws;
  }

  lemma {:induction false} BegunAppend(schedule: seq<Action>, a: Action)
    ensures Begun(schedule + [a]) == Begun(schedule) + (if a.Begin? then [a.w] else [])
  {
    assert (schedule + [a])[..|schedule|] == schedule;
  }

  lemma {:induction false} RunAppend(marked: int -> bool, s: State, schedule: seq<Action>, a: Action)
    ensures Run(marked, s, schedule + [a]) ==
            match Run(marked, s, schedule) case None => None case Some(t) => Next(marked, t, a)
    decreases schedule
  {
    hide Next;
    if schedule == [] {
      assert (schedule + [a])[1..] == [];
    } else {
      assert (schedule + [a])[1..] == schedule[1..] + [a];
      if Next(marked, s, schedule[0]).Some? {
        RunAppend(marked, Next(marked, s, schedule[0]).value, schedule[1..], a);
      }
    }
  }

  /** The write that is neither refused nor pushed as yet. */
  function Working(s: State): seq<Write> {
    match s.enq
    case EWaitConn => [s.op]
    case ETryCmd => [s.op]
    case EDropConn => [s.op]
    case EWaitCmd => [s.op]
    case EPushSector => [s.op]
    case EPushData => [s.op]
    case _ => []
  }

  /** `settled` are the writes refused and those pushed, merged in order. What has been appended to the
      connection are the pairs of those pushed, and the sector of the one whose payload comes next. */
  ghost predicate Kept(s: State, settled: seq<Write>, pushed: seq<Write>) {
    && Merges(settled, s.dropped, pushed)
    && s.sent == Pairs(pushed) + (if s.enq.EPushData? then [Sector(s.op.sector)] else [])
  }

  /** One step: a write is begun, refused or pushed, or nothing happens to any. */
  lemma {:induction false} StepKeeps(marked: int -> bool, s: State, a: Action, settled: seq<Write>, pushed: seq<Write>)
    returns (settled': seq<Write>, pushed': seq<Write>)
    requires Next(marked, s, a).Some? && Kept(s, settled, pushed)
    ensures var t := Next(marked, s, a).value;
            && Kept(t, settled', pushed')
            && settled' + Working(t) == settled + Working(s) + (if a.Begin? then [a.w] else [])
  {
    hide Merges, Pairs;
    var t := Next(marked, s, a).value;
    settled', pushed' := settled, pushed;
    if t.dropped != s.dropped {
      var w := if a.Begin? then a.w else s.op;
      settled' := settled + [w];
      MergesLeft(settled, s.dropped, pushed, w);
    } else if a.StepEnqueuer? && s.enq.EPushData? {
      settled', pushed' := settled + [s.op], pushed + [s.op];
      MergesRight(settled, s.dropped, pushed, s.op);
      PairsAppend(pushed, s.op);
    }
  }

  lemma {:induction false} RunKeeps(marked: int -> bool, bytes: nat, schedule: seq<Action>) returns (settled: seq<Write>, pushed: seq<Write>)
    requires Run(marked, Init(bytes), schedule).Some?
    ensures var s := Run(marked, Init(bytes), schedule).value;
            Kept(s, settled, pushed) && Begun(schedule) == settled + Working(s)
    decreases |schedule|
  {
    hide Next, Working, Kept;
    if schedule == [] {
      settled, pushed := [], [];
      InitKept(bytes);
    } else {
      var n := |schedule| - 1;
      assert schedule == schedule[..n] + [schedule[n]];
      RunAppend(marked, Init(bytes), schedule[..n], schedule[n]);
      BegunAppend(schedule[..n], schedule[n]);
      settled, pushed := RunKeeps(marked, bytes, schedule[..n]);
      settled, pushed := StepKeeps(marked, Run(marked, Init(bytes), schedule[..n]).value, schedule[n], settled, pushed);
    }
  }

  lemma InitKept(bytes: nat)
    ensures Kept(Init(bytes), [], []) && Working(Init(bytes)) == []
  {
  }

  /** In every interleaving the writes begun are, in order, those refused and those pushed, and last the
      one being worked on. Pushed means that sector and payload stand one after the other among the
      commands appended, in the order of the writes, with nothing else between them. */
  lemma {:induction false} NoWriteIsLost(marked: int -> bool, bytes: nat, schedule: seq<Action>)
    requires Run(marked, Init(bytes), schedule).Some?
    ensures var s := Run(marked, Init(bytes), schedule).value;
            exists settled, pushed ::
              && Begun(schedule) == settled + Working(s) && Merges(settled, s.dropped, pushed)
              && s.sent == Pairs(pushed) + (if s.enq.EPushData? then [Sector(s.op.sector)] else [])
  {
    hide Run, Begun;
    var settled, pushed := RunKeeps(marked, bytes, schedule);
  }

  /** The enqueuer meets a lock somebody else holds while it handles the write. */
  predicate Contended(s: State, a: Action, w: Write) {
    || (a == Begin(w) && s.conn != Free)
    || (a == StepEnqueuer && s.enq == ETryCmd && s.op == w && s.cmd != Free)
  }

  /** Some step of the schedule meets a taken lock for the write. */
  ghost predicate MetLock(marked: int -> bool, bytes: nat, schedule: seq<Action>, w: Write) {
    exists k :: 0 <= k < |schedule| && Run(marked, Init(bytes), schedule[..k]).Some?
                && Contended(Run(marked, Init(bytes), schedule[..k]).value, schedule[k], w)
  }

  lemma {:induction false} MetLockLater(marked: int -> bool, bytes: nat, schedule: seq<Action>, a: Action, w: Write)
    requires MetLock(marked, bytes, schedule, w)
    ensures MetLock(marked, bytes, schedule + [a], w)
  {
    hide Run;
    var k :| 0 <= k < |schedule| && Run(marked, Init(bytes), schedule[..k]).Some?
             && Contended(Run(marked, Init(bytes), schedule[..k]).value, schedule[k], w);
    assert (schedule + [a])[..k] == schedule[..k];
  }

  lemma {:induction false} MetLockNow(marked: int -> bool, bytes: nat, schedule: seq<Action>, a: Action, w: Write)
    requires Run(marked, Init(bytes), schedule).Some? && Contended(Run(marked, Init(bytes), schedule).value, a, w)
    ensures MetLock(marked, bytes, schedule + [a], w)
  {
    hide Run;
    var k := |schedule|;
    assert (schedule + [a])[..k] == schedule;
  }

  /** What is refused, or about to be, by the next step. */
  lemma {:induction false} RefusedNow(marked: int -> bool, s: State, a: Action, w: Write)
    requires Next(marked, s, a).Some?
    requires var t := Next(marked, s, a).value; w in t.dropped || (t.enq.EDropConn? && t.op == w)
    ensures w in s.dropped || (s.enq.EDropConn? && s.op == w) || Contended(s, a, w)
  {
  }

  lemma {:induction false} RefusedMetLock(marked: int -> bool, bytes: nat, schedule: seq<Action>, w: Write)
    requires Run(marked, Init(bytes), schedule).Some?
    requires var s := Run(marked, Init(bytes), schedule).value; w in s.dropped || (s.enq.EDropConn? && s.op == w)
    ensures MetLock(marked, bytes, schedule, w)
    decreases |schedule|
  {
    hide Next, Contended, MetLock;
    if schedule != [] {
      var n := |schedule| - 1;
      assert schedule == schedule[..n] + [schedule[n]];
      RunAppend(marked, Init(bytes), schedule[..n], schedule[n]);
      var s := Run(marked, Init(bytes), schedule[..n]).value;
      RefusedNow(marked, s, schedule[n], w);
      if Contended(s, schedule[n], w) {
        MetLockNow(marked, bytes, schedule[..n], schedule[n], w);
      } else {
        RefusedMetLock(marked, bytes, schedule[..n], w);
        MetLockLater(marked, bytes, schedule[..n], schedule[n], w);
      }
    }
  }

  /** A write is refused only when its sector is unmarked and the enqueuer met a lock that was taken. */
  lemma {:induction false} RefusedOnlyWhenContended(marked: int -> bool, bytes: nat, schedule: seq<Action>, w: Write)
    requires Run(marked, Init(bytes), schedule).Some? && w in Run(marked, Init(bytes), schedule).value.dropped
    ensures !marked(w.sector) && MetLock(marked, bytes, schedule, w)
  {
    hide Run, MetLock;
    var s := Run(marked, Init(bytes), schedule).value;
    if marked(w.sector) {
      MarkedNeverDropped(marked, s, w);
    }
    RefusedMetLock(marked, bytes, schedule, w);
  }

  /** Once the enqueuer is idle, every marked write ever begun has been pushed, sector and payload. */
  lemma {:induction false} MarkedIsPushed(marked: int -> bool, bytes: nat, schedule: seq<Action>, w: Write)
    requires Run(marked, Init(bytes), schedule).Some? && w in Begun(schedule) && marked(w.sector)
    ensures var s := Run(marked, Init(bytes), schedule).value;
            s.enq == EIdle ==> exists k: nat :: PairStands(s.sent, k, w)
  {
    hide Run, Begun;
    var s := Run(marked, Init(bytes), schedule).value;
    if s.enq == EIdle {
      var settled, pushed := RunKeeps(marked, bytes, schedule);
      MarkedNeverDropped(marked, s, w);
      MergesKeeps(settled, s.dropped, pushed);
      assert Begun(schedule) == settled;
      assert w in multiset(settled) && w !in multiset(s.dropped);
      assert w in multiset(pushed);
      var i :| 0 <= i < |pushed| && pushed[i] == w;
      PairAt(pushed, i);
      assert PairStands(s.sent, 2 * i, w);
    }
  }

  /** Sector and payload of the write stand next to each other. */
  predicate PairStands(sent: seq<Command>, k: nat, w: Write) {
    k + 1 < |sent| && sent[k] == Sector(w.sector) && sent[k + 1] == Data(w.data)
  }

  // ---------------------------------------------------------------- the byte counter

  /** Bytes of the commands, a sector number being eight. */
  function Size(cs: seq<Command>): nat {
    if cs == [] then 0 else
    var n := |cs| - 1;
    Size(cs[..n]) + (match cs[n] case Sector(_) => 8 case Data(data) => |data|)
  }

  lemma {:induction false} SizeAppend(cs: seq<Command>, from: nat, c: Command)
    requires from <= |cs|
    ensures Size((cs + [c])[from..]) == Size(cs[from..]) + (match c case Sector(_) => 8 case Data(data) => |data|)
  {
    assert (cs + [c])[from..] == cs[from..] + [c];
    assert (cs[from..] + [c])[..|cs[from..]|] == cs[from..];
  }

  /** How many commands had been appended when the enqueuer last started a job, if it ever did. */
  ghost function JobStarted(marked: int -> bool, bytes: nat, schedule: seq<Action>): Option<nat> {
    if schedule == [] then None else
    var n := |schedule| - 1;
    var before := Run(marked, Init(bytes), schedule[..n]);
    if before.Some? && schedule[n] == StepEnqueuer && before.value.enq == EClearBytes then Some(|before.value.sent|)
    else JobStarted(marked, bytes, schedule[..n])
  }

  /** Bytes appended that the enqueuer has not yet added to the counter. */
  function UncountedBytes(s: State): nat {
    match s.enq
    case EPushData => 8
    case EFreeConn => 8 + |s.op.data|
    case ECountSector => 8 + |s.op.data|
    case ECountData => |s.op.data|
    case _ => 0
  }

  ghost predicate ByteAccount(s: State, bytes: nat, started: Option<nat>) {
    var from := if started.Some? then started.value else 0;
    from <= |s.sent| && s.bytes + UncountedBytes(s) == (if started.Some? then 0 else bytes) + Size(s.sent[from..])
  }

  lemma {:induction false} StepKeepsBytes(marked: int -> bool, s: State, a: Action, bytes: nat, started: Option<nat>)
    requires Next(marked, s, a).Some? && ByteAccount(s, bytes, started)
    ensures var t := Next(marked, s, a).value;
            ByteAccount(t, bytes, if a == StepEnqueuer && s.enq == EClearBytes then Some(|s.sent|) else started)
  {
    hide Size;
    var from := if started.Some? then started.value else 0;
    if a == StepEnqueuer && s.enq == EPushSector {
      SizeAppend(s.sent, from, Sector(s.op.sector));
    } else if a == StepEnqueuer && s.enq == EPushData {
      SizeAppend(s.sent, from, Data(s.op.data));
    } else if a == StepEnqueuer && s.enq == EClearBytes {
      SizeNone(s.sent[|s.sent|..]);
    }
  }

  lemma SizeNone(cs: seq<Command>)
    requires cs == []
    ensures Size(cs) == 0
  {
  }

  /** In every interleaving outstanding_bytes is the size of what has been appended since the enqueuer
      last started a job; before the first one, on top of what the counter happened to hold. */
  lemma {:induction false} ByteTheorem(marked: int -> bool, bytes: nat, schedule: seq<Action>)
    requires Run(marked, Init(bytes), schedule).Some?
    ensures var s, started := Run(marked, Init(bytes), schedule).value, JobStarted(marked, bytes, schedule);
            var from := if started.Some? then started.value else 0;
            from <= |s.sent| && s.bytes + UncountedBytes(s) == (if started.Some? then 0 else bytes) + Size(s.sent[from..])
    decreases |schedule|
  {
    hide Next;
    if schedule == [] {
      SizeNone(Init(bytes).sent[0..]);
    } else {
      var n := |schedule| - 1;
      assert schedule == schedule[..n] + [schedule[n]];
      RunAppend(marked, Init(bytes), schedule[..n], schedule[n]);
      ByteTheorem(marked, bytes, schedule[..n]);
      StepKeepsBytes(marked, Run(marked, Init(bytes), schedule[..n]).value, schedule[n], bytes, JobStarted(marked, bytes, schedule[..n]));
    }
  }

  lemma {:induction false} PairAt(ws: seq<Write>, i: nat)
    requires i < |ws|
    ensures |Pairs(ws)| == 2 * |ws| && Pairs(ws)[2 * i] == Sector(ws[i].sector) && Pairs(ws)[2 * i + 1] == Data(ws[i].data)
  {
    PairsLength(ws);
    var n := |ws| - 1;
    PairsLength(ws[..n]);
    if i < n {
      PairAt(ws[..n], i);
    }
  }

  lemma {:induction false} PairsLength(ws: seq<Write>)
    ensures |Pairs(ws)| == 2 * |ws|
  {
    if ws != [] {
      PairsLength(ws[..|ws| - 1]);
    }
  }

  // ---------------------------------------------------------------- progress

  /** Position of a lock in the order flush_lock, conn_lock, cmd_lock. */
  datatype Lock = FlushLock | ConnLock | CmdLock

  function Rank(l: Lock): nat {
    match l case FlushLock => 0 case ConnLock => 1 case CmdLock => 2
  }

  function Holder(s: State, l: Lock): Owner {
    match l case FlushLock => s.flush case ConnLock => s.conn case CmdLock => s.cmd
  }

  /** The locks a thread may block on at its current step. */
  function WaitsFor(s: State, who: Owner): set<Lock> {
    match who
    case Free => {}
    case ByEnqueuer => if s.enq == EWaitConn then {ConnLock} else if s.enq == EWaitCmd then {CmdLock} else {}
    case ByFlusher => if s.flusher == FWantCmd then {CmdLock} else {}
    case ByJob(i) =>
      if i >= |s.jobs| then {}
      else if s.jobs[i].pc == JWantFlush then {FlushLock}
      else if s.jobs[i].pc == JWantConn then {ConnLock}
      else {}
  }

  /** No thread ever waits for a lock while holding a later one, and none waits for its own. */
  lemma {:induction false} LockOrder(marked: int -> bool, s: State, who: Owner, wanted: Lock, held: Lock)
    requires Reachable(marked, s)
    requires wanted in WaitsFor(s, who) && Holder(s, held) == who
    ensures Rank(held) < Rank(wanted)
  {
    ReachableInv(marked, s);
  }

  /** Every operation has returned: nothing is left but idle threads. */
  ghost predicate Quiescent(s: State) {
    && s.enq == EIdle
    && s.flusher == FSleep
    && forall i :: 0 <= i < |s.jobs| ==> s.jobs[i].pc == JDone
  }

  /** Actions that carry on an operation already under way. */
  predicate Continues(a: Action) {
    !a.Begin? && !a.Wake?
  }

  /** Some operation under way can always take its next step. */
  lemma {:induction false} Progress(marked: int -> bool, s: State) returns (a: Action)
    requires Inv(marked, s) && !Quiescent(s)
    ensures Continues(a) && Next(marked, s, a).Some?
  {
    if s.cmd == ByFlusher {
      a := StepFlusher;
    } else if s.cmd == ByEnqueuer || s.conn == ByEnqueuer {
      a := StepEnqueuer;
    } else if s.conn.ByJob? {
      a := StepJob(s.conn.id);
      TotalsUpdate(s.jobs, s.conn.id, s.jobs[s.conn.id]);
    } else if s.flush.ByJob? {
      a := StepJob(s.flush.id);
      TotalsUpdate(s.jobs, s.flush.id, s.jobs[s.flush.id]);
    } else if i: nat :| i < |s.jobs| && s.jobs[i].pc != JDone {
      a := StepJob(i);
    } else if s.enq != EIdle {
      a := StepEnqueuer;
    } else {
      a := StepFlusher;
    }
  }

  /** In every reachable state with unfinished work, some unfinished thread can step. */
  lemma {:induction false} DeadlockFreedom(marked: int -> bool, s: State)
    requires Reachable(marked, s) && !Quiescent(s)
    ensures exists a :: Continues(a) && Next(marked, s, a).Some?
  {
    ReachableInv(marked, s);
    var a := Progress(marked, s);
  }

  // ---------------------------------------------------------------- draining

  function JobWork(j: Job): nat {
    5 * j.cmds + match j.pc
      case JWantFlush => 5
      case JLoop => 4
      case JWantConn => 3
      case JRead => 2
      case JFreeConn => 1
      case JDecrement => 0
      case JSemWait => 3
      case JFreeFlush => 2
      case JDone => 0
  }

  function TotalWork(jobs: seq<Job>): nat {
    if jobs == [] then 0 else TotalWork(jobs[..|jobs| - 1]) + JobWork(jobs[|jobs| - 1])
  }

  function EnqueuerWork(e: EnqueuerPc): nat {
    match e
    case EIdle => 0
    case EDropConn => 1
    case EWaitConn => 33
    case ETryCmd => 32
    case EWaitCmd => 31
    case EPushSector => 30
    case EPushData => 29
    case EFreeConn => 28
    case ECountSector => 27
    case ECountData => 21
    case ECheck => 15
    case ESnapshot => 14
    case EReset(_) => 13
    case EFreeCmdJob(k) => 12 + 5 * k
    case EPost(k) => 11 + 5 * k
    case ESpawn(k) => 10 + 5 * k
    case EClearBytes => 1
    case EFreeCmd => 1
  }

  function FlusherWork(f: FlusherPc): nat {
    match f
    case FSleep => 0
    case FWantCmd => 13
    case FSnapshot => 12
    case FReset(_) => 11
    case FFreeCmd(k) => 10 + 5 * k
    case FPost(k) => 9 + 5 * k
    case FStart(k) => 8 + 5 * k
    case FRunning(_) => 1
  }

  /** Bound on the number of steps the operations under way can still take. */
  function Work(s: State): nat {
    5 * s.counter + TotalWork(s.jobs) + EnqueuerWork(s.enq) + FlusherWork(s.flusher)
  }

  lemma {:induction false} WorkUpdate(jobs: seq<Job>, i: nat, j: Job)
    requires i < |jobs|
    ensures TotalWork(jobs[i := j]) == TotalWork(jobs) - JobWork(jobs[i]) + JobWork(j)
  {
    var n := |jobs| - 1;
    if i == n {
      assert jobs[i := j][..n] == jobs[..n];
    } else {
      WorkUpdate(jobs[..n], i, j);
      assert jobs[i := j][..n] == jobs[..n][i := j];
    }
  }

  lemma {:induction false} WorkAppend(jobs: seq<Job>, j: Job)
    ensures TotalWork(jobs + [j]) == TotalWork(jobs) + JobWork(j)
  {
    assert (jobs + [j])[..|jobs|] == jobs;
  }

  lemma {:induction false} EnqueuerUsesWork(marked: int -> bool, s: State)
    requires Snapshots(s) && EnqueuerNext(marked, s).Some?
    ensures Work(EnqueuerNext(marked, s).value) < Work(s)
  {
    hide TotalWork;
    if s.enq.ESpawn? {
      WorkAppend(s.jobs, Job(s.enq.k, JWantFlush));
    }
  }

  lemma {:induction false} FlusherUsesWork(s: State)
    requires Snapshots(s) && FlusherNext(s).Some?
    ensures Work(FlusherNext(s).value) < Work(s)
  {
    hide TotalWork;
    if s.flusher.FStart? {
      WorkAppend(s.jobs, Job(s.flusher.k, JWantFlush));
    }
  }

  lemma {:induction false} JobUsesWork(s: State, id: nat)
    requires JobNext(s, id).Some? && JobOk(s.jobs[id])
    ensures Work(JobNext(s, id).value) < Work(s)
  {
    var t := JobNext(s, id).value;
    WorkUpdate(s.jobs, id, t.jobs[id]);
    assert t.jobs == s.jobs[id := t.jobs[id]];
  }

  /** Every step of an operation under way uses up work, whoever takes it. */
  lemma {:induction false} StepUsesWork(marked: int -> bool, s: State, a: Action)
    requires Inv(marked, s) && Continues(a) && Next(marked, s, a).Some?
    ensures Work(Next(marked, s, a).value) < Work(s)
  {
    match a
    case StepEnqueuer => EnqueuerUsesWork(marked, s);
    case StepFlusher => FlusherUsesWork(s);
    case StepJob(id) => JobUsesWork(s, id);
  }

  /** No schedule that starts nothing new is longer than the work left. */
  lemma {:induction false} ContinuationsAreBounded(marked: int -> bool, s: State, schedule: seq<Action>)
    requires Inv(marked, s) && Run(marked, s, schedule).Some?
    requires forall i :: 0 <= i < |schedule| ==> Continues(schedule[i])
    ensures |schedule| + Work(Run(marked, s, schedule).value) <= Work(s)
    decreases schedule
  {
    if schedule != [] {
      StepKeepsInv(marked, s, schedule[0]);
      StepUsesWork(marked, s, schedule[0]);
      ContinuationsAreBounded(marked, Next(marked, s, schedule[0]).value, schedule[1..]);
    }
  }

  /** When nothing can continue, everything has finished: all locks are free, the semaphore is
      zero and the replies left on the connection are the ones the counter will hand to the
      next job. Together with ContinuationsAreBounded, every maximal schedule ends here. */
  lemma {:induction false} MaximalRunsDrain(marked: int -> bool, s: State)
    requires Reachable(marked, s)
    requires forall a :: Continues(a) ==> Next(marked, s, a) == None
    ensures Quiescent(s)
    ensures s.flush == Free && s.conn == Free && s.cmd == Free
    ensures s.sem == 0 && s.unread == s.counter
  {
    ReachableInv(marked, s);
    if !Quiescent(s) {
      var a := Progress(marked, s);
      assert false;
    }
    AllDone(s.jobs);
  }

  lemma {:induction false} AllDone(jobs: seq<Job>)
    requires forall i :: 0 <= i < |jobs| ==> jobs[i].pc == JDone && JobOk(jobs[i])
    ensures TotalRemaining(jobs) == 0 && TotalPosted(jobs) == 0
  {
    if jobs != [] {
      AllDone(jobs[..|jobs| - 1]);
    }
  }
}
