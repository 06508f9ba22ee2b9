/** The event loop and the DNS worker thread, over all their interleavings:
    src/shared/dns_worker.c, the notification list of src/shared/selector.c and the
    session bookkeeping of src/shared/socks5.c. What one event does to one session is
    what Sessions proves of it: the state number never decreases, the reference count
    is Counted, RESOLV is left only through its notification. */
module Protocol {
  import opened Bytes
  import opened Selectors
  import opened Sessions
  import Attempts

  /** An address of a session record. */
  type Id = nat

  /** Bytes sent, to the origin and to the client. */
  datatype Traffic = Traffic(c2o: nat, o2c: nat)
  {
    function Plus(t: Traffic): Traffic {
      Traffic(c2o + t.c2o, o2c + t.o2c)
    }

    predicate AtMost(t: Traffic) {
      c2o <= t.c2o && o2c <= t.o2c
    }

    /** This, after a session has moved on from before to after. */
    function Moved(before: Traffic, after: Traffic): Traffic
      requires before.AtMost(after)
    {
      Traffic(c2o + after.c2o - before.c2o, o2c + after.o2c - before.o2c)
    }
  }

  const SILENT := Traffic(0, 0)

  /** result is origin_resolution: None until the worker writes it. */
  datatype Sess = Sess(state: State, reg: Registration, result: Option<seq<Attempts.Address>>, traffic: Traffic)

  /** target is the raw pointer into the session record. */
  datatype Job = Job(target: Id, fd: int)

  /** The worker thread, by the lock-free point it has reached. */
  datatype Worker =
    | Looking                    // about to lock and look at the queue
    | Parked(signalled: bool)    // in pthread_cond_wait
    | Resolving(job: Job)        // in getaddrinfo
    | Notifying(job: Job)        // the result is written
    | Exited

  datatype World = World(
    sessions: map<Id, Sess>,     // records in use
    pool: seq<Id>,               // records kept for reuse
    table: map<int, Id>,         // selector slots and their attachments
    queue: seq<Job>, worker: Worker, running: bool,
    notes: seq<Job>,             // resolution_jobs; only fd is stored, target is a record of ours
    draining: bool,              // the loop holds resolution_mutex
    active: seq<Id>, accepted: nat, closed: nat,
    submitted: seq<Job>, taken: seq<Job>,
    total: Traffic, gone: Traffic,   // the global byte counters; what closed sessions sent
    broken: bool)                // an abort, or a write through a dangling pointer

  const MAX_POOL := 50

  const START := World(map[], [], map[], [], Looking, true, [], false, [], 0, 0, [], [], SILENT, SILENT, false)

  function Underway(w: Worker): seq<Job> {
    match w
    case Resolving(j) => [j]
    case Notifying(j) => [j]
    case _ => []
  }

  /** Every job that has been submitted and not yet delivered. */
  function InFlight(w: World): multiset<Job> {
    multiset(w.queue) + multiset(Underway(w.worker)) + multiset(w.notes)
  }

  function Fds(r: Registration): set<int> {
    if r.originFd == -1 then {r.clientFd} else {r.clientFd, r.originFd}
  }

  // ----- steps of the event loop

  datatype Step =
    | Accept(id: Id, fd: int)
    | AcceptFailed(id: Id)
    | Event(id: Id, after: Sess)
    | Close(id: Id, final: Traffic)
    | BeginNotes
    | Deliver(after: Sess)
    | EndNotes
    | Stop
    | Take
    | Park
    | Wake
    | Exit
    | Resolve(result: seq<Attempts.Address>)
    | Notify

  /** socks5_new takes the head of the pool, or memory that is in use nowhere. */
  predicate NextRecord(w: World, id: Id) {
    if w.pool != [] then id == w.pool[0] else id !in w.sessions
  }

  function PoolAfterNew(w: World): seq<Id> {
    if w.pool != [] then w.pool[1..] else []
  }

  function PoolAfterFree(pool: seq<Id>, id: Id): seq<Id> {
    if |pool| < MAX_POOL then [id] + pool else pool
  }

  /** pthread_cond_signal. */
  function Signal(w: Worker): Worker {
    if w.Parked? then Parked(true) else w
  }

  function Retable(table: map<int, Id>, id: Id, before: Registration, after: Registration): map<int, Id> {
    (table - Fds(before)) + map fd | fd in Fds(after) :: id
  }

  function Without(s: seq<Id>, id: Id): seq<Id> {
    if s == [] then [] else if s[0] == id then s[1..] else [s[0]] + Without(s[1..], id)
  }

  predicate LoopFree(w: World) {
    w.running && !w.draining
  }

  /** What a handler may turn a session into: see Session.Grown and Session.References. */
  predicate Successor(w: World, id: Id, after: Sess) {
    && id in w.sessions
    && var before := w.sessions[id];
       && Rank(before.state) <= Rank(after.state) && before.traffic.AtMost(after.traffic)
       && after.reg.clientFd == before.reg.clientFd
       && (forall fd :: fd in Fds(after.reg) && fd !in Fds(before.reg) ==> fd !in w.table)
  }

  ghost predicate Enabled(w: World, s: Step) {
    match s
    case Accept(id, fd) => LoopFree(w) && NextRecord(w, id) && ValidFd(fd) && fd !in w.table
    case AcceptFailed(id) => LoopFree(w) && NextRecord(w, id)
    case Event(id, after) =>
      && LoopFree(w) && Successor(w, id, after) && Counted(after.state, after.reg)
      && w.sessions[id].state != RequestResolv && after.result == w.sessions[id].result
    case Close(id, final) =>
      && LoopFree(w) && id in w.sessions && w.sessions[id].state != RequestResolv
      && w.sessions[id].traffic.AtMost(final)
    case BeginNotes => LoopFree(w)
    case Deliver(after) =>
      && w.running && w.draining && w.notes != []
      && var fd := w.notes[0].fd;
         fd in w.table ==>
           Successor(w, w.table[fd], after) && Counted(after.state, after.reg)
           && (after.state == Connecting || after.state == RequestWrite)
    case EndNotes => w.running && w.draining && w.notes == []
    case Stop => LoopFree(w)
    case Take => w.worker == Looking && w.queue != []
    case Park => w.worker == Looking && w.queue == [] && w.running
    case Wake => w.worker.Parked?  // signalled, or spuriously
    case Exit => w.worker == Looking && w.queue == [] && !w.running
    case Resolve(_) => w.worker.Resolving?
    case Notify => w.worker.Notifying? && !w.draining
  }

  ghost function Do(w: World, s: Step): World
    requires Enabled(w, s)
  {
    match s
    case Accept(id, fd) =>
      w.(sessions := w.sessions[id := Sess(HelloRead, Registration(fd, -1, Some(OP_READ), None, 1), None, SILENT)],
         pool := PoolAfterNew(w), table := w.table[fd := id], active := [id] + w.active, accepted := w.accepted + 1)
    case AcceptFailed(id) =>
      w.(pool := PoolAfterFree(PoolAfterNew(w), id))
    case Event(id, after) =>
      var job := Job(id, after.reg.clientFd);
      var w' := w.(sessions := w.sessions[id := after], table := Retable(w.table, id, w.sessions[id].reg, after.reg),
                   total := w.total.Moved(w.sessions[id].traffic, after.traffic));
      if after.state == RequestResolv then
        w'.(queue := w.queue + [job], submitted := w.submitted + [job], worker := Signal(w.worker))
      else w'
    case Close(id, final) =>
      w.(sessions := w.sessions - {id}, table := w.table - Fds(w.sessions[id].reg), pool := PoolAfterFree(w.pool, id),
         active := Without(w.active, id), closed := w.closed + 1,
         total := w.total.Moved(w.sessions[id].traffic, final), gone := w.gone.Plus(final))
    case BeginNotes => w.(draining := true)
    case Deliver(after) =>
      var fd := w.notes[0].fd;
      var w' := w.(notes := w.notes[1..]);
      if fd !in w.table then w'
      else
        var id := w.table[fd];
        // stm_handler_block aborts in any other state; a missing result is read as garbage
        if id !in w.sessions || w.sessions[id].state != RequestResolv || w.sessions[id].result == None then w'.(broken := true)
        else w'.(sessions := w.sessions[id := after], table := Retable(w.table, id, w.sessions[id].reg, after.reg),
                 total := w.total.Moved(w.sessions[id].traffic, after.traffic))
    case EndNotes => w.(draining := false)
    case Stop => w.(running := false, worker := Signal(w.worker))
    case Take => w.(worker := Resolving(w.queue[0]), queue := w.queue[1..], taken := w.taken + [w.queue[0]])
    case Park => w.(worker := Parked(false))
    case Wake => w.(worker := Looking)
    case Exit => w.(worker := Exited)
    case Resolve(result) =>
      var job := w.worker.job;
      if job.target !in w.sessions then w.(broken := true)
      else w.(worker := Notifying(job),
              sessions := w.sessions[job.target := w.sessions[job.target].(result := Some(result))])
    case Notify => w.(worker := Looking, notes := [w.worker.job] + w.notes)
  }

  // ----- the invariant

  type Records = map<Id, Sess>

  /** Each slot belongs to the session that holds its descriptor, and back. */
  ghost predicate Slotted(ss: Records, table: map<int, Id>) {
    && (forall id, fd :: id in ss && fd in Fds(ss[id].reg) ==> fd in table && table[fd] == id)
    && (forall fd :: fd in table ==> table[fd] in ss && fd in Fds(ss[table[fd]].reg))
  }

  /** The number of jobs j ought to have. */
  ghost function Due(ss: Records, j: Job): nat {
    if j.target in ss && ss[j.target].state == RequestResolv && j.fd == ss[j.target].reg.clientFd then 1 else 0
  }

  /** A session in RESOLV has exactly one job, counting the queue, the lookup in
      progress and the notification list; no other session has any. */
  ghost predicate OneJobEach(ss: Records, jobs: multiset<Job>) {
    forall j: Job :: jobs[j] == Due(ss, j)
  }

  /** A job past getaddrinfo has its result in place. */
  ghost predicate ResultsWritten(ss: Records, worker: Worker, notes: seq<Job>) {
    && (worker.Notifying? ==> HasResult(ss, worker.job))
    && (forall j :: j in notes ==> HasResult(ss, j))
  }

  ghost predicate HasResult(ss: Records, j: Job) {
    j.target in ss && ss[j.target].result.Some?
  }

  ghost predicate NoDup(s: seq<Id>) {
    forall i, j :: 0 <= i < j < |s| ==> s[i] != s[j]
  }

  /** Records are in use or pooled, never both; the active list is exactly the
      sessions, each once; the pool is bounded. */
  ghost predicate Owned(ids: set<Id>, pool: seq<Id>, active: seq<Id>, live: int) {
    && NoDup(active) && (forall id :: id in active <==> id in ids) && |active| == live
    && NoDup(pool) && (forall id :: id in pool ==> id !in ids) && |pool| <= MAX_POOL
  }

  /** Jobs are taken in submission order, each once; a parked, unsignalled worker has
      nothing to do; a worker that exited left nothing behind. */
  ghost predicate Ordered(submitted: seq<Job>, taken: seq<Job>, queue: seq<Job>, worker: Worker, running: bool) {
    && submitted == taken + queue
    && (worker == Parked(false) ==> queue == [] && running)
    && (worker == Exited ==> queue == [] && !running)
  }

  /** What the listed sessions have sent so far. */
  ghost function Sent(ids: seq<Id>, ss: Records): Traffic {
    if ids == [] then SILENT
    else (if ids[0] in ss then ss[ids[0]].traffic else SILENT).Plus(Sent(ids[1..], ss))
  }

  ghost predicate AllCounted(ss: Records) {
    forall id :: id in ss ==> Counted(ss[id].state, ss[id].reg)
  }

  ghost predicate Inv(w: World) {
    && AllCounted(w.sessions) && Slotted(w.sessions, w.table)
    && OneJobEach(w.sessions, InFlight(w)) && ResultsWritten(w.sessions, w.worker, w.notes)
    && Owned(w.sessions.Keys, w.pool, w.active, w.accepted - w.closed)
    && Ordered(w.submitted, w.taken, w.queue, w.worker, w.running)
    && !w.broken
  }

  /** The global byte counters are the sum of what the sessions sent, live and closed. */
  ghost predicate Accounted(w: World) {
    w.total == w.gone.Plus(Sent(w.active, w.sessions))
  }

  lemma StartInv()
    ensures Inv(START)
  {
    assert InFlight(START) == multiset{};
  }

  // ----- each step keeps it

  lemma {:induction false} WithoutOne(s: seq<Id>, id: Id)
    requires NoDup(s) && id in s
    ensures |Without(s, id)| == |s| - 1 && NoDup(Without(s, id))
    ensures forall x :: x in Without(s, id) <==> x in s && x != id
  {
    if s[0] != id {
      WithoutOne(s[1..], id);
      assert s == [s[0]] + s[1..];
      assert forall x :: x in s <==> x == s[0] || x in s[1..];
      assert s[0] !in s[1..];
    } else {
      assert s == [id] + s[1..];
      assert forall x :: x in s <==> x == id || x in s[1..];
    }
  }

  lemma PoolKeeps(pool: seq<Id>, id: Id)
    requires NoDup(pool) && id !in pool && |pool| <= MAX_POOL
    ensures var p := PoolAfterFree(pool, id);
            NoDup(p) && |p| <= MAX_POOL && forall x :: x in p ==> x == id || x in pool
  {
  }

  lemma PoolTaken(pool: seq<Id>)
    requires NoDup(pool) && pool != []
    ensures NoDup(pool[1..]) && forall x :: x in pool[1..] <==> x in pool && x != pool[0]
  {
    assert pool == [pool[0]] + pool[1..];
  }

  /** A new record: its slot, no job, and the rest as before. */
  lemma RecordsAdded(ss: Records, table: map<int, Id>, jobs: multiset<Job>, id: Id, fd: int, s: Sess)
    requires AllCounted(ss) && Slotted(ss, table) && OneJobEach(ss, jobs)
    requires id !in ss && fd !in table && Fds(s.reg) == {fd} && Counted(s.state, s.reg) && s.state != RequestResolv
    ensures var ss' := ss[id := s];
            && AllCounted(ss') && Slotted(ss', table[fd := id]) && OneJobEach(ss', jobs)
            && ss'.Keys == ss.Keys + {id} && (forall j :: HasResult(ss, j) ==> HasResult(ss', j))
  {
    var ss' := ss[id := s];
    forall j: Job ensures jobs[j] == Due(ss', j) {
      assert jobs[j] == Due(ss, j);
    }
  }

  lemma AcceptKeeps(w: World, id: Id, fd: int)
    requires Inv(w) && Enabled(w, Accept(id, fd))
    ensures Inv(Do(w, Accept(id, fd)))
  {
    var w' := Do(w, Accept(id, fd));
    if w.pool != [] {
      PoolTaken(w.pool);
    }
    RecordsAdded(w.sessions, w.table, InFlight(w), id, fd, w'.sessions[id]);
    assert InFlight(w') == InFlight(w);
  }

  lemma AcceptFailedKeeps(w: World, id: Id)
    requires Inv(w) && Enabled(w, AcceptFailed(id))
    ensures Inv(Do(w, AcceptFailed(id)))
  {
    if w.pool != [] {
      PoolTaken(w.pool);
    }
    PoolKeeps(PoolAfterNew(w), id);
    assert InFlight(Do(w, AcceptFailed(id))) == InFlight(w);
  }

  /** Replacing a session and its slots keeps the table consistent. */
  lemma SlotsReplaced(ss: Records, table: map<int, Id>, id: Id, after: Sess)
    requires Slotted(ss, table) && id in ss
    requires forall fd :: fd in Fds(after.reg) && fd !in Fds(ss[id].reg) ==> fd !in table
    ensures Slotted(ss[id := after], Retable(table, id, ss[id].reg, after.reg))
    ensures ss[id := after].Keys == ss.Keys
  {
    var before := ss[id].reg;
    var t := Retable(table, id, before, after.reg);
    assert forall fd :: fd in t <==> (fd in table && fd !in Fds(before)) || fd in Fds(after.reg);
    forall x, fd | x in ss && x != id && fd in Fds(ss[x].reg) ensures fd in t && t[fd] == x {
      assert table[fd] == x;
      assert fd !in Fds(before) && fd !in Fds(after.reg);
    }
  }

  /** The jobs due once a session has changed its state. */
  lemma DueReplaced(ss: Records, id: Id, after: Sess, jobs: multiset<Job>, jobs': multiset<Job>)
    requires OneJobEach(ss, jobs) && id in ss && after.reg.clientFd == ss[id].reg.clientFd
    requires var job := multiset{Job(id, after.reg.clientFd)};
             if ss[id].state == RequestResolv then after.state != RequestResolv && jobs == jobs' + job
             else jobs' == if after.state == RequestResolv then jobs + job else jobs
    ensures OneJobEach(ss[id := after], jobs')
  {
    forall j: Job ensures jobs'[j] == Due(ss[id := after], j) {
      assert jobs[j] == Due(ss, j);
    }
  }

  lemma EventJobs(w: World, id: Id, after: Sess)
    requires Inv(w) && Enabled(w, Event(id, after))
    ensures InFlight(Do(w, Event(id, after))) ==
            if after.state == RequestResolv then InFlight(w) + multiset{Job(id, after.reg.clientFd)} else InFlight(w)
  {
    assert multiset(w.queue + [Job(id, after.reg.clientFd)]) == multiset(w.queue) + multiset{Job(id, after.reg.clientFd)};
    assert Underway(Signal(w.worker)) == Underway(w.worker);
  }

  /** An event leaves results and the worker's place in the protocol alone. */
  lemma EventResults(w: World, id: Id, after: Sess)
    requires Inv(w) && id in w.sessions && after.result == w.sessions[id].result
    ensures ResultsWritten(w.sessions[id := after], w.worker, w.notes)
    ensures ResultsWritten(w.sessions[id := after], Signal(w.worker), w.notes)
  {
    forall j | HasResult(w.sessions, j) ensures HasResult(w.sessions[id := after], j) {
    }
  }

  lemma EventQueue(w: World, job: Job)
    requires Ordered(w.submitted, w.taken, w.queue, w.worker, w.running) && w.running
    ensures Ordered(w.submitted + [job], w.taken, w.queue + [job], Signal(w.worker), w.running)
  {
    assert w.taken + (w.queue + [job]) == w.submitted + [job];
  }

  lemma EventRecords(ss: Records, id: Id, after: Sess)
    requires AllCounted(ss) && Counted(after.state, after.reg)
    ensures AllCounted(ss[id := after])
  {
  }

  lemma EventKeeps(w: World, id: Id, after: Sess)
    requires Inv(w) && Enabled(w, Event(id, after))
    ensures Inv(Do(w, Event(id, after)))
  {
    EventRecords(w.sessions, id, after);
    SlotsReplaced(w.sessions, w.table, id, after);
    EventJobs(w, id, after);
    DueReplaced(w.sessions, id, after, InFlight(w), InFlight(Do(w, Event(id, after))));
    EventResults(w, id, after);
    EventQueue(w, Job(id, after.reg.clientFd));
  }

  /** A record removed while it is owed no job. */
  lemma RecordsRemoved(ss: Records, table: map<int, Id>, jobs: multiset<Job>, id: Id)
    requires AllCounted(ss) && Slotted(ss, table) && OneJobEach(ss, jobs)
    requires id in ss && ss[id].state != RequestResolv
    ensures var ss' := ss - {id};
            && AllCounted(ss') && Slotted(ss', table - Fds(ss[id].reg)) && OneJobEach(ss', jobs)
            && ss'.Keys == ss.Keys - {id} && (forall j :: jobs[j] > 0 && HasResult(ss, j) ==> HasResult(ss', j))
  {
    var ss', t := ss - {id}, table - Fds(ss[id].reg);
    forall x, fd | x in ss' && fd in Fds(ss'[x].reg) ensures fd in t && t[fd] == x {
      assert table[fd] == x;
    }
    forall j: Job ensures jobs[j] == Due(ss', j) {
      assert jobs[j] == Due(ss, j);
    }
  }

  /** Jobs at the worker and on the list are in flight. */
  lemma LateJobsInFlight(w: World)
    ensures forall j :: j in w.notes || (w.worker.Notifying? && j == w.worker.job) ==> InFlight(w)[j] > 0
  {
    forall j | j in w.notes || (w.worker.Notifying? && j == w.worker.job) ensures InFlight(w)[j] > 0 {
      assert j in multiset(w.notes) || j in multiset(Underway(w.worker));
    }
  }

  lemma CloseKeeps(w: World, id: Id, final: Traffic)
    requires Inv(w) && Enabled(w, Close(id, final))
    ensures Inv(Do(w, Close(id, final)))
  {
    RecordsRemoved(w.sessions, w.table, InFlight(w), id);
    LateJobsInFlight(w);
    WithoutOne(w.active, id);
    PoolKeeps(w.pool, id);
    assert InFlight(Do(w, Close(id, final))) == InFlight(w);
  }

  // ----- the notification list

  /** Every notification finds its own session, still registered at that descriptor
      and still in RESOLV, with its result in place. */
  lemma NoteFindsItsSession(w: World, k: nat)
    requires Inv(w) && k < |w.notes|
    ensures var j := w.notes[k];
            && j.fd in w.table && w.table[j.fd] == j.target && j.target in w.sessions
            && w.sessions[j.target].state == RequestResolv && w.sessions[j.target].result.Some?
            && w.sessions[j.target].reg.clientFd == j.fd
  {
    var j := w.notes[k];
    LateJobsInFlight(w);
    assert InFlight(w)[j] == Due(w.sessions, j);
    assert HasResult(w.sessions, j);
    assert j.fd in Fds(w.sessions[j.target].reg);
  }

  /** And the worker's raw pointer always lands in a session waiting for it. */
  lemma WriteLands(w: World)
    requires Inv(w) && Underway(w.worker) != []
    ensures var j := Underway(w.worker)[0];
            && j.target in w.sessions && j.target !in w.pool
            && w.sessions[j.target].state == RequestResolv && w.sessions[j.target].reg.clientFd == j.fd
  {
    var j := Underway(w.worker)[0];
    assert j in multiset(Underway(w.worker));
    assert InFlight(w)[j] == Due(w.sessions, j);
  }

  lemma DeliverJobs(w: World, after: Sess)
    requires Inv(w) && Enabled(w, Deliver(after))
    ensures InFlight(w) == InFlight(Do(w, Deliver(after))) + multiset{w.notes[0]}
  {
    NoteFindsItsSession(w, 0);
    assert w.notes == [w.notes[0]] + w.notes[1..];
    assert multiset(w.notes) == multiset{w.notes[0]} + multiset(w.notes[1..]);
  }

  /** The results the remaining jobs need are not those of the session just woken. */
  lemma DeliverResults(ss: Records, id: Id, after: Sess, jobs: multiset<Job>, worker: Worker, notes: seq<Job>)
    requires id in ss && after.state != RequestResolv && notes != [] && ResultsWritten(ss, worker, notes)
    requires OneJobEach(ss[id := after], jobs)
    requires forall j :: j in notes[1..] ==> jobs[j] > 0
    requires worker.Notifying? ==> jobs[worker.job] > 0
    ensures ResultsWritten(ss[id := after], worker, notes[1..])
  {
    forall j | j in notes[1..] ensures HasResult(ss[id := after], j) {
      assert j in notes;
      assert HasResult(ss, j);
      assert jobs[j] == Due(ss[id := after], j);
    }
    if worker.Notifying? {
      assert HasResult(ss, worker.job);
      assert jobs[worker.job] == Due(ss[id := after], worker.job);
    }
  }

  lemma DeliverKeeps(w: World, after: Sess)
    requires Inv(w) && Enabled(w, Deliver(after))
    ensures Inv(Do(w, Deliver(after)))
  {
    var w' := Do(w, Deliver(after));
    var note := w.notes[0];
    NoteFindsItsSession(w, 0);
    SlotsReplaced(w.sessions, w.table, note.target, after);
    DeliverJobs(w, after);
    DueReplaced(w.sessions, note.target, after, InFlight(w), InFlight(w'));
    LateJobsInFlight(w');
    DeliverResults(w.sessions, note.target, after, InFlight(w'), w.worker, w.notes);
  }

  // ----- the worker

  lemma TakeJobs(queue: seq<Job>, taken: seq<Job>)
    requires queue != []
    ensures multiset(queue) == multiset(queue[1..]) + multiset([queue[0]])
    ensures taken + queue == taken + [queue[0]] + queue[1..]
  {
    assert queue == [queue[0]] + queue[1..];
  }

  lemma TakeKeeps(w: World)
    requires Inv(w) && Enabled(w, Take)
    ensures Inv(Do(w, Take))
  {
    TakeJobs(w.queue, w.taken);
    assert InFlight(Do(w, Take)) == InFlight(w);
  }

  /** The write changes a result and nothing else. */
  lemma WriteKeeps(ss: Records, table: map<int, Id>, id: Id, result: seq<Attempts.Address>)
    requires AllCounted(ss) && Slotted(ss, table) && id in ss
    ensures var ss' := ss[id := ss[id].(result := Some(result))];
            && AllCounted(ss') && Slotted(ss', table) && ss'.Keys == ss.Keys
            && (forall j :: Due(ss', j) == Due(ss, j))
            && (forall j :: HasResult(ss, j) ==> HasResult(ss', j))
  {
  }

  lemma ResolveResults(ss: Records, job: Job, result: seq<Attempts.Address>, notes: seq<Job>)
    requires job.target in ss && forall j :: j in notes ==> HasResult(ss, j)
    ensures ResultsWritten(ss[job.target := ss[job.target].(result := Some(result))], Notifying(job), notes)
  {
  }

  lemma ResolveKeeps(w: World, result: seq<Attempts.Address>)
    requires Inv(w) && Enabled(w, Resolve(result))
    ensures Inv(Do(w, Resolve(result)))
  {
    WriteLands(w);
    WriteKeeps(w.sessions, w.table, w.worker.job.target, result);
    ResolveResults(w.sessions, w.worker.job, result, w.notes);
    var w' := Do(w, Resolve(result));
    assert InFlight(w') == InFlight(w);
  }

  lemma NotifyKeeps(w: World)
    requires Inv(w) && Enabled(w, Notify)
    ensures Inv(Do(w, Notify))
  {
    var job := w.worker.job;
    assert multiset([job] + w.notes) == multiset([job]) + multiset(w.notes);
    assert InFlight(Do(w, Notify)) == InFlight(w);
  }

  /** Parking, waking, leaving and the loop's own switches move no job. */
  lemma QuietKeeps(w: World, s: Step)
    requires Inv(w) && Enabled(w, s)
    requires s.Park? || s.Wake? || s.Exit? || s.BeginNotes? || s.EndNotes? || s.Stop?
    ensures Inv(Do(w, s))
  {
    assert InFlight(Do(w, s)) == InFlight(w);
  }

  lemma StepKeeps(w: World, s: Step)
    requires Inv(w) && Enabled(w, s)
    ensures Inv(Do(w, s))
  {
    match s
    case Accept(id, fd) => AcceptKeeps(w, id, fd);
    case AcceptFailed(id) => AcceptFailedKeeps(w, id);
    case Event(id, after) => EventKeeps(w, id, after);
    case Close(id, final) => CloseKeeps(w, id, final);
    case Deliver(after) => DeliverKeeps(w, after);
    case Take => TakeKeeps(w);
    case Resolve(result) => ResolveKeeps(w, result);
    case Notify => NotifyKeeps(w);
    case _ => QuietKeeps(w, s);
  }

  // ----- the byte counters

  lemma {:induction false} SentSame(ids: seq<Id>, ss: Records, ss': Records)
    requires forall id :: id in ids ==> (id in ss <==> id in ss') && (id in ss ==> ss[id].traffic == ss'[id].traffic)
    ensures Sent(ids, ss) == Sent(ids, ss')
  {
    if ids != [] {
      assert ids[0] in ids && forall id :: id in ids[1..] ==> id in ids;
      SentSame(ids[1..], ss, ss');
    }
  }

  /** One session has sent more. */
  lemma {:induction false} SentMore(ids: seq<Id>, ss: Records, id: Id, after: Sess)
    requires NoDup(ids) && id in ids && id in ss && ss[id].traffic.AtMost(after.traffic)
    ensures Sent(ids, ss[id := after]) == Sent(ids, ss).Moved(ss[id].traffic, after.traffic)
  {
    var rest := ids[1..];
    if ids[0] == id {
      assert id !in rest;
      SentSame(rest, ss, ss[id := after]);
    } else {
      assert id in rest;
      SentMore(rest, ss, id, after);
    }
  }

  /** One session less. */
  lemma {:induction false} SentWithout(ids: seq<Id>, ss: Records, id: Id)
    requires NoDup(ids) && id in ids && id in ss
    ensures Sent(ids, ss) == ss[id].traffic.Plus(Sent(Without(ids, id), ss - {id}))
  {
    if ids[0] == id {
      SentSame(ids[1..], ss, ss - {id});
    } else {
      SentWithout(ids[1..], ss, id);
      assert Without(ids, id)[1..] == Without(ids[1..], id);
    }
  }

  lemma EventAccounts(w: World, id: Id, after: Sess)
    requires NoDup(w.active) && id in w.active && id in w.sessions && w.sessions[id].traffic.AtMost(after.traffic)
    requires Accounted(w)
    ensures w.total.Moved(w.sessions[id].traffic, after.traffic) == w.gone.Plus(Sent(w.active, w.sessions[id := after]))
  {
    SentMore(w.active, w.sessions, id, after);
  }

  lemma CloseAccounts(w: World, id: Id, final: Traffic)
    requires NoDup(w.active) && id in w.active && id in w.sessions && w.sessions[id].traffic.AtMost(final)
    requires Accounted(w)
    ensures w.total.Moved(w.sessions[id].traffic, final) ==
            w.gone.Plus(final).Plus(Sent(Without(w.active, id), w.sessions - {id}))
  {
    SentWithout(w.active, w.sessions, id);
  }

  lemma AcceptAccounts(w: World, id: Id, s: Sess)
    requires id !in w.active && s.traffic == SILENT
    ensures Sent([id] + w.active, w.sessions[id := s]) == Sent(w.active, w.sessions)
  {
    SentSame(w.active, w.sessions, w.sessions[id := s]);
    assert ([id] + w.active)[1..] == w.active;
  }

  lemma NoneAccounts(w: World)
    requires w.active == [] && w.total == w.gone
    ensures Accounted(w)
  {
  }

  /** Every step moves the counters by what its session sent. */
  lemma StepAccounts(w: World, s: Step)
    requires Inv(w) && Accounted(w) && Enabled(w, s)
    ensures Accounted(Do(w, s))
  {
    match s
    case Accept(id, fd) => AcceptAccounts(w, id, Do(w, s).sessions[id]);
    case Event(id, after) => EventAccounts(w, id, after);
    case Close(id, final) => CloseAccounts(w, id, final);
    case Deliver(after) =>
      NoteFindsItsSession(w, 0);
      EventAccounts(w, w.notes[0].target, after);
    case Resolve(_) => SentSame(w.active, w.sessions, Do(w, s).sessions);
    case _ =>
  }

  // ----- every run

  /** A run from the start: each step enabled where it is taken. */
  ghost predicate Run(ws: seq<World>, steps: seq<Step>) {
    && |ws| == |steps| + 1 && ws[0] == START
    && forall i :: 0 <= i < |steps| ==> Enabled(ws[i], steps[i]) && ws[i + 1] == Do(ws[i], steps[i])
  }

  lemma {:induction false} EveryRun(ws: seq<World>, steps: seq<Step>, n: nat)
    requires Run(ws, steps) && n < |ws|
    ensures Inv(ws[n])
    decreases n
  {
    if n == 0 {
      StartInv();
    } else {
      EveryRun(ws, steps, n - 1);
      StepKeeps(ws[n - 1], steps[n - 1]);
    }
  }

  /** In no run does a handler abort, or the worker write outside a waiting session;
      pool and sessions stay apart; the live count is accepted minus closed. */
  lemma RunsAreSafe(ws: seq<World>, steps: seq<Step>, n: nat)
    requires Run(ws, steps) && n < |ws|
    ensures !ws[n].broken && |ws[n].pool| <= MAX_POOL && |ws[n].active| == ws[n].accepted - ws[n].closed
    ensures forall id :: id in ws[n].pool ==> id !in ws[n].sessions
  {
    EveryRun(ws, steps, n);
  }

  /** In every run, the global byte counters are what the sessions sent, live and closed. */
  lemma {:induction false} TotalsAreSums(ws: seq<World>, steps: seq<Step>, n: nat)
    requires Run(ws, steps) && n < |ws|
    ensures Accounted(ws[n])
    decreases n
  {
    if n == 0 {
      NoneAccounts(ws[0]);
    } else {
      TotalsAreSums(ws, steps, n - 1);
      EveryRun(ws, steps, n - 1);
      StepAccounts(ws[n - 1], steps[n - 1]);
    }
  }

  /** When dns_worker_destroy's join returns, every job ever submitted was processed,
      in order. */
  lemma JoinMeansDrained(ws: seq<World>, steps: seq<Step>, n: nat)
    requires Run(ws, steps) && n < |ws| && ws[n].worker == Exited
    ensures ws[n].taken == ws[n].submitted && ws[n].queue == [] && !ws[n].running
  {
    EveryRun(ws, steps, n);
    assert ws[n].taken + [] == ws[n].taken;
  }

  /** No wake-up is lost: a worker that will sleep on has nothing to do. */
  lemma NoLostWakeup(ws: seq<World>, steps: seq<Step>, n: nat)
    requires Run(ws, steps) && n < |ws| && ws[n].worker == Parked(false)
    ensures ws[n].queue == [] && ws[n].running
  {
    EveryRun(ws, steps, n);
  }

  // ----- what a session does is a step

  ghost function TrafficOf(s: Session): Traffic
    reads s
  {
    Traffic(s.counts.c2o, s.counts.o2c)
  }

  /** Record id of the world describes the session s. */
  ghost predicate Describes(w: World, id: Id, s: Session)
    reads s, s.stm
  {
    && id in w.sessions && w.sessions[id].state == s.stm.State() && w.sessions[id].reg == s.reg
    && w.sessions[id].traffic == TrafficOf(s)
  }

  /** The record as it is now. */
  ghost function Now(w: World, id: Id, s: Session): Sess
    reads s, s.stm
    requires id in w.sessions
  {
    Sess(s.stm.State(), s.reg, w.sessions[id].result, TrafficOf(s))
  }

  /** The descriptors of s that are new are in no slot: they were just opened. */
  ghost predicate JustOpened(w: World, id: Id, s: Session)
    reads s
    requires id in w.sessions
  {
    forall fd :: fd in Fds(s.reg) && fd !in Fds(w.sessions[id].reg) ==> fd !in w.table
  }

  /** Any socket event or sweep, with any outcome, is an Event, a Close, or nothing. */
  method SessionEvent(s: Session, ghost w: World, ghost id: Id)
    requires LoopFree(w) && Describes(w, id, s) && s.Inv()
    modifies s, s.stm
    ensures s.Inv() || s.Finished()
    ensures if w.sessions[id].state == RequestResolv then s.Inv() && Describes(w, id, s)
            else if s.Inv() then JustOpened(w, id, s) ==> Enabled(w, Event(id, Now(w, id, s)))
            else Enabled(w, Close(id, TrafficOf(s)))
  {
    var on: int := *;
    var users: Users := *;
    ghost var before := s.stm.State();
    s.CountsAreLengths();
    if {
      case s.ReadArmed(on) =>
        s.ReadableState(on);
        s.OnRead(on, users);
      case s.WriteArmed(on) =>
        s.WritableState(on);
        s.OnWrite(on, users);
      case true =>
        var a: bool, b: bool, c: bool := *, *, *;
        s.OnSweep(a, b, c);
    }
    assert Rank(before) <= Rank(s.stm.State());
    s.CountsAreLengths();
    s.StreamsGrow();
    if s.Inv() {
      s.References();
    }
  }

  /** The delivery of a notification to the session it finds, with the addresses that
      the worker wrote for it, is a Deliver. */
  method SessionNotified(s: Session, resolved: seq<Attempts.Address>, ghost w: World)
    requires Inv(w) && w.running && w.draining && w.notes != []
    requires w.notes[0].fd in w.table && Describes(w, w.table[w.notes[0].fd], s) && s.Inv()
    requires w.sessions[w.table[w.notes[0].fd]].result == Some(resolved)
    modifies s, s.stm
    ensures s.Inv() && s.conn.resolution == resolved
    ensures var id := w.table[w.notes[0].fd];
            JustOpened(w, id, s) ==> Enabled(w, Deliver(Now(w, id, s)))
  {
    NoteFindsItsSession(w, 0);
    s.CountsAreLengths();
    s.OnBlock(resolved);
    s.CountsAreLengths();
    s.StreamsGrow();
    s.References();
  }
}
