/**
The idempotent-write middleware (internal/httpapi/idempotency.go) as a state machine:
any number of requests, each a thread with a program counter, and every section under
a lock, store call and handler run one atomic step.  The theorems hold of every run.
*/
module Idempotency {
  import opened Arithmetic
  import opened Binary
  import opened Wrappers
  import opened LockTables

  // ---------------------------------------------------------------- requests

  /** One caller's idempotency key: what a record is kept under, and what is locked. */
  datatype Scope = Scope(user: string, key: string) {
    /** The text the lock table uses for it. */
    function LockName(): string { user + ['\0'] + key }
  }

  datatype Request = Request(scope: Scope, hash: string)

  /** What the code hashes (internal/store/idempotency.go): method, path and body, a storage's id being in the path. */
  function HashInput(verb: string, path: string, body: string): string { verb + ['\0'] + path + ['\0'] + body }

  /** A text cut at its first NUL. */
  lemma CutAtNul(a: string, b: string, x: string, y: string)
    requires '\0' !in a && '\0' !in x
    ensures a + ['\0'] + b == x + ['\0'] + y <==> a == x && b == y
  {
    var n := a + ['\0'] + b;
    if n == x + ['\0'] + y {
      assert n[|a|] == '\0' && n[|x|] == '\0';
      assert forall i :: 0 <= i < |a| ==> a[i] == n[i] && n[i] != '\0';
      assert forall i :: 0 <= i < |x| ==> x[i] == n[i] && n[i] != '\0';
      assert a == n[..|a|] && x == n[..|x|];
      assert b == n[|a| + 1..] && y == n[|x| + 1..];
    }
  }

  /** The text of a user id has no NUL in it, so no two scopes share a lock name. */
  lemma LockNameIsTheScope(a: Scope, b: Scope)
    requires '\0' !in a.user && '\0' !in b.user
    ensures a.LockName() == b.LockName() <==> a == b
  {
    CutAtNul(a.user, a.key, b.user, b.key);
  }

  /** Nor has a method or a path, so the hash tells one request from another. */
  lemma HashedIsTheRequest(verb: string, path: string, body: string, verb': string, path': string, body': string)
    requires '\0' !in path && '\0' !in verb && '\0' !in path' && '\0' !in verb'
    ensures HashInput(verb, path, body) == HashInput(verb', path', body') <==>
              path == path' && verb == verb' && body == body'
  {
    var rest, rest' := path + ['\0'] + body, path' + ['\0'] + body';
    assert HashInput(verb, path, body) == verb + ['\0'] + rest;
    assert HashInput(verb', path', body') == verb' + ['\0'] + rest';
    CutAtNul(verb, rest, verb', rest');
    CutAtNul(path, body, path', body');
  }

  type Body = seq<Byte>
  datatype Response = Response(status: int, body: Body)

  /** A status is the request's settled outcome unless it says "try again". */
  predicate WorthRecording(status: int) { status < 500 && status != 429 }

  datatype Outcome = Answered(response: Response) | Panicked {
    predicate Settled() { Answered? && WorthRecording(response.status) }
  }

  // ------------------------------------------------------------------- state

  datatype PC =
    | Arrived                               // hashed, about to count itself on the lock
    | Waiting(id: nat)                      // counted, blocked on the lock's mutex
    | Holding(id: nat)                      // owns the mutex, about to look the key up
    | MustRun(id: nat)                      // no record: about to call the handler
    | Ran(id: nat, response: Response)      // the answer went out, about to be recorded
    | Leaving(id: nat)                      // the deferred unlock, still owning the mutex
    | Released(id: nat)                     // mutex released, not yet counted out
    | Finished
  {
    predicate Counted() { !Arrived? && !Finished? }
    predicate Owner() { Holding? || MustRun? || Ran? || Leaving? }
  }

  datatype Thread = Thread(req: Request, pc: PC)

  /** What came of an insert: it made the record, found one there, or was cut off before either. */
  datatype Fate = Kept | Superseded | CutOff

  datatype Event =
    | Executed(t: Tid, req: Request, outcome: Outcome)
    | Recorded(t: Tid, req: Request, response: Response, failed: bool, fate: Fate)
    | CameLate(t: Tid, req: Request, response: Response, fate: Fate)   // an insert cut off before
    | Replayed(t: Tid, req: Request, response: Response)
    | Refused(t: Tid, req: Request)         // 422: the key names a different request
    | LookupFailed(t: Tid, req: Request)    // 500: nothing was executed

  datatype Stored = Stored(hash: string, response: Response)

  /** An insert the server gave up on, which the database may still carry out. */
  datatype Insert = Insert(req: Request, response: Response)

  datatype State = State(
    threads: map<Tid, Thread>,
    table: LockTable<Scope>,
    records: map<Scope, Stored>,
    late: map<Tid, Insert>,
    log: seq<Event>)

  const INITIAL := State(map[], Empty(), map[], map[], [])

  // ------------------------------------------------------------------- steps

  datatype Step =
    | Arrive(t: Tid, req: Request)
    | Enter(t: Tid)
    | Acquire(t: Tid)
    | Lookup(t: Tid, fails: bool)
    | Execute(t: Tid, outcome: Outcome)
    // The store call either reports success, which means the row is there, or an
    // error, after which the row may be there, or come later, or never.
    | Record(t: Tid, failed: bool, landed: bool)
    | Release(t: Tid)
    | Leave(t: Tid)
    | Land(t: Tid)                          // an insert cut off by its timeout is carried out after all

  predicate At(s: State, t: Tid) { t in s.threads }

  predicate Enabled(s: State, step: Step) {
    s.table.WellFormed() &&
    match step
    case Arrive(t, _) => t !in s.threads
    case Enter(t) => t in s.threads && s.threads[t].pc.Arrived?
    case Acquire(t) =>
      && t in s.threads && s.threads[t].pc.Waiting?
      && s.threads[t].pc.id < |s.table.locks| && s.table.locks[s.threads[t].pc.id].holder == None
    case Lookup(t, _) => t in s.threads && s.threads[t].pc.Holding?
    case Execute(t, _) => t in s.threads && s.threads[t].pc.MustRun?
    case Record(t, failed, landed) => t in s.threads && s.threads[t].pc.Ran? && (!failed ==> landed)
    case Release(t) => t in s.threads && s.threads[t].pc.Leaving? && s.threads[t].pc.id < |s.table.locks|
    case Leave(t) => t in s.threads && s.threads[t].pc.Released? && s.threads[t].pc.id < |s.table.locks|
    case Land(t) => t in s.threads && t in s.late
  }

  function Goto(s: State, t: Tid, pc: PC): State
    requires t in s.threads
  {
    s.(threads := s.threads[t := s.threads[t].(pc := pc)])
  }

  /** What the lookup decides: refuse, replay, or run. */
  function Decide(s: State, t: Tid, fails: bool): State
    requires t in s.threads && s.threads[t].pc.Holding?
  {
    var req := s.threads[t].req;
    var id := s.threads[t].pc.id;
    if fails then
      Goto(s, t, Leaving(id)).(log := s.log + [LookupFailed(t, req)])
    else if req.scope !in s.records then
      Goto(s, t, MustRun(id))
    else if s.records[req.scope].hash != req.hash then
      Goto(s, t, Leaving(id)).(log := s.log + [Refused(t, req)])
    else
      Goto(s, t, Leaving(id)).(log := s.log + [Replayed(t, req, s.records[req.scope].response)])
  }

  function FateOf(records: map<Scope, Stored>, req: Request): Fate {
    if req.scope in records then Superseded else Kept
  }

  /** An insert that leaves an existing row alone. */
  function Inserted(records: map<Scope, Stored>, req: Request, response: Response): map<Scope, Stored> {
    if req.scope in records then records else records[req.scope := Stored(req.hash, response)]
  }

  function Apply(s: State, step: Step): State
    requires Enabled(s, step)
  {
    match step
    case Arrive(t, req) => s.(threads := s.threads[t := Thread(req, Arrived)])
    case Enter(t) =>
      var (table, id) := CountIn(s.table, s.threads[t].req.scope);
      Goto(s, t, Waiting(id)).(table := table)
    case Acquire(t) =>
      var id := s.threads[t].pc.id;
      Goto(s, t, Holding(id)).(table := SetHolder(s.table, id, Some(t)))
    case Lookup(t, fails) => Decide(s, t, fails)
    case Execute(t, outcome) =>
      var id := s.threads[t].pc.id;
      Goto(s, t, if outcome.Settled() then Ran(id, outcome.response) else Leaving(id))
        .(log := s.log + [Executed(t, s.threads[t].req, outcome)])
    case Record(t, failed, landed) =>
      var Thread(req, Ran(id, response)) := s.threads[t];
      Goto(s, t, Leaving(id)).(
        records := if landed then Inserted(s.records, req, response) else s.records,
        late := if landed then s.late else s.late[t := Insert(req, response)],
        log := s.log + [Recorded(t, req, response, failed, if landed then FateOf(s.records, req) else CutOff)])
    case Release(t) =>
      var id := s.threads[t].pc.id;
      Goto(s, t, Released(id)).(table := SetHolder(s.table, id, None))
    case Leave(t) =>
      Goto(s, t, Finished).(table := CountOut(s.table, s.threads[t].req.scope, s.threads[t].pc.id))
    case Land(t) =>
      var Insert(req, response) := s.late[t];
      s.(records := Inserted(s.records, req, response),
         late := s.late - {t},
         log := s.log + [CameLate(t, req, response, FateOf(s.records, req))])
  }

  /** The state a run reaches, or None when one of its steps was not enabled. */
  function After(run: seq<Step>): Option<State> {
    if run == [] then Some(INITIAL)
    else match After(run[..|run| - 1])
      case None => None
      case Some(s) => if Enabled(s, run[|run| - 1]) then Some(Apply(s, run[|run| - 1])) else None
  }

  // --------------------------------------------------------- the lock invariant

  predicate CountedOn(s: State, t: Tid, id: nat) {
    t in s.threads && s.threads[t].pc.Counted() && s.threads[t].pc.id == id
  }

  function Users(s: State, id: nat): set<Tid> {
    set t | t in s.threads && CountedOn(s, t, id)
  }

  /** A counted thread's lock is the one its name has in the table now. */
  predicate Shared(s: State) {
    forall t | t in s.threads && s.threads[t].pc.Counted() ::
      && s.threads[t].req.scope in s.table.held
      && s.table.held[s.threads[t].req.scope] == s.threads[t].pc.id
  }

  predicate RefsCount(s: State) {
    forall id | 0 <= id < |s.table.locks| :: s.table.locks[id].refs == |Users(s, id)|
  }

  predicate Owns(s: State, t: Tid, id: nat) {
    t in s.threads && s.threads[t].pc.Owner() && s.threads[t].pc.id == id
  }

  /** A lock's holder is the one thread in its critical section. */
  ghost predicate HolderOwns(s: State) {
    forall id: nat, t: Tid | id < |s.table.locks| :: s.table.locks[id].holder == Some(t) <==> Owns(s, t, id)
  }

  /** An entry is there only while somebody is counted on it, and no lock has two names. */
  predicate TableUsed(table: LockTable<Scope>) {
    && (forall name | name in table.held ::
          table.held[name] < |table.locks| && table.locks[table.held[name]].refs > 0)
    && (forall m, n | m in table.held && n in table.held && table.held[m] == table.held[n] :: m == n)
  }

  predicate EntriesUsed(s: State) { TableUsed(s.table) }

  ghost predicate LockInv(s: State) {
    s.table.WellFormed() && Shared(s) && RefsCount(s) && HolderOwns(s) && EntriesUsed(s)
  }

  lemma UsersUnchanged(s: State, s': State, t: Tid, id: nat)
    requires t in s'.threads && s'.threads.Keys == s.threads.Keys + {t}
    requires forall u | u in s.threads && u != t :: s'.threads[u] == s.threads[u]
    requires CountedOn(s, t, id) == CountedOn(s', t, id)
    ensures Users(s', id) == Users(s, id)
  {
    forall u ensures CountedOn(s', u, id) == CountedOn(s, u, id) {}
  }

  predicate SharedBy(s: State, u: Tid) {
    u in s.threads && s.threads[u].pc.Counted() ==>
      s.threads[u].req.scope in s.table.held && s.table.held[s.threads[u].req.scope] == s.threads[u].pc.id
  }

  lemma LeaverGone(s: State, t: Tid, u: Tid)
    requires RefsCount(s) && EntriesUsed(s) && Enabled(s, Leave(t)) && SharedBy(s, t) && SharedBy(s, u)
    ensures SharedBy(Apply(s, Leave(t)), u)
  {
    if u != t && u in s.threads && s.threads[u].pc.Counted() && s.threads[u].req.scope == s.threads[t].req.scope {
      TwoUsers(s, t, u);
    }
  }

  lemma SharedStays(s: State, step: Step, u: Tid)
    requires Enabled(s, step) && !step.Leave? && SharedBy(s, u) && SharedBy(s, step.t)
    ensures SharedBy(Apply(s, step), u)
  {
  }

  lemma SharedKept(s: State, step: Step)
    requires LockInv(s) && Enabled(s, step)
    ensures Shared(Apply(s, step))
  {
    forall u: Tid ensures SharedBy(Apply(s, step), u) {
      assert SharedBy(s, u) && SharedBy(s, step.t);
      if step.Leave? { LeaverGone(s, step.t, u); } else { SharedStays(s, step, u); }
    }
    forall u | u in Apply(s, step).threads && Apply(s, step).threads[u].pc.Counted()
      ensures Apply(s, step).threads[u].req.scope in Apply(s, step).table.held
           && Apply(s, step).table.held[Apply(s, step).threads[u].req.scope] == Apply(s, step).threads[u].pc.id
    {
      assert SharedBy(Apply(s, step), u);
    }
  }

  lemma TwoUsers(s: State, t: Tid, u: Tid)
    requires RefsCount(s) && t != u && t in s.threads && s.threads[t].pc.Counted()
    requires s.threads[t].pc.id < |s.table.locks|
    requires CountedOn(s, u, s.threads[t].pc.id)
    ensures s.table.locks[s.threads[t].pc.id].refs >= 2
  {
    var id := s.threads[t].pc.id;
    assert {t, u} <= Users(s, id);
    assert |{t, u}| <= |Users(s, id)| by { SubsetCount({t, u}, Users(s, id)); }
  }

  lemma CountedInRange(s: State, t: Tid, id: nat)
    requires s.table.WellFormed() && Shared(s) && CountedOn(s, t, id)
    ensures id < |s.table.locks|
  {
  }

  lemma EnterRefs(s: State, t: Tid, id: nat)
    requires Shared(s) && RefsCount(s) && Enabled(s, Enter(t))
    requires id < |Apply(s, Enter(t)).table.locks|
    ensures Apply(s, Enter(t)).table.locks[id].refs == |Users(Apply(s, Enter(t)), id)|
  {
    var s' := Apply(s, Enter(t));
    if id == |s.table.locks| {
      forall u ensures !CountedOn(s, u, id) { if CountedOn(s, u, id) { CountedInRange(s, u, id); } }
      assert Users(s, id) == {};
    }
    if id == s'.threads[t].pc.id {
      forall u ensures CountedOn(s', u, id) <==> u == t || CountedOn(s, u, id) {}
      assert Users(s', id) == Users(s, id) + {t};
    } else {
      UsersUnchanged(s, s', t, id);
    }
  }

  lemma LeaveRefs(s: State, t: Tid, id: nat)
    requires RefsCount(s) && Enabled(s, Leave(t)) && id < |s.table.locks|
    ensures Apply(s, Leave(t)).table.locks[id].refs == |Users(Apply(s, Leave(t)), id)|
  {
    var s' := Apply(s, Leave(t));
    if id == s.threads[t].pc.id {
      forall u ensures CountedOn(s', u, id) <==> u != t && CountedOn(s, u, id) {}
      assert Users(s', id) == Users(s, id) - {t} && t in Users(s, id);
    } else {
      UsersUnchanged(s, s', t, id);
    }
  }

  lemma OtherRefs(s: State, step: Step, id: nat)
    requires RefsCount(s) && Enabled(s, step) && !step.Enter? && !step.Leave? && id < |s.table.locks|
    ensures |Apply(s, step).table.locks| == |s.table.locks|
    ensures Apply(s, step).table.locks[id].refs == |Users(Apply(s, step), id)|
  {
    UsersUnchanged(s, Apply(s, step), step.t, id);
  }

  lemma RefsKept(s: State, step: Step)
    requires Shared(s) && RefsCount(s) && Enabled(s, step)
    ensures RefsCount(Apply(s, step))
  {
    forall id | 0 <= id < |Apply(s, step).table.locks|
      ensures Apply(s, step).table.locks[id].refs == |Users(Apply(s, step), id)|
    {
      match step
      case Enter(t) => EnterRefs(s, t, id);
      case Leave(t) => LeaveRefs(s, t, id);
      case _ => OtherRefs(s, step, id);
    }
  }

  lemma HolderAt(s: State, step: Step, id: nat, t: Tid)
    requires Shared(s) && HolderOwns(s) && Enabled(s, step) && id < |Apply(s, step).table.locks|
    ensures Apply(s, step).table.locks[id].holder == Some(t) <==> Owns(Apply(s, step), t, id)
  {
    if id < |s.table.locks| {
      assert s.table.locks[id].holder == Some(t) <==> Owns(s, t, id);
      assert s.table.locks[id].holder == Some(step.t) <==> Owns(s, step.t, id);
    } else if Owns(s, t, id) {
      CountedInRange(s, t, id);
    }
  }

  lemma HolderKept(s: State, step: Step)
    requires Shared(s) && HolderOwns(s) && Enabled(s, step)
    ensures HolderOwns(Apply(s, step))
  {
    var s' := Apply(s, step);
    forall id: nat, t: Tid | id < |s'.table.locks|
      ensures s'.table.locks[id].holder == Some(t) <==> Owns(s', t, id)
    {
      HolderAt(s, step, id, t);
    }
  }

  lemma CountInUsed(table: LockTable<Scope>, name: Scope)
    requires table.WellFormed() && TableUsed(table)
    ensures TableUsed(CountIn(table, name).0)
  {
  }

  lemma CountOutUsed(table: LockTable<Scope>, name: Scope, id: nat)
    requires table.WellFormed() && id < |table.locks| && TableUsed(table)
    requires name in table.held && table.held[name] == id
    ensures TableUsed(CountOut(table, name, id))
  {
  }

  lemma SetHolderUsed(table: LockTable<Scope>, id: nat, holder: Option<Tid>)
    requires table.WellFormed() && id < |table.locks| && TableUsed(table)
    ensures TableUsed(SetHolder(table, id, holder))
  {
  }

  lemma EntriesKept(s: State, step: Step)
    requires EntriesUsed(s) && Enabled(s, step)
    requires step.Leave? ==>
      var Thread(req, pc) := s.threads[step.t];
      req.scope in s.table.held && s.table.held[req.scope] == pc.id
    ensures EntriesUsed(Apply(s, step))
  {
    match step
    case Enter(t) => CountInUsed(s.table, s.threads[t].req.scope);
    case Acquire(t) => SetHolderUsed(s.table, s.threads[t].pc.id, Some(t));
    case Release(t) => SetHolderUsed(s.table, s.threads[t].pc.id, None);
    case Leave(t) => CountOutUsed(s.table, s.threads[t].req.scope, s.threads[t].pc.id);
    case _ => assert Apply(s, step).table == s.table;
  }

  lemma StepKeepsLocks(s: State, step: Step)
    requires LockInv(s) && Enabled(s, step)
    ensures LockInv(Apply(s, step))
  {
    SharedKept(s, step);
    RefsKept(s, step);
    HolderKept(s, step);
    EntriesKept(s, step);
  }

  // ------------------------------------------------------ the record invariant

  /** An insert that was answered while the key was locked: from then on there is a record. */
  predicate InTime(e: Event, k: Scope) { e.Recorded? && e.req.scope == k && !e.fate.CutOff? }

  predicate Busy(s: State, t: Tid, k: Scope) {
    t in s.threads && s.threads[t].req.scope == k && (s.threads[t].pc.MustRun? || s.threads[t].pc.Ran?)
  }

  /** The handler is only entered, and an outcome only recorded, while none was recorded in time. */
  ghost predicate Unwritten(s: State) {
    forall t, e | t in s.threads && e in s.log :: !(Busy(s, t, e.req.scope) && InTime(e, e.req.scope))
  }

  /** The handler gave this answer to this very request, and it was a settled one. */
  ghost predicate WasExecuted(log: seq<Event>, req: Request, response: Response) {
    response.status < 500 && response.status != 429 && exists t: Tid :: Executed(t, req, Answered(response)) in log
  }

  /** The event that made the record. */
  predicate Landed(e: Event) { (e.Recorded? || e.CameLate?) && e.fate.Kept? }

  ghost predicate WasRecorded(log: seq<Event>, req: Request, response: Response) {
    exists e :: e in log && Landed(e) && e.req == req && e.response == response
  }

  /** Only an executed answer is recorded, and only a recorded one replayed. */
  ghost predicate Backed(log: seq<Event>) {
    forall j | 0 <= j < |log| ::
      && (log[j].Recorded? || log[j].CameLate? ==> WasExecuted(log[..j], log[j].req, log[j].response))
      && (log[j].Replayed? ==> WasRecorded(log[..j], log[j].req, log[j].response))
  }

  ghost predicate Truthful(s: State) {
    && Backed(s.log)
    && (forall k | k in s.records :: WasRecorded(s.log, Request(k, s.records[k].hash), s.records[k].response))
    && (forall t | t in s.threads && s.threads[t].pc.Ran? ::
          WasExecuted(s.log, s.threads[t].req, s.threads[t].pc.response))
    && (forall t | t in s.late :: WasExecuted(s.log, s.late[t].req, s.late[t].response))
  }

  /** Whether an event may follow the one that made the record. */
  predicate Agrees(first: Event, later: Event)
    requires Landed(first)
  {
    later.req.scope == first.req.scope ==>
      match later
      case Executed(_, _, _) => first.CameLate?
      case Recorded(_, _, _, _, fate) => first.CameLate? && !fate.Kept?
      case CameLate(_, _, _, fate) => !fate.Kept?
      case Replayed(_, r, answer) => r.hash == first.req.hash && answer == first.response
      case Refused(_, r) => r.hash != first.req.hash
      case LookupFailed(_, _) => true
  }

  predicate InRecords(s: State) {
    && (forall e | e in s.log && Landed(e) ::
          e.req.scope in s.records && s.records[e.req.scope] == Stored(e.req.hash, e.response))
    && (forall e | e in s.log && InTime(e, e.req.scope) :: e.req.scope in s.records)
  }

  predicate Final(log: seq<Event>) {
    forall i, j | 0 <= i < j < |log| && Landed(log[i]) :: Agrees(log[i], log[j])
  }

  /** How many events of a log concern a scope and satisfy a test. */
  function Count(log: seq<Event>, test: Event -> bool): nat {
    if log == [] then 0
    else Count(log[..|log| - 1], test) + if test(log[|log| - 1]) then 1 else 0
  }

  function Executions(log: seq<Event>, k: Scope): nat {
    Count(log, (e: Event) => e.Executed? && e.req.scope == k)
  }

  /** A 5xx, a 429 or a panic: nothing a retry should be told again. */
  predicate Unsettling(outcome: Outcome) {
    outcome.Panicked? || outcome.response.status >= 500 || outcome.response.status == 429
  }

  /** Executions that ended in one of these. */
  function Unsettled(log: seq<Event>, k: Scope): nat {
    Count(log, (e: Event) => e.Executed? && e.req.scope == k && Unsettling(e.outcome))
  }

  /** Inserts that were cut off. */
  function Lost(log: seq<Event>, k: Scope): nat {
    Count(log, (e: Event) => e.Recorded? && e.req.scope == k && e.fate.CutOff?)
  }

  /** Inserts answered while the key was locked. */
  function Written(log: seq<Event>, k: Scope): nat {
    Count(log, (e: Event) => InTime(e, k))
  }

  function InFlight(s: State, k: Scope): set<Tid> {
    set t | t in s.threads && s.threads[t].pc.Ran? && s.threads[t].req.scope == k
  }

  predicate Accounted(s: State, k: Scope) {
    && Executions(s.log, k) == Unsettled(s.log, k) + Lost(s.log, k) + Written(s.log, k) + |InFlight(s, k)|
    && Written(s.log, k) <= 1
  }

  /** After the event that made a record, the handler runs at most once for the key: for who had already looked. */
  ghost predicate OneStraggler(s: State, i: nat) {
    i < |s.log| && Landed(s.log[i]) ==>
      var k := s.log[i].req.scope;
      && Executions(s.log[i..], k) <= 1
      && (Executions(s.log[i..], k) == 1 ==>
            forall t | t in s.threads && s.threads[t].pc.MustRun? :: s.threads[t].req.scope != k)
  }

  predicate IsEnd(e: Event, t: Tid) { !e.Recorded? && !e.CameLate? && e.t == t }

  /** How often a request came to its end: an answer, or a panic of the handler. */
  function Ends(log: seq<Event>, t: Tid): nat {
    Count(log, (e: Event) => IsEnd(e, t))
  }

  predicate HasEnded(pc: PC) { pc.Ran? || pc.Leaving? || pc.Released? || pc.Finished? }

  predicate EndedOnce(s: State, t: Tid) {
    Ends(s.log, t) ==
      if t in s.threads && HasEnded(s.threads[t].pc) then 1 else 0
  }

  ghost predicate Inv(s: State) {
    && LockInv(s) && Unwritten(s) && Truthful(s) && InRecords(s) && Final(s.log)
    && (forall k :: Accounted(s, k))
    && (forall i: nat :: OneStraggler(s, i))
    && (forall t :: EndedOnce(s, t))
  }

  /** Two threads in their critical sections for one scope are one thread. */
  lemma OneOwner(s: State, t: Tid, u: Tid)
    requires LockInv(s) && t in s.threads && u in s.threads
    requires s.threads[t].pc.Owner() && s.threads[u].pc.Owner()
    requires s.threads[t].req.scope == s.threads[u].req.scope
    ensures t == u
  {
    var id := s.threads[t].pc.id;
    assert Owns(s, t, id) && Owns(s, u, id);
  }

  lemma UnwrittenKept(s: State, step: Step)
    requires LockInv(s) && Unwritten(s) && InRecords(s) && Enabled(s, step)
    ensures Unwritten(Apply(s, step))
  {
    var s' := Apply(s, step);
    LogStep(s, step);
    forall t, e | t in s'.threads && e in s'.log && Busy(s', t, e.req.scope) && InTime(e, e.req.scope) ensures false {
      BusyBefore(s, step, t, e.req.scope);
      if e !in s.log && t != step.t { OneOwner(s, step.t, t); }
    }
  }

  /** Only a lookup that finds no record lets a request go on to the handler. */
  lemma BusyBefore(s: State, step: Step, t: Tid, k: Scope)
    requires Enabled(s, step) && Busy(Apply(s, step), t, k)
    ensures Busy(s, t, k) || (step.Lookup? && step.t == t && k !in s.records)
    ensures step.Record? ==> step.t != t
  {
  }

  lemma ExecutedStays(log: seq<Event>, more: seq<Event>, req: Request, response: Response)
    requires WasExecuted(log, req, response)
    ensures WasExecuted(log + more, req, response)
  {
    var t: Tid :| Executed(t, req, Answered(response)) in log;
    assert Executed(t, req, Answered(response)) in log + more;
  }

  lemma RecordedStays(log: seq<Event>, more: seq<Event>, req: Request, response: Response)
    requires WasRecorded(log, req, response)
    ensures WasRecorded(log + more, req, response)
  {
    var r :| r in log && Landed(r) && r.req == req && r.response == response;
    assert r in log + more;
  }

  lemma BackedGrows(log: seq<Event>, e: Event)
    requires Backed(log)
    requires e.Recorded? || e.CameLate? ==> WasExecuted(log, e.req, e.response)
    requires e.Replayed? ==> WasRecorded(log, e.req, e.response)
    ensures Backed(log + [e])
  {
    forall j | 0 <= j < |log + [e]| ensures (log + [e])[..j] == if j < |log| then log[..j] else log {}
  }

  /** A record that was not there is made by the step that logs it. */
  lemma NewRecord(s: State, step: Step, k: Scope) returns (e: Event)
    requires Enabled(s, step) && k in Apply(s, step).records && k !in s.records
    ensures e in Logged(s, step) && Landed(e)
    ensures var stored := Apply(s, step).records[k]; e.req == Request(k, stored.hash) && e.response == stored.response
  {
    e := Logged(s, step)[0];
  }

  lemma RecordsTruthful(s: State, step: Step, k: Scope)
    requires Enabled(s, step) && k in Apply(s, step).records
    requires k in s.records ==> WasRecorded(s.log, Request(k, s.records[k].hash), s.records[k].response)
    ensures var s' := Apply(s, step); WasRecorded(s'.log, Request(k, s'.records[k].hash), s'.records[k].response)
  {
    LogStep(s, step);
    if k in s.records {
      RecordsStay(s, step);
      RecordedStays(s.log, Logged(s, step), Request(k, s.records[k].hash), s.records[k].response);
    } else {
      var e := NewRecord(s, step, k);
      assert e in s.log + Logged(s, step);
    }
  }

  /** An outcome about to be recorded was there before, or the step is the handler's. */
  lemma NewOutcome(s: State, step: Step, t: Tid)
    requires Enabled(s, step) && At(Apply(s, step), t) && Apply(s, step).threads[t].pc.Ran?
    ensures var thread := Apply(s, step).threads[t];
      || (At(s, t) && s.threads[t] == thread)
      || (Executed(t, thread.req, Answered(thread.pc.response)) in Logged(s, step)
          && WorthRecording(thread.pc.response.status))
  {
  }

  lemma RanTruthful(s: State, step: Step, t: Tid)
    requires Enabled(s, step) && At(Apply(s, step), t) && Apply(s, step).threads[t].pc.Ran?
    requires At(s, t) && s.threads[t].pc.Ran? ==> WasExecuted(s.log, s.threads[t].req, s.threads[t].pc.response)
    ensures var s' := Apply(s, step); WasExecuted(s'.log, s'.threads[t].req, s'.threads[t].pc.response)
  {
    LogStep(s, step);
    NewOutcome(s, step, t);
    var Thread(req, pc) := Apply(s, step).threads[t];
    if At(s, t) && s.threads[t].pc.Ran? {
      ExecutedStays(s.log, Logged(s, step), req, pc.response);
    } else {
      assert Executed(t, req, Answered(pc.response)) in s.log + Logged(s, step);
    }
  }

  /** An insert that may land late was there before, or it was just cut off. */
  lemma NewLate(s: State, step: Step, t: Tid)
    requires Enabled(s, step) && t in Apply(s, step).late
    ensures var insert := Apply(s, step).late[t];
      || (t in s.late && s.late[t] == insert)
      || (At(s, t) && s.threads[t].pc.Ran? && insert == Insert(s.threads[t].req, s.threads[t].pc.response))
  {
  }

  lemma LateTruthful(s: State, step: Step, t: Tid)
    requires Enabled(s, step) && t in Apply(s, step).late
    requires t in s.late ==> WasExecuted(s.log, s.late[t].req, s.late[t].response)
    requires At(s, t) && s.threads[t].pc.Ran? ==> WasExecuted(s.log, s.threads[t].req, s.threads[t].pc.response)
    ensures var s' := Apply(s, step); WasExecuted(s'.log, s'.late[t].req, s'.late[t].response)
  {
    LogStep(s, step);
    NewLate(s, step, t);
    var Insert(req, response) := Apply(s, step).late[t];
    ExecutedStays(s.log, Logged(s, step), req, response);
  }

  lemma BackedKept(s: State, step: Step)
    requires Truthful(s) && Enabled(s, step)
    ensures Backed(Apply(s, step).log)
  {
    var s' := Apply(s, step);
    if s'.log != s.log {
      var e := s'.log[|s.log|];
      assert s'.log == s.log + [e];
      BackedGrows(s.log, e);
    }
  }

  lemma TruthfulKept(s: State, step: Step)
    requires Truthful(s) && Enabled(s, step)
    ensures Truthful(Apply(s, step))
  {
    var s' := Apply(s, step);
    BackedKept(s, step);
    forall k | k in s'.records
      ensures WasRecorded(s'.log, Request(k, s'.records[k].hash), s'.records[k].response)
    {
      RecordsTruthful(s, step, k);
    }
    forall t | At(s', t) && s'.threads[t].pc.Ran?
      ensures WasExecuted(s'.log, s'.threads[t].req, s'.threads[t].pc.response)
    {
      RanTruthful(s, step, t);
    }
    forall t | t in s'.late ensures WasExecuted(s'.log, s'.late[t].req, s'.late[t].response) {
      LateTruthful(s, step, t);
    }
  }

  lemma RecordsStay(s: State, step: Step)
    requires Enabled(s, step)
    ensures forall k | k in s.records :: k in Apply(s, step).records && Apply(s, step).records[k] == s.records[k]
  {
  }

  lemma InRecordsKept(s: State, step: Step)
    requires InRecords(s) && Enabled(s, step)
    ensures InRecords(Apply(s, step))
  {
    LogStep(s, step);
    RecordsStay(s, step);
  }

  /** What a step logs fits the record there is. */
  lemma FitsRecord(s: State, step: Step, first: Event, e: Event)
    requires Unwritten(s) && InRecords(s) && Enabled(s, step)
    requires first in s.log && Landed(first) && e in Logged(s, step)
    ensures Agrees(first, e)
  {
    if e.Executed? && e.req.scope == first.req.scope && first.Recorded? {
      assert Busy(s, step.t, first.req.scope) && InTime(first, first.req.scope);
    }
    if e.Recorded? && e.req.scope == first.req.scope && first.Recorded? {
      assert Busy(s, step.t, first.req.scope) && InTime(first, first.req.scope);
    }
  }

  lemma FinalKept(s: State, step: Step)
    requires Unwritten(s) && InRecords(s) && Final(s.log) && Enabled(s, step)
    ensures Final(Apply(s, step).log)
  {
    LogStep(s, step);
    var log := Apply(s, step).log;
    forall i, j | 0 <= i < j < |log| && Landed(log[i]) ensures Agrees(log[i], log[j]) {
      if j >= |s.log| {
        assert log[i] in s.log && log[j] in Logged(s, step);
        FitsRecord(s, step, log[i], log[j]);
      }
    }
  }

  lemma CountsAppended(log: seq<Event>, e: Event, k: Scope)
    ensures Executions(log + [e], k)
         == Executions(log, k) + if e.Executed? && e.req.scope == k then 1 else 0
    ensures Unsettled(log + [e], k)
         == Unsettled(log, k) + if e.Executed? && e.req.scope == k && Unsettling(e.outcome) then 1 else 0
    ensures Lost(log + [e], k)
         == Lost(log, k) + if e.Recorded? && e.req.scope == k && e.fate.CutOff? then 1 else 0
    ensures Written(log + [e], k) == Written(log, k) + if InTime(e, k) then 1 else 0
  {
    assert (log + [e])[..|log + [e]| - 1] == log;
  }

  lemma OthersStay(s: State, step: Step, u: Tid)
    requires Enabled(s, step) && u != step.t
    ensures At(Apply(s, step), u) <==> At(s, u)
    ensures At(s, u) ==> Apply(s, step).threads[u] == s.threads[u]
  {
  }

  /** Where the stepping thread gets to. */
  lemma OwnStep(s: State, step: Step)
    requires Enabled(s, step)
    ensures var t := step.t; var s' := Apply(s, step);
      && At(s', t) && s'.threads[t].req == (if step.Arrive? then step.req else s.threads[t].req)
      && (step.Land? ==> s'.threads == s.threads)
      && (!step.Land? ==> (s'.threads[t].pc.Ran? <==> step.Execute? && step.outcome.Settled()))
      && (!step.Land? ==> (At(s, t) && s.threads[t].pc.Ran? <==> step.Record?))
  {
  }

  /** The scope's in-flight outcome appears when the handler settles and goes with the store call. */
  lemma InFlightStep(s: State, step: Step, k: Scope)
    requires Enabled(s, step)
    ensures |InFlight(Apply(s, step), k)| == |InFlight(s, k)|
      + (if step.Execute? && step.outcome.Settled() && s.threads[step.t].req.scope == k then 1 else 0)
      - (if step.Record? && s.threads[step.t].req.scope == k then 1 else 0)
  {
    var after, before, t := InFlight(Apply(s, step), k), InFlight(s, k), step.t;
    OwnStep(s, step);
    forall u | u != t ensures u in after <==> u in before { OthersStay(s, step, u); }
    if step.Execute? && step.outcome.Settled() && s.threads[t].req.scope == k {
      assert after == before + {t};
    } else if step.Record? && s.threads[t].req.scope == k {
      assert after == before - {t};
    } else {
      assert after == before;
    }
  }

  lemma {:induction false} NoneWritten(log: seq<Event>, k: Scope)
    requires forall e | e in log :: !InTime(e, k)
    ensures Written(log, k) == 0
  {
    if log != [] { NoneWritten(log[..|log| - 1], k); }
  }

  lemma AccountedKept(s: State, step: Step, k: Scope)
    requires Unwritten(s) && Accounted(s, k) && Enabled(s, step)
    ensures Accounted(Apply(s, step), k)
  {
    LogStep(s, step);
    InFlightStep(s, step, k);
    var added := Logged(s, step);
    if added == [] {
      assert s.log + added == s.log;
    } else {
      assert added == [added[0]];
      CountsAppended(s.log, added[0], k);
      if InTime(added[0], k) {
        forall e | e in s.log ensures !InTime(e, k) { assert Busy(s, step.t, k); }
        NoneWritten(s.log, k);
      }
    }
  }

  lemma SuffixCounts(log: seq<Event>, added: seq<Event>, i: nat, k: Scope)
    requires i < |log| && |added| <= 1
    ensures Executions((log + added)[i..], k)
         == Executions(log[i..], k) + if added != [] && added[0].Executed? && added[0].req.scope == k then 1 else 0
  {
    if added == [] {
      assert (log + added)[i..] == log[i..];
    } else {
      assert added == [added[0]] && (log + added)[i..] == log[i..] + [added[0]];
      CountsAppended(log[i..], added[0], k);
    }
  }

  lemma StragglerKept(s: State, step: Step, i: nat)
    requires LockInv(s) && InRecords(s) && OneStraggler(s, i) && Enabled(s, step)
    ensures OneStraggler(Apply(s, step), i)
  {
    LogStep(s, step);
    var added := Logged(s, step);
    if i < |s.log| && Landed(s.log[i]) {
      var k := s.log[i].req.scope;
      assert s.log[i] in s.log && Apply(s, step).log[i] == s.log[i];
      SuffixCounts(s.log, added, i, k);
      StragglersLeft(s, step, k);
    } else if i == |s.log| && added != [] && Landed(added[0]) {
      NoneAfter(s.log, added);
    }
  }

  lemma NoneAfter(log: seq<Event>, added: seq<Event>)
    requires |added| == 1 && Landed(added[0])
    ensures Executions((log + added)[|log|..], added[0].req.scope) == 0
  {
    assert (log + added)[|log|..] == [added[0]] && [] + [added[0]] == [added[0]];
    CountsAppended([], added[0], added[0].req.scope);
  }

  /** Once there is a record, who may still run the handler gets fewer, and one that does so is the last. */
  lemma StragglersLeft(s: State, step: Step, k: Scope)
    requires LockInv(s) && Enabled(s, step) && k in s.records
    ensures var added := Logged(s, step);
      forall t | t in Apply(s, step).threads && Apply(s, step).threads[t].pc.MustRun? ::
        Apply(s, step).threads[t].req.scope == k ==>
          && t in s.threads && s.threads[t].pc.MustRun? && s.threads[t].req.scope == k
          && !(added != [] && added[0].Executed? && added[0].req.scope == k)
    ensures var added := Logged(s, step);
      added != [] && added[0].Executed? && added[0].req.scope == k ==>
        At(s, step.t) && s.threads[step.t].pc.MustRun? && s.threads[step.t].req.scope == k
  {
    var s' := Apply(s, step);
    forall t | At(s', t) && s'.threads[t].pc.MustRun? && s'.threads[t].req.scope == k
      ensures At(s, t) && s.threads[t].pc.MustRun? && s.threads[t].req.scope == k
      ensures !(step.Execute? && s.threads[step.t].req.scope == k)
    {
      StillMustRun(s, step, t);
      if step.Execute? && s.threads[step.t].req.scope == k { OneOwner(s, step.t, t); }
    }
  }

  lemma StillMustRun(s: State, step: Step, t: Tid)
    requires Enabled(s, step) && At(Apply(s, step), t) && Apply(s, step).threads[t].pc.MustRun?
    ensures At(s, t) && s.threads[t].req == Apply(s, step).threads[t].req
    ensures s.threads[t].pc.MustRun? || (step.Lookup? && s.threads[t].req.scope !in s.records)
    ensures step.Execute? ==> step.t != t
  {
  }

  /** What a step adds to the log. */
  function Logged(s: State, step: Step): seq<Event>
    requires Enabled(s, step)
  {
    match step
    case Lookup(t, fails) => Decide(s, t, fails).log[|s.log|..]
    case Execute(t, outcome) => [Executed(t, s.threads[t].req, outcome)]
    case Record(t, failed, landed) =>
      var Thread(req, pc) := s.threads[t];
      [Recorded(t, req, pc.response, failed, if landed then FateOf(s.records, req) else CutOff)]
    case Land(t) => [CameLate(t, s.late[t].req, s.late[t].response, FateOf(s.records, s.late[t].req))]
    case _ => []
  }

  lemma LogStep(s: State, step: Step)
    requires Enabled(s, step)
    ensures Apply(s, step).log == s.log + Logged(s, step) && |Logged(s, step)| <= 1
  {
  }

  /** A thread's answer is logged in the step that gives it. */
  lemma AnswerLogged(s: State, step: Step)
    requires Enabled(s, step)
    ensures var added := Logged(s, step);
      && (forall e | e in added :: e.t == step.t)
      && (Apply(s, step).threads[step.t].pc == Arrived || At(s, step.t))
      && (At(s, step.t) ==>
            (HasEnded(Apply(s, step).threads[step.t].pc) && !HasEnded(s.threads[step.t].pc)
             <==> added != [] && IsEnd(added[0], step.t)))
      && (At(s, step.t) && HasEnded(s.threads[step.t].pc) ==> HasEnded(Apply(s, step).threads[step.t].pc))
      && (!At(s, step.t) ==> added == [])
  {
  }

  lemma EndsAppended(log: seq<Event>, e: Event, t: Tid)
    ensures Ends(log + [e], t) == Ends(log, t) + if IsEnd(e, t) then 1 else 0
  {
    assert (log + [e])[..|log|] == log;
  }

  lemma EndsMore(log: seq<Event>, added: seq<Event>, t: Tid)
    requires |added| <= 1
    ensures Ends(log + added, t) ==
              Ends(log, t) + if added != [] && IsEnd(added[0], t) then 1 else 0
  {
    if added == [] {
      assert log + added == log;
    } else {
      assert added == [added[0]];
      EndsAppended(log, added[0], t);
    }
  }

  lemma EndedKept(s: State, step: Step, t: Tid)
    requires EndedOnce(s, t) && Enabled(s, step)
    ensures EndedOnce(Apply(s, step), t)
  {
    LogStep(s, step);
    EndsMore(s.log, Logged(s, step), t);
    AnswerLogged(s, step);
    OwnStep(s, step);
    if t != step.t { OthersStay(s, step, t); }
  }

  lemma StepKeepsInv(s: State, step: Step)
    requires Inv(s) && Enabled(s, step)
    ensures Inv(Apply(s, step))
  {
    StepKeepsLocks(s, step);
    UnwrittenKept(s, step);
    TruthfulKept(s, step);
    InRecordsKept(s, step);
    FinalKept(s, step);
    forall k ensures Accounted(Apply(s, step), k) { AccountedKept(s, step, k); }
    forall i: nat ensures OneStraggler(Apply(s, step), i) {
      assert OneStraggler(s, i);
      StragglerKept(s, step, i);
    }
    forall t ensures EndedOnce(Apply(s, step), t) { EndedKept(s, step, t); }
  }

  lemma {:induction false} RunKeepsInv(run: seq<Step>)
    requires After(run).Some?
    ensures Inv(After(run).value)
  {
    if run == [] {
    } else {
      RunKeepsInv(run[..|run| - 1]);
      StepKeepsInv(After(run[..|run| - 1]).value, run[|run| - 1]);
    }
  }

  // ------------------------------------------------------------- the theorems

  /**
  Once there is a record no other is made, and every later answer fits it.  Nothing runs
  again for the key either, unless the record came from an insert that was cut off and
  landed late: then what had already looked the key up may.
  */
  lemma RecordIsFinal(run: seq<Step>, i: nat, j: nat)
    requires After(run).Some? && i < j < |After(run).value.log|
    requires Landed(After(run).value.log[i])
    requires After(run).value.log[j].req.scope == After(run).value.log[i].req.scope
    ensures var first, later := After(run).value.log[i], After(run).value.log[j];
      && !Landed(later) && (later.Executed? || later.Recorded? ==> first.CameLate?)
      && (later.LookupFailed? ==> Lookup(later.t, true) in run)
      && (!later.Executed? && !later.Recorded? && !later.CameLate? && !later.LookupFailed? ==>
            later == if later.req.hash == first.req.hash then Replayed(later.t, later.req, first.response)
                     else Refused(later.t, later.req))
  {
    RunKeepsInv(run);
    var log := After(run).value.log;
    assert Agrees(log[i], log[j]);
    if log[j].LookupFailed? { var m := ComesFrom(run, j); }
  }

  /** The step that logs an event is the one the event tells of. */
  predicate Tells(step: Step, e: Event) {
    match e
    case Executed(t, _, outcome) => step == Execute(t, outcome)
    case Recorded(t, _, _, failed, fate) => step == Record(t, failed, !fate.CutOff?)
    case CameLate(t, _, _, _) => step == Land(t)
    case Replayed(t, _, _) => step == Lookup(t, false)
    case Refused(t, _) => step == Lookup(t, false)
    case LookupFailed(t, _) => step == Lookup(t, true)
  }

  lemma LoggedTells(s: State, step: Step)
    requires Enabled(s, step)
    ensures forall e | e in Logged(s, step) :: Tells(step, e)
  {
  }

  /**
  Every event comes from its step: a failed lookup from one that failed, a replay or a refusal
  from one that worked.
  */
  lemma {:induction false} ComesFrom(run: seq<Step>, j: nat) returns (m: nat)
    requires After(run).Some? && j < |After(run).value.log|
    ensures m < |run| && Tells(run[m], After(run).value.log[j])
    ensures After(run[..m]).Some? && |After(run[..m]).value.log| == j
  {
    var n := |run| - 1;
    var s := After(run[..n]).value;
    LogStep(s, run[n]);
    LoggedTells(s, run[n]);
    if j < |s.log| {
      m := ComesFrom(run[..n], j);
      assert run[..n][..m] == run[..m];
    } else {
      m := n;
      assert After(run).value.log[j] in Logged(s, run[n]);
    }
  }

  /** Who is about to run the handler, or has run it, looked the key up before, and the lookup worked. */
  lemma {:induction false} RanAfterLookup(run: seq<Step>, t: Tid) returns (m: nat)
    requires After(run).Some? && At(After(run).value, t)
    requires After(run).value.threads[t].pc.MustRun? || After(run).value.threads[t].pc.Ran?
    ensures m < |run| && run[m] == Lookup(t, false) && After(run[..m]).Some?
    ensures At(After(run[..m]).value, t) && After(run[..m]).value.threads[t].req == After(run).value.threads[t].req
    ensures After(run).value.threads[t].req.scope !in After(run[..m]).value.records
  {
    var n := |run| - 1;
    var s, step := After(run[..n]).value, run[n];
    if step == Lookup(t, false) && s.threads[t].pc.Holding? {
      m := n;
    } else {
      if step.Lookup? && step.t == t { FailedLookupLeaves(s, step); } else { StillRunning(s, step, t); }
      m := RanAfterLookup(run[..n], t);
      assert run[..n][..m] == run[..m];
    }
  }

  lemma FailedLookupLeaves(s: State, step: Step)
    requires Enabled(s, step) && step.Lookup? && step.fails
    ensures Apply(s, step).threads[step.t].pc.Leaving?
    ensures Apply(s, step).log == s.log + [LookupFailed(step.t, s.threads[step.t].req)]
  {
  }

  lemma StillRunning(s: State, step: Step, t: Tid)
    requires Enabled(s, step) && !(step.Lookup? && step.t == t) && At(Apply(s, step), t)
    requires Apply(s, step).threads[t].pc.MustRun? || Apply(s, step).threads[t].pc.Ran?
    ensures At(s, t) && (s.threads[t].pc.MustRun? || s.threads[t].pc.Ran?)
    ensures s.threads[t].req == Apply(s, step).threads[t].req
  {
  }

  lemma DecidesByRecord(s: State, t: Tid)
    requires Enabled(s, Lookup(t, false))
    ensures var s', req := Apply(s, Lookup(t, false)), s.threads[t].req;
      && At(s', t)
      && (req.scope in s.records ==>
            var Stored(hash, response) := s.records[req.scope];
            s'.threads[t].pc.Leaving?
            && s'.log == s.log + [if hash == req.hash then Replayed(t, req, response) else Refused(t, req)])
      && (req.scope !in s.records ==> s'.threads[t].pc.MustRun? && s'.log == s.log)
  {
  }

  lemma RecordOfLanded(s: State, i: nat)
    requires InRecords(s) && i < |s.log| && Landed(s.log[i])
    ensures var e := s.log[i]; e.req.scope in s.records && s.records[e.req.scope] == Stored(e.req.hash, e.response)
  {
    assert s.log[i] in s.log;
  }

  lemma LandedOfRecord(s: State, k: Scope) returns (i: nat)
    requires Truthful(s) && k in s.records
    ensures i < |s.log| && Landed(s.log[i]) && s.log[i].req.scope == k
  {
    var e :| e in s.log && Landed(e) && e.req == Request(k, s.records[k].hash);
    i :| 0 <= i < |s.log| && s.log[i] == e;
  }

  /**
  What a lookup that works comes to, in every run: the recorded response to the request it
  was recorded for, and a refusal to any other.
  */
  lemma LookupAnswers(run: seq<Step>, t: Tid, i: nat)
    requires After(run).Some? && Enabled(After(run).value, Lookup(t, false))
    requires i < |After(run).value.log| && Landed(After(run).value.log[i])
    requires After(run).value.log[i].req.scope == After(run).value.threads[t].req.scope
    ensures var s, s' := After(run).value, Apply(After(run).value, Lookup(t, false));
      var req, first := s.threads[t].req, s.log[i];
      && At(s', t) && s'.threads[t].pc.Leaving?
      && s'.log == s.log + [if first.req.hash == req.hash then Replayed(t, req, first.response) else Refused(t, req)]
  {
    RunKeepsInv(run);
    RecordOfLanded(After(run).value, i);
    DecidesByRecord(After(run).value, t);
  }

  /** And where no record was made, the handler. */
  lemma LookupRuns(run: seq<Step>, t: Tid)
    requires After(run).Some? && Enabled(After(run).value, Lookup(t, false))
    requires forall i | 0 <= i < |After(run).value.log| && Landed(After(run).value.log[i]) ::
               After(run).value.log[i].req.scope != After(run).value.threads[t].req.scope
    ensures var s, s' := After(run).value, Apply(After(run).value, Lookup(t, false));
      At(s', t) && s'.threads[t].pc.MustRun? && s'.log == s.log
  {
    RunKeepsInv(run);
    var s := After(run).value;
    DecidesByRecord(s, t);
    var k := s.threads[t].req.scope;
    if k in s.records { var i := LandedOfRecord(s, k); }
  }

  /** A key is one user's in all storages: for another storage's path it is not free, but refused. */
  lemma OtherStorageRefused(run: seq<Step>, i: nat, j: nat, verb: string, path: string, body: string,
                            verb': string, path': string, body': string)
    requires After(run).Some? && i < j < |After(run).value.log| && Landed(After(run).value.log[i])
    requires After(run).value.log[j].req.scope == After(run).value.log[i].req.scope
    requires '\0' !in verb && '\0' !in path && '\0' !in verb' && '\0' !in path' && path != path'
    requires After(run).value.log[i].req.hash == HashInput(verb, path, body)
    requires After(run).value.log[j].req.hash == HashInput(verb', path', body')
    ensures var first, later := After(run).value.log[i], After(run).value.log[j];
      && !later.Replayed? && (first.Recorded? && !later.CameLate? ==> later.Refused? || later.LookupFailed?)
  {
    HashedIsTheRequest(verb, path, body, verb', path', body');
    RecordIsFinal(run, i, j);
  }

  /** And it runs once more at most. */
  lemma LateRecordOneMore(run: seq<Step>, i: nat)
    requires After(run).Some? && i < |After(run).value.log| && Landed(After(run).value.log[i])
    ensures var log := After(run).value.log; Executions(log[i..], log[i].req.scope) <= 1
  {
    RunKeepsInv(run);
    assert OneStraggler(After(run).value, i);
  }

  /** Who is about to run the handler although there is a record was so already when it landed. */
  lemma {:induction false} StragglerHadLooked(run: seq<Step>, m: nat, t: Tid)
    requires After(run).Some? && m <= |run| && At(After(run).value, t) && After(run).value.threads[t].pc.MustRun?
    ensures After(run[..m]).Some?
    ensures After(run).value.threads[t].req.scope in After(run[..m]).value.records ==>
      var landed := After(run[..m]).value;
      At(landed, t) && landed.threads[t].pc.MustRun? && landed.threads[t].req == After(run).value.threads[t].req
  {
    if m == |run| {
      assert run[..m] == run;
    } else {
      var before := run[..|run| - 1];
      assert before[..m] == run[..m];
      Earlier(before, m);
      var s := After(before).value;
      StillMustRun(s, run[|run| - 1], t);
      if s.threads[t].pc.MustRun? { StragglerHadLooked(before, m, t); } else { RecordsOnlyGrow(before, m); }
    }
  }

  lemma {:induction false} Earlier(run: seq<Step>, m: nat)
    requires After(run).Some? && m <= |run|
    ensures After(run[..m]).Some?
  {
    if m == |run| {
      assert run[..m] == run;
    } else {
      assert run[..|run| - 1][..m] == run[..m];
      Earlier(run[..|run| - 1], m);
    }
  }

  lemma {:induction false} RecordsOnlyGrow(run: seq<Step>, m: nat)
    requires After(run).Some? && m <= |run| && After(run[..m]).Some?
    ensures forall k | k in After(run[..m]).value.records :: k in After(run).value.records
  {
    if m == |run| {
      assert run[..m] == run;
    } else {
      assert run[..|run| - 1][..m] == run[..m];
      RecordsOnlyGrow(run[..|run| - 1], m);
      RecordsStay(After(run[..|run| - 1]).value, run[|run| - 1]);
    }
  }

  /** A replayed answer is one the handler gave, earlier, to the same request, and it was settled. */
  lemma ReplayWasExecuted(run: seq<Step>, j: nat)
    requires After(run).Some? && j < |After(run).value.log| && After(run).value.log[j].Replayed?
    ensures var log := After(run).value.log;
      WasExecuted(log[..j], log[j].req, log[j].response)
  {
    RunKeepsInv(run);
    BackedReplay(After(run).value.log, j);
  }

  lemma BackedReplay(log: seq<Event>, j: nat)
    requires Backed(log) && j < |log| && log[j].Replayed?
    ensures WasExecuted(log[..j], log[j].req, log[j].response)
  {
    var e :| e in log[..j] && Landed(e) && e.req == log[j].req && e.response == log[j].response;
    var i :| 0 <= i < j && log[i] == e;
    assert log[..j] == log[..i] + log[i..j];
    ExecutedStays(log[..i], log[i..j], e.req, e.response);
  }

  /** Every execution but one is accounted for by a 5xx, a 429, a panic or an insert that was cut off. */
  lemma ExtraExecutionsAccounted(run: seq<Step>, k: Scope)
    requires After(run).Some?
    ensures var s := After(run).value;
      && Executions(s.log, k) <= Unsettled(s.log, k) + Lost(s.log, k) + 1
      && ((exists e :: e in s.log && InTime(e, k)) ==> Executions(s.log, k) == Unsettled(s.log, k) + Lost(s.log, k) + 1)
  {
    RunKeepsInv(run);
    var s := After(run).value;
    assert Accounted(s, k);
    if InFlight(s, k) != {} {
      var t :| t in InFlight(s, k);
      forall u | u in InFlight(s, k) ensures u == t { OneOwner(s, t, u); }
      assert InFlight(s, k) == {t} && Busy(s, t, k);
      NoneWritten(s.log, k);
    }
    if e :| e in s.log && InTime(e, k) {
      SomeWritten(s.log, k, e);
      assert forall t :: t in s.threads ==> !Busy(s, t, e.req.scope);
      assert forall t :: t !in InFlight(s, k) by { assert forall t | t in InFlight(s, k) :: Busy(s, t, k); }
    }
  }

  lemma {:induction false} SomeWritten(log: seq<Event>, k: Scope, e: Event)
    requires e in log && InTime(e, k)
    ensures Written(log, k) >= 1
  {
    var n := |log| - 1;
    if log[n] != e { SomeWritten(log[..n], k, e); }
  }

  /** When the handler is about to run, every earlier execution for the key has its excuse already. */
  lemma NoExecutionWithoutExcuse(run: seq<Step>, t: Tid, outcome: Outcome)
    requires After(run).Some? && Enabled(After(run).value, Execute(t, outcome))
    ensures var s := After(run).value; var k := s.threads[t].req.scope;
      Executions(s.log, k) == Unsettled(s.log, k) + Lost(s.log, k)
  {
    RunKeepsInv(run);
    var s := After(run).value;
    var k := s.threads[t].req.scope;
    assert Accounted(s, k) && Busy(s, t, k);
    NoneWritten(s.log, k);
    if InFlight(s, k) != {} {
      var u :| u in InFlight(s, k);
      OneOwner(s, t, u);
    }
  }

  lemma OneMoreStep(run: seq<Step>, step: Step)
    requires After(run).Some? && Enabled(After(run).value, step)
    ensures After(run + [step]) == Some(Apply(After(run).value, step))
  {
    assert (run + [step])[..|run|] == run;
  }

  /**
  A retry that looked the key up while the first attempt's insert was cut off runs the
  handler, whatever lands meanwhile: its client is told one thing, and every later retry
  will be told the other.
  */
  lemma LateRecordContradicts(run: seq<Step>, t: Tid, u: Tid, outcome: Outcome)
    requires After(run).Some? && Enabled(After(run).value, Execute(t, outcome)) && Enabled(After(run).value, Land(u))
    requires var s := After(run).value; s.late[u].req == s.threads[t].req && s.late[u].req.scope !in s.records
    ensures After(run + [Land(u)] + [Execute(t, outcome)]).Some?
    ensures var s, s' := After(run).value, After(run + [Land(u)] + [Execute(t, outcome)]).value;
      var Insert(req, response) := s.late[u];
      && s'.log == s.log + [CameLate(u, req, response, Kept)] + [Executed(t, req, outcome)]
      && req.scope in s'.records && s'.records[req.scope] == Stored(req.hash, response)
  {
    OneMoreStep(run, Land(u));
    OneMoreStep(run + [Land(u)], Execute(t, outcome));
  }

  /** Where one request stands, alone on its key. */
  predicate Alone(s: State, t: Tid, req: Request, pc: PC) {
    && s.table.WellFormed() && At(s, t) && s.threads[t] == Thread(req, pc)
    && req.scope !in s.records
    && (pc.Counted() ==>
          && pc.id < |s.table.locks| && s.table.held == map[req.scope := pc.id] && s.table.locks[pc.id].refs == 1
          && (pc.Waiting? || pc.Released? ==> s.table.locks[pc.id].holder == None))
    && (!pc.Counted() ==> s.table.held == map[])
  }

  lemma ArrivesAlone(s: State, t: Tid, req: Request)
    requires s.table.WellFormed() && s.table.held == map[] && req.scope !in s.records && t !in s.threads
    ensures Enabled(s, Arrive(t, req)) && Alone(Apply(s, Arrive(t, req)), t, req, Arrived)
  {
  }

  lemma EntersAlone(s: State, t: Tid, req: Request)
    requires Alone(s, t, req, Arrived)
    ensures Enabled(s, Enter(t)) && Alone(Apply(s, Enter(t)), t, req, Waiting(|s.table.locks|))
  {
  }

  lemma AcquiresAlone(s: State, t: Tid, req: Request, id: nat)
    requires Alone(s, t, req, Waiting(id))
    ensures Enabled(s, Acquire(t)) && Alone(Apply(s, Acquire(t)), t, req, Holding(id))
  {
  }

  lemma LooksUpAlone(s: State, t: Tid, req: Request, id: nat)
    requires Alone(s, t, req, Holding(id))
    ensures Enabled(s, Lookup(t, false)) && Alone(Apply(s, Lookup(t, false)), t, req, MustRun(id))
  {
  }

  /** A step of one request leaves the others and, unless it is a cut-off insert, what may land. */
  lemma OnlyMoves(s: State, step: Step)
    requires Enabled(s, step) && (step.Arrive? || step.Enter? || step.Acquire? || step.Lookup?)
    ensures Apply(s, step).late == s.late
    ensures Apply(s, step).threads.Keys == s.threads.Keys + {step.t}
  {
  }

  /** A request on a free key gets as far as the handler. */
  lemma GetsToTheHandler(run: seq<Step>, t: Tid, req: Request) returns (more: seq<Step>, id: nat)
    requires After(run).Some? && t !in After(run).value.threads
    requires var s := After(run).value; s.table.WellFormed() && s.table.held == map[] && req.scope !in s.records
    ensures After(more).Some? && Alone(After(more).value, t, req, MustRun(id))
    ensures After(more).value.late == After(run).value.late
    ensures After(more).value.threads.Keys == After(run).value.threads.Keys + {t}
  {
    var s := After(run).value;
    id := |s.table.locks|;
    ArrivesAlone(s, t, req);
    more := Onward(run, Arrive(t, req));
    EntersAlone(After(more).value, t, req);
    more := Onward(more, Enter(t));
    AcquiresAlone(After(more).value, t, req, id);
    more := Onward(more, Acquire(t));
    LooksUpAlone(After(more).value, t, req, id);
    more := Onward(more, Lookup(t, false));
  }

  lemma Onward(run: seq<Step>, step: Step) returns (more: seq<Step>)
    requires After(run).Some? && Enabled(After(run).value, step)
    requires step.Arrive? || step.Enter? || step.Acquire? || step.Lookup?
    ensures After(more) == Some(Apply(After(run).value, step))
    ensures Apply(After(run).value, step).late == After(run).value.late
    ensures Apply(After(run).value, step).threads.Keys == After(run).value.threads.Keys + {step.t}
  {
    OneMoreStep(run, step);
    OnlyMoves(After(run).value, step);
    more := run + [step];
  }

  lemma AnswersAlone(s: State, t: Tid, req: Request, id: nat, response: Response)
    requires Alone(s, t, req, MustRun(id)) && WorthRecording(response.status)
    ensures var step := Execute(t, Answered(response));
      Enabled(s, step) && Alone(Apply(s, step), t, req, Ran(id, response)) && Apply(s, step).late == s.late
  {
  }

  lemma CutOffAlone(s: State, t: Tid, req: Request, id: nat, response: Response)
    requires Alone(s, t, req, Ran(id, response))
    ensures var step := Record(t, true, false);
      && Enabled(s, step) && Alone(Apply(s, step), t, req, Leaving(id))
      && Apply(s, step).late == s.late[t := Insert(req, response)]
  {
  }

  lemma ReleasesAlone(s: State, t: Tid, req: Request, id: nat)
    requires Alone(s, t, req, Leaving(id))
    ensures Enabled(s, Release(t)) && Alone(Apply(s, Release(t)), t, req, Released(id))
    ensures Apply(s, Release(t)).late == s.late
  {
  }

  lemma LeavesAlone(s: State, t: Tid, req: Request, id: nat)
    requires Alone(s, t, req, Released(id))
    ensures Enabled(s, Leave(t)) && Alone(Apply(s, Leave(t)), t, req, Finished)
    ensures Apply(s, Leave(t)).late == s.late
  {
  }

  lemma SameThreads(s: State, step: Step)
    requires Enabled(s, step) && !step.Arrive?
    ensures Apply(s, step).threads.Keys == s.threads.Keys
  {
  }

  lemma Along(run: seq<Step>, step: Step) returns (more: seq<Step>)
    requires After(run).Some? && Enabled(After(run).value, step) && !step.Arrive?
    ensures After(more) == Some(Apply(After(run).value, step))
    ensures Apply(After(run).value, step).threads.Keys == After(run).value.threads.Keys
  {
    OneMoreStep(run, step);
    SameThreads(After(run).value, step);
    more := run + [step];
  }

  /** Answered, cut off while it records the answer, and gone. */
  lemma CutOffAndGone(run: seq<Step>, t: Tid, req: Request, id: nat, response: Response) returns (more: seq<Step>)
    requires After(run).Some? && Alone(After(run).value, t, req, MustRun(id)) && WorthRecording(response.status)
    ensures After(more).Some? && Alone(After(more).value, t, req, Finished)
    ensures After(more).value.late == After(run).value.late[t := Insert(req, response)]
    ensures After(more).value.threads.Keys == After(run).value.threads.Keys
  {
    AnswersAlone(After(run).value, t, req, id, response);
    more := Along(run, Execute(t, Answered(response)));
    CutOffAlone(After(more).value, t, req, id, response);
    more := Along(more, Record(t, true, false));
    ReleasesAlone(After(more).value, t, req, id);
    more := Along(more, Release(t));
    LeavesAlone(After(more).value, t, req, id);
    more := Along(more, Leave(t));
  }

  /** A first attempt answered, its insert cut off, and a retry about to run. */
  lemma RetryAfterCutOff(req: Request, response: Response) returns (run: seq<Step>)
    requires WorthRecording(response.status)
    ensures After(run).Some?
    ensures var s := After(run).value;
      && s.late == map[1 := Insert(req, response)] && req.scope !in s.records
      && At(s, 1) && At(s, 2) && s.threads[2].req == req && s.threads[2].pc.MustRun? && s.table.WellFormed()
  {
    var id, other;
    run, id := GetsToTheHandler([], 1, req);
    run := CutOffAndGone(run, 1, req, id, response);
    run, other := GetsToTheHandler(run, 2, req);
  }

  /** It happens, with any two answers: the retry is given the second, and the record holds the first. */
  lemma LateInsertOvertaken(req: Request, first: Response, second: Response) returns (run: seq<Step>)
    requires WorthRecording(first.status)
    ensures After(run).Some?
    ensures var s := After(run).value;
      && Executed(2, req, Answered(second)) in s.log
      && req.scope in s.records && s.records[req.scope] == Stored(req.hash, first)
  {
    var before := RetryAfterCutOff(req, first);
    LateRecordContradicts(before, 2, 1, Answered(second));
    run := before + [Land(1)] + [Execute(2, Answered(second))];
  }

  predicate IsPanic(e: Event, t: Tid) { e.Executed? && e.t == t && e.outcome.Panicked? }

  /** How often a request got a response: from the handler, from the record, or a refusal. */
  function Answers(log: seq<Event>, t: Tid): nat {
    Count(log, (e: Event) => IsEnd(e, t) && !IsPanic(e, t))
  }

  function Panics(log: seq<Event>, t: Tid): nat {
    Count(log, (e: Event) => IsPanic(e, t))
  }

  lemma {:induction false} EndsAre(log: seq<Event>, t: Tid)
    ensures Ends(log, t) == Answers(log, t) + Panics(log, t)
    ensures Panics(log, t) > 0 <==> exists e :: e in log && e.Executed? && e.t == t && e.outcome == Panicked
  {
    if log != [] {
      var n := |log| - 1;
      EndsAre(log[..n], t);
      assert log == log[..n] + [log[n]];
    }
  }

  /**
  No request is answered twice, or after a panic; by the time it is finished it was answered, or its
  handler panicked.
  */
  lemma FinishedMeansEnded(run: seq<Step>, t: Tid)
    requires After(run).Some?
    ensures var log := After(run).value.log; Answers(log, t) + Panics(log, t) <= 1
    ensures t in After(run).value.threads && After(run).value.threads[t].pc.Finished? ==>
      var log := After(run).value.log; Answers(log, t) + Panics(log, t) == 1
    ensures var log := After(run).value.log;
      Panics(log, t) > 0 <==> exists e :: e in log && e.Executed? && e.t == t && e.outcome == Panicked
  {
    RunKeepsInv(run);
    assert EndedOnce(After(run).value, t);
    EndsAre(After(run).value.log, t);
  }

  /** Requests active on one key share one lock, and at most one is in its critical section. */
  lemma OneLockPerKey(run: seq<Step>, t: Tid, u: Tid)
    requires After(run).Some? && t in After(run).value.threads && u in After(run).value.threads
    requires After(run).value.threads[t].req.scope == After(run).value.threads[u].req.scope
    requires After(run).value.threads[t].pc.Counted() && After(run).value.threads[u].pc.Counted()
    ensures After(run).value.threads[t].pc.id == After(run).value.threads[u].pc.id
    ensures After(run).value.threads[t].pc.Owner() && After(run).value.threads[u].pc.Owner() ==> t == u
  {
    RunKeepsInv(run);
    var s := After(run).value;
    if s.threads[t].pc.Owner() && s.threads[u].pc.Owner() {
      OneOwner(s, t, u);
    }
  }

  /** The reference count is the number of counted threads, and an entry is there exactly while it is not zero. */
  lemma EntryWhileReferenced(run: seq<Step>, k: Scope)
    requires After(run).Some?
    ensures var s := After(run).value;
      && (k in s.table.held <==> exists t :: t in s.threads && s.threads[t].pc.Counted() && s.threads[t].req.scope == k)
      && (k in s.table.held ==>
            s.table.locks[s.table.held[k]].refs
              == |set t | t in s.threads && s.threads[t].pc.Counted() && s.threads[t].req.scope == k|)
  {
    RunKeepsInv(run);
    var s := After(run).value;
    if k in s.table.held {
      var id := s.table.held[k];
      var mine := set t | t in s.threads && s.threads[t].pc.Counted() && s.threads[t].req.scope == k;
      forall t ensures t in mine <==> CountedOn(s, t, id) {
        if CountedOn(s, t, id) { assert s.table.held[s.threads[t].req.scope] == s.table.held[k]; }
      }
      assert mine == Users(s, id);
      assert |mine| > 0;
      var t :| t in mine;
    }
  }

  lemma IdleTableIsEmpty(run: seq<Step>)
    requires After(run).Some?
    requires forall t | t in After(run).value.threads :: !After(run).value.threads[t].pc.Counted()
    ensures After(run).value.table.held == map[]
  {
    forall k ensures k !in After(run).value.table.held { EntryWhileReferenced(run, k); }
  }

  // ---------------------------------------------------- nobody waits for ever

  predicate Quiet(s: State) { forall t | t in s.threads :: s.threads[t].pc.Finished? }

  /** The only step a thread can take next from here, when it is not blocked. */
  function NextOf(t: Tid, pc: PC): Step
    requires !pc.Finished?
  {
    match pc
    case Arrived => Enter(t)
    case Waiting(_) => Acquire(t)
    case Holding(_) => Lookup(t, false)
    case MustRun(_) => Execute(t, Panicked)
    case Ran(_, _) => Record(t, true, false)
    case Leaving(_) => Release(t)
    case Released(_) => Leave(t)
  }

  predicate CanMove(s: State, t: Tid) {
    t in s.threads && !s.threads[t].pc.Finished? && Enabled(s, NextOf(t, s.threads[t].pc))
  }

  lemma UnblockedMoves(s: State, t: Tid)
    requires s.table.WellFormed() && Shared(s) && t in s.threads && !s.threads[t].pc.Finished?
    requires s.threads[t].pc.Waiting? ==>
      s.threads[t].pc.id < |s.table.locks| && s.table.locks[s.threads[t].pc.id].holder == None
    ensures CanMove(s, t)
  {
    if s.threads[t].pc.Counted() {
      CountedInRange(s, t, s.threads[t].pc.id);
    }
  }

  /** No deadlock: while some request is unfinished, some thread has a step. */
  lemma Progress(s: State) returns (t: Tid)
    requires LockInv(s) && !Quiet(s)
    ensures CanMove(s, t)
  {
    t :| t in s.threads && !s.threads[t].pc.Finished?;
    if s.threads[t].pc.Waiting? {
      var id := s.threads[t].pc.id;
      CountedInRange(s, t, id);
      if s.table.locks[id].holder.Some? {
        t := s.table.locks[id].holder.value;
        assert Owns(s, t, id);
      }
    }
    UnblockedMoves(s, t);
  }

  function Rank(pc: PC): nat {
    match pc
    case Arrived => 8
    case Waiting(_) => 7
    case Holding(_) => 6
    case MustRun(_) => 5
    case Ran(_, _) => 4
    case Leaving(_) => 2
    case Released(_) => 1
    case Finished => 0
  }

  ghost function ThreadWork(threads: map<Tid, Thread>): nat
    decreases |threads|
  {
    if threads == map[] then 0
    else
      var t :| t in threads;
      assert |threads - {t}| < |threads| by { assert (threads - {t}).Keys == threads.Keys - {t}; }
      Rank(threads[t].pc) + ThreadWork(threads - {t})
  }

  lemma {:induction false} WorkSplits(threads: map<Tid, Thread>, t: Tid)
    requires t in threads
    ensures ThreadWork(threads) == Rank(threads[t].pc) + ThreadWork(threads - {t})
    decreases |threads|
  {
    var u :| u in threads && ThreadWork(threads) == Rank(threads[u].pc) + ThreadWork(threads - {u});
    if u != t {
      assert |threads - {t}| < |threads| by { assert (threads - {t}).Keys == threads.Keys - {t}; }
      assert |threads - {u}| < |threads| by { assert (threads - {u}).Keys == threads.Keys - {u}; }
      WorkSplits(threads - {u}, t);
      WorkSplits(threads - {t}, u);
      assert threads - {u} - {t} == threads - {t} - {u};
    }
  }

  /** What is left to do: the threads' own steps, and the inserts that may still land. */
  ghost function Work(s: State): nat { ThreadWork(s.threads) + |s.late| }

  lemma KeyGone(late: map<Tid, Insert>, t: Tid)
    requires t in late
    ensures |late - {t}| == |late| - 1
  {
    assert (late - {t}).Keys == late.Keys - {t};
  }

  lemma KeyAdded(late: map<Tid, Insert>, t: Tid, insert: Insert)
    ensures |late[t := insert]| <= |late| + 1
  {
    assert late[t := insert].Keys == late.Keys + {t};
  }

  lemma LateStays(s: State, step: Step)
    requires Enabled(s, step) && !step.Land? && !(step.Record? && !step.landed)
    ensures Apply(s, step).late == s.late
  {
  }

  lemma LateCount(s: State, step: Step)
    requires Enabled(s, step) && !step.Arrive?
    ensures |Apply(s, step).late| <= |s.late| + if step.Land? then -1 else if step.Record? then 1 else 0
  {
    if step.Land? {
      KeyGone(s.late, step.t);
    } else if step.Record? && !step.landed {
      KeyAdded(s.late, step.t, Insert(s.threads[step.t].req, s.threads[step.t].pc.response));
    } else {
      LateStays(s, step);
    }
  }

  lemma RankDrops(s: State, step: Step)
    requires Enabled(s, step) && !step.Arrive? && !step.Land?
    ensures var s' := Apply(s, step);
      && At(s, step.t) && At(s', step.t) && s'.threads - {step.t} == s.threads - {step.t}
      && Rank(s'.threads[step.t].pc) + (if step.Record? then 1 else 0) < Rank(s.threads[step.t].pc)
  {
  }

  /** Every step but an arrival uses up work. */
  lemma StepUsesWork(s: State, step: Step)
    requires Enabled(s, step) && !step.Arrive?
    ensures Work(Apply(s, step)) < Work(s)
  {
    LateCount(s, step);
    if step.Land? {
      OwnStep(s, step);
    } else {
      RankDrops(s, step);
      WorkSplits(s.threads, step.t);
      WorkSplits(Apply(s, step).threads, step.t);
    }
  }

  /** No reachable state deadlocks. */
  lemma NoDeadlock(run: seq<Step>) returns (step: Step)
    requires After(run).Some? && !Quiet(After(run).value)
    ensures Enabled(After(run).value, step) && !step.Arrive? && !step.Land?
    ensures After(run + [step]) == Some(Apply(After(run).value, step))
  {
    RunKeepsInv(run);
    var t := Progress(After(run).value);
    step := NextOf(t, After(run).value.threads[t].pc);
    assert (run + [step])[..|run + [step]| - 1] == run;
  }

  predicate NoArrivals(steps: seq<Step>) { forall i | 0 <= i < |steps| :: !steps[i].Arrive? }

  /** Nobody new, whatever else happens: a run goes on for no more steps than there is work. */
  lemma {:induction false} NoEndlessRun(run: seq<Step>, rest: seq<Step>)
    requires After(run + rest).Some? && NoArrivals(rest)
    ensures After(run).Some? && |rest| + Work(After(run + rest).value) <= Work(After(run).value)
  {
    if rest == [] {
      assert run + rest == run;
    } else {
      var n := |rest| - 1;
      assert (run + rest)[..|run + rest| - 1] == run + rest[..n];
      assert (run + rest)[|run + rest| - 1] == rest[n];
      NoEndlessRun(run, rest[..n]);
      StepUsesWork(After(run + rest[..n]).value, rest[n]);
    }
  }

  /** And where none of the requests in flight can go on, all are finished and the table is empty. */
  lemma StuckMeansDrained(run: seq<Step>)
    requires After(run).Some?
    requires forall step :: Enabled(After(run).value, step) ==> step.Arrive? || step.Land?
    ensures Quiet(After(run).value) && After(run).value.table.held == map[]
  {
    if !Quiet(After(run).value) { var step := NoDeadlock(run); }
    IdleTableIsEmpty(run);
  }

  /** So whatever steps the requests in flight take, they drain. */
  lemma Drains(run: seq<Step>, rest: seq<Step>)
    requires After(run + rest).Some? && NoArrivals(rest)
    ensures After(run).Some? && |rest| <= Work(After(run).value)
    ensures (forall step :: Enabled(After(run + rest).value, step) ==> step.Arrive? || step.Land?) ==>
      Quiet(After(run + rest).value) && After(run + rest).value.table.held == map[]
  {
    NoEndlessRun(run, rest);
    if forall step :: Enabled(After(run + rest).value, step) ==> step.Arrive? || step.Land? {
      StuckMeansDrained(run + rest);
    }
  }
}
