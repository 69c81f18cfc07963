/**
Making derived pictures (internal/derive/service.go) as a state machine: any number of
callers, runs shared through singleflight, two lanes of one slot each, and a file store
that other code may remove from at any time.  Every probe of a file, every write, every
channel and singleflight operation is a step of its own, and steps of different runs and
callers interleave freely.  The key of a singleflight group is the job itself, the hash
of the boxes taken to be without collisions.
*/
module DeriveService {
  import opened Wrappers
  import opened Crop

  /** A source: its area and stem. */
  type Source = string

  datatype Variant = Preview | Thumb(side: nat)

  const PHOTO_VARIANTS: set<Variant> := {Preview, Thumb(96), Thumb(192), Thumb(384), Thumb(768)}
  const ROW_VARIANTS: set<Variant> := {Thumb(192), Thumb(384)}

  /** A derivative's file name without its extension. */
  datatype Base = Whole(v: Variant) | RowCrop(id: string, v: Variant)

  datatype File = File(src: Source, base: Base, png: bool)

  /** The code's test of a box, in the plain form this model asks it in. */
  lemma SelectsNothingIs(box: Box)
    ensures BoxSelectsNothing(box) <==> OffThePicture(box)
  {
    CropAgrees(ONE_PIXEL, box);
  }

  datatype Job = PhotoJob(src: Source) | RowJob(src: Source, boxes: map<string, Box>) {
    /** The files whose presence makes the set complete. */
    function Wanted(): set<Base> {
      match this
      case PhotoJob(_) => set v | v in PHOTO_VARIANTS :: Whole(v)
      case RowJob(_, boxes) =>
        set id, v | id in boxes && !OffThePicture(boxes[id]) && v in ROW_VARIANTS :: RowCrop(id, v)
    }

    /** The files one decode of a picture yields: a box whose crop is refused is skipped. */
    function Derived(bounds: Rect): set<Base> {
      match this
      case PhotoJob(_) => set v | v in PHOTO_VARIANTS :: Whole(v)
      case RowJob(_, boxes) =>
        set id, v | id in boxes && CropRect(bounds, boxes[id]).Ok? && v in ROW_VARIANTS :: RowCrop(id, v)
    }
  }

  /** Whatever the picture's size, a decode yields exactly the files the set is checked for. */
  lemma DerivesWhatIsWanted(job: Job, bounds: Rect)
    requires bounds.Dx() >= 1 && bounds.Dy() >= 1
    ensures job.Derived(bounds) == job.Wanted()
  {
    if job.RowJob? {
      forall id | id in job.boxes
        ensures CropRect(bounds, job.boxes[id]).Ok? <==> !OffThePicture(job.boxes[id])
      {
        CropAgrees(bounds, job.boxes[id]);
      }
    }
  }

  /** On disk under either encoding. */
  predicate Exists(files: set<File>, src: Source, base: Base) {
    File(src, base, false) in files || File(src, base, true) in files
  }

  predicate HasSet(files: set<File>, job: Job) {
    forall base | base in job.Wanted() :: Exists(files, job.src, base)
  }

  // ------------------------------------------------------------------- state

  datatype Lane = Eager | Lazy

  /** Where a run is; `since` is how often its source had been cut into when the check or decode began. */
  datatype RunPC =
    | Checking(todo: set<Base>, since: nat)           // probes every file of the set
    | Queued                                          // one is missing: waits for the lane's slot
    | Rechecking(todo: set<Base>, since: nat)         // has the slot, probes again
    | Decoding(from: nat)                             // one is still missing: loads and decodes
    | Writing(todo: set<Base>, from: nat, since: nat)
    | Leaving(ok: bool, at: nat)                      // gave the slot back, still in flight
    | Done(ok: bool, at: nat)
  {
    predicate InSlot() { Rechecking? || Decoding? || Writing? }

    predicate Decodes() { Decoding? || Writing? }
  }

  datatype Run = Run(job: Job, lane: Lane, pc: RunPC)

  datatype CallerPC =
    | Joined(run: nat)             // waits for the shared result
    | Reading(at: nat)             // the run was successful; reads again
    | Served
    | Missing
    | Returned(ok: bool)

  /** Somebody who asked for a set, and the file they want out of it, if any. */
  datatype Caller = Caller(job: Job, want: Option<Base>, pc: CallerPC)

  /** What is remembered of a run of the service. */
  datatype Event =
    | Removed(src: Source)                // files of a source were removed
    | Decoded(job: Job, ok: bool)         // a picture was loaded and decoded, or that failed
    | Unwritten(job: Job)                 // a derived file could not be written
    | Made(job: Job, since: nat)          // all files of one decode were written

  datatype State = State(
    files: set<File>,
    runs: seq<Run>,
    flights: map<Job, nat>,
    slots: map<Lane, nat>,
    callers: map<nat, Caller>,
    log: seq<Event>)

  const INITIAL := State({}, [], map[], map[], map[], [])

  /** How often anything of a source has been removed. */
  function Removals(log: seq<Event>, src: Source): nat {
    if log == [] then 0
    else Removals(log[..|log| - 1], src) + if log[|log| - 1] == Removed(src) then 1 else 0
  }

  /** How often a job's set has been made. */
  function Makes(log: seq<Event>, job: Job): nat {
    if log == [] then 0
    else
      var e := log[|log| - 1];
      Makes(log[..|log| - 1], job) + if e.Made? && e.job == job then 1 else 0
  }

  /** How often a picture was decoded for a job, or that was tried. */
  function Decodes(log: seq<Event>, job: Job): nat {
    if log == [] then 0
    else
      var e := log[|log| - 1];
      Decodes(log[..|log| - 1], job) + if e.Decoded? && e.job == job then 1 else 0
  }

  predicate IsFailure(e: Event, job: Job) { (e.Decoded? && e.job == job && !e.ok) || e == Unwritten(job) }

  /** How often that failed, or a file of it could not be written. */
  function Failures(log: seq<Event>, job: Job): nat {
    if log == [] then 0
    else Failures(log[..|log| - 1], job) + if IsFailure(log[|log| - 1], job) then 1 else 0
  }

  // ------------------------------------------------------------------- steps

  /** What a run can do next. */
  datatype Move =
    | Probe(base: Base)
    | Pass                                            // nothing was missing
    | TakeSlot
    | GiveUp                                          // its context ended in the queue
    | Derive(bounds: Option<Rect>)                    // None: loading or decoding failed
    | Write(base: Base, png: bool, ok: bool)
    | Complete
    | Land                                            // singleflight forgets the key

  datatype Step =
    | Ensure(c: nat, job: Job, lane: Lane)            // EnsurePhotoSet, EnsureRowSet, Schedule
    | Open(c: nat, job: Job, base: Base)              // Open, OpenRow
    | Hear(c: nat)
    | Timeout(c: nat)
    | Reread(c: nat)
    | Go(r: nat, move: Move)
    | Remove(src: Source, gone: set<File>)

  predicate CanMove(pc: RunPC, move: Move) {
    match move
    case Probe(base) => (pc.Checking? || pc.Rechecking?) && base in pc.todo
    case Pass => (pc.Checking? || pc.Rechecking?) && pc.todo == {}
    case TakeSlot => pc.Queued?
    case GiveUp => pc.Queued?
    case Derive(bounds) => pc.Decoding? && (bounds.Some? ==> bounds.value.Dx() >= 1 && bounds.value.Dy() >= 1)
    case Write(base, _, _) => pc.Writing? && base in pc.todo
    case Complete => pc.Writing? && pc.todo == {}
    case Land => pc.Leaving?
  }

  /** A run's next program counter, given the files and how often its source was cut into. */
  function Next(run: Run, files: set<File>, now: nat, move: Move): RunPC
    requires CanMove(run.pc, move)
  {
    match move
    case Probe(base) =>
      if Exists(files, run.job.src, base) then
        if run.pc.Checking? then Checking(run.pc.todo - {base}, run.pc.since)
        else Rechecking(run.pc.todo - {base}, run.pc.since)
      else if run.pc.Checking? then Queued
      else Decoding(now)
    case Pass => Leaving(true, run.pc.since)
    case TakeSlot => Rechecking(run.job.Wanted(), now)
    case GiveUp => Leaving(false, now)
    case Derive(bounds) =>
      if bounds == None then Leaving(false, now) else Writing(run.job.Derived(bounds.value), run.pc.from, now)
    case Write(base, _, ok) =>
      if ok then Writing(run.pc.todo - {base}, run.pc.from, run.pc.since) else Leaving(false, now)
    case Complete => Leaving(true, run.pc.since)
    case Land => Done(run.pc.ok, run.pc.at)
  }

  /** What a run's move adds to the log. */
  function MoveLogged(run: Run, move: Move): Option<Event>
    requires CanMove(run.pc, move)
  {
    match move
    case Derive(bounds) => Some(Decoded(run.job, bounds.Some?))
    case Write(_, _, ok) => if ok then None else Some(Unwritten(run.job))
    case Complete => Some(Made(run.job, run.pc.since))
    case _ => None
  }

  predicate RunAt(s: State, r: nat) { r < |s.runs| }

  predicate CallerAt(s: State, c: nat) { c in s.callers }

  /** A variant the job has at all. */
  predicate Fits(job: Job, base: Base) {
    match base
    case Whole(v) => job.PhotoJob? && v in PHOTO_VARIANTS
    case RowCrop(_, v) => job.RowJob? && v in ROW_VARIANTS
  }

  predicate Enabled(s: State, step: Step) {
    match step
    case Ensure(c, _, _) => c !in s.callers
    case Open(c, job, base) => c !in s.callers && Fits(job, base)
    case Hear(c) =>
      CallerAt(s, c) && s.callers[c].pc.Joined? && RunAt(s, s.callers[c].pc.run) && s.runs[s.callers[c].pc.run].pc.Done?
    case Timeout(c) => CallerAt(s, c) && s.callers[c].pc.Joined?
    case Reread(c) => CallerAt(s, c) && s.callers[c].pc.Reading? && s.callers[c].want.Some?
    case Go(r, move) =>
      RunAt(s, r) && CanMove(s.runs[r].pc, move) && (move == TakeSlot ==> s.runs[r].lane !in s.slots)
    case Remove(src, gone) => forall f | f in gone :: f.src == src
  }

  /** A call joins the run in flight for its key, or starts one on its own lane. */
  function Join(s: State, c: nat, job: Job, want: Option<Base>, lane: Lane): State {
    if job in s.flights then
      s.(callers := s.callers[c := Caller(job, want, Joined(s.flights[job]))])
    else
      s.(callers := s.callers[c := Caller(job, want, Joined(|s.runs|))],
         runs := s.runs + [Run(job, lane, Checking(job.Wanted(), Removals(s.log, job.src)))],
         flights := s.flights[job := |s.runs|])
  }

  function Answer(s: State, c: nat, pc: CallerPC): State
    requires CallerAt(s, c)
  {
    s.(callers := s.callers[c := s.callers[c].(pc := pc)])
  }

  /** A row OpenRow refuses before it looks for anything. */
  predicate NoCrop(job: Job, base: Base) {
    job.RowJob? && base.RowCrop? && (base.id !in job.boxes || OffThePicture(job.boxes[base.id]))
  }

  function Moved(s: State, r: nat, move: Move): State
    requires Enabled(s, Go(r, move))
  {
    var run := s.runs[r];
    var pc := Next(run, s.files, Removals(s.log, run.job.src), move);
    var logged := MoveLogged(run, move);
    State(
      if move.Write? && move.ok then s.files + {File(run.job.src, move.base, move.png)} else s.files,
      s.runs[r := run.(pc := pc)],
      if pc.Done? then s.flights - {run.job} else s.flights,
      if pc.InSlot() then s.slots[run.lane := r] else if run.pc.InSlot() then s.slots - {run.lane} else s.slots,
      s.callers,
      if logged.Some? then s.log + [logged.value] else s.log)
  }

  function Apply(s: State, step: Step): State
    requires Enabled(s, step)
  {
    match step
    case Ensure(c, job, lane) =>
      if job.RowJob? && job.boxes == map[] then s.(callers := s.callers[c := Caller(job, None, Returned(true))])
      else Join(s, c, job, None, lane)
    case Open(c, job, base) =>
      if NoCrop(job, base) then s.(callers := s.callers[c := Caller(job, Some(base), Missing)])
      else if Exists(s.files, job.src, base) then s.(callers := s.callers[c := Caller(job, Some(base), Served)])
      else Join(s, c, job, Some(base), Lazy)
    case Hear(c) =>
      var Done(ok, at) := s.runs[s.callers[c].pc.run].pc;
      Answer(s, c, if ok && s.callers[c].want.Some? then Reading(at) else Returned(ok))
    case Timeout(c) => Answer(s, c, Returned(false))
    case Reread(c) =>
      Answer(s, c, if Exists(s.files, s.callers[c].job.src, s.callers[c].want.value) then Served else Missing)
    case Go(r, move) => Moved(s, r, move)
    case Remove(src, gone) => s.(files := s.files - gone, log := s.log + [Removed(src)])
  }

  /** The state a sequence of steps reaches, or None when one of them was not enabled. */
  function After(steps: seq<Step>): Option<State> {
    if steps == [] then Some(INITIAL)
    else match After(steps[..|steps| - 1])
      case None => None
      case Some(s) => if Enabled(s, steps[|steps| - 1]) then Some(Apply(s, steps[|steps| - 1])) else None
  }

  // ------------------------------------------------------------- the invariant

  predicate FlightSound(s: State, job: Job) {
    job in s.flights ==>
      RunAt(s, s.flights[job]) && s.runs[s.flights[job]].job == job && !s.runs[s.flights[job]].pc.Done?
  }

  predicate InFlight(s: State, r: nat) {
    RunAt(s, r) && !s.runs[r].pc.Done? ==> s.runs[r].job in s.flights && s.flights[s.runs[r].job] == r
  }

  /** A key in flight is a run not yet done, and there is no other. */
  ghost predicate OneFlight(s: State) {
    (forall job :: FlightSound(s, job)) && (forall r: nat :: InFlight(s, r))
  }

  predicate SlotSound(s: State, lane: Lane) {
    lane in s.slots ==>
      RunAt(s, s.slots[lane]) && s.runs[s.slots[lane]].lane == lane && s.runs[s.slots[lane]].pc.InSlot()
  }

  predicate HasSlot(s: State, r: nat) {
    RunAt(s, r) && s.runs[r].pc.InSlot() ==> s.runs[r].lane in s.slots && s.slots[s.runs[r].lane] == r
  }

  /** A lane's slot is held by the one run on it that is past the queue. */
  ghost predicate OneSlot(s: State) {
    (forall lane :: SlotSound(s, lane)) && (forall r: nat :: HasSlot(s, r))
  }

  /** Every file of a set is there, but for those still to do. */
  predicate AllBut(files: set<File>, job: Job, todo: set<Base>) {
    forall base | base in job.Wanted() && base !in todo :: Exists(files, job.src, base)
  }

  predicate RunSound(run: Run, files: set<File>, now: nat) {
    match run.pc
    case Checking(todo, since) => since <= now && (since == now ==> AllBut(files, run.job, todo))
    case Rechecking(todo, since) =>
      todo <= run.job.Wanted() && since <= now && (since == now ==> AllBut(files, run.job, todo))
    case Writing(todo, from, since) => from <= since <= now && (since == now ==> AllBut(files, run.job, todo))
    case Decoding(from) => from <= now
    case Leaving(ok, at) => at <= now && (ok && at == now ==> HasSet(files, run.job))
    case Done(ok, at) => at <= now && (ok && at == now ==> HasSet(files, run.job))
    case _ => true
  }

  predicate RunSoundAt(s: State, r: nat) {
    RunAt(s, r) ==> RunSound(s.runs[r], s.files, Removals(s.log, s.runs[r].job.src))
  }

  ghost predicate RunsSound(s: State) { forall r: nat :: RunSoundAt(s, r) }

  predicate CallerSound(s: State, c: nat) {
    CallerAt(s, c) ==>
      var caller := s.callers[c];
      && (caller.want.Some? && (caller.pc.Joined? || caller.pc.Reading?) ==> caller.want.value in caller.job.Wanted())
      && (caller.pc.Joined? ==> RunAt(s, caller.pc.run) && s.runs[caller.pc.run].job == caller.job)
      && (caller.pc.Reading? ==>
            caller.want.Some? && caller.pc.at <= Removals(s.log, caller.job.src)
            && (caller.pc.at == Removals(s.log, caller.job.src) ==> HasSet(s.files, caller.job)))
  }

  ghost predicate CallersSound(s: State) { forall c: nat :: CallerSound(s, c) }

  /** A set made is there until something of its source is removed. */
  predicate MadeStays(s: State, i: nat) {
    i < |s.log| && s.log[i].Made? ==>
      var now := Removals(s.log, s.log[i].job.src);
      s.log[i].since <= now && (s.log[i].since == now ==> HasSet(s.files, s.log[i].job))
  }

  /** A run that found a file missing did so after a removal that followed every time the set was made. */
  predicate DecodesLater(s: State, i: nat, r: nat) {
    i < |s.log| && s.log[i].Made? && RunAt(s, r) && s.runs[r].job == s.log[i].job && s.runs[r].pc.Decodes() ==>
      s.log[i].since < s.runs[r].pc.from
  }

  /** Between two times a set was made lies a removal. */
  predicate MadeApart(log: seq<Event>, i: nat, j: nat) {
    i < j < |log| && log[i].Made? && log[j].Made? && log[i].job == log[j].job ==> log[i].since < log[j].since
  }

  ghost predicate MakesSound(s: State) {
    && (forall i: nat :: MadeStays(s, i))
    && (forall i: nat, r: nat :: DecodesLater(s, i, r))
    && (forall i: nat, j: nat :: MadeApart(s.log, i, j))
  }

  ghost predicate Inv(s: State) {
    OneFlight(s) && OneSlot(s) && RunsSound(s) && CallersSound(s) && MakesSound(s)
  }

  // ----------------------------------------------------- every step keeps it

  lemma RemovalsGrow(log: seq<Event>, e: Event, src: Source)
    ensures Removals(log + [e], src) == Removals(log, src) + if e == Removed(src) then 1 else 0
  {
    assert (log + [e])[..|log|] == log;
  }

  /** What a step adds to the log. */
  function Logged(s: State, step: Step): seq<Event>
    requires Enabled(s, step)
  {
    match step
    case Go(r, move) => if MoveLogged(s.runs[r], move).Some? then [MoveLogged(s.runs[r], move).value] else []
    case Remove(src, _) => [Removed(src)]
    case _ => []
  }

  lemma LogStep(s: State, step: Step)
    requires Enabled(s, step)
    ensures Apply(s, step).log == s.log + Logged(s, step)
  {
  }

  lemma RemovalsStep(s: State, step: Step, src: Source)
    requires Enabled(s, step)
    ensures Removals(Apply(s, step).log, src) == Removals(s.log, src) + if step.Remove? && step.src == src then 1 else 0
  {
    LogStep(s, step);
    var added := Logged(s, step);
    if added == [] {
      assert s.log + added == s.log;
    } else {
      assert added == [added[0]];
      RemovalsGrow(s.log, added[0], src);
    }
  }

  lemma OnlyRemovedGo(s: State, step: Step, f: File)
    requires Enabled(s, step) && f in s.files && !(step.Remove? && step.src == f.src)
    ensures f in Apply(s, step).files
  {
  }

  /** Removals are only counted up, and while they are not, no file of the source goes. */
  lemma FilesStay(s: State, step: Step, src: Source)
    requires Enabled(s, step)
    ensures Removals(Apply(s, step).log, src) >= Removals(s.log, src)
    ensures Removals(Apply(s, step).log, src) == Removals(s.log, src) ==>
              forall base | Exists(s.files, src, base) :: Exists(Apply(s, step).files, src, base)
  {
    RemovalsStep(s, step, src);
    if !(step.Remove? && step.src == src) {
      forall base | Exists(s.files, src, base) ensures Exists(Apply(s, step).files, src, base) {
        if File(src, base, false) in s.files { OnlyRemovedGo(s, step, File(src, base, false)); }
        if File(src, base, true) in s.files { OnlyRemovedGo(s, step, File(src, base, true)); }
      }
    }
  }

  lemma AllButStays(s: State, step: Step, job: Job, todo: set<Base>)
    requires Enabled(s, step) && AllBut(s.files, job, todo)
    requires Removals(Apply(s, step).log, job.src) == Removals(s.log, job.src)
    ensures AllBut(Apply(s, step).files, job, todo)
  {
    FilesStay(s, step, job.src);
  }

  /** Only one run changes in a step, and only its program counter. */
  lemma RunsStep(s: State, step: Step, r: nat)
    requires Enabled(s, step)
    ensures var s' := Apply(s, step);
      && (RunAt(s, r) ==> RunAt(s', r) && s'.runs[r].job == s.runs[r].job && s'.runs[r].lane == s.runs[r].lane)
      && (RunAt(s, r) && !(step.Go? && step.r == r) ==> s'.runs[r] == s.runs[r])
      && (!RunAt(s, r) && RunAt(s', r) ==>
            var job := s'.runs[r].job;
            && (step.Ensure? || step.Open?) && r == |s.runs| && job !in s.flights
            && s'.runs[r].pc == Checking(job.Wanted(), Removals(s.log, job.src))
            && s'.flights == s.flights[job := r] && s'.slots == s.slots
            && s'.files == s.files && s'.log == s.log)
  {
  }

  lemma FlightMoved(s: State, r: nat, move: Move, job: Job)
    requires Enabled(s, Go(r, move)) && FlightSound(s, job) && InFlight(s, r)
    ensures FlightSound(Moved(s, r, move), job)
  {
  }

  lemma InFlightMoved(s: State, r: nat, move: Move, q: nat)
    requires Enabled(s, Go(r, move)) && InFlight(s, q) && InFlight(s, r)
    ensures InFlight(Moved(s, r, move), q)
  {
  }

  /** The runs as they were, or one more for a key that was not in flight. */
  ghost predicate Joins(s: State, s': State) {
    && s'.slots == s.slots
    && (|| (s'.runs == s.runs && s'.flights == s.flights)
        || (|s'.runs| == |s.runs| + 1
            && s'.runs == s.runs + [s'.runs[|s.runs|]]
            && s'.runs[|s.runs|].pc.Checking?
            && s'.runs[|s.runs|].job !in s.flights
            && s'.flights == s.flights[s'.runs[|s.runs|].job := |s.runs|]))
  }

  lemma JoinJoins(s: State, c: nat, job: Job, want: Option<Base>, lane: Lane)
    ensures Joins(s, Join(s, c, job, want, lane))
  {
  }

  lemma OthersJoin(s: State, step: Step)
    requires Enabled(s, step) && !step.Go?
    ensures Joins(s, Apply(s, step))
  {
    match step
    case Ensure(c, job, lane) => JoinJoins(s, c, job, None, lane);
    case Open(c, job, base) => JoinJoins(s, c, job, Some(base), Lazy);
    case Hear(_) => assert Apply(s, step).runs == s.runs;
    case Timeout(_) => assert Apply(s, step).runs == s.runs;
    case Reread(_) => assert Apply(s, step).runs == s.runs;
    case Remove(_, _) => assert Apply(s, step).runs == s.runs;
  }

  lemma FlightAsked(s: State, s': State, job: Job)
    requires Joins(s, s') && FlightSound(s, job)
    ensures FlightSound(s', job)
  {
  }

  lemma InFlightAsked(s: State, s': State, r: nat)
    requires Joins(s, s') && InFlight(s, r)
    ensures InFlight(s', r)
  {
  }

  lemma OneFlightKept(s: State, step: Step)
    requires OneFlight(s) && Enabled(s, step)
    ensures OneFlight(Apply(s, step))
  {
    forall job ensures FlightSound(Apply(s, step), job) {
      assert FlightSound(s, job);
      if step.Go? {
        assert InFlight(s, step.r);
        FlightMoved(s, step.r, step.move, job);
      } else {
        OthersJoin(s, step);
        FlightAsked(s, Apply(s, step), job);
      }
    }
    forall r: nat ensures InFlight(Apply(s, step), r) {
      assert InFlight(s, r);
      if step.Go? {
        assert InFlight(s, step.r);
        InFlightMoved(s, step.r, step.move, r);
      } else {
        OthersJoin(s, step);
        InFlightAsked(s, Apply(s, step), r);
      }
    }
  }

  lemma SlotMoved(s: State, r: nat, move: Move, lane: Lane)
    requires Enabled(s, Go(r, move)) && SlotSound(s, lane) && HasSlot(s, r)
    ensures SlotSound(Moved(s, r, move), lane)
  {
  }

  lemma HasSlotMoved(s: State, r: nat, move: Move, q: nat)
    requires Enabled(s, Go(r, move)) && HasSlot(s, q) && HasSlot(s, r)
    ensures HasSlot(Moved(s, r, move), q)
  {
  }

  lemma SlotAsked(s: State, s': State, lane: Lane)
    requires Joins(s, s') && SlotSound(s, lane)
    ensures SlotSound(s', lane)
  {
  }

  lemma HasSlotAsked(s: State, s': State, r: nat)
    requires Joins(s, s') && HasSlot(s, r)
    ensures HasSlot(s', r)
  {
  }

  lemma OneSlotKept(s: State, step: Step)
    requires OneSlot(s) && Enabled(s, step)
    ensures OneSlot(Apply(s, step))
  {
    forall lane ensures SlotSound(Apply(s, step), lane) {
      assert SlotSound(s, lane);
      if step.Go? {
        assert HasSlot(s, step.r);
        SlotMoved(s, step.r, step.move, lane);
      } else {
        OthersJoin(s, step);
        SlotAsked(s, Apply(s, step), lane);
      }
    }
    forall r: nat ensures HasSlot(Apply(s, step), r) {
      assert HasSlot(s, r);
      if step.Go? {
        assert HasSlot(s, step.r);
        HasSlotMoved(s, step.r, step.move, r);
      } else {
        OthersJoin(s, step);
        HasSlotAsked(s, Apply(s, step), r);
      }
    }
  }

  /** What a run's own move does to the files and the count of its source's removals. */
  lemma MoveKeeps(s: State, r: nat, move: Move)
    requires Enabled(s, Go(r, move))
    ensures s.files <= Moved(s, r, move).files
    ensures Removals(Moved(s, r, move).log, s.runs[r].job.src) == Removals(s.log, s.runs[r].job.src)
  {
    RemovalsStep(s, Go(r, move), s.runs[r].job.src);
  }

  /** The files a run still wants, through one of its own moves. */
  lemma RunSoundMoved(s: State, r: nat, move: Move)
    requires Enabled(s, Go(r, move)) && RunSoundAt(s, r)
    ensures RunSoundAt(Moved(s, r, move), r)
  {
    var run, files := s.runs[r], Moved(s, r, move).files;
    MoveKeeps(s, r, move);
    NextSound(run, s.files, files, Removals(s.log, run.job.src), move);
  }

  lemma NextSound(run: Run, files: set<File>, files': set<File>, now: nat, move: Move)
    requires CanMove(run.pc, move) && RunSound(run, files, now)
    requires files' == if move.Write? && move.ok then files + {File(run.job.src, move.base, move.png)} else files
    ensures RunSound(run.(pc := Next(run, files, now, move)), files', now)
  {
    match move
    case Derive(Some(bounds)) => DerivesWhatIsWanted(run.job, bounds);
    case Probe(base) => RunSoundDone(run, files, files', now, base, Exists(files, run.job.src, base));
    case Write(base, png, ok) => RunSoundDone(run, files, files', now, base, ok);
    case _ =>
  }

  lemma RunSoundDone(run: Run, files: set<File>, files': set<File>, now: nat, base: Base, there: bool)
    requires RunSound(run, files, now) && files <= files'
    requires run.pc.Checking? || run.pc.Rechecking? || run.pc.Writing?
    requires there ==> Exists(files', run.job.src, base)
    ensures there && run.pc.since == now ==> AllBut(files', run.job, run.pc.todo - {base})
  {
  }

  lemma RunSoundKept(s: State, step: Step, r: nat)
    requires RunSoundAt(s, r) && Enabled(s, step)
    ensures RunSoundAt(Apply(s, step), r)
  {
    var s' := Apply(s, step);
    RunsStep(s, step, r);
    if step.Go? && step.r == r {
      RunSoundMoved(s, r, step.move);
    } else if RunAt(s, r) {
      SoundLater(s, step, s.runs[r]);
    }
  }

  /** What is known of a run that does not move itself. */
  lemma SoundLater(s: State, step: Step, run: Run)
    requires Enabled(s, step) && RunSound(run, s.files, Removals(s.log, run.job.src))
    ensures RunSound(run, Apply(s, step).files, Removals(Apply(s, step).log, run.job.src))
  {
    FilesStay(s, step, run.job.src);
  }

  /** A file asked for and not refused is one of the files the set consists of. */
  lemma WantedIfFits(job: Job, base: Base)
    requires Fits(job, base) && !NoCrop(job, base)
    ensures base in job.Wanted()
  {
  }

  /** What a step leaves of a caller it does not answer. */
  lemma CallerLater(s: State, step: Step, c: nat)
    requires Enabled(s, step) && CallerAt(s, c) && CallerSound(s, c)
    requires CallerAt(Apply(s, step), c) && Apply(s, step).callers[c] == s.callers[c]
    ensures CallerSound(Apply(s, step), c)
  {
    var caller := s.callers[c];
    FilesStay(s, step, caller.job.src);
    if caller.pc.Joined? { RunsStep(s, step, caller.pc.run); }
    if caller.pc.Reading? && caller.pc.at == Removals(Apply(s, step).log, caller.job.src) {
      AllButStays(s, step, caller.job, {});
    }
  }

  lemma JoinerSound(s: State, c: nat, job: Job, want: Option<Base>, lane: Lane)
    requires FlightSound(s, job) && (want.Some? ==> want.value in job.Wanted())
    ensures CallerSound(Join(s, c, job, want, lane), c)
  {
  }

  lemma CallerAnswered(s: State, step: Step, c: nat)
    requires OneFlight(s) && RunsSound(s) && Enabled(s, step) && CallerSound(s, c)
    requires (step.Ensure? || step.Open? || step.Hear? || step.Timeout? || step.Reread?) && step.c == c
    ensures CallerSound(Apply(s, step), c)
  {
    match step
    case Ensure(_, job, lane) =>
      assert FlightSound(s, job);
      JoinerSound(s, c, job, None, lane);
    case Open(_, job, base) =>
      if !NoCrop(job, base) {
        assert FlightSound(s, job);
        WantedIfFits(job, base);
        JoinerSound(s, c, job, Some(base), Lazy);
      }
    case Hear(_) => assert RunSoundAt(s, s.callers[c].pc.run);
    case Timeout(_) =>
    case Reread(_) =>
  }

  lemma OthersWait(s: State, step: Step, c: nat)
    requires Enabled(s, step)
    requires (step.Ensure? || step.Open? || step.Hear? || step.Timeout? || step.Reread?) ==> step.c != c
    ensures CallerAt(Apply(s, step), c) <==> CallerAt(s, c)
    ensures CallerAt(s, c) ==> Apply(s, step).callers[c] == s.callers[c]
  {
  }

  lemma CallersSoundKept(s: State, step: Step)
    requires OneFlight(s) && RunsSound(s) && CallersSound(s) && Enabled(s, step)
    ensures CallersSound(Apply(s, step))
  {
    forall c: nat ensures CallerSound(Apply(s, step), c) {
      assert CallerSound(s, c);
      if (step.Ensure? || step.Open? || step.Hear? || step.Timeout? || step.Reread?) && step.c == c {
        CallerAnswered(s, step, c);
      } else {
        OthersWait(s, step, c);
        if CallerAt(s, c) { CallerLater(s, step, c); }
      }
    }
  }

  lemma SetStays(s: State, step: Step, job: Job)
    requires Enabled(s, step) && HasSet(s.files, job)
    requires Removals(Apply(s, step).log, job.src) == Removals(s.log, job.src)
    ensures HasSet(Apply(s, step).files, job)
  {
    AllButStays(s, step, job, {});
  }

  lemma MadeStaysKept(s: State, s': State, i: nat)
    requires i < |s.log| && MadeStays(s, i) && i < |s'.log| && s'.log[i] == s.log[i]
    requires s.log[i].Made? ==>
               var job := s.log[i].job;
               && Removals(s.log, job.src) <= Removals(s'.log, job.src)
               && (Removals(s.log, job.src) == Removals(s'.log, job.src) && HasSet(s.files, job) ==>
                     HasSet(s'.files, job))
    ensures MadeStays(s', i)
  {
  }

  /** What is known the moment a run completes. */
  lemma JustMade(s: State, r: nat)
    requires Enabled(s, Go(r, Complete)) && RunSoundAt(s, r)
    ensures MadeStays(Moved(s, r, Complete), |s.log|)
  {
    var run := s.runs[r];
    RemovalsGrow(s.log, Made(run.job, run.pc.since), run.job.src);
  }

  lemma DecodesLaterKept(s: State, s': State, i: nat, r: nat)
    requires i < |s.log| && i < |s'.log| && s'.log[i] == s.log[i] && DecodesLater(s, i, r)
    requires RunAt(s', r) ==> if RunAt(s, r) then s'.runs[r] == s.runs[r] else !s'.runs[r].pc.Decodes()
    ensures DecodesLater(s', i, r)
  {
  }

  /** Only a probe that finds a file of the set missing starts a decode. */
  lemma DecodesLaterMoved(s: State, r: nat, move: Move, i: nat)
    requires Enabled(s, Go(r, move)) && i < |s.log| && MadeStays(s, i) && DecodesLater(s, i, r)
    requires RunSoundAt(s, r)
    ensures s.log[i].Made? && s.runs[r].job == s.log[i].job && Moved(s, r, move).runs[r].pc.Decodes() ==>
              s.log[i].since < Moved(s, r, move).runs[r].pc.from
  {
  }

  /** No other run of a job is decoding when one completes. */
  lemma NobodyElseDecodes(s: State, r: nat, q: nat)
    requires Enabled(s, Go(r, Complete)) && InFlight(s, r) && InFlight(s, q)
    ensures DecodesLater(Moved(s, r, Complete), |s.log|, q)
  {
  }

  lemma MadeApartKept(s: State, r: nat, i: nat)
    requires Enabled(s, Go(r, Complete)) && RunSoundAt(s, r) && DecodesLater(s, i, r)
    ensures MadeApart(Moved(s, r, Complete).log, i, |s.log|)
  {
  }

  lemma OldMadeStays(s: State, step: Step, i: nat)
    requires Enabled(s, step) && i < |s.log| && MadeStays(s, i)
    ensures MadeStays(Apply(s, step), i)
  {
    LogStep(s, step);
    var s' := Apply(s, step);
    if s.log[i].Made? {
      var job := s.log[i].job;
      FilesStay(s, step, job.src);
      if Removals(s.log, job.src) == Removals(s'.log, job.src) && HasSet(s.files, job) { SetStays(s, step, job); }
    }
    MadeStaysKept(s, s', i);
  }

  /** A step that logs that a set was made is that run completing. */
  lemma NewMade(s: State, step: Step, i: nat)
    requires Enabled(s, step) && i >= |s.log| && i < |Apply(s, step).log| && Apply(s, step).log[i].Made?
    ensures i == |s.log| && step.Go? && step.move == Complete && Apply(s, step) == Moved(s, step.r, Complete)
  {
    LogStep(s, step);
  }

  lemma AllMadeStay(s: State, step: Step, i: nat)
    requires Enabled(s, step) && MadeStays(s, i) && (step.Go? ==> RunSoundAt(s, step.r))
    ensures MadeStays(Apply(s, step), i)
  {
    if i < |s.log| {
      OldMadeStays(s, step, i);
    } else if i < |Apply(s, step).log| && Apply(s, step).log[i].Made? {
      NewMade(s, step, i);
      JustMade(s, step.r);
    }
  }

  lemma OldDecodesLater(s: State, step: Step, i: nat, r: nat)
    requires Enabled(s, step) && i < |s.log| && MadeStays(s, i) && DecodesLater(s, i, r) && RunSoundAt(s, r)
    ensures DecodesLater(Apply(s, step), i, r)
  {
    LogStep(s, step);
    RunsStep(s, step, r);
    if step.Go? && step.r == r {
      DecodesLaterMoved(s, r, step.move, i);
    } else {
      DecodesLaterKept(s, Apply(s, step), i, r);
    }
  }

  lemma AllDecodeLater(s: State, step: Step, i: nat, r: nat)
    requires Enabled(s, step) && MadeStays(s, i) && DecodesLater(s, i, r)
    requires RunSoundAt(s, r) && InFlight(s, r) && (step.Go? ==> InFlight(s, step.r))
    ensures DecodesLater(Apply(s, step), i, r)
  {
    if i < |s.log| {
      OldDecodesLater(s, step, i, r);
    } else if i < |Apply(s, step).log| && Apply(s, step).log[i].Made? {
      NewMade(s, step, i);
      NobodyElseDecodes(s, step.r, r);
    }
  }

  lemma AllMadeApart(s: State, step: Step, i: nat, j: nat)
    requires Enabled(s, step) && MadeApart(s.log, i, j)
    requires step.Go? ==> RunSoundAt(s, step.r) && DecodesLater(s, i, step.r)
    ensures MadeApart(Apply(s, step).log, i, j)
  {
    LogStep(s, step);
    if |s.log| == j < |Apply(s, step).log| && Apply(s, step).log[j].Made? {
      MadeApartKept(s, step.r, i);
    }
  }

  lemma MakesSoundKept(s: State, step: Step)
    requires OneFlight(s) && RunsSound(s) && MakesSound(s) && Enabled(s, step)
    ensures MakesSound(Apply(s, step))
  {
    var s' := Apply(s, step);
    if step.Go? { assert RunSoundAt(s, step.r) && InFlight(s, step.r); }
    forall i: nat ensures MadeStays(s', i) {
      assert MadeStays(s, i);
      AllMadeStay(s, step, i);
    }
    forall i: nat, r: nat ensures DecodesLater(s', i, r) {
      assert MadeStays(s, i) && DecodesLater(s, i, r) && RunSoundAt(s, r) && InFlight(s, r);
      AllDecodeLater(s, step, i, r);
    }
    forall i: nat, j: nat ensures MadeApart(s'.log, i, j) {
      assert MadeApart(s.log, i, j);
      if step.Go? { assert DecodesLater(s, i, step.r); }
      AllMadeApart(s, step, i, j);
    }
  }

  lemma StepKeepsInv(s: State, step: Step)
    requires Inv(s) && Enabled(s, step)
    ensures Inv(Apply(s, step))
  {
    OneFlightKept(s, step);
    OneSlotKept(s, step);
    forall r: nat ensures RunSoundAt(Apply(s, step), r) {
      assert RunSoundAt(s, r);
      RunSoundKept(s, step, r);
    }
    CallersSoundKept(s, step);
    MakesSoundKept(s, step);
  }

  /** Every state a run of steps reaches is a sound one. */
  lemma {:induction false} RunKeepsInv(steps: seq<Step>)
    requires After(steps).Some?
    ensures Inv(After(steps).value)
  {
    if steps != [] {
      RunKeepsInv(steps[..|steps| - 1]);
      StepKeepsInv(After(steps[..|steps| - 1]).value, steps[|steps| - 1]);
    }
  }

  // ------------------------------------------------------------- over every run

  /** At most one run per key, and at most one decode per lane. */
  lemma OneRunPerKeyOneDecodePerLane(steps: seq<Step>, r: nat, q: nat)
    requires After(steps).Some? && r < |After(steps).value.runs| && q < |After(steps).value.runs|
    ensures var runs := After(steps).value.runs;
      && (runs[r].job == runs[q].job && !runs[r].pc.Done? && !runs[q].pc.Done? ==> r == q)
      && (runs[r].lane == runs[q].lane && runs[r].pc.Decodes() && runs[q].pc.Decodes() ==> r == q)
  {
    RunKeepsInv(steps);
    var s := After(steps).value;
    assert InFlight(s, r) && InFlight(s, q);
    assert HasSlot(s, r) && HasSlot(s, q);
  }

  function DecodesNow(s: State): set<nat> {
    set r: nat | r < |s.runs| && s.runs[r].pc.Decodes()
  }

  lemma OneOfEach<T>(xs: set<T>, x: T, y: T)
    requires forall z | z in xs :: z == x || z == y
    ensures |xs| <= 2
  {
    assert xs - {x} - {y} == {};
    assert |xs - {x} - {y}| >= |xs - {x}| - 1 >= |xs| - 2;
  }

  /** Never more than two decodes at a time, over all sources. */
  lemma AtMostTwoDecodes(steps: seq<Step>)
    requires After(steps).Some?
    ensures |DecodesNow(After(steps).value)| <= 2
  {
    RunKeepsInv(steps);
    var s := After(steps).value;
    var x := if Eager in s.slots then s.slots[Eager] else 0;
    var y := if Lazy in s.slots then s.slots[Lazy] else 0;
    forall r | r in DecodesNow(s) ensures r == x || r == y {
      assert HasSlot(s, r);
      assert s.runs[r].lane == Eager || s.runs[r].lane == Lazy;
    }
    OneOfEach(DecodesNow(s), x, y);
  }

  /**
  Once a run has succeeded, its whole set exists, whatever else went on, unless something
  of the source was removed after the run's check or decode began.
  */
  lemma SuccessMeansTheSetExists(steps: seq<Step>, r: nat)
    requires After(steps).Some? && r < |After(steps).value.runs|
    requires After(steps).value.runs[r].pc.Done? && After(steps).value.runs[r].pc.ok
    requires After(steps).value.runs[r].pc.at == Removals(After(steps).value.log, After(steps).value.runs[r].job.src)
    ensures HasSet(After(steps).value.files, After(steps).value.runs[r].job)
  {
    RunKeepsInv(steps);
    assert RunSoundAt(After(steps).value, r);
  }

  lemma {:induction false} MakesApartAtMost(log: seq<Event>, job: Job, top: nat)
    requires forall i: nat, j: nat :: MadeApart(log, i, j)
    requires forall i | 0 <= i < |log| && log[i].Made? && log[i].job == job :: log[i].since < top
    ensures Makes(log, job) <= top
  {
    if log != [] {
      var k := |log| - 1;
      forall i: nat, j: nat ensures MadeApart(log[..k], i, j) {
        assert MadeApart(log, i, j);
      }
      if log[k].Made? && log[k].job == job {
        forall i | 0 <= i < k && log[..k][i].Made? && log[..k][i].job == job ensures log[..k][i].since < log[k].since {
          assert MadeApart(log, i, k);
        }
        MakesApartAtMost(log[..k], job, log[k].since);
      } else {
        MakesApartAtMost(log[..k], job, top);
      }
    }
  }

  /**
  A set is successfully made at most once more often than anything of its source is
  removed: exactly once at most, however many ask for it, while nothing is.
  */
  lemma MadeOncePerRemoval(steps: seq<Step>, job: Job)
    requires After(steps).Some?
    ensures Makes(After(steps).value.log, job) <= Removals(After(steps).value.log, job.src) + 1
  {
    RunKeepsInv(steps);
    var s := After(steps).value;
    forall i | 0 <= i < |s.log| && s.log[i].Made? && s.log[i].job == job
      ensures s.log[i].since < Removals(s.log, job.src) + 1
    {
      assert MadeStays(s, i);
    }
    MakesApartAtMost(s.log, job, Removals(s.log, job.src) + 1);
  }

  /** A job's decode whose files are being written. */
  function Pending(s: State, job: Job): nat {
    if job in s.flights && RunAt(s, s.flights[job]) && s.runs[s.flights[job]].pc.Writing? then 1 else 0
  }

  /** Every decode came to a set made, a failure, or is being written. */
  predicate Accounted(s: State, job: Job) {
    Decodes(s.log, job) == Makes(s.log, job) + Failures(s.log, job) + Pending(s, job)
  }

  lemma CountOne(log: seq<Event>, e: Event, job: Job)
    ensures Decodes(log + [e], job) == Decodes(log, job) + if e.Decoded? && e.job == job then 1 else 0
    ensures Makes(log + [e], job) == Makes(log, job) + if e.Made? && e.job == job then 1 else 0
    ensures Failures(log + [e], job) == Failures(log, job) + if IsFailure(e, job) then 1 else 0
  {
    assert (log + [e])[..|log|] == log;
  }

  lemma CountStep(s: State, step: Step, job: Job)
    requires Enabled(s, step)
    ensures var log, added := Apply(s, step).log, Logged(s, step);
      && Decodes(log, job) == Decodes(s.log, job) + Decodes(added, job)
      && Makes(log, job) == Makes(s.log, job) + Makes(added, job)
      && Failures(log, job) == Failures(s.log, job) + Failures(added, job)
  {
    LogStep(s, step);
    var added := Logged(s, step);
    if added == [] {
      assert s.log + added == s.log;
    } else {
      assert added == [added[0]] && [] + [added[0]] == added;
      CountOne(s.log, added[0], job);
      CountOne([], added[0], job);
    }
  }

  /** What is being written changes as the log says. */
  lemma PendingMoved(s: State, r: nat, move: Move, job: Job)
    requires Enabled(s, Go(r, move)) && FlightSound(s, job) && InFlight(s, r)
    ensures Pending(Moved(s, r, move), job) - Pending(s, job)
         == if s.runs[r].job != job then 0
            else match move
              case Derive(bounds) => if bounds.Some? then 1 else 0
              case Write(_, _, ok) => if ok then 0 else -1
              case Complete => -1
              case _ => 0
  {
  }

  lemma PendingStep(s: State, step: Step, job: Job)
    requires Enabled(s, step) && FlightSound(s, job) && (step.Go? ==> InFlight(s, step.r))
    ensures var added := Logged(s, step);
      Pending(Apply(s, step), job) + Makes(added, job) + Failures(added, job) == Pending(s, job) + Decodes(added, job)
  {
    var added := Logged(s, step);
    if added != [] {
      assert [] + [added[0]] == added;
      CountOne([], added[0], job);
    }
    if step.Go? { PendingMoved(s, step.r, step.move, job); } else { OthersJoin(s, step); }
  }

  lemma {:induction false} RunAccounted(steps: seq<Step>, job: Job)
    requires After(steps).Some?
    ensures Accounted(After(steps).value, job)
  {
    if steps != [] {
      var before, step := steps[..|steps| - 1], steps[|steps| - 1];
      RunAccounted(before, job);
      RunKeepsInv(before);
      var s := After(before).value;
      assert FlightSound(s, job);
      if step.Go? { assert InFlight(s, step.r); }
      CountStep(s, step, job);
      PendingStep(s, step, job);
    }
  }

  /**
  A picture is decoded for a job at most once more often than something of its source is
  removed and a decode or a write of it fails.
  */
  lemma DecodedOncePerExcuse(steps: seq<Step>, job: Job)
    requires After(steps).Some?
    ensures var log := After(steps).value.log;
      Decodes(log, job) <= Removals(log, job.src) + Failures(log, job) + 1
  {
    RunKeepsInv(steps);
    RunAccounted(steps, job);
    var s := After(steps).value;
    if Pending(s, job) == 1 {
      var r := s.flights[job];
      assert FlightSound(s, job) && RunSoundAt(s, r);
      forall i | 0 <= i < |s.log| && s.log[i].Made? && s.log[i].job == job ensures s.log[i].since < s.runs[r].pc.from {
        assert DecodesLater(s, i, r);
      }
      MakesApartAtMost(s.log, job, s.runs[r].pc.from);
    } else {
      MadeOncePerRemoval(steps, job);
    }
  }

  /** The second read of Open and OpenRow finds its file, unless something was removed meanwhile. */
  lemma SecondReadFinds(steps: seq<Step>, c: nat)
    requires After(steps).Some? && CallerAt(After(steps).value, c)
    requires After(steps).value.callers[c].pc.Reading?
    requires var s := After(steps).value; s.callers[c].pc.at == Removals(s.log, s.callers[c].job.src)
    ensures var s := After(steps).value;
      Enabled(s, Reread(c)) && Apply(s, Reread(c)).callers[c].pc == Served
  {
    RunKeepsInv(steps);
    assert CallerSound(After(steps).value, c);
  }

  // ------------------------------------------------------------- what answers mean

  /** A row that is not proposed, or whose box selects nothing. */
  predicate Refused(job: Job, base: Base) {
    job.RowJob? && base.RowCrop? && (base.id in job.boxes ==> OffThePicture(job.boxes[base.id]))
  }

  /** The file is on disk, as JPEG or as PNG. */
  predicate There(s: State, job: Job, base: Base) {
    File(job.src, base, false) in s.files || File(job.src, base, true) in s.files
  }

  /** What a call of Open or OpenRow comes to at once: not found, served, or waiting for a run. */
  lemma OpenAnswers(s: State, c: nat, job: Job, base: Base)
    requires Enabled(s, Open(c, job, base))
    ensures var s' := Apply(s, Open(c, job, base));
      && c in s'.callers && s'.callers[c].job == job && s'.callers[c].want == Some(base)
      && (s'.callers[c].pc == Missing <==> Refused(job, base))
      && (s'.callers[c].pc == Served <==> !Refused(job, base) && There(s, job, base))
      && (s'.callers[c].pc.Joined? <==> !Refused(job, base) && !There(s, job, base))
  {
  }

  /** The step by which a caller got where it is, when it waits no more. */
  ghost predicate AnsweredAt(s: State, step: Step, c: nat, caller: Caller) {
    match caller.pc
    case Served =>
      && caller.want.Some? && There(s, caller.job, caller.want.value)
      && ((step == Open(c, caller.job, caller.want.value) && !Refused(caller.job, caller.want.value))
          || step == Reread(c))
    case Missing =>
      && caller.want.Some?
      && ((step == Open(c, caller.job, caller.want.value) && Refused(caller.job, caller.want.value))
          || (step == Reread(c) && !There(s, caller.job, caller.want.value)))
    case Returned(ok) =>
      || (step == Timeout(c) && !ok)
      || (step == Hear(c) && c in s.callers && s.callers[c].pc.Joined? && RunAt(s, s.callers[c].pc.run)
          && s.runs[s.callers[c].pc.run].pc.Done? && s.runs[s.callers[c].pc.run].pc.ok == ok
          && (ok ==> caller.want == None))
      || (ok && caller.job.RowJob? && caller.job.boxes == map[] && exists lane :: step == Ensure(c, caller.job, lane))
    case _ => true
  }

  predicate Waits(pc: CallerPC) { pc.Joined? || pc.Reading? }

  lemma AnswersStep(s: State, step: Step, c: nat)
    requires Enabled(s, step) && CallerAt(Apply(s, step), c) && !Waits(Apply(s, step).callers[c].pc)
    ensures var caller := Apply(s, step).callers[c];
      (CallerAt(s, c) && s.callers[c] == caller) || AnsweredAt(s, step, c, caller)
  {
    if (step.Ensure? || step.Open? || step.Hear? || step.Timeout? || step.Reread?) && step.c == c {
      match step
      case Ensure(_, job, lane) => assert step == Ensure(c, job, lane);
      case Open(_, job, base) => OpenAnswers(s, c, job, base);
      case _ =>
    } else {
      OthersWait(s, step, c);
    }
  }

  /**
  Over every run: a caller was answered by its own call or second read, served exactly when
  the file was there then; it is told of a failure only after a timeout or a run that failed.
  */
  lemma {:induction false} AnsweredBy(steps: seq<Step>, c: nat) returns (i: nat)
    requires After(steps).Some? && CallerAt(After(steps).value, c)
    requires var pc := After(steps).value.callers[c].pc; pc.Served? || pc.Missing? || pc.Returned?
    ensures i < |steps| && After(steps[..i]).Some?
    ensures AnsweredAt(After(steps[..i]).value, steps[i], c, After(steps).value.callers[c])
  {
    var n := |steps| - 1;
    var s := After(steps[..n]).value;
    AnswersStep(s, steps[n], c);
    if CallerAt(s, c) && s.callers[c] == After(steps).value.callers[c] {
      i := AnsweredBy(steps[..n], c);
      assert steps[..n][..i] == steps[..i];
    } else {
      i := n;
    }
  }

  /** A run past its first check is where its last move took it. */
  lemma {:induction false} LastMove(steps: seq<Step>, r: nat) returns (i: nat)
    requires After(steps).Some? && RunAt(After(steps).value, r) && !After(steps).value.runs[r].pc.Checking?
    ensures i < |steps| && After(steps[..i]).Some? && steps[i].Go? && steps[i].r == r
    ensures Enabled(After(steps[..i]).value, steps[i])
    ensures After(steps).value.runs[r] == Moved(After(steps[..i]).value, r, steps[i].move).runs[r]
  {
    var n := |steps| - 1;
    var s := After(steps[..n]).value;
    RunsStep(s, steps[n], r);
    if steps[n].Go? && steps[n].r == r {
      i := n;
    } else {
      i := LastMove(steps[..n], r);
      assert steps[..n][..i] == steps[..i];
    }
  }

  /** The step wrote the file: the source's own run, and nobody else, wrote it and it worked. */
  predicate Wrote(s: State, step: Step, f: File)
    requires Enabled(s, step)
  {
    && step.Go? && step.move.Write? && step.move.ok
    && f == File(s.runs[step.r].job.src, step.move.base, step.move.png)
  }

  predicate WroteAt(steps: seq<Step>, i: nat, f: File)
    requires i < |steps| && After(steps[..i]).Some?
  {
    Enabled(After(steps[..i]).value, steps[i]) && Wrote(After(steps[..i]).value, steps[i], f)
  }

  predicate RemovedSince(steps: seq<Step>, i: nat, f: File) {
    exists j :: i < j < |steps| && steps[j].Remove? && f in steps[j].gone
  }

  lemma FilesStep(s: State, step: Step, f: File)
    requires Enabled(s, step)
    ensures f in Apply(s, step).files <==> (f in s.files && !(step.Remove? && f in step.gone)) || Wrote(s, step, f)
  {
  }

  predicate Stays(steps: seq<Step>, i: nat, f: File) {
    && i < |steps| && After(steps[..i]).Some?
    && WroteAt(steps, i, f) && !RemovedSince(steps, i, f)
  }

  lemma StaysStep(steps: seq<Step>, i: nat, f: File)
    requires i < |steps| - 1
    ensures var n := |steps| - 1;
      Stays(steps, i, f) <==> Stays(steps[..n], i, f) && !(steps[n].Remove? && f in steps[n].gone)
  {
    assert steps[..|steps| - 1][..i] == steps[..i];
    RemovedStep(steps, i, f);
  }

  /** Over every run: a file is there exactly when it was written and not removed since. */
  lemma {:induction false} ThereIff(steps: seq<Step>, f: File)
    requires After(steps).Some?
    ensures f in After(steps).value.files <==> exists i: nat :: Stays(steps, i, f)
  {
    if steps != [] {
      var n := |steps| - 1;
      FilesStep(After(steps[..n]).value, steps[n], f);
      ThereIff(steps[..n], f);
      if i: nat :| Stays(steps, i, f) {
        if i < n { StaysStep(steps, i, f); }
      }
      if f in After(steps).value.files {
        if Wrote(After(steps[..n]).value, steps[n], f) {
          assert Stays(steps, n, f);
        } else {
          var i: nat :| Stays(steps[..n], i, f);
          StaysStep(steps, i, f);
        }
      }
    }
  }

  lemma RemovedStep(steps: seq<Step>, i: nat, f: File)
    requires i < |steps| - 1
    ensures var n := |steps| - 1;
      RemovedSince(steps, i, f) <==> RemovedSince(steps[..n], i, f) || (steps[n].Remove? && f in steps[n].gone)
  {
    var n := |steps| - 1;
    if j :| i < j < n && steps[..n][j].Remove? && f in steps[..n][j].gone {
      assert steps[j].Remove? && f in steps[j].gone;
    }
    if j :| i < j < |steps| && steps[j].Remove? && f in steps[j].gone {
      if j < n { assert steps[..n][j] == steps[j]; }
    }
  }

  /** How a run got where it is, from its last move: where it was, and what was on disk then. */
  predicate MoveTells(run: Run, files: set<File>, move: Move, pc: RunPC)
    requires CanMove(run.pc, move)
  {
    match pc
    case Queued => run.pc.Checking? && NotFound(run, files, move)
    case Decoding(_) => run.pc.Rechecking? && NotFound(run, files, move)
    case Checking(todo, _) => run.pc.Checking? && FoundNow(run, files, move, todo)
    case Rechecking(todo, _) =>
      || (run.pc.Queued? && move.TakeSlot? && todo == run.job.Wanted())
      || (run.pc.Rechecking? && FoundNow(run, files, move, todo))
    case Writing(todo, _, _) =>
      || (run.pc.Decoding? && move.Derive? && move.bounds.Some? && todo == run.job.Derived(move.bounds.value))
      || (run.pc.Writing? && move.Write? && move.ok && move.base in run.pc.todo && todo == run.pc.todo - {move.base})
    case Leaving(true, _) =>
      || ((run.pc.Checking? || run.pc.Rechecking?) && move.Pass? && run.pc.todo == {})
      || (run.pc.Writing? && move.Complete? && run.pc.todo == {})
    case Leaving(false, _) =>
      || (run.pc.Queued? && move.GiveUp?)
      || (run.pc.Decoding? && move.Derive? && move.bounds == None)
      || (run.pc.Writing? && move.Write? && !move.ok)
    case Done(ok, _) => run.pc.Leaving? && move.Land? && run.pc.ok == ok
  }

  predicate NotFound(run: Run, files: set<File>, move: Move)
    requires run.pc.Checking? || run.pc.Rechecking?
  {
    && move.Probe? && move.base in run.pc.todo
    && File(run.job.src, move.base, false) !in files && File(run.job.src, move.base, true) !in files
  }

  predicate FoundNow(run: Run, files: set<File>, move: Move, todo: set<Base>)
    requires run.pc.Checking? || run.pc.Rechecking?
  {
    && move.Probe? && move.base in run.pc.todo && todo == run.pc.todo - {move.base}
    && (File(run.job.src, move.base, false) in files || File(run.job.src, move.base, true) in files)
  }

  lemma NextTells(run: Run, files: set<File>, now: nat, move: Move)
    requires CanMove(run.pc, move)
    ensures MoveTells(run, files, move, Next(run, files, now, move))
    ensures Next(run, files, now, move).Leaving? <==>
      move.Pass? || move.Complete? || move.GiveUp? || (move.Derive? && move.bounds == None) || (move.Write? && !move.ok)
  {
  }

  /** Over every run of the service: why a run waits for the slot, decodes, or ended as it did. */
  lemma RunGotThere(steps: seq<Step>, r: nat) returns (i: nat)
    requires After(steps).Some? && RunAt(After(steps).value, r) && !After(steps).value.runs[r].pc.Checking?
    ensures i < |steps| && After(steps[..i]).Some? && steps[i].Go? && steps[i].r == r
    ensures Enabled(After(steps[..i]).value, steps[i])
    ensures var s := After(steps[..i]).value;
      MoveTells(s.runs[r], s.files, steps[i].move, After(steps).value.runs[r].pc)
  {
    i := LastMove(steps, r);
    var s := After(steps[..i]).value;
    NextTells(s.runs[r], s.files, Removals(s.log, s.runs[r].job.src), steps[i].move);
  }

  /** A run failed only after it gave up its place, or a decode or a write failed. */
  lemma FailedBy(steps: seq<Step>, r: nat) returns (i: nat)
    requires After(steps).Some? && RunAt(After(steps).value, r)
    requires var pc := After(steps).value.runs[r].pc; pc.Done? && !pc.ok
    ensures i < |steps| && steps[i].Go? && steps[i].r == r
    ensures var move := steps[i].move;
      move.GiveUp? || (move.Derive? && move.bounds == None) || (move.Write? && !move.ok)
  {
    var j := RunGotThere(steps, r);
    i := RunGotThere(steps[..j], r);
  }

  /** A run moves by itself unless it waits for a slot or is done. */
  lemma RunMoves(pc: RunPC) returns (move: Move)
    requires !pc.Queued? && !pc.Done?
    ensures CanMove(pc, move) && move != TakeSlot && move != GiveUp
  {
    match pc
    case Checking(todo, _) => if todo == {} { move := Pass; } else { var base :| base in todo; move := Probe(base); }
    case Rechecking(todo, _) => if todo == {} { move := Pass; } else { var base :| base in todo; move := Probe(base); }
    case Decoding(_) => move := Derive(None);
    case Writing(todo, _, _) =>
      if todo == {} { move := Complete; } else { var base :| base in todo; move := Write(base, true, true); }
    case Leaving(_, _) => move := Land;
  }

  /** While anybody still waits, something can happen that is neither a timeout nor somebody new. */
  lemma NoDeadlock(steps: seq<Step>, c: nat) returns (step: Step)
    requires After(steps).Some? && CallerAt(After(steps).value, c)
    requires After(steps).value.callers[c].pc.Joined? || After(steps).value.callers[c].pc.Reading?
    ensures Enabled(After(steps).value, step)
    ensures step.Hear? || step.Reread? || (step.Go? && step.move != GiveUp)
  {
    RunKeepsInv(steps);
    var s := After(steps).value;
    assert CallerSound(s, c);
    if s.callers[c].pc.Reading? {
      step := Reread(c);
    } else {
      var r := s.callers[c].pc.run;
      if s.runs[r].pc.Done? {
        step := Hear(c);
      } else if s.runs[r].pc.Queued? {
        var lane := s.runs[r].lane;
        assert SlotSound(s, lane);
        if lane in s.slots {
          var move := RunMoves(s.runs[s.slots[lane]].pc);
          step := Go(s.slots[lane], move);
        } else {
          step := Go(r, TakeSlot);
        }
      } else {
        var move := RunMoves(s.runs[r].pc);
        step := Go(r, move);
      }
    }
  }

  // ------------------------------------------- requests behind background work

  /** A request that shares a run waiting on, or working on, the lane of background work. */
  predicate BehindEager(s: State, c: nat) {
    && CallerAt(s, c) && s.callers[c].pc.Joined? && s.callers[c].want.Some?
    && RunAt(s, s.callers[c].pc.run) && s.runs[s.callers[c].pc.run].lane == Eager
  }

  /** A background call's run for the key is in flight. */
  ghost predicate EagerInFlight(s: State, job: Job) {
    exists r: nat :: RunAt(s, r) && s.runs[r].job == job && s.runs[r].lane == Eager && !s.runs[r].pc.Done?
  }

  lemma EagerInFlightIs(s: State, job: Job)
    requires OneFlight(s)
    ensures EagerInFlight(s, job) <==>
      job in s.flights && RunAt(s, s.flights[job]) && s.runs[s.flights[job]].lane == Eager
  {
    assert FlightSound(s, job);
    if r: nat :| RunAt(s, r) && s.runs[r].job == job && s.runs[r].lane == Eager && !s.runs[r].pc.Done? {
      assert InFlight(s, r);
    }
  }

  /** A caller that just asked. */
  lemma JoinBehind(s: State, c: nat, job: Job, base: Base)
    requires OneFlight(s)
    ensures BehindEager(Join(s, c, job, Some(base), Lazy), c) <==> EagerInFlight(s, job)
  {
    EagerInFlightIs(s, job);
    assert FlightSound(s, job);
  }

  lemma OpenJoins(s: State, c: nat, job: Job, base: Base)
    requires Enabled(s, Open(c, job, base)) && Apply(s, Open(c, job, base)).callers[c].pc.Joined?
    ensures Apply(s, Open(c, job, base)) == Join(s, c, job, Some(base), Lazy)
  {
  }

  /** A caller that waited before waits on the same run. */
  lemma StillBehind(s: State, step: Step, c: nat)
    requires CallerSound(s, c) && Enabled(s, step) && CallerAt(s, c) && s.callers[c].pc.Joined?
    requires CallerAt(Apply(s, step), c) && Apply(s, step).callers[c] == s.callers[c]
    ensures BehindEager(Apply(s, step), c) <==> BehindEager(s, c)
  {
    RunsStep(s, step, s.callers[c].pc.run);
  }

  /** Only Open makes a caller wait for a file. */
  lemma WaitsSince(s: State, step: Step, c: nat)
    requires Enabled(s, step) && CallerAt(Apply(s, step), c)
    requires Apply(s, step).callers[c].pc.Joined? && Apply(s, step).callers[c].want.Some?
    ensures (step.Open? && step.c == c) || (CallerAt(s, c) && Apply(s, step).callers[c] == s.callers[c])
  {
    if step.Ensure? || step.Open? || step.Hear? || step.Timeout? || step.Reread? {
      if step.c != c { OthersWait(s, step, c); }
    } else {
      OthersWait(s, step, c);
    }
  }

  /**
  Over every run: a request that waits is behind background work exactly when, at the
  moment it asked, a background call's run for its key was in flight.
  */
  lemma {:induction false} BehindEagerIff(steps: seq<Step>, c: nat) returns (i: nat)
    requires After(steps).Some? && CallerAt(After(steps).value, c)
    requires After(steps).value.callers[c].pc.Joined? && After(steps).value.callers[c].want.Some?
    ensures i < |steps| && After(steps[..i]).Some?
    ensures var s := After(steps).value;
      var caller := s.callers[c];
      && steps[i] == Open(c, caller.job, caller.want.value)
      && (BehindEager(s, c) <==> EagerInFlight(After(steps[..i]).value, caller.job))
  {
    var n := |steps| - 1;
    RunKeepsInv(steps[..n]);
    var s := After(steps[..n]).value;
    WaitsSince(s, steps[n], c);
    if steps[n].Open? && steps[n].c == c {
      i := n;
      OpenJoins(s, c, steps[n].job, steps[n].base);
      JoinBehind(s, c, steps[n].job, steps[n].base);
    } else {
      assert CallerSound(s, c);
      StillBehind(s, steps[n], c);
      i := BehindEagerIff(steps[..n], c);
      assert steps[..n][..i] == steps[..i];
    }
  }

  /** While the run it waits for is queued, whoever has the slot works on something else. */
  lemma QueuedBehindAnother(steps: seq<Step>, c: nat)
    requires After(steps).Some? && BehindEager(After(steps).value, c)
    requires var s := After(steps).value; s.runs[s.callers[c].pc.run].pc.Queued? && Eager in s.slots
    ensures var s := After(steps).value;
      && RunAt(s, s.slots[Eager]) && s.runs[s.slots[Eager]].pc.InSlot()
      && s.runs[s.slots[Eager]].job != s.callers[c].job
  {
    RunKeepsInv(steps);
    var s := After(steps).value;
    assert CallerSound(s, c) && SlotSound(s, Eager);
    assert InFlight(s, s.slots[Eager]) && InFlight(s, s.callers[c].pc.run);
  }

  lemma AfterOneMore(steps: seq<Step>, step: Step)
    requires After(steps).Some? && Enabled(After(steps).value, step)
    ensures After(steps + [step]) == Some(Apply(After(steps).value, step))
  {
    assert (steps + [step])[..|steps|] == steps;
  }

  lemma TwoAsk(first: Job, second: Job) returns (steps: seq<Step>)
    requires first == PhotoJob("a") && second == PhotoJob("b")
    ensures After(steps).Some?
    ensures var s := After(steps).value;
      && s.files == {} && 2 !in s.callers && s.slots == map[] && s.flights == map[first := 0, second := 1]
      && s.runs == [Run(first, Eager, Checking(first.Wanted(), 0)), Run(second, Eager, Checking(second.Wanted(), 0))]
  {
    steps := [];
    AfterOneMore(steps, Ensure(0, first, Eager));
    steps := steps + [Ensure(0, first, Eager)];
    AfterOneMore(steps, Ensure(1, second, Eager));
    steps := steps + [Ensure(1, second, Eager)];
  }

  /** Two background calls: the first has its lane's slot, the second is queued behind it. */
  lemma TwoInTheBackground(first: Job, second: Job) returns (steps: seq<Step>)
    requires first == PhotoJob("a") && second == PhotoJob("b")
    ensures After(steps).Some?
    ensures var s := After(steps).value;
      && s.files == {} && 2 !in s.callers && s.slots == map[Eager := 0]
      && |s.runs| == 2 && s.runs[0].job == first && s.runs[0].pc.Rechecking?
      && s.runs[1] == Run(second, Eager, Queued) && s.flights == map[first := 0, second := 1]
  {
    var thumb := Whole(Preview);
    steps := TwoAsk(first, second);
    AfterOneMore(steps, Go(0, Probe(thumb)));
    steps := steps + [Go(0, Probe(thumb))];
    AfterOneMore(steps, Go(0, TakeSlot));
    steps := steps + [Go(0, TakeSlot)];
    AfterOneMore(steps, Go(1, Probe(thumb)));
    steps := steps + [Go(1, Probe(thumb))];
  }

  /**
  It happens: one picture decodes in the background, a second is queued behind it, and a
  request for the second waits for the first although the request lane is free.
  */
  lemma RequestWaitsForBackground() returns (steps: seq<Step>, first: Job, second: Job)
    ensures first != second && After(steps).Some?
    ensures var s := After(steps).value;
      && s.slots == map[Eager := 0] && |s.runs| == 2 && s.runs[0].job == first && s.runs[0].pc.Rechecking?
      && s.runs[1] == Run(second, Eager, Queued)
      && BehindEager(s, 2) && s.callers[2].pc == Joined(1)
  {
    first, second := PhotoJob("a"), PhotoJob("b");
    steps := TwoInTheBackground(first, second);
    AfterOneMore(steps, Open(2, second, Whole(Preview)));
    steps := steps + [Open(2, second, Whole(Preview))];
  }
}
