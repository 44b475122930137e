/** Batching of webhook payloads: tasks that add and flush, interleaved step by step around a
    reader/writer lock, and the retries of one delivery. */
module WebhookBatch {

  /** Where a task is.  An add takes the reader lock, stores its payload and reads the size of
      the buffer, lets go of the lock, and flushes when the size reached the limit.  A flush
      looks at the buffer, takes the writer lock, copies the buffer, clears it, lets go of
      the lock and delivers the copy. */
  datatype Phase =
    | Start
    | Reading
    | Stored(len: nat)
    | Deciding(len: nat)
    | Checking
    | Waiting
    | Writing
    | Copied(batch: set<nat>)
    | Cleared(batch: set<nat>)
    | Delivering(batch: set<nat>)
    | Finished

  /** A payload is named by the index of the task that adds it. */
  datatype Task = Task(stored: bool, phase: Phase)

  datatype State = State(
    tasks: seq<Task>,
    buffer: map<int, nat>,
    readers: set<nat>,
    writers: set<nat>,
    delivered: set<nat>,
    failed: set<nat>,
    overwritten: set<nat>)

  /** The next thing a task does: `id` is the key drawn for an insertion, `ok` whether a
      delivery succeeds. */
  datatype Action = Action(task: nat, id: int, ok: bool)

  function Initial(adds: nat, flushes: nat): State {
    State(seq(adds + flushes, i => Task(false, if i < adds then Start else Checking)),
          map[], {}, {}, {}, {}, {})
  }

  function Contents(buffer: map<int, nat>): set<nat> {
    set i | i in buffer :: buffer[i]
  }

  function Moved(s: State, t: nat, phase: Phase): State
    requires t < |s.tasks|
  {
    s.(tasks := s.tasks[t := s.tasks[t].(phase := phase)])
  }

  /** One step of one task; a task that must wait for the lock stays where it is. */
  function Do(max: nat, s: State, a: Action): (r: State)
    ensures |r.tasks| == |s.tasks|
  {
    if a.task >= |s.tasks| then s
    else
      var t := a.task;
      match s.tasks[t].phase
      case Start => if s.writers == {} then Moved(s, t, Reading).(readers := s.readers + {t}) else s
      case Reading => Insert(s, t, a.id)
      case Stored(len) => Moved(s, t, Deciding(len)).(readers := s.readers - {t})
      case Deciding(len) => Moved(s, t, if len >= max then Checking else Finished)
      case Checking => Moved(s, t, if s.buffer == map[] then Finished else Waiting)
      case Waiting =>
        if s.writers == {} && s.readers == {} then Moved(s, t, Writing).(writers := {t}) else s
      case Writing => Moved(s, t, Copied(Contents(s.buffer)))
      case Copied(batch) => Moved(s, t, Cleared(batch)).(buffer := map[])
      case Cleared(batch) => Moved(s, t, Delivering(batch)).(writers := s.writers - {t})
      case Delivering(batch) =>
        if a.ok then Moved(s, t, Finished).(delivered := s.delivered + batch)
        else Moved(s, t, Finished).(failed := s.failed + batch)
      case Finished => s
  }

  /** `buffers[id] = payload`: a payload stored under the same key is gone. */
  function Insert(s: State, t: nat, id: int): State
    requires t < |s.tasks|
  {
    var buffer := s.buffer[id := t];
    s.(tasks := s.tasks[t := Task(true, Stored(|buffer|))],
       buffer := buffer,
       overwritten := if id in s.buffer then s.overwritten + {s.buffer[id]} else s.overwritten)
  }

  /** Any interleaving: the tasks step in any order, each as often as the list says. */
  function Run(max: nat, s: State, actions: seq<Action>): State {
    if actions == [] then s else Do(max, Run(max, s, actions[..|actions| - 1]), actions[|actions| - 1])
  }

  /* ---------- the lock ---------- */

  predicate Holds(phase: Phase) {
    phase.Writing? || phase.Copied? || phase.Cleared?
  }

  predicate Shares(phase: Phase) {
    phase.Reading? || phase.Stored?
  }

  predicate In(s: State, t: nat) {
    t < |s.tasks|
  }

  ghost predicate LockOf(s: State, t: nat) {
    && (t in s.readers <==> In(s, t) && Shares(s.tasks[t].phase))
    && (t in s.writers <==> In(s, t) && Holds(s.tasks[t].phase))
  }

  ghost predicate Alone(s: State) {
    (forall t, u :: t in s.writers && u in s.writers ==> t == u) && (s.writers != {} ==> s.readers == {})
  }

  /** The lock is held by the tasks inside its blocks: readers share it, a writer is alone. */
  ghost predicate Locked(s: State) {
    (forall t: nat :: LockOf(s, t)) && Alone(s)
  }

  /** The copy still is the buffer until the buffer is cleared. */
  ghost predicate Snapshot(s: State) {
    forall t: nat :: In(s, t) && s.tasks[t].phase.Copied? ==> s.tasks[t].phase.batch == Contents(s.buffer)
  }

  lemma LockedStep(max: nat, s: State, a: Action)
    requires Locked(s)
    ensures Locked(Do(max, s, a))
  {
    forall t: nat ensures LockOf(Do(max, s, a), t) {
      LockOfStep(max, s, a, t);
    }
    AloneStep(max, s, a);
  }

  lemma LockOfStep(max: nat, s: State, a: Action, t: nat)
    requires Locked(s)
    ensures LockOf(Do(max, s, a), t)
  {
    assert LockOf(s, t);
    if t == a.task && In(s, t) && s.tasks[t].phase.Waiting? {
    } else if In(s, a.task) && s.tasks[a.task].phase.Waiting? {
      assert Do(max, s, a).writers == s.writers || t !in Do(max, s, a).writers;
    }
  }

  lemma AloneStep(max: nat, s: State, a: Action)
    requires Locked(s)
    ensures Alone(Do(max, s, a))
  {
    assert LockOf(s, a.task);
  }

  lemma SnapshotStep(max: nat, s: State, a: Action)
    requires Locked(s) && Snapshot(s)
    ensures Snapshot(Do(max, s, a))
  {
    var next := Do(max, s, a);
    forall t: nat | In(next, t) && next.tasks[t].phase.Copied?
      ensures next.tasks[t].phase.batch == Contents(next.buffer)
    {
      if t != a.task {
        assert LockOf(s, t) && LockOf(s, a.task);
        assert In(s, a.task) ==> !Shares(s.tasks[a.task].phase) && !Holds(s.tasks[a.task].phase);
      }
    }
  }

  /* ---------- conservation ---------- */

  datatype Place = Buffered | InFlight(task: nat) | Delivered | Failed | Overwritten

  function Carried(phase: Phase): set<nat> {
    if phase.Cleared? || phase.Delivering? then phase.batch else {}
  }

  predicate At(s: State, p: nat, place: Place) {
    match place
    case Buffered => p in Contents(s.buffer)
    case InFlight(t) => t < |s.tasks| && p in Carried(s.tasks[t].phase)
    case Delivered => p in s.delivered
    case Failed => p in s.failed
    case Overwritten => p in s.overwritten
  }

  predicate IsStored(s: State, p: nat) {
    p < |s.tasks| && s.tasks[p].stored
  }

  /** Every stored payload is somewhere, nothing else is anywhere. */
  ghost predicate Complete(s: State) {
    forall p :: IsStored(s, p) <==> exists place :: At(s, p, place)
  }

  /** Nothing is in two places. */
  ghost predicate Separate(s: State) {
    forall p, x, y :: At(s, p, x) && At(s, p, y) ==> x == y
  }

  /** Nothing is in the buffer twice. */
  ghost predicate KeyedOnce(buffer: map<int, nat>) {
    forall i, j :: i in buffer && j in buffer && buffer[i] == buffer[j] ==> i == j
  }

  predicate BeforeStoring(phase: Phase) {
    phase.Start? || phase.Reading?
  }

  /** The first `adds` tasks store their payload in their insertion, the others nothing. */
  ghost predicate StoresOnce(s: State, adds: nat) {
    && (forall t: nat :: In(s, t) ==> (s.tasks[t].stored <==> t < adds && !BeforeStoring(s.tasks[t].phase)))
    && (forall t: nat :: In(s, t) && BeforeStoring(s.tasks[t].phase) ==> t < adds)
  }

  ghost predicate Inv(s: State, adds: nat) {
    Locked(s) && Snapshot(s) && Complete(s) && Separate(s) && KeyedOnce(s.buffer) && StoresOnce(s, adds)
  }

  predicate Overwrites(s: State, a: Action, p: nat) {
    && a.task < |s.tasks| && s.tasks[a.task].phase.Reading?
    && a.id in s.buffer && s.buffer[a.id] == p
  }

  predicate Inserts(s: State, a: Action, p: nat) {
    a.task == p < |s.tasks| && s.tasks[p].phase.Reading?
  }

  /** The place a stored payload moves to in one step. */
  function Next(s: State, a: Action, p: nat, place: Place): Place {
    if a.task >= |s.tasks| then place
    else
      var phase := s.tasks[a.task].phase;
      if place == Buffered && Overwrites(s, a, p) then Overwritten
      else if place == Buffered && phase.Copied? then InFlight(a.task)
      else if place == InFlight(a.task) && phase.Delivering? then if a.ok then Delivered else Failed
      else place
  }

  /** The place it came from. */
  function Before(s: State, a: Action, p: nat, place: Place): Place {
    if a.task >= |s.tasks| then place
    else
      var phase := s.tasks[a.task].phase;
      if place == Overwritten && Overwrites(s, a, p) then Buffered
      else if place == InFlight(a.task) && phase.Copied? then Buffered
      else if phase.Delivering? && p in phase.batch && place == (if a.ok then Delivered else Failed) then InFlight(a.task)
      else place
  }

  lemma AtAfter(max: nat, s: State, a: Action, p: nat, place: Place)
    requires Snapshot(s) && At(s, p, place)
    ensures At(Do(max, s, a), p, Next(s, a, p, place))
  {
    if In(s, a.task) && s.tasks[a.task].phase.Reading? && place == Buffered {
      var i :| i in s.buffer && s.buffer[i] == p;
      assert i == a.id || Do(max, s, a).buffer[i] == p;
    }
  }

  lemma AtBefore(max: nat, s: State, a: Action, p: nat, place: Place)
    requires Snapshot(s) && KeyedOnce(s.buffer) && At(Do(max, s, a), p, place)
    requires !Inserts(s, a, p) || place != Buffered
    ensures At(s, p, Before(s, a, p, place)) && Next(s, a, p, Before(s, a, p, place)) == place
  {
    if In(s, a.task) && s.tasks[a.task].phase.Reading? {
      BeforeInsert(s, a, p, place);
    } else if In(s, a.task) {
      BeforeOther(max, s, a, p, place);
    }
  }

  lemma BeforeInsert(s: State, a: Action, p: nat, place: Place)
    requires In(s, a.task) && s.tasks[a.task].phase.Reading?
    requires KeyedOnce(s.buffer) && At(Insert(s, a.task, a.id), p, place)
    requires !Inserts(s, a, p) || place != Buffered
    ensures At(s, p, Before(s, a, p, place)) && Next(s, a, p, Before(s, a, p, place)) == place
  {
    if place == Buffered {
      var buffer := Insert(s, a.task, a.id).buffer;
      var i :| i in buffer && buffer[i] == p;
      assert i != a.id && s.buffer[i] == p;
    }
  }

  lemma BeforeOther(max: nat, s: State, a: Action, p: nat, place: Place)
    requires In(s, a.task) && !s.tasks[a.task].phase.Reading?
    requires Snapshot(s) && At(Do(max, s, a), p, place)
    ensures At(s, p, Before(s, a, p, place)) && Next(s, a, p, Before(s, a, p, place)) == place
  {
  }

  lemma StoredAfter(max: nat, s: State, a: Action, p: nat)
    ensures IsStored(Do(max, s, a), p) <==> IsStored(s, p) || Inserts(s, a, p)
  {
  }

  /** The only place of a payload just stored is the buffer. */
  lemma InsertedIsBuffered(max: nat, s: State, a: Action, p: nat, adds: nat)
    requires Inv(s, adds) && Inserts(s, a, p)
    ensures At(Do(max, s, a), p, Buffered)
    ensures forall place :: At(Do(max, s, a), p, place) ==> place == Buffered
  {
    assert Do(max, s, a).buffer[a.id] == p;
    assert !IsStored(s, p);
    forall place | At(Do(max, s, a), p, place) ensures place == Buffered {
      if place != Buffered {
        AtBefore(max, s, a, p, place);
        assert false;
      }
    }
  }

  lemma CompleteStep(max: nat, s: State, a: Action, adds: nat)
    requires Inv(s, adds)
    ensures Complete(Do(max, s, a))
  {
    var next := Do(max, s, a);
    forall p ensures IsStored(next, p) <==> exists place :: At(next, p, place) {
      StoredAfter(max, s, a, p);
      if Inserts(s, a, p) {
        InsertedIsBuffered(max, s, a, p, adds);
      } else {
        if IsStored(s, p) {
          var place :| At(s, p, place);
          AtAfter(max, s, a, p, place);
        }
        if place :| At(next, p, place) {
          AtBefore(max, s, a, p, place);
        }
      }
    }
  }

  lemma SeparateStep(max: nat, s: State, a: Action, adds: nat)
    requires Inv(s, adds)
    ensures Separate(Do(max, s, a))
  {
    var next := Do(max, s, a);
    forall p, x, y | At(next, p, x) && At(next, p, y) ensures x == y {
      if Inserts(s, a, p) {
        InsertedIsBuffered(max, s, a, p, adds);
      } else {
        AtBefore(max, s, a, p, x);
        AtBefore(max, s, a, p, y);
      }
    }
  }

  lemma KeyedOnceStep(max: nat, s: State, a: Action, adds: nat)
    requires Inv(s, adds)
    ensures KeyedOnce(Do(max, s, a).buffer)
  {
    if In(s, a.task) && s.tasks[a.task].phase.Reading? {
      var t := a.task;
      assert forall i :: i in s.buffer && s.buffer[i] == t ==> At(s, t, Buffered);
      assert !IsStored(s, t);
    }
  }

  lemma StoresOnceStep(max: nat, s: State, a: Action, adds: nat)
    requires StoresOnce(s, adds)
    ensures StoresOnce(Do(max, s, a), adds)
  {
    var next := Do(max, s, a);
    forall t: nat | In(next, t)
      ensures next.tasks[t].stored <==> t < adds && !BeforeStoring(next.tasks[t].phase)
      ensures BeforeStoring(next.tasks[t].phase) ==> t < adds
    {
      StoresOnceOf(max, s, a, adds, t);
    }
  }

  lemma StoresOnceOf(max: nat, s: State, a: Action, adds: nat, t: nat)
    requires StoresOnce(s, adds) && In(s, t)
    ensures var task := Do(max, s, a).tasks[t];
      (task.stored <==> t < adds && !BeforeStoring(task.phase)) && (BeforeStoring(task.phase) ==> t < adds)
  {
    assert s.tasks[t].stored <==> t < adds && !BeforeStoring(s.tasks[t].phase);
  }

  lemma InvStep(max: nat, s: State, a: Action, adds: nat)
    requires Inv(s, adds)
    ensures Inv(Do(max, s, a), adds)
  {
    LockedStep(max, s, a);
    SnapshotStep(max, s, a);
    CompleteStep(max, s, a, adds);
    SeparateStep(max, s, a, adds);
    KeyedOnceStep(max, s, a, adds);
    StoresOnceStep(max, s, a, adds);
  }

  lemma InitialInv(adds: nat, flushes: nat)
    ensures Inv(Initial(adds, flushes), adds)
  {
  }

  lemma {:induction false} RunInv(max: nat, adds: nat, flushes: nat, actions: seq<Action>)
    ensures Inv(Run(max, Initial(adds, flushes), actions), adds)
    ensures |Run(max, Initial(adds, flushes), actions).tasks| == adds + flushes
    decreases |actions|
  {
    if actions == [] {
      InitialInv(adds, flushes);
    } else {
      var n := |actions| - 1;
      RunInv(max, adds, flushes, actions[..n]);
      InvStep(max, Run(max, Initial(adds, flushes), actions[..n]), actions[n], adds);
    }
  }

  /** In every interleaving of any number of adds and flushes, a payload that was stored is in
      exactly one place, and a payload that was not is in none. */
  lemma Conservation(max: nat, adds: nat, flushes: nat, actions: seq<Action>, p: nat)
    ensures var s := Run(max, Initial(adds, flushes), actions);
      if p < adds && In(s, p) && !BeforeStoring(s.tasks[p].phase)
      then exists place :: At(s, p, place) && forall other :: At(s, p, other) ==> other == place
      else forall place :: !At(s, p, place)
  {
    RunInv(max, adds, flushes, actions);
    var s := Run(max, Initial(adds, flushes), actions);
    if IsStored(s, p) {
      var place :| At(s, p, place);
    }
  }

  /* ---------- a full buffer is attended to ---------- */

  /** Between the insertion that filled the buffer, or the start of a flush, and the clearing. */
  predicate OnItsWay(max: nat, phase: Phase) {
    match phase
    case Stored(len) => len >= max
    case Deciding(len) => len >= max
    case Checking | Waiting | Writing | Copied(_) => true
    case _ => false
  }

  ghost predicate Attended(max: nat, s: State) {
    |s.buffer| >= max ==> exists t: nat :: In(s, t) && OnItsWay(max, s.tasks[t].phase)
  }

  lemma AttendedStep(max: nat, s: State, a: Action)
    requires max > 0 && Attended(max, s)
    ensures Attended(max, Do(max, s, a))
  {
    var next := Do(max, s, a);
    if In(s, a.task) {
      if s.tasks[a.task].phase.Reading? {
        assert OnItsWay(max, next.tasks[a.task].phase) <==> |next.buffer| >= max;
      } else if |next.buffer| >= max {
        var t: nat :| In(s, t) && OnItsWay(max, s.tasks[t].phase);
        assert OnItsWay(max, next.tasks[t].phase);
      }
    }
  }

  /** Past the decision to flush and before its end. */
  predicate Flushes(phase: Phase) {
    match phase
    case Checking | Waiting | Writing | Copied(_) | Cleared(_) | Delivering(_) => true
    case _ => false
  }

  /** At some point of the run the add of task t had stored its payload and seen this many. */
  ghost predicate Saw(max: nat, s: State, actions: seq<Action>, t: nat, len: nat) {
    exists k: nat :: k <= |actions| && SawAt(max, s, actions, t, len, k)
  }

  ghost predicate SawAt(max: nat, s: State, actions: seq<Action>, t: nat, len: nat, k: nat) {
    k <= |actions| && In(Run(max, s, actions[..k]), t)
    && Run(max, s, actions[..k]).tasks[t].phase == Deciding(len)
  }

  lemma SawLater(max: nat, s: State, actions: seq<Action>, t: nat, len: nat)
    requires actions != [] && Saw(max, s, actions[..|actions| - 1], t, len)
    ensures Saw(max, s, actions, t, len)
  {
    var n := |actions| - 1;
    var k: nat :| k <= n && SawAt(max, s, actions[..n], t, len, k);
    assert actions[..n][..k] == actions[..k];
    assert SawAt(max, s, actions, t, len, k);
  }

  /** An add flushes only if it saw a full buffer: one that saw less has finished. */
  lemma {:induction false} OnlyFullFlushes(max: nat, adds: nat, flushes: nat, actions: seq<Action>, t: nat)
    requires t < adds
    ensures In(Run(max, Initial(adds, flushes), actions), t)
    ensures var phase := Run(max, Initial(adds, flushes), actions).tasks[t].phase;
      && (Flushes(phase) ==> exists len: nat :: Saw(max, Initial(adds, flushes), actions, t, len) && len >= max)
      && (phase.Finished? ==> exists len: nat :: Saw(max, Initial(adds, flushes), actions, t, len))
      && (phase.Deciding? ==> Saw(max, Initial(adds, flushes), actions, t, phase.len))
    decreases |actions|
  {
    if actions != [] {
      var n := |actions| - 1;
      var before := Run(max, Initial(adds, flushes), actions[..n]);
      OnlyFullFlushes(max, adds, flushes, actions[..n], t);
      var phase := Run(max, Initial(adds, flushes), actions).tasks[t].phase;
      assert actions[..n + 1] == actions;
      if phase.Deciding? {
        assert SawAt(max, Initial(adds, flushes), actions, t, phase.len, n + 1);
      } else if before.tasks[t].phase.Deciding? {
        SawLater(max, Initial(adds, flushes), actions, t, before.tasks[t].phase.len);
      } else if Flushes(before.tasks[t].phase) {
        var len: nat :| Saw(max, Initial(adds, flushes), actions[..n], t, len) && len >= max;
        SawLater(max, Initial(adds, flushes), actions, t, len);
      } else if before.tasks[t].phase.Finished? {
        var len: nat :| Saw(max, Initial(adds, flushes), actions[..n], t, len);
        SawLater(max, Initial(adds, flushes), actions, t, len);
      }
    }
  }

  /** What an add sees is the size of the buffer just after its own insertion; having seen a full
      one it flushes, having seen less it ends. */
  lemma DecidesBySize(max: nat, s: State, a: Action)
    requires In(s, a.task)
    ensures var before, after := s.tasks[a.task].phase, Do(max, s, a).tasks[a.task].phase;
      && (before.Reading? ==> after == Stored(|Do(max, s, a).buffer|) && Do(max, s, a).buffer == s.buffer[a.id := a.task])
      && (before.Stored? ==> after == Deciding(before.len))
      && (before.Deciding? && before.len >= max ==> after == Checking)
      && (before.Deciding? && before.len < max ==> after == Finished)
      && (before.Checking? ==> (after == Finished <==> s.buffer == map[]))
  {
  }

  /** Whenever the buffer holds the maximum or more, some task is on its way to empty it. */
  lemma {:induction false} FullIsAttended(max: nat, adds: nat, flushes: nat, actions: seq<Action>)
    requires max > 0
    ensures Attended(max, Run(max, Initial(adds, flushes), actions))
    decreases |actions|
  {
    if actions != [] {
      var n := |actions| - 1;
      FullIsAttended(max, adds, flushes, actions[..n]);
      AttendedStep(max, Run(max, Initial(adds, flushes), actions[..n]), actions[n]);
    }
  }

  /** When every task has finished, less than a batch is left, and every payload was
      delivered, was in a batch that failed, is in the buffer, or was overwritten. */
  lemma Quiescent(max: nat, adds: nat, flushes: nat, actions: seq<Action>, p: nat)
    requires max > 0 && p < adds
    requires var s := Run(max, Initial(adds, flushes), actions);
      forall t: nat :: In(s, t) ==> s.tasks[t].phase.Finished?
    ensures var s := Run(max, Initial(adds, flushes), actions);
      && |s.buffer| < max
      && (p in s.delivered || p in s.failed || p in Contents(s.buffer) || p in s.overwritten)
  {
    Conservation(max, adds, flushes, actions, p);
    RunInv(max, adds, flushes, actions);
    FullIsAttended(max, adds, flushes, actions);
    var s := Run(max, Initial(adds, flushes), actions);
    var place :| At(s, p, place);
  }

  /* ---------- the tasks come to an end ---------- */

  /** The steps a task has left, at most. */
  function Left(phase: Phase): nat {
    match phase
    case Start => 10
    case Reading => 9
    case Stored(_) => 8
    case Deciding(_) => 7
    case Checking => 6
    case Waiting => 5
    case Writing => 4
    case Copied(_) => 3
    case Cleared(_) => 2
    case Delivering(_) => 1
    case Finished => 0
  }

  function StepsLeft(tasks: seq<Task>): nat {
    if tasks == [] then 0 else Left(tasks[0].phase) + StepsLeft(tasks[1..])
  }

  /** A step does nothing, or takes one task on. */
  lemma StepTakesOn(max: nat, s: State, a: Action)
    ensures Do(max, s, a) == s || StepsLeft(Do(max, s, a).tasks) < StepsLeft(s.tasks)
  {
    if In(s, a.task) {
      TaskTakenOn(max, s, a);
      LeftOfUpdate(s.tasks, a.task, Do(max, s, a).tasks[a.task]);
    }
  }

  lemma TaskTakenOn(max: nat, s: State, a: Action)
    requires In(s, a.task)
    ensures var t, next := a.task, Do(max, s, a);
      next == s
      || (next.tasks == s.tasks[t := next.tasks[t]] && Left(next.tasks[t].phase) < Left(s.tasks[t].phase))
  {
    if s.tasks[a.task].phase.Start? && s.writers != {} {
    } else if s.tasks[a.task].phase.Waiting? && (s.writers != {} || s.readers != {}) {
    } else if !s.tasks[a.task].phase.Finished? {
      Moves(max, s, a);
      OnlyOneTask(max, s, a);
    }
  }

  /** A task that need not wait for the lock goes on. */
  lemma Moves(max: nat, s: State, a: Action)
    requires In(s, a.task) && !s.tasks[a.task].phase.Finished?
    requires s.tasks[a.task].phase.Start? ==> s.writers == {}
    requires s.tasks[a.task].phase.Waiting? ==> s.writers == {} && s.readers == {}
    ensures Left(Do(max, s, a).tasks[a.task].phase) < Left(s.tasks[a.task].phase)
  {
  }

  lemma OnlyOneTask(max: nat, s: State, a: Action)
    requires In(s, a.task)
    ensures Do(max, s, a).tasks == s.tasks[a.task := Do(max, s, a).tasks[a.task]]
  {
  }

  lemma {:induction false} LeftOfUpdate(tasks: seq<Task>, t: nat, task: Task)
    requires t < |tasks|
    ensures StepsLeft(tasks[t := task]) == StepsLeft(tasks) - Left(tasks[t].phase) + Left(task.phase)
  {
    if t > 0 {
      assert tasks[t := task][1..] == tasks[1..][t - 1 := task];
      LeftOfUpdate(tasks[1..], t - 1, task);
    } else {
      assert tasks[0 := task][1..] == tasks[1..];
    }
  }

  ghost predicate AllFinished(s: State) {
    forall t: nat :: In(s, t) ==> s.tasks[t].phase.Finished?
  }

  /** There is no deadlock: as long as a task is unfinished some task can take a step. */
  lemma SomeTaskCanStep(max: nat, s: State, adds: nat) returns (a: Action)
    requires Inv(s, adds) && !AllFinished(s)
    ensures Do(max, s, a) != s
  {
    var t: nat :| In(s, t) && !s.tasks[t].phase.Finished?;
    a := Action(t, 0, true);
    if s.tasks[t].phase.Start? || s.tasks[t].phase.Waiting? {
      if w :| w in s.writers {
        assert LockOf(s, w);
        a := Action(w, 0, true);
        Moves(max, s, a);
      } else if s.tasks[t].phase.Start? {
        Moves(max, s, a);
      } else if r :| r in s.readers {
        assert LockOf(s, r);
        a := Action(r, 0, true);
        Moves(max, s, a);
      } else {
        Moves(max, s, a);
      }
    } else {
      Moves(max, s, a);
    }
  }

  /** From every state a run can reach all tasks can still finish, in at most `StepsLeft` steps;
      no run takes more that change anything (`StepTakesOn`). */
  lemma {:induction false} RunCanFinish(max: nat, s: State, adds: nat) returns (actions: seq<Action>)
    requires Inv(s, adds)
    ensures AllFinished(Run(max, s, actions)) && |actions| <= StepsLeft(s.tasks)
    decreases StepsLeft(s.tasks)
  {
    if AllFinished(s) {
      actions := [];
    } else {
      var a := SomeTaskCanStep(max, s, adds);
      StepTakesOn(max, s, a);
      InvStep(max, s, a, adds);
      var rest := RunCanFinish(max, Do(max, s, a), adds);
      actions := [a] + rest;
      RunConcat(max, s, [a], rest);
      RunOfOne(max, s, a);
    }
  }

  lemma RunOfOne(max: nat, s: State, a: Action)
    ensures Run(max, s, [a]) == Do(max, s, a)
  {
    assert [a][..0] == [];
  }

  /* ---------- keys ---------- */

  /** A payload is lost to another one exactly when a task stores under a key in use. */
  lemma OverwrittenIff(max: nat, s: State, actions: seq<Action>, p: nat)
    requires s.overwritten == {}
    ensures p in Run(max, s, actions).overwritten <==> exists k: nat :: LostAt(max, s, actions, p, k)
  {
    if p in Run(max, s, actions).overwritten {
      var k := WhenOverwritten(max, s, actions, p);
    }
    forall k: nat | LostAt(max, s, actions, p, k) ensures p in Run(max, s, actions).overwritten {
      StaysOverwritten(max, s, actions, p, k);
    }
  }

  ghost predicate LostAt(max: nat, s: State, actions: seq<Action>, p: nat, k: nat) {
    k < |actions| && Overwrites(Run(max, s, actions[..k]), actions[k], p)
  }

  lemma {:induction false} WhenOverwritten(max: nat, s: State, actions: seq<Action>, p: nat) returns (k: nat)
    requires p !in s.overwritten && p in Run(max, s, actions).overwritten
    ensures LostAt(max, s, actions, p, k)
    decreases |actions|
  {
    var n := |actions| - 1;
    OverwrittenStep(max, Run(max, s, actions[..n]), actions[n], p);
    if p in Run(max, s, actions[..n]).overwritten {
      k := WhenOverwritten(max, s, actions[..n], p);
      assert actions[..n][..k] == actions[..k];
    } else {
      k := n;
    }
  }

  lemma {:induction false} StaysOverwritten(max: nat, s: State, actions: seq<Action>, p: nat, k: nat)
    requires LostAt(max, s, actions, p, k)
    ensures p in Run(max, s, actions).overwritten
    decreases |actions|
  {
    var n := |actions| - 1;
    OverwrittenStep(max, Run(max, s, actions[..n]), actions[n], p);
    if k < n {
      assert actions[..n][..k] == actions[..k];
      StaysOverwritten(max, s, actions[..n], p, k);
    }
  }

  lemma OverwrittenStep(max: nat, s: State, a: Action, p: nat)
    ensures p in Do(max, s, a).overwritten <==> p in s.overwritten || Overwrites(s, a, p)
  {
  }

  /** Every key in the buffer was drawn by the task stored under it. */
  lemma {:induction false} BufferedUnderDrawn(max: nat, adds: nat, flushes: nat, actions: seq<Action>, id: int)
      returns (k: nat)
    requires id in Run(max, Initial(adds, flushes), actions).buffer
    ensures k < |actions| && actions[k].id == id
    ensures actions[k].task == Run(max, Initial(adds, flushes), actions).buffer[id]
    decreases |actions|
  {
    var n := |actions| - 1;
    var before := Run(max, Initial(adds, flushes), actions[..n]);
    BufferStep(max, before, actions[n], id);
    if In(before, actions[n].task) && before.tasks[actions[n].task].phase.Reading? && actions[n].id == id {
      k := n;
    } else {
      k := BufferedUnderDrawn(max, adds, flushes, actions[..n], id);
    }
  }

  lemma BufferStep(max: nat, s: State, a: Action, id: int)
    requires id in Do(max, s, a).buffer
    ensures if In(s, a.task) && s.tasks[a.task].phase.Reading? && a.id == id
      then Do(max, s, a).buffer[id] == a.task
      else id in s.buffer && Do(max, s, a).buffer[id] == s.buffer[id]
  {
  }

  /** Different adds draw different keys. */
  ghost predicate DifferentKeys(actions: seq<Action>, adds: nat) {
    forall k, l :: 0 <= k < |actions| && 0 <= l < |actions| && actions[k].task < actions[l].task < adds ==>
      actions[k].id != actions[l].id
  }

  /** As long as no two adds draw the same key, no payload is lost to another one. */
  lemma DifferentKeysLoseNothing(max: nat, adds: nat, flushes: nat, actions: seq<Action>)
    requires DifferentKeys(actions, adds)
    ensures Run(max, Initial(adds, flushes), actions).overwritten == {}
  {
    if p :| p in Run(max, Initial(adds, flushes), actions).overwritten {
      var k := WhenOverwritten(max, Initial(adds, flushes), actions, p);
      var s := Run(max, Initial(adds, flushes), actions[..k]);
      var l := BufferedUnderDrawn(max, adds, flushes, actions[..k], actions[k].id);
      assert actions[..k][l] == actions[l];
      RunInv(max, adds, flushes, actions[..k]);
      TakenByAnother(s, adds, actions[k]);
      KeysDiffer(actions, adds, k, l);
      assert false;
    }
  }

  lemma KeysDiffer(actions: seq<Action>, adds: nat, k: nat, l: nat)
    requires DifferentKeys(actions, adds) && k < |actions| && l < |actions|
    requires actions[k].task != actions[l].task && actions[k].task < adds && actions[l].task < adds
    ensures actions[k].id != actions[l].id
  {
  }

  /** A key in use when a task draws it was drawn by another add. */
  lemma TakenByAnother(s: State, adds: nat, a: Action)
    requires Inv(s, adds) && In(s, a.task) && s.tasks[a.task].phase.Reading? && a.id in s.buffer
    ensures a.task < adds && s.buffer[a.id] < adds && s.buffer[a.id] != a.task
  {
    assert At(s, s.buffer[a.id], Buffered);
    assert IsStored(s, s.buffer[a.id]);
  }

  /** The actions of a schedule, given the key each add draws: which task steps, and how a
      delivery would end. */
  function Actions(keys: seq<int>, schedule: seq<(nat, bool)>): seq<Action> {
    if schedule == [] then []
    else
      var (t, ok) := schedule[|schedule| - 1];
      Actions(keys, schedule[..|schedule| - 1]) + [Action(t, if t < |keys| then keys[t] else 0, ok)]
  }

  lemma {:induction false} ActionsAt(keys: seq<int>, schedule: seq<(nat, bool)>)
    ensures forall k :: 0 <= k < |Actions(keys, schedule)| && Actions(keys, schedule)[k].task < |keys| ==>
      Actions(keys, schedule)[k].id == keys[Actions(keys, schedule)[k].task]
  {
    if schedule != [] {
      ActionsAt(keys, schedule[..|schedule| - 1]);
    }
  }

  ghost predicate LosesNothing(max: nat, keys: seq<int>, flushes: nat, schedule: seq<(nat, bool)>) {
    Run(max, Initial(|keys|, flushes), Actions(keys, schedule)).overwritten == {}
  }

  ghost predicate PairwiseDifferent(keys: seq<int>) {
    forall i, j :: 0 <= i < j < |keys| ==> keys[i] != keys[j]
  }

  /** Whatever the limit and however many flushes there are: no interleaving loses a payload to
      another one exactly if the keys drawn by the adds are pairwise different. */
  lemma NoLossIffKeysDiffer(max: nat, keys: seq<int>, flushes: nat)
    ensures (forall schedule :: LosesNothing(max, keys, flushes, schedule)) <==> PairwiseDifferent(keys)
  {
    if PairwiseDifferent(keys) {
      forall schedule ensures LosesNothing(max, keys, flushes, schedule) {
        ActionsAt(keys, schedule);
        DifferentKeysLoseNothing(max, |keys|, flushes, Actions(keys, schedule));
      }
    } else {
      var i: nat, j: nat :| i < j < |keys| && keys[i] == keys[j];
      SameKeyLoses(max, keys, flushes, i, j);
    }
  }

  /** Three steps of one add, then three of another. */
  function OneAfterTheOther(i: nat, j: nat): seq<(nat, bool)> {
    [(i, true), (i, true), (i, true)] + [(j, true), (j, true), (j, true)]
  }

  /** `generateId` seeds the generator with the clock: two adds at the same reading draw the
      same key, and then the first payload can be lost, whatever the limit and the other tasks. */
  lemma SameKeyLoses(max: nat, keys: seq<int>, flushes: nat, i: nat, j: nat)
    requires i < j < |keys| && keys[i] == keys[j]
    ensures Run(max, Initial(|keys|, flushes), Actions(keys, OneAfterTheOther(i, j))).overwritten == {i}
    ensures !LosesNothing(max, keys, flushes, OneAfterTheOther(i, j))
  {
    var first, second := Action(i, keys[i], true), Action(j, keys[j], true);
    var one, two := [first, first, first], [second, second, second];
    var s := Initial(|keys|, flushes);
    AddStores(max, s, i, keys[i]);
    AddStores(max, Run(max, s, one), j, keys[j]);
    RunConcat(max, s, one, two);
    ActionsOfThree(keys, i);
    ActionsOfThree(keys, j);
    ActionsConcat(keys, [(i, true), (i, true), (i, true)], [(j, true), (j, true), (j, true)]);
  }

  lemma {:induction false} ActionsConcat(keys: seq<int>, a: seq<(nat, bool)>, b: seq<(nat, bool)>)
    ensures Actions(keys, a + b) == Actions(keys, a) + Actions(keys, b)
    decreases |b|
  {
    if b == [] {
      assert a + b == a;
    } else {
      var n := |b| - 1;
      assert (a + b)[..|a| + n] == a + b[..n];
      ActionsConcat(keys, a, b[..n]);
    }
  }

  lemma ActionsOfThree(keys: seq<int>, t: nat)
    requires t < |keys|
    ensures var a := Action(t, keys[t], true); Actions(keys, [(t, true), (t, true), (t, true)]) == [a, a, a]
  {
    var x: (nat, bool) := (t, true);
    var a := Action(t, keys[t], true);
    assert [x][..0] == [] && [x, x][..1] == [x] && [x, x, x][..2] == [x, x];
    assert Actions(keys, [x]) == [a];
    assert Actions(keys, [x, x]) == [a, a];
  }

  /** The first three steps of an add that need not wait. */
  lemma AddStores(max: nat, s: State, t: nat, id: int)
    requires In(s, t) && s.tasks[t].phase.Start? && s.writers == {}
    ensures var a := Action(t, id, true);
      var r := Run(max, s, [a, a, a]);
      && r.buffer == s.buffer[id := t] && r.writers == {} && |r.tasks| == |s.tasks|
      && r.overwritten == (if id in s.buffer then s.overwritten + {s.buffer[id]} else s.overwritten)
      && forall u: nat :: In(s, u) && u != t ==> r.tasks[u] == s.tasks[u]
  {
    var a := Action(t, id, true);
    RunOfThree(max, s, a, a, a);
    var reading := Do(max, s, a);
    assert reading == Moved(s, t, Reading).(readers := s.readers + {t});
    assert Do(max, reading, a) == Insert(reading, t, id);
  }

  lemma {:induction false} RunConcat(max: nat, s: State, a: seq<Action>, b: seq<Action>)
    ensures Run(max, s, a + b) == Run(max, Run(max, s, a), b)
    decreases |b|
  {
    if b == [] {
      assert a + b == a;
    } else {
      var n := |b| - 1;
      assert (a + b)[..|a| + n] == a + b[..n];
      RunConcat(max, s, a, b[..n]);
    }
  }

  lemma RunOfThree(max: nat, s: State, a: Action, b: Action, c: Action)
    ensures Run(max, s, [a, b, c]) == Do(max, Do(max, Do(max, s, a), b), c)
  {
    assert [a, b, c][..2] == [a, b] && [a, b][..1] == [a] && [a][..0] == [];
    assert Run(max, s, [a]) == Do(max, s, a);
    assert Run(max, s, [a, b]) == Do(max, Do(max, s, a), b);
  }
}
