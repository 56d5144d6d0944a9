/**
  The two-slot deep-learning handshake in NORMAL mode. One dispatcher alternates between two
  slots; the worker of a slot polls the slot's flag, computes, copies its result to the slot's
  buffer and clears the flag. The three run on two processors, so their steps interleave freely.
  A job is known by the number of its dispatch.
 */
module Handshake {
  import opened Bytes

  datatype Worker = Polling | Computing(job: nat) | Copied(job: nat)

  /** `detect` is the flag (DETECT or EMPTY), `result` the job whose result is in the buffer. */
  datatype Slot = Slot(detect: bool, job: nat, worker: Worker, result: Option<nat>, dispatched: nat, completed: nat)

  /** Where schedule_deeplearning stands: outside, before the flag test, behind it, behind the flag write. */
  datatype Dispatcher = Outside | Testing(flag: nat) | Granted(flag: nat) | Marked(flag: nat)

  datatype State = State(slot0: Slot, slot1: Slot, dispatcher: Dispatcher, lastUse: int, useDeepRes: nat,
                         jobs: nat, errorPrinted: bool)

  datatype Step = Enter | TestFlag | Mark | Select | Poll(i: nat) | Copy(i: nat) | Clear(i: nat)

  function At(s: State, i: nat): Slot {
    if i == 0 then s.slot0 else s.slot1
  }

  function With(s: State, i: nat, slot: Slot): State {
    if i == 0 then s.(slot0 := slot) else s.(slot1 := slot)
  }

  const IDLE := Slot(false, 0, Polling, None, 0, 0)

  const INITIAL := State(IDLE, IDLE, Outside, -1, 0, 0, false)

  predicate Enabled(s: State, step: Step) {
    match step
    case Enter => s.dispatcher.Outside?
    case TestFlag => s.dispatcher.Testing? && s.dispatcher.flag < 2
    case Mark => s.dispatcher.Granted? && s.dispatcher.flag < 2
    case Select => s.dispatcher.Marked?
    case Poll(i) => i < 2 && At(s, i).worker.Polling?
    case Copy(i) => i < 2 && At(s, i).worker.Computing?
    case Clear(i) => i < 2 && At(s, i).worker.Copied?
  }

  /** One atomic step of the dispatcher or of a worker. A flag test that fails is tried again. */
  function Do(s: State, step: Step): State
    requires Enabled(s, step)
  {
    match step
    case Enter => s.(dispatcher := Testing(if s.lastUse == 0 then 1 else 0))
    case TestFlag =>
      if At(s, s.dispatcher.flag).detect then s else s.(dispatcher := Granted(s.dispatcher.flag))
    case Mark =>
      var f := s.dispatcher.flag;
      var slot := At(s, f);
      With(s, f, slot.(detect := true, job := s.jobs, dispatched := slot.dispatched + 1))
        .(dispatcher := Marked(f), jobs := s.jobs + 1)
    case Select =>
      var f := s.dispatcher.flag;
      s.(dispatcher := Outside, useDeepRes := f, lastUse := f, errorPrinted := s.errorPrinted || s.lastUse == f)
    case Poll(i) =>
      var slot := At(s, i);
      if slot.detect then With(s, i, slot.(worker := Computing(slot.job))) else s
    case Copy(i) =>
      var slot := At(s, i);
      With(s, i, slot.(worker := Copied(slot.worker.job), result := Some(slot.worker.job)))
    case Clear(i) =>
      var slot := At(s, i);
      With(s, i, slot.(detect := false, worker := Polling, completed := slot.completed + 1))
  }

  // ----- the invariant

  /** How many of the first `n` jobs go to slot `i` when the slots take turns. */
  function Share(n: nat, i: nat): nat
    requires i < 2
  {
    (n + 1 - i) / 2
  }

  /** The job before the last one of a slot, if there is one. */
  function Previous(job: nat): Option<nat> {
    if job >= 2 then Some(job - 2) else None
  }

  predicate SlotInv(slot: Slot, i: nat, jobs: nat)
    requires i < 2
  {
    && slot.dispatched == Share(jobs, i)
    && slot.dispatched == slot.completed + (if slot.detect then 1 else 0)
    && (slot.dispatched > 0 ==> slot.job == 2 * (slot.dispatched - 1) + i)
    && (!slot.worker.Polling? ==> slot.detect && slot.worker.job == slot.job)
    && slot.result == (
         if slot.dispatched == 0 then None
         else if slot.detect && !slot.worker.Copied? then Previous(slot.job)
         else Some(slot.job))
  }

  /** The slot the last of `n` jobs went to, -1 before the first. */
  function LastSlot(n: nat): int {
    if n == 0 then -1 else (n - 1) % 2
  }

  predicate Inv(s: State) {
    && SlotInv(At(s, 0), 0, s.jobs) && SlotInv(At(s, 1), 1, s.jobs)
    && !s.errorPrinted
    && match s.dispatcher
       case Outside => s.lastUse == LastSlot(s.jobs) && (s.jobs > 0 ==> s.useDeepRes == s.lastUse)
       case Testing(f) => s.lastUse == LastSlot(s.jobs) && f == s.jobs % 2
       case Granted(f) => s.lastUse == LastSlot(s.jobs) && f == s.jobs % 2 && !At(s, f).detect
       case Marked(f) => s.jobs > 0 && s.lastUse == LastSlot(s.jobs - 1) && f == (s.jobs - 1) % 2
  }

  lemma StepKeepsInv(s: State, step: Step)
    requires Inv(s) && Enabled(s, step)
    ensures Inv(Do(s, step))
  {
    match step
    case Mark => MarkKeepsInv(s);
    case Select => SelectKeepsInv(s);
    case Enter => EnterKeepsInv(s);
    case TestFlag =>
    case Poll(i) => WorkerKeepsInv(s, step);
    case Copy(i) => WorkerKeepsInv(s, step);
    case Clear(i) => WorkerKeepsInv(s, step);
  }

  lemma EnterKeepsInv(s: State)
    requires Inv(s) && Enabled(s, Enter)
    ensures Inv(Do(s, Enter))
  {
  }

  lemma SelectKeepsInv(s: State)
    requires Inv(s) && Enabled(s, Select)
    ensures Inv(Do(s, Select))
  {
  }

  lemma MarkKeepsInv(s: State)
    requires Inv(s) && Enabled(s, Mark)
    ensures Inv(Do(s, Mark))
  {
    hide SlotInv;
    SlotMarked(At(s, s.dispatcher.flag), s.dispatcher.flag, s.jobs);
    SlotPassed(At(s, 1 - s.dispatcher.flag), 1 - s.dispatcher.flag, s.jobs);
  }

  lemma SlotMarked(slot: Slot, i: nat, n: nat)
    requires i < 2 && SlotInv(slot, i, n) && !slot.detect && n % 2 == i
    ensures SlotInv(slot.(detect := true, job := n, dispatched := slot.dispatched + 1), i, n + 1)
  {
    hide Share;
    ShareGrows(n, i);
  }

  lemma SlotPassed(slot: Slot, i: nat, n: nat)
    requires i < 2 && SlotInv(slot, i, n) && n % 2 != i
    ensures SlotInv(slot, i, n + 1)
  {
    hide Share;
    ShareGrows(n, i);
  }

  lemma ShareGrows(n: nat, i: nat)
    requires i < 2
    ensures Share(n + 1, i) == Share(n, i) + if n % 2 == i then 1 else 0
    ensures n % 2 == i ==> n == 2 * Share(n, i) + i
  {
  }

  lemma WorkerKeepsInv(s: State, step: Step)
    requires Inv(s) && Enabled(s, step) && (step.Poll? || step.Copy? || step.Clear?)
    ensures Inv(Do(s, step))
  {
    hide Share, LastSlot;
  }

  // ----- runs

  /** A run of the three, in any interleaving. */
  ghost predicate Run(run: nat -> State) {
    run(0) == INITIAL && forall k: nat :: Follows(run(k), run(k + 1))
  }

  ghost predicate Follows(s: State, t: State) {
    exists step :: Enabled(s, step) && t == Do(s, step)
  }

  lemma InitialInv()
    ensures Inv(INITIAL)
  {
  }

  /** Every state of every interleaving satisfies the invariant. */
  lemma {:induction false} RunKeepsInv(run: nat -> State, k: nat)
    requires Run(run)
    ensures Inv(run(k))
  {
    hide Do, Enabled, Inv;
    if k == 0 {
      InitialInv();
    } else {
      RunKeepsInv(run, k - 1);
      assert Follows(run(k - 1), run(k - 1 + 1));
      var step :| Enabled(run(k - 1), step) && run(k) == Do(run(k - 1), step);
      StepKeepsInv(run(k - 1), step);
    }
  }

  /** Job k goes to slot k mod 2, and only when that slot's flag is EMPTY. */
  lemma DispatchFindsEmpty(run: nat -> State, k: nat)
    requires Run(run) && Enabled(run(k), Mark)
    ensures var s := run(k); s.dispatcher.flag == s.jobs % 2 && !At(s, s.dispatcher.flag).detect
  {
    RunKeepsInv(run, k);
  }

  /**
    One slot is enough: with the flag of its turn EMPTY the dispatcher gets a job through on its own,
    while the other slot is left to its worker, whatever that is doing.
   */
  lemma DispatchAlone(run: nat -> State, k: nat)
    requires Run(run) && run(k).dispatcher.Outside? && !At(run(k), run(k).jobs % 2).detect
    ensures var s := Do(run(k), Enter); Enabled(s, TestFlag) && Enabled(Do(s, TestFlag), Mark)
    ensures var s := run(k); var i := s.jobs % 2; var t := Do(Do(Do(s, Enter), TestFlag), Mark);
            && t.dispatcher == Marked(i) && t.jobs == s.jobs + 1
            && At(t, i).detect && At(t, i).job == s.jobs && At(t, 1 - i) == At(s, 1 - i)
  {
    hide SlotInv;
    RunKeepsInv(run, k);
  }

  /** Dispatches to a slot are its completions and the job its flag stands for; at most two are outstanding. */
  lemma JobsAccounted(run: nat -> State, k: nat, i: nat)
    requires Run(run) && i < 2
    ensures var s := run(k);
            && At(s, i).dispatched == At(s, i).completed + (if At(s, i).detect then 1 else 0)
            && At(s, 0).dispatched + At(s, 1).dispatched == s.jobs
            && s.jobs <= At(s, 0).completed + At(s, 1).completed + 2
  {
    RunKeepsInv(run, k);
  }

  lemma SlotSees(slot: Slot, i: nat, n: nat)
    requires i < 2 && SlotInv(slot, i, n + 1) && n % 2 == i
    ensures slot.result == Previous(n) || slot.result == Some(n)
  {
    hide Share;
    ShareGrows(n, i);
  }

  /**
    Behind the dispatch of job n, the buffer that backprocDetectModel reads holds the result of
    job n-2 (nothing, if there was none), or already that of job n: never that of job n-1.
   */
  lemma ReaderSees(run: nat -> State, k: nat)
    requires Run(run) && run(k).dispatcher.Outside? && run(k).jobs > 0
    ensures var s := run(k); var n := s.jobs - 1; var seen := At(s, s.useDeepRes).result;
            s.useDeepRes == n % 2 && (seen == Previous(n) || seen == Some(n)) && seen != Some(n - 1)
  {
    hide SlotInv;
    RunKeepsInv(run, k);
    var s := run(k);
    SlotSees(At(s, s.useDeepRes), s.useDeepRes, s.jobs - 1);
  }

  /** The error message of schedule_deeplearning is never printed. */
  lemma NoErrorPrinted(run: nat -> State, k: nat)
    requires Run(run)
    ensures !run(k).errorPrinted
  {
    RunKeepsInv(run, k);
  }

  /** Some actor can always make a step that changes the state. */
  lemma NeverStuck(run: nat -> State, k: nat)
    requires Run(run)
    ensures exists step :: Enabled(run(k), step) && Do(run(k), step) != run(k)
  {
    RunKeepsInv(run, k);
    var s := run(k);
    var step := match s.dispatcher
      case Outside => Enter
      case Granted(_) => Mark
      case Marked(_) => Select
      case Testing(f) =>
        if !At(s, f).detect then TestFlag
        else
          match At(s, f).worker
          case Polling => Poll(f)
          case Computing(_) => Copy(f)
          case Copied(_) => Clear(f);
    assert Enabled(s, step) && Do(s, step) != s;
  }

  /** The steps the worker of a slot still has to make before its flag is EMPTY. */
  function StepsLeft(slot: Slot): nat {
    if !slot.detect then 0
    else match slot.worker case Polling => 3 case Computing(_) => 2 case Copied(_) => 1
  }

  predicate WorkerStep(step: Step, i: nat) {
    (step.Poll? || step.Copy? || step.Clear?) && step.i == i
  }

  /**
    Waiting is bounded: while the dispatcher tests the flag of a slot, no step takes the slot's
    worker back, each step of the worker brings it forward, and three of them clear the flag.
   */
  lemma WaitIsBounded(s: State, step: Step)
    requires Inv(s) && s.dispatcher.Testing? && Enabled(s, step)
    ensures var f := s.dispatcher.flag; var t := Do(s, step);
            && StepsLeft(At(s, f)) <= 3
            && StepsLeft(At(t, f)) <= StepsLeft(At(s, f))
            && (WorkerStep(step, f) && At(s, f).detect ==> StepsLeft(At(t, f)) == StepsLeft(At(s, f)) - 1)
            && (StepsLeft(At(s, f)) == 0 <==> Do(s, TestFlag).dispatcher == Granted(f))
  {
  }
}
