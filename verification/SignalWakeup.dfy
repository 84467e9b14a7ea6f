/**
 The protocol that makes the PendSV interrupt run whenever a queued signal may be
 delivered (src/signal.c:83-105, 170-180, 335-375, 558-572), as a machine whose
 steps are the accesses that an interrupt can come between.

 sigqueue_info and signal_dequeue run with interrupts off and are one step each.
 sigprocmask does not: its load, its store and its raising of PendSV are separate
 steps, and any number of calls of it may be under way, one interrupting another.
 */
module SignalWakeup {
  import SignalQueue

  type Mask = set<nat>

  /** How far a call of sigprocmask is. */
  datatype Progress =
    | LoadedToBlock(loaded: Mask, sigs: Mask)
    | LoadedToUnblock(loaded: Mask, sigs: Mask)
    | ToRaise

  /** How far pend_sv_handler is: about to read procmask, about to look for a signal
      outside the mask it read, or delivering one. */
  datatype Handler = Idle | AtTop | Checking(mask: Mask) | Acting

  datatype State = State(queue: seq<nat>, mask: Mask, pend: bool, handler: Handler, calls: map<nat, Progress>)

  datatype Step =
    | Enqueue(sig: nat)                      // sigqueue_info, from anywhere
    | Load(id: nat, block: bool, sigs: Mask) // SIG_BLOCK or SIG_UNBLOCK: procmask is read
    | Store(id: nat)                         // ... and the new value is written
    | SetMask(id: nat, sigs: Mask)           // SIG_SETMASK: procmask is written
    | Raise(id: nat)                         // SIG_UNBLOCK or SIG_SETMASK: PENDSVSET
    | Enter                                  // PendSV is taken, which clears its pend bit
    | ReadMask                               // set = ~procmask
    | Dequeue                                // signal_dequeue, in the handler
    | Acted                                  // signal_act returns
    | Wait(index: nat)                       // signal_dequeue, in sigtimedwait

  function Deliverable(q: seq<nat>, mask: Mask, from: nat): (i: nat)
    requires from <= |q|
    ensures from <= i <= |q|
    ensures i < |q| ==> q[i] !in mask
    ensures forall j | from <= j < i :: q[j] in mask
    decreases |q| - from
  {
    if from == |q| || q[from] !in mask then from else Deliverable(q, mask, from + 1)
  }

  predicate Enabled(s: State, t: Step) {
    match t
    case Enqueue(_) => true
    case Load(id, _, _) => id !in s.calls
    case Store(id) => id in s.calls && !s.calls[id].ToRaise?
    case SetMask(id, _) => id !in s.calls
    case Raise(id) => id in s.calls && s.calls[id].ToRaise?
    case Enter => s.pend && s.handler == Idle
    case ReadMask => s.handler == AtTop
    case Dequeue => s.handler.Checking?
    case Acted => s.handler == Acting
    case Wait(i) => i < |s.queue|
  }

  function Next(s: State, t: Step): State
    requires Enabled(s, t)
  {
    match t
    case Enqueue(sig) =>
      if |s.queue| == SignalQueue.SIGQUEUE_MAX then s else s.(queue := s.queue + [sig], pend := true)
    case Load(id, block, sigs) =>
      s.(calls := s.calls[id := if block then LoadedToBlock(s.mask, sigs) else LoadedToUnblock(s.mask, sigs)])
    case Store(id) =>
      (match s.calls[id]
       case LoadedToBlock(loaded, sigs) => s.(mask := loaded + sigs, calls := s.calls - {id})
       case LoadedToUnblock(loaded, sigs) => s.(mask := loaded - sigs, calls := s.calls[id := ToRaise])
       case ToRaise => s)
    case SetMask(id, sigs) => s.(mask := sigs, calls := s.calls[id := ToRaise])
    case Raise(id) => s.(pend := true, calls := s.calls - {id})
    case Enter => s.(pend := false, handler := AtTop)
    case ReadMask => s.(handler := Checking(s.mask))
    case Dequeue =>
      var i := Deliverable(s.queue, s.handler.mask, 0);
      if i == |s.queue| then s.(handler := Idle) else s.(handler := Acting, queue := SignalQueue.Without(s.queue, i))
    case Acted => s.(handler := AtTop)
    case Wait(i) => s.(queue := SignalQueue.Without(s.queue, i))
  }

  /** Something will look for this signal: PendSV is pending, the handler has yet to make
      a check that would find it, or a call is about to raise PendSV. */
  ghost predicate Covered(s: State, sig: nat) {
    || s.pend
    || s.handler == AtTop || s.handler == Acting
    || (s.handler.Checking? && sig !in s.handler.mask)
    || exists id :: id in s.calls && s.calls[id] == ToRaise
  }

  /** No lost wake-up: every queued signal that is not blocked is covered. */
  ghost predicate Awake(s: State) {
    forall i | 0 <= i < |s.queue| && s.queue[i] !in s.mask :: Covered(s, s.queue[i])
  }

  /** If it is a SIG_BLOCK store, it unblocks nothing. */
  predicate Clean(s: State, t: Step)
    requires Enabled(s, t)
  {
    t.Store? && s.calls[t.id].LoadedToBlock? ==> s.mask <= s.calls[t.id].loaded + s.calls[t.id].sigs
  }

  /** Every step keeps every deliverable signal covered, as long as SIG_BLOCK stores are clean. */
  lemma StepKeepsAwake(s: State, t: Step)
    requires Awake(s) && Enabled(s, t) && Clean(s, t)
    ensures Awake(Next(s, t))
  {
    var s' := Next(s, t);
    forall i | 0 <= i < |s'.queue| && s'.queue[i] !in s'.mask ensures Covered(s', s'.queue[i]) {
      var sig := s'.queue[i];
      if t.SetMask? || (t.Store? && s.calls[t.id].LoadedToUnblock?) {
        assert s'.calls[t.id] == ToRaise;
      } else if s'.pend || s'.handler == AtTop || s'.handler == Acting {
      } else {
        assert sig in s.queue && sig !in s.mask && Covered(s, sig);
        if id :| id in s.calls && s.calls[id] == ToRaise {
          assert s'.calls[id] == ToRaise;
        }
      }
    }
  }

  // ---- runs ----

  /** The steps can be taken one after the other from s, every SIG_BLOCK store clean. */
  ghost predicate CleanRun(s: State, steps: seq<Step>)
    decreases steps
  {
    steps != [] ==> Enabled(s, steps[0]) && Clean(s, steps[0]) && CleanRun(Next(s, steps[0]), steps[1..])
  }

  function After(s: State, steps: seq<Step>): State
    requires CleanRun(s, steps)
    decreases steps
  {
    if steps == [] then s else After(Next(s, steps[0]), steps[1..])
  }

  /** Step after step. */
  lemma {:induction false} AfterConcat(s: State, steps: seq<Step>, t: Step)
    requires CleanRun(s, steps) && Enabled(After(s, steps), t) && Clean(After(s, steps), t)
    ensures CleanRun(s, steps + [t]) && After(s, steps + [t]) == Next(After(s, steps), t)
    decreases steps
  {
    if steps == [] {
      assert CleanRun(Next(s, t), []) && After(Next(s, t), []) == Next(s, t);
    } else {
      AfterConcat(Next(s, steps[0]), steps[1..], t);
      assert (steps + [t])[1..] == steps[1..] + [t];
    }
  }

  /** A signal is queued behind the others, which makes PendSV pending; or it is dropped, exactly
      when there are 32. */
  lemma EnqueueExactly(s: State, sig: nat)
    ensures var s' := Next(s, Enqueue(sig));
            if |s.queue| == 32 then s' == s else s'.queue == s.queue + [sig] && s'.pend && s'.mask == s.mask
  {
  }

  const INITIAL := State([], {}, false, Idle, map[])

  /** In every state of every such run no wake-up is lost. */
  lemma {:induction false} RunKeepsAwake(s: State, steps: seq<Step>)
    requires Awake(s) && CleanRun(s, steps)
    ensures Awake(After(s, steps))
    decreases steps
  {
    if steps != [] {
      StepKeepsAwake(s, steps[0]);
      RunKeepsAwake(Next(s, steps[0]), steps[1..]);
    }
  }

  /** So once nothing is pending or under way, every signal still queued is blocked. */
  lemma QuietMeansBlocked(steps: seq<Step>)
    requires CleanRun(INITIAL, steps)
    ensures var s := After(INITIAL, steps);
            !s.pend && s.handler == Idle && s.calls == map[] ==> forall i | 0 <= i < |s.queue| :: s.queue[i] in s.mask
  {
    RunKeepsAwake(INITIAL, steps);
  }

  /** None of the steps is this one, and none changes the mask. */
  ghost predicate LeavesMask(s: State, own: Step, steps: seq<Step>)
    requires CleanRun(s, steps)
    decreases steps
  {
    steps != [] ==>
      var s' := Next(s, steps[0]);
      steps[0] != own && s'.mask == s.mask && LeavesMask(s', own, steps[1..])
  }

  lemma {:induction false} StillLoaded(s: State, id: nat, steps: seq<Step>)
    requires CleanRun(s, steps) && LeavesMask(s, Store(id), steps)
    requires id in s.calls && !s.calls[id].ToRaise?
    ensures var s' := After(s, steps); s'.mask == s.mask && id in s'.calls && s'.calls[id] == s.calls[id]
    decreases steps
  {
    if steps != [] {
      StillLoaded(Next(s, steps[0]), id, steps[1..]);
    }
  }

  /** Whatever else goes on between its load and its store, a call that blocks signals is clean
      as long as no other one changes the mask. */
  lemma UninterruptedIsClean(s: State, id: nat, sigs: Mask, steps: seq<Step>)
    requires id !in s.calls
    requires var s1 := Next(s, Load(id, true, sigs)); CleanRun(s1, steps) && LeavesMask(s1, Store(id), steps)
    ensures var s2 := After(Next(s, Load(id, true, sigs)), steps); Enabled(s2, Store(id)) && Clean(s2, Store(id))
  {
    StillLoaded(Next(s, Load(id, true, sigs)), id, steps);
  }

  /** Under the same condition each call does to the mask what its name says, and the calls that
      may unblock a signal are about to raise PendSV, which makes it pending. */
  lemma MaskCallsExactly(s: State, id: nat, block: bool, sigs: Mask, steps: seq<Step>)
    requires id !in s.calls
    requires var s1 := Next(s, Load(id, block, sigs)); CleanRun(s1, steps) && LeavesMask(s1, Store(id), steps)
    ensures var s2 := After(Next(s, Load(id, block, sigs)), steps);
            && Enabled(s2, Store(id))
            && Next(s2, Store(id)).mask == (if block then s.mask + sigs else s.mask - sigs)
            && (!block ==> Enabled(Next(s2, Store(id)), Raise(id)) && Next(Next(s2, Store(id)), Raise(id)).pend)
    ensures var s2 := Next(s, SetMask(id, sigs));
            s2.mask == sigs && Enabled(s2, Raise(id)) && Next(s2, Raise(id)).pend
  {
    StillLoaded(Next(s, Load(id, block, sigs)), id, steps);
  }

  // ---- what the handler does ----

  lemma {:induction false} StillChecking(s: State, steps: seq<Step>)
    requires CleanRun(s, steps) && LeavesMask(s, Dequeue, steps) && s.handler == Checking(s.mask)
    ensures After(s, steps).handler == Checking(After(s, steps).mask)
    decreases steps
  {
    if steps != [] {
      StillChecking(Next(s, steps[0]), steps[1..]);
    }
  }

  /** Whatever is queued between its reading of the mask and its look at the queue, the handler
      takes the oldest signal that is not blocked then, and returns exactly when there is none, as
      long as no call changes the mask. */
  lemma HandlerTakesUnblocked(s: State, steps: seq<Step>)
    requires s.handler == AtTop
    requires CleanRun(Next(s, ReadMask), steps) && LeavesMask(Next(s, ReadMask), Dequeue, steps)
    ensures var s1 := After(Next(s, ReadMask), steps);
            && Enabled(s1, Dequeue)
            && var s2 := Next(s1, Dequeue);
               if forall i | 0 <= i < |s1.queue| :: s1.queue[i] in s1.mask
               then s2 == s1.(handler := Idle)
               else exists i ::
                 && 0 <= i < |s1.queue| && s1.queue[i] !in s1.mask && (forall j | 0 <= j < i :: s1.queue[j] in s1.mask)
                 && s2 == s1.(handler := Acting, queue := s1.queue[..i] + s1.queue[i + 1..])
  {
    StillChecking(Next(s, ReadMask), steps);
  }

  // ---- where the code loses a wake-up ----

  /** In any state whatever, a SIG_BLOCK store keeps all wake-ups exactly when each queued
      signal that it unblocks, one blocked after the load and outside its set, is covered. */
  lemma TornBlockExactly(s: State, id: nat)
    requires Awake(s) && id in s.calls && s.calls[id].LoadedToBlock?
    ensures Awake(Next(s, Store(id))) <==>
            forall i | 0 <= i < |s.queue| && s.queue[i] in s.mask :: s.queue[i] !in s.calls[id].loaded + s.calls[id].sigs ==> Covered(s, s.queue[i])
  {
    var s' := Next(s, Store(id));
    forall sig ensures Covered(s', sig) <==> Covered(s, sig) {
      if other :| other in s.calls && s.calls[other] == ToRaise {
        assert s'.calls[other] == ToRaise;
      }
      if other :| other in s'.calls && s'.calls[other] == ToRaise {
        assert s.calls[other] == ToRaise;
      }
    }
  }

  /** With nothing going on besides such calls, it loses one as soon as there is such a signal. */
  lemma TornBlockIdle(s: State, id: nat)
    requires Awake(s) && id in s.calls && s.calls[id].LoadedToBlock?
    requires !s.pend && s.handler == Idle && forall other | other in s.calls :: s.calls[other] != ToRaise
    ensures Awake(Next(s, Store(id))) <==>
            forall i | 0 <= i < |s.queue| && s.queue[i] in s.mask :: s.queue[i] in s.calls[id].loaded + s.calls[id].sigs
  {
    TornBlockExactly(s, id);
  }

  /**
   Such a state can be reached: SIG_BLOCK of signal 2 is interrupted after its load by a
   handler that blocks signal 1, signal 1 arrives and stays queued, and the store then
   unblocks it without raising PendSV.
   */
  lemma TornBlockReachable()
    ensures var s := Interrupted(INITIAL);
            && !Awake(Next(s, Store(0)))
            && Enabled(s, Store(0)) && !Clean(s, Store(0))
  {
    var s := Next(Interrupted(INITIAL), Store(0));
    assert s.queue[0] == 1 && 1 !in s.mask;
    assert !Covered(s, s.queue[0]);
  }

  /** Load(0, block 2); Load(1, block 1); Store(1); Enqueue(1); Enter; ReadMask; Dequeue. */
  function Interrupted(s0: State): (s: State)
    requires s0 == INITIAL
    ensures s == State([1], {1}, false, Idle, map[0 := LoadedToBlock({}, {2})])
  {
    var s1 := Next(s0, Load(0, true, {2}));
    var s2 := Next(s1, Load(1, true, {1}));
    var s3 := Next(s2, Store(1));
    assert s3.calls == map[0 := LoadedToBlock({}, {2})] && s3.mask == {1};
    var s4 := Next(s3, Enqueue(1));
    var s5 := Next(s4, Enter);
    var s6 := Next(s5, ReadMask);
    Next(s6, Dequeue)
  }
}
