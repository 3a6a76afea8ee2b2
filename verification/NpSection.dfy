/**
  enter_np and exit_np of src/kernel_iface.c: a nesting counter and a request bit shared with
  the kernel, as a state machine over atomic steps of a thread and of the kernel.

  Assumed of the kernel, whose side is not part of this model: it raises `preempt` only when it
  sees flag > 0, and clears it only when the thread enters the scheduler. The control page is
  mapped, and increments and decrements of `flag` are atomic.
 */
module NpSection {

  /** Where the thread stands: outside of exit_np, or before its next step inside. */
  datatype Pc = Outside | AtFlagTest | AtDecrement | AtBarrier | AtPreemptTest | AtYield

  datatype State = State(flag: nat, preempt: bool, pc: Pc)

  datatype Event =
    | Enter           // enter_np, a single increment
    | CallExit        // exit_np is called
    | SeeZero         // flag is 0: return
    | SeeOpen         // flag is not 0
    | DecrementInner  // flag stays above 0: return
    | DecrementOuter  // flag becomes 0
    | Barrier         // __sync_synchronize
    | SeeNoRequest    // preempt is 0: return
    | SeeRequest      // preempt is 1
    | Yield           // sched_yield, then return
    | KernelRequest   // the kernel raises preempt
    | KernelSchedule  // the thread enters the scheduler for a reason of its own

  const INIT := State(0, false, Outside)

  predicate Enabled(s: State, e: Event) {
    match e
    case Enter => s.pc == Outside
    case CallExit => s.pc == Outside
    case SeeZero => s.pc == AtFlagTest && s.flag == 0
    case SeeOpen => s.pc == AtFlagTest && s.flag > 0
    case DecrementInner => s.pc == AtDecrement && s.flag > 1
    case DecrementOuter => s.pc == AtDecrement && s.flag == 1
    case Barrier => s.pc == AtBarrier
    case SeeNoRequest => s.pc == AtPreemptTest && !s.preempt
    case SeeRequest => s.pc == AtPreemptTest && s.preempt
    case Yield => s.pc == AtYield
    case KernelRequest => s.flag > 0
    case KernelSchedule => true
  }

  function Next(s: State, e: Event): State
    requires Enabled(s, e)
  {
    match e
    case Enter => s.(flag := s.flag + 1)
    case CallExit => s.(pc := AtFlagTest)
    case SeeZero => s.(pc := Outside)
    case SeeOpen => s.(pc := AtDecrement)
    case DecrementInner => s.(flag := s.flag - 1, pc := Outside)
    case DecrementOuter => s.(flag := 0, pc := AtBarrier)
    case Barrier => s.(pc := AtPreemptTest)
    case SeeNoRequest => s.(pc := Outside)
    case SeeRequest => s.(pc := AtYield)
    case Yield => s.(preempt := false, pc := Outside)
    case KernelRequest => s.(preempt := true)
    case KernelSchedule => s.(preempt := false)
  }

  datatype Outcome = Impossible | At(state: State)

  /** The state a trace leads to, if it can happen. */
  ghost function Exec(trace: seq<Event>): Outcome {
    if trace == [] then At(INIT) else StepFrom(Exec(trace[..|trace| - 1]), trace[|trace| - 1])
  }

  ghost function StepFrom(o: Outcome, e: Event): Outcome {
    if o.At? && Enabled(o.state, e) then At(Next(o.state, e)) else Impossible
  }

  ghost predicate IsRun(trace: seq<Event>) {
    Exec(trace).At?
  }

  ghost function After(trace: seq<Event>): State
    requires IsRun(trace)
  {
    Exec(trace).state
  }

  // ----- the reference: what callers and the kernel mean by the trace -----

  /** The number of open sections according to the calls alone; unmatched exits are ignored. */
  ghost function Depth(trace: seq<Event>): nat {
    if trace == [] then 0 else DepthAfter(Depth(trace[..|trace| - 1]), trace[|trace| - 1])
  }

  function DepthAfter(d: nat, e: Event): nat {
    match e
    case Enter => d + 1
    case CallExit => if d == 0 then 0 else d - 1
    case _ => d
  }

  predicate EntersScheduler(e: Event) {
    e == Yield || e == KernelSchedule
  }

  /** The last steps of an outermost exit_np. */
  predicate ReturnsFromOutermost(e: Event) {
    e == SeeNoRequest || e == Yield
  }

  /** A preemption has been requested and the thread has not entered the scheduler since. */
  ghost predicate Pending(trace: seq<Event>) {
    exists i :: 0 <= i < |trace| && trace[i] == KernelRequest
      && forall k :: i < k < |trace| ==> !EntersScheduler(trace[k])
  }

  lemma RunPrefix(trace: seq<Event>, m: nat)
    requires IsRun(trace) && m <= |trace|
    ensures IsRun(trace[..m])
    decreases |trace|
  {
    if m < |trace| {
      RunPrefix(trace[..|trace| - 1], m);
      assert trace[..|trace| - 1][..m] == trace[..m];
    } else {
      assert trace[..m] == trace;
    }
  }

  lemma RunStep(trace: seq<Event>, i: nat)
    requires IsRun(trace) && i < |trace|
    ensures IsRun(trace[..i]) && IsRun(trace[..i + 1]) && Enabled(After(trace[..i]), trace[i])
    ensures After(trace[..i + 1]) == Next(After(trace[..i]), trace[i])
  {
    RunPrefix(trace, i);
    RunPrefix(trace, i + 1);
    assert trace[..i + 1][..i] == trace[..i];
  }

  /** In every run: between calls flag is the nesting depth, and a call of exit_np that has not
      reached its decrement yet is the only difference. */
  lemma {:induction false} FlagIsDepth(trace: seq<Event>)
    requires IsRun(trace)
    ensures var s := After(trace);
            match s.pc
            case AtFlagTest => Depth(trace) == if s.flag == 0 then 0 else s.flag - 1
            case AtDecrement => s.flag == Depth(trace) + 1
            case _ => s.flag == Depth(trace)
    ensures After(trace).pc in {AtBarrier, AtPreemptTest, AtYield} ==> After(trace).flag == 0
    decreases |trace|
  {
    if trace != [] {
      FlagIsDepth(trace[..|trace| - 1]);
    }
  }

  /** The request bit says exactly that a request is pending; outside of any section none is. */
  lemma {:induction false} PreemptIsPending(trace: seq<Event>)
    requires IsRun(trace)
    ensures After(trace).preempt <==> Pending(trace)
    ensures After(trace).pc == Outside && After(trace).flag == 0 ==> !After(trace).preempt
    ensures After(trace).pc == AtFlagTest && After(trace).flag == 0 ==> !After(trace).preempt
    decreases |trace|
  {
    if trace != [] {
      var m := |trace| - 1;
      PreemptIsPending(trace[..m]);
      PendingStep(trace[..m], trace[m]);
      assert trace == trace[..m] + [trace[m]];
    }
  }

  lemma PendingStep(trace: seq<Event>, e: Event)
    ensures Pending(trace + [e]) <==> e == KernelRequest || (Pending(trace) && !EntersScheduler(e))
  {
    var longer := trace + [e];
    assert longer[|trace|] == e;
    if Pending(longer) {
      var i :| 0 <= i < |longer| && longer[i] == KernelRequest
        && forall k :: i < k < |longer| ==> !EntersScheduler(longer[k]);
      if i < |trace| {
        assert trace[i] == KernelRequest;
        assert forall k :: i < k < |trace| ==> longer[k] == trace[k];
      }
    }
    if Pending(trace) && !EntersScheduler(e) {
      var i :| 0 <= i < |trace| && trace[i] == KernelRequest
        && forall k :: i < k < |trace| ==> !EntersScheduler(trace[k]);
      assert longer[i] == KernelRequest;
    }
    if e == KernelRequest {
      assert longer[|trace|] == KernelRequest;
    }
  }

  /** sched_yield is called only when all sections are closed, and only if the kernel has asked
      for a preemption at some time. */
  lemma YieldOnlyWhenClosed(trace: seq<Event>, i: nat)
    requires IsRun(trace) && i < |trace| && trace[i] == Yield
    ensures Depth(trace[..i]) == 0
    ensures IsRun(trace[..i]) && After(trace[..i]).flag == 0
    ensures KernelRequest in trace[..i]
  {
    RunStep(trace, i);
    FlagIsDepth(trace[..i]);
    RequestSeen(trace[..i]);
  }

  lemma {:induction false} RequestSeen(trace: seq<Event>)
    requires IsRun(trace) && (After(trace).preempt || After(trace).pc == AtYield)
    ensures KernelRequest in trace
    decreases |trace|
  {
    var m := |trace| - 1;
    assert trace[..m] + [trace[m]] == trace;
    if trace[m] != KernelRequest {
      RequestSeen(trace[..m]);
    }
  }

  /** ... and only by the very call of exit_np that closed the outermost section. */
  lemma {:induction false} OpenExitClosedOutermost(trace: seq<Event>) returns (j: nat)
    requires IsRun(trace) && After(trace).pc in {AtBarrier, AtPreemptTest, AtYield}
    ensures j < |trace| && trace[j] == DecrementOuter
    ensures forall k :: j < k < |trace| ==> trace[k] != Enter && trace[k] != CallExit
    ensures IsRun(trace[..j]) && After(trace[..j]).flag == 1
    decreases |trace|
  {
    var m := |trace| - 1;
    if trace[m] == DecrementOuter {
      j := m;
    } else {
      j := OpenExitClosedOutermost(trace[..m]);
      assert trace[..m][..j] == trace[..j];
    }
  }

  /** Main result: whenever an outermost exit_np returns, every preemption requested before has
      been served by an entry into the scheduler in the meantime. */
  lemma RequestsAreServed(trace: seq<Event>, i: nat, j: nat)
    requires IsRun(trace) && i < j < |trace|
    requires trace[i] == KernelRequest && ReturnsFromOutermost(trace[j])
    ensures exists k :: i < k <= j && EntersScheduler(trace[k])
  {
    if trace[j] == SeeNoRequest {
      RunStep(trace, j);
      PreemptIsPending(trace[..j]);
      assert trace[..j][i] == KernelRequest;
      var k :| i < k < j && EntersScheduler(trace[..j][k]);
      assert EntersScheduler(trace[k]);
    } else {
      assert EntersScheduler(trace[j]);
    }
  }

  /** So if the kernel does not schedule on its own, exit_np itself yields. */
  lemma ExitYieldsOnRequest(trace: seq<Event>, i: nat, j: nat)
    requires IsRun(trace) && i < j < |trace|
    requires trace[i] == KernelRequest && ReturnsFromOutermost(trace[j])
    requires forall k :: i < k < j ==> !EntersScheduler(trace[k])
    ensures trace[j] == Yield
  {
    RequestsAreServed(trace, i, j);
  }

  // ----- the code, with the kernel stepping in between any two of its steps -----

  /** What the kernel does in a step; while flag is 0 it leaves `preempt` alone on a request. */
  datatype KernelStep = Request | Schedule

  ghost function StepEvents(step: KernelStep, flag: nat): seq<Event> {
    if step == Schedule then [KernelSchedule] else if flag > 0 then [KernelRequest] else []
  }

  ghost function PreemptAfterStep(step: KernelStep, flag: nat, preempt: bool): bool {
    step == Request && (flag > 0 || preempt)
  }

  ghost function KernelEvents(steps: seq<KernelStep>, flag: nat): seq<Event> {
    if steps == [] then []
    else
      var m := |steps| - 1;
      KernelEvents(steps[..m], flag) + StepEvents(steps[m], flag)
  }

  ghost function PreemptAfter(steps: seq<KernelStep>, flag: nat, preempt: bool): bool {
    if steps == [] then preempt
    else
      var m := |steps| - 1;
      PreemptAfterStep(steps[m], flag, PreemptAfter(steps[..m], flag, preempt))
  }

  /** The kernel's steps before each of the thread's steps in exit_np. */
  type Script = nat -> seq<KernelStep>

  /** The trace with the last part of an exit, after it has set flag to 0. */
  ghost function Closed(trace: seq<Event>, preempt: bool, ks: Script): (r: seq<Event>)
    ensures trace <= r && |trace| < |r|
  {
    var tested := trace + KernelEvents(ks(2), 0) + [Barrier] + KernelEvents(ks(3), 0);
    if PreemptAfter(ks(3), 0, PreemptAfter(ks(2), 0, preempt))
    then tested + [SeeRequest] + KernelEvents(ks(4), 0) + [Yield]
    else tested + [SeeNoRequest]
  }

  /** The trace with the part of an exit behind the test of flag. */
  ghost function Left(trace: seq<Event>, flag: nat, preempt: bool, ks: Script): (r: seq<Event>)
    ensures trace <= r && |trace| < |r|
  {
    var open := trace + [SeeOpen] + KernelEvents(ks(1), flag);
    if flag > 1 then open + [DecrementInner]
    else Closed(open + [DecrementOuter], PreemptAfter(ks(1), flag, preempt), ks)
  }

  /** The trace with all of an exit. */
  ghost function Exited(trace: seq<Event>, flag: nat, preempt: bool, ks: Script): (r: seq<Event>)
    ensures trace <= r && |trace| < |r|
  {
    var called := trace + [CallExit] + KernelEvents(ks(0), flag);
    if flag == 0 then called + [SeeZero]
    else Left(called, flag, PreemptAfter(ks(0), flag, preempt), ks)
  }

  /** When the outermost exit yields: a request stands when flag drops to 0, and the kernel does
      not schedule the thread before the test. */
  lemma ExitYieldsIff(trace: seq<Event>, preempt: bool, ks: Script)
    ensures var exited := Exited(trace, 1, preempt, ks);
            var before := ks(0) + ks(1);
            exited[|exited| - 1] == Yield <==>
              && (if before == [] then preempt else before[|before| - 1] == Request)
              && Schedule !in ks(2) && Schedule !in ks(3)
  {
    RequestStands(ks(0), ks(1), preempt);
    ClosedYieldsIff(trace + [CallExit] + KernelEvents(ks(0), 1) + [SeeOpen] + KernelEvents(ks(1), 1) + [DecrementOuter],
                    PreemptAfter(ks(1), 1, PreemptAfter(ks(0), 1, preempt)), ks);
  }

  lemma RequestStands(a: seq<KernelStep>, b: seq<KernelStep>, preempt: bool)
    ensures PreemptAfter(b, 1, PreemptAfter(a, 1, preempt))
         == if a + b == [] then preempt else (a + b)[|a + b| - 1] == Request
  {
    PreemptWhenOpen(a, preempt);
    PreemptWhenOpen(b, PreemptAfter(a, 1, preempt));
  }

  lemma ClosedYieldsIff(trace: seq<Event>, preempt: bool, ks: Script)
    ensures var closed := Closed(trace, preempt, ks);
            closed[|closed| - 1] == Yield <==> preempt && Schedule !in ks(2) && Schedule !in ks(3)
  {
    PreemptWhenClosed(ks(2), preempt);
    PreemptWhenClosed(ks(3), PreemptAfter(ks(2), 0, preempt));
  }

  /** Without any step of the kernel the request bit decides alone. */
  lemma QuietExit(trace: seq<Event>, preempt: bool, ks: Script)
    requires forall i :: ks(i) == []
    ensures Exited(trace, 1, preempt, ks)
         == trace + [CallExit, SeeOpen, DecrementOuter, Barrier]
            + if preempt then [SeeRequest, Yield] else [SeeNoRequest]
  {
    assert KernelEvents([], 0) == KernelEvents([], 1) == [];
  }

  lemma PreemptWhenOpen(steps: seq<KernelStep>, preempt: bool)
    ensures PreemptAfter(steps, 1, preempt) == if steps == [] then preempt else steps[|steps| - 1] == Request
  {
  }

  lemma {:induction false} PreemptWhenClosed(steps: seq<KernelStep>, preempt: bool)
    ensures PreemptAfter(steps, 0, preempt) <==> preempt && Schedule !in steps
    decreases |steps|
  {
    if steps != [] {
      var m := |steps| - 1;
      PreemptWhenClosed(steps[..m], preempt);
      assert steps == steps[..m] + [steps[m]];
    }
  }

  class Thread {
    var flag: nat      // ctrl_page->sched.np.flag
    var preempt: bool  // ctrl_page->sched.np.preempt
    ghost var pc: Pc
    ghost var trace: seq<Event>

    ghost predicate Valid()
      reads this
    {
      IsRun(trace) && After(trace) == State(flag, preempt, pc)
    }

    constructor ()
      ensures Valid() && trace == [] && pc == Outside
    {
      flag, preempt, pc, trace := 0, false, Outside, [];
    }

    /** Adds a step to the trace; the caller then makes it happen. */
    ghost method Record(e: Event)
      requires IsRun(trace) && Enabled(After(trace), e)
      modifies this`trace
      ensures trace == old(trace) + [e] && IsRun(trace) && After(trace) == Next(After(old(trace)), e)
      ensures Depth(trace) == DepthAfter(Depth(old(trace)), e)
    {
      assert (trace + [e])[..|trace|] == trace;
      trace := trace + [e];
    }

    /** The kernel takes the given steps. */
    method Kernel(steps: seq<KernelStep>)
      requires Valid()
      modifies this
      ensures Valid() && flag == old(flag) && pc == old(pc) && Depth(trace) == Depth(old(trace))
      ensures trace == old(trace) + KernelEvents(steps, flag)
      ensures preempt == PreemptAfter(steps, flag, old(preempt))
    {
      if steps != [] {
        var m := |steps| - 1;
        Kernel(steps[..m]);
        KernelTakes(steps[m]);
      }
    }

    method KernelTakes(step: KernelStep)
      requires Valid()
      modifies this
      ensures Valid() && flag == old(flag) && pc == old(pc) && Depth(trace) == Depth(old(trace))
      ensures trace == old(trace) + StepEvents(step, flag)
      ensures preempt == PreemptAfterStep(step, flag, old(preempt))
    {
      match step
      case Request =>
        if flag > 0 {
          Record(KernelRequest);
          preempt := true;
        }
      case Schedule =>
        Record(KernelSchedule);
        preempt := false;
    }

    method EnterNp()
      requires Valid() && pc == Outside
      modifies this
      ensures Valid() && pc == Outside
      ensures trace == old(trace) + [Enter] && flag == Depth(trace) == Depth(old(trace)) + 1
    {
      FlagIsDepth(trace);
      Record(Enter);
      flag := flag + 1;
    }

    /** A step of the thread that changes nothing but its position. */
    ghost method Pass(e: Event, to: Pc)
      requires Valid() && Enabled(State(flag, preempt, pc), e)
      requires Next(State(flag, preempt, pc), e) == State(flag, preempt, to)
      modifies `trace, `pc
      ensures Valid() && pc == to && trace == old(trace) + [e]
      ensures Depth(trace) == DepthAfter(Depth(old(trace)), e)
    {
      Record(e);
      pc := to;
    }

    method ExitNp(ks: Script)
      requires Valid() && pc == Outside
      modifies this
      ensures Valid() && pc == Outside
      ensures trace == Exited(old(trace), old(flag), old(preempt), ks)
      ensures flag == Depth(trace) == if Depth(old(trace)) == 0 then 0 else Depth(old(trace)) - 1
      ensures flag == 0 ==> !preempt && !Pending(trace)
    {
      Pass(CallExit, AtFlagTest);
      Kernel(ks(0));
      if flag == 0 {
        Pass(SeeZero, Outside);
      } else {
        LeaveSection(ks);
      }
      FlagIsDepth(trace);
      PreemptIsPending(trace);
    }

    /** exit_np inside a section. */
    method LeaveSection(ks: Script)
      requires Valid() && pc == AtFlagTest && flag > 0
      modifies this
      ensures Valid() && pc == Outside && flag == old(flag) - 1 && Depth(trace) == Depth(old(trace))
      ensures trace == Left(old(trace), old(flag), old(preempt), ks)
    {
      Pass(SeeOpen, AtDecrement);
      Kernel(ks(1));
      Decrement();
      if flag == 0 {
        CheckDelayedPreemption(ks);
      }
    }

    method Decrement()
      requires Valid() && pc == AtDecrement && flag > 0
      modifies this
      ensures Valid() && flag == old(flag) - 1 && pc == if flag == 0 then AtBarrier else Outside
      ensures trace == old(trace) + [if old(flag) > 1 then DecrementInner else DecrementOuter]
      ensures preempt == old(preempt) && Depth(trace) == Depth(old(trace))
    {
      Record(if flag > 1 then DecrementInner else DecrementOuter);
      flag := flag - 1;
      pc := if flag == 0 then AtBarrier else Outside;
    }

    /** Became preemptive: barrier, test, yield. */
    method CheckDelayedPreemption(ks: Script)
      requires Valid() && pc == AtBarrier && flag == 0
      modifies this
      ensures Valid() && pc == Outside && flag == 0 && Depth(trace) == Depth(old(trace))
      ensures trace == Closed(old(trace), old(preempt), ks)
    {
      Kernel(ks(2));
      Pass(Barrier, AtPreemptTest);
      Kernel(ks(3));
      if preempt {
        Pass(SeeRequest, AtYield);
        Kernel(ks(4));
        SchedYield();
      } else {
        Pass(SeeNoRequest, Outside);
      }
    }

    method SchedYield()
      requires Valid() && pc == AtYield
      modifies this
      ensures Valid() && pc == Outside && flag == old(flag) && !preempt
      ensures trace == old(trace) + [Yield] && Depth(trace) == Depth(old(trace))
    {
      Record(Yield);
      preempt := false;
      pc := Outside;
    }

    method RequestedToPreempt() returns (r: bool)
      requires Valid()
      ensures r <==> Pending(trace)
    {
      PreemptIsPending(trace);
      r := preempt;
    }
  }
}
