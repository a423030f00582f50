/** The reference-counted singleton factory of
    include/base/referencecountedsingletonfactory.h.

    The factory's two operations run under its lock and are atomic; what a pointer does
    before and after them is not, so steps of many pointers interleave. */
module SingletonFactory {

  /** Where one rcsf_ptr stands: GetInstance has returned but instance_ is not assigned yet,
      instance_ is assigned, instance_ is cleared but ReleaseInstance has not run yet. */
  datatype Phase = Empty | Returned | Holding | LettingGo

  datatype Event = Setup | Cleanup

  datatype Step =
    | Create(p: nat)
    | Get(p: nat, setupWorks: bool)      // GetInstance, with the outcome of SetupInstance
    | Keep(p: nat)                       // instance_ = ...
    | LetGo(p: nat)                      // instance_ = NULL
    | PutBack(p: nat, resets: bool)      // ReleaseInstance; CleanupInstance may keep the object
    | Destroy(p: nat)

  /** The factory's members, and which of SetupInstance and CleanupInstance ran. */
  datatype Core = Core(refCount: int, hasInstance: bool, log: seq<Event>)

  datatype State = State(core: Core, phase: map<nat, Phase>)

  const EMPTY := Core(0, false, [])

  const START := State(EMPTY, map[])

  predicate At(s: State, p: nat, ph: Phase) { p in s.phase && s.phase[p] == ph }

  /** GetInstance as the lock sees it. */
  function AfterGet(c: Core, setupWorks: bool): Core {
    if c.refCount == 0 then
      if setupWorks then Core(1, true, c.log + [Setup]) else c
    else c.(refCount := c.refCount + 1)
  }

  /** ReleaseInstance as the lock sees it. */
  function AfterRelease(c: Core, resets: bool): Core {
    if c.refCount == 1
    then Core(0, c.hasInstance && !resets, c.log + [Cleanup])
    else c.(refCount := c.refCount - 1)
  }

  /** One atomic step; a step its pointer is not ready for changes nothing. */
  function Next(s: State, step: Step): State {
    match step
    case Create(p) => if p in s.phase then s else s.(phase := s.phase[p := Empty])
    case Get(p, works) =>
      if !At(s, p, Empty) || (s.core.refCount == 0 && !works) then s
      else State(AfterGet(s.core, works), s.phase[p := Returned])
    case Keep(p) => if At(s, p, Returned) then s.(phase := s.phase[p := Holding]) else s
    case LetGo(p) => if At(s, p, Holding) then s.(phase := s.phase[p := LettingGo]) else s
    case PutBack(p, resets) =>
      if At(s, p, LettingGo) then State(AfterRelease(s.core, resets), s.phase[p := Empty]) else s
    case Destroy(p) => if At(s, p, Empty) then s.(phase := s.phase - {p}) else s
  }

  function Exec(s: State, steps: seq<Step>): State
    decreases |steps|
  {
    if steps == [] then s else Exec(Next(s, steps[0]), steps[1..])
  }

  /** The pointers the count accounts for. */
  function Users(phase: map<nat, Phase>): set<nat> { set p | p in phase && phase[p] != Empty }

  /** Setup first, then the two in turn. */
  predicate Alternates(log: seq<Event>) {
    forall i :: 0 <= i < |log| ==> (log[i] == Setup <==> i % 2 == 0)
  }

  predicate Inv(s: State) {
    s.core.refCount == |Users(s.phase)| && Sound(s.core)
  }

  /** What the factory's own members keep to. */
  predicate Sound(c: Core) {
    && c.refCount >= 0 && (c.refCount > 0 ==> c.hasInstance)
    && Alternates(c.log) && (|c.log| % 2 == if c.refCount > 0 then 1 else 0)
  }

  lemma UsersGain(phase: map<nat, Phase>, p: nat, ph: Phase)
    requires p in phase && phase[p] == Empty && ph != Empty
    ensures |Users(phase[p := ph])| == |Users(phase)| + 1
  {
    assert Users(phase[p := ph]) == Users(phase) + {p};
  }

  lemma UsersLose(phase: map<nat, Phase>, p: nat)
    requires p in phase && phase[p] != Empty
    ensures |Users(phase[p := Empty])| == |Users(phase)| - 1 && |Users(phase)| > 0
  {
    assert Users(phase) == Users(phase[p := Empty]) + {p};
  }

  lemma StepKeepsInv(s: State, step: Step)
    requires Inv(s)
    ensures Inv(Next(s, step))
  {
    var t := Next(s, step);
    match step
    case Create(p) => assert Users(t.phase) == Users(s.phase);
    case Get(p, _) => if At(s, p, Empty) { UsersGain(s.phase, p, Returned); }
    case Keep(p) => assert Users(t.phase) == Users(s.phase);
    case LetGo(p) => assert Users(t.phase) == Users(s.phase);
    case PutBack(p, _) => if At(s, p, LettingGo) { UsersLose(s.phase, p); }
    case Destroy(p) => assert Users(t.phase) == Users(s.phase);
  }

  lemma {:induction false} RunKeepsInv(s: State, steps: seq<Step>)
    requires Inv(s)
    ensures Inv(Exec(s, steps))
    decreases |steps|
  {
    if steps != [] {
      StepKeepsInv(s, steps[0]);
      RunKeepsInv(Next(s, steps[0]), steps[1..]);
    }
  }

  /** Over every interleaving: the count is the number of pointers with a share in the
      instance, setups and cleanups alternate, the instance exists while any pointer is
      valid, the ASSERTs of ReleaseInstance hold whenever it is about to run, and the one
      in the factory's destructor holds exactly when nobody has a share. */
  lemma EveryInterleaving(steps: seq<Step>)
    ensures var s := Exec(START, steps);
      && s.core.refCount == |Users(s.phase)|
      && Alternates(s.core.log)
      && (forall p :: At(s, p, Holding) ==> s.core.hasInstance)
      && (forall p :: At(s, p, LettingGo) ==> s.core.refCount > 0 && s.core.hasInstance)
      && (s.core.refCount == 0 <==> forall p :: p in s.phase ==> s.phase[p] == Empty)
  {
    assert Users(map[]) == {};
    RunKeepsInv(START, steps);
    var s := Exec(START, steps);
    forall p | p in s.phase && s.phase[p] != Empty ensures s.core.refCount > 0 {
      UsersLose(s.phase, p);
    }
    if s.core.refCount > 0 {
      var p :| p in Users(s.phase);
    }
  }

  // ---- what a pointer gets, whatever the others do ----

  /** Nobody but p has a share. */
  ghost predicate Alone(s: State, p: nat) { forall q :: q in s.phase && q != p ==> s.phase[q] == Empty }

  lemma {:induction false} OthersKeepPhase(s: State, steps: seq<Step>, p: nat)
    requires p in s.phase && forall i :: 0 <= i < |steps| ==> steps[i].p != p
    ensures var t := Exec(s, steps); p in t.phase && t.phase[p] == s.phase[p]
    decreases |steps|
  {
    if steps != [] {
      assert forall i :: 0 <= i < |steps[1..]| ==> steps[1..][i] == steps[i + 1];
      OthersKeepPhase(Next(s, steps[0]), steps[1..], p);
    }
  }

  lemma {:induction false} ExecSnoc(s: State, steps: seq<Step>, last: Step)
    ensures Exec(s, steps + [last]) == Next(Exec(s, steps), last)
    decreases |steps|
  {
    if steps == [] {
      assert steps + [last] == [last] && [last][1..] == [];
    } else {
      assert (steps + [last])[1..] == steps[1..] + [last];
      ExecSnoc(Next(s, steps[0]), steps[1..], last);
    }
  }

  lemma UsersAlone(s: State, p: nat)
    requires Inv(s) && p in s.phase
    ensures At(s, p, Empty) ==> (s.core.refCount == 0 <==> Alone(s, p))
    ensures !At(s, p, Empty) ==> (s.core.refCount == 1 <==> Alone(s, p))
  {
    var us := Users(s.phase);
    if Alone(s, p) {
      assert us == if At(s, p, Empty) then {} else {p};
    } else {
      var q :| q in s.phase && q != p && s.phase[q] != Empty;
      if At(s, p, Empty) { assert us == (us - {q}) + {q}; } else { assert us == (us - {p, q}) + {p, q}; }
    }
  }

  /** After every interleaving and with any steps of other pointers before instance_ is
      assigned: Acquire makes a pointer valid exactly when somebody has a share or setup works,
      and it sets up exactly when nobody has one. */
  lemma AcquireGets(before: seq<Step>, p: nat, works: bool, others: seq<Step>)
    requires At(Exec(START, before), p, Empty) && forall i :: 0 <= i < |others| ==> others[i].p != p
    ensures var s := Exec(START, before); var t := Next(s, Get(p, works));
      && (At(Exec(t, others + [Keep(p)]), p, Holding) <==> !Alone(s, p) || works)
      && t.core.log == s.core.log + (if Alone(s, p) && works then [Setup] else [])
  {
    var s := Exec(START, before);
    assert Users(map[]) == {};
    RunKeepsInv(START, before);
    UsersAlone(s, p);
    var t := Next(s, Get(p, works));
    ExecSnoc(t, others, Keep(p));
    OthersKeepPhase(t, others, p);
  }

  /** Likewise a release always ends with the pointer empty, and cleans up exactly when nobody
      else has a share at the moment it puts its own back. */
  lemma ReleaseGivesUp(before: seq<Step>, p: nat, resets: bool, others: seq<Step>)
    requires At(Exec(START, before), p, Holding) && forall i :: 0 <= i < |others| ==> others[i].p != p
    ensures var s := Exec(Exec(START, before), [LetGo(p)] + others); var t := Next(s, PutBack(p, resets));
      && At(t, p, Empty)
      && t.core.log == s.core.log + (if Alone(s, p) then [Cleanup] else [])
  {
    var s0 := Exec(START, before);
    var s := Exec(s0, [LetGo(p)] + others);
    assert ([LetGo(p)] + others)[1..] == others;
    OthersKeepPhase(Next(s0, LetGo(p)), others, p);
    assert Users(map[]) == {};
    RunKeepsInv(START, before);
    RunKeepsInv(s0, [LetGo(p)] + others);
    UsersAlone(s, p);
  }

  // ---- the classes ----

  class Factory {
    var refCount: int
    var hasInstance: bool
    ghost var log: seq<Event>

    ghost function View(): Core reads this { Core(refCount, hasInstance, log) }

    constructor ()
      ensures View() == EMPTY
    {
      refCount, hasInstance, log := 0, false, [];
    }

    /** `got` is whether a pointer other than NULL is returned. */
    method GetInstance(setupWorks: bool) returns (got: bool)
      requires Sound(View())
      modifies this
      ensures Sound(View()) && View() == AfterGet(old(View()), setupWorks)
      ensures got == (refCount == old(refCount) + 1) == (old(refCount) > 0 || setupWorks)
      ensures log == old(log) + (if old(refCount) == 0 && setupWorks then [Setup] else [])
    {
      if refCount == 0 {
        if !setupWorks { return false; }
        hasInstance := true;
        log := log + [Setup];
      }
      refCount := refCount + 1;
      return hasInstance;
    }

    /** The ASSERTs of the original follow from the caller's share. */
    method ReleaseInstance(resets: bool)
      requires Sound(View()) && refCount > 0
      modifies this
      ensures Sound(View()) && View() == AfterRelease(old(View()), resets)
      ensures refCount == old(refCount) - 1 && log == old(log) + (if refCount == 0 then [Cleanup] else [])
      ensures hasInstance <==> refCount > 0 || !resets
    {
      assert hasInstance;
      refCount := refCount - 1;
      if refCount == 0 {
        if resets { hasInstance := false; }
        log := log + [Cleanup];
      }
    }
  }

  class RcsfPtr {
    const factory: Factory
    var valid: bool   // instance_ != NULL

    constructor (factory: Factory)
      ensures this.factory == factory && !valid
    {
      this.factory := factory;
      valid := false;
    }

    /** A second acquire takes no second share. */
    method Acquire(setupWorks: bool)
      requires Sound(factory.View()) && (valid ==> factory.refCount > 0)
      modifies this, factory
      ensures Sound(factory.View()) && (valid ==> factory.hasInstance)
      ensures factory.refCount - old(factory.refCount) == (if valid then 1 else 0) - (if old(valid) then 1 else 0)
      ensures !valid ==> factory.View() == old(factory.View())
      ensures valid <==> old(valid) || old(factory.refCount) > 0 || setupWorks
    {
      if !valid { valid := factory.GetInstance(setupWorks); }
    }

    method Release(resets: bool)
      requires Sound(factory.View()) && (valid ==> factory.refCount > 0)
      modifies this, factory
      ensures Sound(factory.View()) && !valid
      ensures factory.refCount == old(factory.refCount) - (if old(valid) then 1 else 0)
      ensures factory.log == old(factory.log) + (if old(valid) && factory.refCount == 0 then [Cleanup] else [])
    {
      if valid {
        valid := false;
        factory.ReleaseInstance(resets);
      }
    }
  }
}
