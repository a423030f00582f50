/** The single-producer, single-consumer queue of include/base/atomicops.h.

    The two threads are interleaved atomic steps over shared memory: reading the other
    side's counter, touching the cell, bumping one's own counter.  Counters are 32-bit
    and wrap; the cell index is the wrapped counter modulo the capacity. */
module SpscQueue {
  import opened Modular

  const WORD: int := 0x1_0000_0000

  /** Where the producer stands inside PushBack. */
  datatype Producer<T> = ProducerIdle | SpaceSeen(value: T) | CellWritten(value: T)

  /** Where the consumer stands inside PeekFront (`pop` is false) or PopFront. */
  datatype Consumer<T> = ConsumerIdle | ItemSeen(pop: bool) | CellRead(pop: bool, value: T)

  /** Shared memory, both threads' positions, and the history of completed calls. */
  datatype State<T> = State(
    capacity: nat,
    cells: seq<T>,
    pushedCount: nat,
    poppedCount: nat,
    producer: Producer<T>,
    consumer: Consumer<T>,
    pushed: seq<T>,
    popped: seq<T>)
  {
    predicate IsFull() { pushedCount == (poppedCount + capacity) % WORD }

    predicate IsEmpty() { pushedCount == poppedCount }

    function Size(): int { (pushedCount - poppedCount) % WORD }

    /** The types of the C++ members: 32-bit counters and `capacity` cells. */
    predicate WellTyped() {
      |cells| == capacity < WORD && pushedCount < WORD && poppedCount < WORD
    }
  }

  datatype Step<T> =
    | BeginPush(value: T)   // IsFull(): reads the consumer's counter
    | WriteCell
    | CommitPush            // AtomicIncrement(&pushed_count_)
    | BeginPop(pop: bool)   // IsEmpty(): reads the producer's counter
    | ReadCell
    | CommitPop             // AtomicIncrement(&popped_count_), or the return of PeekFront

  predicate ProducerStep<T>(step: Step<T>) { step.BeginPush? || step.WriteCell? || step.CommitPush? }

  /** One atomic step.  A step its thread is not ready for leaves the state alone, and so
      does a call that returns false, so every sequence of steps is an interleaving. */
  function Next<T>(s: State<T>, step: Step<T>): State<T>
    requires s.WellTyped()
  {
    match step
    case BeginPush(v) =>
      if s.producer.ProducerIdle? && s.capacity != 0 && !s.IsFull()
      then s.(producer := SpaceSeen(v)) else s
    case WriteCell =>
      if s.producer.SpaceSeen? && s.capacity != 0
      then s.(cells := s.cells[s.pushedCount % s.capacity := s.producer.value],
              producer := CellWritten(s.producer.value)) else s
    case CommitPush =>
      if s.producer.CellWritten?
      then s.(pushedCount := (s.pushedCount + 1) % WORD, pushed := s.pushed + [s.producer.value],
              producer := ProducerIdle) else s
    case BeginPop(pop) =>
      if s.consumer.ConsumerIdle? && s.capacity != 0 && !s.IsEmpty()
      then s.(consumer := ItemSeen(pop)) else s
    case ReadCell =>
      if s.consumer.ItemSeen? && s.capacity != 0
      then s.(consumer := CellRead(s.consumer.pop, s.cells[s.poppedCount % s.capacity])) else s
    case CommitPop =>
      if !s.consumer.CellRead? then s
      else if s.consumer.pop
      then s.(poppedCount := (s.poppedCount + 1) % WORD, popped := s.popped + [s.consumer.value],
              consumer := ConsumerIdle)
      else s.(consumer := ConsumerIdle)
  }

  function Exec<T>(s: State<T>, steps: seq<Step<T>>): (r: State<T>)
    requires s.WellTyped()
    ensures r.WellTyped() && r.capacity == s.capacity
    decreases |steps|
  {
    if steps == [] then s else Exec(Next(s, steps[0]), steps[1..])
  }

  /** The constructor with a capacity: cells hold whatever `new T[capacity]` left there. */
  function Init<T>(cells: seq<T>): State<T> {
    State(|cells|, cells, 0, 0, ProducerIdle, ConsumerIdle, [], [])
  }

  /** The cell the k-th push ever made goes to. */
  function Slot(k: nat, capacity: nat): nat
    requires capacity > 0
  {
    (k % WORD) % capacity
  }

  /** What the two counters keep to, whatever the cells hold. */
  ghost predicate CountInv<T>(s: State<T>) {
    var n, m := |s.pushed|, |s.popped|;
    && s.WellTyped() && s.capacity > 0
    && m <= n <= m + s.capacity
    && s.pushedCount == n % WORD && s.poppedCount == m % WORD
    && (!s.producer.ProducerIdle? ==> n < m + s.capacity)
    && (!s.consumer.ConsumerIdle? ==> m < n)
  }

  /** What the design relies on: outstanding items sit in their own cells, in order. */
  ghost predicate Inv<T>(s: State<T>) {
    var n, m := |s.pushed|, |s.popped|;
    && CountInv(s)
    && s.popped == s.pushed[..m]
    && (forall k :: m <= k < n ==> s.cells[Slot(k, s.capacity)] == s.pushed[k])
    && (s.producer.CellWritten? ==> s.cells[Slot(n, s.capacity)] == s.producer.value)
    && (s.consumer.CellRead? ==> s.consumer.value == s.pushed[m])
  }

  /** Pushes completed, and the one under way. */
  function Begun<T>(s: State<T>): nat { |s.pushed| + if s.producer.ProducerIdle? then 0 else 1 }

  /** Which pushes may be begun without the wrapped index going wrong: any number when the
      capacity divides 2^32, the first 2^32 otherwise. */
  predicate IndexSafe(capacity: nat, pushes: nat)
    requires capacity > 0
  {
    WORD % capacity == 0 || pushes <= WORD
  }

  // ---- arithmetic of the wrapped index ----

  lemma SlotIsMod(k: nat, c: nat)
    requires c > 0
    requires WORD % c == 0 || k < WORD
    ensures Slot(k, c) == k % c
  {
    if k >= WORD { ModOfMod(k, WORD, c); }
  }

  lemma SlotsDistinct(i: nat, j: nat, c: nat)
    requires i < j < i + c
    requires IndexSafe(c, j + 1)
    ensures Slot(i, c) != Slot(j, c)
  {
    SlotIsMod(i, c);
    SlotIsMod(j, c);
    CloseNotCongruent(i, j, c);
  }

  /** Differences below 2^32 are told exactly by wrapped counters. */
  lemma WrappedDistance(n: nat, m: nat)
    requires m <= n < m + WORD
    ensures (n % WORD - m % WORD) % WORD == n - m
    ensures n % WORD == m % WORD <==> n == m
  {
  }

  lemma WrappedSuccessor(n: nat)
    ensures (n % WORD + 1) % WORD == (n + 1) % WORD
  {
  }

  lemma WrappedFull(n: nat, m: nat, c: nat)
    requires m <= n <= m + c && c < WORD
    ensures n % WORD == (m % WORD + c) % WORD <==> n == m + c
  {
    assert (m % WORD + c) % WORD == (m + c) % WORD;
    WrappedDistance(m + c, n);
  }

  // ---- safety of every interleaving ----

  lemma InvInit<T>(cells: seq<T>)
    requires 0 < |cells| < WORD
    ensures Inv(Init(cells))
  {
  }

  lemma WriteKeepsInv<T>(s: State<T>)
    requires Inv(s) && s.producer.SpaceSeen?
    requires IndexSafe(s.capacity, |s.pushed| + 1)
    ensures Inv(Next(s, WriteCell))
  {
    var n, m := |s.pushed|, |s.popped|;
    forall k | m <= k < n
      ensures Slot(k, s.capacity) != Slot(n, s.capacity)
    {
      SlotsDistinct(k, n, s.capacity);
    }
  }

  /** Every step keeps the counters apart by what is outstanding. */
  lemma StepKeepsCounts<T>(s: State<T>, step: Step<T>)
    requires CountInv(s)
    ensures CountInv(Next(s, step))
  {
    WrappedFull(|s.pushed|, |s.popped|, s.capacity);
    WrappedDistance(|s.pushed|, |s.popped|);
    WrappedSuccessor(|s.pushed|);
    WrappedSuccessor(|s.popped|);
  }

  lemma CommitPushKeepsInv<T>(s: State<T>)
    requires Inv(s)
    ensures Inv(Next(s, CommitPush))
  {
    StepKeepsCounts(s, CommitPush);
    var t := Next(s, CommitPush);
    assert t.popped == t.pushed[..|t.popped|];
    assert forall k :: 0 <= k < |s.pushed| ==> t.pushed[k] == s.pushed[k];
  }

  lemma CommitPopKeepsInv<T>(s: State<T>)
    requires Inv(s)
    ensures Inv(Next(s, CommitPop))
  {
    StepKeepsCounts(s, CommitPop);
  }

  /** Every step keeps the invariant as long as the push under way is index-safe. */
  lemma StepKeepsInv<T>(s: State<T>, step: Step<T>)
    requires Inv(s) && IndexSafe(s.capacity, Begun(s))
    ensures Inv(Next(s, step))
  {
    match step
    case BeginPush(_) => StepKeepsCounts(s, step);
    case BeginPop(_) => StepKeepsCounts(s, step);
    case WriteCell => if s.producer.SpaceSeen? { WriteKeepsInv(s); }
    case ReadCell =>
    case CommitPush => CommitPushKeepsInv(s);
    case CommitPop => CommitPopKeepsInv(s);
  }

  lemma {:induction false} BegunGrows<T>(s: State<T>, steps: seq<Step<T>>)
    requires s.WellTyped()
    ensures Begun(s) <= Begun(Exec(s, steps))
    decreases |steps|
  {
    if steps != [] { BegunGrows(Next(s, steps[0]), steps[1..]); }
  }

  lemma {:induction false} RunKeepsInv<T>(s: State<T>, steps: seq<Step<T>>)
    requires Inv(s) && IndexSafe(s.capacity, Begun(Exec(s, steps)))
    ensures Inv(Exec(s, steps))
    decreases |steps|
  {
    if steps != [] {
      BegunGrows(s, steps);
      StepKeepsInv(s, steps[0]);
      RunKeepsInv(Next(s, steps[0]), steps[1..]);
    }
  }

  lemma {:induction false} RunKeepsCounts<T>(s: State<T>, steps: seq<Step<T>>)
    requires CountInv(s)
    ensures CountInv(Exec(s, steps))
    decreases |steps|
  {
    if steps != [] {
      StepKeepsCounts(s, steps[0]);
      RunKeepsCounts(Next(s, steps[0]), steps[1..]);
    }
  }

  /** The promise to callers: first in, first out, nothing lost or invented, no item
      overwritten while outstanding, the size in range, the value a pending PeekFront or
      PopFront is about to return is the oldest outstanding one. */
  ghost predicate Fifo<T>(s: State<T>) {
    var n, m := |s.pushed|, |s.popped|;
    && m <= n <= m + s.capacity
    && s.popped == s.pushed[..m]
    && s.Size() == n - m
    && (s.IsEmpty() <==> n == m) && (s.capacity > 0 ==> (s.IsFull() <==> n == m + s.capacity))
    && (s.consumer.CellRead? ==> m < n && s.consumer.value == s.pushed[m])
  }

  /** FIFO over every interleaving, wraparound included, when the capacity divides 2^32,
      and over every interleaving that begins at most 2^32 pushes when it does not. */
  lemma EveryInterleavingIsFifo<T>(cells: seq<T>, steps: seq<Step<T>>)
    requires |cells| < WORD
    requires |cells| > 0 ==> IndexSafe(|cells|, Begun(Exec(Init(cells), steps)))
    ensures Fifo(Exec(Init(cells), steps))
  {
    var s := Exec(Init(cells), steps);
    if |cells| == 0 {
      ZeroCapacityStuck(Init(cells), steps);
    } else {
      InvInit(cells);
      RunKeepsInv(Init(cells), steps);
      WrappedDistance(|s.pushed|, |s.popped|);
      WrappedFull(|s.pushed|, |s.popped|, s.capacity);
    }
  }

  /** A queue of capacity 0 refuses every call. */
  lemma {:induction false} ZeroCapacityStuck<T>(s: State<T>, steps: seq<Step<T>>)
    requires s.WellTyped() && s.capacity == 0 && s.producer.ProducerIdle? && s.consumer.ConsumerIdle?
    ensures Exec(s, steps) == s
    decreases |steps|
  {
    if steps != [] { ZeroCapacityStuck(s, steps[1..]); }
  }

  // ---- every call that can be accepted is ----

  lemma {:induction false} OneThreadOnly<T>(s: State<T>, steps: seq<Step<T>>, byProducer: bool)
    requires s.WellTyped()
    requires forall i :: 0 <= i < |steps| ==> ProducerStep(steps[i]) == byProducer
    ensures var t := Exec(s, steps);
      if byProducer then t.poppedCount == s.poppedCount && t.popped == s.popped && t.consumer == s.consumer
      else t.pushedCount == s.pushedCount && t.pushed == s.pushed && t.producer == s.producer
    decreases |steps|
  {
    if steps != [] {
      assert forall i :: 0 <= i < |steps[1..]| ==> steps[1..][i] == steps[i + 1];
      OneThreadOnly(Next(s, steps[0]), steps[1..], byProducer);
    }
  }

  /** One thread's three steps, with steps of the other in between. */
  function Amid<T>(a: Step<T>, x: seq<Step<T>>, b: Step<T>, y: seq<Step<T>>, c: Step<T>): seq<Step<T>> {
    [a] + (x + ([b] + (y + [c])))
  }

  lemma ExecAmid<T>(s: State<T>, a: Step<T>, x: seq<Step<T>>, b: Step<T>, y: seq<Step<T>>, c: Step<T>)
    requires s.WellTyped()
    ensures Exec(s, Amid(a, x, b, y, c)) == Next(Exec(Next(Exec(Next(s, a), x), b), y), c)
  {
    var s1 := Next(s, a);
    var s2 := Exec(s1, x);
    var s3 := Next(s2, b);
    ExecCons(s, a, x + ([b] + (y + [c])));
    ExecConcat(s1, x, [b] + (y + [c]));
    ExecCons(s2, b, y + [c]);
    ExecConcat(s3, y, [c]);
    ExecCons(Exec(s3, y), c, []);
    assert [c] + [] == [c];
  }

  lemma BeginPushDecides<T>(s: State<T>, v: T)
    requires CountInv(s) && s.producer.ProducerIdle?
    ensures var t := Next(s, BeginPush(v));
      && t.pushed == s.pushed
      && t.producer == if |s.pushed| - |s.popped| < s.capacity then SpaceSeen(v) else ProducerIdle
  {
    WrappedFull(|s.pushed|, |s.popped|, s.capacity);
  }

  lemma PushGoesOn<T>(s: State<T>)
    requires s.WellTyped() && s.capacity > 0
    ensures var t := Next(s, WriteCell);
      && t.pushed == s.pushed
      && t.producer == if s.producer.SpaceSeen? then CellWritten(s.producer.value) else s.producer
    ensures var t := Next(s, CommitPush);
      t.pushed == if s.producer.CellWritten? then s.pushed + [s.producer.value] else s.pushed
    ensures var t := Next(s, CommitPush);
      t.producer == if s.producer.CellWritten? then ProducerIdle else s.producer
  {
  }

  /** PushBack begun in s with the consumer anywhere, and doing anything in between: it is
      accepted exactly when there is room at that moment, and it then pushes its value. */
  lemma PushAmidPops<T>(s: State<T>, v: T, x: seq<Step<T>>, y: seq<Step<T>>)
    requires CountInv(s) && s.producer.ProducerIdle?
    requires (forall i :: 0 <= i < |x| ==> !ProducerStep(x[i])) && (forall i :: 0 <= i < |y| ==> !ProducerStep(y[i]))
    ensures var t := Exec(s, Amid(BeginPush(v), x, WriteCell, y, CommitPush));
      && t.producer.ProducerIdle?
      && t.pushed == s.pushed + (if |s.pushed| - |s.popped| < s.capacity then [v] else [])
  {
    ExecAmid(s, BeginPush(v), x, WriteCell, y, CommitPush);
    BeginPushDecides(s, v);
    var s1 := Next(s, BeginPush(v));
    var s2 := Exec(s1, x);
    OneThreadOnly(s1, x, false);
    PushGoesOn(s2);
    var s3 := Next(s2, WriteCell);
    OneThreadOnly(s3, y, false);
    PushGoesOn(Exec(s3, y));
  }

  /** PopFront likewise: it is accepted exactly when there is an item at that moment. */
  lemma PopAmidPushes<T>(s: State<T>, pop: bool, x: seq<Step<T>>, y: seq<Step<T>>)
    requires CountInv(s) && s.consumer.ConsumerIdle?
    requires (forall i :: 0 <= i < |x| ==> ProducerStep(x[i])) && (forall i :: 0 <= i < |y| ==> ProducerStep(y[i]))
    ensures var t := Exec(s, Amid(BeginPop(pop), x, ReadCell, y, CommitPop));
      && t.consumer.ConsumerIdle? && s.popped <= t.popped
      && |t.popped| == |s.popped| + (if pop && |s.popped| < |s.pushed| then 1 else 0)
  {
    ExecAmid(s, BeginPop(pop), x, ReadCell, y, CommitPop);
    WrappedDistance(|s.pushed|, |s.popped|);
    var s1 := Next(s, BeginPop(pop));
    OneThreadOnly(s1, x, true);
    var s3 := Next(Exec(s1, x), ReadCell);
    OneThreadOnly(s3, y, true);
  }

  lemma {:induction false} PushedGrows<T>(s: State<T>, steps: seq<Step<T>>)
    requires s.WellTyped()
    ensures s.pushed <= Exec(s, steps).pushed
    decreases |steps|
  {
    if steps != [] { PushedGrows(Next(s, steps[0]), steps[1..]); }
  }

  /** After every interleaving, wherever the consumer stands and whatever it does between the
      producer's three steps: a push is accepted if and only if there is room when it begins. */
  lemma PushAcceptedIffRoom<T>(cells: seq<T>, steps: seq<Step<T>>, v: T, x: seq<Step<T>>, y: seq<Step<T>>)
    requires |cells| < WORD && Exec(Init(cells), steps).producer.ProducerIdle?
    requires (forall i :: 0 <= i < |x| ==> !ProducerStep(x[i])) && (forall i :: 0 <= i < |y| ==> !ProducerStep(y[i]))
    ensures var s := Exec(Init(cells), steps);
            var t := Exec(s, Amid(BeginPush(v), x, WriteCell, y, CommitPush));
      && (t.pushed == s.pushed + [v] <==> |s.pushed| - |s.popped| < |cells|)
      && (t.pushed == s.pushed <==> |s.pushed| - |s.popped| >= |cells|)
  {
    if |cells| == 0 {
      ZeroCapacityStuck(Init(cells), steps);
      ZeroCapacityStuck(Init(cells), Amid(BeginPush(v), x, WriteCell, y, CommitPush));
    } else {
      InvInit(cells);
      RunKeepsCounts(Init(cells), steps);
      PushAmidPops(Exec(Init(cells), steps), v, x, y);
    }
  }

  /** After every interleaving, wherever the producer stands and whatever it does between the
      consumer's three steps: a pop is accepted if and only if there is an item when it begins,
      and it then takes the oldest outstanding one. */
  lemma PopAcceptedIffItem<T>(cells: seq<T>, steps: seq<Step<T>>, x: seq<Step<T>>, y: seq<Step<T>>)
    requires |cells| < WORD && Exec(Init(cells), steps).consumer.ConsumerIdle?
    requires (forall i :: 0 <= i < |x| ==> ProducerStep(x[i])) && (forall i :: 0 <= i < |y| ==> ProducerStep(y[i]))
    ensures var s := Exec(Init(cells), steps);
            var t := Exec(s, Amid(BeginPop(true), x, ReadCell, y, CommitPop));
      && (|t.popped| == |s.popped| + 1 <==> |s.popped| < |s.pushed|)
      && (t.popped == s.popped <==> |s.popped| == |s.pushed|)
      && (0 < |cells| && |s.popped| < |s.pushed| && IndexSafe(|cells|, Begun(t)) ==>
            t.popped == s.popped + [s.pushed[|s.popped|]])
  {
    var call := Amid(BeginPop(true), x, ReadCell, y, CommitPop);
    if |cells| == 0 {
      ZeroCapacityStuck(Init(cells), steps);
      ZeroCapacityStuck(Init(cells), call);
    } else {
      var s := Exec(Init(cells), steps);
      InvInit(cells);
      RunKeepsCounts(Init(cells), steps);
      PopAmidPushes(s, true, x, y);
      var t := Exec(s, call);
      if |s.popped| < |s.pushed| && IndexSafe(|cells|, Begun(t)) {
        ExecConcat(Init(cells), steps, call);
        EveryInterleavingIsFifo(cells, steps + call);
        PushedGrows(s, call);
        TakesOldest(s, t);
      }
    }
  }

  lemma TakesOldest<T>(s: State<T>, t: State<T>)
    requires s.popped <= t.popped && |t.popped| == |s.popped| + 1 && |s.popped| < |s.pushed|
    requires s.pushed <= t.pushed && |t.popped| <= |t.pushed| && t.popped == t.pushed[..|t.popped|]
    ensures t.popped == s.popped + [s.pushed[|s.popped|]]
  {
    var m := |s.popped|;
    assert t.popped[m] == t.pushed[m] == s.pushed[m];
    assert t.popped[..m] == s.popped;
  }

  // ---- necessity of the index condition ----

  lemma {:induction false} ExecConcat<T>(s: State<T>, a: seq<Step<T>>, b: seq<Step<T>>)
    requires s.WellTyped()
    ensures Exec(s, a + b) == Exec(Exec(s, a), b)
    decreases |a|
  {
    if a == [] {
      assert a + b == b;
    } else {
      assert (a + b)[1..] == a[1..] + b;
      ExecConcat(Next(s, a[0]), a[1..], b);
    }
  }

  function PushCall<T>(v: T): seq<Step<T>> { [BeginPush(v), WriteCell, CommitPush] }

  function PopCall<T>(pop: bool): seq<Step<T>> { [BeginPop(pop), ReadCell, CommitPop] }

  function Times<T>(steps: seq<Step<T>>, k: nat): seq<Step<T>> {
    if k == 0 then [] else Times(steps, k - 1) + steps
  }

  ghost predicate Idle<T>(s: State<T>) { s.WellTyped() && s.producer.ProducerIdle? && s.consumer.ConsumerIdle? }

  /** What an uninterrupted PushBack does when the queue is not full. */
  function AfterPush<T>(s: State<T>, v: T): State<T>
    requires s.WellTyped() && s.capacity > 0
  {
    s.(cells := s.cells[s.pushedCount % s.capacity := v],
       pushedCount := (s.pushedCount + 1) % WORD, pushed := s.pushed + [v])
  }

  /** What an uninterrupted PopFront does when the queue is not empty. */
  function AfterPop<T>(s: State<T>): State<T>
    requires s.WellTyped() && s.capacity > 0
  {
    s.(poppedCount := (s.poppedCount + 1) % WORD,
       popped := s.popped + [s.cells[s.poppedCount % s.capacity]])
  }

  lemma ExecCons<T>(s: State<T>, a: Step<T>, rest: seq<Step<T>>)
    requires s.WellTyped()
    ensures Exec(s, [a] + rest) == Exec(Next(s, a), rest)
  {
    assert ([a] + rest)[1..] == rest;
  }

  lemma Exec3<T>(s: State<T>, a: Step<T>, b: Step<T>, c: Step<T>)
    requires s.WellTyped()
    ensures Exec(s, [a, b, c]) == Next(Next(Next(s, a), b), c)
  {
    var s1 := Next(s, a);
    var s2 := Next(s1, b);
    ExecCons(s, a, [b, c]);
    assert [a] + [b, c] == [a, b, c];
    ExecCons(s1, b, [c]);
    assert [b] + [c] == [b, c];
    ExecCons(s2, c, []);
    assert [c] + [] == [c];
  }

  lemma PushCallEffect<T>(s: State<T>, v: T)
    requires s.WellTyped() && s.producer.ProducerIdle?
    ensures Exec(s, PushCall(v)) == if s.capacity == 0 || s.IsFull() then s else AfterPush(s, v)
  {
    Exec3(s, BeginPush(v), WriteCell, CommitPush);
  }

  lemma PopCallEffect<T>(s: State<T>, pop: bool)
    requires s.WellTyped() && s.consumer.ConsumerIdle?
    ensures Exec(s, PopCall(pop)) == if s.capacity == 0 || s.IsEmpty() || !pop then s else AfterPop(s)
  {
    Exec3(s, BeginPop(pop), ReadCell, CommitPop);
  }

  /** Both counters at k, nothing outstanding. */
  ghost predicate Balanced<T>(s: State<T>, k: nat) {
    Idle(s) && s.capacity > 0 && s.pushedCount == s.poppedCount == k && |s.pushed| == |s.popped| == k
  }

  lemma BalancedNotFull<T>(s: State<T>, k: nat)
    requires Balanced(s, k)
    ensures !s.IsFull()
  {
    assert (k + s.capacity) % WORD == if k + s.capacity < WORD then k + s.capacity else k + s.capacity - WORD;
  }

  lemma OneRound<T>(s: State<T>, a: T, k: nat)
    requires Balanced(s, k) && k + 1 < WORD
    ensures Balanced(AfterPop(AfterPush(s, a)), k + 1)
    ensures !AfterPush(s, a).IsEmpty() && Idle(AfterPush(s, a))
  {
    assert (k + 1) % WORD == k + 1;
  }

  lemma RoundEffect<T>(s: State<T>, a: T, k: nat)
    requires Balanced(s, k) && k + 1 < WORD
    ensures Balanced(Exec(s, PushCall(a) + PopCall(true)), k + 1)
  {
    BalancedNotFull(s, k);
    OneRound(s, a, k);
    var push, pop := PushCall(a), PopCall<T>(true);
    ExecConcat(s, push, pop);
    PushCallEffect(s, a);
    PopCallEffect(AfterPush(s, a), true);
  }

  /** k rounds of push-then-pop of `a` drive both counters to k. */
  lemma {:induction false} Rounds<T>(s: State<T>, a: T, k: nat)
    requires Balanced(s, 0) && k < WORD
    ensures Balanced(Exec(s, Times(PushCall(a) + PopCall(true), k)), k)
    decreases k
  {
    if k > 0 {
      var round := PushCall(a) + PopCall(true);
      Rounds(s, a, k - 1);
      ExecConcat(s, Times(round, k - 1), round);
      RoundEffect(Exec(s, Times(round, k - 1)), a, k - 1);
    }
  }

  /** j more values are waiting, the first of them `a`, and nothing else was popped. */
  ghost predicate Waiting<T>(s: State<T>, t: State<T>, a: T, j: nat) {
    var k := |s.pushed|;
    && Idle(t) && t.capacity == s.capacity && t.poppedCount == s.poppedCount && t.popped == s.popped
    && |t.pushed| == k + j && t.pushedCount == (k + j) % WORD
    && (j > 0 ==> t.pushed[k] == a)
  }

  lemma WaitingNotFull<T>(s: State<T>, t: State<T>, a: T, j: nat)
    requires Balanced(s, |s.pushed|) && Waiting(s, t, a, j) && j < t.capacity
    ensures !t.IsFull()
  {
    WrappedFull(|s.pushed| + j, |s.pushed|, t.capacity);
    SmallMod(|s.pushed|, WORD);
  }

  lemma OneMoreWaiting<T>(s: State<T>, t: State<T>, a: T, v: T, j: nat)
    requires Waiting(s, t, a, j) && j < t.capacity && (j == 0 ==> v == a)
    ensures Waiting(s, AfterPush(t, v), a, j + 1)
  {
    WrappedSuccessor(|s.pushed| + j);
  }

  lemma PushOneWaiting<T>(s: State<T>, t: State<T>, a: T, v: T, j: nat)
    requires Balanced(s, |s.pushed|) && Waiting(s, t, a, j) && j < t.capacity
    requires j == 0 ==> v == a
    ensures Exec(t, PushCall(v)) == AfterPush(t, v) && Waiting(s, AfterPush(t, v), a, j + 1)
  {
    WaitingNotFull(s, t, a, j);
    OneMoreWaiting(s, t, a, v, j);
    PushCallEffect(t, v);
  }

  lemma {:induction false} PushWaiting<T>(s: State<T>, a: T, j: nat)
    requires Balanced(s, |s.pushed|) && j <= s.capacity
    ensures Waiting(s, Exec(s, Times(PushCall(a), j)), a, j)
  {
    if j > 0 {
      PushWaiting(s, a, j - 1);
      ExecConcat(s, Times(PushCall(a), j - 1), PushCall(a));
      PushOneWaiting(s, Exec(s, Times(PushCall(a), j - 1)), a, a, j - 1);
    }
  }

  /** The run that breaks FIFO with 2^32 + 1 pushes: let as many values wait as 2^32 leaves
      over when divided by the capacity, the first of them in cell 0, and push one more. */
  function BreakingRun<T>(a: T, b: T, capacity: nat): seq<Step<T>>
    requires capacity > 0
  {
    var over := WORD % capacity;
    Times(PushCall(a) + PopCall(true), WORD - over) + Times(PushCall(a), over) + PushCall(b) + PopCall(true)
  }

  lemma ExecFour<T>(s: State<T>, a: seq<Step<T>>, b: seq<Step<T>>, c: seq<Step<T>>, d: seq<Step<T>>)
    requires s.WellTyped()
    ensures Exec(s, a + b + c + d) == Exec(Exec(Exec(Exec(s, a), b), c), d)
  {
    ExecConcat(s, a, b);
    ExecConcat(s, a + b, c);
    ExecConcat(s, a + b + c, d);
  }

  /** The breaking run up to the pop. */
  lemma BreakingRunPrefix<T>(cells: seq<T>, a: T, b: T) returns (s: State<T>, t: State<T>)
    requires 0 < |cells| < WORD && WORD % |cells| != 0
    ensures var over := WORD % |cells|;
      && Balanced(s, WORD - over) && Waiting(s, t, a, over) && t.capacity == |cells| && t.pushedCount == 0
      && Waiting(s, AfterPush(t, b), a, over + 1)
      && Exec(Init(cells), BreakingRun(a, b, |cells|)) == Exec(AfterPush(t, b), PopCall(true))
  {
    var c, s0 := |cells|, Init(cells);
    var over := WORD % c;
    var rounds, wait := Times(PushCall(a) + PopCall(true), WORD - over), Times(PushCall(a), over);
    Rounds(s0, a, WORD - over);
    s := Exec(s0, rounds);
    PushWaiting(s, a, over);
    t := Exec(s, wait);
    PushOneWaiting(s, t, a, b, over);
    ExecFour(s0, rounds, wait, PushCall(b), PopCall(true));
  }

  /** When the capacity does not divide 2^32, the push after 2^32 of them overwrites a value
      before it is popped, and the pop returns the later one. */
  lemma NonDividingCapacityBreaks<T>(cells: seq<T>, a: T, b: T)
    requires 0 < |cells| < WORD && WORD % |cells| != 0 && a != b
    ensures var s := Exec(Init(cells), BreakingRun(a, b, |cells|)); !Fifo(s) && Begun(s) == WORD + 1
  {
    var s, t := BreakingRunPrefix(cells, a, b);
    var c := |cells|;
    var k := WORD - WORD % c;
    DivModUnique(k, WORD / c, 0, c);
    var u := AfterPush(t, b);
    SmallMod(0, c);
    assert u.cells[0] == b;
    PopNotEmpty(s, u, a, WORD % c + 1);
    PopOfAnother(u, a);
  }

  /** A pop that returns something else than the oldest outstanding value is not FIFO. */
  lemma PopOfAnother<T>(u: State<T>, a: T)
    requires Idle(u) && u.capacity > 0 && !u.IsEmpty() && |u.popped| < |u.pushed| && u.pushed[|u.popped|] == a
    requires u.cells[u.poppedCount % u.capacity] != a
    ensures !Fifo(Exec(u, PopCall(true))) && Begun(Exec(u, PopCall(true))) == Begun(u)
  {
    PopCallEffect(u, true);
    var v, k := AfterPop(u), |u.popped|;
    assert v.popped[k] != a && v.pushed[..k + 1][k] == a;
  }

  lemma PopNotEmpty<T>(s: State<T>, u: State<T>, a: T, j: nat)
    requires Balanced(s, |s.pushed|) && Waiting(s, u, a, j) && 0 < j < WORD
    ensures !u.IsEmpty()
  {
    WrappedDistance(|s.pushed| + j, |s.pushed|);
  }

  /** How many pushes are safe: every interleaving that begins at most `pushes` of them is a
      FIFO exactly when the capacity divides 2^32 or `pushes` is at most 2^32. */
  lemma FifoIffIndexSafe<T(!new)>(cells: seq<T>, a: T, b: T, pushes: nat)
    requires 0 < |cells| < WORD && a != b
    ensures (forall steps: seq<Step<T>> :: Begun(Exec(Init(cells), steps)) <= pushes ==> Fifo(Exec(Init(cells), steps)))
       <==> IndexSafe(|cells|, pushes)
  {
    if IndexSafe(|cells|, pushes) {
      forall steps: seq<Step<T>> | Begun(Exec(Init(cells), steps)) <= pushes ensures Fifo(Exec(Init(cells), steps)) {
        EveryInterleavingIsFifo(cells, steps);
      }
    } else {
      NonDividingCapacityBreaks(cells, a, b);
    }
  }

  /** The capacities for which the queue is a FIFO on every interleaving of any length are
      exactly the divisors of 2^32. */
  lemma FifoForeverIffDivides<T(!new)>(cells: seq<T>, a: T, b: T)
    requires 0 < |cells| < WORD && a != b
    ensures (forall steps: seq<Step<T>> :: Fifo(Exec(Init(cells), steps))) <==> WORD % |cells| == 0
  {
    if WORD % |cells| == 0 {
      forall steps: seq<Step<T>> ensures Fifo(Exec(Init(cells), steps)) {
        EveryInterleavingIsFifo(cells, steps);
      }
    } else {
      NonDividingCapacityBreaks(cells, a, b);
    }
  }

  // ---- Size() is two reads ----

  /** Size() as a caller sees it, one counter read in `s` and the other later in `t`; the
      order of the two reads is up to the compiler. */
  function ObservedSize<T>(s: State<T>, t: State<T>, pushedFirst: bool): int {
    if pushedFirst then (s.pushedCount - t.poppedCount) % WORD else (t.pushedCount - s.poppedCount) % WORD
  }

  datatype Caller = ProducerThread | ConsumerThread | ThirdThread

  /** What may happen between the two reads: a thread does not move while it is in Size(). */
  predicate Between<T>(caller: Caller, steps: seq<Step<T>>) {
    match caller
    case ProducerThread => forall i :: 0 <= i < |steps| ==> !ProducerStep(steps[i])
    case ConsumerThread => forall i :: 0 <= i < |steps| ==> ProducerStep(steps[i])
    case ThirdThread => true
  }

  lemma SizeIsOutstanding<T>(s: State<T>)
    requires CountInv(s)
    ensures s.Size() == |s.pushed| - |s.popped| && 0 <= s.Size() <= s.capacity
  {
    WrappedDistance(|s.pushed|, |s.popped|);
  }

  lemma SizeFromCounters<T>(s: State<T>, t: State<T>, onProducer: bool, pushedFirst: bool)
    requires CountInv(s) && CountInv(t) && s.capacity == t.capacity
    requires if onProducer then s.pushedCount == t.pushedCount else s.poppedCount == t.poppedCount
    ensures ObservedSize(s, t, pushedFirst) == (if pushedFirst == onProducer then t else s).Size()
    ensures 0 <= ObservedSize(s, t, pushedFirst) <= s.capacity
  {
    SizeIsOutstanding(s);
    SizeIsOutstanding(t);
  }

  /** Called on the producer's or on the consumer's thread, Size() is a size the queue really
      had, in [0, capacity], for every capacity and any number of pushes. */
  lemma SizeOnOwnThread<T>(cells: seq<T>, before: seq<Step<T>>, between: seq<Step<T>>,
                           caller: Caller, pushedFirst: bool)
    requires 0 < |cells| < WORD && !caller.ThirdThread? && Between(caller, between)
    ensures var s := Exec(Init(cells), before); var t := Exec(s, between);
      && ObservedSize(s, t, pushedFirst) == (if pushedFirst == caller.ProducerThread? then t else s).Size()
      && 0 <= ObservedSize(s, t, pushedFirst) <= |cells|
  {
    InvInit(cells);
    RunKeepsCounts(Init(cells), before);
    var s := Exec(Init(cells), before);
    RunKeepsCounts(s, between);
    OneThreadOnly(s, between, caller.ConsumerThread?);
    SizeFromCounters(s, Exec(s, between), caller.ProducerThread?, pushedFirst);
  }

  ghost predicate InRange<T>(cells: seq<T>, before: seq<Step<T>>, between: seq<Step<T>>, pushedFirst: bool)
    requires |cells| < WORD
  {
    var s := Exec(Init(cells), before);
    0 <= ObservedSize(s, Exec(s, between), pushedFirst) <= |cells|
  }

  /** One push and one pop between the reads make an empty queue show 2^32 - 1 items. */
  lemma ThirdThreadUnderflow<T>(cells: seq<T>, v: T)
    requires 0 < |cells| < WORD - 1
    ensures var s := Init(cells); ObservedSize(s, Exec(s, PushCall(v) + PopCall(true)), true) == WORD - 1 > |cells|
  {
    RoundEffect(Init(cells), v, 0);
    CountersApart(Init(cells), Exec(Init(cells), PushCall(v) + PopCall(true)), 1);
  }

  /** Capacity + 1 of them, with the reads the other way round, show one more than fit. */
  lemma ThirdThreadOverflow<T>(cells: seq<T>, v: T)
    requires 0 < |cells| < WORD - 1
    ensures var s := Init(cells); var more := Times(PushCall(v) + PopCall(true), |cells| + 1);
            ObservedSize(s, Exec(s, more), false) == |cells| + 1
  {
    Rounds(Init(cells), v, |cells| + 1);
    CountersApart(Init(cells), Exec(Init(cells), Times(PushCall(v) + PopCall(true), |cells| + 1)), |cells| + 1);
  }

  lemma CountersApart<T>(s: State<T>, t: State<T>, k: nat)
    requires Balanced(s, 0) && Balanced(t, k) && 0 < k < WORD
    ensures ObservedSize(s, t, true) == WORD - k && ObservedSize(s, t, false) == k
  {
  }

  lemma ThirdThreadOutOfRange<T>(cells: seq<T>, v: T, pushedFirst: bool) returns (between: seq<Step<T>>)
    requires 0 < |cells| < WORD - 1
    ensures !InRange(cells, [], between, pushedFirst)
  {
    var round := PushCall(v) + PopCall(true);
    between := if pushedFirst then round else Times(round, |cells| + 1);
    if pushedFirst { ThirdThreadUnderflow(cells, v); } else { ThirdThreadOverflow(cells, v); }
    assert Exec(Init(cells), []) == Init(cells);
  }

  /** The documented range [0, capacity] holds for every run exactly when Size() is called on
      one of the queue's two threads, or the range excludes nothing the queue can show: no
      capacity at all, or one less than 2^32.  This is so for either order of the reads. */
  lemma SizeInRangeByCaller<T(!new)>(cells: seq<T>, v: T, caller: Caller, pushedFirst: bool)
    requires |cells| < WORD
    ensures (forall before: seq<Step<T>>, between: seq<Step<T>> ::
               Between(caller, between) ==> InRange(cells, before, between, pushedFirst))
       <==> !caller.ThirdThread? || |cells| == 0 || |cells| == WORD - 1
  {
    if !caller.ThirdThread? || |cells| == 0 || |cells| == WORD - 1 {
      forall before: seq<Step<T>>, between: seq<Step<T>> | Between(caller, between)
        ensures InRange(cells, before, between, pushedFirst)
      {
        if |cells| == 0 {
          ZeroCapacityStuck(Init(cells), before);
          ZeroCapacityStuck(Init(cells), between);
        } else if |cells| < WORD - 1 {
          SizeOnOwnThread(cells, before, between, caller, pushedFirst);
        }
      }
    } else {
      var between := ThirdThreadOutOfRange(cells, v, pushedFirst);
      assert Between(caller, between) && !InRange(cells, [], between, pushedFirst);
    }
  }

  // ---- the class ----

  class FixedSizeLockFreeQueue<T(0)> {
    var pushedCount: nat
    var poppedCount: nat
    var capacity: nat
    var data: array<T>
    ghost var pushed: seq<T>
    ghost var popped: seq<T>

    ghost predicate Valid() reads this {
      data.Length == capacity < WORD && pushedCount < WORD && poppedCount < WORD
    }

    /** The state the other thread could see between two calls. */
    ghost function View(): State<T> reads this, data requires Valid() {
      State(capacity, data[..], pushedCount, poppedCount, ProducerIdle, ConsumerIdle, pushed, popped)
    }

    constructor (newCapacity: nat)
      requires newCapacity < WORD
      ensures Valid() && fresh(data) && View() == Init(data[..]) && capacity == newCapacity
    {
      pushedCount, poppedCount, capacity := 0, 0, newCapacity;
      data := new T[newCapacity];
      pushed, popped := [], [];
    }

    predicate IsFull()
      reads this, data
      requires Valid()
      ensures IsFull() == View().IsFull()
    {
      pushedCount == (poppedCount + capacity) % WORD
    }

    predicate IsEmpty()
      reads this, data
      requires Valid()
      ensures IsEmpty() == View().IsEmpty()
    {
      pushedCount == poppedCount
    }

    function Size(): (r: int)
      reads this, data
      requires Valid()
      ensures r == View().Size()
    {
      (pushedCount - poppedCount) % WORD
    }

    /** PushBack run without interruption is the producer's three steps. */
    method PushBack(value: T) returns (ok: bool)
      requires Valid()
      modifies this`pushedCount, this`pushed, data
      ensures Valid() && View() == Exec(old(View()), PushCall(value))
      ensures ok == (|View().pushed| == |old(View()).pushed| + 1)
      ensures !ok ==> View() == old(View())
    {
      ghost var s := View();
      PushCallEffect(s, value);
      if capacity == 0 { return false; }
      if IsFull() { return false; }
      data[pushedCount % capacity] := value;
      pushedCount := (pushedCount + 1) % WORD;
      pushed := pushed + [value];
      return true;
    }

    method PeekFront() returns (ok: bool, value: T)
      requires Valid()
      ensures ok == (capacity != 0 && !View().IsEmpty())
      ensures ok ==> value == data[poppedCount % capacity]
    {
      value := *;
      if capacity == 0 { return false, value; }
      if IsEmpty() { return false, value; }
      return true, data[poppedCount % capacity];
    }

    method PopFront() returns (ok: bool, value: T)
      requires Valid()
      modifies this`poppedCount, this`popped
      ensures Valid() && View() == Exec(old(View()), PopCall(true))
      ensures ok ==> popped == old(popped) + [value]
      ensures !ok ==> View() == old(View())
    {
      PopCallEffect(View(), true);
      ok, value := PeekFront();
      if ok {
        poppedCount := (poppedCount + 1) % WORD;
        popped := popped + [value];
      }
    }

    method ClearAndResizeUnsafe(newCapacity: nat)
      requires Valid() && newCapacity < WORD
      modifies this
      ensures Valid() && fresh(data) && View() == Init(data[..]) && capacity == newCapacity
    {
      capacity := newCapacity;
      data := new T[newCapacity];
      pushedCount, poppedCount := 0, 0;
      pushed, popped := [], [];
    }
  }
}
