/** Re-entrant emission of a signal, signal0::emit in include/base/sigslot.h.

    While `emit` walks the connection list the slots it calls may disconnect and connect.
    List nodes are named by the order in which they were pushed, so the list is always an
    increasing sequence of names and an iterator is a name or the end. */
module Emission {

  datatype Iterator = Node(id: nat) | End

  /** What one slot body does to the signal: erase some connections, then append some. */
  datatype Body = Body(erase: set<nat>, append: nat)

  datatype Outcome = Finished | DanglingIterator

  ghost predicate Increasing(s: seq<nat>) {
    forall i, j :: 0 <= i < j < |s| ==> s[i] < s[j]
  }

  lemma IncreasingSnoc(s: seq<nat>, x: nat)
    requires Increasing(s) && forall y :: y in s ==> y < x
    ensures Increasing(s + [x])
  {
    assert forall i :: 0 <= i < |s| ==> s[i] in s;
  }

  function Begin(list: seq<nat>): Iterator { if list == [] then End else Node(list[0]) }

  /** `++it`: the node after `id`. */
  function After(list: seq<nat>, id: nat): (r: Iterator)
    requires Increasing(list)
    ensures r.Node? ==> r.id in list && r.id > id
    ensures forall x :: x in list && x > id ==> r.Node? && r.id <= x
  {
    if list == [] then End
    else if list[0] > id then Node(list[0])
    else assert list == [list[0]] + list[1..]; After(list[1..], id)
  }

  function Erase(list: seq<nat>, gone: set<nat>): (r: seq<nat>)
    requires Increasing(list)
    ensures Increasing(r)
    ensures forall x :: x in r <==> x in list && x !in gone
  {
    if list == [] then []
    else
      var rest := Erase(list[1..], gone);
      assert forall i :: 0 <= i < |rest| ==> rest[i] in rest;
      if list[0] in gone then rest else [list[0]] + rest
  }

  function Append(list: seq<nat>, arrivals: nat, k: nat): (r: seq<nat>)
    requires Increasing(list) && forall x :: x in list ==> x < arrivals
    ensures Increasing(r)
    ensures forall x :: x in r <==> x in list || arrivals <= x < arrivals + k
    ensures list <= r
  {
    if k == 0 then list
    else
      var r := Append(list, arrivals, k - 1);
      IncreasingSnoc(r, arrivals + k - 1);
      r + [arrivals + k - 1]
  }

  /** How many connections have ever been made when the j-th call begins. */
  function Arrivals(start: nat, bodies: seq<Body>, j: nat): (r: nat)
    ensures r >= start
  {
    if j == 0 then start
    else Arrivals(start, bodies, j - 1) + (if j <= |bodies| then bodies[j - 1].append else 0)
  }

  lemma {:induction false} ArrivalsMonotone(start: nat, bodies: seq<Body>, i: nat, j: nat)
    requires i <= j
    ensures Arrivals(start, bodies, i) <= Arrivals(start, bodies, j)
    ensures i >= |bodies| ==> Arrivals(start, bodies, i) == Arrivals(start, bodies, j)
  {
    if i < j { ArrivalsMonotone(start, bodies, i, j - 1); }
  }

  /** The j-th call of the emission erases connection x, which then existed. */
  predicate Erases(start: nat, bodies: seq<Body>, j: nat, x: nat) {
    j < |bodies| && x in bodies[j].erase && x < Arrivals(start, bodies, j)
  }

  /** A connection that was in the list when emission began, or was appended before the
      k-th call began. */
  predicate Known(list: seq<nat>, start: nat, bodies: seq<Body>, k: nat, x: nat) {
    x in list || start <= x < Arrivals(start, bodies, k)
  }

  predicate ErasedBefore(start: nat, bodies: seq<Body>, k: nat, x: nat) {
    exists j :: 0 <= j < k && Erases(start, bodies, j, x)
  }

  /** The connections in the list when the k-th call begins. */
  predicate Present(list: seq<nat>, start: nat, bodies: seq<Body>, k: nat, x: nat) {
    Known(list, start, bodies, k, x) && !ErasedBefore(start, bodies, k, x)
  }

  /** No call made to an earlier connection erased x. */
  predicate Spared(calls: seq<nat>, start: nat, bodies: seq<Body>, x: nat) {
    forall j :: 0 <= j < |calls| && calls[j] < x ==> !Erases(start, bodies, j, x)
  }

  /** The k-th call erases the connection `emit` has already picked to call next. */
  ghost predicate ErasesSavedNext(list: seq<nat>, start: nat, bodies: seq<Body>, calls: seq<nat>, k: nat)
    requires k < |calls|
  {
    exists x :: x > calls[k] && Present(list, start, bodies, k, x) && Erases(start, bodies, k, x)
      && forall y :: y > calls[k] && Present(list, start, bodies, k, y) ==> x <= y
  }

  function BodyOf(bodies: seq<Body>, k: nat): Body { if k < |bodies| then bodies[k] else Body({}, 0) }

  /** The k-th body takes the list at its start to the list at the next call's start. */
  lemma BodyStep(list: seq<nat>, start: nat, bodies: seq<Body>, k: nat, x: nat)
    requires forall y :: y in list ==> y < start
    ensures var body := BodyOf(bodies, k);
            Present(list, start, bodies, k + 1, x) <==>
              (Present(list, start, bodies, k, x) && x !in body.erase)
              || Arrivals(start, bodies, k) <= x < Arrivals(start, bodies, k) + body.append
  {
    if ErasedBefore(start, bodies, k + 1, x) {
      var j :| 0 <= j < k + 1 && Erases(start, bodies, j, x);
      ArrivalsMonotone(start, bodies, j, k);
      assert j == k || ErasedBefore(start, bodies, k, x);
    }
    if ErasedBefore(start, bodies, k, x) {
      var j :| 0 <= j < k && Erases(start, bodies, j, x);
      assert ErasedBefore(start, bodies, k + 1, x);
    }
    if Present(list, start, bodies, k, x) && k < |bodies| && x in bodies[k].erase {
      assert Erases(start, bodies, k, x);
    }
  }

  /** Everything placed before the iterator has been dealt with. */
  ghost predicate Covered(list: seq<nat>, start: nat, bodies: seq<Body>, calls: seq<nat>, it: Iterator) {
    if calls == [] then it == Begin(list)
    else forall x: nat :: (it.Node? ==> x < it.id) ==>
      (x in calls <==> Known(list, start, bodies, |calls| - 1, x) && Spared(calls, start, bodies, x))
  }

  /** `next` is the connection after `id` in the list the k-th call begins with. */
  ghost predicate IsNext(list: seq<nat>, start: nat, bodies: seq<Body>, k: nat, id: nat, next: Iterator) {
    && (next.Node? ==> next.id > id && Present(list, start, bodies, k, next.id))
    && forall x :: x > id && Present(list, start, bodies, k, x) ==> next.Node? && next.id <= x
  }

  lemma CoveredAt(list: seq<nat>, start: nat, bodies: seq<Body>, calls: seq<nat>, id: nat, next: Iterator, x: nat)
    requires Increasing(list) && forall y :: y in list ==> y < start
    requires Covered(list, start, bodies, calls, Node(id)) && forall c :: c in calls ==> c < id
    requires Present(list, start, bodies, |calls|, id) && IsNext(list, start, bodies, |calls|, id, next)
    requires calls != [] ==> Known(list, start, bodies, |calls| - 1, id)
    requires next.Node? ==> x < next.id
    ensures var now := calls + [id];
            x in now <==> Known(list, start, bodies, |calls|, x) && Spared(now, start, bodies, x)
  {
    var k, now := |calls|, calls + [id];
    if x < id {
      if k > 0 {
        ArrivalsMonotone(start, bodies, k - 1, k);
        assert Known(list, start, bodies, k, x) <==> Known(list, start, bodies, k - 1, x);
        assert forall j :: 0 <= j < k ==> now[j] == calls[j];
        assert Spared(now, start, bodies, x) <==> Spared(calls, start, bodies, x) by {
          if Spared(now, start, bodies, x) {
            forall j | 0 <= j < |calls| && calls[j] < x ensures !Erases(start, bodies, j, x) {
              assert now[j] == calls[j];
            }
          }
        }
        assert x in now <==> x in calls;
      }
    } else if x > id && Known(list, start, bodies, k, x) {
      assert !Present(list, start, bodies, k, x);
      var j :| 0 <= j < k && Erases(start, bodies, j, x);
      assert now[j] == calls[j] && calls[j] in calls;
    }
  }

  lemma CoveredStep(list: seq<nat>, start: nat, bodies: seq<Body>, calls: seq<nat>, id: nat, next: Iterator)
    requires Increasing(list) && forall y :: y in list ==> y < start
    requires Covered(list, start, bodies, calls, Node(id)) && forall c :: c in calls ==> c < id
    requires Present(list, start, bodies, |calls|, id) && IsNext(list, start, bodies, |calls|, id, next)
    requires calls != [] ==> Known(list, start, bodies, |calls| - 1, id)
    ensures Covered(list, start, bodies, calls + [id], next)
  {
    forall x: nat | next.Node? ==> x < next.id
      ensures x in calls + [id] <==>
        Known(list, start, bodies, |calls|, x) && Spared(calls + [id], start, bodies, x)
    {
      CoveredAt(list, start, bodies, calls, id, next, x);
    }
  }

  lemma SavedNextStep(list: seq<nat>, start: nat, bodies: seq<Body>, calls: seq<nat>, id: nat, next: Iterator)
    requires IsNext(list, start, bodies, |calls|, id, next)
    requires forall k :: 0 <= k < |calls| ==> !ErasesSavedNext(list, start, bodies, calls, k)
    ensures var now := calls + [id];
            && (forall k :: 0 <= k < |calls| ==> !ErasesSavedNext(list, start, bodies, now, k))
            && (ErasesSavedNext(list, start, bodies, now, |calls|) <==>
                  next.Node? && Erases(start, bodies, |calls|, next.id))
  {
    var now := calls + [id];
    forall k | 0 <= k < |calls| ensures !ErasesSavedNext(list, start, bodies, now, k) {
      assert now[k] == calls[k];
      assert !ErasesSavedNext(list, start, bodies, calls, k);
    }
    assert now[|calls|] == id;
  }

  lemma KnownBelow(list: seq<nat>, start: nat, bodies: seq<Body>, k: nat, next: Iterator)
    requires forall y :: y in list ==> y < start
    requires next.Node? ==> Known(list, start, bodies, k, next.id)
    ensures next.Node? ==> next.id < Arrivals(start, bodies, |bodies|)
  {
    if k <= |bodies| { ArrivalsMonotone(start, bodies, k, |bodies|); }
    else { ArrivalsMonotone(start, bodies, |bodies|, k); }
  }

  /** What holds of a list made by `k` bodies. */
  ghost predicate ListAt(list0: seq<nat>, start: nat, bodies: seq<Body>, k: nat, list: seq<nat>) {
    Increasing(list) && forall x: nat :: x in list <==> Present(list0, start, bodies, k, x)
  }

  /** The first call goes to the first connection, and every later one to the connection
      that came next when the call before it began. */
  ghost predicate Linked(list0: seq<nat>, start: nat, bodies: seq<Body>, calls: seq<nat>) {
    && Increasing(calls) && (calls != [] ==> list0 != [] && calls[0] == list0[0])
    && (forall j :: 1 <= j < |calls| ==> IsNext(list0, start, bodies, j - 1, calls[j - 1], Node(calls[j])))
  }

  /** The last call began with nothing behind it. */
  ghost predicate AtEnd(list0: seq<nat>, start: nat, bodies: seq<Body>, calls: seq<nat>) {
    calls == [] || IsNext(list0, start, bodies, |calls| - 1, calls[|calls| - 1], End)
  }

  /** The calls and the outcome of an emission, told by the list it began with and the bodies
      of the slots called. */
  ghost predicate IsEmission(list0: seq<nat>, start: nat, bodies: seq<Body>, calls: seq<nat>, outcome: Outcome) {
    && Linked(list0, start, bodies, calls) && (calls == [] <==> list0 == [])
    && (forall k :: 0 <= k < |calls| - 1 ==> !ErasesSavedNext(list0, start, bodies, calls, k))
    && (outcome.DanglingIterator? ==> calls != [] && ErasesSavedNext(list0, start, bodies, calls, |calls| - 1))
    && (outcome.Finished? ==> AtEnd(list0, start, bodies, calls))
  }

  lemma {:induction false} SamePrefix(list0: seq<nat>, start: nat, bodies: seq<Body>, a: seq<nat>, b: seq<nat>, k: nat)
    requires Linked(list0, start, bodies, a) && Linked(list0, start, bodies, b) && k < |a| && k < |b|
    ensures forall i :: 0 <= i <= k ==> a[i] == b[i]
  {
    if k > 0 {
      SamePrefix(list0, start, bodies, a, b, k - 1);
      assert IsNext(list0, start, bodies, k - 1, a[k - 1], Node(a[k]));
      assert IsNext(list0, start, bodies, k - 1, a[k - 1], Node(b[k]));
    }
  }

  lemma GoesOn(list0: seq<nat>, start: nat, bodies: seq<Body>, b: seq<nat>, o: Outcome, k: nat)
    requires IsEmission(list0, start, bodies, b, o) && k < |b| - 1
    ensures !IsNext(list0, start, bodies, k, b[k], End) && !ErasesSavedNext(list0, start, bodies, b, k)
  {
    assert IsNext(list0, start, bodies, k, b[k], Node(b[k + 1]));
  }

  lemma NotLonger(list0: seq<nat>, start: nat, bodies: seq<Body>, a: seq<nat>, o: Outcome, b: seq<nat>, o': Outcome)
    requires IsEmission(list0, start, bodies, a, o) && IsEmission(list0, start, bodies, b, o')
    ensures |b| <= |a|
  {
    if |a| < |b| && a != [] {
      GoesOn(list0, start, bodies, b, o', |a| - 1);
      SamePrefix(list0, start, bodies, a, b, |a| - 1);
    }
  }

  /** The list and the bodies settle what is called and how it ends. */
  lemma EmissionUnique(list0: seq<nat>, start: nat, bodies: seq<Body>,
                       a: seq<nat>, o: Outcome, b: seq<nat>, o': Outcome)
    requires IsEmission(list0, start, bodies, a, o) && IsEmission(list0, start, bodies, b, o')
    ensures a == b && o == o'
  {
    NotLonger(list0, start, bodies, a, o, b, o');
    NotLonger(list0, start, bodies, b, o', a, o);
    if a != [] {
      SamePrefix(list0, start, bodies, a, b, |a| - 1);
    }
  }

  /** The calls made are exactly those of the connections that were known when the last call
      began and that no earlier-placed call erased. */
  ghost predicate CallsExactly(list: seq<nat>, start: nat, bodies: seq<Body>, calls: seq<nat>) {
    calls != [] ==> forall x: nat :: x in calls <==>
      Known(list, start, bodies, |calls| - 1, x) && Spared(calls, start, bodies, x)
  }

  /** The calls made, as far as the last one, are those of the connections that were known
      when it began and that no earlier-placed call erased. */
  ghost predicate CallsExactlyToLast(list: seq<nat>, start: nat, bodies: seq<Body>, calls: seq<nat>) {
    calls != [] ==> forall x: nat :: x <= calls[|calls| - 1] ==>
      (x in calls <==> Known(list, start, bodies, |calls| - 1, x) && Spared(calls, start, bodies, x))
  }

  /** Some call erased the connection picked to be called next. */
  ghost predicate ErasedANext(list: seq<nat>, start: nat, bodies: seq<Body>, calls: seq<nat>) {
    exists k :: 0 <= k < |calls| && ErasesSavedNext(list, start, bodies, calls, k)
  }

  /** The loop invariant of `emit`. */
  ghost predicate Walking(list0: seq<nat>, start: nat, bodies: seq<Body>, calls: seq<nat>, it: Iterator,
                          list: seq<nat>) {
    && ListAt(list0, start, bodies, |calls|, list)
    && Linked(list0, start, bodies, calls)
    && (forall k :: 0 <= k < |calls| ==> !ErasesSavedNext(list0, start, bodies, calls, k))
    && Covered(list0, start, bodies, calls, it)
    && (it.Node? ==> it.id in list && it.id < Arrivals(start, bodies, |bodies|) && forall c :: c in calls ==> c < it.id)
    && (calls != [] ==> IsNext(list0, start, bodies, |calls| - 1, calls[|calls| - 1], it))
  }

  lemma WalkingBegins(list: seq<nat>, start: nat, bodies: seq<Body>)
    requires Increasing(list) && forall y :: y in list ==> y < start
    ensures Walking(list, start, bodies, [], Begin(list), list)
  {
    KnownBelow(list, start, bodies, 0, Begin(list));
  }

  lemma WalkingEnds(list0: seq<nat>, start: nat, bodies: seq<Body>, calls: seq<nat>, list: seq<nat>)
    requires Walking(list0, start, bodies, calls, End, list)
    ensures CallsExactly(list0, start, bodies, calls) && !ErasedANext(list0, start, bodies, calls)
    ensures IsEmission(list0, start, bodies, calls, Finished)
  {
  }

  lemma ListStep(list0: seq<nat>, start: nat, bodies: seq<Body>, k: nat, list: seq<nat>, list': seq<nat>)
    requires forall y :: y in list0 ==> y < start
    requires ListAt(list0, start, bodies, k, list) && forall y :: y in list ==> y < Arrivals(start, bodies, k)
    requires list' == Append(Erase(list, BodyOf(bodies, k).erase), Arrivals(start, bodies, k), BodyOf(bodies, k).append)
    ensures ListAt(list0, start, bodies, k + 1, list')
  {
    forall x: nat ensures x in list' <==> Present(list0, start, bodies, k + 1, x) {
      BodyStep(list0, start, bodies, k, x);
    }
  }

  /** One round of the loop: the call of the connection at the iterator. */
  lemma WalkStep(list0: seq<nat>, start: nat, bodies: seq<Body>, calls: seq<nat>, id: nat, next: Iterator,
                 list: seq<nat>, list': seq<nat>)
    requires Increasing(list0) && forall y :: y in list0 ==> y < start
    requires Walking(list0, start, bodies, calls, Node(id), list) && next == After(list, id)
    requires ListAt(list0, start, bodies, |calls| + 1, list')
    ensures Linked(list0, start, bodies, calls + [id])
    ensures CallsExactlyToLast(list0, start, bodies, calls + [id])
    ensures next.Node? && next.id !in list' ==> IsEmission(list0, start, bodies, calls + [id], DanglingIterator)
    ensures !(next.Node? && next.id !in list') ==> Walking(list0, start, bodies, calls + [id], next, list')
  {
    var k := |calls|;
    assert list0 != [] by { if calls == [] { assert Node(id) == Begin(list0); } }
    assert IsNext(list0, start, bodies, k, id, next);
    CoveredStep(list0, start, bodies, calls, id, next);
    SavedNextStep(list0, start, bodies, calls, id, next);
    IncreasingSnoc(calls, id);
    KnownBelow(list0, start, bodies, k, next);
    if next.Node? { BodyStep(list0, start, bodies, k, next.id); StillBelow(list0, start, bodies, k, next.id); }
  }

  /** A connection present when call k begins is below every later arrival number. */
  lemma StillBelow(list: seq<nat>, start: nat, bodies: seq<Body>, k: nat, x: nat)
    requires Known(list, start, bodies, k, x) && forall y :: y in list ==> y < start
    ensures x < Arrivals(start, bodies, k)
  {
  }

  class Signal0 {
    var list: seq<nat>
    var arrivals: nat

    ghost predicate Valid() reads this {
      Increasing(list) && forall x :: x in list ==> x < arrivals
    }

    constructor ()
      ensures Valid() && list == [] && arrivals == 0
    {
      list, arrivals := [], 0;
    }

    method Connect()
      requires Valid()
      modifies this
      ensures Valid() && list == old(list) + [old(arrivals)] && arrivals == old(arrivals) + 1
    {
      IncreasingSnoc(list, arrivals);
      list, arrivals := list + [arrivals], arrivals + 1;
    }

    /** One slot body, changing the very list that is being walked. */
    method RunBody(body: Body)
      requires Valid()
      modifies this
      ensures Valid() && arrivals == old(arrivals) + body.append
      ensures list == Append(Erase(old(list), body.erase), old(arrivals), body.append)
    {
      list := Append(Erase(list, body.erase), arrivals, body.append);
      arrivals := arrivals + body.append;
    }

    /** The body of the k-th slot called. */
    method RunBodyAt(bodies: seq<Body>, k: nat, ghost list0: seq<nat>, ghost start: nat)
      requires Valid() && (forall y :: y in list0 ==> y < start)
      requires arrivals == Arrivals(start, bodies, k) && ListAt(list0, start, bodies, k, list)
      modifies this
      ensures Valid() && arrivals == Arrivals(start, bodies, k + 1) && ListAt(list0, start, bodies, k + 1, list)
    {
      ghost var before := list;
      RunBody(BodyOf(bodies, k));
      ListStep(list0, start, bodies, k, before, list);
    }

    /** One round of the loop: saves the next iterator, calls the slot, moves on. */
    method CallOne(bodies: seq<Body>, calls: seq<nat>, id: nat, ghost list0: seq<nat>, ghost start: nat)
      returns (calls': seq<nat>, next: Iterator, dangling: bool)
      requires Valid() && Increasing(list0) && (forall y :: y in list0 ==> y < start)
      requires arrivals == Arrivals(start, bodies, |calls|) && Walking(list0, start, bodies, calls, Node(id), list)
      modifies this
      ensures Valid() && calls' == calls + [id] && arrivals == Arrivals(start, bodies, |calls'|)
      ensures CallsExactlyToLast(list0, start, bodies, calls') && ListAt(list0, start, bodies, |calls'|, list)
      ensures if dangling then IsEmission(list0, start, bodies, calls', DanglingIterator)
              else Walking(list0, start, bodies, calls', next, list)
      ensures next.Node? ==> next.id > id
    {
      ghost var before := list;
      next := After(list, id);
      calls' := calls + [id];
      RunBodyAt(bodies, |calls|, list0, start);
      WalkStep(list0, start, bodies, calls, id, next, before, list);
      dangling := next.Node? && next.id !in list;
    }

    /** `bodies[k]` is what the k-th slot called does; later slots do nothing.
        A finished emission called, once each and in list order, exactly the connections
        that were there at the start or appended before the last call began, and that no
        earlier-placed call erased. */
    method Emit(bodies: seq<Body>) returns (calls: seq<nat>, outcome: Outcome)
      requires Valid()
      modifies this
      ensures Valid() && arrivals == Arrivals(old(arrivals), bodies, |calls|)
      ensures IsEmission(old(list), old(arrivals), bodies, calls, outcome)
      ensures ListAt(old(list), old(arrivals), bodies, |calls|, list)
      ensures CallsExactlyToLast(old(list), old(arrivals), bodies, calls)
      ensures outcome.Finished? ==> CallsExactly(old(list), old(arrivals), bodies, calls)
      ensures outcome.DanglingIterator? <==> ErasedANext(old(list), old(arrivals), bodies, calls)
    {
      ghost var list0, start := list, arrivals;
      calls := [];
      var it := Begin(list);
      WalkingBegins(list, start, bodies);
      while it.Node?
        invariant Valid() && arrivals == Arrivals(start, bodies, |calls|)
        invariant Walking(list0, start, bodies, calls, it, list) && CallsExactlyToLast(list0, start, bodies, calls)
        decreases if it.Node? then Arrivals(start, bodies, |bodies|) - it.id else 0
      {
        var dangling;
        calls, it, dangling := CallOne(bodies, calls, it.id, list0, start);
        if dangling {
          assert ErasesSavedNext(list0, start, bodies, calls, |calls| - 1);
          return calls, DanglingIterator;
        }
      }
      WalkingEnds(list0, start, bodies, calls, list);
      return calls, Finished;
    }

    /** Slots that disconnect at most themselves: every connection is called. */
    method EmitToSelfErasing(bodies: seq<Body>) returns (calls: seq<nat>, outcome: Outcome)
      requires Valid() && SelfErasing(list, arrivals, bodies)
      modifies this
      ensures Valid() && outcome.Finished? && old(list) <= calls
      ensures calls != [] ==>
        calls == Append(old(list), old(arrivals), Arrivals(old(arrivals), bodies, |calls| - 1) - old(arrivals))
    {
      calls, outcome := Emit(bodies);
      if calls != [] { SelfErasingSlots(old(list), old(arrivals), bodies, calls, outcome); }
    }
  }

  // ---- slots that disconnect at most themselves ----

  lemma {:induction false} IncreasingUnique(a: seq<nat>, b: seq<nat>)
    requires Increasing(a) && Increasing(b) && forall x :: x in a <==> x in b
    ensures a == b
    decreases |a|
  {
    assert forall i :: 0 <= i < |a| ==> a[i] in b;
    assert forall i :: 0 <= i < |b| ==> b[i] in a;
    if a != [] && b != [] {
      assert a[0] == b[0];
      forall x ensures x in a[1..] <==> x in b[1..] {
        assert x in a[1..] <==> x in a && x > a[0];
        assert x in b[1..] <==> x in b && x > b[0];
      }
      IncreasingUnique(a[1..], b[1..]);
    }
  }

  /** The k-th connection of an emission that loses none on the way: the list, then the
      connections appended meanwhile. */
  function Nth(list: seq<nat>, start: nat, k: nat): nat {
    if k < |list| then list[k] else start + k - |list|
  }

  /** Every slot erases at most its own connection. */
  predicate SelfErasing(list: seq<nat>, start: nat, bodies: seq<Body>) {
    forall k :: 0 <= k < |bodies| ==> bodies[k].erase <= {Nth(list, start, k)}
  }

  lemma NthIncreases(list: seq<nat>, start: nat, j: nat, k: nat)
    requires Increasing(list) && (forall x :: x in list ==> x < start) && j < k
    ensures Nth(list, start, j) < Nth(list, start, k)
  {
    if j < |list| { assert list[j] in list; }
  }

  /** What is behind the k-th connection has not been erased when its call begins. */
  lemma BehindIsPresent(list: seq<nat>, start: nat, bodies: seq<Body>, k: nat, x: nat)
    requires Increasing(list) && (forall y :: y in list ==> y < start) && SelfErasing(list, start, bodies)
    requires Nth(list, start, k) < x && Known(list, start, bodies, k, x)
    ensures Present(list, start, bodies, k, x)
  {
    forall j | 0 <= j < k ensures !Erases(start, bodies, j, x) { NthIncreases(list, start, j, k); }
  }

  lemma {:induction false} CallsAreNth(list: seq<nat>, start: nat, bodies: seq<Body>, calls: seq<nat>, k: nat)
    requires Increasing(list) && (forall x :: x in list ==> x < start) && SelfErasing(list, start, bodies)
    requires Linked(list, start, bodies, calls) && k < |calls|
    ensures calls[k] == Nth(list, start, k)
  {
    if k > 0 {
      CallsAreNth(list, start, bodies, calls, k - 1);
      assert IsNext(list, start, bodies, k - 1, calls[k - 1], Node(calls[k]));
      var x := Nth(list, start, k);
      NthIncreases(list, start, k - 1, k);
      if k < |list| { assert x in list; }
      if Known(list, start, bodies, k - 1, x) { BehindIsPresent(list, start, bodies, k - 1, x); }
    }
  }

  lemma NoneDangles(list: seq<nat>, start: nat, bodies: seq<Body>, calls: seq<nat>, k: nat)
    requires Increasing(list) && (forall x :: x in list ==> x < start) && SelfErasing(list, start, bodies)
    requires Linked(list, start, bodies, calls) && k < |calls|
    ensures !ErasesSavedNext(list, start, bodies, calls, k)
  {
    CallsAreNth(list, start, bodies, calls, k);
  }

  /** A connection is among the first n exactly when it comes no later than the last of them. */
  lemma AmongNth(list: seq<nat>, start: nat, calls: seq<nat>, x: nat)
    requires Increasing(list) && (forall y :: y in list ==> y < start) && calls != []
    requires forall k :: 0 <= k < |calls| ==> calls[k] == Nth(list, start, k)
    requires x <= calls[|calls| - 1] && (x in list || start <= x)
    ensures x in calls
  {
    var n := |calls| - 1;
    var k: nat;
    if x in list { k :| 0 <= k < |list| && list[k] == x; } else { k := |list| + x - start; }
    assert x == Nth(list, start, k);
    if n < k { NthIncreases(list, start, n, k); }
    assert calls[k] == x;
  }

  lemma CalledIsKnown(list: seq<nat>, start: nat, bodies: seq<Body>, calls: seq<nat>, k: nat)
    requires Linked(list, start, bodies, calls) && k < |calls|
    ensures Known(list, start, bodies, |calls| - 1, calls[k])
  {
    if k > 0 {
      assert IsNext(list, start, bodies, k - 1, calls[k - 1], Node(calls[k]));
      ArrivalsMonotone(start, bodies, k - 1, |calls| - 1);
    }
  }

  lemma KnownIsCalled(list: seq<nat>, start: nat, bodies: seq<Body>, calls: seq<nat>, x: nat)
    requires Increasing(list) && (forall y :: y in list ==> y < start) && SelfErasing(list, start, bodies)
    requires Linked(list, start, bodies, calls) && calls != [] && AtEnd(list, start, bodies, calls)
    requires Known(list, start, bodies, |calls| - 1, x)
    ensures x in calls
  {
    var n := |calls| - 1;
    forall k | 0 <= k < |calls| ensures calls[k] == Nth(list, start, k) {
      CallsAreNth(list, start, bodies, calls, k);
    }
    if calls[n] < x { BehindIsPresent(list, start, bodies, n, x); }
    AmongNth(list, start, calls, x);
  }

  lemma CallsWhole(list: seq<nat>, start: nat, bodies: seq<Body>, calls: seq<nat>)
    requires Increasing(list) && (forall y :: y in list ==> y < start) && SelfErasing(list, start, bodies)
    requires Linked(list, start, bodies, calls) && calls != [] && AtEnd(list, start, bodies, calls)
    ensures calls == Append(list, start, Arrivals(start, bodies, |calls| - 1) - start)
  {
    var n := |calls| - 1;
    var all := Append(list, start, Arrivals(start, bodies, n) - start);
    forall x: nat ensures x in calls <==> x in all {
      assert Known(list, start, bodies, n, x) <==> x in all;
      if x in calls { var k :| 0 <= k < |calls| && calls[k] == x; CalledIsKnown(list, start, bodies, calls, k); }
      if Known(list, start, bodies, n, x) { KnownIsCalled(list, start, bodies, calls, x); }
    }
    IncreasingUnique(calls, all);
  }

  /** If every slot erases at most its own connection, nothing dangles, and the emission calls
      the whole list in order and then every connection appended before the last call. */
  lemma SelfErasingSlots(list: seq<nat>, start: nat, bodies: seq<Body>, calls: seq<nat>, outcome: Outcome)
    requires Increasing(list) && (forall x :: x in list ==> x < start) && SelfErasing(list, start, bodies)
    requires IsEmission(list, start, bodies, calls, outcome) && calls != []
    ensures outcome.Finished?
    ensures calls == Append(list, start, Arrivals(start, bodies, |calls| - 1) - start)
  {
    NoneDangles(list, start, bodies, calls, |calls| - 1);
    CallsWhole(list, start, bodies, calls);
  }
}
