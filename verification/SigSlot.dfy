/** Signals and receivers of include/base/sigslot.h (arity 0, single-threaded policy).

    A signal keeps the list of its connections and a receiver the set of its senders.
    Each side is destroyed, copied and disconnected on its own; both must stay mirror
    images of each other, or a later emission calls into a destroyed receiver.

    As in Emission, a list node is named by the order in which the signal pushed it. */
module SigSlot {
  import E = Emission

  /** _connection0 and the list node that holds it: the receiver and the member function to
      call on it. */
  datatype Connection = Connection(dest: HasSlots, slot: nat, node: nat)

  predicate Targets(conns: seq<Connection>, r: HasSlots) {
    exists i :: 0 <= i < |conns| && conns[i].dest == r
  }

  function Count(conns: seq<Connection>, r: HasSlots): nat {
    if conns == [] then 0 else (if conns[0].dest == r then 1 else 0) + Count(conns[1..], r)
  }

  /** The connections that do not go to r, in order. */
  function Without(conns: seq<Connection>, r: HasSlots): seq<Connection> {
    if conns == [] then []
    else (if conns[0].dest == r then [] else [conns[0]]) + Without(conns[1..], r)
  }

  /** One copy, aimed at `to`, of every connection aimed at `from`, in order, in nodes named
      from `node` on. */
  function Retargeted(conns: seq<Connection>, from: HasSlots, to: HasSlots, node: nat): seq<Connection> {
    if conns == [] then []
    else if conns[0].dest != from then Retargeted(conns[1..], from, to, node)
    else [Connection(to, conns[0].slot, node)] + Retargeted(conns[1..], from, to, node + 1)
  }

  /** The connections to r, in order. */
  function Aimed(conns: seq<Connection>, r: HasSlots): seq<Connection> {
    if conns == [] then [] else (if conns[0].dest == r then [conns[0]] else []) + Aimed(conns[1..], r)
  }

  /** Position of the first connection to r. */
  function FirstTo(conns: seq<Connection>, r: HasSlots): (i: nat)
    ensures i <= |conns|
    ensures i < |conns| ==> conns[i].dest == r
    ensures forall j :: 0 <= j < i ==> conns[j].dest != r
  {
    if conns == [] || conns[0].dest == r then 0 else 1 + FirstTo(conns[1..], r)
  }

  /** The list after `disconnect(r)`: only the first connection to r is gone. */
  function WithoutFirst(conns: seq<Connection>, r: HasSlots): seq<Connection> {
    var i := FirstTo(conns, r);
    if i < |conns| then conns[..i] + conns[i + 1..] else conns
  }

  // ---- facts about the lists ----

  lemma {:induction false} CountIsTargets(conns: seq<Connection>, r: HasSlots)
    ensures Count(conns, r) > 0 <==> Targets(conns, r)
  {
    if conns != [] {
      CountIsTargets(conns[1..], r);
      if Targets(conns, r) {
        var i :| 0 <= i < |conns| && conns[i].dest == r;
        if i > 0 { assert conns[1..][i - 1].dest == r; }
      }
      if Targets(conns[1..], r) {
        var i :| 0 <= i < |conns[1..]| && conns[1..][i].dest == r;
        assert conns[i + 1].dest == r;
      }
    }
  }

  lemma {:induction false} CountConcat(a: seq<Connection>, b: seq<Connection>, r: HasSlots)
    ensures Count(a + b, r) == Count(a, r) + Count(b, r)
  {
    if a == [] { assert a + b == b; } else {
      assert (a + b)[1..] == a[1..] + b;
      CountConcat(a[1..], b, r);
    }
  }

  lemma {:induction false} WithoutAppend(a: seq<Connection>, c: Connection, r: HasSlots)
    ensures Without(a + [c], r) == Without(a, r) + (if c.dest == r then [] else [c])
  {
    if a == [] { assert a + [c] == [c] && [c][1..] == []; } else {
      assert (a + [c])[1..] == a[1..] + [c] && (a + [c])[0] == a[0];
      WithoutAppend(a[1..], c, r);
      var head := if a[0].dest == r then [] else [a[0]];
      var last := if c.dest == r then [] else [c];
      assert head + (Without(a[1..], r) + last) == (head + Without(a[1..], r)) + last;
    }
  }

  lemma {:induction false} CountWithout(conns: seq<Connection>, r: HasSlots, q: HasSlots)
    ensures Count(Without(conns, r), q) == if q == r then 0 else Count(conns, q)
  {
    if conns != [] {
      CountWithout(conns[1..], r, q);
      CountConcat(if conns[0].dest == r then [] else [conns[0]], Without(conns[1..], r), q);
    }
  }

  lemma {:induction false} RetargetedAppend(a: seq<Connection>, c: Connection, from: HasSlots, to: HasSlots, node: nat)
    ensures Retargeted(a + [c], from, to, node)
         == Retargeted(a, from, to, node)
            + (if c.dest == from then [Connection(to, c.slot, node + Count(a, from))] else [])
  {
    if a == [] { assert a + [c] == [c] && [c][1..] == []; } else {
      assert (a + [c])[1..] == a[1..] + [c] && (a + [c])[0] == a[0];
      RetargetedAppend(a[1..], c, from, to, if a[0].dest == from then node + 1 else node);
    }
  }

  lemma {:induction false} CountRetargeted(conns: seq<Connection>, from: HasSlots, to: HasSlots, node: nat, q: HasSlots)
    ensures Count(Retargeted(conns, from, to, node), q) == if q == to then Count(conns, from) else 0
  {
    if conns != [] {
      CountRetargeted(conns[1..], from, to, if conns[0].dest == from then node + 1 else node, q);
      if conns[0].dest == from {
        CountConcat([Connection(to, conns[0].slot, node)], Retargeted(conns[1..], from, to, node + 1), q);
      }
    }
  }

  /** The copies call the same member functions, in the same order, in nodes of their own. */
  lemma {:induction false} RetargetedAt(conns: seq<Connection>, from: HasSlots, to: HasSlots, node: nat)
    ensures var copies := Retargeted(conns, from, to, node);
      && |copies| == Count(conns, from) == |Aimed(conns, from)|
      && forall i :: 0 <= i < |copies| ==> copies[i] == Connection(to, Aimed(conns, from)[i].slot, node + i)
  {
    if conns != [] { RetargetedAt(conns[1..], from, to, if conns[0].dest == from then node + 1 else node); }
  }

  lemma NoneRetargeted(conns: seq<Connection>, from: HasSlots, to: HasSlots, node: nat)
    requires !Targets(conns, from)
    ensures Retargeted(conns, from, to, node) == []
  {
    CountIsTargets(conns, from);
    RetargetedAt(conns, from, to, node);
  }

  /** The nodes of a list that has had `arrivals` nodes pushed. */
  ghost predicate Ordered(conns: seq<Connection>, arrivals: nat) {
    && (forall i, j :: 0 <= i < j < |conns| ==> conns[i].node < conns[j].node)
    && (forall i :: 0 <= i < |conns| ==> conns[i].node < arrivals)
  }

  /** Every connection is an old one or lies in a new node. */
  ghost predicate Descends(conns: seq<Connection>, before: seq<Connection>, arrivals: nat) {
    forall c :: c in conns ==> c in before || c.node >= arrivals
  }

  lemma DescendsFurther(conns: seq<Connection>, mid: seq<Connection>, midArrivals: nat,
                        before: seq<Connection>, arrivals: nat)
    requires Descends(conns, mid, midArrivals) && Descends(mid, before, arrivals) && arrivals <= midArrivals
    ensures Descends(conns, before, arrivals)
  {
  }

  lemma DuplicatedOrdered(conns: seq<Connection>, from: HasSlots, to: HasSlots, arrivals: nat)
    requires Ordered(conns, arrivals)
    ensures Ordered(conns + Retargeted(conns, from, to, arrivals), arrivals + Count(conns, from))
    ensures Descends(conns + Retargeted(conns, from, to, arrivals), conns, arrivals)
    ensures forall c :: c in conns + Retargeted(conns, from, to, arrivals) ==> c in conns || c.dest == to
  {
    RetargetedAt(conns, from, to, arrivals);
  }

  lemma OrderedCons(c: Connection, rest: seq<Connection>, arrivals: nat)
    requires Ordered(rest, arrivals) && c.node < arrivals
    requires forall i :: 0 <= i < |rest| ==> c.node < rest[i].node
    ensures Ordered([c] + rest, arrivals)
  {
  }

  lemma {:induction false} WithoutOrdered(conns: seq<Connection>, r: HasSlots, arrivals: nat)
    requires Ordered(conns, arrivals)
    ensures Ordered(Without(conns, r), arrivals) && Descends(Without(conns, r), conns, arrivals)
  {
    if conns != [] {
      WithoutOrdered(conns[1..], r, arrivals);
      var rest := Without(conns[1..], r);
      forall i | 0 <= i < |rest| ensures rest[i] in conns && conns[0].node < rest[i].node {
        assert rest[i].node < arrivals;
        var k :| 0 <= k < |conns[1..]| && conns[1..][k] == rest[i];
      }
      if conns[0].dest != r { OrderedCons(conns[0], rest, arrivals); }
    }
  }

  lemma DropOrdered(conns: seq<Connection>, i: nat, left: seq<Connection>, arrivals: nat)
    requires Ordered(conns, arrivals) && i < |conns| && left == conns[..i] + conns[i + 1..]
    ensures Ordered(left, arrivals) && Descends(left, conns, arrivals)
  {
    assert forall k :: 0 <= k < |left| ==> left[k] == if k < i then conns[k] else conns[k + 1];
  }

  lemma WithoutFirstOrdered(conns: seq<Connection>, r: HasSlots, arrivals: nat)
    requires Ordered(conns, arrivals)
    ensures Ordered(WithoutFirst(conns, r), arrivals) && Descends(WithoutFirst(conns, r), conns, arrivals)
  {
    var i := FirstTo(conns, r);
    if i < |conns| { DropOrdered(conns, i, WithoutFirst(conns, r), arrivals); }
  }

  lemma TargetsWithoutFirst(conns: seq<Connection>, r: HasSlots, p: HasSlots)
    ensures Targets(WithoutFirst(conns, r), p) <==> Targets(conns, p) && (p == r ==> Count(conns, r) > 1)
  {
    CountIsTargets(WithoutFirst(conns, r), p);
    CountIsTargets(conns, p);
    CountWithoutFirst(conns, r, p);
  }

  lemma CountWithoutFirst(conns: seq<Connection>, r: HasSlots, q: HasSlots)
    ensures Count(WithoutFirst(conns, r), q)
         == if q == r && Count(conns, r) > 0 then Count(conns, r) - 1 else Count(conns, q)
  {
    var i := FirstTo(conns, r);
    CountIsTargets(conns, r);
    if i < |conns| {
      assert conns == conns[..i] + ([conns[i]] + conns[i + 1..]);
      CountConcat(conns[..i], [conns[i]] + conns[i + 1..], q);
      CountConcat([conns[i]], conns[i + 1..], q);
      CountConcat(conns[..i], conns[i + 1..], q);
    }
  }

  lemma {:induction false} NotTargeted(conns: seq<Connection>, r: HasSlots)
    ensures !Targets(conns, r) ==> Without(conns, r) == conns
  {
    if conns != [] && !Targets(conns, r) {
      assert forall i :: 0 <= i < |conns| ==> conns[i].dest != r;
      assert forall i :: 0 <= i < |conns[1..]| ==> conns[1..][i] == conns[i + 1];
      NotTargeted(conns[1..], r);
    }
  }

  lemma TargetsWithout(conns: seq<Connection>, r: HasSlots, q: HasSlots)
    ensures Targets(Without(conns, r), q) <==> q != r && Targets(conns, q)
  {
    CountIsTargets(conns, q);
    CountIsTargets(Without(conns, r), q);
    CountWithout(conns, r, q);
  }

  /** Duplicating a receiver's connections makes the copy a target exactly when it was. */
  lemma TargetsDuplicated(conns: seq<Connection>, from: HasSlots, to: HasSlots, node: nat, q: HasSlots)
    ensures Targets(conns + Retargeted(conns, from, to, node), q)
       <==> Targets(conns, q) || (q == to && Targets(conns, from))
  {
    CountIsTargets(conns, q);
    CountIsTargets(conns, from);
    CountIsTargets(conns + Retargeted(conns, from, to, node), q);
    CountConcat(conns, Retargeted(conns, from, to, node), q);
    CountRetargeted(conns, from, to, node, q);
  }

  // ---- the two classes ----

  class Signal {
    var slots: seq<Connection>
    var arrivals: nat

    /** The list has only lost nodes and gained new ones. */
    twostate predicate Evolved() reads this {
      arrivals >= old(arrivals) && Descends(slots, old(slots), old(arrivals))
    }

    constructor ()
      ensures slots == [] && arrivals == 0
    {
      slots, arrivals := [], 0;
    }

    /** Copying a signal connects the copy to every receiver of the original. */
    constructor Copy(s: Signal)
      modifies set c | c in s.slots :: c.dest
      ensures slots == old(s.slots) && arrivals == s.arrivals
      ensures forall c :: c in old(s.slots) ==> c.dest.senders == old(c.dest.senders) + {this}
    {
      slots, arrivals := [], s.arrivals;
      new;
      var i := 0;
      while i < |s.slots|
        invariant 0 <= i <= |s.slots| && slots == s.slots[..i] && s.slots == old(s.slots) && arrivals == s.arrivals
        invariant forall c :: c in s.slots ==>
          c.dest.senders == old(c.dest.senders) + (if Targets(s.slots[..i], c.dest) then {this} else {})
      {
        s.slots[i].dest.SignalConnect(this);
        slots := slots + [s.slots[i]];
        assert s.slots[..i + 1] == s.slots[..i] + [s.slots[i]];
        i := i + 1;
      }
      assert s.slots[..i] == s.slots;
    }

    method Connect(dest: HasSlots, slot: nat)
      modifies this, dest
      ensures slots == old(slots) + [Connection(dest, slot, old(arrivals))] && arrivals == old(arrivals) + 1
      ensures dest.senders == old(dest.senders) + {this}
      ensures forall p :: Targets(slots, p) <==> Targets(old(slots), p) || p == dest
    {
      forall p: HasSlots
        ensures Targets(slots + [Connection(dest, slot, arrivals)], p) <==> Targets(slots, p) || p == dest
      {
        CountIsTargets(slots, p);
        CountIsTargets(slots + [Connection(dest, slot, arrivals)], p);
        CountConcat(slots, [Connection(dest, slot, arrivals)], p);
      }
      slots, arrivals := slots + [Connection(dest, slot, arrivals)], arrivals + 1;
      dest.SignalConnect(this);
    }

    method DisconnectAll()
      modifies this`slots, set c | c in slots :: c.dest
      ensures slots == []
      ensures forall c :: c in old(slots) ==> c.dest.senders == old(c.dest.senders) - {this}
    {
      var i := 0;
      while i < |slots|
        invariant 0 <= i <= |slots| && slots == old(slots)
        invariant forall c :: c in slots ==>
          c.dest.senders == old(c.dest.senders) - (if Targets(slots[..i], c.dest) then {this} else {})
      {
        slots[i].dest.SignalDisconnect(this);
        assert slots[..i + 1] == slots[..i] + [slots[i]];
        i := i + 1;
      }
      assert slots[..i] == slots;
      slots := [];
    }

    /** Removes the first connection to r and unregisters this signal from r. */
    method Disconnect(r: HasSlots)
      modifies this`slots, r
      ensures slots == WithoutFirst(old(slots), r)
      ensures r.senders == if Targets(old(slots), r) then old(r.senders) - {this} else old(r.senders)
    {
      var i := 0;
      while i < |slots|
        invariant 0 <= i <= |slots| && slots == old(slots) && r.senders == old(r.senders)
        invariant forall j :: 0 <= j < i ==> slots[j].dest != r
      {
        if slots[i].dest == r {
          assert FirstTo(slots, r) == i;
          slots := slots[..i] + slots[i + 1..];
          r.SignalDisconnect(this);
          return;
        }
        i := i + 1;
      }
    }

    /** Erases, while walking the list, every connection to r. */
    method SlotDisconnect(r: HasSlots)
      modifies this`slots
      ensures slots == Without(old(slots), r)
    {
      var it := 0;
      ghost var seen := 0;
      while it < |slots|
        invariant 0 <= it <= |slots| && 0 <= seen <= |old(slots)|
        invariant slots[..it] == Without(old(slots)[..seen], r)
        invariant slots[it..] == old(slots)[seen..]
        decreases |slots| - it
      {
        ghost var pre := slots;
        WithoutAppend(old(slots)[..seen], old(slots)[seen], r);
        assert old(slots)[..seen + 1] == old(slots)[..seen] + [old(slots)[seen]];
        assert pre[it] == pre[it..][0] == old(slots)[seen];
        if slots[it].dest == r {
          slots := slots[..it] + slots[it + 1..];
          assert slots[..it] == pre[..it] && slots[it..] == pre[it..][1..];
        } else {
          it := it + 1;
          assert slots[..it] == pre[..it - 1] + [pre[it - 1]];
          assert slots[it..] == pre[it - 1..][1..];
        }
        seen := seen + 1;
      }
      assert old(slots)[..seen] == old(slots) && slots[..it] == slots;
    }

    /** Walks the list while appending to it; the copies it meets are aimed elsewhere. */
    method SlotDuplicate(from: HasSlots, to: HasSlots)
      requires from != to
      modifies this
      ensures slots == old(slots) + Retargeted(old(slots), from, to, old(arrivals))
      ensures arrivals == old(arrivals) + Count(old(slots), from)
    {
      ghost var n, base := |slots|, arrivals;
      ghost var bound := n + |Retargeted(slots, from, to, base)|;
      var it := 0;
      while it < |slots|
        invariant 0 <= it <= |slots|
        invariant slots == old(slots) + Retargeted(old(slots)[..if it < n then it else n], from, to, base)
        invariant arrivals == base + Count(old(slots)[..if it < n then it else n], from)
        invariant it <= n || it <= bound
        decreases bound + n - it
      {
        assert old(slots)[..n] == old(slots);
        if it < n {
          RetargetedAppend(old(slots)[..it], old(slots)[it], from, to, base);
          CountConcat(old(slots)[..it], [old(slots)[it]], from);
          assert old(slots)[..it + 1] == old(slots)[..it] + [old(slots)[it]];
        } else {
          RetargetedAt(old(slots), from, to, base);
        }
        if slots[it].dest == from {
          slots, arrivals := slots + [Connection(to, slots[it].slot, arrivals)], arrivals + 1;
        }
        it := it + 1;
      }
      assert old(slots)[..n] == old(slots);
    }
  }

  class HasSlots {
    var senders: set<Signal>

    constructor ()
      ensures senders == {}
    {
      senders := {};
    }

    /** Copying a receiver duplicates every connection to it, aimed at the copy. */
    constructor Copy(hs: HasSlots)
      modifies hs.senders
      ensures senders == old(hs.senders)
      ensures forall s :: s in old(hs.senders) ==>
        && s.slots == old(s.slots) + Retargeted(old(s.slots), hs, this, old(s.arrivals))
        && s.arrivals == old(s.arrivals) + Count(old(s.slots), hs)
    {
      senders := {};
      new;
      var todo := hs.senders;
      while todo != {}
        invariant todo <= hs.senders == old(hs.senders) && senders == hs.senders - todo
        invariant forall s :: s in todo ==> s.slots == old(s.slots) && s.arrivals == old(s.arrivals)
        invariant forall s :: s in hs.senders - todo ==>
          && s.slots == old(s.slots) + Retargeted(old(s.slots), hs, this, old(s.arrivals))
          && s.arrivals == old(s.arrivals) + Count(old(s.slots), hs)
      {
        var s :| s in todo;
        s.SlotDuplicate(hs, this);
        senders := senders + {s};
        todo := todo - {s};
      }
    }

    method SignalConnect(sender: Signal)
      modifies this
      ensures senders == old(senders) + {sender}
    {
      senders := senders + {sender};
    }

    method SignalDisconnect(sender: Signal)
      modifies this
      ensures senders == old(senders) - {sender}
    {
      senders := senders - {sender};
    }

    method DisconnectAll()
      modifies this, set s | s in senders :: s`slots
      ensures senders == {}
      ensures forall s :: s in old(senders) ==> s.slots == Without(old(s.slots), this)
    {
      var todo := senders;
      while todo != {}
        invariant todo <= senders == old(senders)
        invariant forall s :: s in todo ==> s.slots == old(s.slots)
        invariant forall s :: s in senders - todo ==> s.slots == Without(old(s.slots), this)
      {
        var s :| s in todo;
        s.SlotDisconnect(this);
        todo := todo - {s};
      }
      senders := {};
    }
  }

  // ---- any number of signals and receivers ----

  function Nodes(conns: seq<Connection>): (r: seq<nat>)
    ensures |r| == |conns| && forall i :: 0 <= i < |r| ==> r[i] == conns[i].node
  {
    seq(|conns|, i requires 0 <= i < |conns| => conns[i].node)
  }

  function Position(conns: seq<Connection>, node: nat): (i: nat)
    requires node in Nodes(conns)
    ensures i < |conns| && conns[i].node == node
  {
    if conns[0].node == node then 0
    else
      var i :| 0 <= i < |conns| && Nodes(conns)[i] == node;
      assert Nodes(conns[1..])[i - 1] == node;
      1 + Position(conns[1..], node)
  }

  /** An emission that began with list0 has come to `it`: the connections before it that were
      there all the time have been called. */
  ghost predicate Walked(list0: seq<Connection>, called: seq<Connection>, it: E.Iterator, list: seq<Connection>) {
    && E.Increasing(Nodes(called))
    && (it.Node? ==> it.id in Nodes(list) && forall i :: 0 <= i < |called| ==> called[i].node < it.id)
    && (forall c :: c in list0 && c in list && (it.Node? ==> c.node < it.id) ==> c in called)
  }

  lemma WalkBegins(list: seq<Connection>, arrivals: nat)
    requires Ordered(list, arrivals)
    ensures Walked(list, [], E.Begin(Nodes(list)), list)
  {
    if list != [] {
      assert forall c :: c in list ==> list[0].node <= c.node;
      assert Nodes(list)[0] == list[0].node;
    }
  }

  lemma CalledInOrder(list0: seq<Connection>, called: seq<Connection>, c: Connection, list: seq<Connection>)
    requires Walked(list0, called, E.Node(c.node), list)
    ensures E.Increasing(Nodes(called + [c]))
  {
  }

  lemma WalkOn(list0: seq<Connection>, called: seq<Connection>, c: Connection, next: E.Iterator,
               list: seq<Connection>, arrivals: nat, list': seq<Connection>)
    requires Ordered(list0, arrivals) && Ordered(list, arrivals) && E.Increasing(Nodes(list))
    requires Walked(list0, called, E.Node(c.node), list) && c in list && next == E.After(Nodes(list), c.node)
    requires Descends(list', list, arrivals) && (next.Node? ==> next.id in Nodes(list'))
    ensures Walked(list0, called + [c], next, list')
  {
    CalledInOrder(list0, called, c, list);
    forall d | d in list0 && d in list' && (next.Node? ==> d.node < next.id) ensures d in called + [c] {
      assert d in list;
      var i :| 0 <= i < |list| && list[i] == d;
      var k :| 0 <= k < |list| && list[k] == c;
      assert d.node == Nodes(list)[i] && d.node in Nodes(list);
      assert d.node == c.node ==> i == k;
      assert (called + [c])[|called|] == c;
    }
  }

  datatype Outcome = Finished | NextErased | SignalDestroyed

  /** A connection called, with the receivers alive and the signal's list at that moment. */
  datatype Call = Call(conn: Connection, live: set<HasSlots>, list: seq<Connection>)

  /** An emission that began with list0 made these calls: the first went to the first
      connection, and each further one to the connection behind the one before it, in the
      list as it stood when that call began. */
  ghost predicate Traced(list0: seq<Connection>, made: seq<Call>) {
    && (forall i :: 0 <= i < |made| ==> IsRecord(made[i]))
    && (made != [] ==> list0 != [] && made[0].conn == list0[0] && made[0].list == list0)
    && (forall i :: 1 <= i < |made| ==> Behind(made[i - 1]) == E.Node(made[i].conn.node))
  }

  ghost predicate IsRecord(call: Call) {
    call.conn in call.list && E.Increasing(Nodes(call.list))
  }

  /** The connection behind the one called, when the call began. */
  ghost function Behind(call: Call): E.Iterator {
    if IsRecord(call) then E.After(Nodes(call.list), call.conn.node) else E.End
  }

  /** The connection in line after the calls made. */
  ghost function InLine(list0: seq<Connection>, made: seq<Call>): E.Iterator {
    if made == [] then E.Begin(Nodes(list0)) else Behind(made[|made| - 1])
  }

  function Called(made: seq<Call>): (r: seq<Connection>)
    ensures |r| == |made| && forall i :: 0 <= i < |r| ==> r[i] == made[i].conn
  {
    seq(|made|, i requires 0 <= i < |made| => made[i].conn)
  }

  lemma TracedMore(list0: seq<Connection>, made: seq<Call>, call: Call)
    requires Traced(list0, made) && InLine(list0, made) == E.Node(call.conn.node)
    requires IsRecord(call) && (made == [] ==> call.list == list0)
    ensures Traced(list0, made + [call])
    ensures InLine(list0, made + [call]) == E.After(Nodes(call.list), call.conn.node)
  {
    if made == [] { OnlyAtItsNode(list0, call.conn); }
  }

  /** The call is among those recorded from `from` on. */
  ghost predicate RecordedFrom(call: Call, calls: seq<Call>, from: nat) {
    exists j :: from <= j < |calls| && calls[j] == call
  }

  ghost predicate Since(made: seq<Call>, calls: seq<Call>, from: nat) {
    forall i :: 0 <= i < |made| ==> RecordedFrom(made[i], calls, from)
  }

  lemma RecordStays(call: Call, calls: seq<Call>, from: nat, calls': seq<Call>)
    requires RecordedFrom(call, calls, from) && calls <= calls'
    ensures RecordedFrom(call, calls', from)
  {
    var j :| from <= j < |calls| && calls[j] == call;
    assert calls'[j] == call;
  }

  lemma SinceMore(made: seq<Call>, calls: seq<Call>, from: nat, calls': seq<Call>)
    requires Since(made, calls, from) && from <= |calls| < |calls'| && calls <= calls'
    ensures Since(made + [calls'[|calls|]], calls', from)
  {
    forall i | 0 <= i < |made| ensures RecordedFrom(made[i], calls', from) {
      RecordStays(made[i], calls, from, calls');
    }
  }

  /** A list has one connection per node. */
  lemma OnlyAtItsNode(list: seq<Connection>, c: Connection)
    requires c in list && E.Increasing(Nodes(list)) && E.Begin(Nodes(list)) == E.Node(c.node)
    ensures list != [] && list[0] == c
  {
    var k :| 0 <= k < |list| && list[k] == c;
    assert Nodes(list)[0] == Nodes(list)[k];
  }

  /** The loop invariant of an emission. */
  ghost predicate Emitting(list0: seq<Connection>, called: seq<Connection>, made: seq<Call>, it: E.Iterator,
                           list: seq<Connection>) {
    && Walked(list0, called, it, list) && called == Called(made)
    && Traced(list0, made) && it == InLine(list0, made)
    && (made == [] ==> list == list0)
  }

  /** How an emission of list0 may end: at the end of the list, or, unless its signal is gone,
      because the connection in line is no longer in the list.  If it finished, every
      connection that was there throughout was called. */
  ghost predicate Emission(list0: seq<Connection>, called: seq<Connection>, made: seq<Call>, outcome: Outcome,
                           list: seq<Connection>) {
    var next := InLine(list0, made);
    && called == Called(made) && E.Increasing(Nodes(called)) && Traced(list0, made)
    && (outcome.NextErased? ==> next.Node? && next.id !in Nodes(list))
    && (outcome.Finished? ==> next == E.End && forall c :: c in list0 && c in list ==> c in called)
  }

  /** Under way, or ended early; when `quiet`, all slots so far did nothing. */
  ghost predicate Progress(list0: seq<Connection>, called: seq<Connection>, made: seq<Call>, it: E.Iterator,
                           outcome: Outcome, list: seq<Connection>, quiet: bool) {
    && (if outcome.Finished? then Emitting(list0, called, made, it, list)
        else Emission(list0, called, made, outcome, list))
    && (quiet ==> outcome.Finished? && list == list0 && InTurn(list0, called, it))
  }

  lemma EmittingBegins(list: seq<Connection>, arrivals: nat, quiet: bool)
    requires Ordered(list, arrivals)
    ensures Progress(list, [], [], E.Begin(Nodes(list)), Finished, list, quiet)
  {
    WalkBegins(list, arrivals);
  }

  lemma EmittingEnds(list0: seq<Connection>, called: seq<Connection>, made: seq<Call>, it: E.Iterator,
                     outcome: Outcome, list: seq<Connection>, quiet: bool)
    requires Progress(list0, called, made, it, outcome, list, quiet) && (outcome.Finished? ==> it == E.End)
    ensures Emission(list0, called, made, outcome, list)
    ensures quiet ==> outcome.Finished? && called == list0
  {
  }

  lemma EmittingMore(list0: seq<Connection>, called: seq<Connection>, made: seq<Call>, call: Call, next: E.Iterator,
                     list: seq<Connection>, arrivals: nat, list': seq<Connection>, more: bool)
    requires Ordered(list0, arrivals) && Ordered(list, arrivals)
    requires Emitting(list0, called, made, E.Node(call.conn.node), list)
    requires IsRecord(call) && call.list == list && next == E.After(Nodes(list), call.conn.node)
    requires more ==> Descends(list', list, arrivals) && (next.Node? ==> next.id in Nodes(list'))
    ensures var c := call.conn;
      && called + [c] == Called(made + [call]) && E.Increasing(Nodes(called + [c]))
      && Traced(list0, made + [call]) && InLine(list0, made + [call]) == next
      && (more ==> Emitting(list0, called + [c], made + [call], next, list'))
  {
    TracedMore(list0, made, call);
    CalledInOrder(list0, called, call.conn, list);
    if more { WalkOn(list0, called, call.conn, next, list, arrivals, list'); }
  }

  /** The calls so far are the front of a list that does not change, and `it` is what follows. */
  ghost predicate InTurn(list: seq<Connection>, called: seq<Connection>, it: E.Iterator) {
    called <= list && it == if |called| < |list| then E.Node(list[|called|].node) else E.End
  }

  lemma AfterIs(list: seq<nat>, k: nat)
    requires E.Increasing(list) && k < |list|
    ensures E.After(list, list[k]) == if k + 1 < |list| then E.Node(list[k + 1]) else E.End
  {
    var next := E.After(list, list[k]);
    if next.Node? {
      var j :| 0 <= j < |list| && list[j] == next.id;
    }
    if k + 1 < |list| {
      assert list[k + 1] in list;
    }
  }

  lemma InTurnMore(list: seq<Connection>, called: seq<Connection>, c: Connection, next: E.Iterator)
    requires InTurn(list, called, E.Node(c.node)) && c in list
    requires E.Increasing(Nodes(list)) && next == E.After(Nodes(list), c.node)
    ensures InTurn(list, called + [c], next)
  {
    var n := |called|;
    var k :| 0 <= k < |list| && list[k] == c;
    assert Nodes(list)[k] == Nodes(list)[n];
    AfterIs(Nodes(list), n);
  }

  /** The live signals and receivers of a program. */
  class World {
    var signals: set<Signal>
    var receivers: set<HasSlots>
    ghost var calls: seq<Call>

    /** No connection leaves the live receivers, no sender set leaves the live signals, and
        a signal is among a receiver's senders exactly when it holds a connection to it. */
    ghost predicate Mirror()
      reads this, signals, receivers
    {
      (forall r :: r in receivers ==> r.senders <= signals) && forall s :: s in signals ==> Mirrored(s)
    }

    ghost predicate Mirrored(s: Signal)
      reads this, s, receivers
    {
      && Ordered(s.slots, s.arrivals)
      && (forall i :: 0 <= i < |s.slots| ==> s.slots[i].dest in receivers)
      && (forall r :: r in receivers ==> (s in r.senders <==> Targets(s.slots, r)))
    }

    /** Every slot call so far went to a receiver that was alive. */
    ghost predicate CallsLive() reads this {
      forall i :: 0 <= i < |calls| ==> calls[i].conn.dest in calls[i].live
    }

    /** No call is forgotten, no object came back to life, and no erased connection came back to its list. */
    twostate predicate Evolved()
      reads this, signals
    {
      && old(calls) <= calls
      && (forall r :: r in receivers ==> r in old(receivers) || fresh(r))
      && (forall s :: s in signals ==> fresh(s) || s in old(signals))
      && (forall s :: s in old(signals) && s in signals ==> s.Evolved())
    }

    constructor ()
      ensures Mirror() && signals == {} && receivers == {} && calls == []
    {
      signals, receivers, calls := {}, {}, [];
    }

    method NewSignal() returns (s: Signal)
      requires Mirror()
      modifies this`signals
      ensures Mirror() && Evolved() && fresh(s) && s.slots == [] && signals == old(signals) + {s}
    {
      s := new Signal();
      signals := signals + {s};
    }

    method NewReceiver() returns (r: HasSlots)
      requires Mirror()
      modifies this`receivers
      ensures Mirror() && Evolved() && fresh(r) && receivers == old(receivers) + {r}
    {
      r := new HasSlots();
      receivers := receivers + {r};
    }

    method Connect(s: Signal, r: HasSlots, slot: nat)
      requires Mirror() && s in signals && r in receivers
      modifies s, r
      ensures Mirror() && Evolved()
      ensures s.slots == old(s.slots) + [Connection(r, slot, old(s.arrivals))]
    {
      s.Connect(r, slot);
      forall t | t in signals && t != s ensures Mirrored(t) {
        assert old(Mirrored(t));
      }
    }

    method CopySignal(s: Signal) returns (t: Signal)
      requires Mirror() && s in signals
      modifies this`signals, receivers
      ensures Mirror() && Evolved() && fresh(t) && t.slots == s.slots && signals == old(signals) + {t}
    {
      t := new Signal.Copy(s);
      assert Mirrored(t);
      forall u | u in signals ensures Mirrored(u) {
        assert old(Mirrored(u));
      }
      signals := signals + {t};
    }

    /** What the copy of a receiver does to its senders. */
    method DuplicateAll(r: HasSlots) returns (q: HasSlots)
      requires forall s :: s in r.senders ==> Ordered(s.slots, s.arrivals)
      modifies r.senders
      ensures fresh(q) && q.senders == r.senders
      ensures forall s :: s in old(r.senders) ==>
        s.slots == old(s.slots) + Retargeted(old(s.slots), r, q, old(s.arrivals))
      ensures forall s :: s in old(r.senders) ==> Ordered(s.slots, s.arrivals) && s.Evolved()
      ensures forall s, i :: s in old(r.senders) && 0 <= i < |s.slots| ==>
        s.slots[i] in old(s.slots) || s.slots[i].dest == q
      ensures forall s, p :: s in old(r.senders) ==>
        (Targets(s.slots, p) <==> Targets(old(s.slots), p) || (p == q && Targets(old(s.slots), r)))
    {
      q := new HasSlots.Copy(r);
      forall s | s in old(r.senders)
        ensures Ordered(s.slots, s.arrivals) && s.Evolved()
        ensures forall c :: c in s.slots ==> c in old(s.slots) || c.dest == q
      {
        DuplicatedOrdered(old(s.slots), r, q, old(s.arrivals));
      }
      forall s, p: HasSlots | s in old(r.senders)
        ensures Targets(s.slots, p) <==> Targets(old(s.slots), p) || (p == q && Targets(old(s.slots), r))
      {
        TargetsDuplicated(old(s.slots), r, q, old(s.arrivals), p);
      }
    }

    method CopyReceiver(r: HasSlots) returns (q: HasSlots)
      requires Mirror() && r in receivers
      modifies this`receivers, signals
      ensures Mirror() && Evolved() && fresh(q) && q.senders == r.senders && receivers == old(receivers) + {q}
      ensures forall s :: s in signals ==>
        s.slots == old(s.slots) + Retargeted(old(s.slots), r, q, old(s.arrivals))
    {
      q := DuplicateAll(r);
      receivers := receivers + {q};
      forall s | s in signals
        ensures Mirrored(s) && s.Evolved()
      {
        assert old(Mirrored(s));
      }
      forall s | s in signals && s !in old(r.senders)
        ensures Retargeted(old(s.slots), r, q, old(s.arrivals)) == []
      {
        assert old(Mirrored(s));
        NoneRetargeted(old(s.slots), r, q, old(s.arrivals));
      }
    }

    /** `disconnect_all` on a signal that lives on. */
    method ClearSignal(s: Signal)
      requires Mirror() && s in signals
      modifies s, receivers
      ensures Mirror() && Evolved() && s.slots == []
    {
      s.DisconnectAll();
      assert Mirrored(s);
      forall t | t in signals && t != s ensures Mirrored(t) {
        assert old(Mirrored(t));
      }
    }

    /** `disconnect_all` on a receiver that lives on. */
    method ClearReceiver(r: HasSlots)
      requires Mirror() && r in receivers
      modifies r, signals
      ensures Mirror() && Evolved() && r.senders == {}
      ensures forall s :: s in signals ==> s.slots == Without(old(s.slots), r)
    {
      r.DisconnectAll();
      forall s: Signal, p: HasSlots | s in signals
        ensures Targets(s.slots, p) <==> p != r && Targets(old(s.slots), p)
      {
        TargetsWithout(old(s.slots), r, p);
        NotTargeted(old(s.slots), r);
      }
      forall s: Signal | s in signals
        ensures Ordered(s.slots, s.arrivals) && Descends(s.slots, old(s.slots), old(s.arrivals))
        ensures s.slots == Without(old(s.slots), r)
      {
        WithoutOrdered(old(s.slots), r, s.arrivals);
        NotTargeted(old(s.slots), r);
      }
      forall s: Signal, i | s in signals && 0 <= i < |s.slots|
        ensures s.slots[i].dest in receivers
      {
        assert Targets(s.slots, s.slots[i].dest);
      }
    }

    method DestroySignal(s: Signal)
      requires Mirror() && s in signals
      modifies this`signals, s, receivers
      ensures Mirror() && Evolved() && signals == old(signals) - {s}
    {
      ClearSignal(s);
      forall r | r in receivers ensures s !in r.senders {
        assert Mirrored(s);
      }
      signals := signals - {s};
      forall t | t in signals ensures Mirrored(t) {
      }
    }

    method DestroyReceiver(r: HasSlots)
      requires Mirror() && r in receivers
      modifies this`receivers, r, signals
      ensures Mirror() && Evolved() && receivers == old(receivers) - {r}
      ensures forall s :: s in signals ==> s.slots == Without(old(s.slots), r)
    {
      ClearReceiver(r);
      forall t | t in signals ensures !Targets(t.slots, r) {
        assert Mirrored(t);
      }
      receivers := receivers - {r};
      forall t | t in signals ensures Mirrored(t) {
        forall i | 0 <= i < |t.slots| ensures t.slots[i].dest in receivers {
          assert !Targets(t.slots, r);
        }
      }
    }

    method DropFirst(s: Signal, r: HasSlots)
      requires Ordered(s.slots, s.arrivals)
      modifies s`slots, r
      ensures Ordered(s.slots, s.arrivals) && s.Evolved() && s.slots == WithoutFirst(old(s.slots), r)
      ensures r.senders == if Count(old(s.slots), r) > 0 then old(r.senders) - {s} else old(r.senders)
      ensures forall p :: Targets(s.slots, p) <==> Targets(old(s.slots), p) && (p == r ==> Count(old(s.slots), r) > 1)
    {
      s.Disconnect(r);
      forall p: HasSlots
        ensures Targets(s.slots, p) <==> Targets(old(s.slots), p) && (p == r ==> Count(old(s.slots), r) > 1)
      {
        TargetsWithoutFirst(old(s.slots), r, p);
      }
      WithoutFirstOrdered(old(s.slots), r, s.arrivals);
      CountIsTargets(old(s.slots), r);
    }

    /** The exact condition under which `disconnect` keeps the two sides in step. */
    method Disconnect(s: Signal, r: HasSlots)
      requires Mirror() && s in signals && r in receivers
      modifies s, r
      ensures Evolved() && (Mirror() <==> Count(old(s.slots), r) <= 1)
      ensures s.slots == WithoutFirst(old(s.slots), r)
    {
      DropFirst(s, r);
      CountIsTargets(old(s.slots), r);
      assert Evolved();
      if Count(old(s.slots), r) > 1 {
        assert s !in r.senders && Targets(s.slots, r);
        assert !Mirrored(s) && !Mirror();
      } else {
        forall i | 0 <= i < |s.slots| ensures s.slots[i].dest in receivers {
          assert Targets(s.slots, s.slots[i].dest);
        }
        assert Mirrored(s);
        forall t | t in signals && t != s ensures Mirrored(t) {
          assert old(Mirrored(t));
        }
        assert Mirror();
      }
    }

    /** What the broken mirror costs: the receiver no longer knows the signal, so destroying
        it leaves exactly the connections that `disconnect` did not remove, dangling. */
    method DisconnectThenDestroy(s: Signal, r: HasSlots)
      requires Mirror() && s in signals && r in receivers
      modifies this, s, r, signals
      ensures r !in receivers && r.senders == {}
      ensures Targets(s.slots, r) <==> Count(old(s.slots), r) > 1
      ensures forall t :: t in signals && t != s ==> !Targets(t.slots, r)
    {
      s.Disconnect(r);
      CountIsTargets(old(s.slots), r);
      CountIsTargets(s.slots, r);
      CountWithoutFirst(old(s.slots), r, r);
      r.DisconnectAll();
      receivers := receivers - {r};
      forall t | t in signals && t != s ensures !Targets(t.slots, r) {
        assert old(Mirrored(t));
        TargetsWithout(old(t.slots), r, r);
      }
    }

    /** Any operation on any live objects.  `disconnect` is used only on a receiver connected
        at most once. */
    method AnyOperation()
      requires Mirror()
      modifies this`signals, this`receivers, signals, receivers
      ensures Mirror() && Evolved()
    {
      if {
        case true => var _ := NewSignal();
        case true => var _ := NewReceiver();
        case signals != {} && receivers != {} =>
          var s :| s in signals;
          var r :| r in receivers;
          var slot: nat := *;
          Connect(s, r, slot);
        case signals != {} => var s :| s in signals; var _ := CopySignal(s);
        case receivers != {} => var r :| r in receivers; var _ := CopyReceiver(r);
        case signals != {} => var s :| s in signals; DestroySignal(s);
        case receivers != {} => var r :| r in receivers; DestroyReceiver(r);
        case signals != {} => var s :| s in signals; ClearSignal(s);
        case receivers != {} => var r :| r in receivers; ClearReceiver(r);
        case signals != {} && receivers != {} =>
          var s :| s in signals;
          var r :| r in receivers;
          if Count(s.slots, r) <= 1 { Disconnect(s, r); }
      }
    }

    /** The most general client: any number of operations and emissions, in any order. */
    method AnyRun(n: nat)
      requires Mirror() && CallsLive()
      modifies this, signals, receivers
      ensures Mirror() && CallsLive() && Evolved()
      ensures n == 0 ==> unchanged(this, old(signals), old(receivers))
      decreases n, 0
    {
      if n == 0 { return; }
      if {
        case true => AnyOperation();
        case signals != {} => var s :| s in signals; var _, _, _ := Emit(s, n - 1);
      }
      AnyRun(n - 1);
    }

    /** Calls a slot, whose body makes any n operations and emissions. */
    method CallSlot(c: Connection, n: nat, ghost list: seq<Connection>)
      requires Mirror() && CallsLive() && c.dest in receivers
      modifies this, signals, receivers
      ensures Mirror() && CallsLive() && Evolved()
      ensures n == 0 ==> unchanged(this`signals, this`receivers, old(signals), old(receivers))
      ensures |calls| > |old(calls)| && calls[|old(calls)|] == Call(c, old(receivers), list)
      decreases n, 1
    {
      calls := calls + [Call(c, receivers, list)];
      AnyRun(n);
    }

    /** One round of the loop: saves the next iterator and calls the slot. */
    method CallNode(s: Signal, node: nat, n: nat) returns (c: Connection, next: E.Iterator)
      requires Mirror() && CallsLive() && s in signals && node in Nodes(s.slots)
      modifies this, signals, receivers
      ensures Mirror() && CallsLive() && Evolved()
      ensures n == 0 ==> unchanged(this`signals, this`receivers, old(signals), old(receivers))
      ensures c in old(s.slots) && c.node == node
      ensures |calls| > |old(calls)| && calls[|old(calls)|] == Call(c, old(receivers), old(s.slots))
      ensures E.Increasing(Nodes(old(s.slots))) && next == E.After(Nodes(old(s.slots)), node)
      decreases n, 2
    {
      c := s.slots[Position(s.slots, node)];
      next := E.After(Nodes(s.slots), node);
      CallSlot(c, n, s.slots);
    }

    /** One round, and what the caller of the slot finds when it comes back. */
    method EmitRound(s: Signal, node: nat, n: nat) returns (c: Connection, next: E.Iterator, outcome: Outcome)
      requires Mirror() && CallsLive() && s in signals && node in Nodes(s.slots)
      modifies this, signals, receivers
      ensures Mirror() && CallsLive() && Evolved()
      ensures n == 0 ==> unchanged(this`signals, this`receivers, old(signals), old(receivers))
      ensures |calls| > |old(calls)| && calls[|old(calls)|] == Call(c, old(receivers), old(s.slots))
      ensures c.node == node && c in old(s.slots)
      ensures E.Increasing(Nodes(old(s.slots))) && next == E.After(Nodes(old(s.slots)), node)
      ensures outcome.SignalDestroyed? <==> s !in signals
      ensures outcome.NextErased? <==> s in signals && next.Node? && next.id !in Nodes(s.slots)
      decreases n, 3
    {
      c, next := CallNode(s, node, n);
      outcome := if s !in signals then SignalDestroyed
                 else if next.Node? && next.id !in Nodes(s.slots) then NextErased
                 else Finished;
    }

    /** A round of an emission that has come to `node`, in the terms of the whole emission. */
    method EmitStep(s: Signal, node: nat, n: nat, ghost list0: seq<Connection>, ghost called: seq<Connection>,
                    ghost made: seq<Call>, ghost from: nat, ghost quiet: bool)
      returns (c: Connection, next: E.Iterator, outcome: Outcome, ghost call: Call)
      requires Mirror() && CallsLive() && s in signals && Ordered(list0, s.arrivals)
      requires Progress(list0, called, made, E.Node(node), Finished, s.slots, quiet) && (quiet ==> n == 0)
      requires from <= |calls| && Since(made, calls, from)
      modifies this, signals, receivers
      ensures Mirror() && CallsLive() && Evolved() && Since(made + [call], calls, from)
      ensures n == 0 ==> unchanged(this`signals, this`receivers, old(signals), old(receivers))
      ensures next.Node? ==> next.id > node
      ensures outcome.SignalDestroyed? <==> s !in signals
      ensures Progress(list0, called + [c], made + [call], next, outcome, s.slots, quiet)
      ensures outcome.Finished? && next.Node? ==> next.id < s.arrivals
      decreases n, 4
    {
      ghost var list, arrivals, before := s.slots, s.arrivals, calls;
      c, next, outcome := EmitRound(s, node, n);
      call := calls[|before|];
      SinceMore(made, before, from, calls);
      if quiet { InTurnMore(list, called, c, next); }
      EmittingMore(list0, called, made, call, next, list, arrivals, s.slots, outcome.Finished?);
    }

    /** The slots called make up to n operations and emissions between them.  Every call goes
        to a live receiver, and to the connection in line.  Slots that do nothing are all
        called. */
    method Emit(s: Signal, n: nat) returns (called: seq<Connection>, outcome: Outcome, ghost made: seq<Call>)
      requires Mirror() && CallsLive() && s in signals
      modifies this, signals, receivers
      ensures Mirror() && CallsLive() && Evolved()
      ensures Emission(old(s.slots), called, made, outcome, s.slots) && Since(made, calls, |old(calls)|)
      ensures outcome.SignalDestroyed? <==> s !in signals
      ensures n == 0 ==> outcome.Finished? && called == old(s.slots)
      decreases n, 5
    {
      ghost var list0 := s.slots;
      called, outcome, made := [], Finished, [];
      var it := E.Begin(Nodes(s.slots));
      var budget: nat := n;
      EmittingBegins(s.slots, s.arrivals, n == 0);
      while it.Node? && outcome.Finished?
        invariant Mirror() && CallsLive() && Evolved() && (outcome.SignalDestroyed? <==> s !in signals)
        invariant Progress(list0, called, made, it, outcome, s.slots, n == 0) && Since(made, calls, |old(calls)|)
        invariant budget <= n && (it.Node? && outcome.Finished? ==> it.id < s.arrivals)
        decreases budget, !outcome.SignalDestroyed? && !outcome.NextErased?, if it.Node? then s.arrivals - it.id else 0
      {
        var m: nat :| 0 <= m <= budget;
        var c;
        ghost var call;
        label Before:
        c, it, outcome, call := EmitStep(s, it.id, m, list0, called, made, |old(calls)|, n == 0);
        forall t | t in old(signals) && t in signals ensures t.Evolved() {
          assert t in old@Before(signals) && t.Evolved@Before();
          DescendsFurther(t.slots, old@Before(t.slots), old@Before(t.arrivals), old(t.slots), old(t.arrivals));
        }
        called, made, budget := called + [c], made + [call], budget - m;
      }
      EmittingEnds(list0, called, made, it, outcome, s.slots, n == 0);
    }
  }
}
