/** Reference-linked pointers, include/base/linked_ptr.h: the owners of one object form a
    circular doubly linked list, and the last one to leave deletes the object. */
module LinkedPtrs {

  /** The pointee; only its identity matters. */
  class Pointee {
    constructor () {}
  }

  ghost predicate Distinct(ring: seq<LinkedPtr>) {
    forall i, j :: 0 <= i < j < |ring| ==> ring[i] != ring[j]
  }

  /** `ring` lists, in `next` order, the members of one closed ring. */
  ghost predicate Linked(ring: seq<LinkedPtr>)
    reads ring
  {
    && ring != []
    && (forall i {:trigger ring[i].itsNext} :: 0 <= i < |ring| - 1 ==> ring[i].itsNext == ring[i + 1])
    && (forall i {:trigger ring[i].itsPrev} :: 1 <= i < |ring| ==> ring[i].itsPrev == ring[i - 1])
    && ring[|ring| - 1].itsNext == ring[0] && ring[0].itsPrev == ring[|ring| - 1]
  }

  /** A closed ring without repetition whose members all know it and share one pointee. */
  ghost predicate IsRing(ring: seq<LinkedPtr>)
    reads ring
  {
    && Linked(ring) && Distinct(ring)
    && (forall q :: q in ring ==> q.ring == ring && q.itsPtr == ring[0].itsPtr)
  }

  /** The same ring told from the member after position k on. */
  function Rotate(ring: seq<LinkedPtr>, k: nat): (r: seq<LinkedPtr>)
    requires k < |ring|
    ensures |r| == |ring| && r[|r| - 1] == ring[k]
    ensures (forall q :: q in r ==> q in ring) && (forall q :: q in ring ==> q in r)
  {
    assert ring == ring[..k + 1] + ring[k + 1..];
    ring[k + 1..] + ring[..k + 1]
  }

  lemma RotateLinked(ring: seq<LinkedPtr>, k: nat)
    requires Linked(ring) && k < |ring|
    ensures Linked(Rotate(ring, k))
  {
    var r, n := Rotate(ring, k), |ring|;
    forall i {:trigger r[i].itsNext} | 0 <= i < n - 1 ensures r[i].itsNext == r[i + 1] {
      if i < n - k - 1 { assert r[i] == ring[i + k + 1]; } else { assert r[i] == ring[i + k + 1 - n]; }
    }
    forall i {:trigger r[i].itsPrev} | 1 <= i < n ensures r[i].itsPrev == r[i - 1] {
      if i < n - k - 1 { assert r[i] == ring[i + k + 1]; } else { assert r[i] == ring[i + k + 1 - n]; }
    }
  }

  lemma RotateDistinct(ring: seq<LinkedPtr>, k: nat)
    requires Distinct(ring) && k < |ring|
    ensures Distinct(Rotate(ring, k))
  {
  }

  lemma DistinctSnoc(ring: seq<LinkedPtr>, x: LinkedPtr)
    requires Distinct(ring) && x !in ring
    ensures Distinct(ring + [x])
  {
  }

  class LinkedPtr {
    var itsPtr: Pointee?
    var itsPrev: LinkedPtr?
    var itsNext: LinkedPtr?
    ghost var ring: seq<LinkedPtr>

    constructor (p: Pointee?)
      ensures itsPtr == p && ring == [this] && IsRing(ring)
    {
      itsPtr := p;
      itsPrev, itsNext := this, this;
      ring := [this];
    }

    predicate Unique() reads this { if itsPrev != null then itsPrev == this else true }

    /** `unique()` tells exactly the rings of size one. */
    lemma UniqueIffAlone()
      requires IsRing(ring) && this in ring
      ensures Unique() <==> |ring| == 1
    {
      var i :| 0 <= i < |ring| && ring[i] == this;
      assert i > 0 ==> ring[i].itsPrev == ring[i - 1];
    }

    /** The pointer assignments of `acquire`, r being told last. */
    method LinkAfter(r: LinkedPtr, ghost was: seq<LinkedPtr>)
      requires Linked(was) && Distinct(was) && was[|was| - 1] == r && this !in was
      modifies this`itsPrev, this`itsNext, was`itsPrev, was`itsNext
      ensures Linked(was + [this])
    {
      assert was[|was| - 1] in was && was[0] in was;
      itsNext := r.itsNext;
      itsNext.itsPrev := this;
      itsPrev := r;
      r.itsNext := this;
      assert forall i :: 0 <= i < |was| ==> (was + [this])[i] == was[i] && was[i] in was;
    }

    /** Enters a ring, told up to r, as its new last member. */
    method Enter(r: LinkedPtr, ghost was: seq<LinkedPtr>)
      requires Linked(was) && Distinct(was) && was[|was| - 1] == r && this !in was
      requires forall q :: q in was ==> q.itsPtr == r.itsPtr
      modifies this, was
      ensures ring == was + [this] && IsRing(ring) && itsPtr == old(r.itsPtr)
      ensures forall q :: q in was ==> q.itsPtr == old(r.itsPtr)
    {
      assert r in was;
      itsPtr := r.itsPtr;
      LinkAfter(r, was);
      DistinctSnoc(was, this);
      Relabel(was + [this]);
    }

    /** Inserts this pointer after r in r's ring. */
    method Acquire(r: LinkedPtr, ghost k: nat)
      requires IsRing(r.ring) && k < |r.ring| && r.ring[k] == r && this !in r.ring
      modifies this, r.ring
      ensures ring == Rotate(old(r.ring), k) + [this] && IsRing(ring) && itsPtr == old(r.itsPtr)
      ensures forall q :: q in old(r.ring) ==> q.itsPtr == old(r.itsPtr)
    {
      RotateLinked(r.ring, k);
      RotateDistinct(r.ring, k);
      Enter(r, Rotate(r.ring, k));
    }

    /** The three assignments that close the ring behind a leaving member. */
    method Unlink(ghost was: seq<LinkedPtr>)
      requires Linked(was) && Distinct(was) && |was| > 1 && was[|was| - 1] == this
      modifies was`itsPrev, was`itsNext
      ensures Linked(was[..|was| - 1]) && itsPrev == null && itsNext == null
    {
      ghost var n := |was|;
      assert was[n - 2] in was && was[0] in was && was[n - 1] in was;
      assert was[n - 1].itsPrev == was[n - 2];
      itsPrev.itsNext := itsNext;
      itsNext.itsPrev := itsPrev;
      itsPrev, itsNext := null, null;
      assert forall i :: 0 <= i < n - 1 ==> was[..n - 1][i] == was[i] && was[i] != this;
    }

    /** Leaves a ring, told from the next member on, that others stay in. */
    method Leave(ghost was: seq<LinkedPtr>)
      requires Linked(was) && Distinct(was) && |was| > 1 && was[|was| - 1] == this
      requires forall q :: q in was ==> q.itsPtr == itsPtr
      modifies was
      ensures IsRing(was[..|was| - 1]) && itsPtr == null && itsPrev == null && itsNext == null
      ensures forall q :: q in was[..|was| - 1] ==> q.itsPtr == old(itsPtr)
    {
      ghost var now := was[..|was| - 1];
      assert forall q :: q in now ==> q in was && q != this;
      assert this in was;
      Unlink(was);
      Relabel(now);
      itsPtr := null;
      assert now[0] in now;
    }

    /** Takes this pointer out of its ring and, as its last owner, deletes the pointee:
        `gone` is what was passed to `delete`, null if nothing was. */
    method Release(ghost k: nat) returns (gone: Pointee?)
      requires IsRing(ring) && k < |ring| && ring[k] == this
      modifies ring
      ensures gone == (if |old(ring)| == 1 then old(itsPtr) else null) && itsPtr == null
      ensures Unique()
      ensures |old(ring)| == 1 ==> ring == [this] && IsRing(ring)
      ensures |old(ring)| > 1 ==> itsPrev == null && itsNext == null
      ensures |old(ring)| > 1 ==> IsRing(Others(old(ring), k))
      ensures |old(ring)| > 1 ==> forall q :: q in Others(old(ring), k) ==> q.itsPtr == old(itsPtr)
    {
      assert ring[k] in ring;
      UniqueIffAlone();
      if Unique() {
        gone := itsPtr;
        itsPtr := null;
      } else {
        RotateLinked(ring, k);
        RotateDistinct(ring, k);
        ghost var was := Rotate(ring, k);
        assert |was| > 1 && was[|was| - 1] == this && forall q :: q in was ==> q.itsPtr == itsPtr;
        ghost var rest := was[..|was| - 1];
        assert rest == Others(ring, k);
        Leave(was);
        assert IsRing(rest);
        gone := null;
      }
    }
  }

  /** The ring without its member at position k. */
  function Others(ring: seq<LinkedPtr>, k: nat): seq<LinkedPtr>
    requires k < |ring|
  {
    Rotate(ring, k)[..|ring| - 1]
  }

  lemma OthersMembers(ring: seq<LinkedPtr>, k: nat, q: LinkedPtr)
    requires k < |ring| && Distinct(ring)
    ensures q in Others(ring, k) <==> q in ring && q != ring[k]
  {
    var r := Rotate(ring, k);
    RotateDistinct(ring, k);
    assert r == Others(ring, k) + [ring[k]];
  }

  /** Bookkeeping: tells every member which ring it is in now. */
  ghost method Relabel(now: seq<LinkedPtr>)
    requires Linked(now)
    modifies now`ring
    ensures Linked(now) && forall q :: q in now ==> q.ring == now
  {
    forall q | q in now { q.ring := now; }
  }

  // ---- any number of pointers ----

  /** p is a member of one closed ring made of pointers in `live`. */
  ghost predicate InRing(p: LinkedPtr, live: set<LinkedPtr>)
    reads p, live
  {
    p in p.ring && (forall q :: q in p.ring ==> q in live) && IsRing(p.ring)
  }

  /** Pointers to one object are all in one ring. */
  ghost predicate OneRingEach(live: set<LinkedPtr>)
    reads live
  {
    forall p, q :: p in live && q in live && p.itsPtr == q.itsPtr != null ==> p.ring == q.ring
  }

  ghost predicate Rings(live: set<LinkedPtr>)
    reads live
  {
    (forall p :: p in live ==> InRing(p, live)) && OneRingEach(live)
  }

  /** Rings do not touch. */
  lemma RingsDisjoint(p: LinkedPtr, q: LinkedPtr, live: set<LinkedPtr>)
    requires InRing(p, live) && InRing(q, live) && p !in q.ring
    ensures forall x :: x in p.ring ==> x !in q.ring
  {
    forall x | x in p.ring ensures x !in q.ring { assert x.ring == p.ring; }
  }

  /** A ring none of whose members changed is still there. */
  twostate lemma RingUntouched(ring: seq<LinkedPtr>)
    requires old(IsRing(ring)) && forall q :: q in ring ==> unchanged(q)
    ensures IsRing(ring)
  {
    assert forall i :: 0 <= i < |ring| ==> ring[i] in ring;
  }

  /** Links a pointer that is in no ring into r's ring. */
  method Join(x: LinkedPtr, r: LinkedPtr, ghost live: set<LinkedPtr>)
    requires Rings(live) && r in live && x !in live
    modifies live, x
    ensures Rings(live + {x}) && x.itsPtr == old(r.itsPtr)
    ensures forall p :: p in live ==> p.itsPtr == old(p.itsPtr)
  {
    assert InRing(r, live);
    ghost var was := r.ring;
    ghost var k :| 0 <= k < |was| && was[k] == r;
    forall p | p in live && p !in was ensures forall y :: y in p.ring ==> y !in was {
      assert InRing(p, live);
      RingsDisjoint(p, r, live);
    }
    x.Acquire(r, k);
    ghost var now := x.ring;
    assert forall q :: q in now ==> q in live + {x};
    forall p | p in live + {x} ensures InRing(p, live + {x}) {
      if p !in now {
        assert p in live && p !in was;
        assert old(InRing(p, live));
        assert p.ring == old(p.ring);
        assert forall y :: y in p.ring ==> y !in was && y != x;
        RingUntouched(p.ring);
      }
    }
  }

  /** What a departure from ring `was` does to the ring of pointer p. */
  ghost function RingAfter(ring: seq<LinkedPtr>, was: seq<LinkedPtr>, k: nat): seq<LinkedPtr>
    requires k < |was|
  {
    if ring == was then Others(was, k) else ring
  }

  /** Takes a pointer out of its ring. */
  method Detach(x: LinkedPtr, ghost k: nat, ghost live: set<LinkedPtr>) returns (gone: Pointee?)
    requires (forall p :: p in live ==> InRing(p, live)) && x in live && k < |x.ring| && x.ring[k] == x
    modifies live
    ensures gone == (if |old(x.ring)| == 1 then old(x.itsPtr) else null) && x.itsPtr == null
    ensures forall p :: p in live && p != x ==> p.itsPtr == old(p.itsPtr)
    ensures forall p :: p in live && p != x ==> p.ring == RingAfter(old(p.ring), old(x.ring), k)
    ensures forall p :: p in live && p != x ==> InRing(p, live - {x})
  {
    assert InRing(x, live);
    ghost var was := x.ring;
    forall p | p in live
      ensures p in was <==> p.ring == was
      ensures p !in was ==> forall y :: y in p.ring ==> y !in was
    {
      assert InRing(p, live);
      if p !in was { RingsDisjoint(p, x, live); }
    }
    forall p | p in live ensures p in was && p != x <==> p in Others(was, k) { OthersMembers(was, k, p); }
    gone := x.Release(k);
    forall p | p in live && p != x ensures InRing(p, live - {x}) {
      assert old(InRing(p, live));
      if p !in was {
        assert forall y :: y in old(p.ring) ==> y !in was;
        RingUntouched(old(p.ring));
      }
    }
  }

  // ---- deleted exactly once ----

  /** Which live pointer points where, the objects ever handed to a pointer, and what has
      been deleted, with multiplicity. */
  datatype Books = Books(targets: map<LinkedPtr, Pointee?>, adopted: set<Pointee>, deleted: multiset<Pointee>)

  /** The books tell the truth about memory, and memory is made of rings. */
  ghost predicate Kept(t: map<LinkedPtr, Pointee?>)
    reads t.Keys
  {
    Rings(t.Keys) && forall p :: p in t ==> p.itsPtr == t[p]
  }

  predicate Owned(o: Pointee, t: map<LinkedPtr, Pointee?>) {
    exists p :: p in t && t[p] == o
  }

  /** The object that dies with pointer x: the one nobody else points to. */
  function Dying(t: map<LinkedPtr, Pointee?>, x: LinkedPtr): Pointee?
    requires x in t
  {
    if t[x] != null && !Owned(t[x], t - {x}) then t[x] else null
  }

  /** The sole member of a ring is the sole pointer to its object, and conversely. */
  lemma AloneIffSoleOwner(x: LinkedPtr, t: map<LinkedPtr, Pointee?>)
    requires Kept(t) && x in t && t[x] != null
    ensures |x.ring| == 1 <==> !Owned(t[x], t - {x})
  {
    var live := t.Keys;
    assert InRing(x, live);
    if |x.ring| == 1 {
      forall p | p in live && p != x ensures t[p] != t[x] {
        assert InRing(p, live);
        assert x.ring == [x];
      }
    } else {
      assert x.ring[0] in x.ring && x.ring[1] in x.ring && x.ring[0] != x.ring[1];
      var p := if x.ring[0] == x then x.ring[1] else x.ring[0];
      assert p in x.ring;
      assert p in t - {x} && (t - {x})[p] == t[x];
    }
  }

  /** Takes a pointer out of its ring, deleting the object exactly when it was the last
      pointer to it. */
  method Part(x: LinkedPtr, ghost t: map<LinkedPtr, Pointee?>) returns (gone: Pointee?)
    requires Kept(t) && x in t
    modifies t.Keys
    ensures gone == Dying(t, x) && x.itsPtr == null && Kept(t - {x})
  {
    ghost var live := t.Keys;
    assert InRing(x, live);
    ghost var k :| 0 <= k < |x.ring| && x.ring[k] == x;
    if x.itsPtr != null { AloneIffSoleOwner(x, t); }
    gone := Detach(x, k, live);
    assert (t - {x}).Keys == live - {x};
    assert OneRingEach(live - {x});
  }

  /** An adopted object is alive while some live pointer owns it and has been deleted exactly
      once otherwise; nothing else has been deleted. */
  ghost predicate Accounts(b: Books) {
    && (forall p :: p in b.targets && b.targets[p] != null ==> b.targets[p] in b.adopted)
    && (forall o :: o in b.adopted ==> b.deleted[o] == if Owned(o, b.targets) then 0 else 1)
    && (forall o :: o in b.deleted ==> o in b.adopted)
  }

  function AfterMake(b: Books, x: LinkedPtr, o: Pointee?): Books {
    Books(b.targets[x := o], if o == null then b.adopted else b.adopted + {o}, b.deleted)
  }

  function AfterCopy(b: Books, x: LinkedPtr, r: LinkedPtr): Books
    requires r in b.targets
  {
    b.(targets := b.targets[x := b.targets[r]])
  }

  function AfterDrop(b: Books, x: LinkedPtr): Books
    requires x in b.targets
  {
    var gone := Dying(b.targets, x);
    Books(b.targets - {x}, b.adopted, if gone == null then b.deleted else b.deleted + multiset{gone})
  }

  lemma MakeKeepsAccounts(b: Books, x: LinkedPtr, o: Pointee?)
    requires Accounts(b) && x !in b.targets && (o != null ==> o !in b.adopted)
    ensures Accounts(AfterMake(b, x, o))
  {
    var t, u := b.targets, AfterMake(b, x, o).targets;
    forall q | q in b.adopted ensures Owned(q, u) <==> Owned(q, t) {
      if Owned(q, t) { var p: LinkedPtr :| p in t && t[p] == q; assert p in u && u[p] == q; }
    }
    if o != null { assert x in u && u[x] == o && o !in b.deleted; }
  }

  lemma CopyKeepsAccounts(b: Books, x: LinkedPtr, r: LinkedPtr)
    requires Accounts(b) && r in b.targets && x !in b.targets
    ensures Accounts(AfterCopy(b, x, r))
  {
    var t, u := b.targets, AfterCopy(b, x, r).targets;
    forall o | o in b.adopted ensures Owned(o, u) <==> Owned(o, t) {
      if Owned(o, t) { var p: LinkedPtr :| p in t && t[p] == o; assert p in u && u[p] == o; }
    }
  }

  lemma DropKeepsAccounts(b: Books, x: LinkedPtr)
    requires Accounts(b) && x in b.targets
    ensures Accounts(AfterDrop(b, x))
  {
    var t, u, gone := b.targets, b.targets - {x}, Dying(b.targets, x);
    forall q | q in b.adopted && q != gone ensures Owned(q, u) <==> Owned(q, t) {
      if Owned(q, t) {
        var p: LinkedPtr :| p in t && t[p] == q;
        if p != x { assert p in u && u[p] == q; }
      }
      if Owned(q, u) { var p: LinkedPtr :| p in u && u[p] == q; assert p in t && t[p] == q; }
    }
    if gone != null { assert Owned(gone, t); }
  }

  /** What has been deleted once x is gone: one more object if no other pointer points to it. */
  ghost function Deleted(b: Books, x: LinkedPtr): multiset<Pointee>
    requires x in b.targets
  {
    var o := b.targets[x];
    if o != null && forall p :: p in b.targets && p != x ==> b.targets[p] != o
    then b.deleted + multiset{o} else b.deleted
  }

  lemma DropDeletes(b: Books, x: LinkedPtr)
    requires x in b.targets
    ensures AfterDrop(b, x).deleted == Deleted(b, x)
  {
    var o, t, u := b.targets[x], b.targets, b.targets - {x};
    if o != null && Owned(o, u) {
      var p: LinkedPtr :| p in u && u[p] == o;
      assert p in t && p != x && t[p] == o;
    }
    if o != null && !Owned(o, u) {
      forall p | p in t && p != x ensures t[p] != o { assert p in u && u[p] == t[p]; }
    }
  }

  /** `linked_ptr(p)`: the caller hands over an object no other pointer was made from. */
  method Make(b: Books, p: Pointee?) returns (x: LinkedPtr, b': Books)
    requires Kept(b.targets) && (p != null ==> !Owned(p, b.targets))
    ensures fresh(x) && b' == AfterMake(b, x, p) && Kept(b'.targets)
    ensures x.itsPtr == p && b'.targets == b.targets[x := p] && b'.deleted == b.deleted
    ensures b'.adopted == b.adopted + (if p == null then {} else {p})
  {
    x := new LinkedPtr(p);
    b' := AfterMake(b, x, p);
    assert b'.targets.Keys == b.targets.Keys + {x};
    forall q | q in b'.targets.Keys ensures InRing(q, b'.targets.Keys) {
      if q != x { assert InRing(q, b.targets.Keys); }
    }
    assert forall q :: q in b.targets && q.itsPtr == p ==> p == null;
  }

  method Copy(b: Books, r: LinkedPtr) returns (x: LinkedPtr, b': Books)
    requires Kept(b.targets) && r in b.targets
    modifies b.targets.Keys
    ensures fresh(x) && b' == AfterCopy(b, x, r) && Kept(b'.targets)
    ensures x.itsPtr == b.targets[r] && b' == b.(targets := b.targets[x := b.targets[r]])
  {
    x := new LinkedPtr(null);
    Join(x, r, b.targets.Keys);
    b' := AfterCopy(b, x, r);
    assert b'.targets.Keys == b.targets.Keys + {x};
  }

  /** The destructor: deletes the object exactly when this was the last pointer to it. */
  method Destroy(b: Books, x: LinkedPtr) returns (b': Books)
    requires Kept(b.targets) && x in b.targets
    modifies b.targets.Keys
    ensures b' == AfterDrop(b, x) && Kept(b'.targets) && x.itsPtr == null
    ensures b' == Books(b.targets - {x}, b.adopted, Deleted(b, x))
  {
    DropDeletes(b, x);
    var gone := Part(x, b.targets);
    b' := Books(b.targets - {x}, b.adopted, if gone == null then b.deleted else b.deleted + multiset{gone});
  }

  lemma AssignBooks(b: Books, x: LinkedPtr, r: LinkedPtr)
    requires x in b.targets && r in b.targets && x != r
    ensures AfterCopy(AfterDrop(b, x), x, r) == Books(b.targets[x := b.targets[r]], b.adopted, Deleted(b, x))
  {
    DropDeletes(b, x);
    assert (b.targets - {x})[x := b.targets[r]] == b.targets[x := b.targets[r]];
  }

  /** Assignment, also from itself or from a member of its own ring. */
  method Assign(b: Books, x: LinkedPtr, r: LinkedPtr) returns (b': Books)
    requires Kept(b.targets) && x in b.targets && r in b.targets
    modifies b.targets.Keys
    ensures Kept(b'.targets) && x.itsPtr == b.targets[r]
    ensures b' == Books(b.targets[x := b.targets[r]], b.adopted, if x == r then b.deleted else Deleted(b, x))
  {
    b' := b;
    if x == r {
      assert b.targets[x := b.targets[r]] == b.targets;
    } else {
      b' := Reassign(b, x, r);
      AssignBooks(b, x, r);
    }
  }

  /** release() and acquire(r) */
  method Reassign(b: Books, x: LinkedPtr, r: LinkedPtr) returns (b': Books)
    requires Kept(b.targets) && x in b.targets && r in b.targets && x != r
    modifies b.targets.Keys
    ensures b' == AfterCopy(AfterDrop(b, x), x, r) && Kept(b'.targets) && x.itsPtr == b.targets[r]
  {
    var rest := Destroy(b, x);
    Join(x, r, rest.targets.Keys);
    b' := AfterCopy(rest, x, r);
    assert b'.targets.Keys == rest.targets.Keys + {x};
  }

  lemma AssignKeepsAccounts(b: Books, x: LinkedPtr, r: LinkedPtr, b': Books)
    requires Accounts(b) && x in b.targets && r in b.targets
    requires b' == Books(b.targets[x := b.targets[r]], b.adopted, if x == r then b.deleted else Deleted(b, x))
    ensures Accounts(b') && b'.targets.Keys == b.targets.Keys
  {
    if x == r {
      assert b.targets[x := b.targets[r]] == b.targets;
    } else {
      AssignBooks(b, x, r);
      DropKeepsAccounts(b, x);
      CopyKeepsAccounts(AfterDrop(b, x), x, r);
    }
  }

  method MakeAny(b: Books) returns (b': Books, ghost handed: set<Pointee>)
    requires Kept(b.targets) && Accounts(b)
    ensures Kept(b'.targets) && Accounts(b') && b'.adopted == b.adopted + handed
    ensures forall x :: x in b'.targets ==> x in b.targets || fresh(x)
  {
    var o: Pointee? := null;
    var x;
    handed := {};
    if * {
      o := new Pointee();
      handed := {o};
    }
    x, b' := Make(b, o);
    MakeKeepsAccounts(b, x, o);
  }

  method CopyAny(b: Books) returns (b': Books)
    requires Kept(b.targets) && Accounts(b) && b.targets != map[]
    modifies b.targets.Keys
    ensures Kept(b'.targets) && Accounts(b') && b'.adopted == b.adopted
    ensures forall x :: x in b'.targets ==> x in b.targets || fresh(x)
  {
    var r :| r in b.targets;
    var x;
    x, b' := Copy(b, r);
    CopyKeepsAccounts(b, x, r);
  }

  method AssignAny(b: Books) returns (b': Books)
    requires Kept(b.targets) && Accounts(b) && b.targets != map[]
    modifies b.targets.Keys
    ensures Kept(b'.targets) && Accounts(b') && b'.adopted == b.adopted && b'.targets.Keys == b.targets.Keys
  {
    var x :| x in b.targets;
    var r :| r in b.targets;
    b' := Assign(b, x, r);
    AssignKeepsAccounts(b, x, r, b');
  }

  method DestroyAny(b: Books) returns (b': Books)
    requires Kept(b.targets) && Accounts(b) && b.targets != map[]
    modifies b.targets.Keys
    ensures Kept(b'.targets) && Accounts(b') && b'.adopted == b.adopted && b'.targets.Keys <= b.targets.Keys
  {
    var x :| x in b.targets;
    b' := Destroy(b, x);
    DropKeepsAccounts(b, x);
  }

  /** Any one operation on any live pointers; `handed` are the objects it makes pointers from. */
  method AnyOperation(b: Books) returns (b': Books, ghost handed: set<Pointee>)
    requires Kept(b.targets) && Accounts(b)
    modifies b.targets.Keys
    ensures Kept(b'.targets) && Accounts(b') && b'.adopted == b.adopted + handed
    ensures forall x :: x in b'.targets ==> x in b.targets || fresh(x)
  {
    handed := {};
    if {
      case true => b', handed := MakeAny(b);
      case b.targets != map[] => b' := CopyAny(b);
      case b.targets != map[] => b' := AssignAny(b);
      case b.targets != map[] => b' := DestroyAny(b);
    }
  }

  /** The most general client: any number of operations.  Every object it makes a pointer from
      is adopted, and so deleted exactly once, when no live pointer points to it. */
  method AnyRun(b: Books, n: nat) returns (b': Books, ghost handed: set<Pointee>)
    requires Kept(b.targets) && Accounts(b)
    modifies b.targets.Keys
    ensures Kept(b'.targets) && Accounts(b') && b'.adopted == b.adopted + handed
    ensures forall o :: o in handed ==> b'.deleted[o] == if Owned(o, b'.targets) then 0 else 1
    decreases n
  {
    b', handed := b, {};
    if n == 0 { return; }
    b', handed := AnyOperation(b);
    ghost var more;
    b', more := AnyRun(b', n - 1);
    handed := handed + more;
  }
}
