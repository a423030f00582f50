/** Counted references: scoped_refptr of include/base/scoped_ref_ptr.h on objects that count
    and delete themselves, RefCountedObject of include/base/refcount.h. */
module ScopedRefPtrs {

  class RefCounted {
    var refCount: int
    ghost var deletions: nat   // how often `delete this` ran

    constructor ()
      ensures refCount == 0 && deletions == 0
    {
      refCount, deletions := 0, 0;
    }

    /** Neither operation may be used on a deleted object. */
    method AddRef()
      requires deletions == 0
      modifies this
      ensures refCount == old(refCount) + 1 && deletions == 0
    {
      refCount := refCount + 1;
    }

    method Release()
      requires deletions == 0 && refCount > 0
      modifies this
      ensures refCount == old(refCount) - 1 && deletions == if refCount == 0 then 1 else 0
    {
      refCount := refCount - 1;
      if refCount == 0 { deletions := deletions + 1; }
    }
  }

  class ScopedRefPtr {
    var ptr: RefCounted?

    constructor ()
      ensures ptr == null
    {
      ptr := null;
    }

    /** From a raw pointer or, with its `get()`, from another smart pointer. */
    constructor From(p: RefCounted?)
      requires p != null ==> p.deletions == 0
      modifies p
      ensures ptr == p && (p != null ==> p.refCount == old(p.refCount) + 1 && p.deletions == 0)
    {
      ptr := p;
      new;
      if p != null { p.AddRef(); }
    }

    ghost predicate HoldsLive() reads this, ptr { ptr != null ==> ptr.deletions == 0 && ptr.refCount > 0 }

    method Destructor()
      requires HoldsLive()
      modifies ptr
      ensures ptr != null ==> ptr.refCount == old(ptr.refCount) - 1
      ensures ptr != null ==> ptr.deletions == if ptr.refCount == 0 then 1 else 0
    {
      if ptr != null { ptr.Release(); }
    }

    /** operator=(T*): the new target is counted before the old one is let go, so assigning
        a pointer its own target is safe. */
    method Assign(p: RefCounted?)
      requires HoldsLive() && (p != null ==> p.deletions == 0)
      modifies this, ptr, p
      ensures ptr == p
      ensures p != null ==> p.refCount == old(p.refCount) + (if old(ptr) == p then 0 else 1) && p.deletions == 0
      ensures old(ptr) != null && old(ptr) != p ==>
        var o := old(ptr); o.refCount == old(ptr.refCount) - 1 && o.deletions == if o.refCount == 0 then 1 else 0
    {
      if p != null { p.AddRef(); }
      if ptr != null { ptr.Release(); }
      ptr := p;
    }

    method Release() returns (p: RefCounted?)
      modifies this
      ensures p == old(ptr) && ptr == null
    {
      p := ptr;
      ptr := null;
    }

    /** swap(T**): the place takes over this pointer's reference and gives up its own. */
    method SwapRaw(place: RefCounted?) returns (place': RefCounted?)
      modifies this
      ensures place' == old(ptr) && ptr == place
    {
      place' := ptr;
      ptr := place;
    }
  }

  // ---- who holds what ----

  /** The live smart pointers and their targets, the references handed out by release(), the
      objects, and those of them that were ever referenced. */
  datatype Books = Books(
    targets: map<ScopedRefPtr, RefCounted?>,
    handed: multiset<RefCounted>,
    objects: set<RefCounted>,
    touched: set<RefCounted>)

  function Holders(t: map<ScopedRefPtr, RefCounted?>, o: RefCounted): set<ScopedRefPtr> {
    set p | p in t && t[p] == o
  }

  function Refs(b: Books, o: RefCounted): nat { |Holders(b.targets, o)| + b.handed[o] }

  function One(p: RefCounted?, o: RefCounted): int { if p == o then 1 else 0 }

  lemma HoldersUpdate(t: map<ScopedRefPtr, RefCounted?>, p: ScopedRefPtr, v: RefCounted?, o: RefCounted)
    ensures |Holders(t[p := v], o)| == |Holders(t, o)| - (if p in t then One(t[p], o) else 0) + One(v, o)
  {
    var before, after := Holders(t, o), Holders(t[p := v], o);
    var rest := before - {p};
    if v == o { assert after == rest + {p}; } else { assert after == rest; }
    if p in t && t[p] == o { assert before == rest + {p}; } else { assert before == rest; }
  }

  lemma HoldersRemove(t: map<ScopedRefPtr, RefCounted?>, p: ScopedRefPtr, o: RefCounted)
    requires p in t
    ensures |Holders(t - {p}, o)| == |Holders(t, o)| - One(t[p], o)
  {
    assert Holders(t - {p}, o) == Holders(t, o) - {p};
  }

  /** A count tells the references; the object is deleted, once, exactly when it has been
      referenced and no reference is left. */
  ghost predicate CountTrue(b: Books, o: RefCounted)
    reads o
  {
    && o.refCount == Refs(b, o)
    && (Refs(b, o) > 0 ==> o in b.touched)
    && o.deletions == if o in b.touched && Refs(b, o) == 0 then 1 else 0
  }

  ghost predicate Kept(b: Books)
    reads b.targets.Keys, b.objects
  {
    && (forall p :: p in b.targets ==> p.ptr == b.targets[p] && (p.ptr != null ==> p.ptr in b.objects))
    && (forall o :: o in b.handed ==> o in b.objects)
    && (forall o :: o in b.objects ==> CountTrue(b, o))
  }

  /** Not deleted: what a caller of AddRef has to know. */
  predicate Usable(b: Books, o: RefCounted?) {
    o != null ==> o in b.objects && (o in b.touched ==> Refs(b, o) > 0)
  }

  function Touch(b: Books, o: RefCounted?): set<RefCounted> { if o == null then b.touched else b.touched + {o} }

  // ---- the operations of clients ----

  method NewObject(b: Books) returns (o: RefCounted, b': Books)
    requires Kept(b)
    ensures fresh(o) && b' == b.(objects := b.objects + {o}) && o.deletions == 0
    ensures Refs(b', o) == 0 && o !in b'.touched
    ensures Kept(b')
  {
    o := new RefCounted();
    b' := b.(objects := b.objects + {o});
  }

  method Make(b: Books, q: RefCounted?) returns (p: ScopedRefPtr, b': Books)
    requires Kept(b) && Usable(b, q)
    modifies b.objects
    ensures fresh(p) && b' == b.(targets := b.targets[p := q], touched := Touch(b, q))
    ensures Kept(b')
  {
    p := new ScopedRefPtr.From(q);
    b' := b.(targets := b.targets[p := q], touched := Touch(b, q));
    forall o | o in b'.objects ensures CountTrue(b', o) {
      assert old(CountTrue(b, o));
      HoldersUpdate(b.targets, p, q, o);
    }
  }

  method Copy(b: Books, r: ScopedRefPtr) returns (p: ScopedRefPtr, b': Books)
    requires Kept(b) && r in b.targets
    modifies b.objects
    ensures fresh(p) && b' == b.(targets := b.targets[p := b.targets[r]], touched := Touch(b, b.targets[r]))
    ensures Kept(b')
  {
    HeldIsUsable(b, r);
    p, b' := Make(b, r.ptr);
  }

  lemma HeldIsUsable(b: Books, r: ScopedRefPtr)
    requires r in b.targets && (b.targets[r] != null ==> b.targets[r] in b.objects)
    ensures Usable(b, b.targets[r]) && (b.targets[r] != null ==> Refs(b, b.targets[r]) > 0)
  {
    if b.targets[r] != null { assert r in Holders(b.targets, b.targets[r]); }
  }

  method Assign(b: Books, p: ScopedRefPtr, q: RefCounted?) returns (b': Books)
    requires Kept(b) && p in b.targets && Usable(b, q)
    modifies b.targets.Keys, b.objects
    ensures b' == b.(targets := b.targets[p := q], touched := Touch(b, q))
    ensures Kept(b')
  {
    HeldIsUsable(b, p);
    assert p.ptr != null ==> CountTrue(b, p.ptr);
    assert q != null ==> CountTrue(b, q);
    p.Assign(q);
    b' := b.(targets := b.targets[p := q], touched := Touch(b, q));
    forall o | o in b'.objects ensures CountTrue(b', o) {
      assert old(CountTrue(b, o));
      HoldersUpdate(b.targets, p, q, o);
    }
  }

  method AssignFrom(b: Books, p: ScopedRefPtr, r: ScopedRefPtr) returns (b': Books)
    requires Kept(b) && p in b.targets && r in b.targets
    modifies b.targets.Keys, b.objects
    ensures b' == b.(targets := b.targets[p := b.targets[r]], touched := Touch(b, b.targets[r]))
    ensures Kept(b')
  {
    HeldIsUsable(b, r);
    b' := Assign(b, p, r.ptr);
  }

  method Destroy(b: Books, p: ScopedRefPtr) returns (b': Books)
    requires Kept(b) && p in b.targets
    modifies b.objects
    ensures b' == b.(targets := b.targets - {p})
    ensures Kept(b')
  {
    HeldIsUsable(b, p);
    assert p.ptr != null ==> CountTrue(b, p.ptr);
    p.Destructor();
    b' := b.(targets := b.targets - {p});
    forall o | o in b'.objects ensures CountTrue(b', o) {
      assert old(CountTrue(b, o));
      HoldersRemove(b.targets, p, o);
    }
  }

  /** release(): the reference passes to the caller. */
  method Detach(b: Books, p: ScopedRefPtr) returns (q: RefCounted?, b': Books)
    requires Kept(b) && p in b.targets
    modifies b.targets.Keys
    ensures q == b.targets[p]
    ensures b' == b.(targets := b.targets[p := null], handed := if q == null then b.handed else b.handed + multiset{q})
    ensures Kept(b')
  {
    q := p.Release();
    b' := b.(targets := b.targets[p := null], handed := if q == null then b.handed else b.handed + multiset{q});
    forall o | o in b'.objects ensures CountTrue(b', o) {
      assert old(CountTrue(b, o));
      HoldersUpdate(b.targets, p, null, o);
    }
  }

  /** The caller gives back a reference that release() handed out. */
  method GiveBack(b: Books, q: RefCounted) returns (b': Books)
    requires Kept(b) && q in b.handed
    modifies b.objects
    ensures b' == b.(handed := b.handed - multiset{q})
    ensures Kept(b')
  {
    assert CountTrue(b, q);
    q.Release();
    b' := b.(handed := b.handed - multiset{q});
    forall o | o in b'.objects ensures CountTrue(b', o) {
      assert old(CountTrue(b, o));
    }
  }

  /** swap(scoped_refptr&), also with itself: no count changes. */
  method Swap(b: Books, p: ScopedRefPtr, r: ScopedRefPtr) returns (b': Books)
    requires Kept(b) && p in b.targets && r in b.targets
    modifies b.targets.Keys
    ensures b' == b.(targets := b.targets[p := b.targets[r]][r := b.targets[p]])
    ensures Kept(b')
  {
    r.ptr := p.SwapRaw(r.ptr);
    b' := b.(targets := b.targets[p := b.targets[r]][r := b.targets[p]]);
    forall o | o in b'.objects ensures CountTrue(b', o) {
      assert old(CountTrue(b, o));
      HoldersUpdate(b.targets, p, b.targets[r], o);
      HoldersUpdate(b.targets[p := b.targets[r]], r, b.targets[p], o);
    }
  }

  /** A place trades the reference it owns for another. */
  function Traded(handed: multiset<RefCounted>, given: RefCounted?, taken: RefCounted?): multiset<RefCounted> {
    var rest := if given == null then handed else handed - multiset{given};
    if taken == null then rest else rest + multiset{taken}
  }

  lemma TradedCount(handed: multiset<RefCounted>, given: RefCounted?, taken: RefCounted?, o: RefCounted)
    requires given != null ==> given in handed
    ensures Traded(handed, given, taken)[o] == handed[o] - One(given, o) + One(taken, o)
  {
  }

  /** swap(T**) with a place that owns a reference, or is null. */
  method SwapWithPlace(b: Books, p: ScopedRefPtr, place: RefCounted?) returns (place': RefCounted?, b': Books)
    requires Kept(b) && p in b.targets && (place != null ==> place in b.handed)
    modifies b.targets.Keys
    ensures place' == b.targets[p]
    ensures b' == b.(targets := b.targets[p := place], handed := Traded(b.handed, place, place'))
    ensures Kept(b')
  {
    place' := p.SwapRaw(place);
    b' := b.(targets := b.targets[p := place], handed := Traded(b.handed, place, place'));
    forall o | o in b'.objects ensures CountTrue(b', o) {
      assert old(CountTrue(b, o));
      HoldersUpdate(b.targets, p, place, o);
      TradedCount(b.handed, place, place', o);
    }
  }

  /** The most general client. */
  method AnyRun(b: Books, n: nat) returns (b': Books)
    requires Kept(b)
    modifies b.targets.Keys, b.objects
    ensures Kept(b')
    decreases n
  {
    b' := b;
    if n == 0 { return; }
    var p: ScopedRefPtr, q: RefCounted?;
    if {
      case true => q, b' := NewObject(b);
      case true => p, b' := Make(b, null);
      case b.objects != {} =>
        q :| q in b.objects;
        if q !in b.touched || Refs(b, q) > 0 { p, b' := Make(b, q); }
      case b.targets != map[] => var r :| r in b.targets; p, b' := Copy(b, r);
      case b.targets != map[] => p :| p in b.targets; b' := Assign(b, p, null);
      case b.targets != map[] => p :| p in b.targets; var r :| r in b.targets; b' := AssignFrom(b, p, r);
      case b.targets != map[] && b.objects != {} =>
        p :| p in b.targets;
        q :| q in b.objects;
        if q !in b.touched || Refs(b, q) > 0 { b' := Assign(b, p, q); }
      case b.targets != map[] => p :| p in b.targets; b' := Destroy(b, p);
      case b.targets != map[] => p :| p in b.targets; q, b' := Detach(b, p);
      case b.targets != map[] => p :| p in b.targets; var r :| r in b.targets; b' := Swap(b, p, r);
      case b.targets != map[] && b.handed != multiset{} =>
        p :| p in b.targets;
        var h :| h in b.handed;
        q, b' := SwapWithPlace(b, p, h);
      case b.targets != map[] => p :| p in b.targets; q, b' := SwapWithPlace(b, p, null);
      case b.handed != multiset{} => var h :| h in b.handed; b' := GiveBack(b, h);
    }
    b' := AnyRun(b', n - 1);
  }
}
