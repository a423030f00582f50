/** The table of rendered video views in examples/call/callclient.cc: a std::map from
    (session, ssrc) to a view and the renderer it owns.

    The map is kept as the sequence an iterator walks, sorted by session address and then
    ssrc.  Renderers are numbered in the order of their creation. */
module RenderedViews {

  datatype Entry = Entry(session: nat, ssrc: nat, viewSsrc: nat, renderer: nat)

  predicate Less(a: Entry, session: nat, ssrc: nat) {
    a.session < session || (a.session == session && a.ssrc < ssrc)
  }

  /** A map: strictly increasing keys; and every view carries the ssrc of its key. */
  ghost predicate Table(es: seq<Entry>) {
    && (forall i, j :: 0 <= i < j < |es| ==> Less(es[i], es[j].session, es[j].ssrc))
    && (forall i :: 0 <= i < |es| ==> es[i].viewSsrc == es[i].ssrc)
  }

  function Renderers(es: seq<Entry>): multiset<nat> {
    if es == [] then multiset{} else multiset{es[0].renderer} + Renderers(es[1..])
  }

  /** Every renderer ever created, once each. */
  function Numbers(n: nat): multiset<nat> {
    if n == 0 then multiset{} else Numbers(n - 1) + multiset{n - 1}
  }

  function Kept(es: seq<Entry>, sessions: set<nat>): seq<Entry> {
    if es == [] then [] else (if es[0].session in sessions then [] else [es[0]]) + Kept(es[1..], sessions)
  }

  /** Position of the first view showing `ssrc`, whatever its session, or |es|. */
  function FirstShowing(es: seq<Entry>, ssrc: nat): (i: nat)
    ensures i <= |es|
    ensures i < |es| ==> es[i].viewSsrc == ssrc
    ensures forall j :: 0 <= j < i ==> es[j].viewSsrc != ssrc
  {
    if es == [] || es[0].viewSsrc == ssrc then 0 else 1 + FirstShowing(es[1..], ssrc)
  }

  /** Without the first view showing `ssrc`. */
  function WithoutShowing(es: seq<Entry>, ssrc: nat): seq<Entry> {
    var i := FirstShowing(es, ssrc);
    if i < |es| then es[..i] + es[i + 1..] else es
  }

  predicate HasKey(es: seq<Entry>, session: nat, ssrc: nat) {
    exists i :: 0 <= i < |es| && es[i].session == session && es[i].ssrc == ssrc
  }

  lemma {:induction false} RenderersConcat(a: seq<Entry>, b: seq<Entry>)
    ensures Renderers(a + b) == Renderers(a) + Renderers(b)
  {
    if a == [] { assert a + b == b; } else {
      assert (a + b)[1..] == a[1..] + b;
      RenderersConcat(a[1..], b);
    }
  }

  lemma RenderersOfOne(e: Entry)
    ensures Renderers([e]) == multiset{e.renderer}
  {
    assert [e][1..] == [];
  }

  /** Putting one entry between two parts adds its renderer and no other. */
  lemma RenderersBetween(a: seq<Entry>, e: Entry, b: seq<Entry>)
    ensures Renderers(a + ([e] + b)) == Renderers(a + b) + multiset{e.renderer}
  {
    RenderersConcat(a, [e] + b);
    RenderersConcat([e], b);
    RenderersConcat(a, b);
    RenderersOfOne(e);
  }

  lemma RenderersSplit(es: seq<Entry>, i: nat)
    requires i < |es|
    ensures Renderers(es) == Renderers(es[..i] + es[i + 1..]) + multiset{es[i].renderer}
  {
    assert es == es[..i] + ([es[i]] + es[i + 1..]);
    RenderersBetween(es[..i], es[i], es[i + 1..]);
  }

  lemma TableInsert(es: seq<Entry>, e: Entry, at: nat)
    requires Table(es) && at <= |es| && e.viewSsrc == e.ssrc && !HasKey(es, e.session, e.ssrc)
    requires forall j :: 0 <= j < at ==> Less(es[j], e.session, e.ssrc)
    requires forall j :: at <= j < |es| ==> !Less(es[j], e.session, e.ssrc)
    ensures Table(es[..at] + [e] + es[at..])
  {
    var now := es[..at] + [e] + es[at..];
    assert forall j :: at <= j < |es| ==> Less(e, es[j].session, es[j].ssrc);
    assert forall i :: 0 <= i < at ==> now[i] == es[i];
    assert now[at] == e;
    assert forall i :: at < i < |now| ==> now[i] == es[i - 1];
  }

  lemma RenderersInsert(es: seq<Entry>, e: Entry, at: nat, a: seq<Entry>, b: seq<Entry>)
    requires at <= |es| && a == es[..at] && b == es[at..]
    ensures Renderers(a + [e] + b) == Renderers(es) + multiset{e.renderer}
  {
    assert a + [e] + b == a + ([e] + b);
    assert es == a + b;
    RenderersBetween(a, e, b);
  }

  lemma TableErase(es: seq<Entry>, i: nat)
    requires Table(es) && i < |es|
    ensures Table(es[..i] + es[i + 1..])
  {
  }

  lemma {:induction false} KeptSnoc(es: seq<Entry>, e: Entry, sessions: set<nat>)
    ensures Kept(es + [e], sessions) == Kept(es, sessions) + (if e.session in sessions then [] else [e])
  {
    if es == [] { assert [e][1..] == [] && es + [e] == [e]; } else {
      assert (es + [e])[1..] == es[1..] + [e] && (es + [e])[0] == es[0];
      KeptSnoc(es[1..], e, sessions);
      var head := if es[0].session in sessions then [] else [es[0]];
      var last := if e.session in sessions then [] else [e];
      assert head + (Kept(es[1..], sessions) + last) == (head + Kept(es[1..], sessions)) + last;
    }
  }

  /** One round of erasing while walking: `views` is what is kept of the part seen of `all`,
      followed by the rest. */
  lemma KeptStep(all: seq<Entry>, seen: nat, views: seq<Entry>, i: nat, sessions: set<nat>)
    requires seen <= |all| && i < |views|
    requires views[..i] == Kept(all[..seen], sessions) && views[i..] == all[seen..]
    ensures seen < |all|
    ensures var erase := views[i].session in sessions;
            var now, at := if erase then views[..i] + views[i + 1..] else views, if erase then i else i + 1;
            now[..at] == Kept(all[..seen + 1], sessions) && now[at..] == all[seen + 1..]
  {
    assert views[i] == views[i..][0] == all[seen];
    assert all[..seen + 1] == all[..seen] + [all[seen]];
    KeptSnoc(all[..seen], all[seen], sessions);
    assert views[i + 1..] == views[i..][1..] == all[seen + 1..];
    if views[i].session in sessions {
      var now := views[..i] + views[i + 1..];
      assert now[..i] == views[..i] && now[i..] == views[i + 1..];
    } else {
      assert views[..i + 1] == views[..i] + [views[i]];
    }
  }

  /** Each number below n exactly once. */
  lemma {:induction false} NumbersOnce(n: nat, r: nat)
    ensures Numbers(n)[r] == if r < n then 1 else 0
    decreases n
  {
    if n > 0 { NumbersOnce(n - 1, r); }
  }

  /** What conservation means for one renderer. */
  lemma OwnedDeletedOrLeaked(es: seq<Entry>, deleted: multiset<nat>, leaked: multiset<nat>, accumulated: nat, r: nat)
    requires Renderers(es) + deleted + leaked == Numbers(accumulated)
    ensures Renderers(es)[r] + deleted[r] + leaked[r] == if r < accumulated then 1 else 0
  {
    NumbersOnce(accumulated, r);
    assert (Renderers(es) + deleted + leaked)[r] == Renderers(es)[r] + deleted[r] + leaked[r];
  }

  class StaticRenderedViews {
    var views: seq<Entry>
    var accumulated: nat
    ghost var deleted: multiset<nat>
    ghost var leaked: multiset<nat>

    /** Conservation: every renderer created is owned by one view, or has been deleted once, or
        was never filed. */
    ghost predicate Valid() reads this {
      Table(views) && Renderers(views) + deleted + leaked == Numbers(accumulated)
    }

    constructor ()
      ensures Valid() && views == [] && accumulated == 0 && deleted == leaked == multiset{}
    {
      views, accumulated, deleted, leaked := [], 0, multiset{}, multiset{};
    }

    /** map::find, or the place where the key would go. */
    method Find(session: nat, ssrc: nat) returns (i: nat, found: bool)
      requires Valid()
      ensures i <= |views| && found == HasKey(views, session, ssrc)
      ensures found ==> i < |views| && views[i].session == session && views[i].ssrc == ssrc
      ensures forall j :: 0 <= j < i ==> Less(views[j], session, ssrc)
      ensures !found ==> forall j :: i <= j < |views| ==> !Less(views[j], session, ssrc)
    {
      i := 0;
      while i < |views| && Less(views[i], session, ssrc)
        invariant 0 <= i <= |views| && forall j :: 0 <= j < i ==> Less(views[j], session, ssrc)
      {
        i := i + 1;
      }
      found := i < |views| && views[i].session == session && views[i].ssrc == ssrc;
    }

    method InsertAt(e: Entry, at: nat)
      requires Valid() && !HasKey(views, e.session, e.ssrc) && e.viewSsrc == e.ssrc && at <= |views|
      requires e.renderer == accumulated
      requires forall j :: 0 <= j < at ==> Less(views[j], e.session, e.ssrc)
      requires forall j :: at <= j < |views| ==> !Less(views[j], e.session, e.ssrc)
      modifies this`views, this`accumulated
      ensures Valid() && accumulated == old(accumulated) + 1
      ensures views == old(views)[..at] + [e] + old(views)[at..]
    {
      TableInsert(views, e, at);
      RenderersInsert(views, e, at, views[..at], views[at..]);
      views := views[..at] + [e] + views[at..];
      accumulated := accumulated + 1;
    }

    /** Creates a renderer and inserts a view for it.  map::insert keeps a view already there,
        so the new renderer leaks exactly when the key has one. */
    method AddStaticRenderedView(session: nat, ssrc: nat)
      requires Valid()
      modifies this
      ensures Valid() && HasKey(views, session, ssrc)
      ensures accumulated == old(accumulated) + 1 && deleted == old(deleted)
      ensures if HasKey(old(views), session, ssrc)
        then views == old(views) && leaked == old(leaked) + multiset{old(accumulated)}
        else leaked == old(leaked) && Inserted(old(views), Entry(session, ssrc, ssrc, old(accumulated)), views)
    {
      var e := Entry(session, ssrc, ssrc, accumulated);
      var at, found := Find(session, ssrc);
      if found {
        leaked := leaked + multiset{accumulated};
        accumulated := accumulated + 1;
      } else {
        InsertAt(e, at);
        assert views[at] == e;
      }
    }

    /** `delete renderer; erase(it)` */
    method EraseAt(i: nat)
      requires Valid() && i < |views|
      modifies this`views, this`deleted
      ensures Valid() && views == old(views)[..i] + old(views)[i + 1..]
      ensures deleted == old(deleted) + multiset{old(views)[i].renderer}
    {
      RenderersSplit(views, i);
      TableErase(views, i);
      deleted := deleted + multiset{views[i].renderer};
      views := views[..i] + views[i + 1..];
    }

    /** Removes the first view showing `ssrc`, whichever session it belongs to. */
    method RemoveStaticRenderedView(ssrc: nat) returns (removed: bool)
      requires Valid()
      modifies this`views, this`deleted
      ensures Valid()
      ensures var i := FirstShowing(old(views), ssrc);
        && removed == (i < |old(views)|)
        && (removed ==> views == old(views)[..i] + old(views)[i + 1..]
                        && deleted == old(deleted) + multiset{old(views)[i].renderer})
        && (!removed ==> views == old(views) && deleted == old(deleted))
    {
      var i := 0;
      while i < |views|
        invariant 0 <= i <= |views| && views == old(views) && deleted == old(deleted)
        invariant forall j :: 0 <= j < i ==> views[j].viewSsrc != ssrc
      {
        if views[i].viewSsrc == ssrc {
          EraseAt(i);
          return true;
        }
        i := i + 1;
      }
      return false;
    }

    /** Teardown of a call: exactly the views of its sessions go. */
    method RemoveCallsStaticRenderedViews(sessions: set<nat>)
      requires Valid()
      modifies this`views, this`deleted
      ensures Valid() && views == Kept(old(views), sessions)
    {
      ghost var seen := 0;
      var i := 0;
      while i < |views|
        invariant Valid()
        invariant 0 <= i <= |views| && 0 <= seen <= |old(views)|
        invariant views[..i] == Kept(old(views)[..seen], sessions) && views[i..] == old(views)[seen..]
        decreases |views| - i
      {
        KeptStep(old(views), seen, views, i, sessions);
        if views[i].session in sessions {
          EraseAt(i);
        } else {
          i := i + 1;
        }
        seen := seen + 1;
      }
      assert old(views)[..seen] == old(views) && views[..i] == views;
    }

    /** Enabling makes sure the key has a view; disabling removes a view showing the ssrc if
        the key had one. */
    method RenderStream(session: nat, hasSsrcs: bool, ssrc: nat, enable: bool)
      requires Valid()
      modifies this
      ensures Valid() && leaked == old(leaked)
      ensures hasSsrcs && enable ==> HasKey(views, session, ssrc) && deleted == old(deleted)
      ensures hasSsrcs && enable && !HasKey(old(views), session, ssrc) ==>
        Inserted(old(views), Entry(session, ssrc, ssrc, old(accumulated)), views)
      ensures accumulated == old(accumulated)
        + (if hasSsrcs && enable && !HasKey(old(views), session, ssrc) then 1 else 0)
      ensures !hasSsrcs || HasKey(old(views), session, ssrc) == enable ==>
        views == old(views) && deleted == old(deleted)
      ensures hasSsrcs && !enable && HasKey(old(views), session, ssrc) ==>
        var i := FirstShowing(old(views), ssrc);
        && i < |old(views)| && views == old(views)[..i] + old(views)[i + 1..]
        && deleted == old(deleted) + multiset{old(views)[i].renderer}
        && (HasKey(views, session, ssrc) <==> SharedBelow(old(views), session, ssrc))
    {
      if !hasSsrcs { return; }
      var i, found := Find(session, ssrc);
      if enable {
        if !found {
          AddStaticRenderedView(session, ssrc);
        }
      } else if found {
        var removed := RemoveStaticRenderedView(ssrc);
        DisableRemovesOwn(old(views), session, ssrc, i);
      }
    }
  }

  /** One entry more, at its place. */
  ghost predicate Inserted(before: seq<Entry>, e: Entry, after: seq<Entry>) {
    exists at :: 0 <= at <= |before| && after == before[..at] + [e] + before[at..]
  }

  datatype Operation =
    | Render(session: nat, hasSsrcs: bool, ssrc: nat, enable: bool)
    | Removal(ssrc: nat)
    | Teardown(sessions: set<nat>)

  method Apply(t: StaticRenderedViews, op: Operation)
    requires t.Valid()
    modifies t
    ensures t.Valid() && t.leaked == old(t.leaked)
    ensures op.Render? && op.hasSsrcs && op.enable ==> HasKey(t.views, op.session, op.ssrc)
    ensures op.Render? && op.hasSsrcs && !op.enable && HasKey(old(t.views), op.session, op.ssrc) ==>
      t.views == WithoutShowing(old(t.views), op.ssrc)
    ensures op.Removal? ==> t.views == WithoutShowing(old(t.views), op.ssrc)
    ensures op.Teardown? ==> t.views == Kept(old(t.views), op.sessions)
  {
    match op {
      case Render(session, hasSsrcs, ssrc, enable) => t.RenderStream(session, hasSsrcs, ssrc, enable);
      case Removal(ssrc) => var _ := t.RemoveStaticRenderedView(ssrc);
      case Teardown(sessions) => t.RemoveCallsStaticRenderedViews(sessions);
    }
  }

  /** Any sequence of operations conserves renderers and leaks none, and every one ever created
      is then in the table once or deleted once. */
  method Run(t: StaticRenderedViews, ops: seq<Operation>)
    requires t.Valid() && t.leaked == multiset{}
    modifies t
    ensures t.Valid() && t.leaked == multiset{}
    ensures forall r: nat :: r < t.accumulated ==> Renderers(t.views)[r] + t.deleted[r] == 1
  {
    for i := 0 to |ops|
      invariant t.Valid() && t.leaked == multiset{}
    {
      Apply(t, ops[i]);
    }
    forall r: nat | r < t.accumulated ensures Renderers(t.views)[r] + t.deleted[r] == 1 {
      OwnedDeletedOrLeaked(t.views, t.deleted, t.leaked, t.accumulated, r);
    }
  }

  /** Another session at a lower address shows the same ssrc. */
  predicate SharedBelow(es: seq<Entry>, session: nat, ssrc: nat) {
    exists j :: 0 <= j < |es| && es[j].session < session && es[j].ssrc == ssrc
  }

  /** Disabling a stream removes its own view exactly when no session at a lower address shows
      the same ssrc; otherwise it deletes that other session's renderer. */
  lemma DisableRemovesOwn(es: seq<Entry>, session: nat, ssrc: nat, at: nat)
    requires Table(es) && at < |es| && es[at].session == session && es[at].ssrc == ssrc
    ensures var i := FirstShowing(es, ssrc);
      && i < |es|
      && (HasKey(es[..i] + es[i + 1..], session, ssrc) <==> SharedBelow(es, session, ssrc))
      && (i == at <==> !SharedBelow(es, session, ssrc))
  {
    var i := FirstShowing(es, ssrc);
    assert i <= at;
    var rest := es[..i] + es[i + 1..];
    if i < at {
      assert es[i].session < session;
      assert rest[at - 1] == es[at];
    } else {
      forall j | 0 <= j < |rest| ensures !(rest[j].session == session && rest[j].ssrc == ssrc) {
        assert rest[j] == if j < i then es[j] else es[j + 1];
      }
      forall j | 0 <= j < |es| ensures !(es[j].session < session && es[j].ssrc == ssrc) {
      }
    }
  }
}
