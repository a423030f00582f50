/** Joining and leaving chat rooms: examples/call/callclient.cc, presencepushtask.cc and
    muc.h, with the JIDs of ThirdParty/xmpp/src/jid.cc (XEP-0045, sections 7.2 and 7.14). */
module MucClient {

  datatype Option<T> = None | Some(value: T)

  datatype Jid = Jid(node: string, domain: string, resource: string) {
    predicate IsValid() { domain != "" }

    predicate IsEmpty() { node == "" && domain == "" && resource == "" }

    predicate IsBare() { IsEmpty() || (IsValid() && resource == "") }

    predicate IsFull() { IsValid() && resource != "" }

    function BareJid(): Jid {
      if !IsValid() then Jid("", "", "") else if !IsFull() then this else Jid(node, domain, "")
    }
  }

  /** Bare are the JIDs that are their own bare JID, full the valid others. */
  lemma BareAndFull(j: Jid)
    ensures j.IsBare() <==> j.BareJid() == j
    ensures j.IsFull() <==> j.domain != "" && !j.IsBare()
    ensures j.BareJid().IsBare()
    ensures j.domain != "" ==> j.BareJid() == Jid(j.node, j.domain, "")
  {
  }

  /** A control byte of a resource becomes NUL; PrepResource ignores that it is invalid. */
  function PrepByte(c: char): char { if c <= '\U{17}' || c == '\U{7F}' then '\0' else c }

  function PrepResource(resource: string): string {
    seq(|resource|, i requires 0 <= i < |resource| => PrepByte(resource[i]))
  }

  predicate Unprepared(resource: string) {
    exists i :: 0 <= i < |resource| && resource[i] != '\0' && (resource[i] <= '\U{17}' || resource[i] == '\U{7F}')
  }

  /** Jid(jid.Str() + "/" + nick), `jid` having been prepared before.  An invalid JID prints
      as nothing, and an empty domain or a resource of more than 1023 bytes resets the whole. */
  function LocalJid(jid: Jid, nick: string): Jid {
    var resource := if jid.resource == "" then nick else jid.resource + "/" + nick;
    if !jid.IsValid() || |resource| > 1023 then Jid("", "", "")
    else Jid(jid.node, jid.domain, PrepResource(resource))
  }

  /** A room's local JID is the room with the nick exactly when the nick has at most 1023
      bytes and no control byte but NUL; other control bytes turn into NUL. */
  lemma LocalJidKeepsNick(jid: Jid, nick: string)
    requires jid.IsValid() && jid.IsBare()
    ensures LocalJid(jid, nick) == Jid(jid.node, jid.domain, nick) <==> |nick| <= 1023 && !Unprepared(nick)
    ensures |nick| <= 1023 ==>
      var local := LocalJid(jid, nick);
      && local.BareJid() == jid && |local.resource| == |nick|
      && forall i :: 0 <= i < |nick| ==> local.resource[i] == nick[i] || local.resource[i] == '\0'
  {
    if Unprepared(nick) {
      var i :| 0 <= i < |nick| && nick[i] != '\0' && (nick[i] <= '\U{17}' || nick[i] == '\U{7F}');
      assert PrepResource(nick)[i] != nick[i];
    } else {
      assert PrepResource(nick) == nick;
    }
  }

  datatype MucState = Joining | Joined | Leaving

  /** A room is joined after joining and left after either. */
  function Rank(s: MucState): nat { match s case Joining => 0 case Joined => 1 case Leaving => 2 }

  class Muc {
    var state: MucState
    const jid: Jid
    const localJid: Jid
    var members: set<string>

    constructor (jid: Jid, nick: string)
      ensures this.jid == jid && localJid == LocalJid(jid, nick) && state == Joining && members == {}
    {
      this.jid, this.localJid := jid, LocalJid(jid, nick);
      state, members := Joining, {};
    }
  }

  /** What PresencePushTask looks at in a presence stanza. */
  datatype Presence = Presence(from: Jid, hasType: bool, available: bool, hasMucItem: bool)

  datatype Command = Join(room: Jid) | Leave(which: Option<Jid>) | Incoming(presence: Presence)

  class CallClient {
    const ownNick: string          // node "_" resource of the logged-in user
    var mucs: map<Jid, Muc>
    ghost var created: set<Muc>
    ghost var deleted: multiset<Muc>

    constructor (ownNick: string)
      ensures Valid() && NoLeak() && mucs == map[] && created == {} && deleted == multiset{}
    {
      this.ownNick := ownNick;
      mucs, created, deleted := map[], {}, multiset{};
    }

    /** Every room is filed under its own bare JID, was created here, and is not deleted;
        nothing is deleted twice. */
    ghost predicate Valid() reads this {
      && (forall k :: k in mucs ==> mucs[k].jid == k && k.IsValid() && k.IsBare())
      && (forall k :: k in mucs ==> mucs[k] in created && deleted[mucs[k]] == 0)
      && (forall m :: m in deleted ==> m in created && deleted[m] == 1)
    }

    ghost predicate Filed(m: Muc) reads this { m.jid in mucs && mucs[m.jid] == m }

    /** Every room created is either filed or deleted, exactly once. */
    ghost predicate NoLeak() reads this {
      forall m :: m in created ==> (Filed(m) <==> deleted[m] == 0)
    }

    /** No room goes back to an earlier state. */
    twostate predicate Forward() reads this, created {
      old(created) <= created && forall m :: m in old(created) ==> Rank(old(m.state)) <= Rank(m.state)
    }

    /** A join leaks exactly when a full JID names a room already filed under its bare JID. */
    predicate Overwrites(room: Jid) reads this {
      room.IsValid() && room !in mucs && room.BareJid() in mucs
    }

    method JoinMuc(room: Jid)
      requires Valid()
      modifies this
      ensures Valid() && Forward() && fresh(created - old(created))
      ensures room.IsValid() ==> room.BareJid() in mucs
      ensures old(NoLeak()) ==> (NoLeak() <==> !old(Overwrites(room)))
      ensures forall k :: k in old(mucs) && k != room.BareJid() ==> k in mucs && mucs[k] == old(mucs[k])
      ensures room in old(mucs) || !room.IsValid() ==> mucs == old(mucs)
      ensures room.IsValid() && room !in old(mucs) ==>
        var muc := mucs[room.BareJid()];
        && fresh(muc) && muc.jid == room.BareJid() && muc.state == Joining && muc.members == {}
        && muc.localJid == LocalJid(room.BareJid(), if room.resource == "" then ownNick else room.resource)
    {
      if !room.IsValid() { return; }
      var nick := if room.resource == "" then ownNick else room.resource;
      if room in mucs { return; }
      var muc := new Muc(room.BareJid(), nick);
      File(muc);
    }

    /** `mucs_[muc->jid()] = muc` */
    method File(muc: Muc)
      requires Valid() && muc !in created && muc.jid.IsValid() && muc.jid.IsBare()
      modifies this`mucs, this`created
      ensures Valid() && created == old(created) + {muc} && mucs == old(mucs)[muc.jid := muc]
      ensures old(NoLeak()) ==> (NoLeak() <==> muc.jid !in old(mucs))
    {
      ghost var before := mucs;
      created := created + {muc};
      mucs := mucs[muc.jid := muc];
      if muc.jid in before {
        assert before[muc.jid] in created && !Filed(before[muc.jid]);
      }
    }

    /** This room is being left, and nothing else has changed about any room. */
    twostate predicate Left(muc: Muc)
      reads this, created, muc
    {
      && muc.state == Leaving && muc.members == old(muc.members)
      && forall m :: m in old(created) && m in created && m != muc ==>
           m.state == old(m.state) && m.members == old(m.members)
    }

    method LeaveMuc(which: Option<Jid>)
      requires Valid()
      modifies this, created
      ensures Valid() && Forward() && (old(NoLeak()) ==> NoLeak())
      ensures mucs == old(mucs) && created == old(created) && deleted == old(deleted)
      ensures which.Some? && which.value in mucs ==> Left(mucs[which.value])
      ensures which.Some? && which.value !in mucs ==> forall m :: m in created ==> unchanged(m)
      ensures which.None? && mucs != map[] ==> exists k :: k in mucs && Left(mucs[k])
    {
      var room := Jid("", "", "");
      if which.Some? {
        room := which.value;
      } else if mucs != map[] {
        room :| room in mucs;   // mucs_.begin(), the first in JID order
      }
      if !room.IsValid() { return; }
      if room !in mucs { return; }
      mucs[room].state := Leaving;
    }

    /** The ASSERT of the original is the precondition. */
    method OnMucJoined(endpoint: Jid)
      requires Valid() && endpoint in mucs && mucs[endpoint].state == Joining
      modifies mucs[endpoint]
      ensures mucs[endpoint].state == Joined && mucs[endpoint].members == old(mucs[endpoint].members)
    {
      mucs[endpoint].state := Joined;
    }

    /** The ASSERT of the original is the precondition. */
    method OnMucStatusUpdate(jid: Jid, about: Jid, available: bool)
      requires Valid() && jid in mucs
      modifies mucs[jid]
      ensures mucs[jid].state == old(mucs[jid].state)
      ensures mucs[jid].members ==
        if about.IsBare() || about == mucs[jid].localJid || available then old(mucs[jid].members)
        else old(mucs[jid].members) - {about.resource}
    {
      var muc := mucs[jid];
      if about.IsBare() || about == muc.localJid { return; }
      if !available { muc.members := muc.members - {about.resource}; }
    }

    method OnMucLeft(endpoint: Jid)
      requires Valid()
      modifies this
      ensures Valid() && created == old(created) && mucs == old(mucs) - {endpoint}
      ensures old(NoLeak()) ==> NoLeak()
      ensures deleted == old(deleted) + (if endpoint in old(mucs) then multiset{old(mucs[endpoint])} else multiset{})
    {
      if endpoint !in mucs { return; }
      var muc := mucs[endpoint];
      deleted := deleted + multiset{muc};
      mucs := mucs - {endpoint};
      assert forall m :: m in created && m != muc && m.jid == endpoint ==> !old(Filed(m));
    }

    /** ProcessStart and HandleMucPresence. */
    method OnPresence(p: Presence)
      requires Valid()
      modifies this, created
      ensures Valid() && Forward() && created == old(created) && (old(NoLeak()) ==> NoLeak())
      ensures var key := p.from.BareJid();
        if key !in old(mucs) then mucs == old(mucs) && forall m :: m in created ==> unchanged(m)
        else
          var muc := old(mucs[key]);
          var own := p.from == muc.localJid;
          && mucs == (if own && p.hasType then old(mucs) - {key} else old(mucs))
          && muc.state == (if own && !p.hasType && p.hasMucItem && old(muc.state) == Joining then Joined
                           else old(muc.state))
          && muc.members == (if own || p.from.IsBare() || p.available then old(muc.members)
                             else old(muc.members) - {p.from.resource})
          && forall m :: m in created && m != muc ==> unchanged(m)
    {
      var key := p.from.BareJid();
      if key !in mucs { return; }
      var muc := mucs[key];
      if p.from == muc.localJid {
        if !p.hasType {
          if p.hasMucItem && muc.state == Joining { OnMucJoined(muc.jid); }
        } else {
          OnMucLeft(muc.jid);
        }
      } else {
        OnMucStatusUpdate(muc.jid, p.from, p.available);
      }
    }

    /** Any run of commands and stanzas.  Joined with bare JIDs only, nothing leaks. */
    method Run(commands: seq<Command>)
      requires Valid()
      modifies this, created
      ensures Valid() && Forward()
      ensures old(NoLeak()) && (forall i :: 0 <= i < |commands| && commands[i].Join? ==> commands[i].room.IsBare())
        ==> NoLeak()
      ensures commands != [] ==>
        var last := commands[|commands| - 1];
        && (last.Join? && last.room.IsValid() ==> last.room.BareJid() in mucs)
        && (last.Leave? && last.which.Some? && last.which.value in mucs ==> mucs[last.which.value].state == Leaving)
      decreases |commands|
    {
      if commands == [] { return; }
      match commands[0] {
        case Join(room) => JoinMuc(room);
        case Leave(which) => LeaveMuc(which);
        case Incoming(p) => OnPresence(p);
      }
      if |commands| > 1 {
        assert commands[1..][|commands| - 2] == commands[|commands| - 1];
        Run(commands[1..]);
      }
    }
  }
}
