/** The XMPP debug log of examples/call/call_main.cc: an incremental splitter of a byte
    stream into tags and texts that hides the text after an authentication tag.

    A `char` stands for one byte.  Whether plain `char` is signed decides one comparison
    in IsAuthTag, so it is a parameter. */
module DebugLog {

  /** One log line.  A Removed line prints as "## TEXT REMOVED ##"; the bytes it hides are
      kept here so that the stream can be accounted for. */
  datatype Piece = Tag(raw: string) | Text(raw: string) | Removed(raw: string)

  predicate Contains(s: string, pattern: string) {
    exists i :: 0 <= i <= |s| && pattern <= s[i..]
  }

  predicate AtMostSpace(c: char, signedChar: bool) {
    c <= ' ' || (signedChar && '\U{80}' <= c)
  }

  /** A tag ends in '>', which none of the six comparisons accepts, so the six bytes the
      original reads before it knows the length are bytes of the tag. */
  predicate IsAuthTag(tag: string, signedChar: bool) {
    |tag| > 5 && tag[..5] == "<auth" && AtMostSpace(tag[5], signedChar) && Contains(tag, "mechanism")
  }

  /** A tag that says <auth, one byte more, and somewhere behind it mechanism. */
  function AuthText(c: char, a: string, b: string): string { "<auth" + [c] + a + "mechanism" + b }

  /** What the original takes for an authentication tag, for every text. */
  lemma IsAuthTagMeans(tag: string, sc: bool)
    ensures IsAuthTag(tag, sc) <==>
      exists c, a, b :: tag == AuthText(c, a, b) && (c <= ' ' || (sc && '\U{80}' <= c))
  {
    if IsAuthTag(tag, sc) {
      var i :| 0 <= i <= |tag| && "mechanism" <= tag[i..];
      MechanismBehind(tag, i, sc);
      assert tag == AuthText(tag[5], tag[6..i], tag[i + 9..]);
    }
    if c, a, b :| tag == AuthText(c, a, b) && (c <= ' ' || (sc && '\U{80}' <= c)) {
      AuthTextParts(tag, c, a, b);
    }
  }

  lemma MechanismBehind(tag: string, i: nat, sc: bool)
    requires |tag| > 5 && tag[..5] == "<auth" && AtMostSpace(tag[5], sc) && i <= |tag| && "mechanism" <= tag[i..]
    ensures 6 <= i && i + 9 <= |tag| && tag == AuthText(tag[5], tag[6..i], tag[i + 9..])
  {
    var word := "mechanism";
    assert tag[i] == tag[i..][0] == word[0] == 'm';
    assert forall k :: 0 <= k < 5 ==> tag[k] == tag[..5][k];
    assert tag[i..] == word + tag[i + 9..] by {
      assert tag[i..][..9] == word && tag[i..][9..] == tag[i + 9..];
    }
    assert tag == tag[..5] + [tag[5]] + tag[6..i] + tag[i..];
  }

  lemma AuthTextParts(tag: string, c: char, a: string, b: string)
    requires tag == AuthText(c, a, b)
    ensures |tag| > 5 && tag[..5] == "<auth" && tag[5] == c && Contains(tag, "mechanism")
  {
    var i := 6 + |a|;
    assert tag[i..] == "mechanism" + b;
  }

  // ---- the stream, one byte at a time ----

  /** Bytes not yet printed, whether the next text is to be hidden, and the lines printed. */
  datatype View = View(pending: string, censor: bool, lines: seq<Piece>)

  function TextPiece(raw: string, censor: bool): Piece { if censor then Removed(raw) else Text(raw) }

  function Feed(v: View, c: char, sc: bool): View {
    if c == '>' then
      var tag := v.pending + [c];
      View("", v.censor || IsAuthTag(tag, sc), v.lines + [Tag(tag)])
    else if c == '<' && v.pending != "" then
      View([c], false, v.lines + [TextPiece(v.pending, v.censor)])
    else v.(pending := v.pending + [c])
  }

  function FeedAll(v: View, s: string, sc: bool): (r: View)
    ensures v.lines <= r.lines
    decreases |s|
  {
    if s == "" then v else FeedAll(Feed(v, s[0], sc), s[1..], sc)
  }

  function Flatten(chunks: seq<string>): string {
    if chunks == [] then "" else chunks[0] + Flatten(chunks[1..])
  }

  lemma {:induction false} FeedAllConcat(v: View, a: string, b: string, sc: bool)
    ensures FeedAll(v, a + b, sc) == FeedAll(FeedAll(v, a, sc), b, sc)
    decreases |a|
  {
    if a == "" {
      assert a + b == b;
    } else {
      assert (a + b)[1..] == a[1..] + b;
      FeedAllConcat(Feed(v, a[0], sc), a[1..], b, sc);
    }
  }

  lemma FeedAllSnoc(v: View, s: string, c: char, sc: bool)
    ensures FeedAll(v, s + [c], sc) == Feed(FeedAll(v, s, sc), c, sc)
  {
    FeedAllConcat(v, s, [c], sc);
    assert [c][1..] == "";
  }

  /** Leftover bytes: no '>' at all, and '<' at most in front. */
  predicate Quiet(s: string) {
    forall i :: 0 <= i < |s| ==> s[i] != '>' && (s[i] == '<' ==> i == 0)
  }

  lemma {:induction false} FeedKeepsQuiet(v: View, s: string, sc: bool)
    requires Quiet(v.pending)
    ensures Quiet(FeedAll(v, s, sc).pending)
    decreases |s|
  {
    if s != "" { FeedKeepsQuiet(Feed(v, s[0], sc), s[1..], sc); }
  }

  /** Scanning leftover bytes again prints nothing, which is why restarting every call at
      the front of the buffer does no harm. */
  lemma {:induction false} RescanPrintsNothing(v: View, p: string, sc: bool)
    requires Quiet(v.pending + p)
    ensures FeedAll(v, p, sc) == v.(pending := v.pending + p)
    decreases |p|
  {
    if p == "" {
      assert v.pending + p == v.pending;
    } else {
      var q := v.pending + p;
      assert q[|v.pending|] == p[0];
      assert v.pending + [p[0]] + p[1..] == q;
      RescanPrintsNothing(Feed(v, p[0], sc), p[1..], sc);
    }
  }

  // ---- what the lines mean, without the automaton ----

  function Raw(lines: seq<Piece>): string {
    if lines == [] then "" else lines[0].raw + Raw(lines[1..])
  }

  lemma {:induction false} RawSnoc(lines: seq<Piece>, p: Piece)
    ensures Raw(lines + [p]) == Raw(lines) + p.raw
  {
    if lines == [] {
      assert [p][1..] == [] && lines + [p] == [p];
    } else {
      assert (lines + [p])[1..] == lines[1..] + [p];
      RawSnoc(lines[1..], p);
    }
  }

  lemma FeedLosesNothing(v: View, c: char, sc: bool)
    ensures var w := Feed(v, c, sc); Raw(w.lines) + w.pending == Raw(v.lines) + v.pending + [c]
  {
    if c == '>' {
      RawSnoc(v.lines, Tag(v.pending + [c]));
    } else if c == '<' && v.pending != "" {
      RawSnoc(v.lines, TextPiece(v.pending, v.censor));
    }
  }

  /** No byte is lost, repeated or reordered. */
  lemma {:induction false} NothingLost(v: View, s: string, sc: bool)
    ensures var w := FeedAll(v, s, sc); Raw(w.lines) + w.pending == Raw(v.lines) + v.pending + s
    decreases |s|
  {
    if s != "" {
      FeedLosesNothing(v, s[0], sc);
      NothingLost(Feed(v, s[0], sc), s[1..], sc);
      assert [s[0]] + s[1..] == s;
    }
  }

  /** A tag line is cut after its only '>', a text line before the next '<'. */
  predicate WellCut(p: Piece) {
    match p
    case Tag(raw) => raw != "" && raw[|raw| - 1] == '>' && Quiet(raw[..|raw| - 1])
    case Text(raw) => raw != "" && Quiet(raw)
    case Removed(raw) => raw != "" && Quiet(raw)
  }

  /** The same raw pieces of the same kind, whatever is hidden. */
  ghost predicate SameCut(a: seq<Piece>, b: seq<Piece>) {
    |a| == |b| && forall i :: 0 <= i < |a| ==> a[i].raw == b[i].raw && a[i].Tag? == b[i].Tag?
  }

  /** The line, or the leftover, that comes after line i. */
  function Following(lines: seq<Piece>, pending: string, i: nat): string {
    if i + 1 < |lines| then lines[i + 1].raw else pending
  }

  predicate StartsTag(s: string) { s != "" && s[0] == '<' }

  /** The cut of a stream into raw lines and leftover, told by the bytes alone: every line
      is well cut, and what follows a text begins with '<'. */
  ghost predicate IsCut(lines: seq<Piece>, pending: string) {
    && Quiet(pending)
    && (forall i :: 0 <= i < |lines| ==> WellCut(lines[i]))
    && (forall i :: 0 <= i < |lines| && !lines[i].Tag? ==> StartsTag(Following(lines, pending, i)))
  }

  lemma CutSnoc(lines: seq<Piece>, pending: string, p: Piece, pending': string)
    requires IsCut(lines, pending) && WellCut(p) && Quiet(pending')
    requires StartsTag(pending) ==> StartsTag(p.raw)
    requires !p.Tag? ==> StartsTag(pending')
    ensures IsCut(lines + [p], pending')
  {
    var all := lines + [p];
    forall i | 0 <= i < |all| && !all[i].Tag? ensures StartsTag(Following(all, pending', i)) {
      if i < |lines| {
        assert all[i] == lines[i] && StartsTag(Following(lines, pending, i));
        if i + 1 < |lines| { assert all[i + 1] == lines[i + 1]; }
      }
    }
  }

  lemma CutExtend(lines: seq<Piece>, pending: string, pending': string)
    requires IsCut(lines, pending) && Quiet(pending')
    requires StartsTag(pending) ==> StartsTag(pending')
    ensures IsCut(lines, pending')
  {
    forall i | 0 <= i < |lines| && !lines[i].Tag? ensures StartsTag(Following(lines, pending', i)) {
      assert StartsTag(Following(lines, pending, i));
    }
  }

  /** Text number i is hidden exactly when some authentication tag came before it with no
      text in between. */
  ghost predicate HiddenRule(lines: seq<Piece>, sc: bool) {
    forall i :: 0 <= i < |lines| && !lines[i].Tag? ==> (lines[i].Removed? <==> Armed(lines, i, sc))
  }

  ghost predicate Armed(lines: seq<Piece>, n: nat, sc: bool)
    requires n <= |lines|
  {
    exists j :: 0 <= j < n && lines[j].Tag? && IsAuthTag(lines[j].raw, sc)
      && forall k :: j < k < n ==> lines[k].Tag?
  }

  /** The hidden texts, and whether the next one is to be, are as the rule says. */
  ghost predicate Ruled(v: View, sc: bool) {
    HiddenRule(v.lines, sc) && (v.censor <==> Armed(v.lines, |v.lines|, sc))
  }

  ghost predicate Explained(v: View, sc: bool) { IsCut(v.lines, v.pending) && Ruled(v, sc) }

  const START := View("", false, [])

  lemma ArmedAfterTag(lines: seq<Piece>, p: Piece, sc: bool)
    ensures Armed(lines + [p], |lines| + 1, sc) <==>
      p.Tag? && (IsAuthTag(p.raw, sc) || Armed(lines, |lines|, sc))
  {
    var all := lines + [p];
    if Armed(lines, |lines|, sc) && p.Tag? {
      var j :| 0 <= j < |lines| && lines[j].Tag? && IsAuthTag(lines[j].raw, sc)
        && forall k :: j < k < |lines| ==> lines[k].Tag?;
      assert all[j] == lines[j];
      assert forall k :: j < k < |all| ==> all[k].Tag?;
    }
    if Armed(all, |lines| + 1, sc) {
      var j :| 0 <= j < |all| && all[j].Tag? && IsAuthTag(all[j].raw, sc)
        && forall k :: j < k < |all| ==> all[k].Tag?;
      assert all[|lines|] == p;
      if j < |lines| {
        assert lines[j] == all[j];
        assert forall k :: j < k < |lines| ==> lines[k] == all[k];
      }
    }
    if p.Tag? && IsAuthTag(p.raw, sc) { assert all[|lines|] == p; }
  }

  lemma ArmedPrefix(lines: seq<Piece>, p: Piece, n: nat, sc: bool)
    requires n <= |lines|
    ensures Armed(lines + [p], n, sc) <==> Armed(lines, n, sc)
  {
    var all := lines + [p];
    assert forall j :: 0 <= j < |lines| ==> all[j] == lines[j];
    if Armed(all, n, sc) {
      var j :| 0 <= j < n && all[j].Tag? && IsAuthTag(all[j].raw, sc) && forall k :: j < k < n ==> all[k].Tag?;
      assert lines[j].Tag? && forall k :: j < k < n ==> lines[k] == all[k];
    }
    if Armed(lines, n, sc) {
      var j :| 0 <= j < n && lines[j].Tag? && IsAuthTag(lines[j].raw, sc) && forall k :: j < k < n ==> lines[k].Tag?;
      assert all[j].Tag? && forall k :: j < k < n ==> all[k] == lines[k];
    }
  }

  lemma HiddenRuleSnoc(lines: seq<Piece>, p: Piece, sc: bool)
    requires HiddenRule(lines, sc)
    requires !p.Tag? ==> (p.Removed? <==> Armed(lines, |lines|, sc))
    ensures HiddenRule(lines + [p], sc)
  {
    forall i | 0 <= i < |lines + [p]| && !(lines + [p])[i].Tag?
      ensures (lines + [p])[i].Removed? <==> Armed(lines + [p], i, sc)
    {
      ArmedPrefix(lines, p, i, sc);
    }
  }

  lemma FeedRuled(v: View, c: char, sc: bool)
    requires Ruled(v, sc)
    ensures Ruled(Feed(v, c, sc), sc)
  {
    if c == '>' {
      HiddenRuleSnoc(v.lines, Tag(v.pending + [c]), sc);
      ArmedAfterTag(v.lines, Tag(v.pending + [c]), sc);
    } else if c == '<' && v.pending != "" {
      HiddenRuleSnoc(v.lines, TextPiece(v.pending, v.censor), sc);
      ArmedAfterTag(v.lines, TextPiece(v.pending, v.censor), sc);
    }
  }

  lemma FeedCuts(v: View, c: char, sc: bool)
    requires IsCut(v.lines, v.pending)
    ensures var w := Feed(v, c, sc); IsCut(w.lines, w.pending)
  {
    var w := Feed(v, c, sc);
    if c == '>' {
      var tag := v.pending + [c];
      assert tag[..|tag| - 1] == v.pending;
      CutSnoc(v.lines, v.pending, Tag(tag), w.pending);
    } else if c == '<' && v.pending != "" {
      CutSnoc(v.lines, v.pending, TextPiece(v.pending, v.censor), w.pending);
    } else {
      CutExtend(v.lines, v.pending, w.pending);
    }
  }

  lemma {:induction false} StreamExplained(v: View, s: string, sc: bool)
    requires Explained(v, sc)
    ensures Explained(FeedAll(v, s, sc), sc)
    decreases |s|
  {
    if s != "" {
      FeedCuts(v, s[0], sc);
      FeedRuled(v, s[0], sc);
      StreamExplained(Feed(v, s[0], sc), s[1..], sc);
    }
  }

  // ---- the cut is the only one ----

  lemma FirstPieceUnique(p: Piece, after: string, q: Piece, after': string)
    requires WellCut(p) && WellCut(q) && p.raw + after == q.raw + after'
    requires (!p.Tag? ==> StartsTag(after)) && (!q.Tag? ==> StartsTag(after'))
    ensures p.raw == q.raw && p.Tag? == q.Tag? && after == after'
  {
    var t := p.raw + after;
    var n, m := |p.raw|, |q.raw|;
    assert forall i :: 0 <= i < n ==> t[i] == p.raw[i];
    assert forall i :: 0 <= i < m ==> t[i] == q.raw[i];
    assert !p.Tag? ==> t[n] == '<';
    assert !q.Tag? ==> t[m] == '<';
    assert p.Tag? ==> t[n - 1] == '>';
    assert q.Tag? ==> t[m - 1] == '>';
    assert n == m;
    assert p.raw == t[..n] == q.raw;
    assert after == t[n..] == after';
  }

  lemma LeftoverHasNoPiece(p: Piece, after: string, pending: string)
    requires WellCut(p) && Quiet(pending) && (!p.Tag? ==> StartsTag(after))
    ensures p.raw + after != pending
  {
    var n, t := |p.raw|, p.raw + after;
    assert p.Tag? ==> t[n - 1] == '>';
    assert !p.Tag? ==> t[n] == '<';
  }

  lemma CutTail(lines: seq<Piece>, pending: string)
    requires IsCut(lines, pending) && lines != []
    ensures IsCut(lines[1..], pending)
    ensures !lines[0].Tag? ==> StartsTag(Raw(lines[1..]) + pending)
  {
    var tail := lines[1..];
    forall i | 0 <= i < |tail| && !tail[i].Tag? ensures StartsTag(Following(tail, pending, i)) {
      assert tail[i] == lines[i + 1] && StartsTag(Following(lines, pending, i + 1));
    }
    if !lines[0].Tag? {
      assert StartsTag(Following(lines, pending, 0));
      if |lines| > 1 { assert Raw(tail) == tail[0].raw + Raw(tail[1..]) && tail[0] == lines[1]; }
      else { assert tail == []; }
    }
  }

  lemma RawHead(lines: seq<Piece>, pending: string)
    requires lines != []
    ensures Raw(lines) + pending == lines[0].raw + (Raw(lines[1..]) + pending)
  {
  }

  lemma {:induction false} CutUnique(a: seq<Piece>, p: string, b: seq<Piece>, q: string)
    requires IsCut(a, p) && IsCut(b, q) && Raw(a) + p == Raw(b) + q
    ensures SameCut(a, b) && p == q
    decreases |a|
  {
    assert "" + p == p && "" + q == q;
    if a != [] { CutTail(a, p); RawHead(a, p); LeftoverHasNoPiece(a[0], Raw(a[1..]) + p, q); }
    if b != [] { CutTail(b, q); RawHead(b, q); LeftoverHasNoPiece(b[0], Raw(b[1..]) + q, p); }
    if a != [] && b != [] {
      FirstPieceUnique(a[0], Raw(a[1..]) + p, b[0], Raw(b[1..]) + q);
      CutUnique(a[1..], p, b[1..], q);
      assert forall i :: 1 <= i < |a| ==> a[i] == a[1..][i - 1] && b[i] == b[1..][i - 1];
    }
  }

  /** The hidden texts are settled by the tags before them. */
  lemma HiddenUnique(a: seq<Piece>, b: seq<Piece>, sc: bool)
    requires SameCut(a, b) && HiddenRule(a, sc) && HiddenRule(b, sc)
    ensures a == b && (Armed(a, |a|, sc) <==> Armed(b, |b|, sc))
  {
    forall i | 0 <= i <= |a| ensures Armed(a, i, sc) <==> Armed(b, i, sc) {
      SameArmed(a, b, i, sc);
      SameArmed(b, a, i, sc);
    }
    assert forall i :: 0 <= i < |a| ==> a[i] == b[i];
  }

  lemma SameArmed(a: seq<Piece>, b: seq<Piece>, n: nat, sc: bool)
    requires SameCut(a, b) && n <= |a|
    ensures Armed(a, n, sc) ==> Armed(b, n, sc)
  {
    if Armed(a, n, sc) {
      var j :| 0 <= j < n && a[j].Tag? && IsAuthTag(a[j].raw, sc) && forall k :: j < k < n ==> a[k].Tag?;
      assert b[j].Tag? && forall k :: j < k < n ==> a[k].Tag? && b[k].Tag?;
    }
  }

  /** A log is the right one for a stream exactly when its lines cut the stream at the tags
      and hide exactly the texts that follow an authentication tag. */
  lemma LogIsTheOnlyOne(v: View, s: string, sc: bool)
    ensures v == FeedAll(START, s, sc) <==> Explained(v, sc) && Raw(v.lines) + v.pending == s
  {
    var w := FeedAll(START, s, sc);
    assert Explained(START, sc);
    StreamExplained(START, s, sc);
    NothingLost(START, s, sc);
    assert Raw(START.lines) + START.pending + s == s;
    if Explained(v, sc) && Raw(v.lines) + v.pending == s {
      CutUnique(v.lines, v.pending, w.lines, w.pending);
      HiddenUnique(v.lines, w.lines, sc);
    }
  }

  /** Text number i follows, with no text in between, a tag <auth...mechanism...>. */
  ghost predicate AfterAuth(lines: seq<Piece>, i: nat, sc: bool)
    requires i <= |lines|
  {
    exists j, c, a, b :: 0 <= j < i && lines[j] == Tag(AuthText(c, a, b)) && (c <= ' ' || (sc && '\U{80}' <= c))
      && forall k :: j < k < i ==> lines[k].Tag?
  }

  lemma ArmedMeans(lines: seq<Piece>, i: nat, sc: bool)
    requires i <= |lines|
    ensures Armed(lines, i, sc) <==> AfterAuth(lines, i, sc)
  {
    if Armed(lines, i, sc) {
      var j :| 0 <= j < i && lines[j].Tag? && IsAuthTag(lines[j].raw, sc) && forall k :: j < k < i ==> lines[k].Tag?;
      IsAuthTagMeans(lines[j].raw, sc);
      var c, a, b :| lines[j].raw == AuthText(c, a, b) && (c <= ' ' || (sc && '\U{80}' <= c));
      assert lines[j] == Tag(AuthText(c, a, b));
    }
    if AfterAuth(lines, i, sc) {
      var j, c, a, b :| 0 <= j < i && lines[j] == Tag(AuthText(c, a, b)) && (c <= ' ' || (sc && '\U{80}' <= c))
        && forall k :: j < k < i ==> lines[k].Tag?;
      IsAuthTagMeans(lines[j].raw, sc);
    }
  }

  /** The log of a stream, without the automaton and without IsAuthTag: the only lines that cut
      it at the tags and hide exactly the texts that follow a tag <auth...mechanism...>. */
  lemma LogMeans(lines: seq<Piece>, pending: string, s: string, sc: bool)
    ensures (FeedAll(START, s, sc).lines == lines && FeedAll(START, s, sc).pending == pending)
       <==> && IsCut(lines, pending) && Raw(lines) + pending == s
            && forall i :: 0 <= i < |lines| && !lines[i].Tag? ==> (lines[i].Removed? <==> AfterAuth(lines, i, sc))
  {
    var v := View(pending, Armed(lines, |lines|, sc), lines);
    LogIsTheOnlyOne(v, s, sc);
    LogIsTheOnlyOne(FeedAll(START, s, sc), s, sc);
    forall i | 0 <= i < |lines| ensures Armed(lines, i, sc) <==> AfterAuth(lines, i, sc) {
      ArmedMeans(lines, i, sc);
    }
  }

  // ---- both directions, which share the one flag ----

  /** Bytes handed to Output (sent) or to Input. */
  datatype Chunk = Chunk(sent: bool, data: string)

  /** Both leftovers, the flag, the lines of both directions, and which direction each is of. */
  datatype Both = Both(inPending: string, outPending: string, censor: bool, lines: seq<Piece>, from: seq<bool>) {
    function Pending(sent: bool): string { if sent then outPending else inPending }

    function Side(sent: bool): View { View(Pending(sent), censor, lines) }

    ghost predicate Valid() { |from| == |lines| }
  }

  const BOTH_START := Both("", "", false, [], [])

  function Repeat(sent: bool, n: nat): seq<bool> { seq(n, _ => sent) }

  function StepBoth(b: Both, sent: bool, data: string, sc: bool): Both {
    var v := FeedAll(b.Side(sent), data, sc);
    Both(if sent then b.inPending else v.pending, if sent then v.pending else b.outPending,
         v.censor, v.lines, b.from + Repeat(sent, |v.lines| - |b.lines|))
  }

  function RunBoth(b: Both, chunks: seq<Chunk>, sc: bool): Both
    decreases |chunks|
  {
    if chunks == [] then b else RunBoth(StepBoth(b, chunks[0].sent, chunks[0].data, sc), chunks[1..], sc)
  }

  /** All bytes of one direction. */
  function Stream(chunks: seq<Chunk>, sent: bool): string {
    if chunks == [] then ""
    else (if chunks[0].sent == sent then chunks[0].data else "") + Stream(chunks[1..], sent)
  }

  /** The lines of one direction. */
  function Only(lines: seq<Piece>, from: seq<bool>, sent: bool): seq<Piece>
    requires |lines| == |from|
  {
    if lines == [] then []
    else
      var n := |lines| - 1;
      Only(lines[..n], from[..n], sent) + (if from[n] == sent then [lines[n]] else [])
  }

  function OnlyOf(b: Both, sent: bool): seq<Piece>
    requires b.Valid()
  {
    Only(b.lines, b.from, sent)
  }

  lemma OnlySnoc(lines: seq<Piece>, from: seq<bool>, p: Piece, sent: bool, which: bool)
    requires |lines| == |from|
    ensures Only(lines + [p], from + [sent], which) == Only(lines, from, which) + (if sent == which then [p] else [])
  {
    assert (lines + [p])[..|lines|] == lines && (from + [sent])[..|lines|] == from;
  }

  /** Printing more lines of one direction appends them to its own and to no other. */
  lemma {:induction false} OnlyAppend(lines: seq<Piece>, from: seq<bool>, more: seq<Piece>, sent: bool, which: bool)
    requires |lines| == |from|
    ensures Only(lines + more, from + Repeat(sent, |more|), which)
         == Only(lines, from, which) + (if sent == which then more else [])
    decreases |more|
  {
    if more == [] {
      assert lines + more == lines && from + Repeat(sent, 0) == from;
    } else {
      var n := |more| - 1;
      OnlyAppend(lines, from, more[..n], sent, which);
      OnlySnoc(lines + more[..n], from + Repeat(sent, n), more[n], sent, which);
      assert lines + more == (lines + more[..n]) + [more[n]];
      RepeatSplit(from, sent, n, 1);
      assert Repeat(sent, 1) == [sent];
      assert more == more[..n] + [more[n]];
    }
  }

  lemma StepBothOnly(b: Both, sent: bool, data: string, sc: bool, which: bool)
    requires b.Valid()
    ensures var c := StepBoth(b, sent, data, sc);
      && c.Valid()
      && OnlyOf(c, which) == OnlyOf(b, which) + (if sent == which then PrintedAll(b.Side(sent), data, sc) else [])
  {
    FeedAllPrints(b.Side(sent), data, sc);
    OnlyAppend(b.lines, b.from, PrintedAll(b.Side(sent), data, sc), sent, which);
  }

  lemma SameCutConcat(a: seq<Piece>, b: seq<Piece>, a': seq<Piece>, b': seq<Piece>)
    requires SameCut(a, a') && SameCut(b, b')
    ensures SameCut(a + b, a' + b')
  {
  }

  /** What a byte prints. */
  function Printed(v: View, c: char, sc: bool): seq<Piece> {
    if c == '>' then [Tag(v.pending + [c])]
    else if c == '<' && v.pending != "" then [TextPiece(v.pending, v.censor)]
    else []
  }

  /** What bytes print. */
  function PrintedAll(v: View, s: string, sc: bool): seq<Piece>
    decreases |s|
  {
    if s == "" then [] else Printed(v, s[0], sc) + PrintedAll(Feed(v, s[0], sc), s[1..], sc)
  }

  lemma {:induction false} FeedAllPrints(v: View, s: string, sc: bool)
    ensures FeedAll(v, s, sc).lines == v.lines + PrintedAll(v, s, sc)
    decreases |s|
  {
    if s == "" {
      assert v.lines + [] == v.lines;
    } else {
      var w := Feed(v, s[0], sc);
      FeedAllPrints(w, s[1..], sc);
      assert w.lines == v.lines + Printed(v, s[0], sc);
      Assoc(v.lines, Printed(v, s[0], sc), PrintedAll(w, s[1..], sc));
    }
  }

  lemma Assoc(a: seq<Piece>, b: seq<Piece>, c: seq<Piece>)
    ensures a + (b + c) == (a + b) + c
  {
  }

  /** The cut depends on the leftover and the bytes, not on the flag or on earlier lines. */
  lemma {:induction false} CutIndependent(v: View, u: View, s: string, sc: bool)
    requires v.pending == u.pending
    ensures FeedAll(v, s, sc).pending == FeedAll(u, s, sc).pending
    ensures SameCut(PrintedAll(v, s, sc), PrintedAll(u, s, sc))
    decreases |s|
  {
    if s != "" {
      var v1, u1 := Feed(v, s[0], sc), Feed(u, s[0], sc);
      CutIndependent(v1, u1, s[1..], sc);
      SameCutConcat(Printed(v, s[0], sc), PrintedAll(v1, s[1..], sc),
                    Printed(u, s[0], sc), PrintedAll(u1, s[1..], sc));
    }
  }

  /** One direction of the merged log is cut like a log of its own. */
  ghost predicate CutLike(b: Both, sent: bool, u: View) {
    b.Valid() && b.Pending(sent) == u.pending && SameCut(OnlyOf(b, sent), u.lines)
  }

  lemma CutLikeStep(b: Both, sent: bool, data: string, sc: bool, u: View)
    requires CutLike(b, sent, u)
    ensures CutLike(StepBoth(b, sent, data, sc), sent, FeedAll(u, data, sc))
  {
    StepBothOnly(b, sent, data, sc, sent);
    FeedAllPrints(u, data, sc);
    CutIndependent(b.Side(sent), u, data, sc);
    SameCutConcat(OnlyOf(b, sent), PrintedAll(b.Side(sent), data, sc), u.lines, PrintedAll(u, data, sc));
  }

  /** Each direction's leftover and raw pieces are what its own bytes alone give. */
  lemma {:induction false} CutPerDirection(b: Both, chunks: seq<Chunk>, sc: bool, sent: bool, u: View)
    requires CutLike(b, sent, u)
    ensures CutLike(RunBoth(b, chunks, sc), sent, FeedAll(u, Stream(chunks, sent), sc))
    decreases |chunks|
  {
    if chunks != [] {
      var d, rest := chunks[0], Stream(chunks[1..], sent);
      var b1 := StepBoth(b, d.sent, d.data, sc);
      if d.sent == sent {
        CutLikeStep(b, sent, d.data, sc, u);
        FeedAllConcat(u, d.data, rest, sc);
        CutPerDirection(b1, chunks[1..], sc, sent, FeedAll(u, d.data, sc));
      } else {
        StepBothOnly(b, d.sent, d.data, sc, sent);
        assert "" + rest == rest;
        CutPerDirection(b1, chunks[1..], sc, sent, u);
      }
    }
  }

  lemma {:induction false} StreamRuled(v: View, s: string, sc: bool)
    requires Ruled(v, sc)
    ensures Ruled(FeedAll(v, s, sc), sc)
    decreases |s|
  {
    if s != "" {
      FeedRuled(v, s[0], sc);
      StreamRuled(Feed(v, s[0], sc), s[1..], sc);
    }
  }

  lemma {:induction false} RunBothRuled(b: Both, chunks: seq<Chunk>, sc: bool)
    requires Ruled(b.Side(true), sc)
    ensures Ruled(RunBoth(b, chunks, sc).Side(true), sc)
    decreases |chunks|
  {
    if chunks != [] {
      StreamRuled(b.Side(chunks[0].sent), chunks[0].data, sc);
      RunBothRuled(StepBoth(b, chunks[0].sent, chunks[0].data, sc), chunks[1..], sc);
    }
  }

  /** Over every interleaving of the two directions: each is cut as its own bytes alone would
      be, and a text is hidden exactly when an authentication tag of either direction came
      before it with no text of either direction in between. */
  lemma EveryInterleaving(chunks: seq<Chunk>, sc: bool)
    ensures var c := RunBoth(BOTH_START, chunks, sc);
      && c.Valid() && HiddenRule(c.lines, sc)
      && CutLike(c, false, FeedAll(START, Stream(chunks, false), sc))
      && CutLike(c, true, FeedAll(START, Stream(chunks, true), sc))
  {
    RunBothRuled(BOTH_START, chunks, sc);
    CutPerDirection(BOTH_START, chunks, sc, false, START);
    CutPerDirection(BOTH_START, chunks, sc, true, START);
  }

  /** A text that follows an authentication tag of its own direction, with no text of that
      direction and no further authentication tag in between, is hidden exactly when no text
      of the other direction was printed in between. */
  lemma HiddenIffNotInterrupted(chunks: seq<Chunk>, sc: bool, j: nat, i: nat)
    requires var c := RunBoth(BOTH_START, chunks, sc);
      && j < i < |c.lines| == |c.from| && c.from[j] == c.from[i]
      && !c.lines[i].Tag? && c.lines[j].Tag? && IsAuthTag(c.lines[j].raw, sc)
      && (forall k :: j < k < i && c.from[k] == c.from[i] ==> c.lines[k].Tag?)
      && (forall k :: j < k < i && c.lines[k].Tag? ==> !IsAuthTag(c.lines[k].raw, sc))
    ensures var c := RunBoth(BOTH_START, chunks, sc);
      c.lines[i].Removed? <==> forall k :: j < k < i && c.from[k] != c.from[i] ==> c.lines[k].Tag?
  {
    EveryInterleaving(chunks, sc);
    var c := RunBoth(BOTH_START, chunks, sc);
    if Armed(c.lines, i, sc) {
      var m :| 0 <= m < i && c.lines[m].Tag? && IsAuthTag(c.lines[m].raw, sc)
        && forall k :: m < k < i ==> c.lines[k].Tag?;
      assert m <= j;
    }
  }

  // ---- when the directions leave each other's log alone ----

  ghost predicate HasAuth(lines: seq<Piece>, sc: bool) {
    exists i :: 0 <= i < |lines| && lines[i].Tag? && IsAuthTag(lines[i].raw, sc)
  }

  ghost predicate HasText(lines: seq<Piece>) { exists i :: 0 <= i < |lines| && !lines[i].Tag? }

  /** The other direction's lines cannot change what is hidden among x: an authentication tag
      would hide a shown text, and any text would show a hidden one. */
  ghost predicate Undisturbed(x: seq<Piece>, other: seq<Piece>, sc: bool) {
    && (HasAuth(other, sc) ==> forall i :: 0 <= i < |x| ==> !x[i].Text?)
    && (HasText(other) ==> forall i :: 0 <= i < |x| ==> !x[i].Removed?)
  }

  function Alone(s: string, sc: bool): seq<Piece> { FeedAll(START, s, sc).lines }

  /** However the two streams are cut and interleaved, each direction's log is its own. */
  ghost predicate LogsSeparate(received: string, sentBytes: string, sc: bool) {
    forall chunks: seq<Chunk> :: Stream(chunks, false) == received && Stream(chunks, true) == sentBytes ==>
      OwnLog(chunks, false, received, sc) && OwnLog(chunks, true, sentBytes, sc)
  }

  ghost predicate OwnLog(chunks: seq<Chunk>, sent: bool, s: string, sc: bool) {
    var c := RunBoth(BOTH_START, chunks, sc);
    c.Valid() && OnlyOf(c, sent) == Alone(s, sc)
  }

  // ---- sufficiency: the flag agrees with each direction's own whenever it matters ----

  /** The merged log next to the logs of the two directions alone, x being that of `sent`. */
  ghost predicate InStep(b: Both, x: View, y: View, sent: bool, sc: bool) {
    && b.Valid() && b.Pending(sent) == x.pending && b.Pending(!sent) == y.pending
    && OnlyOf(b, sent) == x.lines && OnlyOf(b, !sent) == y.lines
    && FlagsAgree(b.censor, x, y, sc)
  }

  ghost predicate FlagsAgree(censor: bool, x: View, y: View, sc: bool) {
    && (censor ==> x.censor || y.censor)
    && (x.censor && !censor ==> HasText(y.lines)) && (y.censor && !censor ==> HasText(x.lines))
    && (x.censor ==> HasAuth(x.lines, sc)) && (y.censor ==> HasAuth(y.lines, sc))
  }

  lemma HasSnoc(lines: seq<Piece>, p: Piece, sc: bool)
    ensures HasText(lines + [p]) <==> HasText(lines) || !p.Tag?
    ensures HasAuth(lines + [p], sc) <==> HasAuth(lines, sc) || (p.Tag? && IsAuthTag(p.raw, sc))
  {
    var all := lines + [p];
    assert all[|lines|] == p;
    assert forall i :: 0 <= i < |lines| ==> all[i] == lines[i];
    if HasText(lines) { var i :| 0 <= i < |lines| && !lines[i].Tag?; assert !all[i].Tag?; }
    if HasAuth(lines, sc) {
      var i :| 0 <= i < |lines| && lines[i].Tag? && IsAuthTag(lines[i].raw, sc);
      assert all[i].Tag?;
    }
  }

  lemma UndisturbedPrefix(x: seq<Piece>, y: seq<Piece>, x': seq<Piece>, y': seq<Piece>, sc: bool)
    requires x <= x' && y <= y' && Undisturbed(x', y', sc)
    ensures Undisturbed(x, y, sc)
  {
    if HasText(y) { var i :| 0 <= i < |y| && !y[i].Tag?; assert !y'[i].Tag?; }
    if HasAuth(y, sc) { var i :| 0 <= i < |y| && y[i].Tag? && IsAuthTag(y[i].raw, sc); assert y'[i].Tag?; }
    assert forall i :: 0 <= i < |x| ==> x[i] == x'[i];
  }

  /** When a text of x is printed the shared flag is x's own. */
  lemma FlagIsOwn(censor: bool, x: View, y: View, c: char, sc: bool)
    requires FlagsAgree(censor, x, y, sc) && c == '<' && x.pending != ""
    requires Undisturbed(Feed(x, c, sc).lines, y.lines, sc)
    ensures censor == x.censor
  {
    assert Feed(x, c, sc).lines[|x.lines|] == TextPiece(x.pending, x.censor);
  }

  lemma FlagsStayAgreed(censor: bool, x: View, y: View, c: char, sc: bool)
    requires FlagsAgree(censor, x, y, sc) && Undisturbed(Feed(x, c, sc).lines, y.lines, sc)
    ensures FlagsAgree(Feed(View(x.pending, censor, []), c, sc).censor, Feed(x, c, sc), y, sc)
  {
    if c == '>' {
      HasSnoc(x.lines, Tag(x.pending + [c]), sc);
    } else if c == '<' && x.pending != "" {
      FlagIsOwn(censor, x, y, c, sc);
      HasSnoc(x.lines, TextPiece(x.pending, x.censor), sc);
    }
  }

  lemma OneByte(v: View, c: char, sc: bool)
    ensures FeedAll(v, [c], sc) == Feed(v, c, sc) && PrintedAll(v, [c], sc) == Printed(v, c, sc)
  {
    assert [c][1..] == "";
    assert Printed(v, c, sc) + [] == Printed(v, c, sc);
  }

  lemma LinesInStep(b: Both, x: View, sent: bool, c: char, sc: bool)
    requires b.Valid() && b.Pending(sent) == x.pending && OnlyOf(b, sent) == x.lines
    requires c == '<' && x.pending != "" ==> b.censor == x.censor
    ensures var d := StepBoth(b, sent, [c], sc);
      && d.Valid() && d.Pending(sent) == Feed(x, c, sc).pending && d.Pending(!sent) == b.Pending(!sent)
      && OnlyOf(d, sent) == Feed(x, c, sc).lines && OnlyOf(d, !sent) == OnlyOf(b, !sent)
      && d.censor == Feed(b.Side(sent), c, sc).censor
  {
    OneByte(b.Side(sent), c, sc);
    StepBothOnly(b, sent, [c], sc, sent);
    StepBothOnly(b, sent, [c], sc, !sent);
    assert Printed(b.Side(sent), c, sc) == Printed(x, c, sc);
    assert Feed(x, c, sc).lines == x.lines + Printed(x, c, sc);
  }

  lemma InStepByte(b: Both, x: View, y: View, sent: bool, c: char, sc: bool)
    requires InStep(b, x, y, sent, sc) && Undisturbed(Feed(x, c, sc).lines, y.lines, sc)
    ensures InStep(StepBoth(b, sent, [c], sc), Feed(x, c, sc), y, sent, sc)
  {
    FlagsStayAgreed(b.censor, x, y, c, sc);
    if c == '<' && x.pending != "" { FlagIsOwn(b.censor, x, y, c, sc); }
    LinesInStep(b, x, sent, c, sc);
  }

  lemma RepeatSplit(from: seq<bool>, sent: bool, m: nat, n: nat)
    ensures from + Repeat(sent, m + n) == from + Repeat(sent, m) + Repeat(sent, n)
  {
  }

  lemma StepBothSplit(b: Both, sent: bool, data: string, rest: string, sc: bool)
    ensures StepBoth(b, sent, data + rest, sc) == StepBoth(StepBoth(b, sent, data, sc), sent, rest, sc)
  {
    FeedAllConcat(b.Side(sent), data, rest, sc);
    var v := FeedAll(b.Side(sent), data, sc);
    var w := FeedAll(v, rest, sc);
    RepeatSplit(b.from, sent, |v.lines| - |b.lines|, |w.lines| - |v.lines|);
  }

  lemma {:induction false} InStepChunk(b: Both, x: View, y: View, sent: bool, data: string, sc: bool)
    requires InStep(b, x, y, sent, sc) && Undisturbed(FeedAll(x, data, sc).lines, y.lines, sc)
    ensures InStep(StepBoth(b, sent, data, sc), FeedAll(x, data, sc), y, sent, sc)
    decreases |data|
  {
    if data == "" {
      assert b.from + Repeat(sent, 0) == b.from;
      assert StepBoth(b, sent, data, sc) == b;
    } else {
      var x1, b1 := Feed(x, data[0], sc), StepBoth(b, sent, [data[0]], sc);
      UndisturbedPrefix(x1.lines, y.lines, FeedAll(x, data, sc).lines, y.lines, sc);
      InStepByte(b, x, y, sent, data[0], sc);
      assert data == [data[0]] + data[1..];
      StepBothSplit(b, sent, [data[0]], data[1..], sc);
      InStepChunk(b1, x1, y, sent, data[1..], sc);
    }
  }

  lemma InStepSwap(b: Both, x: View, y: View, sent: bool, sc: bool)
    requires InStep(b, x, y, sent, sc)
    ensures InStep(b, y, x, !sent, sc)
  {
  }

  /** The first chunk of a direction the other leaves alone. */
  lemma InStepFirst(b: Both, x: View, y: View, sent: bool, data: string, rest: string, y': seq<Piece>, sc: bool)
    requires InStep(b, x, y, sent, sc) && y.lines <= y' && Undisturbed(FeedAll(x, data + rest, sc).lines, y', sc)
    ensures InStep(StepBoth(b, sent, data, sc), FeedAll(x, data, sc), y, sent, sc)
    ensures FeedAll(x, data + rest, sc) == FeedAll(FeedAll(x, data, sc), rest, sc)
  {
    FeedAllConcat(x, data, rest, sc);
    UndisturbedPrefix(FeedAll(x, data, sc).lines, y.lines, FeedAll(x, data + rest, sc).lines, y', sc);
    InStepChunk(b, x, y, sent, data, sc);
  }

  /** Streams whose directions do not disturb each other keep their own logs. */
  lemma {:induction false} InStepRun(b: Both, x: View, y: View, chunks: seq<Chunk>, sc: bool)
    requires InStep(b, x, y, false, sc)
    requires var x', y' := FeedAll(x, Stream(chunks, false), sc), FeedAll(y, Stream(chunks, true), sc);
      Undisturbed(x'.lines, y'.lines, sc) && Undisturbed(y'.lines, x'.lines, sc)
    ensures InStep(RunBoth(b, chunks, sc), FeedAll(x, Stream(chunks, false), sc),
                   FeedAll(y, Stream(chunks, true), sc), false, sc)
    decreases |chunks|
  {
    if chunks != [] {
      var d, rest := chunks[0], chunks[1..];
      var b1 := StepBoth(b, d.sent, d.data, sc);
      var x', y' := FeedAll(x, Stream(chunks, false), sc), FeedAll(y, Stream(chunks, true), sc);
      assert "" + Stream(rest, !d.sent) == Stream(rest, !d.sent);
      if d.sent {
        var y1 := FeedAll(y, d.data, sc);
        InStepSwap(b, x, y, false, sc);
        InStepFirst(b, y, x, true, d.data, Stream(rest, true), x'.lines, sc);
        InStepSwap(b1, y1, x, true, sc);
        InStepRun(b1, x, y1, rest, sc);
      } else {
        var x1 := FeedAll(x, d.data, sc);
        InStepFirst(b, x, y, false, d.data, Stream(rest, false), y'.lines, sc);
        InStepRun(b1, x1, y, rest, sc);
      }
    }
  }

  // ---- necessity: an interleaving that disturbs ----

  /** The bytes up to the '<' that prints text number p. */
  lemma {:induction false} SplitAtText(s: string, p: nat, sc: bool) returns (a: string, rest: string)
    requires p < |Alone(s, sc)| && !Alone(s, sc)[p].Tag?
    ensures s == a + ("<" + rest)
    ensures var v := FeedAll(START, a, sc);
      v.lines == Alone(s, sc)[..p] && v.pending == Alone(s, sc)[p].raw != ""
      && Alone(s, sc)[p] == TextPiece(v.pending, v.censor)
    decreases |s|
  {
    var n := |s| - 1;
    var t, c := s[..n], s[n];
    FeedAllSnoc(START, t, c, sc);
    assert s == t + [c];
    var w := FeedAll(START, t, sc);
    if p < |w.lines| {
      a, rest := SplitAtText(t, p, sc);
      assert Alone(s, sc)[..p] == w.lines[..p];
      rest := rest + [c];
      assert s == a + ("<" + rest);
    } else {
      a, rest := t, "";
      assert Alone(s, sc)[..p] == w.lines;
      assert s == a + ("<" + rest);
    }
  }

  /** The bytes up to the '>' that prints tag number q. */
  lemma {:induction false} SplitAtTag(s: string, q: nat, sc: bool) returns (a: string, rest: string)
    requires q < |Alone(s, sc)| && Alone(s, sc)[q].Tag?
    ensures s == a + rest && Alone(a, sc) == Alone(s, sc)[..q + 1]
    decreases |s|
  {
    var n := |s| - 1;
    var t, c := s[..n], s[n];
    FeedAllSnoc(START, t, c, sc);
    assert s == t + [c];
    var w := FeedAll(START, t, sc);
    if q < |w.lines| {
      a, rest := SplitAtTag(t, q, sc);
      assert Alone(s, sc)[..q + 1] == w.lines[..q + 1];
      rest := rest + [c];
      assert s == a + rest;
    } else {
      a, rest := s, "";
      assert Alone(s, sc)[..q + 1] == Alone(s, sc);
      assert s == a + rest;
    }
  }

  /** Four chunks, the directions in turn. */
  function Turns(sent: bool, a: string, e: string, a': string, e': string): seq<Chunk> {
    [Chunk(sent, a), Chunk(!sent, e), Chunk(sent, a'), Chunk(!sent, e')]
  }

  lemma TurnsStreams(sent: bool, a: string, e: string, a': string, e': string)
    ensures Stream(Turns(sent, a, e, a', e'), sent) == a + a'
    ensures Stream(Turns(sent, a, e, a', e'), !sent) == e + e'
  {
    var c4, c3, c2 := [Chunk(!sent, e')], [Chunk(sent, a'), Chunk(!sent, e')],
                      [Chunk(!sent, e), Chunk(sent, a'), Chunk(!sent, e')];
    assert c4[1..] == [] && c3[1..] == c4 && c2[1..] == c3 && Turns(sent, a, e, a', e')[1..] == c2;
    assert Stream(c4, sent) == "" && Stream(c4, !sent) == e';
    assert Stream(c3, sent) == a' && Stream(c3, !sent) == e';
    assert Stream(c2, sent) == a' && Stream(c2, !sent) == e + e';
  }

  lemma TurnsRun(b: Both, sent: bool, a: string, e: string, a': string, e': string, sc: bool)
    ensures RunBoth(b, Turns(sent, a, e, a', e'), sc)
         == StepBoth(StepBoth(StepBoth(StepBoth(b, sent, a, sc), !sent, e, sc), sent, a', sc), !sent, e', sc)
  {
    var c4, c3, c2 := [Chunk(!sent, e')], [Chunk(sent, a'), Chunk(!sent, e')],
                      [Chunk(!sent, e), Chunk(sent, a'), Chunk(!sent, e')];
    assert c4[1..] == [] && c3[1..] == c4 && c2[1..] == c3 && Turns(sent, a, e, a', e')[1..] == c2;
    var b1 := StepBoth(b, sent, a, sc);
    var b2 := StepBoth(b1, !sent, e, sc);
    var b3 := StepBoth(b2, sent, a', sc);
    assert RunBoth(b3, c4, sc) == StepBoth(b3, !sent, e', sc);
    assert RunBoth(b2, c3, sc) == RunBoth(b3, c4, sc);
    assert RunBoth(b1, c2, sc) == RunBoth(b2, c3, sc);
  }

  lemma LastLineSetsFlag(v: View, sc: bool)
    requires Ruled(v, sc) && v.lines != []
    ensures var last := Last(v.lines);
      (last.Tag? && IsAuthTag(last.raw, sc) ==> v.censor) && (!last.Tag? ==> !v.censor)
  {
    var n := |v.lines| - 1;
    assert v.lines == v.lines[..n] + [v.lines[n]];
    ArmedAfterTag(v.lines[..n], v.lines[n], sc);
  }

  function Last(lines: seq<Piece>): Piece
    requires lines != []
  {
    lines[|lines| - 1]
  }

  lemma LastOfConcat(a: seq<Piece>, b: seq<Piece>)
    requires b != []
    ensures Last(a + b) == Last(b)
  {
  }

  lemma AlonePrints(e: string, sc: bool)
    ensures Alone(e, sc) == PrintedAll(START, e, sc)
  {
    FeedAllPrints(START, e, sc);
  }

  lemma LastLineIsOwn(v: View, e: string, sc: bool)
    requires v.pending == "" && Alone(e, sc) != []
    ensures var w, own := FeedAll(v, e, sc).lines, Alone(e, sc);
      w != [] && Last(w).raw == Last(own).raw && Last(w).Tag? == Last(own).Tag?
  {
    AlonePrints(e, sc);
    FeedAllPrints(v, e, sc);
    CutIndependent(v, START, e, sc);
    LastOfConcat(v.lines, PrintedAll(v, e, sc));
  }

  /** The flag after a direction that was quiet so far printed lines of its own. */
  lemma FlagAfter(b: Both, sent: bool, e: string, sc: bool)
    requires Ruled(b.Side(true), sc) && b.Pending(sent) == "" && Alone(e, sc) != []
    ensures var last := Last(Alone(e, sc));
      && (last.Tag? && IsAuthTag(last.raw, sc) ==> StepBoth(b, sent, e, sc).censor)
      && (!last.Tag? ==> !StepBoth(b, sent, e, sc).censor)
  {
    StreamRuled(b.Side(sent), e, sc);
    LastLineIsOwn(b.Side(sent), e, sc);
    LastLineSetsFlag(FeedAll(b.Side(sent), e, sc), sc);
  }

  /** A text printed while the flag is not the direction's own is printed the other way. */
  lemma TurnsDiffer(sent: bool, sx: string, p: nat, a: string, rest: string, e: string, e': string, sc: bool)
    requires p < |Alone(sx, sc)| && !Alone(sx, sc)[p].Tag? && sx == a + ("<" + rest) && Alone(e, sc) != []
    requires var v := FeedAll(START, a, sc); v.lines == Alone(sx, sc)[..p] && v.pending == Alone(sx, sc)[p].raw != ""
    requires var last := Last(Alone(e, sc));
      if Alone(sx, sc)[p].Text? then last.Tag? && IsAuthTag(last.raw, sc) else !last.Tag?
    ensures !OwnLog(Turns(sent, a, e, "<" + rest, e'), sent, sx, sc)
  {
    var b1 := StepBoth(BOTH_START, sent, a, sc);
    var b2 := StepBoth(b1, !sent, e, sc);
    var b3 := StepBoth(b2, sent, "<" + rest, sc);
    TurnsRun(BOTH_START, sent, a, e, "<" + rest, e', sc);
    StepBothOnly(BOTH_START, sent, a, sc, sent);
    FeedAllPrints(START, a, sc);
    StreamRuled(START, a, sc);
    FlagAfter(b1, !sent, e, sc);
    StepBothOnly(b1, !sent, e, sc, sent);
    StepBothOnly(b2, sent, "<" + rest, sc, sent);
    StepBothOnly(b3, !sent, e', sc, sent);
    assert ("<" + rest)[0] == '<';
    var printed := PrintedAll(b2.Side(sent), "<" + rest, sc);
    assert printed[0] == TextPiece(Alone(sx, sc)[p].raw, b2.censor);
    assert OnlyOf(b2, sent) == Alone(sx, sc)[..p];
    assert OnlyOf(b3, sent)[p] == printed[0];
  }

  lemma HidesShownText(sent: bool, sx: string, sy: string, p: nat, q: nat, sc: bool) returns (chunks: seq<Chunk>)
    requires p < |Alone(sx, sc)| && Alone(sx, sc)[p].Text?
    requires q < |Alone(sy, sc)| && Alone(sy, sc)[q].Tag? && IsAuthTag(Alone(sy, sc)[q].raw, sc)
    ensures Stream(chunks, sent) == sx && Stream(chunks, !sent) == sy && !OwnLog(chunks, sent, sx, sc)
  {
    var a, rest := SplitAtText(sx, p, sc);
    var e, e' := SplitAtTag(sy, q, sc);
    TurnsDiffer(sent, sx, p, a, rest, e, e', sc);
    TurnsStreams(sent, a, e, "<" + rest, e');
    chunks := Turns(sent, a, e, "<" + rest, e');
  }

  lemma ShowsHiddenText(sent: bool, sx: string, sy: string, p: nat, q: nat, sc: bool) returns (chunks: seq<Chunk>)
    requires p < |Alone(sx, sc)| && Alone(sx, sc)[p].Removed?
    requires q < |Alone(sy, sc)| && !Alone(sy, sc)[q].Tag?
    ensures Stream(chunks, sent) == sx && Stream(chunks, !sent) == sy && !OwnLog(chunks, sent, sx, sc)
  {
    var a, rest := SplitAtText(sx, p, sc);
    var e, e' := SplitAtText(sy, q, sc);
    FeedAllSnoc(START, e, '<', sc);
    assert sy == (e + "<") + e';
    TurnsDiffer(sent, sx, p, a, rest, e + "<", e', sc);
    TurnsStreams(sent, a, e + "<", "<" + rest, e');
    chunks := Turns(sent, a, e + "<", "<" + rest, e');
  }

  /** If a direction can be disturbed, some interleaving disturbs it. */
  lemma Disturbs(sent: bool, sx: string, sy: string, sc: bool) returns (chunks: seq<Chunk>)
    requires !Undisturbed(Alone(sx, sc), Alone(sy, sc), sc)
    ensures Stream(chunks, sent) == sx && Stream(chunks, !sent) == sy && !OwnLog(chunks, sent, sx, sc)
  {
    var x, y := Alone(sx, sc), Alone(sy, sc);
    if HasAuth(y, sc) && exists i :: 0 <= i < |x| && x[i].Text? {
      var p :| 0 <= p < |x| && x[p].Text?;
      var q :| 0 <= q < |y| && y[q].Tag? && IsAuthTag(y[q].raw, sc);
      chunks := HidesShownText(sent, sx, sy, p, q, sc);
    } else {
      var p :| 0 <= p < |x| && x[p].Removed?;
      var q :| 0 <= q < |y| && !y[q].Tag?;
      chunks := ShowsHiddenText(sent, sx, sy, p, q, sc);
    }
  }

  /** For any two streams: however they are cut and interleaved, each direction's log is the
      one its own bytes alone give, if and only if neither direction has an authentication tag
      while the other shows a text, or a text while the other hides one. */
  lemma SeparateIffUndisturbed(received: string, sentBytes: string, sc: bool)
    ensures LogsSeparate(received, sentBytes, sc) <==>
      Undisturbed(Alone(received, sc), Alone(sentBytes, sc), sc)
      && Undisturbed(Alone(sentBytes, sc), Alone(received, sc), sc)
  {
    var x, y := Alone(received, sc), Alone(sentBytes, sc);
    if Undisturbed(x, y, sc) && Undisturbed(y, x, sc) {
      forall chunks: seq<Chunk> | Stream(chunks, false) == received && Stream(chunks, true) == sentBytes
        ensures OwnLog(chunks, false, received, sc) && OwnLog(chunks, true, sentBytes, sc)
      {
        InStepRun(BOTH_START, START, START, chunks, sc);
      }
    } else if !Undisturbed(x, y, sc) {
      var chunks := Disturbs(false, received, sentBytes, sc);
      assert !OwnLog(chunks, false, received, sc);
    } else {
      var chunks := Disturbs(true, sentBytes, received, sc);
      assert !OwnLog(chunks, true, sentBytes, sc);
    }
  }

  // ---- a password printed in clear ----

  lemma FeedTag(v: View, body: string, sc: bool)
    requires v.pending == "" && Quiet(body)
    ensures FeedAll(v, body + ">", sc)
         == View("", v.censor || IsAuthTag(body + ">", sc), v.lines + [Tag(body + ">")])
  {
    RescanPrintsNothing(v, body, sc);
    assert v.pending + body == body;
    FeedAllSnoc(v, body, '>', sc);
  }

  lemma FeedText(v: View, body: string, sc: bool)
    requires v.pending == "" && Quiet(body) && body != ""
    ensures FeedAll(v, body + "<", sc) == View("<", false, v.lines + [TextPiece(body, v.censor)])
  {
    RescanPrintsNothing(v, body, sc);
    assert v.pending + body == body;
    FeedAllSnoc(v, body, '<', sc);
  }

  lemma StepPrintsOne(b: Both, sent: bool, data: string, p: Piece, pending: string, censor: bool, sc: bool)
    requires FeedAll(b.Side(sent), data, sc) == View(pending, censor, b.lines + [p])
    ensures var c := StepBoth(b, sent, data, sc);
      && c.lines == b.lines + [p] && c.from == b.from + [sent] && c.censor == censor
      && c.Pending(sent) == pending && c.Pending(!sent) == b.Pending(!sent)
  {
    assert Repeat(sent, 1) == [sent];
  }

  /** An authentication tag is sent, a text is received, a password is sent: the text received
      is hidden and the password is not. */
  lemma PasswordShown(tag: string, heard: string, password: string, sc: bool)
    requires Quiet(tag) && IsAuthTag(tag + ">", sc)
    requires Quiet(heard) && heard != "" && Quiet(password) && password != ""
    ensures var b1 := StepBoth(BOTH_START, true, tag + ">", sc);
            var b3 := StepBoth(StepBoth(b1, false, heard + "<", sc), true, password + "<", sc);
            b3.lines == [Tag(tag + ">"), Removed(heard), Text(password)] && b3.from == [true, false, true]
  {
    var b1 := StepBoth(BOTH_START, true, tag + ">", sc);
    FeedTag(BOTH_START.Side(true), tag, sc);
    StepPrintsOne(BOTH_START, true, tag + ">", Tag(tag + ">"), "", true, sc);
    var b2 := StepBoth(b1, false, heard + "<", sc);
    FeedText(b1.Side(false), heard, sc);
    StepPrintsOne(b1, false, heard + "<", Removed(heard), "<", false, sc);
    FeedText(b2.Side(true), password, sc);
    StepPrintsOne(b2, true, password + "<", Text(password), "<", false, sc);
  }

  lemma AuthTagExample(sc: bool)
    ensures Quiet("<auth mechanism") && IsAuthTag("<auth mechanism>", sc)
  {
    var tag := "<auth mechanism>";
    assert tag[6..] == "mechanism>" && tag[..5] == "<auth";
    assert "mechanism" <= tag[6..];
  }

  /** Such a tag, text and password. */
  lemma PasswordShownExample(sc: bool)
    ensures var b1 := StepBoth(BOTH_START, true, "<auth mechanism>", sc);
            var b3 := StepBoth(StepBoth(b1, false, "a<", sc), true, "pw<", sc);
            b3.lines == [Tag("<auth mechanism>"), Removed("a"), Text("pw")] && b3.from == [true, false, true]
  {
    AuthTagExample(sc);
    assert "<auth mechanism>" == "<auth mechanism" + ">" && "a<" == "a" + "<" && "pw<" == "pw" + "<";
    PasswordShown("<auth mechanism", "a", "pw", sc);
  }

  // ---- the buffers ----

  /** One direction's growing buffer: debug_*_buf_, debug_*_len_ and debug_*_alloc_. */
  class ByteBuffer {
    var buf: array<char>
    var len: nat

    ghost predicate Valid() reads this { len <= buf.Length }

    ghost function Contents(): string reads this, buf requires Valid() { buf[..len] }

    constructor ()
      ensures Valid() && Contents() == "" && fresh(buf)
    {
      buf := new char[0];
      len := 0;
    }

    /** Grows the buffer if needed and copies `data` behind what it holds. */
    method Append(data: string)
      requires Valid()
      modifies this, buf
      ensures Valid() && Contents() == old(Contents()) + data
      ensures buf == old(buf) || fresh(buf)
    {
      if len + |data| > buf.Length {
        var old_buf := buf;
        var alloc := 4096;
        while alloc < len + |data|
          invariant alloc > 0
          decreases len + |data| - alloc
        {
          alloc := alloc * 2;
        }
        buf := new char[alloc];
        forall i | 0 <= i < len { buf[i] := old_buf[i]; }
        assert buf[..len] == old_buf[..len];
      }
      forall i | 0 <= i < |data| { buf[len + i] := data[i]; }
      assert buf[..len + |data|] == buf[..len] + data;
      len := len + |data|;
    }

    /** Moves the bytes from `start` on to the front. */
    method Keep(start: nat)
      requires Valid() && start <= len
      modifies this, buf
      ensures Valid() && Contents() == old(Contents())[start..] && buf == old(buf)
    {
      ghost var was := buf[..len];
      forall i | 0 <= i < len - start { buf[i] := buf[start + i]; }
      len := len - start;
      assert buf[..len] == was[start..];
    }
  }

  class Log {
    const signedChar: bool
    var input: ByteBuffer
    var output: ByteBuffer
    var censor: bool
    var lines: seq<Piece>
    ghost var from: seq<bool>   // which lines were sent

    ghost predicate Valid() reads this, input, output, input.buf, output.buf {
      && input != output && input.buf != output.buf && input.Valid() && output.Valid()
      && Quiet(input.Contents()) && Quiet(output.Contents()) && |from| == |lines|
    }

    ghost function Now(): Both
      reads this, input, output, input.buf, output.buf
      requires Valid()
    {
      Both(input.Contents(), output.Contents(), censor, lines, from)
    }

    /** The log as one direction sees it. */
    ghost function ViewOf(b: ByteBuffer): View reads this, b, b.buf requires b.Valid() {
      View(b.Contents(), censor, lines)
    }

    constructor (signedChar: bool)
      ensures Valid() && Now() == BOTH_START && this.signedChar == signedChar
      ensures fresh(input) && fresh(output) && fresh(input.buf) && fresh(output.buf)
    {
      this.signedChar := signedChar;
      input := new ByteBuffer();
      output := new ByteBuffer();
      censor, lines, from := false, [], [];
    }

    /** One round of the scanning loop. */
    method ScanByte(buf: array<char>, ghost all: string, start: nat, i: nat) returns (start': nat)
      requires |all| <= buf.Length && all == buf[..|all|] && start <= i < |all|
      modifies this`censor, this`lines
      ensures start <= start' <= i + 1
      ensures View(all[start'..i + 1], censor, lines)
           == Feed(View(all[start..i], old(censor), old(lines)), all[i], signedChar)
    {
      assert buf[start..i] == all[start..i] && buf[start..i + 1] == all[start..i] + [all[i]];
      assert all[start..i + 1] == all[start..i] + [all[i]];
      start' := start;
      if buf[i] == '>' {
        lines := lines + [Tag(buf[start'..i + 1])];
        if IsAuthTag(buf[start'..i + 1], signedChar) { censor := true; }
        start' := i + 1;
      }
      if buf[i] == '<' && start' < i {
        if censor {
          lines := lines + [Removed(buf[start'..i])];
          censor := false;
        } else {
          lines := lines + [Text(buf[start'..i])];
        }
        start' := i;
      }
    }

    /** Prints the tags and texts in the buffer and keeps the unfinished rest. */
    method DebugPrint(b: ByteBuffer)
      requires b.Valid()
      modifies this`censor, this`lines, b, b.buf
      ensures b.Valid() && b.buf == old(b.buf)
      ensures ViewOf(b) == FeedAll(View("", old(censor), old(lines)), old(b.Contents()), signedChar)
    {
      if b.len > 0 {
        ghost var all, v0 := b.Contents(), View("", censor, lines);
        var start, i := 0, 0;
        while i < b.len
          invariant 0 <= start <= i <= b.len == |all| && b.Valid() && b.buf == old(b.buf) && b.Contents() == all
          invariant View(all[start..i], censor, lines) == FeedAll(v0, all[..i], signedChar)
        {
          start := ScanByte(b.buf, all, start, i);
          assert all[..i + 1] == all[..i] + [all[i]];
          FeedAllSnoc(v0, all[..i], all[i], signedChar);
          i := i + 1;
        }
        assert all[..i] == all;
        b.Keep(start);
      }
    }

    method Receive(b: ByteBuffer, data: string)
      requires b.Valid() && Quiet(b.Contents())
      modifies this`censor, this`lines, b, b.buf
      ensures b.Valid() && Quiet(b.Contents()) && (b.buf == old(b.buf) || fresh(b.buf))
      ensures ViewOf(b) == FeedAll(old(ViewOf(b)), data, signedChar)
    {
      ghost var v0, left := View("", censor, lines), b.Contents();
      b.Append(data);
      DebugPrint(b);
      FeedAllConcat(v0, left, data, signedChar);
      RescanPrintsNothing(v0, left, signedChar);
      assert v0.pending + left == left;
      FeedKeepsQuiet(v0, left + data, signedChar);
    }

    method Input(data: string)
      requires Valid()
      modifies this`censor, this`lines, this`from, input, input.buf
      ensures Valid() && (input.buf == old(input.buf) || fresh(input.buf))
      ensures Now() == StepBoth(old(Now()), false, data, signedChar)
      ensures ViewOf(input) == FeedAll(old(ViewOf(input)), data, signedChar)
    {
      ghost var n := |lines|;
      Receive(input, data);
      from := from + Repeat(false, |lines| - n);
    }

    method Output(data: string)
      requires Valid()
      modifies this`censor, this`lines, this`from, output, output.buf
      ensures Valid() && (output.buf == old(output.buf) || fresh(output.buf))
      ensures Now() == StepBoth(old(Now()), true, data, signedChar)
      ensures ViewOf(output) == FeedAll(old(ViewOf(output)), data, signedChar)
    {
      ghost var n := |lines|;
      Receive(output, data);
      from := from + Repeat(true, |lines| - n);
    }

    /** Any way of cutting one direction's stream leaves the log that one call would. */
    method InputChunks(chunks: seq<string>)
      requires Valid()
      modifies this`censor, this`lines, this`from, input, input.buf
      ensures Valid() && ViewOf(input) == FeedAll(old(ViewOf(input)), Flatten(chunks), signedChar)
      decreases |chunks|
    {
      if chunks != [] {
        FeedAllConcat(ViewOf(input), chunks[0], Flatten(chunks[1..]), signedChar);
        Input(chunks[0]);
        InputChunks(chunks[1..]);
      }
    }

    method OutputChunks(chunks: seq<string>)
      requires Valid()
      modifies this`censor, this`lines, this`from, output, output.buf
      ensures Valid() && ViewOf(output) == FeedAll(old(ViewOf(output)), Flatten(chunks), signedChar)
      decreases |chunks|
    {
      if chunks != [] {
        FeedAllConcat(ViewOf(output), chunks[0], Flatten(chunks[1..]), signedChar);
        Output(chunks[0]);
        OutputChunks(chunks[1..]);
      }
    }

    /** Any interleaving of the two directions, chunk by chunk. */
    method Run(chunks: seq<Chunk>)
      requires Valid()
      modifies this`censor, this`lines, this`from, input, output, input.buf, output.buf
      ensures Valid() && Now() == RunBoth(old(Now()), chunks, signedChar)
      decreases |chunks|
    {
      if chunks != [] {
        if chunks[0].sent { Output(chunks[0].data); } else { Input(chunks[0].data); }
        Run(chunks[1..]);
      }
    }
  }
}
