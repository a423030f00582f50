/** The copy loops of examples/pcp/pcp_main.cc: a file pumped into, or out of, a tunnel that
    takes and gives bytes in pieces of any size and blocks at any point. */
module TunnelPump {

  /** sizeof(buffer_) */
  const SIZE: nat := 65536

  /** What one Read or Write call answers: up to `count` bytes moved, or a refusal. */
  datatype Reply = Moves(count: nat) | Blocks | Ends | Fails

  datatype Result = SrSuccess(count: nat) | SrBlock | SrEos | SrError

  predicate Answers(r: Result, reply: Reply) {
    && (r.SrSuccess? <==> reply.Moves?) && (r.SrBlock? <==> reply.Blocks?)
    && (r.SrEos? <==> reply.Ends?) && (r.SrError? <==> reply.Fails?)
  }

  /** Why a receiving pump closed: the peer closed the tunnel between two events, a read from
      the tunnel failed, or a write to the file did. */
  datatype Cause = PeerClosed | TunnelFailed | FileFailed

  function Min(a: nat, b: nat): nat { if a < b then a else b }

  /** What is left of a plan after one call; an exhausted plan blocks forever. */
  function Tail(plan: seq<Reply>): seq<Reply> { if plan == [] then [] else plan[1..] }

  function Head(plan: seq<Reply>): Reply { if plan == [] then Blocks else plan[0] }

  /** The first refusal of a plan, and what is left behind it. */
  function Refusal(plan: seq<Reply>): Reply {
    if plan == [] then Blocks else if plan[0].Moves? then Refusal(plan[1..]) else plan[0]
  }

  function Beyond(plan: seq<Reply>): seq<Reply> {
    if plan == [] then [] else if plan[0].Moves? then Beyond(plan[1..]) else plan[1..]
  }

  /** Between `was` and `now` the stream only moved bytes: its first refusal is still to come. */
  ghost predicate OnlyMoved(was: seq<Reply>, now: seq<Reply>) {
    Refusal(now) == Refusal(was) && Beyond(now) == Beyond(was)
  }

  ghost predicate IsRest(was: seq<Reply>, now: seq<Reply>) {
    |now| <= |was| && now == was[|was| - |now|..]
  }

  /** Calls took `was` to `now`, and the last of them was refused. */
  ghost predicate LastRefused(was: seq<Reply>, now: seq<Reply>) {
    && IsRest(was, now)
    && (now == [] || (|now| < |was| && !was[|was| - |now| - 1].Moves?))
  }

  lemma RestOfRest(was: seq<Reply>, now: seq<Reply>)
    requires IsRest(was, now)
    ensures IsRest(was, Tail(now)) && (!Head(now).Moves? ==> LastRefused(was, Tail(now)))
  {
  }

  lemma RestOfRests(was: seq<Reply>, mid: seq<Reply>, now: seq<Reply>)
    requires IsRest(was, mid) && IsRest(mid, now)
    ensures IsRest(was, now) && (LastRefused(mid, now) ==> LastRefused(was, now))
  {
  }

  /** The tunnel's first refusal was given and it was not just a block. */
  ghost predicate TunnelBroke(was: seq<Reply>, now: seq<Reply>) {
    !Refusal(was).Blocks? && now == Beyond(was)
  }

  /** What a read event takes from a tunnel: how many bytes, the answer it stops at, what is
      left of the plan, and how many bytes are buffered then. */
  datatype Reading = Reading(got: nat, stop: Reply, rest: seq<Reply>, held: nat)

  /** A tunnel that offers this plan to a reader whose writes all succeed.  A move is capped by
      the room in the buffer and by what is incoming; a full buffer is written out, and so is
      whatever is there when the tunnel blocks; a block with nothing buffered ends it. */
  function Readings(plan: seq<Reply>, held: nat, left: nat): (r: Reading)
    requires held < SIZE
    ensures r.got <= left && !r.stop.Moves?
  {
    if plan == [] then Reading(0, Blocks, [], 0)
    else
      match plan[0]
      case Moves(count) =>
        var k := Min(Min(count, SIZE - held), left);
        var r := Readings(plan[1..], Emptied(held + k), left - k);
        r.(got := k + r.got)
      case Blocks => if held > 0 then Readings(plan[1..], 0, left) else Reading(0, Blocks, plan[1..], 0)
      case Ends => Reading(0, Ends, plan[1..], held)
      case Fails => Reading(0, Fails, plan[1..], held)
  }

  function Emptied(held: nat): (r: nat)
    requires held <= SIZE
    ensures r < SIZE
  {
    if held == SIZE then 0 else held
  }

  function Sum(plan: seq<Reply>): nat {
    if plan == [] then 0 else (if plan[0].Moves? then plan[0].count else 0) + Sum(plan[1..])
  }

  /** A plan of moves that fit the buffer delivers all of them, or all there is. */
  lemma {:induction false} MovesArrive(plan: seq<Reply>, held: nat, left: nat)
    requires held + Sum(plan) < SIZE && forall i :: 0 <= i < |plan| ==> plan[i].Moves?
    ensures Readings(plan, held, left) == Reading(Min(Sum(plan), left), Blocks, [], 0)
    decreases |plan|
  {
    if plan != [] {
      assert forall i :: 0 <= i < |plan[1..]| ==> plan[1..][i] == plan[i + 1];
      var k := Min(Min(plan[0].count, SIZE - held), left);
      MovesArrive(plan[1..], Emptied(held + k), left - k);
    }
  }

  /** A tunnel that keeps moving delivers everything, however much more than the buffer it is. */
  lemma {:induction false} AllArrives(plan: seq<Reply>, held: nat, left: nat)
    requires held < SIZE && |plan| >= left && forall i :: 0 <= i < |plan| ==> plan[i].Moves? && plan[i].count > 0
    ensures Readings(plan, held, left).got == left
    decreases |plan|
  {
    if plan != [] {
      assert forall i :: 0 <= i < |plan[1..]| ==> plan[1..][i] == plan[i + 1];
      var k := Min(Min(plan[0].count, SIZE - held), left);
      AllArrives(plan[1..], Emptied(held + k), left - k);
    }
  }

  /** The reading `whole`, of which `done` bytes are taken already, goes on as `rest`. */
  ghost predicate GoesOn(whole: Reading, done: nat, rest: Reading) {
    whole == rest.(got := done + rest.got)
  }

  /** A piece read from where the last one ended goes on with the whole. */
  lemma Extends(done: string, kept: string, piece: string, whole: string, i: nat, j: nat)
    requires i <= j <= |whole| && done + kept == whole[..i] && piece == whole[i..j]
    ensures done + (kept + piece) == whole[..j]
  {
    assert done + (kept + piece) == (done + kept) + piece;
  }

  /** Moving the front of what is left behind what is done leaves the whole as it was. */
  lemma PieceMoved(a: array<char>, done: string, i: nat, k: nat, n: nat)
    requires i + k <= n <= a.Length
    ensures (done + a[i..i + k]) + a[i + k..n] == done + a[i..n]
  {
    assert a[i..n] == a[i..i + k] + a[i + k..n];
  }

  class Pump {
    var buffer: array<char>
    var bufferLen: nat
    var closed: bool       // Cleanup has run
    var endOfFile: bool    // "End of file" was reported

    // the world outside
    var tunnelPlan: seq<Reply>
    var filePlan: seq<Reply>
    var sent: string       // bytes the tunnel accepted
    var incoming: string   // bytes the peer sends
    var received: nat      // how many of them were read
    var source: string     // the file being sent
    var readPos: nat       // how much of it was read
    var written: string    // the file being received
    ghost var lost: string // bytes received that will never be written
    ghost var cause: Cause // of closing while receiving

    ghost predicate Shape() reads this {
      buffer.Length == SIZE && bufferLen <= SIZE && received <= |incoming| && readPos <= |source|
    }

    /** While open, what was sent and what is buffered is what was read, in order; once
        closed, what was sent is a prefix of the file; the end is reported only when all
        of it was sent. */
    ghost predicate Sending() reads this, buffer {
      && Shape()
      && (!closed ==> sent + buffer[..bufferLen] == source[..readPos])
      && (closed ==> sent <= source)
      && (endOfFile ==> closed && sent == source)
    }

    /** What was written and what was lost is what was received.  Nothing is lost while open;
        what closing loses depends on its cause. */
    ghost predicate Receiving() reads this, buffer {
      && Shape() && written + lost == incoming[..received]
      && (!closed ==> lost == "") && (closed ==> Losses())
    }

    /** The peer's closing loses nothing.  A failed read loses all that was collected since the
        last write, so nothing exactly when that is nothing.  A failed write loses the
        part of the buffer not yet written, which is never nothing. */
    ghost predicate Losses() reads this, buffer requires Shape() {
      match cause
      case PeerClosed => lost == ""
      case TunnelFailed => lost == buffer[..bufferLen]
      case FileFailed => 0 < |lost| <= bufferLen && lost == buffer[bufferLen - |lost|..bufferLen]
    }

    constructor (source: string, incoming: string)
      ensures Sending() && Receiving() && fresh(buffer) && !closed
      ensures this.source == source && this.incoming == incoming
    {
      buffer := new char[SIZE];
      bufferLen, closed, endOfFile := 0, false, false;
      tunnelPlan, filePlan := [], [];
      sent, written, received, readPos := "", "", 0, 0;
      this.source, this.incoming := source, incoming;
      lost, cause := "", PeerClosed;
    }

    // ---- the streams ----

    method TunnelWrite(pos: nat, n: nat) returns (r: Result)
      requires Shape() && pos + n <= SIZE
      modifies this`tunnelPlan, this`sent
      ensures tunnelPlan == Tail(old(tunnelPlan)) && Answers(r, Head(old(tunnelPlan)))
      ensures r.SrSuccess? ==> r.count == Min(Head(old(tunnelPlan)).count, n)
      ensures r.SrSuccess? ==> sent == old(sent) + buffer[pos..pos + r.count]
      ensures !r.SrSuccess? ==> sent == old(sent)
    {
      var reply := Head(tunnelPlan);
      tunnelPlan := Tail(tunnelPlan);
      match reply
      case Moves(count) =>
        var k := Min(count, n);
        sent := sent + buffer[pos..pos + k];
        r := SrSuccess(k);
      case Blocks => r := SrBlock;
      case Ends => r := SrEos;
      case Fails => r := SrError;
    }

    /** A file ends only when all of it was read; it may refuse or fail at any point. */
    method FileRead(at: nat, n: nat) returns (r: Result)
      requires Shape() && at + n <= SIZE
      modifies this`filePlan, this`readPos, buffer
      ensures Shape() && filePlan == Tail(old(filePlan))
      ensures r.SrSuccess? ==> Head(old(filePlan)).Moves? && r.count <= n && readPos == old(readPos) + r.count
      ensures r.SrBlock? || r.SrError? ==> !Head(old(filePlan)).Moves?
      ensures buffer[..at] == old(buffer[..at])
      ensures r.SrSuccess? ==> buffer[at..at + r.count] == source[old(readPos)..readPos]
      ensures !r.SrSuccess? ==> readPos == old(readPos)
      ensures r.SrEos? ==> readPos == |source|
    {
      var reply := Head(filePlan);
      filePlan := Tail(filePlan);
      match reply
      case Moves(count) =>
        if readPos == |source| { return SrEos; }
        var k := Min(Min(count, n), |source| - readPos);
        forall i | 0 <= i < k { buffer[at + i] := source[readPos + i]; }
        readPos := readPos + k;
        r := SrSuccess(k);
      case Blocks => r := SrBlock;
      case Ends => r := if readPos == |source| then SrEos else SrError;
      case Fails => r := SrError;
    }

    method TunnelRead(at: nat, n: nat) returns (r: Result)
      requires Shape() && at + n <= SIZE
      modifies this`tunnelPlan, this`received, buffer
      ensures Shape() && tunnelPlan == Tail(old(tunnelPlan)) && Answers(r, Head(old(tunnelPlan)))
      ensures buffer[..at] == old(buffer[..at])
      ensures r.SrSuccess? ==> r.count == Min(Min(Head(old(tunnelPlan)).count, n), |incoming| - old(received))
      ensures r.SrSuccess? ==> received == old(received) + r.count
      ensures r.SrSuccess? ==> buffer[at..at + r.count] == incoming[old(received)..received]
      ensures !r.SrSuccess? ==> received == old(received)
    {
      var reply := Head(tunnelPlan);
      tunnelPlan := Tail(tunnelPlan);
      match reply
      case Moves(count) =>
        var k := Min(Min(count, n), |incoming| - received);
        forall i | 0 <= i < k { buffer[at + i] := incoming[received + i]; }
        received := received + k;
        r := SrSuccess(k);
      case Blocks => r := SrBlock;
      case Ends => r := SrEos;
      case Fails => r := SrError;
    }

    method FileWrite(pos: nat, n: nat) returns (r: Result)
      requires Shape() && pos + n <= SIZE
      modifies this`filePlan, this`written
      ensures filePlan == Tail(old(filePlan)) && Answers(r, Head(old(filePlan)))
      ensures r.SrSuccess? ==> r.count == Min(Head(old(filePlan)).count, n)
      ensures r.SrSuccess? ==> written == old(written) + buffer[pos..pos + r.count]
      ensures !r.SrSuccess? ==> written == old(written)
    {
      var reply := Head(filePlan);
      filePlan := Tail(filePlan);
      match reply
      case Moves(count) =>
        var k := Min(count, n);
        written := written + buffer[pos..pos + k];
        r := SrSuccess(k);
      case Blocks => r := SrBlock;
      case Ends => r := SrEos;
      case Fails => r := SrError;
    }

    method Cleanup()
      modifies this`closed
      ensures closed
    {
      closed := true;
    }

    // ---- sending ----

    /** The memmove on a blocked tunnel: drops the first `pos` buffered bytes. */
    method KeepFrom(pos: nat)
      requires Shape() && pos <= bufferLen
      modifies this`bufferLen, buffer
      ensures bufferLen == old(bufferLen) - pos && buffer[..bufferLen] == old(buffer[pos..bufferLen])
    {
      bufferLen := bufferLen - pos;
      forall i | 0 <= i < bufferLen { buffer[i] := buffer[pos + i]; }
    }

    /** Writes out the buffer; true when the event is over (blocked or failed). */
    method WriteBuffer() returns (over: bool)
      requires Sending() && !closed && !endOfFile
      modifies this`bufferLen, this`closed, this`tunnelPlan, this`sent, buffer
      ensures Sending() && (over && !closed ==> bufferLen > 0)
      ensures over ==> tunnelPlan == Beyond(old(tunnelPlan)) && (closed <==> !Refusal(old(tunnelPlan)).Blocks?)
      ensures !over ==> !closed && bufferLen == 0 && OnlyMoved(old(tunnelPlan), tunnelPlan)
      ensures !over ==> sent == old(sent + buffer[..bufferLen])
      ensures !over && old(bufferLen) > 0 ==> |tunnelPlan| < |old(tunnelPlan)|
      ensures |tunnelPlan| <= |old(tunnelPlan)|
    {
      ghost var due := sent + buffer[..bufferLen];
      var writePos := 0;
      while writePos < bufferLen
        invariant Shape() && 0 <= writePos <= bufferLen == old(bufferLen) && !closed
        invariant sent + buffer[writePos..bufferLen] == due
        invariant |tunnelPlan| <= |old(tunnelPlan)| && OnlyMoved(old(tunnelPlan), tunnelPlan)
        invariant writePos > 0 ==> |tunnelPlan| < |old(tunnelPlan)|
        decreases |tunnelPlan|
      {
        ghost var before := sent;
        var r := TunnelWrite(writePos, bufferLen - writePos);
        if r.SrSuccess? {
          PieceMoved(buffer, before, writePos, r.count, bufferLen);
          writePos := writePos + r.count;
        } else {
          if r.SrBlock? { KeepFrom(writePos); } else { Cleanup(); }
          return true;
        }
      }
      bufferLen := 0;
      assert buffer[..0] == "";
      return false;
    }

    /** One read from the file behind what is buffered. */
    method FillPiece() returns (r: Result)
      requires Sending() && !closed && !endOfFile && bufferLen < SIZE
      modifies this`bufferLen, this`filePlan, this`readPos, buffer
      ensures Sending() && filePlan == Tail(old(filePlan))
      ensures r.SrSuccess? ==> Head(old(filePlan)).Moves?
      ensures r.SrBlock? || r.SrError? ==> !Head(old(filePlan)).Moves?
      ensures !r.SrSuccess? ==> bufferLen == old(bufferLen)
      ensures r.SrEos? ==> readPos == |source|
    {
      ghost var pos0, len0 := readPos, bufferLen;
      r := FileRead(bufferLen, SIZE - bufferLen);
      if r.SrSuccess? {
        assert buffer[..len0 + r.count] == buffer[..len0] + buffer[len0..len0 + r.count];
        Extends(sent, buffer[..len0], buffer[len0..len0 + r.count], source, pos0, readPos);
        bufferLen := bufferLen + r.count;
      }
    }

    /** Refills the empty buffer from the file; true when the event is over. */
    method FillBuffer() returns (over: bool)
      requires Sending() && !closed && !endOfFile && bufferLen == 0
      modifies this`bufferLen, this`closed, this`endOfFile, this`filePlan, this`readPos, buffer
      ensures Sending() && (over ==> closed)
      ensures IsRest(old(filePlan), filePlan) && (over ==> endOfFile || LastRefused(old(filePlan), filePlan))
      ensures !over ==> !closed && bufferLen > 0
    {
      while bufferLen < SIZE
        invariant Sending() && !closed && !endOfFile && IsRest(old(filePlan), filePlan)
        decreases |filePlan|
      {
        RestOfRest(old(filePlan), filePlan);
        var r := FillPiece();
        if r.SrSuccess? {
          continue;
        } else if r.SrEos? {
          if bufferLen > 0 { break; }
          endOfFile := true;
          assert buffer[..0] == "" && source[..readPos] == source;
          Cleanup();
          return true;
        } else {
          Cleanup();
          return true;
        }
      }
      return false;
    }

    /** SE_WRITE while sending.  It stops while still open only when the tunnel blocked, with the
        bytes refused.  It closes only at the end of the file, when the tunnel ended or failed,
        or when the file refused once all that was buffered had been sent. */
    method OnWritable()
      requires Sending() && !closed
      modifies this`bufferLen, this`closed, this`endOfFile, this`tunnelPlan, this`filePlan
      modifies this`sent, this`readPos, buffer
      ensures Sending() && (!closed ==> bufferLen > 0)
      ensures !closed ==> Refusal(old(tunnelPlan)).Blocks? && tunnelPlan == Beyond(old(tunnelPlan))
      ensures closed ==> (
        || endOfFile || TunnelBroke(old(tunnelPlan), tunnelPlan)
        || (LastRefused(old(filePlan), filePlan) && old(sent + buffer[..bufferLen]) <= sent))
    {
      ghost var due := sent + buffer[..bufferLen];
      while true
        invariant Sending() && !closed && !endOfFile
        invariant OnlyMoved(old(tunnelPlan), tunnelPlan) && IsRest(old(filePlan), filePlan)
        invariant due <= sent + buffer[..bufferLen]
        decreases |tunnelPlan|, if bufferLen == 0 then 1 else 0
      {
        ghost var files := filePlan;
        var over := WriteBuffer();
        if over { return; }
        over := FillBuffer();
        RestOfRests(old(filePlan), files, filePlan);
        if over { return; }
      }
    }

    // ---- receiving ----

    /** The event ended as `whole` says: open after a block, or closed with what was held lost. */
    ghost predicate Ended(whole: Reading, before: nat) reads this {
      && received == before + whole.got && tunnelPlan == whole.rest
      && (closed <==> !whole.stop.Blocks?) && (closed ==> |lost| == whole.held)
    }

    /** The reading `whole`, begun with `before` bytes received, still has to go on from here. */
    ghost predicate Underway(whole: Reading, before: nat)
      reads this
      requires Shape()
    {
      received >= before && GoesOn(whole, received - before, Rest())
    }

    /** What the tunnel still gives in this event. */
    ghost function Rest(): Reading
      reads this
      requires Shape()
    {
      Readings(tunnelPlan, Emptied(bufferLen), |incoming| - received)
    }

    /** One read from the tunnel behind what is buffered. */
    method CollectPiece() returns (r: Result)
      requires Shape() && bufferLen < SIZE && written + buffer[..bufferLen] == incoming[..received]
      modifies this`bufferLen, this`tunnelPlan, this`received, buffer
      ensures Shape() && written + buffer[..bufferLen] == incoming[..received] && received >= old(received)
      ensures tunnelPlan == Tail(old(tunnelPlan)) && Answers(r, Head(old(tunnelPlan)))
      ensures r.SrSuccess? ==> GoesOn(old(Rest()), received - old(received), Rest())
      ensures !r.SrSuccess? ==> bufferLen == old(bufferLen) && received == old(received)
      ensures r.SrSuccess? ==> bufferLen >= old(bufferLen)
    {
      ghost var got0, len0 := received, bufferLen;
      r := TunnelRead(bufferLen, SIZE - bufferLen);
      if r.SrSuccess? {
        assert buffer[..len0 + r.count] == buffer[..len0] + buffer[len0..len0 + r.count];
        Extends(written, buffer[..len0], buffer[len0..len0 + r.count], incoming, got0, received);
        bufferLen := bufferLen + r.count;
      }
    }

    /** Collects bytes from the tunnel; true when the event is over. */
    method CollectBuffer(ghost whole: Reading, ghost before: nat) returns (over: bool)
      requires Receiving() && !closed && before <= received
      requires GoesOn(whole, received - before, Readings(tunnelPlan, 0, |incoming| - received))
      modifies this`bufferLen, this`closed, this`tunnelPlan, this`received, this`lost, this`cause, buffer
      ensures Shape() && (over ==> Receiving()) && written == old(written)
      ensures closed ==> cause.TunnelFailed?
      ensures if over then Ended(whole, before)
              else received >= before
                   && GoesOn(whole, received - before, Readings(tunnelPlan, 0, |incoming| - received))
      ensures !over ==> !closed && lost == "" && bufferLen > 0 && written + buffer[..bufferLen] == incoming[..received]
      ensures !over ==> |tunnelPlan| < |old(tunnelPlan)|
    {
      bufferLen := 0;
      assert buffer[..0] == "";
      while bufferLen < SIZE
        invariant Shape() && !closed && lost == "" && written + buffer[..bufferLen] == incoming[..received]
        invariant Underway(whole, before)
        invariant |tunnelPlan| <= |old(tunnelPlan)| && (bufferLen > 0 ==> |tunnelPlan| < |old(tunnelPlan)|)
        decreases |tunnelPlan|
      {
        var r := CollectPiece();
        if r.SrSuccess? {
          continue;
        } else if r.SrBlock? {
          if bufferLen > 0 { break; }
          return true;
        } else {
          lost, cause := buffer[..bufferLen], TunnelFailed;
          Cleanup();
          return true;
        }
      }
      return false;
    }

    /** Writes the buffer to the file; true when the event is over. */
    method DrainBuffer() returns (over: bool)
      requires Shape() && !closed && lost == "" && written + buffer[..bufferLen] == incoming[..received]
      modifies this`closed, this`filePlan, this`written, this`lost, this`cause
      ensures Receiving() && (over <==> closed) && (closed ==> cause.FileFailed?)
      ensures if closed then filePlan == Beyond(old(filePlan)) else OnlyMoved(old(filePlan), filePlan)
    {
      var writePos := 0;
      while writePos < bufferLen
        invariant 0 <= writePos <= bufferLen && !closed && lost == "" && OnlyMoved(old(filePlan), filePlan)
        invariant written + buffer[writePos..bufferLen] == incoming[..received]
        decreases |filePlan|
      {
        ghost var before := written;
        var r := FileWrite(writePos, bufferLen - writePos);
        if r.SrSuccess? {
          PieceMoved(buffer, before, writePos, r.count, bufferLen);
          writePos := writePos + r.count;
        } else {
          lost, cause := buffer[writePos..bufferLen], FileFailed;
          Cleanup();
          return true;
        }
      }
      return false;
    }

    /** SE_READ while receiving.  Unless the file refuses, it takes all that the tunnel's plan
        gives, and closes exactly when the plan does; the file refuses only by a reply of its own. */
    method OnReadable()
      requires Receiving() && !closed
      modifies this`bufferLen, this`closed, this`tunnelPlan, this`filePlan
      modifies this`received, this`written, this`lost, this`cause, buffer
      ensures Receiving() && (closed ==> !cause.PeerClosed?)
      ensures Pumped(old(tunnelPlan), old(filePlan), old(received))
    {
      ghost var whole, before, files := Readings(tunnelPlan, 0, |incoming| - received), received, filePlan;
      while true
        invariant Receiving() && !closed && received >= before && OnlyMoved(files, filePlan)
        invariant GoesOn(whole, received - before, Readings(tunnelPlan, 0, |incoming| - received))
        decreases |tunnelPlan|
      {
        var over := CollectBuffer(whole, before);
        if over { return; }
        over := DrainBuffer();
        if over { return; }
      }
    }

    /** What a read event did to a pump that had received `before` bytes. */
    ghost predicate Pumped(tunnel: seq<Reply>, file: seq<Reply>, before: nat)
      reads this
      requires before <= |incoming|
    {
      var whole := Readings(tunnel, 0, |incoming| - before);
      if closed && cause.FileFailed?
      then before <= received <= before + whole.got && filePlan == Beyond(file)
      else Ended(whole, before) && OnlyMoved(file, filePlan)
    }

    // ---- events ----

    ghost predicate Valid(sending: bool) reads this, buffer { if sending then Sending() else Receiving() }

    /** OnStreamEvent: what the streams will answer during this event comes with it. */
    method OnStreamEvent(sending: bool, e: Event)
      requires Valid(sending) && !closed
      modifies this, buffer
      ensures Valid(sending) && buffer == old(buffer) && source == old(source) && incoming == old(incoming)
      ensures !closed && sending && e.write ==> bufferLen > 0
      ensures closed && !sending ==> (cause.PeerClosed? <==> e.close)
      ensures e.close ==> closed && sent == old(sent) && written == old(written) && received == old(received)
      ensures !e.close && (if sending then !e.write else !e.read) ==>
        !closed && sent == old(sent) && written == old(written) && received == old(received)
      ensures !sending && e.read && !e.close ==> Pumped(e.tunnelPlan, e.filePlan, old(received))
      ensures sending && e.write && !e.close && !closed ==>
        Refusal(e.tunnelPlan).Blocks? && tunnelPlan == Beyond(e.tunnelPlan)
      ensures sending && e.write && !e.close && closed ==> (
        || endOfFile || TunnelBroke(e.tunnelPlan, tunnelPlan)
        || (LastRefused(e.filePlan, filePlan) && old(sent + buffer[..bufferLen]) <= sent))
    {
      tunnelPlan, filePlan := e.tunnelPlan, e.filePlan;
      if e.close {
        assert sending ==> source[..readPos] <= source;
        cause := PeerClosed;
        Cleanup();
        return;
      }
      if sending && e.write { OnWritable(); }
      if !sending && e.read { OnReadable(); }
    }

    /** Any sequence of events, until the pump closes. */
    method Run(sending: bool, events: seq<Event>)
      requires Valid(sending)
      modifies this, buffer
      ensures Valid(sending) && source == old(source) && incoming == old(incoming)
      ensures !closed ==> forall i :: 0 <= i < |events| ==> StaysOpen(sending, events[i])
      ensures !sending && !closed ==> received == old(received) + Total(events, |incoming| - old(received))
    {
      var i := 0;
      ghost var total, before := Total(events, |incoming| - received), received;
      assert events[0..] == events;
      while i < |events| && !closed
        invariant 0 <= i <= |events| && Valid(sending)
        invariant buffer == old(buffer) && source == old(source) && incoming == old(incoming)
        invariant !closed ==> forall j :: 0 <= j < i ==> StaysOpen(sending, events[j])
        invariant !sending && !closed ==>
          received >= before && total == received - before + Total(events[i..], |incoming| - received)
      {
        assert events[i..][0] == events[i] && events[i..][1..] == events[i + 1..];
        OnStreamEvent(sending, events[i]);
        i := i + 1;
      }
      assert events[|events|..] == [];
    }
  }

  /** An event after which a pump can still be open. */
  predicate StaysOpen(sending: bool, e: Event) {
    !e.close && (sending && e.write ==> Refusal(e.tunnelPlan).Blocks?)
  }

  /** What the read events of a run give, `left` being what is incoming. */
  function Total(events: seq<Event>, left: nat): nat {
    if events == [] then 0
    else
      var got := if events[0].read then Readings(events[0].tunnelPlan, 0, left).got else 0;
      got + Total(events[1..], left - got)
  }

  datatype Event = Event(close: bool, write: bool, read: bool, tunnelPlan: seq<Reply>, filePlan: seq<Reply>)
}
