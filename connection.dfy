/**
 * The receive side of `handle_client` (src/client_handler.py): how one received
 * buffer becomes the list of commands to dispatch, how each decoded value is
 * turned into a list of strings (or skipped, or raises), and what running the
 * whole list through the engine sends back.
 */
module Connection {
  import opened Wrappers
  import opened Builtins
  import opened Resp
  import opened Engine

  /** What framing makes of one buffer: the values to dispatch, in order, and whether
      decoding raised once they had been read (the connection is then closed). */
  datatype Framed = Framed(values: seq<Value>, raises: bool)

  /** The framing as the source writes it. With more than one `*` in the buffer it
      splits on `*`, but each piece is a byte string and never a list, so every piece
      is skipped; otherwise it decodes the first frame and drops the remainder. Every
      frame is decoded before any is dispatched, so a raise leaves nothing to run. */
  function FramesAsWritten(data: Bytes): (r: Framed)
    ensures |r.values| <= 1
    ensures r.raises ==> r.values == []
  {
    if Count(data, '*') > 1 then Framed([], false)
    else
      match Decode(data)
      case Failure => Framed([], true)
      case Decoded(v, _) => Framed([v], false)
  }

  /** The framing the loop is meant to do: decode one frame, then the next from the
      remainder, until the buffer is used up. The frames before one that raises are
      still dispatched. A frame after the snapshot marker cannot be reached (there is
      no remainder), and a frame that consumes nothing would loop for ever, so it
      counts as raising. */
  function Frames(data: Bytes): (r: Framed)
    ensures |r.values| <= |data|
    decreases |data|
  {
    if data == [] then Framed([], false)
    else
      match Decode(data)
      case Failure => Framed([], true)
      case Decoded(v, None) => Framed([v], false)
      case Decoded(v, Some(rest)) =>
        if |rest| >= |data| then Framed([], true)
        else
          var more := Frames(rest);
          Framed([v] + more.values, more.raises)
  }

  /** Which of the two framings a connection uses. */
  datatype Framing = AsWritten | Intended

  function FramesBy(mode: Framing, data: Bytes): (r: Framed)
    ensures mode == AsWritten ==> |r.values| <= 1
  {
    match mode
    case AsWritten => FramesAsWritten(data)
    case Intended => Frames(data)
  }

  /** What the loop body makes of one decoded value: the list of strings it dispatches
      on, a value whose first element is no verb (skipped by the final `continue`),
      or one on which `len` or `command[0]` raises. */
  datatype Command = Args(args: seq<Bytes>) | Skip | Crash

  predicate IsText(v: Value) { v.Simple? || v.Bulk? }

  function TextOf(v: Value): Bytes
    requires IsText(v)
  {
    if v.Simple? then v.text else v.data
  }

  /** Lines 34-40: byte-string elements become strings and the first one is the verb.
      A list of strings is dispatched element for element; a non-empty string, or a
      list whose first element is not a string, matches no verb and is skipped; None,
      an integer, the empty string and the empty list make `len` or `command[0]`
      raise. */
  function AsCommand(v: Value): (c: Command)
    ensures c.Args? <==> v.Array? && v.elements != [] && forall i :: 0 <= i < |v.elements| ==> IsText(v.elements[i])
    ensures c.Args? ==> |c.args| == |v.elements| && forall i :: 0 <= i < |v.elements| ==> c.args[i] == TextOf(v.elements[i])
    ensures c.Skip? <==> (IsText(v) && TextOf(v) != []) || (v.Array? && v.elements != [] && !IsText(v.elements[0]))
    ensures v.Null? || v.Int? || v == Array([]) || (IsText(v) && TextOf(v) == []) ==> c.Crash?
  {
    match v
    case Null => Crash
    case Int(_) => Crash
    case Simple(t) => if t == [] then Crash else Skip
    case Bulk(b) => if b == [] then Crash else Skip
    case Array(vs) =>
      if vs == [] then Crash
      else if !IsText(vs[0]) then Skip
      else if forall i :: 0 <= i < |vs| ==> IsText(vs[i]) then
        Args(seq(|vs|, i requires 0 <= i < |vs| => TextOf(vs[i])))
      else Crash
  }

  /** What the connection has done after a buffer: the replies written back in order,
      the propagations made, and whether the connection is still open. */
  datatype Transcript = Transcript(store: Store, replies: seq<Bytes>, sends: seq<Send>, open: bool)

  /** A transcript continued: what was already replied and sent comes first. */
  function Prefixed(replies: seq<Bytes>, sends: seq<Send>, t: Transcript): Transcript {
    Transcript(t.store, replies + t.replies, sends + t.sends, t.open)
  }

  lemma PrefixedNothing(t: Transcript)
    ensures Prefixed([], [], t) == t
  {
    assert [] + t.replies == t.replies && [] + t.sends == t.sends;
  }

  lemma PrefixedTwice(r1: seq<Bytes>, s1: seq<Send>, r2: seq<Bytes>, s2: seq<Send>, t: Transcript)
    ensures Prefixed(r1, s1, Prefixed(r2, s2, t)) == Prefixed(r1 + r2, s1 + s2, t)
  {
    assert r1 + (r2 + t.replies) == (r1 + r2) + t.replies;
    assert s1 + (s2 + t.sends) == (s1 + s2) + t.sends;
  }

  /** One decoded value through the loop body: dispatched, skipped, or raising. */
  function Handle(s: Store, v: Value, now: int, peer: Bytes): (e: Effect)
    ensures Consistent(s) ==> Consistent(e.store)
    ensures e.store.role == s.role && e.store.replid == s.replid
  {
    match AsCommand(v)
    case Crash => Effect(s, Closed, [])
    case Skip => Effect(s, NoReply, [])
    case Args(cmd) => Step(s, cmd, now, peer)
  }

  /** What `connection.sendall(response)` writes for an outcome. */
  function Written(o: Outcome): (r: seq<Bytes>)
    ensures |r| <= 1
    ensures |r| == 1 <==> o.Reply?
    ensures o.Reply? ==> r[0] == o.bytes
  {
    if o.Reply? then [o.bytes] else []
  }

  /** The `for command in all_commands` loop over decoded values. */
  function Run(s: Store, frames: seq<Value>, now: int, peer: Bytes): (t: Transcript)
    ensures Consistent(s) ==> Consistent(t.store)
    ensures t.store.role == s.role && t.store.replid == s.replid
    ensures |t.replies| <= |frames|
    decreases |frames|
  {
    if frames == [] then Transcript(s, [], [], true)
    else
      var e := Handle(s, frames[0], now, peer);
      if e.outcome.Closed? then Transcript(e.store, [], e.sends, false)
      else Prefixed(Written(e.outcome), e.sends, Run(e.store, frames[1..], now, peer))
  }

  /** One received buffer, framed and run; a raise while framing closes the
      connection once the frames before it have run. */
  function Receive(mode: Framing, s: Store, data: Bytes, now: int, peer: Bytes): (t: Transcript)
    ensures Consistent(s) ==> Consistent(t.store)
    ensures t.store.role == s.role
    ensures mode == AsWritten ==> |t.replies| <= 1
  {
    var f := FramesBy(mode, data);
    var t := Run(s, f.values, now, peer);
    if f.raises then t.(open := false) else t
  }

  /** The loop after its i-th value: what the whole loop produces is what has been
      produced so far followed by the rest of the loop from the new state. */
  lemma RunAdvance(s0: Store, frames: seq<Value>, i: nat, replies: seq<Bytes>, sends: seq<Send>,
                   s: Store, now: int, peer: Bytes)
    requires i < |frames|
    requires Run(s0, frames, now, peer) == Prefixed(replies, sends, Run(s, frames[i..], now, peer))
    ensures var e := Handle(s, frames[i], now, peer);
      Run(s0, frames, now, peer) ==
        if e.outcome.Closed? then Transcript(e.store, replies, sends + e.sends, false)
        else Prefixed(replies + Written(e.outcome), sends + e.sends, Run(e.store, frames[i + 1..], now, peer))
  {
    assert frames[i..][0] == frames[i] && frames[i..][1..] == frames[i + 1..];
    var e := Handle(s, frames[i], now, peer);
    if e.outcome.Closed? {
      assert replies + [] == replies;
    } else {
      PrefixedTwice(replies, sends, Written(e.outcome), e.sends, Run(e.store, frames[i + 1..], now, peer));
    }
  }

  /** One `recv` result and the clock reading while it is handled. */
  datatype Arrival = Arrival(data: Bytes, now: int)

  /** The `while server.running` loop over successive reads. A cleared `running`
      flag ends the loop before the next read, and the `finally` clause then closes
      the connection; so do an empty read and a buffer whose handling raises. When
      the reads run out the connection is still open, waiting for more. */
  function Session(mode: Framing, s: Store, arrivals: seq<Arrival>, peer: Bytes): (t: Transcript)
    ensures Consistent(s) ==> Consistent(t.store)
    ensures t.store.role == s.role
    ensures t.open ==> t.store.running
    decreases |arrivals|
  {
    if !s.running then Transcript(s, [], [], false)
    else if arrivals == [] then Transcript(s, [], [], true)
    else if arrivals[0].data == [] then Transcript(s, [], [], false)
    else
      var t := Receive(mode, s, arrivals[0].data, arrivals[0].now, peer);
      if !t.open then t
      else Prefixed(t.replies, t.sends, Session(mode, t.store, arrivals[1..], peer))
  }

  // Framing.

  /** As written: two arrays in one buffer are both lost, whatever they hold. */
  lemma PipelinedArraysDroppedAsWritten(vs: seq<Value>, ws: seq<Value>, rest: Bytes)
    ensures FramesAsWritten(Encode(Array(vs)) + Encode(Array(ws)) + rest) == Framed([], false)
  {
    var a, b := Encode(Array(vs)), Encode(Array(ws));
    assert a[0] == '*' && b[0] == '*';
    assert Count(a, '*') >= 1 && Count(b, '*') >= 1;
    CountConcat(a, b, '*');
    CountConcat(a + b, rest, '*');
  }

  /** As written: with at most one `*` in the buffer only the first frame is decoded,
      and whatever follows it is thrown away. */
  lemma OnlyFirstFrameAsWritten(v: Value, rest: Bytes)
    requires WellFormed(v) && Count(Encode(v) + rest, '*') <= 1
    ensures FramesAsWritten(Encode(v) + rest) == Framed([v], false)
  {
    RoundTrip(v, rest);
  }

  /** The intended framing gives back every pipelined value, in order. */
  lemma {:induction false} PipelineRoundTrip(vs: seq<Value>)
    requires forall w | w in vs :: WellFormed(w)
    ensures Frames(EncodeAll(vs)) == Framed(vs, false)
  {
    if vs != [] {
      var tail := EncodeAll(vs[1..]);
      RoundTrip(vs[0], tail);
      assert forall w | w in vs[1..] :: w in vs;
      PipelineRoundTrip(vs[1..]);
      assert [vs[0]] + vs[1..] == vs;
    }
  }

  /** Two pipelined PINGs: the source dispatches neither, the intended framing both. */
  lemma TwoPings()
    ensures var ping := Array([Bulk("PING")]);
      && FramesAsWritten(Encode(ping) + Encode(ping)) == Framed([], false)
      && Frames(Encode(ping) + Encode(ping)) == Framed([ping, ping], false)
  {
    var ping := Array([Bulk("PING")]);
    PipelinedArraysDroppedAsWritten([Bulk("PING")], [Bulk("PING")], []);
    assert Encode(ping) + Encode(ping) + [] == Encode(ping) + Encode(ping);
    assert EncodeAll([ping, ping]) == Encode(ping) + Encode(ping) by {
      assert [ping, ping][1..] == [ping];
      assert EncodeAll([ping]) == Encode(ping) + EncodeAll([]);
    }
    assert WellFormed(ping);
    PipelineRoundTrip([ping, ping]);
  }

  /** The same two PINGs on a connection: as written nothing is answered; with the
      intended framing each is answered `+PONG`. Nothing else changes either way. */
  lemma TwoPingsAnswered(s: Store, now: int, peer: Bytes)
    ensures var ping := Encode(Array([Bulk("PING")]));
      && Receive(AsWritten, s, ping + ping, now, peer) == Transcript(s, [], [], true)
      && Receive(Intended, s, ping + ping, now, peer) == Transcript(s, ["+PONG\r\n", "+PONG\r\n"], [], true)
  {
    var ping := Array([Bulk("PING")]);
    TwoPings();
    PingHandled(s, now, peer);
    assert [ping, ping][1..] == [ping] && [ping][1..] == [];
    assert Run(s, [ping], now, peer) == Transcript(s, ["+PONG\r\n"] + [], [] + [], true);
  }

  lemma PingHandled(s: Store, now: int, peer: Bytes)
    ensures Handle(s, Array([Bulk("PING")]), now, peer) == Effect(s, Reply("+PONG\r\n"), [])
  {
    var ping := Array([Bulk("PING")]);
    assert AsCommand(ping) == Args(["PING"]);
    var cmd: seq<Bytes> := ["PING"];
    assert Lower(cmd[0]) == "ping";
    PingEcho(s, cmd, now, peer);
  }

  /** As written: a single command is lost too when one of its arguments holds a `*`;
      the intended framing keeps it. */
  lemma StarInArgument()
    ensures var v := Array([Bulk("ECHO"), Bulk("*")]);
      && FramesAsWritten(Encode(v)) == Framed([], false)
      && Frames(Encode(v)) == Framed([v], false)
  {
    StarsInEcho();
    LoneFrame(Array([Bulk("ECHO"), Bulk("*")]));
  }

  /** A buffer holding one frame yields just that frame under the intended framing. */
  lemma LoneFrame(v: Value)
    requires WellFormed(v)
    ensures Frames(Encode(v)) == Framed([v], false)
  {
    PipelineRoundTrip([v]);
    assert EncodeAll([v]) == Encode(v) + EncodeAll([]);
    assert Encode(v) + [] == Encode(v);
  }

  /** The array header and the argument each contribute a `*`. */
  lemma StarsInEcho()
    ensures Count(Encode(Array([Bulk("ECHO"), Bulk("*")])), '*') >= 2
  {
    var v := Array([Bulk("ECHO"), Bulk("*")]);
    var inner := EncodeAll([Bulk("*")]);
    assert Encode(Bulk("*"))[4] == '*';
    assert Count(Encode(Bulk("*")), '*') >= 1;
    assert inner == Encode(Bulk("*")) + EncodeAll([]);
    assert EncodeAll(v.elements) == Encode(Bulk("ECHO")) + inner;
    CountConcat(Encode(Bulk("ECHO")), inner, '*');
    CountConcat(Encode(Bulk("*")), [], '*');
    assert Encode(v) == ("*" + Decimal(2) + CRLF) + EncodeAll(v.elements);
    CountConcat("*" + Decimal(2) + CRLF, EncodeAll(v.elements), '*');
    assert ("*" + Decimal(2) + CRLF)[0] == '*';
  }

  // Replication.

  /** Simple strings add a `*` to their encoding only through their own text. */
  lemma {:induction false} SimpleStars(vs: seq<Value>)
    requires forall i :: 0 <= i < |vs| ==> vs[i].Simple?
    ensures Count(EncodeAll(vs), '*') == 0 <==> forall i :: 0 <= i < |vs| ==> Count(vs[i].text, '*') == 0
  {
    if vs != [] {
      var t := vs[0].text;
      assert Encode(vs[0]) == "+" + t + CRLF;
      CountConcat("+" + t, CRLF, '*');
      CountConcat("+", t, '*');
      CountConcat(Encode(vs[0]), EncodeAll(vs[1..]), '*');
      SimpleStars(vs[1..]);
      assert forall i :: 1 <= i < |vs| ==> vs[i] == vs[1..][i - 1];
    }
  }

  /** A propagated command holds the one `*` of its header exactly when none of its
      arguments holds a `*`. */
  lemma PropagatedStars(cmd: seq<Bytes>)
    ensures Count(Encode(AsSimpleArray(cmd)), '*') <= 1 <==> forall i :: 0 <= i < |cmd| ==> Count(cmd[i], '*') == 0
  {
    var v := AsSimpleArray(cmd);
    var d := Decimal(|cmd|);
    assert Encode(v) == "*" + d + CRLF + EncodeAll(v.elements);
    CountConcat("*" + d + CRLF, EncodeAll(v.elements), '*');
    CountConcat("*" + d, CRLF, '*');
    CountConcat("*", d, '*');
    assert Count(d, '*') == 0;
    assert forall i :: 0 <= i < |cmd| ==> v.elements[i] == Simple(cmd[i]);
    SimpleStars(v.elements);
  }

  /** The command a master propagates reaches a replica, on a connection of its own,
      as the same list of strings, as long as no argument holds a CRLF, and, with the
      framing as written, no argument holds a `*`. */
  lemma PropagatedCommandDecodes(mode: Framing, cmd: seq<Bytes>)
    requires cmd != [] && forall i :: 0 <= i < |cmd| ==> NoCrlf(cmd[i])
    requires mode == AsWritten ==> forall i :: 0 <= i < |cmd| ==> Count(cmd[i], '*') == 0
    ensures FramesBy(mode, Encode(AsSimpleArray(cmd))) == Framed([AsSimpleArray(cmd)], false)
    ensures AsCommand(AsSimpleArray(cmd)) == Args(cmd)
  {
    var v := AsSimpleArray(cmd);
    assert forall w | w in v.elements :: WellFormed(w);
    assert Encode(v) + [] == Encode(v);
    if mode == AsWritten {
      PropagatedStars(cmd);
      OnlyFirstFrameAsWritten(v, []);
    } else {
      LoneFrame(v);
    }
    assert AsCommand(v).args == cmd;
  }

  /** A SET applied by a master is applied by each replica that receives the
      propagated bytes: the replica stores the same value (and, with `px`, the same
      expiry measured from its own clock) and answers `$-1`. */
  lemma ReplicaAppliesPropagatedSet(mode: Framing, r: Store, cmd: seq<Bytes>, now: int, peer: Bytes)
    requires r.role == Slave
    requires |cmd| >= 3 && Lower(cmd[0]) == "set"
    requires HasPx(cmd) ==> |cmd| >= 5 && ParseInt(cmd[4]).Some?
    requires forall i :: 0 <= i < |cmd| ==> NoCrlf(cmd[i])
    requires mode == AsWritten ==> forall i :: 0 <= i < |cmd| ==> Count(cmd[i], '*') == 0
    ensures Receive(mode, r, Encode(AsSimpleArray(cmd)), now, peer)
      == Transcript(Step(r, cmd, now, peer).store, ["$-1\r\n"], [], true)
    ensures !HasPx(cmd) ==> Step(r, cmd, now, peer).store == r.(cache := r.cache[cmd[1] := cmd[2]])
    ensures HasPx(cmd) ==>
      Step(r, cmd, now, peer).store
        == r.(cache := r.cache[cmd[1] := cmd[2]], ttl := r.ttl[cmd[1] := now + ParseInt(cmd[4]).value])
  {
    PropagatedCommandDecodes(mode, cmd);
    SetStores(r, cmd, now, peer);
    SetReplies(r, cmd, now, peer);
    var v := AsSimpleArray(cmd);
    var e := Step(r, cmd, now, peer);
    assert [v][1..] == [];
    assert Run(e.store, [], now, peer) == Transcript(e.store, [], [], true);
    assert Run(r, [v], now, peer) == Transcript(e.store, ["$-1\r\n"] + [], [] + [], true);
  }

  /** As written, a replica drops every propagated command one of whose arguments
      holds a `*`: nothing is stored and nothing is answered. */
  lemma ReplicaDropsStarredCommand(r: Store, cmd: seq<Bytes>, now: int, peer: Bytes)
    requires exists i :: 0 <= i < |cmd| && Count(cmd[i], '*') > 0
    ensures Receive(AsWritten, r, Encode(AsSimpleArray(cmd)), now, peer) == Transcript(r, [], [], true)
  {
    PropagatedStars(cmd);
  }

  // Sessions.

  /** Reading `a` and then `b` on one connection is reading `a`, then, if the
      connection is still open, reading `b` from the state `a` left behind. */
  lemma {:induction false} SessionAppend(mode: Framing, s: Store, a: seq<Arrival>, b: seq<Arrival>, peer: Bytes)
    ensures var t := Session(mode, s, a, peer);
      Session(mode, s, a + b, peer) == if t.open then Prefixed(t.replies, t.sends, Session(mode, t.store, b, peer)) else t
    decreases |a|
  {
    if !s.running {
    } else if a == [] {
      assert a + b == b;
      PrefixedNothing(Session(mode, s, b, peer));
    } else if a[0].data != [] {
      var t := Receive(mode, s, a[0].data, a[0].now, peer);
      assert (a + b)[0] == a[0];
      if t.open {
        assert (a + b)[1..] == a[1..] + b;
        SessionAppend(mode, t.store, a[1..], b, peer);
        var m := Session(mode, t.store, a[1..], peer);
        if m.open {
          PrefixedTwice(t.replies, t.sends, m.replies, m.sends, Session(mode, m.store, b, peer));
        }
      }
    } else {
      assert (a + b)[0] == a[0];
    }
  }
}
