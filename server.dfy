/**
 * `RedisServer` (src/server.py) with the dispatch of `handle_client`
 * (src/client_handler.py) as methods that update its fields in place. Each method
 * is proved to leave the object in the state, and to give the answer, that the
 * specification functions of the Engine and Connection modules compute.
 */
module Server {
  import opened Wrappers
  import opened Builtins
  import opened Resp
  import opened Engine
  import opened Connection

  class RedisServer {
    var cache: map<Bytes, Bytes>
    var ttl: map<Bytes, int>
    var slaves: seq<Replica>
    var role: Role
    var replid: Bytes
    var offset: int
    var running: bool

    /** The fields, as one value. */
    function State(): Store
      reads this
    {
      Store(cache, ttl, slaves, role, replid, offset, running)
    }

    /** The dataclass defaults, with the role chosen on the command line. */
    constructor (role: Role)
      ensures State() == Initial(role)
    {
      cache := map[];
      ttl := map[];
      slaves := [];
      this.role := role;
      replid := DefaultReplid;
      offset := 0;
      running := true;
    }

    /** One command: the fields end as `Step` says, with its reply and propagations. */
    method Dispatch(cmd: seq<Bytes>, now: int, peer: Bytes) returns (out: Outcome, sends: seq<Send>)
      modifies this
      ensures Effect(State(), out, sends) == Step(old(State()), cmd, now, peer)
    {
      sends := [];
      if cmd == [] {
        return Closed, [];
      }
      out := Reply(NullBulk);
      match VerbOf(Lower(cmd[0]))
      case PingVerb =>
        out := Reply(Encode(Simple("PONG")));
      case EchoVerb =>
        if |cmd| < 2 {
          return Closed, [];
        }
        out := Reply(Encode(Bulk(cmd[1])));
      case SetVerb =>
        out, sends := SetKey(cmd, now);
      case DelVerb =>
        out := DeleteKey(cmd);
      case GetVerb =>
        out := GetKey(cmd, now);
      case InfoVerb =>
        out := Reply(Encode(Simple(Info(State()))));
      case ReplconfVerb =>
        out := Configure(cmd, peer);
      case PsyncVerb =>
        if |cmd| < 2 {
          return Closed, [];
        }
        if cmd[1] == "?" {
          var resync := Encode(Simple("FULLRESYNC " + replid + " " + Decimal(offset)));
          var header := "$" + Decimal(|Snapshot|) + CRLF;
          out := Reply(resync + (header + Snapshot));
        }
      case FullresyncVerb =>
      case ExistsVerb =>
        if |cmd| < 2 {
          return Closed, [];
        }
        out := Reply(Encode(Int(if cmd[1] in cache then 1 else 0)));
      case ShutdownVerb =>
        running := false;
        out := Reply(Encode(Simple("OK")));
      case UnknownVerb =>
      case OtherVerb =>
        out := NoReply;
    }

    /** SET: the value is stored first, then the expiry, then the reply and the
        propagation to replicas. */
    method SetKey(cmd: seq<Bytes>, now: int) returns (out: Outcome, sends: seq<Send>)
      requires cmd != []
      modifies this
      ensures Effect(State(), out, sends) == Set(old(State()), cmd, now)
    {
      sends := [];
      if |cmd| < 3 {
        return Closed, [];
      }
      var key, value := cmd[1], cmd[2];
      cache := cache[key := value];
      if |cmd| > 3 && Lower(cmd[3]) == "px" {
        if |cmd| < 5 {
          return Closed, [];
        }
        var ms := ParseInt(cmd[4]);
        if ms.None? {
          return Closed, [];
        }
        ttl := ttl[key := now + ms.value];
      }
      if role == Master {
        var ok;
        sends, ok := SendToSlaves(Encode(AsSimpleArray(cmd)));
        out := if ok then Reply(Encode(Simple("OK"))) else Closed;
      } else {
        out := Reply(NullBulk);
      }
    }

    /** The loop over `SLAVES`: one message per replica, in order, stopping at the
        first port that is not a number. */
    method SendToSlaves(payload: Bytes) returns (sends: seq<Send>, ok: bool)
      ensures (sends, ok) == Propagate(slaves, payload)
    {
      sends := [];
      var rest := slaves;
      while rest != []
        invariant Propagate(slaves, payload).0 == sends + Propagate(rest, payload).0
        invariant Propagate(slaves, payload).1 == Propagate(rest, payload).1
      {
        var slave := rest[0];
        var port := ParseInt(slave.port);
        if port.None? {
          assert sends + [] == sends;
          return sends, false;
        }
        sends := sends + [Send(slave.host, port.value, payload)];
        rest := rest[1..];
      }
      assert sends + [] == sends;
      return sends, true;
    }

    /** DEL: drops the key and its expiry when the key is stored. */
    method DeleteKey(cmd: seq<Bytes>) returns (out: Outcome)
      requires cmd != []
      modifies this
      ensures Effect(State(), out, []) == Del(old(State()), cmd)
    {
      if |cmd| < 2 {
        return Closed;
      }
      var key := cmd[1];
      if key in cache {
        cache := cache - {key};
        if key in ttl {
          ttl := ttl - {key};
        }
        out := Reply(Encode(Int(1)));
      } else {
        out := Reply(Encode(Int(0)));
      }
    }

    /** GET: an entry whose expiry instant has passed is deleted before the lookup. */
    method GetKey(cmd: seq<Bytes>, now: int) returns (out: Outcome)
      requires cmd != []
      modifies this
      ensures Effect(State(), out, []) == Get(old(State()), cmd, now)
    {
      if |cmd| < 2 {
        return Closed;
      }
      var key := cmd[1];
      if key in ttl && ttl[key] < now {
        if key !in cache {
          return Closed;
        }
        cache := cache - {key};
        ttl := ttl - {key};
      }
      out := Reply(if key in cache then Encode(Bulk(cache[key])) else NullBulk);
    }

    /** REPLCONF: `listening-port` records the caller as a replica. */
    method Configure(cmd: seq<Bytes>, peer: Bytes) returns (out: Outcome)
      requires cmd != []
      modifies this
      ensures Effect(State(), out, []) == Replconf(old(State()), cmd, peer)
    {
      if |cmd| < 2 {
        return Closed;
      }
      var sub := Lower(cmd[1]);
      if sub == "listening-port" {
        if |cmd| < 3 {
          return Closed;
        }
        slaves := slaves + [Replica(peer, cmd[2])];
        out := Reply(Encode(Simple("OK")));
      } else if sub == "getack" {
        out := Reply(Encode(Array([Simple("REPLECONF"), Simple("ACK"), Int(0)])));
      } else {
        out := Reply(Encode(Simple("OK")));
      }
    }

    /** The loop body for one decoded value: a list of strings is dispatched, a value
        with no verb is skipped, and one on which `len` or indexing raises fails. */
    method HandleFrame(v: Value, now: int, peer: Bytes) returns (out: Outcome, sends: seq<Send>)
      modifies this
      ensures Effect(State(), out, sends) == Handle(old(State()), v, now, peer)
    {
      var command := AsCommand(v);
      match command {
        case Crash =>
          out, sends := Closed, [];
        case Skip =>
          out, sends := NoReply, [];
        case Args(cmd) =>
          out, sends := Dispatch(cmd, now, peer);
      }
    }

    /** One received buffer, framed as the source frames it: every frame kept is
        dispatched in order until one raises, which closes the connection. */
    method HandleBuffer(data: Bytes, now: int, peer: Bytes)
      returns (replies: seq<Bytes>, sends: seq<Send>, open: bool)
      modifies this
      ensures Transcript(State(), replies, sends, open) == Receive(AsWritten, old(State()), data, now, peer)
    {
      replies, sends := [], [];
      var framed := FramesAsWritten(data);
      var frames := framed.values;
      var i := 0;
      while i < |frames|
        invariant 0 <= i <= |frames|
        invariant Run(old(State()), frames, now, peer) == Prefixed(replies, sends, Run(State(), frames[i..], now, peer))
      {
        ghost var before := State();
        var out, more := HandleFrame(frames[i], now, peer);
        RunAdvance(old(State()), frames, i, replies, sends, before, now, peer);
        if out.Closed? {
          return replies, sends + more, false;
        }
        replies := replies + Written(out);
        sends := sends + more;
        i := i + 1;
      }
      assert frames[i..] == [];
      PrefixedNothing(Transcript(State(), [], [], true));
      open := !framed.raises;
    }

    /** The connection's read loop: buffers are handled while the server is running,
        until an empty read or a failure closes the connection; once `running` is
        cleared the loop ends and the connection is closed. */
    method Serve(arrivals: seq<Arrival>, peer: Bytes)
      returns (replies: seq<Bytes>, sends: seq<Send>, open: bool)
      modifies this
      ensures Transcript(State(), replies, sends, open) == Session(AsWritten, old(State()), arrivals, peer)
    {
      replies, sends := [], [];
      var i := 0;
      while running && i < |arrivals|
        invariant 0 <= i <= |arrivals|
        invariant Session(AsWritten, old(State()), arrivals, peer)
          == Prefixed(replies, sends, Session(AsWritten, State(), arrivals[i..], peer))
      {
        assert arrivals[i..][0] == arrivals[i] && arrivals[i..][1..] == arrivals[i + 1..];
        if arrivals[i].data == [] {
          return replies, sends, false;
        }
        var more, moreSends, stillOpen := HandleBuffer(arrivals[i].data, arrivals[i].now, peer);
        if !stillOpen {
          return replies + more, sends + moreSends, false;
        }
        PrefixedTwice(replies, sends, more, moreSends, Session(AsWritten, State(), arrivals[i + 1..], peer));
        replies := replies + more;
        sends := sends + moreSends;
        i := i + 1;
      }
      open := running;
      assert replies + [] == replies && sends + [] == sends;
    }
  }
}
