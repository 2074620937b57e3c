/**
 * The command engine of `handle_client` (src/client_handler.py): how one decoded
 * command, already turned into a list of strings, changes the server's state and
 * what it answers. `Step` is the specification; the class in server.dfy performs
 * the same updates in place and is proved equal to it.
 *
 * The clock is an integer number of milliseconds passed in by the caller; the
 * outgoing connections to replicas are returned as a list of messages.
 */
module Engine {
  import opened Wrappers
  import opened Builtins
  import opened Resp

  /** `server.role`: "master" or "slave". */
  datatype Role = Master | Slave

  function RoleName(role: Role): Bytes {
    match role
    case Master => "master"
    case Slave => "slave"
  }

  /** An entry of `server.SLAVES`: the peer host and the port text it announced. */
  datatype Replica = Replica(host: Bytes, port: Bytes)

  /** The fields of `RedisServer` that the dispatch reads or writes. `ttl` holds
      absolute expiry instants in milliseconds. */
  datatype Store = Store(
    cache: map<Bytes, Bytes>,
    ttl: map<Bytes, int>,
    slaves: seq<Replica>,
    role: Role,
    replid: Bytes,
    offset: int,
    running: bool)

  /** What handling one command leads to: bytes sent back, nothing sent (`continue`),
      or an exception, after which the connection is closed. */
  datatype Outcome = Reply(bytes: Bytes) | NoReply | Closed

  /** One propagation: a connection to `host:port` that is sent `payload`. */
  datatype Send = Send(host: Bytes, port: int, payload: Bytes)

  datatype Effect = Effect(store: Store, outcome: Outcome, sends: seq<Send>)

  const DefaultReplid: Bytes := "8371b4fb1155b71f4a04d3e1bc3e18c4a990aeeb"

  /** The placeholder snapshot sent after FULLRESYNC (88 bytes, starting with the
      magic `REDIS0011`). */
  const Snapshot: Bytes :=
    "REDIS0011" + "\U{fa}\U{9}redis-ver" + "\U{5}7.2.0"
    + "\U{fa}\U{a}redis-bits" + "\U{c0}@\U{fa}\U{5}ctime"
    + "\U{c2}m\U{8}\U{bc}e" + "\U{fa}\U{8}used-mem"
    + "\U{c2}\U{b0}\U{c4}\U{10}\U{0}" + "\U{fa}\U{8}aof-base"
    + "\U{c0}\U{0}\U{ff}\U{f0}n;" + "\U{fe}\U{c0}\U{ff}Z\U{a2}"

  /** Every expiry entry belongs to a stored key; this is what makes the
      `del server.CACHE[key]` of GET safe. */
  predicate Consistent(s: Store) {
    s.ttl.Keys <= s.cache.Keys
  }

  /** The state a new `RedisServer` starts in. */
  function Initial(role: Role): (s: Store)
    ensures Consistent(s) && s.role == role && s.running
    ensures s.cache == map[] && s.ttl == map[] && s.slaves == [] && s.replid == DefaultReplid && s.offset == 0
  {
    Store(map[], map[], [], role, DefaultReplid, 0, true)
  }

  /** The verbs the dispatch tells apart, after lower-casing. */
  datatype Verb =
    | PingVerb | EchoVerb | SetVerb | DelVerb | GetVerb | InfoVerb | ReplconfVerb
    | PsyncVerb | FullresyncVerb | ExistsVerb | ShutdownVerb | UnknownVerb | OtherVerb

  function VerbOf(name: Bytes): Verb {
    if name == "ping" then PingVerb
    else if name == "echo" then EchoVerb
    else if name == "set" then SetVerb
    else if name == "del" then DelVerb
    else if name == "get" then GetVerb
    else if name == "info" then InfoVerb
    else if name == "replconf" then ReplconfVerb
    else if name == "psync" then PsyncVerb
    else if name == "fullresync" then FullresyncVerb
    else if name == "exists" then ExistsVerb
    else if name == "shutdown" then ShutdownVerb
    else if name == "unknown" then UnknownVerb
    else OtherVerb
  }

  /** One command of the source's `for command in all_commands` loop. */
  function Step(s: Store, cmd: seq<Bytes>, now: int, peer: Bytes): (e: Effect)
    ensures Consistent(s) ==> Consistent(e.store)
    ensures e.store.role == s.role && e.store.replid == s.replid && e.store.offset == s.offset
    ensures e.sends != [] ==> s.role == Master
  {
    if cmd == [] then Effect(s, Closed, [])
    else
      match VerbOf(Lower(cmd[0]))
      case PingVerb => Effect(s, Reply(Encode(Simple("PONG"))), [])
      case EchoVerb =>
        if |cmd| < 2 then Effect(s, Closed, []) else Effect(s, Reply(Encode(Bulk(cmd[1]))), [])
      case SetVerb => Set(s, cmd, now)
      case DelVerb => Del(s, cmd)
      case GetVerb => Get(s, cmd, now)
      case InfoVerb => Effect(s, Reply(Encode(Simple(Info(s)))), [])
      case ReplconfVerb => Replconf(s, cmd, peer)
      case PsyncVerb => Psync(s, cmd)
      case FullresyncVerb => Effect(s, Reply(NullBulk), [])
      case ExistsVerb => Exists(s, cmd)
      case ShutdownVerb => Effect(s.(running := false), Reply(Encode(Simple("OK"))), [])
      case UnknownVerb => Effect(s, Reply(NullBulk), [])
      case OtherVerb => Effect(s, NoReply, [])
  }

  /** The command as it is propagated: its arguments are `str` by then, so each
      becomes a simple string. */
  function AsSimpleArray(cmd: seq<Bytes>): (v: Value)
    ensures v.Array? && |v.elements| == |cmd|
  {
    Array(seq(|cmd|, i requires 0 <= i < |cmd| => Simple(cmd[i])))
  }

  /** SET key value [PX ms]. The value is stored before the PX argument is looked at. */
  function Set(s: Store, cmd: seq<Bytes>, now: int): (e: Effect)
    requires cmd != []
    ensures Consistent(s) ==> Consistent(e.store)
    ensures e.store.role == s.role && e.store.replid == s.replid && e.store.offset == s.offset
    ensures e.sends != [] ==> s.role == Master
  {
    if |cmd| < 3 then Effect(s, Closed, [])
    else
      var key, value := cmd[1], cmd[2];
      var stored := s.(cache := s.cache[key := value]);
      if |cmd| > 3 && Lower(cmd[3]) == "px" then
        if |cmd| < 5 then Effect(stored, Closed, [])
        else
          match ParseInt(cmd[4])
          case None => Effect(stored, Closed, [])
          case Some(ms) => Acknowledge(stored.(ttl := stored.ttl[key := now + ms]), cmd)
      else Acknowledge(stored, cmd)
  }

  /** The reply to SET: `+OK` and one propagation per replica on a master, the
      initial `$-1` on a slave. */
  function Acknowledge(s: Store, cmd: seq<Bytes>): (e: Effect)
    ensures e.store == s
    ensures e.sends != [] ==> s.role == Master
  {
    if s.role == Master then
      var (sends, ok) := Propagate(s.slaves, Encode(AsSimpleArray(cmd)));
      Effect(s, if ok then Reply(Encode(Simple("OK"))) else Closed, sends)
    else Effect(s, Reply(NullBulk), [])
  }

  /** The `for slave in server.SLAVES` loop: a message to each replica in turn, until a
      port that `int()` rejects raises and ends the loop (`ok` is false then). */
  function Propagate(slaves: seq<Replica>, payload: Bytes): (r: (seq<Send>, bool))
    ensures |r.0| <= |slaves|
    ensures forall i :: 0 <= i < |r.0| ==>
      r.0[i].host == slaves[i].host && ParseInt(slaves[i].port) == Some(r.0[i].port) && r.0[i].payload == payload
    ensures r.1 <==> forall i :: 0 <= i < |slaves| ==> ParseInt(slaves[i].port).Some?
    ensures r.1 ==> |r.0| == |slaves|
  {
    if slaves == [] then ([], true)
    else
      match ParseInt(slaves[0].port)
      case None => ([], false)
      case Some(port) =>
        var (later, ok) := Propagate(slaves[1..], payload);
        ([Send(slaves[0].host, port, payload)] + later, ok)
  }

  /** When the loop raises, it has sent one message to each replica before the first
      one whose port `int()` rejects, and to none after it. */
  lemma {:induction false} PropagateStops(slaves: seq<Replica>, payload: Bytes)
    ensures var r := Propagate(slaves, payload);
      !r.1 ==> |r.0| < |slaves| && ParseInt(slaves[|r.0|].port).None?
  {
    if slaves != [] && ParseInt(slaves[0].port).Some? {
      PropagateStops(slaves[1..], payload);
    }
  }

  /** DEL key: removes the key and its expiry when the key is stored. */
  function Del(s: Store, cmd: seq<Bytes>): (e: Effect)
    requires cmd != []
    ensures Consistent(s) ==> Consistent(e.store)
    ensures e.sends == [] && e.store == s.(cache := e.store.cache, ttl := e.store.ttl)
    ensures forall k :: k in e.store.cache ==> k in s.cache && e.store.cache[k] == s.cache[k]
    ensures |cmd| >= 2 ==> cmd[1] !in e.store.cache && e.outcome.Reply?
  {
    if |cmd| < 2 then Effect(s, Closed, [])
    else
      var key := cmd[1];
      if key in s.cache then
        Effect(s.(cache := s.cache - {key}, ttl := s.ttl - {key}), Reply(Encode(Int(1))), [])
      else Effect(s, Reply(Encode(Int(0))), [])
  }

  /** GET key, with lazy expiry: a key whose expiry instant is before `now` is dropped
      from both maps first. If it had an expiry but no value, `del` raises. */
  function Get(s: Store, cmd: seq<Bytes>, now: int): (e: Effect)
    requires cmd != []
    ensures Consistent(s) ==> Consistent(e.store)
    ensures e.sends == [] && e.store == s.(cache := e.store.cache, ttl := e.store.ttl)
    ensures forall k :: k in e.store.cache ==> k in s.cache && e.store.cache[k] == s.cache[k]
    ensures Consistent(s) && |cmd| >= 2 ==> e.outcome.Reply?
  {
    if |cmd| < 2 then Effect(s, Closed, [])
    else
      var key := cmd[1];
      if key in s.ttl && s.ttl[key] < now then
        if key !in s.cache then Effect(s, Closed, [])
        else Effect(s.(cache := s.cache - {key}, ttl := s.ttl - {key}), Reply(NullBulk), [])
      else Effect(s, Reply(Lookup(s, key)), [])
  }

  /** `encode_resp(value.encode() if value is not None else None)` */
  function Lookup(s: Store, key: Bytes): Bytes {
    if key in s.cache then Encode(Bulk(s.cache[key])) else NullBulk
  }

  /** EXISTS key: presence in the cache only; the expiry table is not consulted. */
  function Exists(s: Store, cmd: seq<Bytes>): (e: Effect)
    requires cmd != []
    ensures e.store == s && e.sends == []
    ensures |cmd| >= 2 ==> e.outcome.Reply?
  {
    if |cmd| < 2 then Effect(s, Closed, [])
    else Effect(s, Reply(Encode(Int(if cmd[1] in s.cache then 1 else 0))), [])
  }

  /** The INFO line. */
  function Info(s: Store): Bytes {
    "role:" + RoleName(s.role) + ", connected_slaves:" + Decimal(|s.slaves|)
      + ", master_replid:" + s.replid + ", master_repl_offset:" + Decimal(s.offset)
  }

  /** REPLCONF listening-port | capa | getack | anything else. */
  function Replconf(s: Store, cmd: seq<Bytes>, peer: Bytes): (e: Effect)
    requires cmd != []
    ensures e.sends == [] && e.store == s.(slaves := e.store.slaves)
    ensures s.slaves <= e.store.slaves && |e.store.slaves| <= |s.slaves| + 1
  {
    if |cmd| < 2 then Effect(s, Closed, [])
    else
      var sub := Lower(cmd[1]);
      if sub == "listening-port" then
        if |cmd| < 3 then Effect(s, Closed, [])
        else Effect(s.(slaves := s.slaves + [Replica(peer, cmd[2])]), Reply(Encode(Simple("OK"))), [])
      else if sub == "getack" then
        Effect(s, Reply(Encode(Array([Simple("REPLECONF"), Simple("ACK"), Int(0)]))), [])
      else Effect(s, Reply(Encode(Simple("OK"))), [])
  }

  /** PSYNC ? ...: FULLRESYNC with the replication id and offset, followed in the
      same reply by the length-prefixed snapshot (with no CRLF after it). Any
      other first argument leaves the initial `$-1` reply. */
  function Psync(s: Store, cmd: seq<Bytes>): (e: Effect)
    requires cmd != []
    ensures e.store == s && e.sends == []
    ensures |cmd| >= 2 ==> e.outcome.Reply?
  {
    if |cmd| < 2 then Effect(s, Closed, [])
    else if cmd[1] == "?" then
      var header := "$" + Decimal(|Snapshot|) + CRLF;
      Effect(s, Reply(Encode(Simple("FULLRESYNC " + s.replid + " " + Decimal(s.offset))) + (header + Snapshot)), [])
    else Effect(s, Reply(NullBulk), [])
  }

  // Properties of one command.

  /** SET's optional `PX ms` part is present. */
  predicate HasPx(cmd: seq<Bytes>) {
    |cmd| > 3 && Lower(cmd[3]) == "px"
  }

  /** Every announced replica port is a number `int()` accepts. */
  predicate PortsParse(slaves: seq<Replica>) {
    forall i :: 0 <= i < |slaves| ==> ParseInt(slaves[i].port).Some?
  }

  /** SET k v always stores v under k. With `PX ms` the key expires at `now + ms`;
      without it any earlier expiry of k is kept as it was. */
  lemma SetStores(s: Store, cmd: seq<Bytes>, now: int, peer: Bytes)
    requires |cmd| >= 3 && Lower(cmd[0]) == "set"
    ensures var e := Step(s, cmd, now, peer);
      && e.store.cache == s.cache[cmd[1] := cmd[2]]
      && e.store.slaves == s.slaves && e.store.running == s.running
      && (!HasPx(cmd) ==> e.store.ttl == s.ttl)
      && (HasPx(cmd) && |cmd| >= 5 && ParseInt(cmd[4]).Some? ==>
            e.store.ttl == s.ttl[cmd[1] := now + ParseInt(cmd[4]).value])
  {
  }

  /** The reply to SET: `+OK` on a master, which also sends the command as an array to
      every replica in order; the initial `$-1` on a slave, which sends nothing. */
  lemma SetReplies(s: Store, cmd: seq<Bytes>, now: int, peer: Bytes)
    requires |cmd| >= 3 && Lower(cmd[0]) == "set"
    requires HasPx(cmd) ==> |cmd| >= 5 && ParseInt(cmd[4]).Some?
    ensures var e := Step(s, cmd, now, peer);
      && (s.role == Slave ==> e.outcome == Reply("$-1\r\n") && e.sends == [])
      && (s.role == Master && PortsParse(s.slaves) ==>
            && e.outcome == Reply("+OK\r\n")
            && |e.sends| == |s.slaves|
            && forall i :: 0 <= i < |e.sends| ==>
                 e.sends[i].host == s.slaves[i].host && e.sends[i].payload == Encode(AsSimpleArray(cmd)))
      && (s.role == Master && !PortsParse(s.slaves) ==> e.outcome == Closed)
  {
    assert Encode(Simple("OK")) == "+OK\r\n";
  }

  /** GET k first drops k from both maps when its expiry instant is before `now`,
      then answers with the stored value as a bulk string, or `$-1` when k is absent. */
  lemma GetExpires(s: Store, cmd: seq<Bytes>, now: int, peer: Bytes)
    requires Consistent(s) && |cmd| >= 2 && Lower(cmd[0]) == "get"
    ensures var k, e := cmd[1], Step(s, cmd, now, peer);
      && (k in s.ttl && s.ttl[k] < now ==>
            e.store == s.(cache := s.cache - {k}, ttl := s.ttl - {k}) && e.outcome == Reply("$-1\r\n"))
      && (!(k in s.ttl && s.ttl[k] < now) ==>
            && e.store == s
            && e.outcome == Reply(if k in s.cache then Encode(Bulk(s.cache[k])) else "$-1\r\n"))
      && e.sends == []
  {
  }

  /** SET k v PX ms followed by GET k: the value comes back up to and including the
      instant `now + ms`, and `$-1` after it, when the key is gone from both maps. */
  lemma SetPxThenGet(s: Store, k: Bytes, v: Bytes, ms: Bytes, t0: int, t1: int, peer: Bytes)
    requires ParseInt(ms).Some?
    ensures var e1 := Step(s, ["SET", k, v, "PX", ms], t0, peer);
      var e2 := Step(e1.store, ["GET", k], t1, peer);
      && (t1 <= t0 + ParseInt(ms).value ==> e2.outcome == Reply(Encode(Bulk(v))) && e2.store == e1.store)
      && (t1 > t0 + ParseInt(ms).value ==> e2.outcome == Reply("$-1\r\n") && k !in e2.store.cache && k !in e2.store.ttl)
  {
    SetPxStores(s, k, v, ms, t0, peer);
    GetWithExpiry(Step(s, ["SET", k, v, "PX", ms], t0, peer).store, k, t1, peer);
  }

  lemma SetPxStores(s: Store, k: Bytes, v: Bytes, ms: Bytes, t0: int, peer: Bytes)
    requires ParseInt(ms).Some?
    ensures var e := Step(s, ["SET", k, v, "PX", ms], t0, peer);
      && k in e.store.cache && e.store.cache[k] == v
      && k in e.store.ttl && e.store.ttl[k] == t0 + ParseInt(ms).value
  {
    var cmd: seq<Bytes> := ["SET", k, v, "PX", ms];
    assert Lower(cmd[0]) == "set" && Lower(cmd[3]) == "px";
    SetStores(s, cmd, t0, peer);
  }

  lemma GetWithExpiry(s: Store, k: Bytes, now: int, peer: Bytes)
    requires k in s.cache && k in s.ttl
    ensures var e := Step(s, ["GET", k], now, peer);
      && (now <= s.ttl[k] ==> e.outcome == Reply(Encode(Bulk(s.cache[k]))) && e.store == s)
      && (now > s.ttl[k] ==> e.outcome == Reply("$-1\r\n") && k !in e.store.cache && k !in e.store.ttl)
  {
    var get: seq<Bytes> := ["GET", k];
    assert Lower(get[0]) == "get";
    assert Step(s, get, now, peer) == Get(s, get, now);
  }

  /** DEL k removes a stored key and its expiry and replies `:1`; for an absent key it
      replies `:0` and changes nothing. */
  lemma DelRemoves(s: Store, cmd: seq<Bytes>, now: int, peer: Bytes)
    requires |cmd| >= 2 && Lower(cmd[0]) == "del"
    ensures var k, e := cmd[1], Step(s, cmd, now, peer);
      && (k in s.cache ==>
            e.store == s.(cache := s.cache - {k}, ttl := s.ttl - {k}) && e.outcome == Reply(":1\r\n"))
      && (k !in s.cache ==> e.store == s && e.outcome == Reply(":0\r\n"))
      && e.sends == []
  {
    assert Decimal(1) == "1" && Decimal(0) == "0";
  }

  /** EXISTS k replies `:1` exactly when k is in the cache, whatever its expiry, and
      changes nothing. */
  lemma ExistsReports(s: Store, cmd: seq<Bytes>, now: int, peer: Bytes)
    requires |cmd| >= 2 && Lower(cmd[0]) == "exists"
    ensures var e := Step(s, cmd, now, peer);
      && e.store == s && e.sends == []
      && e.outcome == Reply(if cmd[1] in s.cache then ":1\r\n" else ":0\r\n")
  {
    assert Decimal(1) == "1" && Decimal(0) == "0";
  }

  /** After DEL k, EXISTS k answers `:0`. */
  lemma DelThenExists(s: Store, k: Bytes, now: int, peer: Bytes)
    ensures var e1 := Step(s, ["DEL", k], now, peer);
      Step(e1.store, ["EXISTS", k], now, peer).outcome == Reply(":0\r\n")
  {
    var del: seq<Bytes> := ["DEL", k];
    var probe: seq<Bytes> := ["EXISTS", k];
    assert Lower(del[0]) == "del" && Lower(probe[0]) == "exists";
    DelRemoves(s, del, now, peer);
    ExistsReports(Step(s, del, now, peer).store, probe, now, peer);
  }

  /** REPLCONF listening-port p registers (peer host, p) at the end of SLAVES. */
  lemma ReplconfRegisters(s: Store, cmd: seq<Bytes>, now: int, peer: Bytes)
    requires |cmd| >= 3 && Lower(cmd[0]) == "replconf" && Lower(cmd[1]) == "listening-port"
    ensures var e := Step(s, cmd, now, peer);
      && e.store == s.(slaves := s.slaves + [Replica(peer, cmd[2])])
      && e.outcome == Reply("+OK\r\n") && e.sends == []
  {
  }

  /** REPLCONF getack answers the array [REPLECONF, ACK, 0]; capa and every other
      subcommand answer `+OK`; neither changes any state. */
  lemma ReplconfOthers(s: Store, cmd: seq<Bytes>, now: int, peer: Bytes)
    requires |cmd| >= 2 && Lower(cmd[0]) == "replconf" && Lower(cmd[1]) != "listening-port"
    ensures var e := Step(s, cmd, now, peer);
      && e.store == s && e.sends == []
      && (Lower(cmd[1]) == "getack" ==> e.outcome == Reply("*3\r\n" + ("+REPLECONF\r\n" + ("+ACK\r\n" + ":0\r\n"))))
      && (Lower(cmd[1]) != "getack" ==> e.outcome == Reply("+OK\r\n"))
  {
    assert VerbOf(Lower(cmd[0])) == ReplconfVerb;
    GetackBytes();
  }

  lemma GetackBytes()
    ensures Encode(Array([Simple("REPLECONF"), Simple("ACK"), Int(0)]))
      == "*3\r\n" + ("+REPLECONF\r\n" + ("+ACK\r\n" + ":0\r\n"))
  {
    GetackBody();
    assert Decimal(3) == "3";
    assert "*" + "3" + CRLF == "*3\r\n";
  }

  lemma GetackBody()
    ensures EncodeAll([Simple("REPLECONF"), Simple("ACK"), Int(0)]) == "+REPLECONF\r\n" + ("+ACK\r\n" + ":0\r\n")
  {
    var vs := [Simple("REPLECONF"), Simple("ACK"), Int(0)];
    AckTail();
    assert vs[1..] == [Simple("ACK"), Int(0)];
  }

  lemma AckTail()
    ensures EncodeAll([Simple("ACK"), Int(0)]) == "+ACK\r\n" + ":0\r\n"
  {
    var vs := [Simple("ACK"), Int(0)];
    assert Decimal(0) == "0";
    assert vs[1..] == [Int(0)];
    assert EncodeAll(vs[1..]) == ":0\r\n";
  }

  /** The snapshot is 88 bytes that a decoder takes for the opaque marker. */
  lemma SnapshotIsOpaque()
    ensures |Snapshot| == 88 && StartsWith(Snapshot, "REDIS")
    ensures Decode(Snapshot) == Decoded(IgnoreMarker, None)
  {
    assert Snapshot[..5] == "REDIS";
    LeadingByte(Snapshot);
  }

  /** PSYNC ? answers `+FULLRESYNC <replid> <offset>` and, in the same reply, `$88`
      and the snapshot bytes, with nothing after them. */
  lemma PsyncFullResync(s: Store, cmd: seq<Bytes>, now: int, peer: Bytes)
    requires |cmd| >= 2 && Lower(cmd[0]) == "psync" && cmd[1] == "?"
    ensures var e := Step(s, cmd, now, peer);
      && e.store == s && e.sends == []
      && e.outcome == Reply(Encode(Simple("FULLRESYNC " + s.replid + " " + Decimal(s.offset))) + ("$88\r\n" + Snapshot))
  {
    assert VerbOf(Lower(cmd[0])) == PsyncVerb;
    assert Step(s, cmd, now, peer) == Psync(s, cmd);
    SnapshotHeader();
  }

  lemma SnapshotHeader()
    ensures "$" + Decimal(|Snapshot|) + CRLF == "$88\r\n"
  {
    SnapshotIsOpaque();
    assert Decimal(88) == "88";
  }

  /** PING answers `+PONG`; ECHO m answers m as a bulk string, which decodes to m. */
  lemma PingEcho(s: Store, cmd: seq<Bytes>, now: int, peer: Bytes)
    requires cmd != [] && (Lower(cmd[0]) == "ping" || (Lower(cmd[0]) == "echo" && |cmd| >= 2))
    ensures var e := Step(s, cmd, now, peer);
      && e.store == s && e.sends == [] && e.outcome.Reply?
      && (Lower(cmd[0]) == "ping" ==> e.outcome.bytes == "+PONG\r\n")
      && (Lower(cmd[0]) == "echo" ==> Decode(e.outcome.bytes) == Decoded(Bulk(cmd[1]), Some([])))
  {
    if Lower(cmd[0]) == "echo" {
      DecodeEncode(Bulk(cmd[1]));
    }
  }

  /** Any other verb, `ignore` among them, is skipped: no reply, no state change.
      The verbs `unknown` and `fullresync` answer `$-1` and change nothing. */
  lemma UnrecognisedVerbs(s: Store, cmd: seq<Bytes>, now: int, peer: Bytes)
    requires cmd != []
    ensures Lower(cmd[0]) !in {"ping", "echo", "set", "del", "get", "info", "replconf", "psync",
                               "fullresync", "exists", "shutdown", "unknown"} ==>
      Step(s, cmd, now, peer) == Effect(s, NoReply, [])
    ensures Lower(cmd[0]) == "unknown" || Lower(cmd[0]) == "fullresync" ==>
      Step(s, cmd, now, peer) == Effect(s, Reply("$-1\r\n"), [])
  {
  }

  /** The INFO reply is one well-formed simple string that reads back as the INFO
      line, as long as the replication id holds no carriage return. */
  lemma InfoDecodes(s: Store)
    requires NoCr(s.replid)
    ensures Decode(Encode(Simple(Info(s)))) == Decoded(Simple(Info(s)), Some([]))
  {
    var d1, d2 := Decimal(|s.slaves|), Decimal(s.offset);
    assert NoCr(d1) && NoCr(d2);
    var a := "role:" + RoleName(s.role) + ", connected_slaves:";
    assert NoCr(a);
    NoCrJoin(a, d1);
    NoCrJoin(a + d1, ", master_replid:");
    NoCrJoin(a + d1 + ", master_replid:", s.replid);
    NoCrJoin(a + d1 + ", master_replid:" + s.replid, ", master_repl_offset:");
    NoCrJoin(a + d1 + ", master_replid:" + s.replid + ", master_repl_offset:", d2);
    DecodeEncode(Simple(Info(s)));
  }

  /** No carriage return occurs: nothing can end a simple string early. */
  predicate NoCr(t: Bytes) { forall k :: 0 <= k < |t| ==> t[k] != '\r' }

  lemma NoCrJoin(a: Bytes, b: Bytes)
    requires NoCr(a) && NoCr(b)
    ensures NoCr(a + b) && NoCrlf(a + b)
  {
    assert forall k :: 0 <= k < |a + b| ==> (a + b)[k] == if k < |a| then a[k] else b[k - |a|];
  }

  /** SHUTDOWN clears the running flag and answers `+OK`. */
  lemma ShutdownStops(s: Store, cmd: seq<Bytes>, now: int, peer: Bytes)
    requires cmd != [] && Lower(cmd[0]) == "shutdown"
    ensures Step(s, cmd, now, peer) == Effect(s.(running := false), Reply("+OK\r\n"), [])
  {
    assert Encode(Simple("OK")) == "+OK\r\n";
  }

  /** INFO answers one simple string with the role, replica count, id and offset. */
  lemma InfoReports(s: Store, cmd: seq<Bytes>, now: int, peer: Bytes)
    requires cmd != [] && Lower(cmd[0]) == "info"
    ensures Step(s, cmd, now, peer) == Effect(s, Reply("+" + Info(s) + "\r\n"), [])
  {
    assert VerbOf(Lower(cmd[0])) == InfoVerb;
  }
}
