/**
 * The session table of the router in main.go. Sessions are keyed by the
 * client's IP address; the accept loop looks the client up, and on a miss
 * appends a session on a freshly allocated port. When the backend process
 * exits, its session is removed by comparing process handles.
 */
module LegacyRouter {
  import opened Process
  import opened Options
  import opened Seqs
  import opened Ports

  /** One client binding: client IP, backend port and backend process. */
  datatype Session = Session(client: string, iperfPort: int, iperf: Handle)

  /** The table is a plain slice of sessions, in insertion order. */
  type Sessions = seq<Session>

  /** A session belongs to a client when its recorded IP is the client's. */
  predicate ContainsClient(s: Session, ip: string)
  {
    s.client == ip
  }

  function PortsOf(t: Sessions): (ps: seq<int>)
    ensures |ps| == |t|
    ensures forall i :: 0 <= i < |t| ==> ps[i] == t[i].iperfPort
  {
    seq(|t|, i requires 0 <= i < |t| => t[i].iperfPort)
  }

  /** The port for a new backend: never below the floor and above every
      live port, and either the floor itself or one past a live port. */
  function GetNextPort(t: Sessions): (r: int)
    ensures r >= Floor
    ensures forall i :: 0 <= i < |t| ==> t[i].iperfPort < r
    ensures r == Floor || exists i :: 0 <= i < |t| && r == t[i].iperfPort + 1
  {
    NextPort(PortsOf(t))
  }

  /** The filter test of removeSession: keep sessions not run by `cmd`. */
  function Survives(cmd: Handle): Session -> bool
  {
    (s: Session) => s.iperf != cmd
  }

  /** removeSession: a nil handle leaves the table alone; otherwise every
      session run by `cmd` is dropped and every other session is kept. */
  function RemoveSession(t: Sessions, cmd: Handle): (r: Sessions)
    ensures cmd == NilHandle ==> r == t
    ensures forall i :: 0 <= i < |r| ==> r[i] in t
    ensures cmd != NilHandle ==> forall i :: 0 <= i < |r| ==> r[i].iperf != cmd
    ensures forall i :: 0 <= i < |t| && t[i].iperf != cmd ==> t[i] in r
  {
    if cmd == NilHandle then t else Filter(t, Survives(cmd))
  }

  /** Removal works element by element: the survivors keep their relative
      order, and removal from a concatenation is the concatenation of the
      removals. */
  lemma RemoveSessionKeepsOrder(a: Sessions, b: Sessions, cmd: Handle)
    ensures RemoveSession(a + b, cmd) == RemoveSession(a, cmd) + RemoveSession(b, cmd)
  {
    if cmd != NilHandle {
      FilterConcat(a, b, Survives(cmd));
    }
  }

  /** For a non-nil handle, exactly the sessions run by it disappear; every
      copy of every other session stays. */
  lemma RemoveSessionExact(t: Sessions, cmd: Handle, s: Session)
    requires cmd != NilHandle
    ensures multiset(RemoveSession(t, cmd))[s] == if s.iperf == cmd then 0 else multiset(t)[s]
  {
    FilterMultiplicity(t, Survives(cmd), s);
  }

  /** Removing twice is removing once. */
  lemma RemoveSessionIdempotent(t: Sessions, cmd: Handle)
    ensures RemoveSession(RemoveSession(t, cmd), cmd) == RemoveSession(t, cmd)
  {
    if cmd != NilHandle {
      FilterIdempotent(t, Survives(cmd));
    }
  }

  /** The table is unchanged exactly when the handle is nil or runs no
      session. */
  lemma RemoveSessionUnchanged(t: Sessions, cmd: Handle)
    ensures RemoveSession(t, cmd) == t <==>
      cmd == NilHandle || forall i :: 0 <= i < |t| ==> t[i].iperf != cmd
  {
    if cmd != NilHandle {
      FilterKeepsAll(t, Survives(cmd));
    }
  }

  /** The last session of the client, as the lookup loop finds it: it does
      not stop at a match, so a later match overrides an earlier one. */
  function FindLast(t: Sessions, ip: string): (r: Option<nat>)
    ensures r.None? <==> forall i :: 0 <= i < |t| ==> !ContainsClient(t[i], ip)
    ensures r.Some? ==> r.value < |t| && ContainsClient(t[r.value], ip)
    ensures r.Some? ==> forall j :: r.value < j < |t| ==> !ContainsClient(t[j], ip)
  {
    if |t| == 0 then None
    else if ContainsClient(t[|t| - 1], ip) then Some(|t| - 1)
    else FindLast(t[..|t| - 1], ip)
  }

  /** The lookup loop of the accept handler: scan every session, and on each
      match record its port and set the found flag. */
  method LookupLoop(t: Sessions, ip: string) returns (upstreamPort: int, found: bool)
    ensures found <==> exists i :: 0 <= i < |t| && ContainsClient(t[i], ip)
    ensures found ==> FindLast(t, ip).Some? && upstreamPort == t[FindLast(t, ip).value].iperfPort
  {
    upstreamPort, found := 0, false;
    for i := 0 to |t|
      invariant found <==> FindLast(t[..i], ip).Some?
      invariant found ==> upstreamPort == t[FindLast(t[..i], ip).value].iperfPort
    {
      assert t[..i + 1][..i] == t[..i];
      if ContainsClient(t[i], ip) {
        upstreamPort := t[i].iperfPort;
        found := true;
      }
    }
    assert t[..|t|] == t;
  }

  /** The outcome of routing one accepted connection. */
  datatype Routed = Routed(table: Sessions, upstreamPort: int, spawned: bool)

  /** The lookup-or-insert step of the accept handler. On a hit the client
      goes to the port of its last session and the table is unchanged; on a
      miss a session for the client, on the next port and run by the new
      process `cmd`, is appended. */
  function Route(t: Sessions, ip: string, cmd: Handle): (r: Routed)
    ensures r.spawned <==> forall i :: 0 <= i < |t| ==> !ContainsClient(t[i], ip)
    ensures !r.spawned ==> r.table == t
    ensures !r.spawned ==>
      exists i :: (0 <= i < |t| && ContainsClient(t[i], ip)
        && r.upstreamPort == t[i].iperfPort
        && forall j :: i < j < |t| ==> !ContainsClient(t[j], ip))
    ensures r.spawned ==> r.table == t + [Session(ip, r.upstreamPort, cmd)]
    ensures r.spawned ==> r.upstreamPort == GetNextPort(t)
    ensures r.spawned ==> r.upstreamPort >= Floor
    ensures r.spawned ==> r.upstreamPort == Floor || exists i :: 0 <= i < |t| && r.upstreamPort == t[i].iperfPort + 1
    ensures r.spawned ==> forall i :: 0 <= i < |t| ==> t[i].iperfPort < r.upstreamPort
  {
    match FindLast(t, ip)
    case Some(i) => Routed(t, t[i].iperfPort, false)
    case None =>
      var port := GetNextPort(t);
      Routed(t + [Session(ip, port, cmd)], port, true)
  }

  /** Two sessions may share the table: different ports, clients and
      processes. */
  predicate Compatible(a: Session, b: Session)
  {
    a.iperfPort != b.iperfPort && a.client != b.client && a.iperf != b.iperf
  }

  /** The table invariant: live ports pairwise distinct, at most one session
      per client, one process per session, and every port allocated by the
      rule, so at least the floor. */
  predicate Valid(t: Sessions)
  {
    && Pairwise(t, Compatible)
    && forall i :: 0 <= i < |t| ==> t[i].iperfPort >= Floor && t[i].iperf.Cmd?
  }

  /** `cmd` is a process no live session runs, as a new `*exec.Cmd` is. */
  predicate Unused(cmd: Handle, t: Sessions)
  {
    cmd.Cmd? && forall i :: 0 <= i < |t| ==> t[i].iperf != cmd
  }

  /** Routing a connection with a new process keeps the invariant. */
  lemma RoutePreservesValid(t: Sessions, ip: string, cmd: Handle)
    requires Valid(t)
    requires Unused(cmd, t)
    ensures Valid(Route(t, ip, cmd).table)
  {
    var r := Route(t, ip, cmd);
    if r.spawned {
      var u := r.table;
      forall i, j | 0 <= i < j < |u| ensures Compatible(u[i], u[j]) {
        if j == |t| {
          assert u[i] == t[i];
        } else {
          assert u[i] == t[i] && u[j] == t[j];
        }
      }
    }
  }

  /** Removing a process's sessions keeps the invariant. */
  lemma RemovePreservesValid(t: Sessions, cmd: Handle)
    requires Valid(t)
    ensures Valid(RemoveSession(t, cmd))
  {
    if cmd != NilHandle {
      FilterPairwise(t, Survives(cmd), Compatible);
    }
  }

  /** In a valid table the lookup of a session's client IP finds exactly
      that session: the client test singles out one entry. */
  lemma FindLastOnlyMatch(t: Sessions, k: nat)
    requires Valid(t)
    requires k < |t|
    ensures FindLast(t, t[k].client) == Some(k)
  {
    assert forall j :: k < j < |t| ==> Compatible(t[k], t[j]);
  }

  /** In a valid table no other session shares a session's process. */
  lemma HandleRunsOneSession(t: Sessions, k: nat)
    requires Valid(t)
    requires k < |t|
    ensures forall i :: 0 <= i < |t| && i != k ==> t[i].iperf != t[k].iperf
  {
    forall i | 0 <= i < |t| && i != k ensures t[i].iperf != t[k].iperf {
      if i < k {
        assert Compatible(t[i], t[k]);
      } else {
        assert Compatible(t[k], t[i]);
      }
    }
  }

  /** In a valid table a process runs exactly one session, so removal by
      its handle cuts out exactly that one entry. */
  lemma RemoveSessionRemovesOne(t: Sessions, k: nat)
    requires Valid(t)
    requires k < |t|
    ensures RemoveSession(t, t[k].iperf) == t[..k] + t[k + 1..]
  {
    HandleRunsOneSession(t, k);
    FilterDropsOne(t, Survives(t[k].iperf), k);
  }

  /** The cleanup of the reaper goroutine: scan a snapshot of the table and
      re-run removeSession each time a session with the exited process is
      seen. */
  method ReapLoop(t: Sessions, cmd: Handle) returns (r: Sessions)
    ensures r == RemoveSession(t, cmd)
    ensures cmd != NilHandle ==> forall i :: 0 <= i < |r| ==> r[i].iperf != cmd
    ensures (forall i :: 0 <= i < |t| ==> t[i].iperf != cmd) ==> r == t
  {
    r := t;
    for i := 0 to |t|
      invariant r == if exists j :: 0 <= j < i && t[j].iperf == cmd then RemoveSession(t, cmd) else t
    {
      if t[i].iperf == cmd {
        RemoveSessionIdempotent(t, cmd);
        r := RemoveSession(r, cmd);
      }
    }
    RemoveSessionUnchanged(t, cmd);
  }

  /** Under the invariant, the port for the n-th live session is at least
      Floor + n. */
  lemma NextPortAboveLiveCount(t: Sessions)
    requires Valid(t)
    ensures GetNextPort(t) >= Floor + |t|
  {
    var ps := PortsOf(t);
    assert Distinct(ps) by {
      forall i, j | 0 <= i < j < |ps| ensures ps[i] != ps[j] {
        assert Compatible(t[i], t[j]);
      }
    }
    NextPortAboveCount(ps);
  }

  /** Two connections of the same client while its session lives go to the
      same port, and only the first spawns a process. */
  lemma RouteIsSticky(t: Sessions, ip: string, cmd1: Handle, cmd2: Handle)
    ensures var r1 := Route(t, ip, cmd1);
      var r2 := Route(r1.table, ip, cmd2);
      !r2.spawned && r2.table == r1.table && r2.upstreamPort == r1.upstreamPort
  {
    var r1 := Route(t, ip, cmd1);
    if r1.spawned {
      assert r1.table[|t|] == Session(ip, r1.upstreamPort, cmd1);
      assert FindLast(r1.table, ip) == Some(|t|);
    } else {
      var i := FindLast(t, ip).value;
      assert r1.upstreamPort == t[i].iperfPort;
    }
  }

  /** Connections of two different clients go to different ports. */
  lemma DistinctClientsDistinctPorts(t: Sessions, ip1: string, cmd1: Handle, ip2: string, cmd2: Handle)
    requires Valid(t)
    requires ip1 != ip2
    requires Unused(cmd1, t)
    ensures Route(Route(t, ip1, cmd1).table, ip2, cmd2).upstreamPort != Route(t, ip1, cmd1).upstreamPort
  {
    var r1 := Route(t, ip1, cmd1);
    var r2 := Route(r1.table, ip2, cmd2);
    var u := r1.table;
    if r1.spawned {
      assert ContainsClient(u[|t|], ip1) && u[|t|].iperfPort == r1.upstreamPort;
    }
    var i1 :| 0 <= i1 < |u| && ContainsClient(u[i1], ip1) && u[i1].iperfPort == r1.upstreamPort;
    if !r2.spawned {
      var i2 :| 0 <= i2 < |u| && ContainsClient(u[i2], ip2) && u[i2].iperfPort == r2.upstreamPort;
      RoutePreservesValid(t, ip1, cmd1);
      if i1 < i2 {
        assert Compatible(u[i1], u[i2]);
      } else {
        assert Compatible(u[i2], u[i1]);
      }
    }
  }

  /** One thing that happens to the table: a connection is accepted from a
      client (with the process that would be started for it), or a backend
      process exits and is reaped. */
  datatype Event = Connect(ip: string, cmd: Handle) | Exit(cmd: Handle)

  function Step(t: Sessions, e: Event): Sessions
  {
    match e
    case Connect(ip, cmd) => Route(t, ip, cmd).table
    case Exit(cmd) => RemoveSession(t, cmd)
  }

  function Run(t: Sessions, events: seq<Event>): Sessions
    decreases |events|
  {
    if |events| == 0 then t else Run(Step(t, events[0]), events[1..])
  }

  /** Every connection in the history comes with its own new process. */
  predicate FreshCommands(t: Sessions, events: seq<Event>)
  {
    && (forall k :: 0 <= k < |events| && events[k].Connect? ==> Unused(events[k].cmd, t))
    && (forall k, l :: 0 <= k < l < |events| && events[k].Connect? && events[l].Connect? ==>
          events[k].cmd != events[l].cmd)
  }

  /** Any history of connections and process exits keeps the invariant. */
  lemma {:induction false} RunPreservesValid(t: Sessions, events: seq<Event>)
    requires Valid(t)
    requires FreshCommands(t, events)
    ensures Valid(Run(t, events))
    decreases |events|
  {
    if |events| > 0 {
      var e := events[0];
      var t' := Step(t, e);
      match e {
        case Connect(ip, cmd) =>
          assert Unused(cmd, t);
          RoutePreservesValid(t, ip, cmd);
        case Exit(cmd) =>
          RemovePreservesValid(t, cmd);
      }
      var rest := events[1..];
      forall k | 0 <= k < |rest| && rest[k].Connect? ensures Unused(rest[k].cmd, t') {
        assert events[k + 1] == rest[k];
        assert Unused(rest[k].cmd, t);
        forall i | 0 <= i < |t'| ensures t'[i].iperf != rest[k].cmd {
          if !(t'[i] in t) {
            assert e.Connect? && t'[i].iperf == e.cmd;
          }
        }
      }
      forall k, l | 0 <= k < l < |rest| && rest[k].Connect? && rest[l].Connect?
        ensures rest[k].cmd != rest[l].cmd
      {
        assert events[k + 1] == rest[k] && events[l + 1] == rest[l];
      }
      RunPreservesValid(t', rest);
    }
  }

  /** Starting from the empty table, any history keeps the invariant. */
  lemma RunFromEmptyIsValid(events: seq<Event>)
    requires FreshCommands([], events)
    ensures Valid(Run([], events))
  {
    RunPreservesValid([], events);
  }

  /** A concrete history: client A gets port 5202, a second connection of A
      reuses it without a new process, and client B gets port 5203. */
  lemma RouteScenario()
    ensures Route([], "A", Cmd(1)) == Routed([Session("A", 5202, Cmd(1))], 5202, true)
    ensures Route([Session("A", 5202, Cmd(1))], "A", Cmd(2)).upstreamPort == 5202
    ensures !Route([Session("A", 5202, Cmd(1))], "A", Cmd(2)).spawned
    ensures Route([Session("A", 5202, Cmd(1))], "B", Cmd(3)).upstreamPort == 5203
  {
    var t := [Session("A", 5202, Cmd(1))];
    assert PortsOf(t) == [5202];
    assert [5202][..0] == [];
  }
}
