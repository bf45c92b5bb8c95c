/**
 * The session table of internal/session/session.go. Sessions are keyed by
 * the iperf handshake cookie; lookup returns the first session with the
 * cookie, Add appends, and Remove drops every entry equal to the given
 * session (Go struct equality, which compares every field including the
 * process handle). The mutex around Add and Remove is left out: each
 * operation is one atomic step.
 */
module SessionTable {
  import opened Process
  import opened Seqs
  import opened Ports

  /** One binding: client address, backend port, handshake cookie and
      backend process. */
  datatype Session = Session(client: string, iperfPort: int, iperfCookie: string, iperf: Handle)

  /** The live sessions, in the order they were added. */
  type Sessions = seq<Session>

  /** Go's zero value of Session, returned by a lookup that misses. */
  const ZeroSession: Session := Session("", 0, "", NilHandle)

  /** A session belongs to a cookie when it recorded that cookie. */
  predicate ContainsClient(s: Session, cookie: string)
  {
    s.iperfCookie == cookie
  }

  function PortsOf(t: Sessions): (ps: seq<int>)
    ensures |ps| == |t|
    ensures forall i :: 0 <= i < |t| ==> ps[i] == t[i].iperfPort
  {
    seq(|t|, i requires 0 <= i < |t| => t[i].iperfPort)
  }

  /** GetNextPort: never below the floor and above every live port, and
      either the floor itself or one past a live port. */
  function GetNextPort(t: Sessions): (r: int)
    ensures r >= Floor
    ensures forall i :: 0 <= i < |t| ==> t[i].iperfPort < r
    ensures r == Floor || exists i :: 0 <= i < |t| && r == t[i].iperfPort + 1
  {
    NextPort(PortsOf(t))
  }

  /** Get: the first session with the cookie and true, or the zero session
      and false when no session has it. */
  function Get(t: Sessions, cookie: string): (r: (Session, bool))
    ensures r.1 <==> exists i :: 0 <= i < |t| && ContainsClient(t[i], cookie)
    ensures r.1 ==> exists i :: (0 <= i < |t| && t[i] == r.0 && ContainsClient(r.0, cookie)
      && forall j :: 0 <= j < i ==> !ContainsClient(t[j], cookie))
    ensures !r.1 ==> r.0 == ZeroSession
  {
    if |t| == 0 then (ZeroSession, false)
    else if ContainsClient(t[0], cookie) then (t[0], true)
    else
      var r := Get(t[1..], cookie);
      assert forall i :: 1 <= i < |t| ==> t[i] == t[1..][i - 1];
      r
  }

  /** Count: the number of live sessions. It is zero only for the empty
      table, and in a valid table it is the number of distinct live cookies,
      that is, of tests in progress. */
  function Count(t: Sessions): (n: nat)
    ensures n == 0 <==> t == []
    ensures Valid(t) ==> n == |set i | 0 <= i < |t| :: t[i].iperfCookie|
  {
    assert Valid(t) ==> |t| == |set i | 0 <= i < |t| :: t[i].iperfCookie| by {
      if Valid(t) {
        CookiesCard(t);
      }
    }
    |t|
  }

  /** In a valid table the cookies are pairwise different, so there are as
      many distinct cookies as sessions. */
  lemma CookiesCard(t: Sessions)
    requires Valid(t)
    ensures |set i | 0 <= i < |t| :: t[i].iperfCookie| == |t|
  {
    var cookies := seq(|t|, i requires 0 <= i < |t| => t[i].iperfCookie);
    assert Distinct(cookies) by {
      forall i, j | 0 <= i < j < |cookies| ensures cookies[i] != cookies[j] {
        assert Compatible(t[i], t[j]);
      }
    }
    DistinctCard(cookies);
    var a := set i | 0 <= i < |cookies| :: cookies[i];
    var b := set i | 0 <= i < |t| :: t[i].iperfCookie;
    forall x | x in b ensures x in a {
      var i :| 0 <= i < |t| && t[i].iperfCookie == x;
      assert cookies[i] == x;
    }
    assert a == b;
  }

  /** Add appends: one more session, the new one last, the others as they
      were. */
  function Add(t: Sessions, s: Session): (r: Sessions)
    ensures Count(r) == Count(t) + 1
    ensures r[Count(t)] == s
    ensures r[..Count(t)] == t
  {
    t + [s]
  }

  /** The filter test of Remove: keep entries that differ from `s`. */
  function Differs(s: Session): Session -> bool
  {
    (x: Session) => x != s
  }

  /** Remove: no entry equal to `s` is left, every other entry stays, and
      nothing new appears. */
  function Remove(t: Sessions, s: Session): (r: Sessions)
    ensures forall i :: 0 <= i < |r| ==> r[i] != s && r[i] in t
    ensures forall i :: 0 <= i < |t| && t[i] != s ==> t[i] in r
  {
    Filter(t, Differs(s))
  }

  /** The survivors of Remove keep their relative order: removal from a
      concatenation is the concatenation of the removals. */
  lemma RemoveKeepsOrder(a: Sessions, b: Sessions, s: Session)
    ensures Remove(a + b, s) == Remove(a, s) + Remove(b, s)
  {
    FilterConcat(a, b, Differs(s));
  }

  /** Every copy of every other session stays; no copy of `s` does. */
  lemma RemoveExact(t: Sessions, s: Session, x: Session)
    ensures multiset(Remove(t, s))[x] == if x == s then 0 else multiset(t)[x]
  {
    FilterMultiplicity(t, Differs(s), x);
  }

  /** The count drops by the number of copies of `s` in the table. */
  lemma {:induction false} RemoveCount(t: Sessions, s: Session)
    ensures Count(Remove(t, s)) == Count(t) - multiset(t)[s]
  {
    if |t| > 0 {
      RemoveCount(t[1..], s);
      assert t == [t[0]] + t[1..];
      assert multiset(t) == multiset([t[0]]) + multiset(t[1..]);
    }
  }

  /** Removing twice is removing once. */
  lemma RemoveIdempotent(t: Sessions, s: Session)
    ensures Remove(Remove(t, s), s) == Remove(t, s)
  {
    FilterIdempotent(t, Differs(s));
  }

  /** Remove changes nothing exactly when `s` is absent. */
  lemma RemoveUnchanged(t: Sessions, s: Session)
    ensures Remove(t, s) == t <==> s !in t
  {
    FilterKeepsAll(t, Differs(s));
  }

  /** Two sessions may share the table: different ports and cookies. */
  predicate Compatible(a: Session, b: Session)
  {
    a.iperfPort != b.iperfPort && a.iperfCookie != b.iperfCookie
  }

  /** The table invariant: live ports pairwise distinct, at most one session
      per cookie, and every port allocated by the rule, so at least the
      floor. */
  predicate Valid(t: Sessions)
  {
    && Pairwise(t, Compatible)
    && forall i :: 0 <= i < |t| ==> t[i].iperfPort >= Floor
  }

  /** Adding a session for a cookie that Get did not find, on the port
      GetNextPort chose, keeps the invariant. */
  lemma AddAfterMissPreservesValid(t: Sessions, client: string, cookie: string, cmd: Handle)
    requires Valid(t)
    requires !Get(t, cookie).1
    ensures Valid(Add(t, Session(client, GetNextPort(t), cookie, cmd)))
  {
    var u := Add(t, Session(client, GetNextPort(t), cookie, cmd));
    forall i, j | 0 <= i < j < |u| ensures Compatible(u[i], u[j]) {
      assert u[i] == t[i];
      if j < |t| {
        assert u[j] == t[j];
      }
    }
  }

  /** Removing any session keeps the invariant. */
  lemma RemovePreservesValid(t: Sessions, s: Session)
    requires Valid(t)
    ensures Valid(Remove(t, s))
  {
    FilterPairwise(t, Differs(s), Compatible);
  }

  /** In a valid table the first session with a cookie is the only one. */
  lemma GetFindsTheOnlyMatch(t: Sessions, i: nat)
    requires Valid(t)
    requires i < |t|
    ensures Get(t, t[i].iperfCookie) == (t[i], true)
  {
    var r := Get(t, t[i].iperfCookie);
    var k :| 0 <= k < |t| && t[k] == r.0 && ContainsClient(r.0, t[i].iperfCookie)
      && forall j :: 0 <= j < k ==> !ContainsClient(t[j], t[i].iperfCookie);
    assert k <= i;
    assert k < i ==> Compatible(t[k], t[i]);
  }

  /** Get after Add: an earlier session with the cookie still wins;
      otherwise the added session is found when it has the cookie. */
  lemma {:induction false} GetAfterAdd(t: Sessions, s: Session, cookie: string)
    ensures Get(Add(t, s), cookie) ==
      if Get(t, cookie).1 then Get(t, cookie)
      else if ContainsClient(s, cookie) then (s, true)
      else (ZeroSession, false)
  {
    if |t| > 0 {
      assert Add(t, s)[1..] == Add(t[1..], s);
      GetAfterAdd(t[1..], s, cookie);
    }
  }

  /** Once the session a cookie maps to is removed from a valid table, the
      cookie is no longer found. */
  lemma GetAfterRemove(t: Sessions, cookie: string)
    requires Valid(t)
    requires Get(t, cookie).1
    ensures !Get(Remove(t, Get(t, cookie).0), cookie).1
  {
    var s := Get(t, cookie).0;
    var u := Remove(t, s);
    forall i | 0 <= i < |u| ensures !ContainsClient(u[i], cookie) {
      var k :| 0 <= k < |t| && t[k] == u[i];
      if ContainsClient(u[i], cookie) {
        GetFindsTheOnlyMatch(t, k);
      }
    }
  }

  /** Under the invariant, the port for the n-th live session is at least
      Floor + n. */
  lemma NextPortAboveLiveCount(t: Sessions)
    requires Valid(t)
    ensures GetNextPort(t) >= Floor + Count(t)
  {
    var ps := PortsOf(t);
    assert Distinct(ps) by {
      forall i, j | 0 <= i < j < |ps| ensures ps[i] != ps[j] {
        assert Compatible(t[i], t[j]);
      }
    }
    NextPortAboveCount(ps);
  }

  /** A concrete history: cookie T1 on an empty table gets port 5202, a
      second lookup of T1 finds that session, and cookie T2 gets 5203. */
  lemma AllocationScenario()
    ensures GetNextPort([]) == 5202
    ensures var t := Add([], Session("a", 5202, "T1", Cmd(1)));
      Get(t, "T1") == (Session("a", 5202, "T1", Cmd(1)), true)
      && !Get(t, "T2").1
      && GetNextPort(t) == 5203
  {
    var t := Add([], Session("a", 5202, "T1", Cmd(1)));
    assert t == [Session("a", 5202, "T1", Cmd(1))];
    assert t[1..] == [];
    assert Get(t, "T1") == (t[0], true);
    assert Get(t, "T2") == Get(t[1..], "T2");
    assert PortsOf(t) == [5202];
    assert [5202][..0] == [];
  }
}
