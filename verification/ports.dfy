/**
 * Backend port allocation. Both session tables pick the port for a new
 * backend by one scan over the live ports: start from the floor 5202 and,
 * whenever a live port is at least the running candidate, move the
 * candidate to one past it. The result is one past the largest live port,
 * but never below the floor.
 */
module Ports {
  import opened Seqs

  /** The first port handed to a backend (one above the listener's 5201). */
  const Floor: int := 5202

  /** The scan, as a left fold over the live ports in table order. */
  function NextPort(ports: seq<int>): (r: int)
    ensures r >= Floor
    ensures forall i :: 0 <= i < |ports| ==> ports[i] < r
    ensures r == Floor || exists i :: 0 <= i < |ports| && r == ports[i] + 1
  {
    if |ports| == 0 then Floor
    else
      var prev := NextPort(ports[..|ports| - 1]);
      var p := ports[|ports| - 1];
      if p >= prev then p + 1 else prev
  }

  /** The largest live port: an independent reference for the scan. */
  function Max(ports: seq<int>): (m: int)
    requires |ports| > 0
    ensures m in ports
    ensures forall i :: 0 <= i < |ports| ==> ports[i] <= m
  {
    if |ports| == 1 then ports[0]
    else
      var rest := Max(ports[1..]);
      if ports[0] >= rest then ports[0] else rest
  }

  /** The scan yields the floor on an empty table, and otherwise the larger
      of the floor and one past the largest live port. */
  lemma NextPortIsMaxPlusOne(ports: seq<int>)
    ensures |ports| == 0 ==> NextPort(ports) == Floor
    ensures |ports| > 0 ==>
      NextPort(ports) == if Max(ports) + 1 > Floor then Max(ports) + 1 else Floor
  {
  }

  /** The scan yields the least value that is at least the floor and above
      every live port; no smaller value would avoid a live port. */
  lemma NextPortIsLeast(ports: seq<int>, x: int)
    requires x >= Floor
    requires forall i :: 0 <= i < |ports| ==> ports[i] < x
    ensures NextPort(ports) <= x
  {
  }

  /** A set of integers inside the half-open range [lo, hi) has at most
      hi - lo members. */
  lemma {:induction false} RangeBound(s: set<int>, lo: int, hi: int)
    requires forall x :: x in s ==> lo <= x < hi
    ensures |s| <= if hi > lo then hi - lo else 0
    decreases hi - lo
  {
    if hi <= lo {
      assert s == {};
    } else {
      var s' := s - {hi - 1};
      RangeBound(s', lo, hi - 1);
    }
  }

  /** When the live ports are distinct and all at least the floor, as the
      allocation rule keeps them, the n-th live session pushes the next port
      to at least Floor + n. */
  lemma NextPortAboveCount(ports: seq<int>)
    requires Distinct(ports)
    requires forall i :: 0 <= i < |ports| ==> ports[i] >= Floor
    ensures NextPort(ports) >= Floor + |ports|
  {
    var r := NextPort(ports);
    var s := set i | 0 <= i < |ports| :: ports[i];
    DistinctCard(ports);
    RangeBound(s, Floor, r);
  }
}
