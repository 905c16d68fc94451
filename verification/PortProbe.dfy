/** Deterministic port allocation by circular probing of a range. */
module PortProbe {
  import opened Prelude

  /** The i-th port probed: base plus i, wrapping inside [start, start + span). */
  function Probe(start: int, span: nat, base: nat, i: nat): int
    requires span > 0
  {
    start + (base + i) % span
  }

  /** The stable hash of a branch, reduced to the range; the digest itself is a parameter. */
  function HashOffset(digest: nat, span: nat): (r: nat)
    requires span > 0
    ensures r < span && exists turns: nat :: digest == span * turns + r
  {
    assert digest == span * (digest / span) + digest % span;
    digest % span
  }

  /** Steps forward, with wrapping, from the base slot to a port. */
  function Distance(start: int, span: nat, base: nat, port: int): nat
    requires start <= port < start + span && base < span
  {
    var slot := port - start;
    if slot >= base then slot - base else slot + span - base
  }

  lemma ModOnce(x: nat, span: nat)
    requires span > 0 && x < 2 * span
    ensures x % span == if x < span then x else x - span
  {
  }

  /** Probing meets every port of the range exactly once: at the step that is its distance from the base. */
  lemma ProbeIsBijective(start: int, span: nat, base: nat)
    requires span > 0 && base < span
    ensures forall i: nat | i < span :: start <= Probe(start, span, base, i) < start + span
                                       && Distance(start, span, base, Probe(start, span, base, i)) == i
    ensures forall port | start <= port < start + span ::
              Distance(start, span, base, port) < span
              && Probe(start, span, base, Distance(start, span, base, port)) == port
  {
    forall i: nat | i < span
      ensures start <= Probe(start, span, base, i) < start + span
              && Distance(start, span, base, Probe(start, span, base, i)) == i
    {
      ModOnce(base + i, span);
    }
    forall port | start <= port < start + span
      ensures Distance(start, span, base, port) < span
              && Probe(start, span, base, Distance(start, span, base, port)) == port
    {
      ModOnce(base + Distance(start, span, base, port), span);
    }
  }

  /** r is the free port of the range closest after the base slot, or None when there is none. */
  predicate IsNearestFree(start: int, end: int, digest: nat, free: set<int>, r: Option<int>)
    requires start < end
  {
    match r
    case None => forall port | port in free :: !(start <= port < end)
    case Some(p) =>
      var base := HashOffset(digest, end - start);
      && p in free && start <= p < end
      && forall port | port in free && start <= port < end && port != p ::
           Distance(start, end - start, base, p) < Distance(start, end - start, base, port)
  }

  /** None stands for the runtime error; `free` is what the sockets answer. */
  method AllocateInRange(start: int, end: int, digest: nat, free: set<int>) returns (r: Option<int>)
    requires start < end
    ensures IsNearestFree(start, end, digest, free, r)
  {
    var span := end - start;
    var base := HashOffset(digest, span);
    ProbeIsBijective(start, span, base);
    for i := 0 to span
      invariant forall j: nat | j < i :: Probe(start, span, base, j) !in free
    {
      var port := start + (base + i) % span;
      assert port == Probe(start, span, base, i);
      if port in free {
        forall q | q in free && start <= q < end && q != port
          ensures Distance(start, span, base, port) < Distance(start, span, base, q)
        {
          var k := Distance(start, span, base, q);
          assert Probe(start, span, base, k) == q;
        }
        return Some(port);
      }
    }
    forall port | start <= port < end ensures port !in free {
      assert Probe(start, span, base, Distance(start, span, base, port)) == port;
    }
    r := None;
  }

  const BACKEND_START := 8100
  const BACKEND_END := 8200
  const FRONTEND_START := 5200
  const FRONTEND_END := 5300

  /** Both ports of a branch, each the nearest free one of its range; the ranges are disjoint, so they never clash. */
  method Allocate(backendDigest: nat, frontendDigest: nat, free: set<int>) returns (r: Option<(int, int)>)
    ensures r.None? <==> || (forall p | p in free :: !(BACKEND_START <= p < BACKEND_END))
                         || (forall p | p in free :: !(FRONTEND_START <= p < FRONTEND_END))
    ensures r.Some? ==>
              && IsNearestFree(BACKEND_START, BACKEND_END, backendDigest, free, Some(r.value.0))
              && IsNearestFree(FRONTEND_START, FRONTEND_END, frontendDigest, free, Some(r.value.1))
              && r.value.0 != r.value.1
  {
    var backend := AllocateInRange(BACKEND_START, BACKEND_END, backendDigest, free);
    if backend.None? { return None; }
    var frontend := AllocateInRange(FRONTEND_START, FRONTEND_END, frontendDigest, free);
    r := if frontend.None? then None else Some((backend.value, frontend.value));
  }

  /** Allocations for any branches in turn, each binding the port it got. */
  predicate IsBindingRun(start: int, end: int, digests: seq<nat>, free: set<int>, ports: seq<int>)
    requires start < end && |digests| == |ports|
  {
    forall i | 0 <= i < |ports| :: IsNearestFree(start, end, digests[i], free - Members(ports[..i]), Some(ports[i]))
  }

  function Usable(start: int, end: int, free: set<int>): set<int> { set p | p in free && start <= p < end }

  lemma BindingRunPrefix(start: int, end: int, digests: seq<nat>, free: set<int>, ports: seq<int>)
    requires start < end && |digests| == |ports| && IsBindingRun(start, end, digests, free, ports) && ports != []
    ensures var before, last := ports[..|ports| - 1], ports[|ports| - 1];
            && IsBindingRun(start, end, digests[..|ports| - 1], free, before)
            && last in Usable(start, end, free) && last !in Members(before)
  {
    var before := ports[..|ports| - 1];
    forall i | 0 <= i < |before|
      ensures IsNearestFree(start, end, digests[i], free - Members(before[..i]), Some(before[i]))
    {
      assert before[..i] == ports[..i];
    }
    assert IsNearestFree(start, end, digests[|ports| - 1], free - Members(before), Some(ports[|ports| - 1]));
  }

  lemma {:induction false} BindingRunNeverRepeats(start: int, end: int, digests: seq<nat>, free: set<int>,
                                                  ports: seq<int>)
    requires start < end && |digests| == |ports| && IsBindingRun(start, end, digests, free, ports)
    ensures Members(ports) <= Usable(start, end, free) && |Members(ports)| == |ports|
  {
    if ports != [] {
      var before, last := ports[..|ports| - 1], ports[|ports| - 1];
      BindingRunPrefix(start, end, digests, free, ports);
      BindingRunNeverRepeats(start, end, digests[..|ports| - 1], free, before);
      assert Members(ports) == Members(before) + {last};
    }
  }

  /** Such a run never repeats a port, and can go on exactly until it has used every port that was free in the range. */
  lemma BindingRunUsesUpTheRange(start: int, end: int, digests: seq<nat>, free: set<int>, ports: seq<int>, next: nat)
    requires start < end && |digests| == |ports| && IsBindingRun(start, end, digests, free, ports)
    ensures Members(ports) <= Usable(start, end, free) && |Members(ports)| == |ports| <= |Usable(start, end, free)|
    ensures IsNearestFree(start, end, next, free - Members(ports), None) <==> |ports| == |Usable(start, end, free)|
  {
    var usable := Usable(start, end, free);
    BindingRunNeverRepeats(start, end, digests, free, ports);
    SubsetSize(Members(ports), usable);
    if IsNearestFree(start, end, next, free - Members(ports), None) {
      forall p | p in usable ensures p in Members(ports) { assert p !in free - Members(ports); }
      assert usable == Members(ports);
    }
  }
}
