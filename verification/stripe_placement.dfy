/** Placement of a stripe's shards on nodes, spread over as many fault domains as there are. */
module StripePlacement {
  import opened Common

  // Every four consecutive node ids share a fault domain; integer division drops toward zero.
  function FaultDomain(nodeId: int): int {
    if nodeId >= 0 then nodeId / 4 else -(-nodeId / 4)
  }

  // Four consecutive ids from a multiple of 4 on make up a domain; counting toward zero, the
  // ids from -3 to 3 share one, and below that it is again four by four.
  lemma DomainRange(nodeId: int, k: int)
    ensures FaultDomain(nodeId) == k <==> InRange(nodeId, k)
  {
  }

  predicate InRange(nodeId: int, k: int) {
    if k > 0 then 4 * k <= nodeId <= 4 * k + 3
    else if k == 0 then -3 <= nodeId <= 3
    else 4 * k - 3 <= nodeId <= 4 * k
  }

  function Domains(nodes: seq<int>): set<int> {
    set i | 0 <= i < |nodes| :: FaultDomain(nodes[i])
  }

  // The first node at or after `index`, around the ring, whose domain is not used; after a
  // full round, wherever the probe stands.
  function Probe(nodes: seq<int>, used: set<int>, index: nat, attempts: nat): (r: nat)
    requires index < |nodes| && attempts <= |nodes|
    ensures r < |nodes|
    decreases |nodes| - attempts
  {
    if attempts == |nodes| || FaultDomain(nodes[index]) !in used then index
    else Probe(nodes, used, if index + 1 == |nodes| then 0 else index + 1, attempts + 1)
  }

  // Domains of the chosen nodes.
  function Covered(nodes: seq<int>, chosen: seq<nat>): set<int>
    requires forall i | 0 <= i < |chosen| :: chosen[i] < |nodes|
  {
    set i | 0 <= i < |chosen| :: FaultDomain(nodes[chosen[i]])
  }

  // The nodes for the shards whose hashes are given, one after the other.
  function Placement(nodes: seq<int>, hashes: seq<nat>): (chosen: seq<nat>)
    requires |nodes| > 0
    ensures |chosen| == |hashes| && forall i | 0 <= i < |chosen| :: chosen[i] < |nodes|
  {
    if |hashes| == 0 then []
    else
      var before := Placement(nodes, hashes[..|hashes| - 1]);
      before + [Probe(nodes, Covered(nodes, before), hashes[|hashes| - 1] % |nodes|, 0)]
  }

  ghost predicate AllUsed(nodes: seq<int>, used: set<int>, from: nat, to: nat)
    requires to <= |nodes|
  {
    forall i: nat | from <= i < to :: FaultDomain(nodes[i]) in used
  }

  // A probe that started at `start` has seen every node between there and `index`.
  ghost predicate Seen(nodes: seq<int>, used: set<int>, start: nat, index: nat, attempts: nat) {
    && start < |nodes| && index < |nodes|
    && if attempts + start < |nodes| then index == start + attempts && AllUsed(nodes, used, start, index)
       else index == attempts + start - |nodes| && index <= start
            && AllUsed(nodes, used, start, |nodes|) && AllUsed(nodes, used, 0, index)
  }

  // The wrapping probe gives up only after every node's domain turned out to be used.
  lemma {:induction false} ProbeVisitsAll(nodes: seq<int>, used: set<int>, start: nat, index: nat, attempts: nat)
    requires attempts <= |nodes| && Seen(nodes, used, start, index, attempts)
    ensures FaultDomain(nodes[Probe(nodes, used, index, attempts)]) in used ==> AllUsed(nodes, used, 0, |nodes|)
    decreases |nodes| - attempts
  {
    if attempts < |nodes| && FaultDomain(nodes[index]) in used {
      ProbeVisitsAll(nodes, used, start, if index + 1 == |nodes| then 0 else index + 1, attempts + 1);
    }
  }

  // The node k places after `start` around the ring.
  function Around(nodes: seq<int>, start: nat, k: nat): nat
    requires start < |nodes| && k <= |nodes|
  {
    if start + k < |nodes| then start + k else start + k - |nodes|
  }

  // The probe takes the first node from the start on, around the ring, whose domain is not
  // used; when all are used it comes back to the start.
  lemma ProbeIsFirst(nodes: seq<int>, used: set<int>, start: nat, k: nat)
    requires start < |nodes| && k <= |nodes|
    requires forall j: nat | j < k :: FaultDomain(nodes[Around(nodes, start, j)]) in used
    requires k == |nodes| || FaultDomain(nodes[Around(nodes, start, k)]) !in used
    ensures Probe(nodes, used, start, 0) == Around(nodes, start, k)
  {
    ProbeReaches(nodes, used, start, 0, k);
  }

  lemma {:induction false} ProbeReaches(nodes: seq<int>, used: set<int>, start: nat, j: nat, k: nat)
    requires start < |nodes| && j <= k <= |nodes|
    requires forall i: nat | i < k :: FaultDomain(nodes[Around(nodes, start, i)]) in used
    requires k == |nodes| || FaultDomain(nodes[Around(nodes, start, k)]) !in used
    ensures Probe(nodes, used, Around(nodes, start, j), j) == Around(nodes, start, k)
    decreases k - j
  {
    if j < k {
      ProbeReaches(nodes, used, start, j + 1, k);
    }
  }

  // After any number of shards the chosen nodes cover as many fault domains as possible:
  // one more with each shard until all of them are covered.
  lemma {:induction false} PlacementCovers(nodes: seq<int>, hashes: seq<nat>)
    requires |nodes| > 0
    ensures |Covered(nodes, Placement(nodes, hashes))| == Least(|hashes|, |Domains(nodes)|)
  {
    hide Covered; hide Domains; hide FaultDomain; hide AllUsed; hide Probe;
    if |hashes| > 0 {
      var earlier := hashes[..|hashes| - 1];
      PlacementCovers(nodes, earlier);
      var before := Placement(nodes, earlier);
      var used, start := Covered(nodes, before), hashes[|hashes| - 1] % |nodes|;
      var index := Probe(nodes, used, start, 0);
      CoveredSnoc(nodes, before, index);
      CoveredWithin(nodes, before);
      SubsetSize(used, Domains(nodes));
      ProbeCovers(nodes, used, start);
    } else {
      assert Covered(nodes, []) == {} by { CoveredNothing(nodes); }
    }
  }

  lemma CoveredNothing(nodes: seq<int>)
    ensures Covered(nodes, []) == {}
  {
  }

  lemma CoveredWithin(nodes: seq<int>, chosen: seq<nat>)
    requires forall i | 0 <= i < |chosen| :: chosen[i] < |nodes|
    ensures Covered(nodes, chosen) <= Domains(nodes)
  {
  }

  // The probed node's domain is new unless every domain is used already.
  lemma ProbeCovers(nodes: seq<int>, used: set<int>, start: nat)
    requires start < |nodes| && used <= Domains(nodes)
    ensures var domain := FaultDomain(nodes[Probe(nodes, used, start, 0)]);
      && |used + {domain}| == if used == Domains(nodes) then |used| else |used| + 1
  {
    hide FaultDomain;
    var index := Probe(nodes, used, start, 0);
    var domain := FaultDomain(nodes[index]);
    assert domain in Domains(nodes);
    ProbeVisitsAll(nodes, used, start, start, 0);
    if domain in used {
      assert used == Domains(nodes) && used + {domain} == used;
    }
  }

  lemma CoveredSnoc(nodes: seq<int>, chosen: seq<nat>, index: nat)
    requires index < |nodes| && forall i | 0 <= i < |chosen| :: chosen[i] < |nodes|
    ensures Covered(nodes, chosen + [index]) == Covered(nodes, chosen) + {FaultDomain(nodes[index])}
  {
    var more := chosen + [index];
    assert more[|chosen|] == index && forall i | 0 <= i < |chosen| :: more[i] == chosen[i];
    forall d | d in Covered(nodes, chosen)
      ensures d in Covered(nodes, more)
    {
      var i :| 0 <= i < |chosen| && FaultDomain(nodes[chosen[i]]) == d;
      assert FaultDomain(nodes[more[i]]) == d;
    }
  }

  // Each shard goes to the first node, from the one its hash names on and around the ring,
  // whose domain none of the earlier shards uses; when all are used, to the node its hash names.
  lemma PlacementIsFirst(nodes: seq<int>, hashes: seq<nat>, i: nat, k: nat)
    requires |nodes| > 0 && i < |hashes| && k <= |nodes|
    requires var used := Covered(nodes, Placement(nodes, hashes[..i]));
      && (forall j: nat | j < k :: FaultDomain(nodes[Around(nodes, hashes[i] % |nodes|, j)]) in used)
      && (k == |nodes| || FaultDomain(nodes[Around(nodes, hashes[i] % |nodes|, k)]) !in used)
    ensures Placement(nodes, hashes)[i] == Around(nodes, hashes[i] % |nodes|, k)
  {
    hide FaultDomain; hide Covered; hide Around; hide Probe;
    var prefix := hashes[..i + 1];
    assert prefix[..i] == hashes[..i];
    PlacementPrefix(nodes, hashes, i + 1);
    var used := Covered(nodes, Placement(nodes, hashes[..i]));
    ProbeIsFirst(nodes, used, hashes[i] % |nodes|, k);
    assert Placement(nodes, hashes)[..i + 1][i] == Placement(nodes, hashes)[i];
  }

  // The domains there are, as ranges of node ids.
  lemma DomainsAreRanges(nodes: seq<int>, k: int)
    ensures k in Domains(nodes) <==> exists i :: 0 <= i < |nodes| && InRange(nodes[i], k)
  {
    if k in Domains(nodes) {
      var i :| 0 <= i < |nodes| && FaultDomain(nodes[i]) == k;
      DomainRange(nodes[i], k);
    }
    forall i | 0 <= i < |nodes| && InRange(nodes[i], k)
      ensures k in Domains(nodes)
    {
      DomainRange(nodes[i], k);
    }
  }

  // With no more shards than ranges that hold a node, no two shards are placed in one range,
  // so losing a whole range loses at most one shard.
  lemma ShardsInDifferentRanges(nodes: seq<int>, hashes: seq<nat>, ranges: set<int>, i: nat, j: nat, k: int)
    requires |nodes| > 0 && |hashes| <= |ranges| && i < j < |hashes|
    requires forall r | r in ranges :: exists n :: 0 <= n < |nodes| && InRange(nodes[n], r)
    ensures var chosen := Placement(nodes, hashes);
      !(InRange(nodes[chosen[i]], k) && InRange(nodes[chosen[j]], k))
  {
    hide InRange; hide FaultDomain;
    forall r | r in ranges
      ensures r in Domains(nodes)
    {
      DomainsAreRanges(nodes, r);
    }
    SubsetSize(ranges, Domains(nodes));
    FewShardsFewDomains(nodes, hashes, i, j);
    var chosen := Placement(nodes, hashes);
    DomainRange(nodes[chosen[i]], k);
    DomainRange(nodes[chosen[j]], k);
  }

  // With no more shards than domains no two shards share one.
  lemma FewShardsFewDomains(nodes: seq<int>, hashes: seq<nat>, i: nat, j: nat)
    requires |nodes| > 0 && |hashes| <= |Domains(nodes)| && i < j < |hashes|
    ensures FaultDomain(nodes[Placement(nodes, hashes)[i]]) != FaultDomain(nodes[Placement(nodes, hashes)[j]])
  {
    var chosen := Placement(nodes, hashes);
    PlacementCovers(nodes, hashes);
    if FaultDomain(nodes[chosen[i]]) == FaultDomain(nodes[chosen[j]]) {
      var others := (set k | 0 <= k < |chosen| && k != j :: FaultDomain(nodes[chosen[k]]));
      assert Covered(nodes, chosen) == others;
      ImageSize(nodes, chosen, j, |chosen|);
    }
  }

  lemma {:induction false} ImageSize(nodes: seq<int>, chosen: seq<nat>, j: nat, n: nat)
    requires n <= |chosen| && forall i | 0 <= i < |chosen| :: chosen[i] < |nodes|
    ensures |set k | 0 <= k < n && k != j :: FaultDomain(nodes[chosen[k]])| <= (if j < n then n - 1 else n)
  {
    if n > 0 {
      ImageSize(nodes, chosen, j, n - 1);
      var smaller := (set k | 0 <= k < n - 1 && k != j :: FaultDomain(nodes[chosen[k]]));
      var larger := (set k | 0 <= k < n && k != j :: FaultDomain(nodes[chosen[k]]));
      assert larger == if n - 1 == j then smaller else smaller + {FaultDomain(nodes[chosen[n - 1]])};
    }
  }

  // The code's nested loops.  `hashes` are the 64-bit hashes of stripe and shard number.
  method SelectNodesForStripe(nodes: seq<int>, hashes: seq<nat>) returns (selected: seq<nat>)
    requires |hashes| > 0 ==> |nodes| > 0
    ensures |nodes| > 0 ==> selected == Placement(nodes, hashes)
    ensures |hashes| == 0 ==> selected == []
    ensures |nodes| > 0 ==> forall k | 0 <= k <= |hashes| ::
      |Covered(nodes, selected[..k])| == Least(k, |Domains(nodes)|)
  {
    selected := [];
    var used: set<int> := {};
    for i := 0 to |hashes|
      invariant |nodes| > 0 ==> selected == Placement(nodes, hashes[..i]) && used == Covered(nodes, selected)
      invariant |selected| == i
    {
      var index := hashes[i] % |nodes|;
      var domain := FaultDomain(nodes[index]);
      ghost var goal := Probe(nodes, used, index, 0);
      var attempts := 0;
      while domain in used && attempts < |nodes|
        invariant index < |nodes| && attempts <= |nodes| && domain == FaultDomain(nodes[index])
        invariant Probe(nodes, used, index, attempts) == goal
      {
        WrapIncrement(index, |nodes|);
        index := (index + 1) % |nodes|;
        domain := FaultDomain(nodes[index]);
        attempts := attempts + 1;
      }
      assert hashes[..i + 1][..i] == hashes[..i];
      CoveredSnoc(nodes, selected, index);
      selected := selected + [index];
      used := used + {domain};
    }
    assert hashes[..|hashes|] == hashes;
    if |nodes| > 0 {
      forall k | 0 <= k <= |hashes|
        ensures |Covered(nodes, selected[..k])| == Least(k, |Domains(nodes)|)
      {
        PlacementPrefix(nodes, hashes, k);
        PlacementCovers(nodes, hashes[..k]);
      }
    }
  }

  lemma {:induction false} PlacementPrefix(nodes: seq<int>, hashes: seq<nat>, k: nat)
    requires |nodes| > 0 && k <= |hashes|
    ensures Placement(nodes, hashes)[..k] == Placement(nodes, hashes[..k])
    decreases |hashes|
  {
    if k < |hashes| {
      var earlier := hashes[..|hashes| - 1];
      PlacementPrefix(nodes, earlier, k);
      assert earlier[..k] == hashes[..k];
      assert Placement(nodes, hashes)[..k] == Placement(nodes, earlier)[..k];
    } else {
      assert hashes[..k] == hashes;
    }
  }
}
