/** The mediator and the failover controller, changing their fields in place. */
module ActiveCluster {
  import opened Common
  import opened ClusterModel

  class Mediator {
    var nodes: map<NodeId, Node>
    var primary: Option<NodeId>
    var electionsHeld: nat

    ghost function State(): View
      reads this
    {
      View(nodes, primary)
    }

    constructor ()
      ensures State() == View(map[], None) && electionsHeld == 0
    {
      nodes, primary, electionsHeld := map[], None, 0;
    }

    method AddNode(id: NodeId, role: Role)
      modifies this
      ensures State() == View(old(nodes)[id := Node(role, true)], old(primary)) && electionsHeld == old(electionsHeld)
    {
      nodes := nodes[id := Node(role, true)];
    }

    method RemoveNode(id: NodeId) returns (found: bool)
      modifies this
      ensures found <==> id in old(nodes)
      ensures State() == View(old(nodes) - {id}, old(primary)) && electionsHeld == old(electionsHeld)
    {
      found := id in nodes;
      nodes := nodes - {id};
    }

    // Counts the healthy nodes one by one.
    method Quorate() returns (quorum: bool)
      ensures quorum <==> HasQuorum(nodes)
    {
      var count := 0;
      var rest := nodes.Keys;
      while rest != {}
        invariant rest <= nodes.Keys && count == |Healthy(nodes) - rest|
        decreases rest
      {
        ghost var _ := HasElement(rest);
        var n :| n in rest;
        var less := rest - {n};
        if nodes[n].healthy {
          assert Healthy(nodes) - less == (Healthy(nodes) - rest) + {n};
          count := count + 1;
        } else {
          assert Healthy(nodes) - less == Healthy(nodes) - rest;
        }
        rest := less;
      }
      assert Healthy(nodes) - rest == Healthy(nodes);
      quorum := count >= |nodes| / 2 + 1;
    }

    // The candidate that sorts first, found by going through them once.
    method LowestCandidate() returns (w: NodeId)
      requires Candidates(nodes) != {}
      ensures Wins(nodes, w)
    {
      var all := Candidates(nodes);
      ghost var _ := HasElement(all);
      w :| w in all;
      var rest := all - {w};
      while rest != {}
        invariant w in all && rest <= all
        invariant forall n | n in all && n !in rest :: n == w || Less(w, n)
        decreases rest
      {
        ghost var _ := HasElement(rest);
        var n :| n in rest;
        LessIsTotal(n, w);
        if Less(n, w) {
          forall m | m in all && m !in rest && m != w
            ensures Less(n, m)
          {
            LessIsTransitive(n, w, m);
          }
          w := n;
        }
        rest := rest - {n};
      }
    }

    // Gives one node the role PRIMARY and demotes any other that has it.
    method UpdateRoles(w: NodeId)
      modifies this
      ensures nodes == Promoted(old(nodes), w) && primary == Some(w) && electionsHeld == old(electionsHeld)
    {
      primary := Some(w);
      ghost var before := nodes;
      var rest := nodes.Keys;
      while rest != {}
        invariant nodes.Keys == before.Keys && rest <= before.Keys && primary == Some(w) && electionsHeld == old(electionsHeld)
        invariant forall n | n in before :: nodes[n] == if n in rest then before[n] else Promoted(before, w)[n]
        decreases rest
      {
        ghost var _ := HasElement(rest);
        var n :| n in rest;
        if n == w {
          nodes := nodes[n := nodes[n].(role := Primary)];
        } else if nodes[n].role == Primary {
          nodes := nodes[n := nodes[n].(role := Secondary)];
        }
        rest := rest - {n};
      }
      assert Promoted(before, w).Keys == before.Keys;
      assert forall n | n in nodes :: nodes[n] == Promoted(before, w)[n];
    }

    method InitiateElection() returns (r: Option<NodeId>)
      modifies this
      ensures Election(old(State()), r, State())
      ensures electionsHeld == old(electionsHeld) + if HasQuorum(old(nodes)) then 1 else 0
    {
      var quorum := Quorate();
      if !quorum {
        return None;
      }
      electionsHeld := electionsHeld + 1;
      if Candidates(nodes) == {} {
        return None;
      }
      var w := LowestCandidate();
      UpdateRoles(w);
      return Some(w);
    }

    method SetPrimary(id: NodeId) returns (ok: bool)
      modifies this
      ensures ok <==> id in old(nodes)
      ensures State() == ClusterModel.SetPrimary(old(State()), id) && electionsHeld == old(electionsHeld)
    {
      if id !in nodes {
        return false;
      }
      UpdateRoles(id);
      return true;
    }
  }

  class FailoverController {
    const mediator: Mediator
    const autoFailback: bool
    var state: FailoverState
    var original: Option<NodeId>
    var total: nat
    var successful: nat
    var failed: nat
    var failbacks: nat

    ghost function State(): Cluster
      reads this, mediator
    {
      Cluster(mediator.State(), state, original, total, successful, failed, failbacks)
    }

    constructor (mediator: Mediator, autoFailback: bool)
      ensures this.mediator == mediator && this.autoFailback == autoFailback
      ensures State() == Cluster(mediator.State(), Normal, None, 0, 0, 0, 0)
    {
      this.mediator := mediator;
      this.autoFailback := autoFailback;
      state, original := Normal, None;
      total, successful, failed, failbacks := 0, 0, 0, 0;
    }

    method CheckAndFailover() returns (r: Option<NodeId>)
      modifies this, mediator
      ensures Step(old(State()), FailoverChecked(r), State())
    {
      if state != Normal || mediator.primary == None {
        return None;
      }
      var current := mediator.primary.value;
      if current !in mediator.nodes || mediator.nodes[current].healthy {
        return None;
      }
      r := ExecuteFailover(Some(current), None);
    }

    // Elects a new primary unless one was already named.
    method ExecuteFailover(previous: Option<NodeId>, named: Option<NodeId>) returns (r: Option<NodeId>)
      modifies this, mediator
      ensures named.None? ==> Election(old(mediator.State()), r, mediator.State())
      ensures named.Some? ==> r == named && mediator.State() == old(mediator.State())
      ensures State() == FinishFailover(old(State()), previous, r, mediator.State())
    {
      original := previous;
      r := named;
      if r == None {
        r := mediator.InitiateElection();
      }
      if r != None {
        successful := successful + 1;
        state := FailedOver;
      } else {
        failed := failed + 1;
        state := Normal;
      }
      total := total + 1;
    }

    // A target that the mediator does not know is still recorded as the new primary.
    method ManualFailover(target: Option<NodeId>) returns (r: Option<NodeId>)
      modifies this, mediator
      ensures Step(old(State()), Event.ManualFailover(target, r), State())
    {
      var current := mediator.primary;
      var named := target;
      if target != None {
        var _ := mediator.SetPrimary(target.value);
      } else {
        named := mediator.InitiateElection();
      }
      r := ExecuteFailover(current, named);
    }

    method CheckAndFailback() returns (done: bool)
      modifies this, mediator
      ensures done <==> autoFailback && CanFailBack(old(State()))
      ensures Step(old(State()), FailbackChecked(autoFailback), State())
    {
      if !autoFailback || state != FailedOver || original == None {
        return false;
      }
      if original.value !in mediator.nodes || !mediator.nodes[original.value].healthy {
        return false;
      }
      ExecuteFailback();
      return true;
    }

    method ExecuteFailback()
      requires original.Some?
      modifies this, mediator
      ensures State() == FailBack(old(State()))
    {
      var _ := mediator.SetPrimary(original.value);
      failbacks := failbacks + 1;
      state := Normal;
      original := None;
    }

    method ManualFailback() returns (done: bool)
      modifies this, mediator
      ensures done <==> old(state).FailedOver? && old(original).Some?
      ensures Step(old(State()), Event.ManualFailback, State())
    {
      if state != FailedOver || original == None {
        return false;
      }
      ExecuteFailback();
      return true;
    }
  }
}
