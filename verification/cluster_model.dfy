/**
Primary election and failover of the active cluster: the mediator's view of its nodes, the
quorum rule, the failover state machine, and what every run of them keeps.
 */
module ClusterModel {
  import opened Common

  type NodeId = string

  datatype Role = Primary | Secondary | Witness

  datatype Node = Node(role: Role, healthy: bool)

  datatype View = View(nodes: map<NodeId, Node>, primary: Option<NodeId>)

  // ---------------------------------------------------------------- the order of node ids

  // Strings compare by their first differing character.
  predicate Less(a: string, b: string) {
    |b| > 0 && (|a| == 0 || a[0] < b[0] || (a[0] == b[0] && Less(a[1..], b[1..])))
  }

  lemma {:induction false} LessIsTotal(a: string, b: string)
    ensures Less(a, b) || a == b || Less(b, a)
    ensures !(Less(a, b) && Less(b, a)) && !Less(a, a)
  {
    if |a| > 0 && |b| > 0 {
      LessIsTotal(a[1..], b[1..]);
      assert a == [a[0]] + a[1..] && b == [b[0]] + b[1..];
      LessIsTotal(a[1..], a[1..]);
    } else if |a| > 0 {
      LessIsTotal(a[1..], a[1..]);
    }
  }

  lemma {:induction false} LessIsTransitive(a: string, b: string, c: string)
    requires Less(a, b) && Less(b, c)
    ensures Less(a, c)
  {
    if |a| > 0 && a[0] == b[0] && b[0] == c[0] {
      LessIsTransitive(a[1..], b[1..], c[1..]);
    }
  }

  // One string comes before another exactly when it is a proper prefix of it, or has the
  // smaller character where they first differ.
  lemma {:induction false} LessExactly(a: string, b: string)
    ensures Less(a, b) <==> exists k: nat :: Differ(a, b, k)
  {
    if Less(a, b) {
      if |a| == 0 || a[0] < b[0] {
        assert Differ(a, b, 0);
      } else {
        LessExactly(a[1..], b[1..]);
        var k: nat :| Differ(a[1..], b[1..], k);
        assert a[..k + 1] == [a[0]] + a[1..][..k] && b[..k + 1] == [b[0]] + b[1..][..k];
        assert Differ(a, b, k + 1);
      }
    }
    forall k: nat | Differ(a, b, k)
      ensures Less(a, b)
    {
      if k > 0 {
        assert a[0] == a[..k][0] && b[0] == b[..k][0];
        assert a[1..][..k - 1] == a[..k][1..] && b[1..][..k - 1] == b[..k][1..];
        assert Differ(a[1..], b[1..], k - 1);
        LessExactly(a[1..], b[1..]);
      }
    }
  }

  // The strings agree before position k, and there `a` ends or has the smaller character.
  ghost predicate Differ(a: string, b: string, k: nat) {
    && k <= |a| && k < |b| && a[..k] == b[..k]
    && (k == |a| || a[k] < b[k])
  }

  // ---------------------------------------------------------------- quorum and election

  function Healthy(nodes: map<NodeId, Node>): set<NodeId> {
    set n | n in nodes && nodes[n].healthy
  }

  predicate HasQuorum(nodes: map<NodeId, Node>) {
    |Healthy(nodes)| >= |nodes| / 2 + 1
  }

  function Candidates(nodes: map<NodeId, Node>): set<NodeId> {
    set n | n in nodes && nodes[n].healthy && !nodes[n].role.Witness?
  }

  ghost predicate Lowest(ids: set<NodeId>, w: NodeId) {
    w in ids && forall n | n in ids :: n == w || Less(w, n)
  }

  // The healthy non-witness node with the lowest id.
  ghost predicate Wins(nodes: map<NodeId, Node>, w: NodeId) {
    Lowest(Candidates(nodes), w)
  }

  function Promoted(nodes: map<NodeId, Node>, w: NodeId): map<NodeId, Node> {
    map n | n in nodes ::
      if n == w then nodes[n].(role := Primary)
      else if nodes[n].role.Primary? then nodes[n].(role := Secondary)
      else nodes[n]
  }

  ghost predicate Election(v: View, r: Option<NodeId>, v': View) {
    if !HasQuorum(v.nodes) || Candidates(v.nodes) == {} then r == None && v' == v
    else r.Some? && Wins(v.nodes, r.value) && v' == View(Promoted(v.nodes, r.value), r)
  }

  function SetPrimary(v: View, id: NodeId): View {
    if id in v.nodes then View(Promoted(v.nodes, id), Some(id)) else v
  }

  // ---------------------------------------------------------------- failover control

  datatype FailoverState = Normal | FailedOver

  datatype Cluster = Cluster(
    view: View,
    state: FailoverState,
    original: Option<NodeId>,
    total: nat,
    successful: nat,
    failed: nat,
    failbacks: nat)

  function FinishFailover(x: Cluster, previous: Option<NodeId>, r: Option<NodeId>, v: View): Cluster {
    if r.Some? then
      x.(view := v, state := FailedOver, original := previous, total := x.total + 1, successful := x.successful + 1)
    else
      x.(view := v, state := Normal, original := previous, total := x.total + 1, failed := x.failed + 1)
  }

  ghost predicate PrimaryDown(x: Cluster) {
    && x.state.Normal? && x.view.primary.Some?
    && x.view.primary.value in x.view.nodes && !x.view.nodes[x.view.primary.value].healthy
  }

  ghost predicate CanFailBack(x: Cluster) {
    && x.state.FailedOver? && x.original.Some?
    && x.original.value in x.view.nodes && x.view.nodes[x.original.value].healthy
  }

  function FailBack(x: Cluster): Cluster
    requires x.original.Some?
  {
    x.(view := SetPrimary(x.view, x.original.value), state := Normal, original := None, failbacks := x.failbacks + 1)
  }

  // ---------------------------------------------------------------- steps

  datatype Event =
    | NodeAdded(id: NodeId, role: Role)
    | NodeRemoved(id: NodeId)
    | HealthChanged(health: map<NodeId, bool>)
    | Elected(winner: Option<NodeId>)
    | FailoverChecked(winner: Option<NodeId>)
    | ManualFailover(target: Option<NodeId>, winner: Option<NodeId>)
    | FailbackChecked(auto: bool)
    | ManualFailback

  function WithHealth(nodes: map<NodeId, Node>, health: map<NodeId, bool>): map<NodeId, Node> {
    map n | n in nodes :: if n in health then nodes[n].(healthy := health[n]) else nodes[n]
  }

  // Nodes join as secondaries or witnesses.  Heartbeats and timeouts change health only.
  ghost predicate Step(x: Cluster, e: Event, y: Cluster) {
    match e
    case NodeAdded(id, role) =>
      !role.Primary? && y == x.(view := x.view.(nodes := x.view.nodes[id := Node(role, true)]))
    case NodeRemoved(id) => y == x.(view := x.view.(nodes := x.view.nodes - {id}))
    case HealthChanged(health) => y == x.(view := x.view.(nodes := WithHealth(x.view.nodes, health)))
    case Elected(r) => Election(x.view, r, y.view) && y == x.(view := y.view)
    case FailoverChecked(r) =>
      if PrimaryDown(x) then Election(x.view, r, y.view) && y == FinishFailover(x, x.view.primary, r, y.view)
      else r == None && y == x
    case ManualFailover(target, r) =>
      && (if target.Some? then r == target && y.view == SetPrimary(x.view, target.value)
          else Election(x.view, r, y.view))
      && y == FinishFailover(x, x.view.primary, r, y.view)
    case FailbackChecked(auto) => y == if auto && CanFailBack(x) then FailBack(x) else x
    case ManualFailback => y == if x.state.FailedOver? && x.original.Some? then FailBack(x) else x
  }

  // A node starts as primary of its own view, or knows no primary.
  ghost predicate InitialView(v: View, self: NodeId, nodes: map<NodeId, Node>) {
    || (self in nodes && v == View(Promoted(nodes, self), Some(self)))
    || ((forall n | n in nodes :: !nodes[n].role.Primary?) && v == View(nodes, None))
  }

  ghost predicate Initial(x: Cluster) {
    && x.state.Normal? && x.original.None? && x.total == 0 && x.successful == 0 && x.failed == 0 && x.failbacks == 0
    && exists self, nodes :: InitialView(x.view, self, nodes)
  }

  // At most one node has the role PRIMARY, and it is the mediator's current primary.
  ghost predicate OnePrimary(v: View) {
    forall n | n in v.nodes && v.nodes[n].role.Primary? :: v.primary == Some(n)
  }

  ghost predicate Inv(x: Cluster) {
    OnePrimary(x.view) && x.total == x.successful + x.failed
  }

  lemma PromotedHasOnePrimary(nodes: map<NodeId, Node>, w: NodeId)
    ensures OnePrimary(View(Promoted(nodes, w), Some(w)))
    ensures Promoted(nodes, w).Keys == nodes.Keys
    ensures w in nodes ==> Promoted(nodes, w)[w].role.Primary?
  {
  }

  lemma StepKeeps(x: Cluster, e: Event, y: Cluster)
    requires Inv(x) && Step(x, e, y)
    ensures Inv(y)
  {
    match e
    case NodeAdded(id, role) =>
    case NodeRemoved(id) =>
    case HealthChanged(health) =>
    case Elected(r) => if r.Some? { PromotedHasOnePrimary(x.view.nodes, r.value); }
    case FailoverChecked(r) => if r.Some? { PromotedHasOnePrimary(x.view.nodes, r.value); }
    case ManualFailover(target, r) => if r.Some? { PromotedHasOnePrimary(x.view.nodes, r.value); }
    case FailbackChecked(auto) => if CanFailBack(x) { PromotedHasOnePrimary(x.view.nodes, x.original.value); }
    case ManualFailback => if x.original.Some? { PromotedHasOnePrimary(x.view.nodes, x.original.value); }
  }

  ghost predicate Run(trace: seq<Cluster>, events: seq<Event>) {
    && |trace| == |events| + 1 && Initial(trace[0])
    && forall i | 0 <= i < |events| :: Step(trace[i], events[i], trace[i + 1])
  }

  // In every run from cluster initialisation there is never a second primary.
  lemma {:induction false} RunKeepsOnePrimary(trace: seq<Cluster>, events: seq<Event>, i: nat)
    requires Run(trace, events) && i <= |events|
    ensures Inv(trace[i])
    ensures forall a, b | a in trace[i].view.nodes && b in trace[i].view.nodes
      && trace[i].view.nodes[a].role.Primary? && trace[i].view.nodes[b].role.Primary? :: a == b
  {
    if i == 0 {
      var self, nodes :| InitialView(trace[0].view, self, nodes);
      PromotedHasOnePrimary(nodes, self);
    } else {
      RunKeepsOnePrimary(trace, events, i - 1);
      StepKeeps(trace[i - 1], events[i - 1], trace[i]);
    }
  }

  // An automatic failover that succeeds had a healthy majority, chose the lowest healthy
  // non-witness id, and did not choose the primary that failed; one that was due and did
  // not succeed had no majority or no candidate.
  lemma FailoverIsSafe(x: Cluster, r: Option<NodeId>, y: Cluster)
    requires Inv(x) && Step(x, FailoverChecked(r), y) && x.state.Normal?
    requires x.view.primary.Some? && x.view.primary.value in x.view.nodes && !x.view.nodes[x.view.primary.value].healthy
    ensures r.Some? <==> HasQuorum(x.view.nodes) && Candidates(x.view.nodes) != {}
    ensures r.Some? ==>
      && 2 * |Healthy(x.view.nodes)| > |x.view.nodes|
      && Wins(x.view.nodes, r.value) && x.view.primary != r
      && y.view.primary == r && y.state.FailedOver? && y.original == x.view.primary
      && forall n | n in y.view.nodes :: y.view.nodes[n].role.Primary? <==> n == r.value
    ensures r.None? ==> y.view == x.view && y.state.Normal?
  {
    if r.Some? {
      PromotedHasOnePrimary(x.view.nodes, r.value);
    }
  }

  // An election answers exactly when more than half of the members are healthy and one of
  // these is not a witness; the answer is then the only primary.
  lemma ElectionAnswers(v: View, r: Option<NodeId>, v': View)
    requires Election(v, r, v')
    ensures r.Some? <==>
      && 2 * |set n | n in v.nodes && v.nodes[n].healthy| > |v.nodes|
      && exists n :: n in v.nodes && v.nodes[n].healthy && (v.nodes[n].role.Primary? || v.nodes[n].role.Secondary?)
    ensures r.Some? ==> v'.primary == r && forall n | n in v'.nodes :: v'.nodes[n].role.Primary? <==> Some(n) == r
    ensures v'.nodes.Keys == v.nodes.Keys && forall n | n in v.nodes :: v'.nodes[n].healthy == v.nodes[n].healthy
  {
    assert Healthy(v.nodes) == set n | n in v.nodes && v.nodes[n].healthy;
    if r.Some? {
      assert r.value in v.nodes && v.nodes[r.value].healthy;
    } else if exists n :: n in v.nodes && v.nodes[n].healthy && !v.nodes[n].role.Witness? {
      var n :| n in v.nodes && v.nodes[n].healthy && !v.nodes[n].role.Witness?;
      assert n in Candidates(v.nodes);
    }
  }

  // A manual failover to a node the mediator knows makes it the only primary, whatever its
  // health; an unknown one changes no role but is recorded all the same.
  lemma ManualFailoverIs(x: Cluster, target: NodeId, r: Option<NodeId>, y: Cluster)
    requires Step(x, ManualFailover(Some(target), r), y)
    ensures r == Some(target) && y.state.FailedOver? && y.original == x.view.primary
    ensures y.total == x.total + 1 && y.successful == x.successful + 1 && y.failed == x.failed
    ensures target in x.view.nodes ==>
      y.view.primary == Some(target) && forall n | n in y.view.nodes :: y.view.nodes[n].role.Primary? <==> n == target
    ensures target !in x.view.nodes ==> y.view == x.view
  {
    PromotedHasOnePrimary(x.view.nodes, target);
  }

  // Without a primary that is known and down, or with a failover already made, nothing happens.
  lemma NoNeedlessFailover(x: Cluster, r: Option<NodeId>, y: Cluster)
    requires Step(x, FailoverChecked(r), y)
    requires x.state.FailedOver? || x.view.primary.None? || x.view.primary.value !in x.view.nodes
      || x.view.nodes[x.view.primary.value].healthy
    ensures r.None? && y == x
  {
  }

  // An automatic failback happens only when it is enabled, after a failover, and with the old
  // primary known and healthy.
  lemma NoNeedlessFailback(x: Cluster, auto: bool, y: Cluster)
    requires Step(x, FailbackChecked(auto), y)
    requires !auto || x.state.Normal? || x.original.None? || x.original.value !in x.view.nodes
      || !x.view.nodes[x.original.value].healthy
    ensures y == x
  {
  }

  // An automatic failback makes the old primary, back in good health, primary again.
  lemma FailbackRestores(x: Cluster, y: Cluster)
    requires Inv(x) && Step(x, FailbackChecked(true), y) && x.state.FailedOver?
    requires x.original.Some? && x.original.value in x.view.nodes && x.view.nodes[x.original.value].healthy
    ensures y.view.primary == x.original && y.state.Normal? && y.original.None?
    ensures forall n | n in y.view.nodes :: y.view.nodes[n].role.Primary? <==> Some(n) == x.original
    ensures y.view.nodes[x.original.value].healthy && y.failbacks == x.failbacks + 1
  {
    PromotedHasOnePrimary(x.view.nodes, x.original.value);
  }

  // ---------------------------------------------------------------- several views

  ghost predicate SameMembers(a: map<NodeId, Node>, b: map<NodeId, Node>) {
    a.Keys == b.Keys && forall n | n in a :: a[n].role.Witness? <==> b[n].role.Witness?
  }

  // Two views of one membership elect the same node exactly when the lowest-id node that is
  // a candidate in either view is a candidate in both; equivalently, when each winner is
  // healthy in the other's view too.
  lemma ViewsAgreeExactly(a: map<NodeId, Node>, b: map<NodeId, Node>, v: NodeId, w: NodeId)
    requires SameMembers(a, b) && Wins(a, v) && Wins(b, w)
    ensures v == w <==> exists n :: Lowest(Candidates(a) + Candidates(b), n) && n in Candidates(a) && n in Candidates(b)
    ensures v == w <==> b[v].healthy && a[w].healthy
  {
    if b[v].healthy && a[w].healthy {
      assert w in Candidates(a) && v in Candidates(b);
      LessIsTotal(v, w);
    }
    if v == w {
      assert Lowest(Candidates(a) + Candidates(b), v);
    }
    forall n | Lowest(Candidates(a) + Candidates(b), n) && n in Candidates(a) && n in Candidates(b)
      ensures n == v && n == w
    {
      LessIsTotal(n, v);
      LessIsTotal(n, w);
      assert v in Candidates(a) + Candidates(b) && w in Candidates(a) + Candidates(b);
    }
  }

  // Two views that both have a quorum share a healthy node.
  lemma QuorumsIntersect(a: map<NodeId, Node>, b: map<NodeId, Node>)
    requires a.Keys == b.Keys && HasQuorum(a) && HasQuorum(b)
    ensures exists n :: n in Healthy(a) && n in Healthy(b)
  {
    if Healthy(a) * Healthy(b) == {} {
      assert |Healthy(a) + Healthy(b)| == |Healthy(a)| + |Healthy(b)|;
      assert Healthy(a) + Healthy(b) <= a.Keys;
      SubsetSize(Healthy(a) + Healthy(b), a.Keys);
    }
    var n := HasElement(Healthy(a) * Healthy(b));
  }

  // Without that mutual health two quorate views can elect different primaries: of any
  // three secondaries, one view sees the first two and the other the last two.
  lemma ViewsCanDisagree(x: NodeId, y: NodeId, z: NodeId)
    requires Less(x, y) && Less(y, z)
    ensures var up, down := Node(Secondary, true), Node(Secondary, false);
      var a, b := map[x := up, y := up, z := down], map[x := down, y := up, z := up];
      SameMembers(a, b) && HasQuorum(a) && HasQuorum(b) && Wins(a, x) && Wins(b, y) && x != y
  {
    LessIsTotal(x, y);
    LessIsTotal(y, z);
    LessIsTransitive(x, y, z);
    LessIsTotal(x, z);
    var up, down := Node(Secondary, true), Node(Secondary, false);
    var a, b := map[x := up, y := up, z := down], map[x := down, y := up, z := up];
    hide Less;
    assert a.Keys == {x, y, z} && b.Keys == {x, y, z};
    assert Healthy(a) == {x, y} && Healthy(b) == {y, z};
    assert Candidates(a) == {x, y} && Candidates(b) == {y, z};
  }
}
