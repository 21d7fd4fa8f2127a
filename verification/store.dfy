/**
 * The graph store of src/nodes.js: the in-place `nodes` and `links` arrays, the workspaces,
 * and the operations that read and update them. Nodes are named by unique ids, and links
 * refer to their endpoints by id.
 */
module Store {
  import opened Wrappers
  import opened Seqs
  import opened Nodes
  import opened Graph

  function Ids(ns: seq<Node>): set<string> {
    set i | 0 <= i < |ns| :: ns[i].id
  }

  predicate UniqueIds(ns: seq<Node>) {
    forall i, j :: 0 <= i < j < |ns| ==> ns[i].id != ns[j].id
  }

  /** Both endpoints of `l` are ids of nodes in `ns`. */
  predicate LinkStored(ns: seq<Node>, l: Link) {
    l.source in Ids(ns) && l.target in Ids(ns)
  }

  /** Every link endpoint is the id of a node in `ns`. */
  predicate EndpointsStored(ns: seq<Node>, ls: seq<Link>) {
    forall l :: l in ls ==> LinkStored(ns, l)
  }

  lemma IdsAppend(ns: seq<Node>, n: Node)
    ensures Ids(ns + [n]) == Ids(ns) + {n.id}
  {
    var r := ns + [n];
    assert r[|ns|] == n;
    forall x | x in Ids(ns) ensures x in Ids(r) {
      var i :| 0 <= i < |ns| && ns[i].id == x;
      assert r[i] == ns[i];
    }
  }

  lemma IdsConcat(a: seq<Node>, b: seq<Node>)
    ensures Ids(a + b) == Ids(a) + Ids(b)
  {
    var r := a + b;
    forall x | x in Ids(a) ensures x in Ids(r) {
      var i :| 0 <= i < |a| && a[i].id == x;
      assert r[i] == a[i];
    }
    forall x | x in Ids(b) ensures x in Ids(r) {
      var i :| 0 <= i < |b| && b[i].id == x;
      assert r[|a| + i] == b[i];
    }
  }

  lemma IdsPrefixStep(ns: seq<Node>, k: int)
    requires 0 <= k < |ns|
    ensures Ids(ns[..k + 1]) == Ids(ns[..k]) + {ns[k].id}
  {
    assert ns[..k + 1] == ns[..k] + [ns[k]];
    IdsAppend(ns[..k], ns[k]);
  }

  lemma SameIdSameNode(ns: seq<Node>, a: Node, b: Node)
    requires UniqueIds(ns) && a in ns && b in ns && a.id == b.id
    ensures a == b
  {
  }

  lemma FilterIds(p: Node -> bool, ns: seq<Node>)
    ensures Ids(Filter(p, ns)) == set i | 0 <= i < |ns| && p(ns[i]) :: ns[i].id
  {
    var f := Filter(p, ns);
    FilterMembers(p, ns);
    forall x | x in Ids(f) ensures exists i :: 0 <= i < |ns| && p(ns[i]) && ns[i].id == x {
      var j :| 0 <= j < |f| && f[j].id == x;
      assert f[j] in ns;
    }
    forall i | 0 <= i < |ns| && p(ns[i]) ensures ns[i].id in Ids(f) {
      assert ns[i] in f;
    }
  }

  lemma FilterUniqueIds(p: Node -> bool, ns: seq<Node>)
    requires UniqueIds(ns)
    ensures UniqueIds(Filter(p, ns))
  {
    var f := Filter(p, ns);
    FilterMembers(p, ns);
    forall i, j | 0 <= i < j < |f| ensures f[i].id != f[j].id {
      assert f[i] in ns && f[j] in ns;
      FilterNoDup(p, ns);
      if f[i].id == f[j].id {
        SameIdSameNode(ns, f[i], f[j]);
      }
    }
  }

  /** Replacing a node by one with the same id keeps the store valid and its ids. */
  lemma ReplaceKeepsValid(ns: seq<Node>, ls: seq<Link>, k: int, n: Node)
    requires UniqueIds(ns) && EndpointsStored(ns, ls) && 0 <= k < |ns| && n.id == ns[k].id
    ensures Ids(ns[k := n]) == Ids(ns)
    ensures UniqueIds(ns[k := n]) && EndpointsStored(ns[k := n], ls)
  {
    var ns' := ns[k := n];
    forall x | x in Ids(ns) ensures x in Ids(ns') {
      var i :| 0 <= i < |ns| && ns[i].id == x;
      assert ns'[i].id == x;
    }
    forall x | x in Ids(ns') ensures x in Ids(ns) {
      var i :| 0 <= i < |ns'| && ns'[i].id == x;
      assert ns[i].id == x;
    }
  }

  /** The first node with id `id` (`getNode`). */
  function FindById(ns: seq<Node>, id: string): (r: Option<Node>)
    ensures r.None? <==> id !in Ids(ns)
    ensures r.Some? ==> r.value in ns && r.value.id == id
  {
    if ns == [] then None
    else if ns[0].id == id then Some(ns[0])
    else
      var r := FindById(ns[1..], id);
      assert Ids(ns) == {ns[0].id} + Ids(ns[1..]) by {
        assert ns == [ns[0]] + ns[1..];
        forall x | x in Ids(ns) ensures x in {ns[0].id} + Ids(ns[1..]) {
          var i :| 0 <= i < |ns| && ns[i].id == x;
          if i > 0 { assert ns[1..][i - 1] == ns[i]; }
        }
      }
      r
  }

  function HasId(id: string): Node -> bool {
    (n: Node) => n.id == id
  }

  function LacksId(id: string): Node -> bool {
    (n: Node) => n.id != id
  }

  function IncidentTo(id: string): Link -> bool {
    (l: Link) => Touches(l, id)
  }

  function NotIncidentTo(id: string): Link -> bool {
    (l: Link) => !Touches(l, id)
  }

  /** What `addLink` stores: the protocol defaults to "TSCH" when the field is absent; valid and dirty. */
  function WithDefaults(l: Link): (r: Link)
    ensures r.protocol.Some? && r.valid && r.dirty
    ensures l.protocol.Some? ==> r.protocol == l.protocol
    ensures l.protocol.None? ==> r.protocol == Some("TSCH")
    ensures r.(protocol := l.protocol, valid := l.valid, dirty := l.dirty) == l
  {
    l.(protocol := Some(l.protocol.GetOr("TSCH")), valid := true, dirty := true)
  }

  class GraphStore {
    var nodes: seq<Node>
    var links: seq<Link>
    /** Workspace ids, in the order they were added. */
    var workspaces: seq<string>
    var defaultWorkspace: Option<string>
    var netWorkspace: Option<string>
    var allocationWorkspace: Option<string>

    /** Node ids are unique and every link joins two stored nodes. */
    ghost predicate Valid()
      reads this
    {
      UniqueIds(nodes) && EndpointsStored(nodes, links)
    }

    /**
     * Workspace ids are distinct; "net_tab" and "alloc_tab" are the network and allocation
     * workspaces exactly when present; the default one is present and is neither of them.
     */
    ghost predicate WorkspacesValid()
      reads this
    {
      NoDup(workspaces) &&
      netWorkspace == (if "net_tab" in workspaces then Some("net_tab") else None) &&
      allocationWorkspace == (if "alloc_tab" in workspaces then Some("alloc_tab") else None) &&
      (defaultWorkspace.Some? ==>
        defaultWorkspace.value in workspaces && defaultWorkspace.value !in {"net_tab", "alloc_tab"})
    }

    constructor()
      ensures Valid() && WorkspacesValid()
      ensures nodes == [] && links == [] && workspaces == []
      ensures defaultWorkspace.None? && netWorkspace.None? && allocationWorkspace.None?
    {
      nodes := [];
      links := [];
      workspaces := [];
      defaultWorkspace := None;
      netWorkspace := None;
      allocationWorkspace := None;
    }

    /** `calculateCredits`: the credits spent on the stored nodes. */
    method CalculateCredits() returns (credits: int)
      ensures credits == TotalCost(nodes)
    {
      credits := 0;
      var i := 0;
      while i < |nodes|
        invariant 0 <= i <= |nodes|
        invariant credits == TotalCost(nodes[..i])
      {
        assert nodes[..i + 1][..i] == nodes[..i];
        credits := credits + CalculateCostForNode(Some(nodes[i].def));
        i := i + 1;
      }
      assert nodes[..i] == nodes;
    }

    /** `canAddNode(n)`: whether adding `n` keeps the credits spent within the starting credits. */
    method CanAddNode(n: Node) returns (ok: bool)
      ensures ok <==> TotalCost(nodes + [n]) <= Options.StartingCredits
    {
      var currentCredits := CalculateCredits();
      var nodeValue := CalculateCostForNode(Some(n.def));
      ok := currentCredits + nodeValue <= Options.StartingCredits;
      assert (nodes + [n])[..|nodes|] == nodes;
    }

    /** `addNode(n)`: appends `n`, marked dirty. */
    method AddNode(n: Node)
      requires Valid() && n.id !in Ids(nodes)
      modifies this`nodes
      ensures Valid()
      ensures nodes == old(nodes) + [n.(dirty := true)]
      ensures Ids(nodes) == old(Ids(nodes)) + {n.id}
    {
      IdsAppend(nodes, n.(dirty := true));
      nodes := nodes + [n.(dirty := true)];
    }

    /** `addLink(l)`: appends exactly one link, with the defaults of `WithDefaults`. */
    method AddLink(l: Link)
      requires Valid() && l.source in Ids(nodes) && l.target in Ids(nodes)
      modifies this`links
      ensures Valid()
      ensures links == old(links) + [WithDefaults(l)]
    {
      links := links + [WithDefaults(l)];
    }

    /** `getNode(id)`: the stored node with that id, if any. */
    method GetNode(id: string) returns (r: Option<Node>)
      ensures r == FindById(nodes, id)
      ensures r.Some? <==> id in Ids(nodes)
    {
      var i := 0;
      while i < |nodes|
        invariant 0 <= i <= |nodes|
        invariant FindById(nodes[i..], id) == FindById(nodes, id)
      {
        if nodes[i].id == id {
          return Some(nodes[i]);
        }
        assert nodes[i..][1..] == nodes[i + 1..];
        i := i + 1;
      }
      return None;
    }

    /** `removeLink(l)`: deletes the first entry equal to `l`; nothing happens when there is none. */
    method RemoveLink(l: Link)
      requires Valid()
      modifies this`links
      ensures Valid()
      ensures links == RemoveFirst(old(links), l)
    {
      var index := IndexOf(links, l);
      if index != -1 {
        SpliceAtIndexOf(links, l);
        RemoveFirstSubset(links, l);
        links := links[..index] + links[index + 1..];
      }
    }

    /**
     * `removeNode(id)`: deletes the node with that id and exactly the links that have it as
     * source or target, and returns those links; the order of everything else is kept.
     */
    method RemoveNode(id: string) returns (removed: seq<Link>)
      requires Valid()
      modifies this`nodes, this`links
      ensures Valid()
      ensures id !in old(Ids(nodes)) ==> removed == [] && nodes == old(nodes) && links == old(links)
      ensures nodes == Filter(LacksId(id), old(nodes))
      ensures Ids(nodes) == old(Ids(nodes)) - {id}
      ensures links == Filter(NotIncidentTo(id), old(links))
      ensures removed == Filter(IncidentTo(id), old(links))
    {
      var node := GetNode(id);
      if node.None? {
        AbsentIdRemovesNothing(nodes, links, id);
        return [];
      }
      ghost var oldNodes, oldLinks := nodes, links;
      var k := IndexOf(nodes, node.value);
      assert nodes[..k] + nodes[k + 1..] == Filter(LacksId(id), oldNodes) by {
        RemoveUniqueId(nodes, id, k);
      }
      nodes := nodes[..k] + nodes[k + 1..];

      removed := Filter(IncidentTo(id), links);
      links := SpliceEach(links, removed, IncidentTo(id), NotIncidentTo(id));
      assert Valid() && Ids(nodes) == Ids(oldNodes) - {id} by {
        RemovalKeepsValid(oldNodes, oldLinks, id);
      }
    }

    /**
     * `getAllFlowNodes(start)`: `start` first, then every node joined to it by links followed
     * in either direction, each exactly once.
     */
    method GetAllFlowNodes(start: Node) returns (nns: seq<Node>)
      requires Valid() && start in nodes
      ensures |nns| > 0 && nns[0] == start
      ensures UniqueIds(nns)
      ensures forall k :: 0 <= k < |nns| ==> nns[k] in nodes && Connected(links, {start.id}, nns[k].id)
      ensures forall n :: n in nodes && Connected(links, {start.id}, n.id) ==> n in nns
    {
      nns := FlowNodes(nodes, links, start);
    }

    /**
     * `addWorkspace(ws)`: records the id (a repeated id keeps its place); "net_tab" and
     * "alloc_tab" become the network and allocation workspaces, and any other id becomes the
     * default workspace when there is none yet.
     */
    method AddWorkspace(id: string)
      requires WorkspacesValid()
      modifies this`workspaces, this`defaultWorkspace, this`netWorkspace, this`allocationWorkspace
      ensures WorkspacesValid()
      ensures id in workspaces && forall w :: w in workspaces <==> w in old(workspaces) || w == id
      ensures workspaces == AddIfAbsent(old(workspaces), id)
      ensures netWorkspace == (if id == "net_tab" then Some(id) else old(netWorkspace))
      ensures allocationWorkspace == (if id == "alloc_tab" then Some(id) else old(allocationWorkspace))
      ensures defaultWorkspace ==
        (if id != "net_tab" && id != "alloc_tab" && old(defaultWorkspace).None? then Some(id) else old(defaultWorkspace))
    {
      workspaces := AddIfAbsent(workspaces, id);
      if id == "net_tab" {
        netWorkspace := Some(id);
      } else if id == "alloc_tab" {
        allocationWorkspace := Some(id);
      } else if defaultWorkspace.None? {
        defaultWorkspace := Some(id);
      }
    }

    /**
     * `removeWorkspace(id)`: the workspace part. Removing the default workspace hands the
     * default to the first other workspace that is neither the network nor the allocation one,
     * and fails when there is none; the network and allocation workspaces are never deleted.
     * Identity is compared as the source does, so an absent id matches an unset workspace.
     */
    method DetachWorkspace(id: string) returns (completelyRemoved: bool)
      requires WorkspacesValid()
      modifies this`workspaces, this`defaultWorkspace
      ensures WorkspacesValid()
      ensures var current := if id in old(workspaces) then Some(id) else None;
        var next := FirstOtherWorkspace(old(workspaces), id, netWorkspace, allocationWorkspace);
        (completelyRemoved <==>
          if current == old(defaultWorkspace) then next.Some?
          else current != netWorkspace && current != allocationWorkspace) &&
        defaultWorkspace == (if current == old(defaultWorkspace) && next.Some? then next else old(defaultWorkspace))
      ensures workspaces == if completelyRemoved then RemoveFirst(old(workspaces), id) else old(workspaces)
      ensures completelyRemoved ==> id !in workspaces
    {
      completelyRemoved := true;
      var current := if id in workspaces then Some(id) else None;
      if current == defaultWorkspace {
        var newDefault := FindOtherWorkspace(workspaces, id, netWorkspace, allocationWorkspace);
        if newDefault.None? {
          completelyRemoved := false;
        } else {
          defaultWorkspace := newDefault;
        }
      } else if current == netWorkspace || current == allocationWorkspace {
        completelyRemoved := false;
      }
      if completelyRemoved {
        RemoveFirstNoDup(workspaces, id);
        workspaces := RemoveFirst(workspaces, id);
      }
    }

    /**
     * `removeWorkspace(id)`: detaches the workspace (see `DetachWorkspace`), then, whether or
     * not it was deleted, removes every node placed on it with `removeNode`, collecting the
     * nodes in store order and the links the removals cascade to.
     */
    method RemoveWorkspace(id: string) returns (removedNodes: seq<Node>, removedLinks: seq<Link>, completelyRemoved: bool)
      requires Valid() && WorkspacesValid()
      modifies this`workspaces, this`defaultWorkspace, this`nodes, this`links
      ensures Valid() && WorkspacesValid()
      ensures var current := if id in old(workspaces) then Some(id) else None;
        var next := FirstOtherWorkspace(old(workspaces), id, netWorkspace, allocationWorkspace);
        (completelyRemoved <==>
          if current == old(defaultWorkspace) then next.Some?
          else current != netWorkspace && current != allocationWorkspace) &&
        defaultWorkspace == (if current == old(defaultWorkspace) && next.Some? then next else old(defaultWorkspace))
      ensures workspaces == if completelyRemoved then RemoveFirst(old(workspaces), id) else old(workspaces)
      ensures completelyRemoved ==> id !in workspaces
      ensures removedNodes == Filter(InWorkspace(id), old(nodes))
      ensures nodes == Filter(OutsideWorkspace(id), old(nodes))
      ensures links == Filter(AvoidsIds(Ids(removedNodes)), old(links))
      ensures forall l :: l in removedLinks <==> l in old(links) && !AvoidsIds(Ids(removedNodes))(l)
      ensures |removedLinks| + |links| == |old(links)|
    {
      completelyRemoved := DetachWorkspace(id);
      removedNodes, removedLinks := RemoveWorkspaceNodes(id);
    }

    /** The node part of `removeWorkspace(id)`. */
    method RemoveWorkspaceNodes(id: string) returns (removedNodes: seq<Node>, removedLinks: seq<Link>)
      requires Valid()
      modifies this`nodes, this`links
      ensures Valid()
      ensures removedNodes == Filter(InWorkspace(id), old(nodes))
      ensures nodes == Filter(OutsideWorkspace(id), old(nodes))
      ensures links == Filter(AvoidsIds(Ids(removedNodes)), old(links))
      ensures forall l :: l in removedLinks <==> l in old(links) && !AvoidsIds(Ids(removedNodes))(l)
      ensures |removedLinks| + |links| == |old(links)|
    {
      removedNodes := [];
      var i := 0;
      while i < |nodes|
        invariant 0 <= i <= |nodes|
        invariant removedNodes == Filter(InWorkspace(id), nodes[..i])
      {
        assert nodes[..i + 1][..i] == nodes[..i];
        if nodes[i].z == id {
          removedNodes := removedNodes + [nodes[i]];
        }
        i := i + 1;
      }
      assert nodes[..i] == nodes;
      ghost var ns0, ls0 := nodes, links;
      ghost var gone: set<string> := {};
      assert nodes == Filter(LacksIds(gone), ns0) && links == Filter(AvoidsIds(gone), ls0) by {
        NoIdsRemoved(ns0, ls0);
      }
      removedLinks := [];
      var k := 0;
      while k < |removedNodes|
        invariant 0 <= k <= |removedNodes|
        invariant gone == Ids(removedNodes[..k])
        invariant Valid()
        invariant nodes == Filter(LacksIds(gone), ns0)
        invariant links == Filter(AvoidsIds(gone), ls0)
        invariant CascadeSoFar(ls0, links, removedLinks, gone)
      {
        ghost var ls1 := links;
        var rid := removedNodes[k].id;
        var rmlinks := RemoveNode(rid);
        CascadeStep(ns0, ls0, ls1, removedLinks, rmlinks, gone, rid);
        IdsPrefixStep(removedNodes, k);
        gone := gone + {rid};
        removedLinks := removedLinks + rmlinks;
        k := k + 1;
      }
      assert removedNodes[..k] == removedNodes;
      assert nodes == Filter(OutsideWorkspace(id), ns0) by {
        WorkspaceIdsMatch(ns0, id, removedNodes);
      }
    }

    /**
     * `convertNode(n)`'s `wires`: one list per output port, then the outgoing links of `n` in
     * store order, each appended to the list of its source port. A port beyond the current
     * length is assigned directly, which leaves holes (None) below it.
     */
    method ConvertWires(n: Node) returns (wires: seq<Option<seq<WireOut>>>)
      ensures WiresFor(wires, links, n.id, n.outputs)
    {
      wires := [];
      var j := 0;
      while j < n.outputs
        invariant 0 <= j && (j <= n.outputs || j == 0)
        invariant wires == seq(j, _ => Some([]))
      {
        wires := wires + [Some([])];
        j := j + 1;
      }
      assert WiresFor(wires, links[..0], n.id, n.outputs);
      var i := 0;
      while i < |links|
        invariant 0 <= i <= |links|
        invariant WiresFor(wires, links[..i], n.id, n.outputs)
      {
        var l := links[i];
        assert links[..i + 1] == links[..i] + [l];
        if l.source == n.id {
          var p := l.sourcePort;
          var obj := ToWire(l);
          if p < |wires| && wires[p].Some? {
            AppendToPort(wires, links[..i], n.id, n.outputs, l);
            wires := wires[p := Some(wires[p].value + [obj])];
          } else if p < |wires| {
            OpenPort(wires, links[..i], n.id, n.outputs, l);
            wires := wires[p := Some([obj])];
          } else {
            ExtendPorts(wires, links[..i], n.id, n.outputs, l);
            wires := wires + seq(p - |wires|, _ => None) + [Some([obj])];
          }
        } else {
          SkipLink(wires, links[..i], n.id, n.outputs, l);
        }
        i := i + 1;
      }
      assert links[..i] == links;
    }
  }

  /** The breadth-first search of `getAllFlowNodes` over the stored nodes `ns` and links `ls`. */
  method FlowNodes(ns: seq<Node>, ls: seq<Link>, start: Node) returns (nns: seq<Node>)
    requires UniqueIds(ns) && EndpointsStored(ns, ls) && start in ns
    ensures |nns| > 0 && nns[0] == start
    ensures UniqueIds(nns)
    ensures forall k :: 0 <= k < |nns| ==> nns[k] in ns && Connected(ls, {start.id}, nns[k].id)
    ensures forall n :: n in ns && Connected(ls, {start.id}, n.id) ==> n in nns
  {
    ghost var done: set<string> := {};
    var visited: set<string> := {start.id};
    nns := [start];
    var stack := [start];
    FlowSearchStart(ns, ls, start);
    while |stack| != 0
      invariant FlowSearch(ns, ls, start, nns, visited, done, {}, stack)
      decreases Ids(ns) - visited, |stack|
    {
      var n := stack[0];
      FlowSearchPop(ns, ls, start, nns, visited, done, stack);
      stack := stack[1..];
      nns, visited, stack := VisitChildren(ns, ls, start, n, nns, visited, done, stack);
      done := done + {n.id};
    }
    FlowSearchComplete(ns, ls, start, nns, visited, done);
  }

  /** One round of the search: every link at `n` whose far end is not yet visited queues that end. */
  method VisitChildren(ns: seq<Node>, ls: seq<Link>, start: Node, n: Node, nns: seq<Node>,
                       visited: set<string>, ghost done: set<string>, stack: seq<Node>)
    returns (nns': seq<Node>, visited': set<string>, stack': seq<Node>)
    requires EndpointsStored(ns, ls)
    requires FlowSearch(ns, ls, start, nns, visited, done, {n.id}, stack)
    ensures FlowSearch(ns, ls, start, nns', visited', done + {n.id}, {}, stack')
    ensures visited <= visited'
    ensures visited' == visited ==> stack' == stack
  {
    nns', visited', stack' := nns, visited, stack;
    var childLinks := Filter(IncidentTo(n.id), ls);
    var i := 0;
    while i < |childLinks|
      invariant 0 <= i <= |childLinks|
      invariant FlowSearch(ns, ls, start, nns', visited', done, {n.id}, stack')
      invariant forall j :: 0 <= j < i ==> Other(childLinks[j], n.id) in visited'
      invariant visited <= visited'
      invariant visited' == visited ==> stack' == stack
    {
      FilterAt(IncidentTo(n.id), ls, i);
      ghost var visited0, stack0 := visited', stack';
      nns', visited', stack' := VisitChild(ns, ls, start, n, childLinks[i], nns', visited', done, stack');
      ChildrenSoFar(childLinks, n.id, i, visited, visited0, visited', stack, stack0, stack');
      i := i + 1;
    }
    FilterMembers(IncidentTo(n.id), ls);
    forall l | l in ls && Touches(l, n.id) ensures Other(l, n.id) in visited' {
      assert l in childLinks;
    }
    FlowSearchFinish(ns, ls, start, nns', visited', done, n.id, stack');
  }

  /** Bookkeeping of the child loop: earlier far ends stay visited, and nothing new means nothing queued. */
  lemma ChildrenSoFar(cl: seq<Link>, a: string, i: int, v: set<string>, v0: set<string>, v1: set<string>,
                      s: seq<Node>, s0: seq<Node>, s1: seq<Node>)
    requires 0 <= i < |cl|
    requires forall j :: 0 <= j < i ==> Other(cl[j], a) in v0
    requires Other(cl[i], a) in v1
    requires v <= v0 <= v1
    requires v0 == v ==> s0 == s
    requires v1 == v0 ==> s1 == s0
    ensures forall j :: 0 <= j < i + 1 ==> Other(cl[j], a) in v1
    ensures v1 == v ==> s1 == s
  {
  }

  /** One link of the node being expanded: its far end is visited and queued unless seen before. */
  method VisitChild(ns: seq<Node>, ls: seq<Link>, start: Node, n: Node, l: Link, nns: seq<Node>,
                    visited: set<string>, ghost done: set<string>, stack: seq<Node>)
    returns (nns': seq<Node>, visited': set<string>, stack': seq<Node>)
    requires EndpointsStored(ns, ls) && l in ls && Touches(l, n.id)
    requires FlowSearch(ns, ls, start, nns, visited, done, {n.id}, stack)
    ensures FlowSearch(ns, ls, start, nns', visited', done, {n.id}, stack')
    ensures Other(l, n.id) in visited'
    ensures visited <= visited'
    ensures visited' == visited ==> stack' == stack
  {
    nns', visited', stack' := nns, visited, stack;
    var childId := if l.source == n.id then l.target else l.source;
    assert childId == Other(l, n.id);
    if childId !in visited {
      assert LinkStored(ns, l);
      var child := FindById(ns, childId).value;
      FlowSearchVisit(ns, ls, start, nns, visited, done, n.id, stack, l, child);
      visited' := visited + {childId};
      nns' := nns + [child];
      stack' := stack + [child];
    }
  }

  /**
   * The invariant of the search in `getAllFlowNodes`: `nns` lists the visited nodes, each
   * reachable from `start`; every visited id is finished (`done`), being expanded (`cur`) or
   * queued; and the links of finished ids lead only to visited ids.
   */
  ghost predicate FlowSearch(ns: seq<Node>, ls: seq<Link>, start: Node, nns: seq<Node>,
                             visited: set<string>, done: set<string>, cur: set<string>, stack: seq<Node>)
  {
    |nns| > 0 && nns[0] == start && UniqueIds(nns) && visited == Ids(nns) && visited <= Ids(ns) &&
    (forall k :: 0 <= k < |nns| ==> nns[k] in ns) &&
    (forall k :: 0 <= k < |stack| ==> stack[k] in ns && stack[k].id in visited) &&
    cur <= visited &&
    (forall a :: a in visited ==> a in done || a in cur || a in Ids(stack)) &&
    (forall a :: a in visited ==> Connected(ls, {start.id}, a)) &&
    (forall li, a :: 0 <= li < |ls| && a in done && Touches(ls[li], a) ==> Other(ls[li], a) in visited)
  }

  lemma FlowSearchStart(ns: seq<Node>, ls: seq<Link>, start: Node)
    requires start in ns
    ensures FlowSearch(ns, ls, start, [start], {start.id}, {}, {}, [start])
  {
    assert Ids([start]) == {start.id} by {
      assert [start][0] == start;
    }
    ConnectedStart(ls, {start.id}, start.id);
  }

  lemma FlowSearchPop(ns: seq<Node>, ls: seq<Link>, start: Node, nns: seq<Node>,
                      visited: set<string>, done: set<string>, stack: seq<Node>)
    requires FlowSearch(ns, ls, start, nns, visited, done, {}, stack) && |stack| > 0
    ensures stack[0] in ns && stack[0].id in visited
    ensures FlowSearch(ns, ls, start, nns, visited, done, {stack[0].id}, stack[1..])
  {
    forall a | a in visited ensures a in done || a in {stack[0].id} || a in Ids(stack[1..]) {
      if a in Ids(stack) && a != stack[0].id {
        var k :| 0 <= k < |stack| && stack[k].id == a;
        assert stack[1..][k - 1] == stack[k];
      }
    }
    forall k | 0 <= k < |stack[1..]| ensures stack[1..][k] in ns && stack[1..][k].id in visited {
      assert stack[1..][k] == stack[k + 1];
    }
  }

  lemma FlowSearchVisit(ns: seq<Node>, ls: seq<Link>, start: Node, nns: seq<Node>,
                        visited: set<string>, done: set<string>, cur: string, stack: seq<Node>,
                        l: Link, child: Node)
    requires FlowSearch(ns, ls, start, nns, visited, done, {cur}, stack)
    requires l in ls && Touches(l, cur)
    requires Other(l, cur) !in visited && child in ns && child.id == Other(l, cur)
    ensures FlowSearch(ns, ls, start, nns + [child], visited + {child.id}, done, {cur}, stack + [child])
    ensures visited + {child.id} <= Ids(ns)
  {
    ConnectedStep(ls, {start.id}, l, cur);
    IdsAppend(nns, child);
    IdsAppend(stack, child);
    var nns' := nns + [child];
    forall k | 0 <= k < |nns'| ensures nns'[k] in ns {
      if k < |nns| { assert nns'[k] == nns[k]; }
    }
    forall i, j | 0 <= i < j < |nns'| ensures nns'[i].id != nns'[j].id {
      assert nns'[i] == nns[i];
      if j < |nns| { assert nns'[j] == nns[j]; } else { assert nns[i].id in Ids(nns); }
    }
    var stack' := stack + [child];
    forall k | 0 <= k < |stack'| ensures stack'[k] in ns && stack'[k].id in visited + {child.id} {
      if k < |stack| { assert stack'[k] == stack[k]; }
    }
    assert child.id in Ids(ns);
  }

  lemma FlowSearchFinish(ns: seq<Node>, ls: seq<Link>, start: Node, nns: seq<Node>,
                         visited: set<string>, done: set<string>, cur: string, stack: seq<Node>)
    requires FlowSearch(ns, ls, start, nns, visited, done, {cur}, stack)
    requires forall l :: l in ls && Touches(l, cur) ==> Other(l, cur) in visited
    ensures FlowSearch(ns, ls, start, nns, visited, done + {cur}, {}, stack)
  {
    forall li, a | 0 <= li < |ls| && a in done + {cur} && Touches(ls[li], a)
      ensures Other(ls[li], a) in visited
    {
      if a == cur {
        assert ls[li] in ls;
      }
    }
  }

  lemma FlowSearchComplete(ns: seq<Node>, ls: seq<Link>, start: Node, nns: seq<Node>,
                           visited: set<string>, done: set<string>)
    requires UniqueIds(ns) && FlowSearch(ns, ls, start, nns, visited, done, {}, [])
    ensures |nns| > 0 && nns[0] == start && UniqueIds(nns)
    ensures forall k :: 0 <= k < |nns| ==> nns[k] in ns && Connected(ls, {start.id}, nns[k].id)
    ensures forall n :: n in ns && Connected(ls, {start.id}, n.id) ==> n in nns
  {
    FlowSearchSound(ns, ls, start, nns, visited, done);
    FlowSearchCovers(ns, ls, start, nns, visited, done);
  }

  /** Every id the finished search listed is connected to the start. */
  lemma FlowSearchSound(ns: seq<Node>, ls: seq<Link>, start: Node, nns: seq<Node>,
                        visited: set<string>, done: set<string>)
    requires FlowSearch(ns, ls, start, nns, visited, done, {}, [])
    ensures forall k :: 0 <= k < |nns| ==> Connected(ls, {start.id}, nns[k].id)
  {
    forall k | 0 <= k < |nns| ensures Connected(ls, {start.id}, nns[k].id) {
      assert nns[k].id in Ids(nns);
    }
  }

  /** The finished search is closed under following links, so it lists every connected node. */
  lemma FlowSearchCovers(ns: seq<Node>, ls: seq<Link>, start: Node, nns: seq<Node>,
                         visited: set<string>, done: set<string>)
    requires UniqueIds(ns) && FlowSearch(ns, ls, start, nns, visited, done, {}, [])
    ensures forall n :: n in ns && Connected(ls, {start.id}, n.id) ==> n in nns
  {
    assert {start.id} <= visited by {
      assert nns[0].id in Ids(nns);
    }
    assert visited <= done by {
      forall a | a in visited ensures a in done {
        assert a !in Ids([]);
      }
    }
    forall m | m in ns && Connected(ls, {start.id}, m.id) ensures m in nns {
      ClosedContainsConnected(ls, {start.id}, visited, m.id);
      FoundInList(ns, nns, m);
    }
  }

  lemma FoundInList(ns: seq<Node>, nns: seq<Node>, m: Node)
    requires UniqueIds(ns) && m in ns && m.id in Ids(nns)
    requires forall k :: 0 <= k < |nns| ==> nns[k] in ns
    ensures m in nns
  {
    var k :| 0 <= k < |nns| && nns[k].id == m.id;
    SameIdSameNode(ns, nns[k], m);
  }

  /**
   * Splices each link of `marked` (the links of `ls` that satisfy `bad`) out of `ls`, in order,
   * at its `indexOf`: what remains are the links that satisfy `keep`, the complement of `bad`.
   */
  method SpliceEach(ls: seq<Link>, marked: seq<Link>, bad: Link -> bool, keep: Link -> bool) returns (remaining: seq<Link>)
    requires marked == Filter(bad, ls)
    requires forall x :: keep(x) == !bad(x)
    ensures remaining == Filter(keep, ls)
  {
    remaining := ls;
    var i := 0;
    while i < |marked|
      invariant 0 <= i <= |marked|
      invariant remaining == DropMarked(ls, bad, i)
    {
      var index := IndexOf(remaining, marked[i]);
      SpliceMarked(remaining, ls, bad, i);
      if index != -1 {
        remaining := remaining[..index] + remaining[index + 1..];
      }
      i := i + 1;
    }
    DropMarkedAll(ls, bad, keep);
  }

  /** Splicing out, at its `indexOf`, the next marked link is one `DropMarked` step. */
  lemma SpliceMarked(ls: seq<Link>, orig: seq<Link>, bad: Link -> bool, i: nat)
    requires i < |Filter(bad, orig)| && ls == DropMarked(orig, bad, i)
    ensures var x := Filter(bad, orig)[i];
      var index := IndexOf(ls, x);
      (index != -1 ==> ls[..index] + ls[index + 1..] == DropMarked(orig, bad, i + 1)) &&
      (index == -1 ==> ls == DropMarked(orig, bad, i + 1))
  {
    var x := Filter(bad, orig)[i];
    DropMarkedStep(orig, bad, i);
    if x in ls {
      SpliceAtIndexOf(ls, x);
    }
  }

  /** Removing an id that no node has changes neither list and removes no link. */
  lemma AbsentIdRemovesNothing(ns: seq<Node>, ls: seq<Link>, id: string)
    requires EndpointsStored(ns, ls) && id !in Ids(ns)
    ensures Filter(LacksId(id), ns) == ns
    ensures Filter(NotIncidentTo(id), ls) == ls
    ensures Filter(IncidentTo(id), ls) == []
  {
    forall i | 0 <= i < |ns| ensures LacksId(id)(ns[i]) {
      assert ns[i].id in Ids(ns);
    }
    FilterKeepsAll(LacksId(id), ns);
    forall i | 0 <= i < |ls| ensures NotIncidentTo(id)(ls[i]) {
      assert ls[i] in ls;
    }
    FilterKeepsAll(NotIncidentTo(id), ls);
    FilterComplementLength(IncidentTo(id), NotIncidentTo(id), ls);
  }

  /** After removing node `id` and its incident links, ids stay unique and every endpoint stays stored. */
  lemma RemovalKeepsValid(ns: seq<Node>, ls: seq<Link>, id: string)
    requires UniqueIds(ns) && EndpointsStored(ns, ls)
    ensures UniqueIds(Filter(LacksId(id), ns))
    ensures Ids(Filter(LacksId(id), ns)) == Ids(ns) - {id}
    ensures EndpointsStored(Filter(LacksId(id), ns), Filter(NotIncidentTo(id), ls))
  {
    var ns' := Filter(LacksId(id), ns);
    FilterUniqueIds(LacksId(id), ns);
    FilterIds(LacksId(id), ns);
    assert Ids(ns') == Ids(ns) - {id};
    FilterMembers(NotIncidentTo(id), ls);
    forall l | l in Filter(NotIncidentTo(id), ls) ensures l.source in Ids(ns') && l.target in Ids(ns') {
      assert l in ls && !Touches(l, id);
    }
  }

  lemma {:induction false} RemoveFirstSubset<T(!new)>(s: seq<T>, x: T)
    ensures forall y :: y in RemoveFirst(s, x) ==> y in s
  {
    if s != [] && s[0] != x {
      RemoveFirstSubset(s[1..], x);
    }
  }

  /** With unique ids, splicing out the node at `k`, whose id is `id`, keeps exactly the other ids. */
  lemma {:induction false} RemoveUniqueId(ns: seq<Node>, id: string, k: int)
    requires UniqueIds(ns) && 0 <= k < |ns| && ns[k].id == id
    ensures ns[..k] + ns[k + 1..] == Filter(LacksId(id), ns)
  {
    var ns' := ns[..|ns| - 1];
    if k == |ns| - 1 {
      forall i | 0 <= i < |ns'| ensures LacksId(id)(ns'[i]) {
        assert ns'[i] == ns[i];
      }
      FilterKeepsAll(LacksId(id), ns');
      assert ns[k + 1..] == [];
    } else {
      RemoveUniqueId(ns', id, k);
      assert ns[|ns| - 1].id != id;
      assert ns'[..k] == ns[..k];
      assert ns'[k + 1..] + [ns[|ns| - 1]] == ns[k + 1..];
    }
  }

  // ---------------------------------------------------------------- workspaces

  /**
   * The first workspace in `ws` that is not `id` and is neither the network nor the
   * allocation workspace: the replacement default of `removeWorkspace`.
   */
  function FirstOtherWorkspace(ws: seq<string>, id: string, net: Option<string>, alloc: Option<string>): (r: Option<string>)
    ensures r.Some? ==> r.value in ws && r.value != id && Some(r.value) != net && Some(r.value) != alloc
    ensures r.None? <==> forall i :: 0 <= i < |ws| ==> ws[i] == id || Some(ws[i]) == net || Some(ws[i]) == alloc
    ensures r.Some? ==> forall i :: 0 <= i < IndexOf(ws, r.value) ==> ws[i] == id || Some(ws[i]) == net || Some(ws[i]) == alloc
  {
    if ws == [] then None
    else if ws[0] != id && Some(ws[0]) != net && Some(ws[0]) != alloc then Some(ws[0])
    else
      var r := FirstOtherWorkspace(ws[1..], id, net, alloc);
      assert forall i :: 0 <= i < |ws[1..]| ==> ws[1..][i] == ws[i + 1];
      r
  }

  /** The `for (var w in workspaces)` search, with its `break`, of `removeWorkspace`. */
  method FindOtherWorkspace(ws: seq<string>, id: string, net: Option<string>, alloc: Option<string>) returns (r: Option<string>)
    ensures r == FirstOtherWorkspace(ws, id, net, alloc)
  {
    r := None;
    var i := 0;
    while i < |ws|
      invariant 0 <= i <= |ws|
      invariant FirstOtherWorkspace(ws, id, net, alloc) == (if r.Some? then r else FirstOtherWorkspace(ws[i..], id, net, alloc))
      invariant r.Some? ==> i == |ws|
    {
      var w := ws[i];
      assert ws[i..] == [w] + ws[i + 1..];
      if w != id && Some(w) != net && Some(w) != alloc {
        r := Some(w);
        i := |ws|;
      } else {
        i := i + 1;
      }
    }
  }

  /** Deleting an entry of a duplicate-free list keeps it duplicate-free and removes just that entry. */
  lemma {:induction false} RemoveFirstNoDup<T(!new)>(s: seq<T>, x: T)
    requires NoDup(s)
    ensures NoDup(RemoveFirst(s, x))
    ensures forall y :: y in RemoveFirst(s, x) <==> y in s && y != x
  {
    if s != [] && s[0] != x {
      assert NoDup(s[1..]) by {
        forall i, j | 0 <= i < j < |s[1..]| ensures s[1..][i] != s[1..][j] {
          assert s[1..][i] == s[i + 1] && s[1..][j] == s[j + 1];
        }
      }
      RemoveFirstNoDup(s[1..], x);
      var r := RemoveFirst(s[1..], x);
      assert s[0] !in s[1..];
      forall i, j | 0 <= i < j < |[s[0]] + r| ensures ([s[0]] + r)[i] != ([s[0]] + r)[j] {
        if i > 0 {
          assert ([s[0]] + r)[i] == r[i - 1];
        }
        assert ([s[0]] + r)[j] == r[j - 1];
        assert r[j - 1] in r;
      }
    } else if s != [] {
      forall y | y in s[1..] ensures y != x {
        var j :| 0 <= j < |s[1..]| && s[1..][j] == y;
        assert s[j + 1] == y;
      }
      forall i, j | 0 <= i < j < |s[1..]| ensures s[1..][i] != s[1..][j] {
        assert s[1..][i] == s[i + 1] && s[1..][j] == s[j + 1];
      }
    }
  }

  function InWorkspace(id: string): Node -> bool {
    (n: Node) => n.z == id
  }

  function OutsideWorkspace(id: string): Node -> bool {
    (n: Node) => n.z != id
  }

  function LacksIds(r: set<string>): Node -> bool {
    (n: Node) => n.id !in r
  }

  /** Neither end of the link is in `r`. */
  function AvoidsIds(r: set<string>): Link -> bool {
    (l: Link) => l.source !in r && l.target !in r
  }

  /**
   * The links removed so far, while the nodes with ids in `r` have been removed from a store
   * that held the links `ls0` and now holds `ls`: exactly the links with an end in `r`.
   */
  ghost predicate CascadeSoFar(ls0: seq<Link>, ls: seq<Link>, removed: seq<Link>, r: set<string>) {
    |removed| + |ls| == |ls0| &&
    forall l :: l in removed <==> l in ls0 && !AvoidsIds(r)(l)
  }

  lemma NoIdsRemoved(ns: seq<Node>, ls: seq<Link>)
    ensures ns == Filter(LacksIds({}), ns)
    ensures ls == Filter(AvoidsIds({}), ls)
  {
    FilterKeepsAll(LacksIds({}), ns);
    FilterKeepsAll(AvoidsIds({}), ls);
  }

  /** One `removeNode(rid)` of the cascade: node and link lists and the removed links advance together. */
  lemma CascadeStep(ns0: seq<Node>, ls0: seq<Link>, ls: seq<Link>, removed: seq<Link>, rmlinks: seq<Link>,
                    r: set<string>, rid: string)
    requires ls == Filter(AvoidsIds(r), ls0)
    requires CascadeSoFar(ls0, ls, removed, r)
    requires rmlinks == Filter(IncidentTo(rid), ls)
    ensures Filter(LacksId(rid), Filter(LacksIds(r), ns0)) == Filter(LacksIds(r + {rid}), ns0)
    ensures Filter(NotIncidentTo(rid), ls) == Filter(AvoidsIds(r + {rid}), ls0)
    ensures CascadeSoFar(ls0, Filter(NotIncidentTo(rid), ls), removed + rmlinks, r + {rid})
  {
    FilterFilter(LacksIds(r), LacksId(rid), LacksIds(r + {rid}), ns0);
    FilterFilter(AvoidsIds(r), NotIncidentTo(rid), AvoidsIds(r + {rid}), ls0);
    CascadeRemovedStep(ls0, ls, removed, rmlinks, r, rid);
  }

  lemma CascadeRemovedStep(ls0: seq<Link>, ls: seq<Link>, removed: seq<Link>, rmlinks: seq<Link>, r: set<string>, rid: string)
    requires ls == Filter(AvoidsIds(r), ls0)
    requires CascadeSoFar(ls0, ls, removed, r)
    requires rmlinks == Filter(IncidentTo(rid), ls)
    ensures CascadeSoFar(ls0, Filter(NotIncidentTo(rid), ls), removed + rmlinks, r + {rid})
  {
    FilterComplementLength(IncidentTo(rid), NotIncidentTo(rid), ls);
    FilterMembers(IncidentTo(rid), ls);
    FilterMembers(AvoidsIds(r), ls0);
    forall l ensures l in removed + rmlinks <==> l in ls0 && !AvoidsIds(r + {rid})(l) {
      assert l in rmlinks <==> l in ls0 && AvoidsIds(r)(l) && Touches(l, rid);
      assert l in removed <==> l in ls0 && !AvoidsIds(r)(l);
      assert !AvoidsIds(r + {rid})(l) <==> !AvoidsIds(r)(l) || Touches(l, rid);
    }
  }

  /** With unique ids, the nodes whose id is one of the removed nodes' are exactly the nodes on workspace `id`. */
  lemma WorkspaceIdsMatch(ns: seq<Node>, id: string, removed: seq<Node>)
    requires UniqueIds(ns) && removed == Filter(InWorkspace(id), ns)
    ensures Filter(LacksIds(Ids(removed)), ns) == Filter(OutsideWorkspace(id), ns)
  {
    FilterMembers(InWorkspace(id), ns);
    forall i | 0 <= i < |ns| ensures LacksIds(Ids(removed))(ns[i]) == OutsideWorkspace(id)(ns[i]) {
      if ns[i].z == id {
        assert ns[i] in removed;
        var j := IndexOf(removed, ns[i]);
        assert removed[j].id == ns[i].id;
      } else if ns[i].id in Ids(removed) {
        var j :| 0 <= j < |removed| && removed[j].id == ns[i].id;
        assert removed[j] in ns;
        SameIdSameNode(ns, removed[j], ns[i]);
      }
    }
    FilterExt(LacksIds(Ids(removed)), OutsideWorkspace(id), ns);
  }

  // ---------------------------------------------------------------- export of wires

  /** One entry of a port's wire list in the exported form of a node. */
  datatype WireOut = WireOut(task: string, sourcePort: nat, targetPort: nat, protocol: Option<string>)

  function ToWire(l: Link): WireOut {
    WireOut(l.target, l.sourcePort, l.targetPort, l.protocol)
  }

  /** Some link of `ls` leaves `id` at port `p`. */
  predicate PortUsed(ls: seq<Link>, id: string, p: int) {
    exists i :: 0 <= i < |ls| && ls[i].source == id && ls[i].sourcePort == p
  }

  /** The wires of the links of `ls` that leave `id` at port `p`, in link order. */
  function PortWires(ls: seq<Link>, id: string, p: int): seq<WireOut> {
    if ls == [] then []
    else
      var l := ls[|ls| - 1];
      PortWires(ls[..|ls| - 1], id, p) + (if l.source == id && l.sourcePort == p then [ToWire(l)] else [])
  }

  /**
   * `wires` is the export of the outgoing links of `id` among `ls` for a node with `outputs`
   * output ports: a list for each port below `outputs` or used by a link, holding that port's
   * wires in link order; a hole for every other index; and no index past the last list.
   */
  ghost predicate WiresFor(wires: seq<Option<seq<WireOut>>>, ls: seq<Link>, id: string, outputs: int) {
    |wires| >= outputs &&
    (|wires| > 0 ==> wires[|wires| - 1].Some?) &&
    (forall i :: 0 <= i < |ls| && ls[i].source == id ==> ls[i].sourcePort < |wires|) &&
    (forall p :: 0 <= p < |wires| ==> (wires[p].Some? <==> p < outputs || PortUsed(ls, id, p))) &&
    (forall p :: 0 <= p < |wires| && wires[p].Some? ==> wires[p].value == PortWires(ls, id, p))
  }

  lemma PortStep(ls: seq<Link>, id: string, l: Link, p: int)
    ensures PortWires(ls + [l], id, p) == PortWires(ls, id, p) + (if l.source == id && l.sourcePort == p then [ToWire(l)] else [])
    ensures PortUsed(ls + [l], id, p) <==> PortUsed(ls, id, p) || (l.source == id && l.sourcePort == p)
  {
    assert (ls + [l])[..|ls|] == ls;
    if PortUsed(ls, id, p) {
      var i :| 0 <= i < |ls| && ls[i].source == id && ls[i].sourcePort == p;
      assert (ls + [l])[i] == ls[i];
    }
    if PortUsed(ls + [l], id, p) {
      var i :| 0 <= i < |ls + [l]| && (ls + [l])[i].source == id && (ls + [l])[i].sourcePort == p;
      if i < |ls| {
        assert (ls + [l])[i] == ls[i];
      }
    }
    if l.source == id && l.sourcePort == p {
      assert (ls + [l])[|ls|] == l;
    }
  }

  lemma SkipLink(wires: seq<Option<seq<WireOut>>>, ls: seq<Link>, id: string, outputs: int, l: Link)
    requires WiresFor(wires, ls, id, outputs) && l.source != id
    ensures WiresFor(wires, ls + [l], id, outputs)
  {
    forall p | 0 <= p < |wires| ensures (PortUsed(ls + [l], id, p) <==> PortUsed(ls, id, p)) && PortWires(ls + [l], id, p) == PortWires(ls, id, p) {
      PortStep(ls, id, l, p);
    }
    forall i | 0 <= i < |ls + [l]| && (ls + [l])[i].source == id ensures (ls + [l])[i].sourcePort < |wires| {
      assert (ls + [l])[i] == ls[i];
    }
  }

  lemma AppendToPort(wires: seq<Option<seq<WireOut>>>, ls: seq<Link>, id: string, outputs: int, l: Link)
    requires WiresFor(wires, ls, id, outputs) && l.source == id
    requires l.sourcePort < |wires| && wires[l.sourcePort].Some?
    ensures WiresFor(wires[l.sourcePort := Some(wires[l.sourcePort].value + [ToWire(l)])], ls + [l], id, outputs)
  {
    var w' := wires[l.sourcePort := Some(wires[l.sourcePort].value + [ToWire(l)])];
    forall p | 0 <= p < |w'| ensures (w'[p].Some? <==> p < outputs || PortUsed(ls + [l], id, p))
      && (w'[p].Some? ==> w'[p].value == PortWires(ls + [l], id, p)) {
      PortStep(ls, id, l, p);
    }
    forall i | 0 <= i < |ls + [l]| && (ls + [l])[i].source == id ensures (ls + [l])[i].sourcePort < |w'| {
      if i < |ls| { assert (ls + [l])[i] == ls[i]; }
    }
  }

  lemma OpenPort(wires: seq<Option<seq<WireOut>>>, ls: seq<Link>, id: string, outputs: int, l: Link)
    requires WiresFor(wires, ls, id, outputs) && l.source == id
    requires l.sourcePort < |wires| && wires[l.sourcePort].None?
    ensures WiresFor(wires[l.sourcePort := Some([ToWire(l)])], ls + [l], id, outputs)
  {
    var w' := wires[l.sourcePort := Some([ToWire(l)])];
    forall p | 0 <= p < |w'| ensures (w'[p].Some? <==> p < outputs || PortUsed(ls + [l], id, p))
      && (w'[p].Some? ==> w'[p].value == PortWires(ls + [l], id, p)) {
      PortStep(ls, id, l, p);
      if p == l.sourcePort {
        PortWiresUnused(ls, id, p);
      }
    }
    forall i | 0 <= i < |ls + [l]| && (ls + [l])[i].source == id ensures (ls + [l])[i].sourcePort < |w'| {
      if i < |ls| { assert (ls + [l])[i] == ls[i]; }
    }
  }

  lemma ExtendPorts(wires: seq<Option<seq<WireOut>>>, ls: seq<Link>, id: string, outputs: int, l: Link)
    requires WiresFor(wires, ls, id, outputs) && l.source == id
    requires l.sourcePort >= |wires|
    ensures WiresFor(wires + seq(l.sourcePort - |wires|, _ => None) + [Some([ToWire(l)])], ls + [l], id, outputs)
  {
    var w' := wires + seq(l.sourcePort - |wires|, _ => None) + [Some([ToWire(l)])];
    forall p | 0 <= p < |w'| ensures (w'[p].Some? <==> p < outputs || PortUsed(ls + [l], id, p))
      && (w'[p].Some? ==> w'[p].value == PortWires(ls + [l], id, p)) {
      PortStep(ls, id, l, p);
      if p >= |wires| {
        PortWiresUnused(ls, id, p);
      } else {
        assert w'[p] == wires[p];
      }
    }
    forall i | 0 <= i < |ls + [l]| && (ls + [l])[i].source == id ensures (ls + [l])[i].sourcePort < |w'| {
      if i < |ls| { assert (ls + [l])[i] == ls[i]; }
    }
  }

  lemma {:induction false} PortWiresUnused(ls: seq<Link>, id: string, p: int)
    requires !PortUsed(ls, id, p)
    ensures PortWires(ls, id, p) == []
  {
    if ls != [] {
      var ls' := ls[..|ls| - 1];
      forall i | 0 <= i < |ls'| ensures !(ls'[i].source == id && ls'[i].sourcePort == p) {
        assert ls[i] == ls'[i];
      }
      PortWiresUnused(ls', id, p);
      assert ls[|ls| - 1].source != id || ls[|ls| - 1].sourcePort != p;
    }
  }

  // ---------------------------------------------------------------- link attributes

  /** The three attribute groups a link may carry; None is an absent group. */
  datatype LinkAttributes = LinkAttributes(user: Option<map<string, Value>>, net: Option<map<string, Value>>, sim: Option<map<string, Value>>)

  datatype Attr = Attr(value: Value, category: int)

  /**
   * `getLinkAttr(d, name)`: the user value (category 3) wins over the network value (2),
   * which wins over the simulation value (1); ("", -1) when no group has the name.
   */
  function GetLinkAttr(d: LinkAttributes, name: string): (r: Attr)
    ensures r.category in {-1, 1, 2, 3}
    ensures r.category == 3 <==> d.user.Some? && name in d.user.value
    ensures r.category == 2 <==> !(d.user.Some? && name in d.user.value) && d.net.Some? && name in d.net.value
    ensures r.category == 1 <==>
      (!(d.user.Some? && name in d.user.value) && !(d.net.Some? && name in d.net.value) && d.sim.Some? && name in d.sim.value)
    ensures r.category == 3 ==> r.value == d.user.value[name]
    ensures r.category == 2 ==> r.value == d.net.value[name]
    ensures r.category == 1 ==> r.value == d.sim.value[name]
    ensures r.category == -1 ==> r.value == Str("")
  {
    if d.user.Some? && name in d.user.value then Attr(d.user.value[name], 3)
    else if d.net.Some? && name in d.net.value then Attr(d.net.value[name], 2)
    else if d.sim.Some? && name in d.sim.value then Attr(d.sim.value[name], 1)
    else Attr(Str(""), -1)
  }
}
