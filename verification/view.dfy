/**
 * The graph rules embedded in the floor-plan view (src/ui/view.js): breaking links that are
 * out of range, the bin region, the wearable box, moving and deleting the selection, and the
 * checks made when a drag between two ports ends.
 */
module View {
  import opened Wrappers
  import opened Seqs
  import opened Nodes
  import opened Store
  import Options

  // ---------------------------------------------------------------- link ranges

  /** The protocol record named by the link, if the link names a known one. */
  function LinkProtocol(l: Link): Option<Options.Protocol> {
    if l.protocol.Some? then Options.GetProtocolByName(l.protocol.value) else None
  }

  /** A stored link whose protocol is known and whose target is beyond that protocol's range. */
  function OutOfRange(ns: seq<Node>): Link -> bool {
    (l: Link) =>
      LinkProtocol(l).Some? && l.source in Ids(ns) && l.target in Ids(ns) &&
      !WithinRange(LinkProtocol(l).value.range, FindById(ns, l.source).value, FindById(ns, l.target).value)
  }

  function InRangeOrUnknown(ns: seq<Node>): Link -> bool {
    (l: Link) => !OutOfRange(ns)(l)
  }

  /** The `eachLink` pass of `checkLinkRanges`: the out-of-range links, in store order. */
  method CollectOutOfRange(ns: seq<Node>, ls: seq<Link>) returns (toRemove: seq<Link>)
    ensures toRemove == Filter(OutOfRange(ns), ls)
  {
    toRemove := [];
    var i := 0;
    while i < |ls|
      invariant 0 <= i <= |ls|
      invariant toRemove == Filter(OutOfRange(ns), ls[..i])
    {
      FilterPrefixStep(OutOfRange(ns), ls, i);
      var l := ls[i];
      var p := LinkProtocol(l);
      if p.Some? && l.source in Ids(ns) && l.target in Ids(ns) {
        if !WithinRange(p.value.range, FindById(ns, l.source).value, FindById(ns, l.target).value) {
          toRemove := toRemove + [l];
        }
      }
      i := i + 1;
    }
    assert ls[..i] == ls;
  }

  /**
   * `checkLinkRanges`: after the scan, removes exactly the links whose protocol is known and
   * whose target is out of its range; links naming no known protocol are kept.
   */
  method CheckLinkRanges(store: GraphStore) returns (toRemove: seq<Link>)
    requires store.Valid()
    modifies store`links
    ensures store.Valid()
    ensures toRemove == Filter(OutOfRange(store.nodes), old(store.links))
    ensures store.links == Filter(InRangeOrUnknown(store.nodes), old(store.links))
    ensures forall l :: l in store.links && LinkProtocol(l).Some? ==>
      WithinRange(LinkProtocol(l).value.range, FindById(store.nodes, l.source).value, FindById(store.nodes, l.target).value)
    ensures forall l :: l in old(store.links) && LinkProtocol(l).None? ==> l in store.links
  {
    var ls := store.links;
    toRemove := CollectOutOfRange(store.nodes, ls);
    assert forall x :: InRangeOrUnknown(store.nodes)(x) == !OutOfRange(store.nodes)(x);
    store.links := SpliceEach(ls, toRemove, OutOfRange(store.nodes), InRangeOrUnknown(store.nodes));
    FilterMembers(InRangeOrUnknown(store.nodes), ls);
    assert forall l :: l in store.links ==> l in ls && LinkStored(store.nodes, l);
  }

  /** A second check finds nothing more to break. */
  lemma CheckLinkRangesIdempotent(ns: seq<Node>, ls: seq<Link>)
    ensures Filter(InRangeOrUnknown(ns), Filter(InRangeOrUnknown(ns), ls)) == Filter(InRangeOrUnknown(ns), ls)
  {
    FilterFilter(InRangeOrUnknown(ns), InRangeOrUnknown(ns), InRangeOrUnknown(ns), ls);
  }

  // ---------------------------------------------------------------- bin and wearable box

  /** `nodeInBinRegion`: the closed rectangle of the bin. */
  predicate NodeInBinRegion(n: Node) {
    n.x >= 1000.0 && n.x <= 1320.0 && n.y >= 20.0 && n.y <= 320.0
  }

  /** `v` moved to the nearest end of [`lo`, `hi`] when it lies outside. */
  function Clamp(v: real, lo: real, hi: real): (r: real)
    requires lo <= hi
    ensures lo <= r <= hi
    ensures lo <= v <= hi ==> r == v
  {
    if v < lo then lo else if v > hi then hi else v
  }

  /** The clamped value is the point of [`lo`, `hi`] nearest to `v`. */
  lemma ClampNearest(v: real, lo: real, hi: real, w: real)
    requires lo <= w <= hi
    ensures Dist(Clamp(v, lo, hi), v) <= Dist(w, v)
  {
  }

  function Dist(a: real, b: real): real {
    if a >= b then a - b else b - a
  }

  /** Clamping twice is clamping once. */
  lemma ClampIdempotent(v: real, lo: real, hi: real)
    requires lo <= hi
    ensures Clamp(Clamp(v, lo, hi), lo, hi) == Clamp(v, lo, hi)
  {
  }

  /** The wearable box: 25 to 310 across and 75 to 210 down, less half a node on each side. */
  const WearableLeft: real := 25.0 + NodeWidth / 2.0
  const WearableRight: real := 310.0 - NodeWidth / 2.0
  const WearableTop: real := 75.0 + NodeHeight / 2.0
  const WearableBottom: real := 210.0 - NodeHeight / 2.0

  /** The box in pixels: x from 112 to 223, y from 96 to 189. */
  lemma WearableBox()
    ensures WearableLeft == 112.0 && WearableRight == 223.0
    ensures WearableTop == 96.0 && WearableBottom == 189.0
  {
  }

  /** A node inside the wearable box is never in the bin region. */
  lemma WearableNeverInBin(n: Node)
    requires WearableLeft <= n.x <= WearableRight
    ensures !NodeInBinRegion(n)
  {
  }

  /** The position `n` takes in `checkWearablePos`: each coordinate brought into the wearable box. */
  function IntoWearableBox(n: Node): (r: Node)
    ensures r == n.(x := r.x, y := r.y)
    ensures WearableLeft <= r.x <= WearableRight && WearableTop <= r.y <= WearableBottom
  {
    n.(x := Clamp(n.x, WearableLeft, WearableRight), y := Clamp(n.y, WearableTop, WearableBottom))
  }

  /** The comparisons of `checkWearablePos` applied to `n`. */
  method WearablePos(n: Node) returns (m: Node)
    ensures m == IntoWearableBox(n)
  {
    m := n;
    var w := NodeWidth / 2.0;
    var h := NodeHeight / 2.0;
    if m.x < 25.0 + w {
      m := m.(x := 25.0 + w);
    } else if m.x > 310.0 - w {
      m := m.(x := 310.0 - w);
    }
    if m.y < 75.0 + h {
      m := m.(y := 75.0 + h);
    } else if m.y > 210.0 - h {
      m := m.(y := 210.0 - h);
    }
  }

  /**
   * `checkWearablePos` on the stored node at `k`: its position is moved into the wearable box,
   * to the nearest point of it (see `ClampNearest`); a node already inside stays where it is.
   */
  method CheckWearablePos(store: GraphStore, k: int)
    requires store.Valid() && 0 <= k < |store.nodes|
    modifies store`nodes
    ensures store.Valid()
    ensures store.nodes == old(store.nodes)[k := IntoWearableBox(old(store.nodes[k]))]
  {
    var n := WearablePos(store.nodes[k]);
    ReplaceKeepsValid(store.nodes, store.links, k, n);
    store.nodes := store.nodes[k := n];
  }

  /** A node inside the wearable box is left where it is. */
  lemma IntoWearableBoxKeepsInside(n: Node)
    requires WearableLeft <= n.x <= WearableRight && WearableTop <= n.y <= WearableBottom
    ensures IntoWearableBox(n) == n
  {
  }

  // ---------------------------------------------------------------- selection

  /** How far the left edge of `n`, less a 5 pixel margin, lies right of the canvas edge. */
  function Left(n: Node): real {
    n.x - n.w / 2.0 - 5.0
  }

  /** How far the top edge of `n`, less a 5 pixel margin, lies below the canvas edge. */
  function Top(n: Node): real {
    n.y - n.h / 2.0 - 5.0
  }

  function LeftAfter(dx: real): Node -> real {
    (n: Node) => Left(n) + dx
  }

  function TopAfter(dy: real): Node -> real {
    (n: Node) => Top(n) + dy
  }

  /** `n` moved by (`dx`, `dy`) and marked dirty. */
  function Shifted(n: Node, dx: real, dy: real): Node {
    n.(x := n.x + dx, y := n.y + dy, dirty := true)
  }

  /** Every id of `ids` names a stored node. */
  predicate AllStored(ns: seq<Node>, ids: seq<string>) {
    forall j :: 0 <= j < |ids| ==> ids[j] in Ids(ns)
  }

  /** The stored nodes named by `ids`, in the order of `ids`. */
  function Selection(ns: seq<Node>, ids: seq<string>): (r: seq<Node>)
    requires AllStored(ns, ids)
    ensures |r| == |ids| && forall j :: 0 <= j < |ids| ==> r[j] == FindById(ns, ids[j]).value
  {
    seq(|ids|, j requires 0 <= j < |ids| => FindById(ns, ids[j]).value)
  }

  /** The `Math.min` fold of `moveSelection`, started at 0, of `f` over the nodes `vs`. */
  function MinOver(vs: seq<Node>, f: Node -> real): real {
    if vs == [] then 0.0 else Min(f(vs[|vs| - 1]), MinOver(vs[..|vs| - 1], f))
  }

  /** The fold is never positive, at most each value, and 0 when no value is negative. */
  lemma {:induction false} MinOverBounds(vs: seq<Node>, f: Node -> real)
    ensures MinOver(vs, f) <= 0.0
    ensures forall j :: 0 <= j < |vs| ==> MinOver(vs, f) <= f(vs[j])
    ensures (forall j :: 0 <= j < |vs| ==> f(vs[j]) >= 0.0) ==> MinOver(vs, f) == 0.0
  {
    if vs != [] {
      var vs' := vs[..|vs| - 1];
      MinOverBounds(vs', f);
      assert forall j :: 0 <= j < |vs'| ==> vs'[j] == vs[j];
    }
  }

  /** The fold over one more node takes that node's value into account. */
  lemma MinOverStep(vs: seq<Node>, i: int, f: Node -> real, v: real, m: real)
    requires 0 <= i < |vs| && v == f(vs[i]) && m == MinOver(vs[..i], f)
    ensures MinOver(vs[..i + 1], f) == Min(v, m)
  {
    assert vs[..i + 1][..i] == vs[..i];
  }

  /** The ids of `ids`, as a set. */
  function IdSet(ids: seq<string>): set<string> {
    set x | x in ids
  }

  /** Taking one more id of the list adds that id to the set. */
  lemma IdSetStep(ids: seq<string>, i: int)
    requires 0 <= i < |ids|
    ensures IdSet(ids[..i + 1]) == IdSet(ids[..i]) + {ids[i]}
  {
    assert ids[..i + 1] == ids[..i] + [ids[i]];
    forall x ensures x in IdSet(ids[..i + 1]) <==> x in IdSet(ids[..i]) + {ids[i]} {
      assert x in ids[..i + 1] <==> x in ids[..i] || x == ids[i];
    }
  }

  /** What `deleteSelection` keeps of a removed node for undo: deselected, and moved to x = 25 if left of the canvas. */
  function Detached(n: Node): Node {
    n.(selected := false, x := if n.x < 0.0 then 25.0 else n.x)
  }

  /** Which way a port faces; `mousedown_port_type` 0 is an output port and 1 an input port. */
  datatype PortKind = Output | Input

  /** How a drag between two ports ends in `portMouseUp`. */
  datatype JoinOutcome =
    | SamePortKind
    | SelfLink
    | AlreadyLinked
    | Refused(error: string)
    | Linked(link: Link)

  /** Some link of `ls` already leaves `src` through port `sp` for `dst`. */
  predicate Joined(ls: seq<Link>, src: string, dst: string, sp: nat) {
    exists i :: 0 <= i < |ls| && ls[i].source == src && ls[i].target == dst && ls[i].sourcePort == sp
  }

  /** No two links share source, target and source port. */
  predicate NoDuplicateJoins(ls: seq<Link>) {
    forall i, j :: 0 <= i < j < |ls| ==>
      !(ls[i].source == ls[j].source && ls[i].target == ls[j].target && ls[i].sourcePort == ls[j].sourcePort)
  }

  /** The `eachLink` fold of `portMouseUp` that looks for an existing link. */
  method FindExisting(ls: seq<Link>, src: string, dst: string, sp: nat) returns (existing: bool)
    ensures existing <==> Joined(ls, src, dst, sp)
  {
    existing := false;
    var i := 0;
    while i < |ls|
      invariant 0 <= i <= |ls|
      invariant existing <==> Joined(ls[..i], src, dst, sp)
    {
      assert forall j :: 0 <= j < i ==> ls[..i + 1][j] == ls[..i][j];
      existing := existing || (ls[i].source == src && ls[i].target == dst && ls[i].sourcePort == sp);
      assert ls[..i + 1][i] == ls[i];
      i := i + 1;
    }
    assert ls[..i] == ls;
  }

  /** The link `portMouseUp` hands to `addLink`: no protocol yet, the flags unset. */
  function NewLink(src: string, dst: string, sp: nat, dp: nat): Link {
    Link(src, dst, sp, dp, None, false, false, false)
  }

  // ---------------------------------------------------------------- moving the selection

  /** The update of the first pass of `moveSelection`: moved by (`dx`, `dy`) and marked dirty. */
  function Mover(dx: real, dy: real): Node -> Node {
    (n: Node) => Shifted(n, dx, dy)
  }

  /** The update of the second pass of `moveSelection`: moved back by (`mx`, `my`). */
  function Backer(mx: real, my: real): Node -> Node {
    (n: Node) => n.(x := n.x - mx, y := n.y - my)
  }

  /** An update that leaves the id alone. */
  ghost predicate KeepsId(move: Node -> Node) {
    forall n :: move(n).id == n.id
  }

  /** `ns` is `ns0` with `move` applied to the nodes named in `ids`, and to no other node. */
  predicate MovedBy(ns0: seq<Node>, ns: seq<Node>, ids: seq<string>, move: Node -> Node) {
    |ns| == |ns0| &&
    forall k :: 0 <= k < |ns0| ==> ns[k] == if ns0[k].id in ids then move(ns0[k]) else ns0[k]
  }

  /** The nodes of `ns` carry the ids of `ns0`, position by position. */
  predicate SameIds(ns0: seq<Node>, ns: seq<Node>) {
    |ns| == |ns0| && forall k :: 0 <= k < |ns0| ==> ns[k].id == ns0[k].id
  }

  /** `ns` with `move` applied to the node whose id is `id`. */
  function UpdateId(ns: seq<Node>, id: string, move: Node -> Node): (r: seq<Node>)
    ensures |r| == |ns|
    ensures forall k :: 0 <= k < |ns| ==> r[k] == if ns[k].id == id then move(ns[k]) else ns[k]
  {
    seq(|ns|, k requires 0 <= k < |ns| => if ns[k].id == id then move(ns[k]) else ns[k])
  }

  /** A pass of `moveSelection`: `move` applied to the nodes named in `ids`, one after the other. */
  function MoveAll(ns: seq<Node>, ids: seq<string>, move: Node -> Node): seq<Node>
    decreases |ids|
  {
    if ids == [] then ns else UpdateId(MoveAll(ns, ids[..|ids| - 1], move), ids[|ids| - 1], move)
  }

  /**
   * `moveSelection` as two passes: first every selected node moves by (`dx`, `dy`); then, when
   * either fold `mx`, `my` is not 0, every selected node moves back by (`mx`, `my`).
   */
  function MovedSelection(ns0: seq<Node>, ids: seq<string>, dx: real, dy: real, mx: real, my: real): seq<Node> {
    var mid := MoveAll(ns0, ids, Mover(dx, dy));
    if mx != 0.0 || my != 0.0 then MoveAll(mid, ids, Backer(mx, my)) else mid
  }

  /**
   * Where a pass of `moveSelection` over the moving set `ids` stands after its first `i` ids:
   * the store is valid and the first `i` nodes have been updated.
   */
  ghost predicate MovedUpTo(ns: seq<Node>, ls: seq<Link>, ns0: seq<Node>, ids: seq<string>, i: int, move: Node -> Node)
    requires 0 <= i <= |ids|
  {
    UniqueIds(ns) && EndpointsStored(ns, ls) && UniqueIds(ns0) && NoDup(ids) && AllStored(ns0, ids) &&
    ns == MoveAll(ns0, ids[..i], move)
  }

  /** One round of a `moveSelection` pass: the `i`-th node of the moving set is updated by `move`. */
  method MoveNext(store: GraphStore, ids: seq<string>, i: int, ghost ns0: seq<Node>, move: Node -> Node) returns (node: Node)
    requires 0 <= i < |ids| && KeepsId(move) && MovedUpTo(store.nodes, store.links, ns0, ids, i, move)
    modifies store`nodes
    ensures MovedUpTo(store.nodes, store.links, ns0, ids, i + 1, move)
    ensures node == move(Selection(ns0, ids)[i])
  {
    MoveStep(ns0, store.nodes, ids, i, move);
    MoveAllStep(ns0, ids, i, move);
    var found := store.GetNode(ids[i]);
    var k := IndexOf(store.nodes, found.value);
    node := move(store.nodes[k]);
    UpdateIdAt(store.nodes, k, move);
    ReplaceKeepsValid(store.nodes, store.links, k, node);
    store.nodes := store.nodes[k := node];
  }

  /**
   * The first pass of `moveSelection`: moves every node of `ids` by (`dx`, `dy`), marking it
   * dirty, and folds `Math.min` over the new left and top margins.
   */
  method ShiftAndMeasure(store: GraphStore, ids: seq<string>, dx: real, dy: real) returns (minX: real, minY: real)
    requires store.Valid() && NoDup(ids) && AllStored(store.nodes, ids)
    modifies store`nodes
    ensures store.Valid() && store.nodes == MoveAll(old(store.nodes), ids, Mover(dx, dy))
    ensures Ids(store.nodes) == Ids(old(store.nodes))
    ensures minX == MinOver(Selection(old(store.nodes), ids), LeftAfter(dx))
    ensures minY == MinOver(Selection(old(store.nodes), ids), TopAfter(dy))
  {
    ghost var ns0 := store.nodes;
    ghost var sel := Selection(ns0, ids);
    var move := Mover(dx, dy);
    minX, minY := 0.0, 0.0;
    assert ids[..0] == [];
    var i := 0;
    while i < |ids|
      invariant 0 <= i <= |ids|
      invariant MovedUpTo(store.nodes, store.links, ns0, ids, i, move)
      invariant minX == MinOver(sel[..i], LeftAfter(dx))
      invariant minY == MinOver(sel[..i], TopAfter(dy))
    {
      var node := MoveNext(store, ids, i, ns0, move);
      MinOverStep(sel, i, LeftAfter(dx), Left(node), minX);
      MinOverStep(sel, i, TopAfter(dy), Top(node), minY);
      minX := Min(node.x - node.w / 2.0 - 5.0, minX);
      minY := Min(node.y - node.h / 2.0 - 5.0, minY);
      i := i + 1;
    }
    assert ids[..i] == ids && sel[..i] == sel;
    MoveAllIds(ns0, ids, move);
  }

  /** The second pass of `moveSelection`: moves every node of `ids` back by (`mx`, `my`). */
  method ShiftBack(store: GraphStore, ids: seq<string>, mx: real, my: real)
    requires store.Valid() && NoDup(ids) && AllStored(store.nodes, ids)
    modifies store`nodes
    ensures store.Valid() && store.nodes == MoveAll(old(store.nodes), ids, Backer(mx, my))
    ensures Ids(store.nodes) == Ids(old(store.nodes))
  {
    ghost var ns0 := store.nodes;
    var move := Backer(mx, my);
    assert ids[..0] == [];
    var i := 0;
    while i < |ids|
      invariant 0 <= i <= |ids|
      invariant MovedUpTo(store.nodes, store.links, ns0, ids, i, move)
    {
      var _ := MoveNext(store, ids, i, ns0, move);
      i := i + 1;
    }
    assert ids[..i] == ids;
    MoveAllIds(ns0, ids, move);
  }

  /** One step of a pass: the next node is still as it was, and the pass advances by one update. */
  lemma MoveStep(ns0: seq<Node>, ns: seq<Node>, ids: seq<string>, i: int, move: Node -> Node)
    requires UniqueIds(ns0) && NoDup(ids) && AllStored(ns0, ids) && 0 <= i < |ids| && KeepsId(move)
    requires ns == MoveAll(ns0, ids[..i], move)
    ensures ids[i] in Ids(ns)
    ensures forall k :: 0 <= k < |ns| && ns[k].id == ids[i] ==> ns[k] == Selection(ns0, ids)[i]
  {
    assert forall q :: 0 <= q < i ==> ids[..i][q] == ids[q];
    assert ids[i] !in ids[..i];
    MoveAllMoves(ns0, ids[..i], move);
    var sel := Selection(ns0, ids);
    var j :| 0 <= j < |ns0| && ns0[j] == sel[i];
    assert ns[j].id == ids[i];
    forall k | 0 <= k < |ns| && ns[k].id == ids[i] ensures ns[k] == sel[i] {
      SameIdSameNode(ns0, sel[i], ns0[k]);
    }
  }

  /** A pass over one more id is one more update. */
  lemma MoveAllStep(ns0: seq<Node>, ids: seq<string>, i: int, move: Node -> Node)
    requires 0 <= i < |ids|
    ensures MoveAll(ns0, ids[..i + 1], move) == UpdateId(MoveAll(ns0, ids[..i], move), ids[i], move)
  {
    assert ids[..i + 1][..i] == ids[..i];
  }

  /** Updating the node at `k` updates the node with its id, in a store of distinct ids. */
  lemma UpdateIdAt(ns: seq<Node>, k: int, move: Node -> Node)
    requires UniqueIds(ns) && 0 <= k < |ns|
    ensures ns[k := move(ns[k])] == UpdateId(ns, ns[k].id, move)
  {
    forall j | 0 <= j < |ns| && ns[j].id == ns[k].id ensures j == k {
      SameIdSameNode(ns, ns[j], ns[k]);
    }
  }

  /** A pass updates exactly the nodes named in `ids`, once each, and keeps every id in place. */
  lemma {:induction false} MoveAllMoves(ns0: seq<Node>, ids: seq<string>, move: Node -> Node)
    requires NoDup(ids) && KeepsId(move)
    ensures SameIds(ns0, MoveAll(ns0, ids, move))
    ensures MovedBy(ns0, MoveAll(ns0, ids, move), ids, move)
    decreases |ids|
  {
    if ids != [] {
      var pre, id := ids[..|ids| - 1], ids[|ids| - 1];
      assert forall q :: 0 <= q < |pre| ==> pre[q] == ids[q];
      assert id !in pre;
      MoveAllMoves(ns0, pre, move);
      assert ids == pre + [id];
    }
  }

  /** A pass keeps the set of stored ids. */
  lemma MoveAllIds(ns0: seq<Node>, ids: seq<string>, move: Node -> Node)
    requires NoDup(ids) && KeepsId(move)
    ensures Ids(MoveAll(ns0, ids, move)) == Ids(ns0)
  {
    MoveAllMoves(ns0, ids, move);
    SameIdsIds(ns0, MoveAll(ns0, ids, move));
  }

  /** Position-wise equal ids are the same set of ids. */
  lemma SameIdsIds(ns0: seq<Node>, ns: seq<Node>)
    requires SameIds(ns0, ns)
    ensures Ids(ns) == Ids(ns0)
  {
    forall x ensures x in Ids(ns) <==> x in Ids(ns0) {
      if x in Ids(ns) {
        var k :| 0 <= k < |ns| && ns[k].id == x;
        assert ns0[k].id == x;
      }
      if x in Ids(ns0) {
        var k :| 0 <= k < |ns0| && ns0[k].id == x;
        assert ns[k].id == x;
      }
    }
  }

  /** Moving by (`dx`, `dy`) and then back by (`mx`, `my`) is one move by the difference. */
  lemma BackAfterMove(n: Node, dx: real, dy: real, mx: real, my: real)
    ensures Backer(mx, my)(Mover(dx, dy)(n)) == Mover(dx - mx, dy - my)(n)
  {
  }

  /**
   * With the folds of the first pass, the two passes move every selected node by one offset
   * (`dx` - `mx`, `dy` - `my`), leave the other nodes alone, and leave no moved node's edge,
   * less the margin, left of or above the canvas.
   */
  lemma MoveSelectionSound(ns0: seq<Node>, ids: seq<string>, dx: real, dy: real, mx: real, my: real)
    requires UniqueIds(ns0) && NoDup(ids) && AllStored(ns0, ids)
    requires mx == MinOver(Selection(ns0, ids), LeftAfter(dx)) && my == MinOver(Selection(ns0, ids), TopAfter(dy))
    ensures MovedBy(ns0, MovedSelection(ns0, ids, dx, dy, mx, my), ids, Mover(dx - mx, dy - my))
    ensures var ns := MovedSelection(ns0, ids, dx, dy, mx, my);
      forall k :: 0 <= k < |ns| && ns[k].id in ids ==> Left(ns[k]) >= 0.0 && Top(ns[k]) >= 0.0
  {
    var ns := MovedSelection(ns0, ids, dx, dy, mx, my);
    TwoPasses(ns0, ids, dx, dy, mx, my);
    MovedClear(ns0, ns, ids, dx, dy, mx, my);
  }

  /** The two passes compose into one move by (`dx` - `mx`, `dy` - `my`). */
  lemma TwoPasses(ns0: seq<Node>, ids: seq<string>, dx: real, dy: real, mx: real, my: real)
    requires NoDup(ids)
    ensures MovedBy(ns0, MovedSelection(ns0, ids, dx, dy, mx, my), ids, Mover(dx - mx, dy - my))
  {
    var mid := MoveAll(ns0, ids, Mover(dx, dy));
    var ns := MovedSelection(ns0, ids, dx, dy, mx, my);
    MoveAllMoves(ns0, ids, Mover(dx, dy));
    if mx != 0.0 || my != 0.0 {
      MoveAllMoves(mid, ids, Backer(mx, my));
      forall k | 0 <= k < |ns0|
        ensures ns[k] == if ns0[k].id in ids then Mover(dx - mx, dy - my)(ns0[k]) else ns0[k]
      {
        if ns0[k].id in ids {
          assert mid[k].id == ns0[k].id;
          BackAfterMove(ns0[k], dx, dy, mx, my);
        }
      }
    } else {
      assert dx - mx == dx && dy - my == dy;
    }
  }

  /** After a move by the corrected offset, every moved node's edges lie on the canvas. */
  lemma MovedClear(ns0: seq<Node>, ns: seq<Node>, ids: seq<string>, dx: real, dy: real, mx: real, my: real)
    requires UniqueIds(ns0) && AllStored(ns0, ids)
    requires mx == MinOver(Selection(ns0, ids), LeftAfter(dx)) && my == MinOver(Selection(ns0, ids), TopAfter(dy))
    requires MovedBy(ns0, ns, ids, Mover(dx - mx, dy - my))
    ensures forall k :: 0 <= k < |ns| && ns[k].id in ids ==> Left(ns[k]) >= 0.0 && Top(ns[k]) >= 0.0
  {
    var sel := Selection(ns0, ids);
    MinOverBounds(sel, LeftAfter(dx));
    MinOverBounds(sel, TopAfter(dy));
    forall k | 0 <= k < |ns| && ns[k].id in ids ensures Left(ns[k]) >= 0.0 && Top(ns[k]) >= 0.0 {
      var j :| 0 <= j < |ids| && ids[j] == ns[k].id;
      assert ns[k] == Shifted(ns0[k], dx - mx, dy - my);
      SameIdSameNode(ns0, sel[j], ns0[k]);
      assert LeftAfter(dx)(sel[j]) >= mx;
      assert TopAfter(dy)(sel[j]) >= my;
    }
  }

  /**
   * `deleteSelection`'s loop over the moving set: removes each named node with the links its
   * removal cascades to, and collects the nodes (deselected) and the links.
   */
  method RemoveSelected(store: GraphStore, ids: seq<string>) returns (removedNodes: seq<Node>, removedLinks: seq<Link>)
    requires store.Valid() && NoDup(ids) && AllStored(store.nodes, ids)
    modifies store`nodes, store`links
    ensures store.Valid()
    ensures store.nodes == Filter(LacksIds(IdSet(ids)), old(store.nodes))
    ensures store.links == Filter(AvoidsIds(IdSet(ids)), old(store.links))
    ensures |removedNodes| == |ids|
    ensures forall i :: 0 <= i < |ids| ==> removedNodes[i] == Detached(Selection(old(store.nodes), ids)[i])
    ensures CascadeSoFar(old(store.links), store.links, removedLinks, IdSet(ids))
  {
    ghost var ns0, ls0 := store.nodes, store.links;
    NoIdsRemoved(ns0, ls0);
    assert IdSet(ids[..0]) == {};
    removedNodes, removedLinks := [], [];
    var i := 0;
    while i < |ids|
      invariant 0 <= i <= |ids|
      invariant RemovedUpTo(store.nodes, store.links, ns0, ls0, ids, i, removedNodes, removedLinks)
    {
      removedNodes, removedLinks := RemoveNext(store, ids, i, ns0, ls0, removedNodes, removedLinks);
      i := i + 1;
    }
    RemovedAll(store.nodes, store.links, ns0, ls0, ids, removedNodes, removedLinks);
  }

  /**
   * Where `deleteSelection`'s loop stands after the first `i` ids: the store is valid, and its
   * nodes, its links and the nodes and links removed so far are those of removing the first `i` ids.
   */
  ghost predicate RemovedUpTo(ns: seq<Node>, ls: seq<Link>, ns0: seq<Node>, ls0: seq<Link>, ids: seq<string>, i: int,
                              removedNodes: seq<Node>, removedLinks: seq<Link>)
    requires 0 <= i <= |ids|
  {
    UniqueIds(ns) && EndpointsStored(ns, ls) && UniqueIds(ns0) && NoDup(ids) && AllStored(ns0, ids) &&
    ns == Filter(LacksIds(IdSet(ids[..i])), ns0) &&
    ls == Filter(AvoidsIds(IdSet(ids[..i])), ls0) &&
    CascadeSoFar(ls0, ls, removedLinks, IdSet(ids[..i])) &&
    |removedNodes| == i &&
    forall j :: 0 <= j < i ==> removedNodes[j] == Detached(Selection(ns0, ids)[j])
  }

  /** One round of `deleteSelection`'s loop: the `i`-th node of the moving set and its links go. */
  method RemoveNext(store: GraphStore, ids: seq<string>, i: int, ghost ns0: seq<Node>, ghost ls0: seq<Link>,
                    removedNodes: seq<Node>, removedLinks: seq<Link>) returns (removedNodes': seq<Node>, removedLinks': seq<Link>)
    requires 0 <= i < |ids| && RemovedUpTo(store.nodes, store.links, ns0, ls0, ids, i, removedNodes, removedLinks)
    modifies store`nodes, store`links
    ensures RemovedUpTo(store.nodes, store.links, ns0, ls0, ids, i + 1, removedNodes', removedLinks')
  {
    var id := ids[i];
    ghost var gone := IdSet(ids[..i]);
    StillStored(ns0, ids, i, gone);
    FilteredFind(ns0, LacksIds(gone), id);
    var found := store.GetNode(id);
    ghost var ls1 := store.links;
    var rmlinks := store.RemoveNode(id);
    CascadeStep(ns0, ls0, ls1, removedLinks, rmlinks, gone, id);
    IdSetStep(ids, i);
    removedNodes' := removedNodes + [Detached(found.value)];
    removedLinks' := removedLinks + rmlinks;
  }

  lemma RemovedAll(ns: seq<Node>, ls: seq<Link>, ns0: seq<Node>, ls0: seq<Link>, ids: seq<string>,
                   removedNodes: seq<Node>, removedLinks: seq<Link>)
    requires RemovedUpTo(ns, ls, ns0, ls0, ids, |ids|, removedNodes, removedLinks)
    ensures UniqueIds(ns) && EndpointsStored(ns, ls)
    ensures ns == Filter(LacksIds(IdSet(ids)), ns0) && ls == Filter(AvoidsIds(IdSet(ids)), ls0)
    ensures CascadeSoFar(ls0, ls, removedLinks, IdSet(ids))
    ensures |removedNodes| == |ids|
    ensures forall j :: 0 <= j < |ids| ==> removedNodes[j] == Detached(Selection(ns0, ids)[j])
  {
    assert ids[..|ids|] == ids;
  }

  /**
   * The view's selection state: the ids of the nodes in the moving set (distinct, all stored),
   * the selected link and the unsaved-changes flag, over one graph store.
   */
  class Canvas {
    const store: GraphStore
    var movingSet: seq<string>
    var selectedLink: Option<Link>
    var dirty: bool

    ghost predicate Valid()
      reads this, store
    {
      store.Valid() && NoDup(movingSet) && AllStored(store.nodes, movingSet)
    }

    constructor(s: GraphStore)
      requires s.Valid()
      ensures Valid() && store == s
      ensures movingSet == [] && selectedLink == None && !dirty
    {
      store := s;
      movingSet := [];
      selectedLink := None;
      dirty := false;
    }

    /**
     * `moveSelection(dx, dy)`: every node of the moving set moves by one common offset, which
     * is (`dx`, `dy`) corrected by the `Math.min` folds just enough that no moved node's edge,
     * less a 5 pixel margin, passes the left or top of the canvas; other nodes stay put.
     */
    method MoveSelection(dx: real, dy: real) returns (ghost minX: real, ghost minY: real)
      requires Valid()
      modifies store`nodes
      ensures Valid()
      ensures minX == MinOver(Selection(old(store.nodes), movingSet), LeftAfter(dx))
      ensures minY == MinOver(Selection(old(store.nodes), movingSet), TopAfter(dy))
      ensures store.nodes == MovedSelection(old(store.nodes), movingSet, dx, dy, minX, minY)
      ensures forall k :: 0 <= k < |store.nodes| && store.nodes[k].id in movingSet ==>
        Left(store.nodes[k]) >= 0.0 && Top(store.nodes[k]) >= 0.0
    {
      ghost var ns0 := store.nodes;
      var mx, my := ShiftAndMeasure(store, movingSet, dx, dy);
      minX, minY := mx, my;
      if mx != 0.0 || my != 0.0 {
        ShiftBack(store, movingSet, mx, my);
      }
      MoveSelectionSound(ns0, movingSet, dx, dy, mx, my);
    }

    /**
     * `deleteSelection`: removes every node of the moving set, with the links each removal
     * cascades to, then the selected link; empties the moving set and the selected link, and
     * returns the removed nodes (deselected) and links for undo.
     */
    method DeleteSelection() returns (removedNodes: seq<Node>, removedLinks: seq<Link>)
      requires Valid()
      modifies this, store`nodes, store`links
      ensures Valid()
      ensures movingSet == [] && selectedLink == None
      ensures dirty == (old(dirty) || |old(movingSet)| > 0 || old(selectedLink).Some?)
      ensures store.nodes == Filter(LacksIds(IdSet(old(movingSet))), old(store.nodes))
      ensures var cascaded := Filter(AvoidsIds(IdSet(old(movingSet))), old(store.links));
        store.links == if old(selectedLink).Some? then RemoveFirst(cascaded, old(selectedLink).value) else cascaded
      ensures |removedNodes| == |old(movingSet)|
      ensures forall i :: 0 <= i < |removedNodes| ==>
        removedNodes[i] == Detached(Selection(old(store.nodes), old(movingSet))[i])
      ensures forall l :: l in removedLinks <==>
        (l in old(store.links) && !AvoidsIds(IdSet(old(movingSet)))(l)) || Some(l) == old(selectedLink)
    {
      removedNodes, removedLinks := [], [];
      if |movingSet| > 0 {
        removedNodes, removedLinks := RemoveSelected(store, movingSet);
        movingSet := [];
        dirty := true;
      } else {
        NoIdsRemoved(store.nodes, store.links);
        assert IdSet(movingSet) == {};
      }
      if selectedLink.Some? {
        store.RemoveLink(selectedLink.value);
        removedLinks := removedLinks + [selectedLink.value];
        dirty := true;
      }
      selectedLink := None;
    }

    /**
     * `portMouseUp` at the end of a drag from port `downIndex` (facing `downKind`) of node `down`
     * to port `upIndex` (facing `upKind`) of node `up`: ports facing the same way and a node
     * joined to itself are refused; otherwise the output end is the source, and a link is added
     * exactly when none joins the same source port to the same target and `canBeLinked` allows it.
     */
    method PortMouseUp(down: string, downKind: PortKind, downIndex: nat, up: string, upKind: PortKind, upIndex: nat)
      returns (outcome: JoinOutcome)
      requires Valid() && down in Ids(store.nodes) && up in Ids(store.nodes)
      modifies this, store`links
      ensures Valid() && store.nodes == old(store.nodes) && movingSet == old(movingSet)
      ensures outcome == SamePortKind <==> downKind == upKind
      ensures outcome == SelfLink <==> downKind != upKind && down == up
      ensures var src, dst := if downKind == Output then down else up, if downKind == Output then up else down;
        var sp, dp := if downKind == Output then downIndex else upIndex, if downKind == Output then upIndex else downIndex;
        var check := CanBeLinked(FindById(store.nodes, src).value, FindById(store.nodes, dst).value);
        (outcome == AlreadyLinked <==> downKind != upKind && down != up && Joined(old(store.links), src, dst, sp)) &&
        (outcome.Refused? <==> downKind != upKind && down != up && !Joined(old(store.links), src, dst, sp) && !check.ok) &&
        (outcome.Refused? ==> outcome.error == if check.error != "" then check.error else "These devices cannot be linked") &&
        (outcome.Linked? <==> downKind != upKind && down != up && !Joined(old(store.links), src, dst, sp) && check.ok) &&
        (outcome.Linked? ==> outcome.link == WithDefaults(NewLink(src, dst, sp, dp)) &&
                             store.links == old(store.links) + [outcome.link])
      ensures !outcome.Linked? ==> store.links == old(store.links)
      ensures NoDuplicateJoins(old(store.links)) ==> NoDuplicateJoins(store.links)
      ensures outcome == SamePortKind || outcome == SelfLink ==> dirty == old(dirty) && selectedLink == old(selectedLink)
      ensures outcome != SamePortKind && outcome != SelfLink ==> dirty && selectedLink == None
    {
      if upKind == downKind {
        return SamePortKind;
      }
      if up == down {
        return SelfLink;
      }
      var src, dst, srcPort, dstPort;
      if downKind == Output {
        src, dst, srcPort, dstPort := down, up, downIndex, upIndex;
      } else {
        src, dst, srcPort, dstPort := up, down, upIndex, downIndex;
      }
      var existing := FindExisting(store.links, src, dst, srcPort);
      if !existing {
        var check := CanBeLinked(FindById(store.nodes, src).value, FindById(store.nodes, dst).value);
        if check.ok {
          var link := NewLink(src, dst, srcPort, dstPort);
          ghost var ls0 := store.links;
          store.AddLink(link);
          JoinKeepsDistinct(ls0, link);
          selectedLink := Some(WithDefaults(link));
          outcome := Linked(WithDefaults(link));
        } else {
          outcome := Refused(if check.error != "" then check.error else "These devices cannot be linked");
        }
      } else {
        outcome := AlreadyLinked;
      }
      selectedLink := None;
      dirty := true;
    }
  }

  /** `Math.min`. */
  function Min(a: real, b: real): real {
    if a < b then a else b
  }

  /** A new link whose source port joins no existing link keeps the joins distinct. */
  lemma JoinKeepsDistinct(ls: seq<Link>, l: Link)
    requires !Joined(ls, l.source, l.target, l.sourcePort)
    ensures NoDuplicateJoins(ls) ==> NoDuplicateJoins(ls + [WithDefaults(l)])
  {
    var r := ls + [WithDefaults(l)];
    if NoDuplicateJoins(ls) {
      forall i, j | 0 <= i < j < |r|
        ensures !(r[i].source == r[j].source && r[i].target == r[j].target && r[i].sourcePort == r[j].sourcePort)
      {
        if j == |ls| {
          assert r[i] == ls[i];
        }
      }
    }
  }

  /** The next node of the moving set has not been removed yet. */
  lemma StillStored(ns0: seq<Node>, ids: seq<string>, i: int, gone: set<string>)
    requires NoDup(ids) && AllStored(ns0, ids) && 0 <= i < |ids| && gone == IdSet(ids[..i])
    ensures ids[i] !in gone
    ensures ids[i] in Ids(Filter(LacksIds(gone), ns0))
  {
    assert forall q :: 0 <= q < i ==> ids[..i][q] == ids[q];
    FilterIds(LacksIds(gone), ns0);
    var k :| 0 <= k < |ns0| && ns0[k].id == ids[i];
    assert LacksIds(gone)(ns0[k]);
  }

  /** In a filtered store a kept id finds the same node as in the whole store. */
  lemma FilteredFind(ns: seq<Node>, p: Node -> bool, id: string)
    requires UniqueIds(ns) && id in Ids(Filter(p, ns))
    ensures FindById(Filter(p, ns), id) == FindById(ns, id)
  {
    FilterMembers(p, ns);
    var a := FindById(Filter(p, ns), id).value;
    assert a in ns;
    SameIdSameNode(ns, a, FindById(ns, id).value);
  }
}
