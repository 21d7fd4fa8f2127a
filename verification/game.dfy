/**
 * The game engine of src/game.js: the room layout, the assignment of devices to rooms, the
 * reachability search from the home gateways, and the main loop that evaluates achievements.
 */
module Game {
  import opened Wrappers
  import opened Seqs
  import opened Nodes
  import opened Graph
  import opened Store
  import opened Achievements
  import Options

  // ---------------------------------------------------------------- room layout

  /** One segment of the house layout: a rectangle that belongs to a named room. */
  datatype RoomSegment = RoomSegment(roomSegment: string, room: string, x1: real, y1: real, x2: real, y2: real)

  /** Position of the entry with segment id `id` in a segment table, or -1. */
  function SegmentIndex(segs: seq<RoomSegment>, id: string): (k: int)
    ensures -1 <= k < |segs|
    ensures k >= 0 ==> segs[k].roomSegment == id && forall j :: 0 <= j < k ==> segs[j].roomSegment != id
    ensures k == -1 <==> forall j :: 0 <= j < |segs| ==> segs[j].roomSegment != id
  {
    if segs == [] then -1
    else if segs[0].roomSegment == id then 0
    else
      var k := SegmentIndex(segs[1..], id);
      assert forall j :: 0 < j < |segs| ==> segs[j] == segs[1..][j - 1];
      if k == -1 then -1 else k + 1
  }

  /** The descriptor a segment table holds under `id`: `roomSegments[id]`. */
  function SegmentLookup(segs: seq<RoomSegment>, id: string): Option<RoomSegment> {
    var k := SegmentIndex(segs, id);
    if k == -1 then None else Some(segs[k])
  }

  /**
   * `roomSegments[d.roomSegment] = d`: a new id is appended at the end of the table and a known
   * id keeps its place and takes the new descriptor.
   */
  function PutSegment(segs: seq<RoomSegment>, d: RoomSegment): seq<RoomSegment> {
    var k := SegmentIndex(segs, d.roomSegment);
    if k == -1 then segs + [d] else segs[k := d]
  }

  /** The segment table `initRooms` builds from a layout. */
  function SegmentTable(layout: seq<RoomSegment>): seq<RoomSegment> {
    if layout == [] then [] else PutSegment(SegmentTable(layout[..|layout| - 1]), layout[|layout| - 1])
  }

  /** The last descriptor of `layout` with segment id `id`. */
  function LastWithId(layout: seq<RoomSegment>, id: string): (r: Option<RoomSegment>)
    ensures r.Some? ==> r.value in layout && r.value.roomSegment == id
    ensures r.None? <==> forall j :: 0 <= j < |layout| ==> layout[j].roomSegment != id
  {
    if layout == [] then None
    else if layout[|layout| - 1].roomSegment == id then Some(layout[|layout| - 1])
    else
      var r := LastWithId(layout[..|layout| - 1], id);
      assert forall j :: 0 <= j < |layout| - 1 ==> layout[j] == layout[..|layout| - 1][j];
      r
  }

  /** Tables with the same ids in the same order find an id at the same position. */
  lemma SameKeysSameIndex(a: seq<RoomSegment>, b: seq<RoomSegment>, id: string)
    requires |a| == |b| && forall j :: 0 <= j < |a| ==> a[j].roomSegment == b[j].roomSegment
    ensures SegmentIndex(a, id) == SegmentIndex(b, id)
  {
    var ka, kb := SegmentIndex(a, id), SegmentIndex(b, id);
    if ka >= 0 && kb >= 0 {
      assert !(ka < kb) && !(kb < ka);
    }
  }

  /** Writing one descriptor changes what the table holds under that id only. */
  lemma PutSegmentLookup(segs: seq<RoomSegment>, d: RoomSegment, id: string)
    ensures SegmentLookup(PutSegment(segs, d), id) == if id == d.roomSegment then Some(d) else SegmentLookup(segs, id)
  {
    var k := SegmentIndex(segs, d.roomSegment);
    var t := PutSegment(segs, d);
    if k == -1 {
      assert t[|segs|] == d;
      assert forall j :: 0 <= j < |segs| ==> t[j] == segs[j];
      if id != d.roomSegment {
        var m := SegmentIndex(segs, id);
        assert m == -1 ==> forall j :: 0 <= j < |t| ==> t[j].roomSegment != id;
      }
    } else {
      assert forall j :: 0 <= j < |t| ==> t[j].roomSegment == segs[j].roomSegment;
      SameKeysSameIndex(t, segs, id);
      assert id == d.roomSegment ==> SegmentIndex(t, id) == k;
    }
  }

  /** A repeated segment id keeps the last descriptor of the layout. */
  lemma {:induction false} SegmentTableLastWins(layout: seq<RoomSegment>, id: string)
    ensures SegmentLookup(SegmentTable(layout), id) == LastWithId(layout, id)
  {
    if layout != [] {
      var pre := layout[..|layout| - 1];
      SegmentTableLastWins(pre, id);
      PutSegmentLookup(SegmentTable(pre), layout[|layout| - 1], id);
    }
  }

  /** The table holds each segment id once. */
  lemma {:induction false} SegmentTableKeysDistinct(layout: seq<RoomSegment>)
    ensures forall i, j :: 0 <= i < j < |SegmentTable(layout)| ==>
      SegmentTable(layout)[i].roomSegment != SegmentTable(layout)[j].roomSegment
  {
    if layout != [] {
      var pre := layout[..|layout| - 1];
      var d := layout[|layout| - 1];
      SegmentTableKeysDistinct(pre);
      var t0 := SegmentTable(pre);
      var k := SegmentIndex(t0, d.roomSegment);
      var t := PutSegment(t0, d);
      assert t == SegmentTable(layout);
      forall i, j | 0 <= i < j < |t| ensures t[i].roomSegment != t[j].roomSegment {
        if k == -1 {
          if j == |t0| {
            assert t[i] == t0[i];
          } else {
            assert t[i] == t0[i] && t[j] == t0[j];
          }
        } else {
          assert t[i].roomSegment == t0[i].roomSegment && t[j].roomSegment == t0[j].roomSegment;
        }
      }
    }
  }

  // ---------------------------------------------------------------- room assignment

  /** The rectangle of `seg`, widened by `roomBoundary` on each side, contains the point (x, y). */
  predicate Covers(seg: RoomSegment, x: real, y: real) {
    var extra := Options.RoomBoundary as real;
    x >= seg.x1 - extra && y >= seg.y1 - extra && x <= seg.x2 + extra && y <= seg.y2 + extra
  }

  function CoversPoint(x: real, y: real): RoomSegment -> bool {
    (seg: RoomSegment) => Covers(seg, x, y)
  }

  /** The segments a device is placed in, in table order: none for a mobile device. */
  function Matching(n: Node, segs: seq<RoomSegment>): seq<RoomSegment> {
    if n.def.mobile then [] else Filter(CoversPoint(n.x, n.y), segs)
  }

  /** The room names of a list of segments, in order and with repetitions. */
  function RoomsOf(ms: seq<RoomSegment>): (r: seq<string>)
    ensures |r| == |ms| && forall i :: 0 <= i < |ms| ==> r[i] == ms[i].room
  {
    seq(|ms|, i requires 0 <= i < |ms| => ms[i].room)
  }

  function SegmentIdsOf(ms: seq<RoomSegment>): (r: seq<string>)
    ensures |r| == |ms| && forall i :: 0 <= i < |ms| ==> r[i] == ms[i].roomSegment
  {
    seq(|ms|, i requires 0 <= i < |ms| => ms[i].roomSegment)
  }

  /** `n` after `assignRooms`: its rooms and segments are those of the matching segments. */
  function WithRooms(n: Node, segs: seq<RoomSegment>): Node {
    var ms := Matching(n, segs);
    n.(rooms := RoomsOf(ms), roomSegments := SegmentIdsOf(ms))
  }

  /** `assignRooms(node)`: rebuilds the room lists of one device from the segment table. */
  method AssignRooms(n: Node, segs: seq<RoomSegment>) returns (n': Node)
    ensures n' == WithRooms(n, segs)
  {
    n' := n.(rooms := [], roomSegments := []);
    if n.def.mobile {
      return;
    }
    var extra := Options.RoomBoundary as real;
    ghost var ms: seq<RoomSegment> := [];
    var i := 0;
    assert segs[..0] == [];
    while i < |segs|
      invariant 0 <= i <= |segs| && ms == Filter(CoversPoint(n.x, n.y), segs[..i])
      invariant n'.rooms == RoomsOf(ms) && n'.roomSegments == SegmentIdsOf(ms)
      invariant n' == n.(rooms := n'.rooms, roomSegments := n'.roomSegments)
    {
      var room := segs[i];
      var x1 := room.x1 - extra;
      var y1 := room.y1 - extra;
      var x2 := room.x2 + extra;
      var y2 := room.y2 + extra;
      FilterPrefixStep(CoversPoint(n.x, n.y), segs, i);
      if n.x >= x1 && n.y >= y1 && n.x <= x2 && n.y <= y2 {
        RoomListsAppend(ms, room);
        n' := n'.(rooms := n'.rooms + [room.room], roomSegments := n'.roomSegments + [room.roomSegment]);
        ms := ms + [room];
      } else {
        assert ms + [] == ms;
      }
      i := i + 1;
    }
    assert segs[..i] == segs;
  }

  lemma RoomListsAppend(ms: seq<RoomSegment>, s: RoomSegment)
    ensures RoomsOf(ms + [s]) == RoomsOf(ms) + [s.room]
    ensures SegmentIdsOf(ms + [s]) == SegmentIdsOf(ms) + [s.roomSegment]
  {
  }

  /** A mobile device is in no room. */
  lemma MobileHasNoRooms(n: Node, segs: seq<RoomSegment>)
    requires n.def.mobile
    ensures WithRooms(n, segs).rooms == [] && WithRooms(n, segs).roomSegments == []
  {
  }

  /** Some segment of the table names `room` and `segment` and covers the fixed device `n`. */
  predicate CoveringEntry(n: Node, segs: seq<RoomSegment>, room: string, segment: string) {
    exists j :: 0 <= j < |segs| && segs[j].room == room && segs[j].roomSegment == segment &&
      !n.def.mobile && Covers(segs[j], n.x, n.y)
  }

  /**
   * The two lists stay aligned: entry `i` names a segment of the table that covers the device,
   * together with its room; and every covering segment of a fixed device is listed.
   */
  lemma RoomsAligned(n: Node, segs: seq<RoomSegment>)
    ensures var m := WithRooms(n, segs);
      |m.rooms| == |m.roomSegments| &&
      (forall i :: 0 <= i < |m.rooms| ==> CoveringEntry(n, segs, m.rooms[i], m.roomSegments[i])) &&
      (forall j :: 0 <= j < |segs| && !n.def.mobile && Covers(segs[j], n.x, n.y) ==> segs[j].roomSegment in m.roomSegments)
  {
    var ms := Matching(n, segs);
    var m := WithRooms(n, segs);
    assert m.rooms == RoomsOf(ms) && m.roomSegments == SegmentIdsOf(ms);
    if !n.def.mobile {
      var p := CoversPoint(n.x, n.y);
      assert ms == Filter(p, segs);
      FilterMembers(p, segs);
      forall i | 0 <= i < |m.rooms|
        ensures CoveringEntry(n, segs, m.rooms[i], m.roomSegments[i])
      {
        var s := ms[i];
        assert s in ms;
        assert s in segs && p(s);
        assert Covers(s, n.x, n.y);
        assert m.rooms[i] == s.room && m.roomSegments[i] == s.roomSegment;
        var j :| 0 <= j < |segs| && segs[j] == s;
        assert segs[j].room == m.rooms[i] && segs[j].roomSegment == m.roomSegments[i] && Covers(segs[j], n.x, n.y);
      }
      forall j | 0 <= j < |segs| && Covers(segs[j], n.x, n.y) ensures segs[j].roomSegment in m.roomSegments {
        assert p(segs[j]);
        assert segs[j] in ms;
        var i :| 0 <= i < |ms| && ms[i] == segs[j];
        assert m.roomSegments[i] == segs[j].roomSegment;
      }
    }
  }

  /** Two distinct segments of one room that both cover a fixed device put that room in its list twice. */
  lemma RoomRepeats(n: Node, segs: seq<RoomSegment>, i: int, j: int)
    requires 0 <= i < j < |segs| && segs[i].roomSegment != segs[j].roomSegment
    requires !n.def.mobile && Covers(segs[i], n.x, n.y) && Covers(segs[j], n.x, n.y)
    requires segs[i].room == segs[j].room
    ensures exists p, q :: (0 <= p < q < |WithRooms(n, segs).rooms| &&
      WithRooms(n, segs).rooms[p] == segs[i].room && WithRooms(n, segs).rooms[q] == segs[i].room)
  {
    var ms := Matching(n, segs);
    var rooms := WithRooms(n, segs).rooms;
    FilterMembers(CoversPoint(n.x, n.y), segs);
    assert segs[i] in ms && segs[j] in ms;
    var p :| 0 <= p < |ms| && ms[p] == segs[i];
    var q :| 0 <= q < |ms| && ms[q] == segs[j];
    assert p != q;
    assert rooms[p] == segs[i].room && rooms[q] == segs[i].room;
    if q < p {
      assert 0 <= q < p < |rooms|;
    }
  }

  /** Assigning rooms changes only the two room lists of the device. */
  lemma WithRoomsKeepsRest(n: Node, segs: seq<RoomSegment>)
    ensures WithRooms(n, segs).(rooms := n.rooms, roomSegments := n.roomSegments) == n
  {
  }

  // ---------------------------------------------------------------- reachability

  /** The ids of the home gateways among `ns`: where the search of `recalculateReachability` starts. */
  function GatewayIds(ns: seq<Node>): set<string> {
    set k | 0 <= k < |ns| && ns[k].def.isHomeGateway :: ns[k].id
  }

  /** `ns` is `ns0` with at most the `isReachable` flags changed. */
  predicate OnlyReachChanged(ns0: seq<Node>, ns: seq<Node>) {
    |ns| == |ns0| && forall k :: 0 <= k < |ns| ==> ns[k] == ns0[k].(isReachable := ns[k].isReachable)
  }

  /** Position of the node with id `id`: how the model dereferences a link endpoint. */
  function IndexOfId(ns: seq<Node>, id: string): (k: int)
    ensures -1 <= k < |ns|
    ensures k >= 0 ==> ns[k].id == id
    ensures k == -1 ==> id !in Ids(ns)
  {
    if ns == [] then -1
    else if ns[0].id == id then 0
    else
      var k := IndexOfId(ns[1..], id);
      assert Ids(ns) == {ns[0].id} + Ids(ns[1..]) by {
        forall x | x in Ids(ns) ensures x in {ns[0].id} + Ids(ns[1..]) {
          var i :| 0 <= i < |ns| && ns[i].id == x;
          if i > 0 { assert ns[1..][i - 1] == ns[i]; }
        }
        forall x | x in Ids(ns[1..]) ensures x in Ids(ns) {
          var i :| 0 <= i < |ns[1..]| && ns[1..][i].id == x;
          assert ns[i + 1] == ns[1..][i];
        }
      }
      if k == -1 then -1 else k + 1
  }

  lemma SameIds(ns0: seq<Node>, ns: seq<Node>)
    requires OnlyReachChanged(ns0, ns)
    ensures Ids(ns) == Ids(ns0)
  {
    forall x | x in Ids(ns0) ensures x in Ids(ns) {
      var i :| 0 <= i < |ns0| && ns0[i].id == x;
      assert ns[i].id == x;
    }
  }

  /** The flags of `ns` are set exactly for the ids in `marked`, and nothing else differs from `ns0`. */
  ghost predicate MarksMatch(ns0: seq<Node>, ns: seq<Node>, marked: set<string>) {
    OnlyReachChanged(ns0, ns) &&
    forall k :: 0 <= k < |ns| ==> (ns[k].isReachable <==> ns[k].id in marked)
  }

  /**
   * The invariant of the search in `recalculateReachability`, over the ids `ids` of the stored
   * nodes and the gateway ids `gws`: every queued or marked id is connected to a gateway, and
   * every gateway is marked or queued.
   */
  ghost predicate Frontier(ls: seq<Link>, ids: set<string>, gws: set<string>, marked: set<string>, queue: seq<string>)
  {
    marked <= ids &&
    (forall q :: q in queue ==> q in ids && Connected(ls, gws, q)) &&
    (forall a :: a in marked ==> Connected(ls, gws, a)) &&
    (forall g :: g in gws ==> g in marked || g in queue)
  }

  /** Between rounds, every link of a marked id leads to a marked or queued id. */
  ghost predicate Search(ls: seq<Link>, ids: set<string>, gws: set<string>, marked: set<string>, queue: seq<string>)
  {
    Frontier(ls, ids, gws, marked, queue) &&
    forall li, a {:trigger Touches(ls[li], a)} :: 0 <= li < |ls| && a in marked && Touches(ls[li], a) ==>
      Other(ls[li], a) in marked || Other(ls[li], a) in queue
  }

  /** While `cur` is expanded, the same holds for every marked id other than `cur`. */
  ghost predicate SearchAt(ls: seq<Link>, ids: set<string>, gws: set<string>, marked: set<string>, queue: seq<string>, cur: string)
  {
    Frontier(ls, ids, gws, marked, queue) && cur in marked &&
    forall li, a {:trigger Touches(ls[li], a)} :: 0 <= li < |ls| && a in marked && a != cur && Touches(ls[li], a) ==>
      Other(ls[li], a) in marked || Other(ls[li], a) in queue
  }

  /** How many queue entries name an id in `s`. */
  ghost function CountIn(q: seq<string>, s: set<string>): nat {
    if q == [] then 0 else (if q[0] in s then 1 else 0) + CountIn(q[1..], s)
  }

  lemma {:induction false} CountInAppendOutside(a: seq<string>, b: seq<string>, s: set<string>)
    requires forall i :: 0 <= i < |b| ==> b[i] !in s
    ensures CountIn(a + b, s) == CountIn(a, s)
    decreases |a| + |b|
  {
    if a == [] {
      if b != [] {
        CountInAppendOutside([], b[1..], s);
        assert ([] + b)[1..] == [] + b[1..];
      }
    } else {
      CountInAppendOutside(a[1..], b, s);
      assert (a + b)[1..] == a[1..] + b;
    }
  }

  /**
   * `recalculateReachability`, the search part: every flag is cleared, the home gateways are
   * queued, and each dequeued node is marked and queues its unmarked neighbours over links in
   * either direction. A node is marked when it is dequeued, so it can be queued several times.
   * Afterwards a node is reachable exactly when a home gateway is connected to it.
   */
  method Reachability(ns0: seq<Node>, ls: seq<Link>) returns (ns: seq<Node>)
    requires UniqueIds(ns0) && EndpointsStored(ns0, ls)
    ensures OnlyReachChanged(ns0, ns)
    ensures forall k :: 0 <= k < |ns| ==> (ns[k].isReachable <==> Connected(ls, GatewayIds(ns0), ns0[k].id))
  {
    ghost var ids, gws := Ids(ns0), GatewayIds(ns0);
    var queue: seq<string>;
    ns, queue := ClearMarks(ns0);
    ghost var marked: set<string> := {};
    SearchStart(ls, ids, gws, queue);
    while |queue| > 0
      invariant MarksMatch(ns0, ns, marked)
      invariant Search(ls, ids, gws, marked, queue)
      decreases ids - marked, CountIn(queue, marked)
    {
      ns, marked, queue := SearchRound(ls, ids, gws, ns0, ns, marked, queue);
    }
    SearchComplete(ns0, ls, ns, marked);
  }

  /**
   * One round of the loop: the head of the queue is dequeued and marked, and its links are
   * visited. Only reachability flags change, the rest of the queue keeps its order ahead of the
   * ids the round enqueues, and either a new id is marked or a queue entry naming a marked id is
   * used up.
   */
  method SearchRound(ls: seq<Link>, ghost ids: set<string>, ghost gws: set<string>, ghost ns0: seq<Node>,
                     ns: seq<Node>, ghost marked: set<string>, queue: seq<string>)
    returns (ns': seq<Node>, ghost marked': set<string>, queue': seq<string>)
    requires UniqueIds(ns0) && ids == Ids(ns0) && EndpointsStored(ns0, ls)
    requires MarksMatch(ns0, ns, marked) && Search(ls, ids, gws, marked, queue) && |queue| > 0
    ensures MarksMatch(ns0, ns', marked') && Search(ls, ids, gws, marked', queue')
    ensures OnlyReachChanged(ns, ns') && |queue| - 1 <= |queue'| && queue'[..|queue| - 1] == queue[1..]
    ensures ids - marked' < ids - marked || (ids - marked' == ids - marked && CountIn(queue', marked') < CountIn(queue, marked))
  {
    var node := queue[0];
    var rest := queue[1..];
    var k := IndexOfId(ns, node);
    MarkNode(ns0, ns, marked, node, k);
    SearchPop(ls, ids, gws, marked, queue);
    ns' := ns[k := ns[k].(isReachable := true)];
    marked' := marked + {node};
    queue' := VisitLinks(ls, ids, gws, ns0, ns', marked', node, rest);
    RoundMeasure(ids, marked, queue, queue');
  }

  /** The measure of the loop goes down over a round that queues only unmarked ids. */
  lemma RoundMeasure(ids: set<string>, marked: set<string>, queue: seq<string>, queue': seq<string>)
    requires |queue| > 0 && queue[0] in ids
    requires |queue| - 1 <= |queue'| && queue'[..|queue| - 1] == queue[1..]
    requires forall i :: |queue| - 1 <= i < |queue'| ==> queue'[i] !in marked + {queue[0]}
    ensures var marked' := marked + {queue[0]};
      ids - marked' < ids - marked || (ids - marked' == ids - marked && CountIn(queue', marked') < CountIn(queue, marked))
  {
    var node, rest := queue[0], queue[1..];
    var marked' := marked + {node};
    if node in marked {
      assert marked' == marked;
      CountInAppendOutside(rest, queue'[|rest|..], marked);
      assert rest + queue'[|rest|..] == queue';
      assert CountIn(queue, marked) == 1 + CountIn(rest, marked);
    } else {
      assert node in ids - marked && node !in ids - marked';
    }
  }

  /** The first pass: all flags cleared and the home gateways queued in store order. */
  method ClearMarks(ns0: seq<Node>) returns (ns: seq<Node>, queue: seq<string>)
    ensures MarksMatch(ns0, ns, {})
    ensures forall x :: x in queue <==> x in GatewayIds(ns0)
  {
    ns := ns0;
    queue := [];
    var i := 0;
    while i < |ns|
      invariant 0 <= i <= |ns| && OnlyReachChanged(ns0, ns)
      invariant forall k :: 0 <= k < i ==> !ns[k].isReachable
      invariant forall x :: x in queue <==> exists k :: 0 <= k < i && ns0[k].def.isHomeGateway && ns0[k].id == x
    {
      ns := ns[i := ns[i].(isReachable := false)];
      if ns[i].def.isHomeGateway {
        queue := queue + [ns[i].id];
      }
      i := i + 1;
    }
  }

  lemma SearchStart(ls: seq<Link>, ids: set<string>, gws: set<string>, queue: seq<string>)
    requires gws <= ids
    requires forall x :: x in queue <==> x in gws
    ensures Search(ls, ids, gws, {}, queue)
  {
    forall q | q in queue ensures Connected(ls, gws, q) {
      ConnectedStart(ls, gws, q);
    }
  }

  /** Setting the flag of the node at `k` (whose id is `v`) marks exactly `v`. */
  lemma MarkNode(ns0: seq<Node>, ns: seq<Node>, marked: set<string>, v: string, k: int)
    requires UniqueIds(ns0) && MarksMatch(ns0, ns, marked) && v in Ids(ns0) && k == IndexOfId(ns, v)
    ensures 0 <= k < |ns| && MarksMatch(ns0, ns[k := ns[k].(isReachable := true)], marked + {v})
  {
    SameIds(ns0, ns);
    var ns' := ns[k := ns[k].(isReachable := true)];
    forall j | 0 <= j < |ns'| ensures ns'[j].isReachable <==> ns'[j].id in marked + {v} {
      if j != k {
        assert ns[j].id == ns0[j].id && ns[k].id == ns0[k].id;
      }
    }
  }

  /** Dequeuing `queue[0]` and marking it: the invariant holds with that id being expanded. */
  lemma SearchPop(ls: seq<Link>, ids: set<string>, gws: set<string>, marked: set<string>, queue: seq<string>)
    requires Search(ls, ids, gws, marked, queue) && |queue| > 0
    ensures queue[0] in ids
    ensures SearchAt(ls, ids, gws, marked + {queue[0]}, queue[1..], queue[0])
  {
    var v := queue[0];
    var m' := marked + {v};
    forall q | q in queue[1..] ensures q in queue { }
    forall g | g in gws ensures g in m' || g in queue[1..] {
      if g !in m' {
        var i :| 0 <= i < |queue| && queue[i] == g;
        assert queue[1..][i - 1] == g;
      }
    }
    forall li, a | 0 <= li < |ls| && a in m' && a != v && Touches(ls[li], a)
      ensures Other(ls[li], a) in m' || Other(ls[li], a) in queue[1..]
    {
      var o := Other(ls[li], a);
      if o !in m' {
        assert a in marked;
        assert o in queue;
        var i :| 0 <= i < |queue| && queue[i] == o;
        assert queue[1..][i - 1] == o;
      }
    }
  }

  /** One pass over the links of the node being expanded: unmarked far ends are queued. */
  method VisitLinks(ls: seq<Link>, ghost ids: set<string>, ghost gws: set<string>, ghost ns0: seq<Node>, ns: seq<Node>,
                    ghost marked: set<string>, node: string, queue: seq<string>)
    returns (queue': seq<string>)
    requires ids == Ids(ns0) && EndpointsStored(ns0, ls)
    requires MarksMatch(ns0, ns, marked) && SearchAt(ls, ids, gws, marked, queue, node)
    ensures Search(ls, ids, gws, marked, queue')
    ensures |queue| <= |queue'| && queue'[..|queue|] == queue
    ensures forall i :: |queue| <= i < |queue'| ==> queue'[i] !in marked
  {
    var connectedLinks := Filter(IncidentTo(node), ls);
    forall j | 0 <= j < |connectedLinks|
      ensures connectedLinks[j] in ls && Touches(connectedLinks[j], node) && LinkStored(ns0, connectedLinks[j])
    {
      FilterAt(IncidentTo(node), ls, j);
    }
    ghost var nbrs := set l | l in connectedLinks :: Other(l, node);
    queue' := VisitEach(nbrs, ns0, ns, marked, node, connectedLinks, queue);
    forall p | |queue| <= p < |queue'| ensures queue'[p] in ids && Connected(ls, gws, queue'[p]) {
      var l :| l in connectedLinks && Other(l, node) == queue'[p];
      ConnectedStep(ls, gws, l, node);
    }
    SearchExtend(ls, ids, gws, marked, queue, queue', node);
    FilterMembers(IncidentTo(node), ls);
    forall l | l in ls && Touches(l, node) ensures Other(l, node) in marked || Other(l, node) in queue' {
      assert l in connectedLinks;
    }
    SearchFinish(ls, ids, gws, marked, queue', node);
  }

  /**
   * The `forEach` over the links `cl` of the node being expanded: the far end of each is
   * afterwards marked or queued, and every id it queues is an unmarked far end (one of `nbrs`).
   */
  method VisitEach(ghost nbrs: set<string>, ghost ns0: seq<Node>, ns: seq<Node>, ghost marked: set<string>,
                   node: string, cl: seq<Link>, queue: seq<string>)
    returns (queue': seq<string>)
    requires forall j :: 0 <= j < |cl| ==> LinkStored(ns0, cl[j]) && Touches(cl[j], node) && Other(cl[j], node) in nbrs
    requires MarksMatch(ns0, ns, marked)
    ensures forall l :: l in cl ==> Other(l, node) in marked || Other(l, node) in queue'
    ensures |queue| <= |queue'| && queue'[..|queue|] == queue
    ensures forall p :: |queue| <= p < |queue'| ==> queue'[p] !in marked && queue'[p] in nbrs
  {
    queue' := queue;
    ghost var added: seq<string> := [];
    ghost var ends: set<string> := {};
    var i := 0;
    while i < |cl|
      invariant 0 <= i <= |cl| && queue' == queue + added
      invariant forall j :: 0 <= j < i ==> Other(cl[j], node) in ends
      invariant forall x :: x in ends ==> x in marked || x in queue'
      invariant forall p :: 0 <= p < |added| ==> added[p] !in marked && added[p] in nbrs
    {
      var next := VisitLink(ns0, ns, marked, node, cl[i], queue');
      if next != queue' {
        added := added + [Other(cl[i], node)];
      }
      queue' := next;
      ends := ends + {Other(cl[i], node)};
      i := i + 1;
    }
    assert queue'[..|queue|] == queue;
    forall p | |queue| <= p < |queue'| ensures queue'[p] !in marked && queue'[p] in nbrs {
      assert queue'[p] == added[p - |queue|];
    }
    forall l | l in cl ensures Other(l, node) in marked || Other(l, node) in queue' {
      var j :| 0 <= j < |cl| && cl[j] == l;
      assert Other(cl[j], node) in ends;
    }
  }

  /** The far end of one link of the node being expanded is queued unless it is already marked. */
  method VisitLink(ghost ns0: seq<Node>, ns: seq<Node>, ghost marked: set<string>, node: string, l: Link, queue: seq<string>)
    returns (queue': seq<string>)
    requires LinkStored(ns0, l) && Touches(l, node) && MarksMatch(ns0, ns, marked)
    ensures Other(l, node) in Ids(ns0)
    ensures Other(l, node) in marked || Other(l, node) in queue'
    ensures queue' == queue || (queue' == queue + [Other(l, node)] && Other(l, node) !in marked)
  {
    SameIds(ns0, ns);
    var other := if node == l.target then l.source else l.target;
    var ko := IndexOfId(ns, other);
    if !ns[ko].isReachable {
      queue' := queue + [other];
    } else {
      queue' := queue;
    }
  }

  /** Queueing stored ids connected to a home gateway keeps the invariant of the search. */
  lemma SearchExtend(ls: seq<Link>, ids: set<string>, gws: set<string>, marked: set<string>, queue: seq<string>,
                     queue': seq<string>, cur: string)
    requires SearchAt(ls, ids, gws, marked, queue, cur)
    requires |queue| <= |queue'| && queue'[..|queue|] == queue
    requires forall p :: |queue| <= p < |queue'| ==> queue'[p] in ids && Connected(ls, gws, queue'[p])
    ensures SearchAt(ls, ids, gws, marked, queue', cur)
  {
    forall x | x in queue ensures x in queue' {
      var p :| 0 <= p < |queue| && queue[p] == x;
      assert queue'[p] == x;
    }
    forall q | q in queue' ensures q in ids && Connected(ls, gws, q) {
      var p :| 0 <= p < |queue'| && queue'[p] == q;
      if p < |queue| {
        assert queue[p] == q;
      }
    }
  }

  lemma SearchPush(ls: seq<Link>, ids: set<string>, gws: set<string>, marked: set<string>, queue: seq<string>, cur: string, l: Link)
    requires SearchAt(ls, ids, gws, marked, queue, cur)
    requires l in ls && Touches(l, cur) && Other(l, cur) in ids
    ensures SearchAt(ls, ids, gws, marked, queue + [Other(l, cur)], cur)
  {
    ConnectedStep(ls, gws, l, cur);
  }

  lemma SearchFinish(ls: seq<Link>, ids: set<string>, gws: set<string>, marked: set<string>, queue: seq<string>, cur: string)
    requires SearchAt(ls, ids, gws, marked, queue, cur)
    requires forall l :: l in ls && Touches(l, cur) ==> Other(l, cur) in marked || Other(l, cur) in queue
    ensures Search(ls, ids, gws, marked, queue)
  {
    forall li, a | 0 <= li < |ls| && a in marked && Touches(ls[li], a)
      ensures Other(ls[li], a) in marked || Other(ls[li], a) in queue
    {
      if a == cur {
        assert ls[li] in ls;
      }
    }
  }

  /** With the queue empty, the marked ids are exactly those connected to a home gateway. */
  lemma SearchComplete(ns0: seq<Node>, ls: seq<Link>, ns: seq<Node>, marked: set<string>)
    requires MarksMatch(ns0, ns, marked) && Search(ls, Ids(ns0), GatewayIds(ns0), marked, [])
    ensures forall k :: 0 <= k < |ns| ==> (ns[k].isReachable <==> Connected(ls, GatewayIds(ns0), ns0[k].id))
  {
    var gws := GatewayIds(ns0);
    assert gws <= marked by {
      var q: seq<string> := [];
      assert Search(ls, Ids(ns0), gws, marked, q);
      forall g | g in gws ensures g in marked {
        assert g !in q;
      }
    }
    assert forall li, a {:trigger Touches(ls[li], a)} :: 0 <= li < |ls| && a in marked && Touches(ls[li], a) ==> Other(ls[li], a) in marked by {
      forall li, a | 0 <= li < |ls| && a in marked && Touches(ls[li], a) ensures Other(ls[li], a) in marked {
        var q: seq<string> := [];
        assert Search(ls, Ids(ns0), gws, marked, q);
        assert Other(ls[li], a) !in q;
      }
    }
    forall k | 0 <= k < |ns| && Connected(ls, gws, ns0[k].id) ensures ns[k].isReachable {
      ClosedContainsConnected(ls, gws, marked, ns0[k].id);
      assert ns[k].id == ns0[k].id;
    }
    forall k | 0 <= k < |ns| && ns[k].isReachable ensures Connected(ls, gws, ns0[k].id) {
      assert ns[k].id == ns0[k].id && ns[k].id in marked;
    }
  }

  /** Every home gateway ends up reachable. */
  lemma GatewaysReachable(ns0: seq<Node>, ls: seq<Link>, ns: seq<Node>)
    requires OnlyReachChanged(ns0, ns)
    requires forall k :: 0 <= k < |ns| ==> (ns[k].isReachable <==> Connected(ls, GatewayIds(ns0), ns0[k].id))
    ensures forall k :: 0 <= k < |ns| && ns[k].def.isHomeGateway ==> ns[k].isReachable
  {
    forall k | 0 <= k < |ns| && ns[k].def.isHomeGateway ensures ns[k].isReachable {
      ConnectedStart(ls, GatewayIds(ns0), ns0[k].id);
    }
  }

  // ---------------------------------------------------------------- the whole pass

  /** The nodes after `recalculateReachability`: flags from the search, then rooms from the segment table. */
  ghost function Recalculated(ns0: seq<Node>, ls: seq<Link>, segs: seq<RoomSegment>): (r: seq<Node>)
    ensures |r| == |ns0|
  {
    seq(|ns0|, k requires 0 <= k < |ns0| => WithRooms(ns0[k].(isReachable := Connected(ls, GatewayIds(ns0), ns0[k].id)), segs))
  }

  /** The second pass, `eachNode(assignRooms)`. */
  method AssignAll(ns0: seq<Node>, segs: seq<RoomSegment>) returns (ns: seq<Node>)
    ensures |ns| == |ns0| && forall k :: 0 <= k < |ns| ==> ns[k] == WithRooms(ns0[k], segs)
  {
    ns := ns0;
    var i := 0;
    while i < |ns|
      invariant 0 <= i <= |ns| == |ns0|
      invariant forall k :: 0 <= k < i ==> ns[k] == WithRooms(ns0[k], segs)
      invariant forall k :: i <= k < |ns| ==> ns[k] == ns0[k]
    {
      var n := AssignRooms(ns[i], segs);
      ns := ns[i := n];
      i := i + 1;
    }
  }

  /**
   * A pass changes only the flag and the room lists of each node, keeps the order of the nodes,
   * and so keeps their ids.
   */
  lemma RecalculatedKeepsRest(ns0: seq<Node>, ls: seq<Link>, segs: seq<RoomSegment>)
    ensures forall k :: 0 <= k < |ns0| ==>
      Recalculated(ns0, ls, segs)[k].(isReachable := ns0[k].isReachable, rooms := ns0[k].rooms,
                                      roomSegments := ns0[k].roomSegments) == ns0[k]
    ensures Ids(Recalculated(ns0, ls, segs)) == Ids(ns0)
    ensures UniqueIds(ns0) ==> UniqueIds(Recalculated(ns0, ls, segs))
  {
    var r := Recalculated(ns0, ls, segs);
    forall k | 0 <= k < |ns0| ensures r[k].id == ns0[k].id {
      assert r[k] == WithRooms(ns0[k].(isReachable := Connected(ls, GatewayIds(ns0), ns0[k].id)), segs);
    }
    forall x | x in Ids(ns0) ensures x in Ids(r) {
      var k :| 0 <= k < |ns0| && ns0[k].id == x;
      assert r[k].id == x;
    }
  }

  /** After a pass, the reachable nodes are exactly those connected to a home gateway, gateways included. */
  lemma RecalculatedReachable(ns0: seq<Node>, ls: seq<Link>, segs: seq<RoomSegment>)
    ensures forall k :: 0 <= k < |ns0| ==>
      (Recalculated(ns0, ls, segs)[k].isReachable <==> Connected(ls, GatewayIds(ns0), ns0[k].id))
    ensures forall k :: 0 <= k < |ns0| && ns0[k].def.isHomeGateway ==> Recalculated(ns0, ls, segs)[k].isReachable
  {
    var r := Recalculated(ns0, ls, segs);
    forall k | 0 <= k < |ns0| ensures r[k].isReachable <==> Connected(ls, GatewayIds(ns0), ns0[k].id) {
      assert r[k] == WithRooms(ns0[k].(isReachable := Connected(ls, GatewayIds(ns0), ns0[k].id)), segs);
    }
    forall k | 0 <= k < |ns0| && ns0[k].def.isHomeGateway ensures r[k].isReachable {
      ConnectedStart(ls, GatewayIds(ns0), ns0[k].id);
    }
  }

  // ---------------------------------------------------------------- the game state

  /**
   * The loop of `initRooms`: each descriptor goes into the segment table under its id, and its
   * room joins the names when `indexOf` does not find it.
   */
  method RoomTables(layout: seq<RoomSegment>) returns (segs: seq<RoomSegment>, names: seq<string>)
    ensures segs == SegmentTable(layout) && names == Dedup(RoomsOf(layout))
  {
    segs, names := [], [];
    var i := 0;
    assert layout[..0] == [];
    while i < |layout|
      invariant 0 <= i <= |layout|
      invariant segs == SegmentTable(layout[..i]) && names == Dedup(RoomsOf(layout[..i]))
    {
      var description := layout[i];
      assert layout[..i + 1][..i] == layout[..i];
      assert RoomsOf(layout[..i + 1]) == RoomsOf(layout[..i]) + [description.room];
      DedupSnoc(RoomsOf(layout[..i]), description.room);
      segs := PutSegment(segs, description);
      if IndexOf(names, description.room) == -1 {
        names := names + [description.room];
      }
      i := i + 1;
    }
    assert layout[..i] == layout;
  }

  /** The three progress percentages (`coveragePercentages`). */
  datatype Percentages = Percentages(environmental: nat, wearable: nat, video: nat)

  /** `setCoverage(t, x)`. */
  function WithCoverage(c: Percentages, t: CoverageKind, x: nat): Percentages {
    match t
    case Environmental => c.(environmental := x)
    case Wearable => c.(wearable := x)
    case Video => c.(video := x)
  }

  /** The percentages after an evaluation that may set one of them. */
  function AfterOutcome(c: Percentages, update: Option<(CoverageKind, nat)>): Percentages {
    if update.Some? then WithCoverage(c, update.value.0, update.value.1) else c
  }

  /** The done list after `checkAchievement(a)`: the name is added when the predicate holds and it is not there yet. */
  ghost function DoneAfterCheck(done: seq<string>, a: Achievement, ns: seq<Node>, ls: seq<Link>, roomNames: seq<string>): seq<string> {
    if OutcomeOf(a.rule, ns, ls, roomNames).ok then AddIfAbsent(done, a.name) else done
  }

  /** The done list after checking every achievement of `list` in order. */
  ghost function DoneAfterAll(done: seq<string>, list: seq<Achievement>, ns: seq<Node>, ls: seq<Link>, roomNames: seq<string>): seq<string> {
    if list == [] then done
    else DoneAfterCheck(DoneAfterAll(done, list[..|list| - 1], ns, ls, roomNames), list[|list| - 1], ns, ls, roomNames)
  }

  /** The percentages after checking every achievement of `list` in order. */
  ghost function CoverageAfterAll(c: Percentages, list: seq<Achievement>, ns: seq<Node>, ls: seq<Link>, roomNames: seq<string>): Percentages {
    if list == [] then c
    else AfterOutcome(CoverageAfterAll(c, list[..|list| - 1], ns, ls, roomNames), OutcomeOf(list[|list| - 1].rule, ns, ls, roomNames).coverage)
  }

  /** Some achievement of `list` is named `name` and its predicate holds. */
  ghost predicate EarnedIn(list: seq<Achievement>, name: string, ns: seq<Node>, ls: seq<Link>, roomNames: seq<string>) {
    exists j :: 0 <= j < |list| && list[j].name == name && OutcomeOf(list[j].rule, ns, ls, roomNames).ok
  }

  /**
   * Checking achievements only appends to the done list, never repeats a name, adds only
   * names of achievements whose predicate holds, and adds the name of every such achievement.
   */
  lemma {:induction false} DoneAfterAllGrows(done: seq<string>, list: seq<Achievement>, ns: seq<Node>, ls: seq<Link>, roomNames: seq<string>)
    ensures var d := DoneAfterAll(done, list, ns, ls, roomNames);
      |done| <= |d| && d[..|done|] == done && (NoDup(done) ==> NoDup(d)) &&
      (forall i :: |done| <= i < |d| ==> EarnedIn(list, d[i], ns, ls, roomNames)) &&
      forall j :: 0 <= j < |list| && OutcomeOf(list[j].rule, ns, ls, roomNames).ok ==> list[j].name in d
  {
    if list != [] {
      var pre := list[..|list| - 1];
      var a := list[|list| - 1];
      DoneAfterAllGrows(done, pre, ns, ls, roomNames);
      var d0 := DoneAfterAll(done, pre, ns, ls, roomNames);
      var d := DoneAfterAll(done, list, ns, ls, roomNames);
      assert d == DoneAfterCheck(d0, a, ns, ls, roomNames);
      if OutcomeOf(a.rule, ns, ls, roomNames).ok {
        SetDoneMonotone(d0, d, a.name);
      }
      assert d[..|done|] == done by {
        assert d[..|d0|][..|done|] == d0[..|done|];
      }
      forall i | |done| <= i < |d|
        ensures EarnedIn(list, d[i], ns, ls, roomNames)
      {
        if i < |d0| {
          assert d[i] == d0[i];
          assert EarnedIn(pre, d0[i], ns, ls, roomNames);
          var j :| 0 <= j < |pre| && pre[j].name == d0[i] && OutcomeOf(pre[j].rule, ns, ls, roomNames).ok;
          assert list[j] == pre[j];
        } else {
          assert d == d0 + [a.name] && d[i] == a.name;
          assert list[|list| - 1] == a && OutcomeOf(a.rule, ns, ls, roomNames).ok;
        }
      }
      forall j | 0 <= j < |list| && OutcomeOf(list[j].rule, ns, ls, roomNames).ok
        ensures list[j].name in d
      {
        if j < |list| - 1 {
          assert list[j] == pre[j] && pre[j].name in d0;
          assert d[..|d0|] == d0;
          var i :| 0 <= i < |d0| && d0[i] == list[j].name;
          assert d[i] == list[j].name;
        }
      }
    }
  }

  /** The state of src/game.js, over the graph store and the list of done achievements it works with. */
  class GameState {
    const store: GraphStore
    const achievements: DoneList
    /** `roomSegments`: the segment table, in the order segment ids were first seen. */
    var roomSegments: seq<RoomSegment>
    /** `roomNames`: every room once. */
    var roomNames: seq<string>
    var coverage: Percentages
    var counter: nat
    var isStarted: bool

    constructor(store: GraphStore, achievements: DoneList)
      ensures this.store == store && this.achievements == achievements
      ensures roomSegments == [] && roomNames == [] && coverage == Percentages(0, 0, 0)
      ensures counter == 0 && !isStarted
    {
      this.store := store;
      this.achievements := achievements;
      roomSegments := [];
      roomNames := [];
      coverage := Percentages(0, 0, 0);
      counter := 0;
      isStarted := false;
    }

    /** `getRoomNames()`. */
    method GetRoomNames() returns (names: seq<string>)
      ensures names == roomNames
    {
      names := roomNames;
    }

    /** `setCoverage(t, x)`. */
    method SetCoverage(t: CoverageKind, x: nat)
      modifies this`coverage
      ensures coverage == WithCoverage(old(coverage), t, x)
    {
      coverage := WithCoverage(coverage, t, x);
    }

    /**
     * `recalculateReachability()`: the search from the home gateways sets every flag, then every
     * node's rooms are rebuilt from the segment table. The node sequence keeps its order and ids.
     */
    method RecalculateReachability()
      requires store.Valid()
      modifies store`nodes
      ensures store.nodes == Recalculated(old(store.nodes), store.links, roomSegments)
      ensures store.Valid()
    {
      ghost var ns0 := store.nodes;
      var ns := Reachability(store.nodes, store.links);
      ns := AssignAll(ns, roomSegments);
      store.nodes := ns;
      assert store.nodes == Recalculated(ns0, store.links, roomSegments);
      RecalculatedKeepsRest(ns0, store.links, roomSegments);
    }

    /**
     * `initRooms(layout)`: the segment table takes each descriptor under its id (a later one
     * replacing an earlier one), each room name is kept once in order of first appearance, and
     * reachability and rooms are recomputed.
     */
    method InitRooms(layout: seq<RoomSegment>)
      requires store.Valid()
      modifies this, store`nodes
      ensures roomSegments == SegmentTable(layout) && roomNames == Dedup(RoomsOf(layout))
      ensures store.nodes == Recalculated(old(store.nodes), store.links, roomSegments)
      ensures store.Valid()
      ensures coverage == old(coverage) && counter == old(counter) && isStarted == old(isStarted)
    {
      roomSegments, roomNames := RoomTables(layout);
      RecalculateReachability();
    }

    /**
     * `checkAchievement(a)`: evaluates the predicate (which may set a percentage) and, when it
     * holds, marks the achievement done unless it already is.
     */
    method CheckAchievement(a: Achievement)
      modifies this`coverage, achievements
      ensures achievements.done == DoneAfterCheck(old(achievements.done), a, store.nodes, store.links, roomNames)
      ensures coverage == AfterOutcome(old(coverage), OutcomeOf(a.rule, store.nodes, store.links, roomNames).coverage)
    {
      var o := Evaluate(a.rule, store.nodes, store.links, roomNames);
      if o.coverage.Some? {
        SetCoverage(o.coverage.value.0, o.coverage.value.1);
      }
      if o.ok {
        var isDone := achievements.IsDone(a.name);
        if !isDone {
          achievements.SetDone(a.name);
        }
      }
    }

    /**
     * One run of `mainLoop`: reachability is always recomputed; the achievements are checked in
     * list order only when no dialog is open; the counter goes up.
     */
    method Tick(dialogOpen: bool)
      requires store.Valid()
      modifies this, store`nodes, achievements
      ensures store.Valid()
      ensures store.nodes == Recalculated(old(store.nodes), store.links, roomSegments)
      ensures roomSegments == old(roomSegments) && roomNames == old(roomNames) && isStarted == old(isStarted)
      ensures dialogOpen ==> achievements.done == old(achievements.done) && coverage == old(coverage)
      ensures !dialogOpen ==>
        achievements.done == DoneAfterAll(old(achievements.done), AchievementList, store.nodes, store.links, roomNames) &&
        coverage == CoverageAfterAll(old(coverage), AchievementList, store.nodes, store.links, roomNames)
      ensures counter == old(counter) + 1
    {
      RecalculateReachability();
      if !dialogOpen {
        CheckAll(AchievementList);
      }
      counter := counter + 1;
    }

    /** `get().forEach(checkAchievement)`. */
    method CheckAll(list: seq<Achievement>)
      modifies this`coverage, achievements
      ensures achievements.done == DoneAfterAll(old(achievements.done), list, store.nodes, store.links, roomNames)
      ensures coverage == CoverageAfterAll(old(coverage), list, store.nodes, store.links, roomNames)
    {
      var i := 0;
      assert list[..0] == [];
      while i < |list|
        invariant 0 <= i <= |list|
        invariant achievements.done == DoneAfterAll(old(achievements.done), list[..i], store.nodes, store.links, roomNames)
        invariant coverage == CoverageAfterAll(old(coverage), list[..i], store.nodes, store.links, roomNames)
      {
        assert list[..i + 1][..i] == list[..i];
        CheckAchievement(list[i]);
        i := i + 1;
      }
      assert list[..i] == list;
    }

    /** `start()` without the intro dialog: one tick, then the game counts as started. */
    method Start(dialogOpen: bool)
      requires store.Valid()
      modifies this, store`nodes, achievements
      ensures store.Valid() && isStarted
      ensures store.nodes == Recalculated(old(store.nodes), store.links, roomSegments)
      ensures roomSegments == old(roomSegments) && roomNames == old(roomNames)
      ensures dialogOpen ==> achievements.done == old(achievements.done) && coverage == old(coverage)
      ensures !dialogOpen ==>
        achievements.done == DoneAfterAll(old(achievements.done), AchievementList, store.nodes, store.links, roomNames) &&
        coverage == CoverageAfterAll(old(coverage), AchievementList, store.nodes, store.links, roomNames)
      ensures counter == old(counter) + 1
    {
      Tick(dialogOpen);
      isStarted := true;
    }
  }
}
