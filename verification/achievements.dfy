/**
 * The achievements of src/achievements.js: read-only scans over the stored nodes and links that
 * decide each achievement and compute the coverage percentages, the fixed list of achievements,
 * and the list of achievements already done.
 */
module Achievements {
  import opened Wrappers
  import opened Seqs
  import opened Nodes
  import opened Store

  // ---------------------------------------------------------------- scans for one node

  /** A node counts for a scan: it has the modality, and it is reachable unless that is not required. */
  predicate Qualifies(n: Node, modality: string, hasToBeReachable: bool) {
    (n.isReachable || !hasToBeReachable) && n.def.modality == modality
  }

  function QualifiesFor(modality: string, hasToBeReachable: bool): Node -> bool {
    (n: Node) => Qualifies(n, modality, hasToBeReachable)
  }

  function QualifiesIn(modality: string, room: string, hasToBeReachable: bool): Node -> bool {
    (n: Node) => Qualifies(n, modality, hasToBeReachable) && room in n.rooms
  }

  /** The last node of `ns` satisfying `p`: what a scan that overwrites its result on each match ends with. */
  function LastWhere(ns: seq<Node>, p: Node -> bool): Option<Node> {
    if ns == [] then None
    else if p(ns[|ns| - 1]) then Some(ns[|ns| - 1])
    else LastWhere(ns[..|ns| - 1], p)
  }

  /** `LastWhere` finds a node exactly when one matches, and nothing after it matches. */
  lemma {:induction false} LastWhereSpec(ns: seq<Node>, p: Node -> bool)
    ensures LastWhere(ns, p).Some? <==> exists k :: 0 <= k < |ns| && p(ns[k])
    ensures LastWhere(ns, p).Some? ==> exists k :: (0 <= k < |ns| && ns[k] == LastWhere(ns, p).value && p(ns[k]) &&
      forall j :: k < j < |ns| ==> !p(ns[j]))
  {
    if ns != [] {
      var pre := ns[..|ns| - 1];
      LastWhereSpec(pre, p);
      if !p(ns[|ns| - 1]) {
        if LastWhere(pre, p).Some? {
          var k :| 0 <= k < |pre| && pre[k] == LastWhere(pre, p).value && p(pre[k]) &&
            forall j :: k < j < |pre| ==> !p(pre[j]);
          assert ns[k] == pre[k];
          assert forall j :: k < j < |ns| - 1 ==> ns[j] == pre[j];
        } else {
          assert forall k :: 0 <= k < |pre| ==> ns[k] == pre[k];
        }
      }
    }
  }

  lemma LastWhereStep(ns: seq<Node>, p: Node -> bool, i: int)
    requires 0 <= i < |ns|
    ensures LastWhere(ns[..i + 1], p) == if p(ns[i]) then Some(ns[i]) else LastWhere(ns[..i], p)
  {
    assert ns[..i + 1][..i] == ns[..i];
  }

  /** `anyCoverage(modality, hasToBeReachable)`: the last qualifying node, or none (null). */
  method AnyCoverage(ns: seq<Node>, modality: string, hasToBeReachable: bool) returns (any: Option<Node>)
    ensures any == LastWhere(ns, QualifiesFor(modality, hasToBeReachable))
  {
    any := None;
    var i := 0;
    assert ns[..0] == [];
    while i < |ns|
      invariant 0 <= i <= |ns| && any == LastWhere(ns[..i], QualifiesFor(modality, hasToBeReachable))
    {
      LastWhereStep(ns, QualifiesFor(modality, hasToBeReachable), i);
      var n := ns[i];
      if n.isReachable || !hasToBeReachable {
        if n.def.modality == modality {
          any := Some(n);
        }
      }
      i := i + 1;
    }
    assert ns[..i] == ns;
  }

  /** `coverageInRoom(modality, room, hasToBeReachable)`: the last qualifying node placed in `room`. */
  method CoverageInRoom(ns: seq<Node>, modality: string, room: string, hasToBeReachable: bool) returns (result: Option<Node>)
    ensures result == LastWhere(ns, QualifiesIn(modality, room, hasToBeReachable))
  {
    result := None;
    var i := 0;
    assert ns[..0] == [];
    while i < |ns|
      invariant 0 <= i <= |ns| && result == LastWhere(ns[..i], QualifiesIn(modality, room, hasToBeReachable))
    {
      LastWhereStep(ns, QualifiesIn(modality, room, hasToBeReachable), i);
      var n := ns[i];
      if n.isReachable || !hasToBeReachable {
        if n.def.modality == modality {
          if IndexOf(n.rooms, room) != -1 {
            result := Some(n);
          }
        }
      }
      i := i + 1;
    }
    assert ns[..i] == ns;
  }

  /** A node found in a room also counts for the room-less scan of the same modality. */
  lemma CoverageInRoomImpliesAny(ns: seq<Node>, modality: string, room: string, hasToBeReachable: bool)
    ensures LastWhere(ns, QualifiesIn(modality, room, hasToBeReachable)).Some? ==>
      LastWhere(ns, QualifiesFor(modality, hasToBeReachable)).Some?
  {
    LastWhereSpec(ns, QualifiesIn(modality, room, hasToBeReachable));
    LastWhereSpec(ns, QualifiesFor(modality, hasToBeReachable));
    if LastWhere(ns, QualifiesIn(modality, room, hasToBeReachable)).Some? {
      var k :| 0 <= k < |ns| && QualifiesIn(modality, room, hasToBeReachable)(ns[k]);
      assert QualifiesFor(modality, hasToBeReachable)(ns[k]);
    }
  }

  // ---------------------------------------------------------------- rooms with a device

  /** The rooms of the nodes satisfying `p`, node after node, with repetitions. */
  function RoomsOfNodes(ns: seq<Node>, p: Node -> bool): seq<string> {
    if ns == [] then [] else RoomsOfNodes(ns[..|ns| - 1], p) + (if p(ns[|ns| - 1]) then ns[|ns| - 1].rooms else [])
  }

  /** The distinct rooms holding a node that satisfies `p`, in order of first appearance. */
  function PresentRooms(ns: seq<Node>, p: Node -> bool): seq<string> {
    Dedup(RoomsOfNodes(ns, p))
  }

  /** A room is present exactly when some node satisfying `p` lists it. */
  lemma {:induction false} PresentRoomsMembers(ns: seq<Node>, p: Node -> bool, r: string)
    ensures r in PresentRooms(ns, p) <==> exists k :: 0 <= k < |ns| && p(ns[k]) && r in ns[k].rooms
  {
    RoomsOfNodesMembers(ns, p, r);
  }

  lemma {:induction false} RoomsOfNodesMembers(ns: seq<Node>, p: Node -> bool, r: string)
    ensures r in RoomsOfNodes(ns, p) <==> exists k :: 0 <= k < |ns| && p(ns[k]) && r in ns[k].rooms
  {
    if ns != [] {
      var pre := ns[..|ns| - 1];
      RoomsOfNodesMembers(pre, p, r);
      if exists k :: 0 <= k < |ns| && p(ns[k]) && r in ns[k].rooms {
        var k :| 0 <= k < |ns| && p(ns[k]) && r in ns[k].rooms;
        if k < |pre| {
          assert pre[k] == ns[k];
        }
      }
      if exists k :: 0 <= k < |pre| && p(pre[k]) && r in pre[k].rooms {
        var k :| 0 <= k < |pre| && p(pre[k]) && r in pre[k].rooms;
        assert ns[k] == pre[k];
      }
    }
  }

  lemma DedupSnoc(s: seq<string>, x: string)
    ensures Dedup(s + [x]) == AddIfAbsent(Dedup(s), x)
  {
    assert (s + [x])[..|s|] == s;
  }

  /**
   * The nested `forEach` that collects the rooms of the nodes satisfying `p` into `presentRooms`,
   * pushing a room only when `indexOf` does not find it.
   */
  method CollectRooms(ns: seq<Node>, p: Node -> bool) returns (presentRooms: seq<string>)
    ensures presentRooms == PresentRooms(ns, p)
  {
    presentRooms := [];
    var i := 0;
    assert ns[..0] == [];
    while i < |ns|
      invariant 0 <= i <= |ns| && presentRooms == Dedup(RoomsOfNodes(ns[..i], p))
    {
      assert ns[..i + 1][..i] == ns[..i];
      if p(ns[i]) {
        assert RoomsOfNodes(ns[..i + 1], p) == RoomsOfNodes(ns[..i], p) + ns[i].rooms;
        presentRooms := AddRooms(RoomsOfNodes(ns[..i], p), presentRooms, ns[i].rooms);
        assert presentRooms == Dedup(RoomsOfNodes(ns[..i + 1], p));
      } else {
        assert RoomsOfNodes(ns[..i + 1], p) == RoomsOfNodes(ns[..i], p);
        assert presentRooms == Dedup(RoomsOfNodes(ns[..i + 1], p));
      }
      i := i + 1;
    }
    assert ns[..i] == ns;
  }

  /** `rooms.forEach(r => if (presentRooms.indexOf(r) === -1) presentRooms.push(r))`. */
  method AddRooms(ghost seen: seq<string>, presentRooms: seq<string>, rooms: seq<string>) returns (present': seq<string>)
    requires presentRooms == Dedup(seen)
    ensures present' == Dedup(seen + rooms)
  {
    present' := presentRooms;
    var j := 0;
    assert rooms[..0] == [] && seen + [] == seen;
    while j < |rooms|
      invariant 0 <= j <= |rooms| && present' == Dedup(seen + rooms[..j])
    {
      DedupSnoc(seen + rooms[..j], rooms[j]);
      assert seen + rooms[..j + 1] == seen + rooms[..j] + [rooms[j]];
      if IndexOf(present', rooms[j]) == -1 {
        present' := present' + [rooms[j]];
      }
      j := j + 1;
    }
    assert rooms[..j] == rooms;
  }

  // ---------------------------------------------------------------- percentages

  /** `Math.round(a / b)` for non-negative `a`, idealised as exact rounding half up. */
  function RoundHalfUp(a: nat, b: nat): nat
    requires b > 0
  {
    (2 * a + b) / (2 * b)
  }

  /** The rounded value is the nearest integer to `a / b`, halves going up. */
  lemma RoundHalfUpNearest(a: nat, b: nat)
    requires b > 0
    ensures 2 * b * RoundHalfUp(a, b) <= 2 * a + b < 2 * b * (RoundHalfUp(a, b) + 1)
  {
  }

  /** `Math.round(100 * Math.min(1, part / whole))`: a percentage capped at 100. */
  function Percent(part: nat, whole: nat): nat
    requires whole > 0
  {
    if part >= whole then 100 else RoundHalfUp(100 * part, whole)
  }

  lemma {:induction false} PercentBounds(part: nat, whole: nat)
    requires whole > 0
    ensures Percent(part, whole) <= 100
    ensures part >= whole ==> Percent(part, whole) == 100
    ensures part == 0 ==> Percent(part, whole) == 0
  {
    if part < whole {
      var q := Percent(part, whole);
      RoundHalfUpNearest(100 * part, whole);
      assert 200 * part + whole < 2 * whole * 101 by {
        assert part <= whole - 1;
        MulMono(200, part, whole - 1);
      }
      if q >= 101 {
        MulMono(2 * whole, 101, q);
        assert false;
      }
    }
  }

  lemma MulMono(a: nat, b: nat, c: nat)
    requires b <= c
    ensures a * b <= a * c
  {
  }

  // ---------------------------------------------------------------- full coverage

  /** The three coverage percentages shown by the progress bars (`coveragePercentages`). */
  datatype CoverageKind = Environmental | Wearable | Video

  /** What one evaluation reports: whether the achievement holds, and a percentage it sets, if any. */
  datatype Outcome = Outcome(ok: bool, coverage: Option<(CoverageKind, nat)>)

  function EnvironmentalReachable(): Node -> bool {
    (n: Node) => n.def.modality == "environmental" && n.isReachable
  }

  /** The environmental percentage: 0 with no rooms, else the capped share of rooms with a sensor. */
  function EnvironmentalPercent(present: nat, rooms: nat): nat {
    if rooms > 0 then Percent(present, rooms) else 0
  }

  /**
   * `fullEnvironmentalCoverage`: holds when reachable environmental sensors are in at least as
   * many distinct rooms as the layout has; it sets the environmental percentage.
   */
  method FullEnvironmentalCoverage(ns: seq<Node>, roomNames: seq<string>) returns (o: Outcome)
    ensures o.ok <==> |PresentRooms(ns, EnvironmentalReachable())| >= |roomNames|
    ensures o.coverage == Some((Environmental, EnvironmentalPercent(|PresentRooms(ns, EnvironmentalReachable())|, |roomNames|)))
  {
    var presentRooms := CollectRooms(ns, EnvironmentalReachable());
    var pct: nat;
    if |roomNames| > 0 {
      pct := Percent(|presentRooms|, |roomNames|);
    } else {
      pct := 0;
    }
    o := Outcome(|presentRooms| >= |roomNames|, Some((Environmental, pct)));
  }

  /**
   * With no rooms in the layout the full-environmental achievement holds whatever the devices
   * and links, and its percentage is set to 0.
   */
  lemma EnvironmentalWithoutRooms(ns: seq<Node>, ls: seq<Link>)
    ensures OutcomeOf(FullEnvironmental, ns, ls, []) == Outcome(true, Some((Environmental, 0)))
  {
  }

  /**
   * Every room of the layout holding a reachable environmental sensor gives the achievement and
   * 100%: when the layout lists each room once.
   */
  lemma EnvironmentalFullHouse(ns: seq<Node>, roomNames: seq<string>)
    requires NoDup(roomNames) && |roomNames| > 0
    requires forall r :: r in roomNames ==> exists k :: 0 <= k < |ns| && EnvironmentalReachable()(ns[k]) && r in ns[k].rooms
    ensures |PresentRooms(ns, EnvironmentalReachable())| >= |roomNames|
    ensures EnvironmentalPercent(|PresentRooms(ns, EnvironmentalReachable())|, |roomNames|) == 100
  {
    var present := PresentRooms(ns, EnvironmentalReachable());
    forall r | r in roomNames ensures r in present {
      PresentRoomsMembers(ns, EnvironmentalReachable(), r);
    }
    NoDupSubsetLength(roomNames, present);
    PercentBounds(|present|, |roomNames|);
  }

  /** A duplicate-free list inside another list is no longer than it. */
  lemma {:induction false} NoDupSubsetLength(a: seq<string>, b: seq<string>)
    requires NoDup(a) && forall x :: x in a ==> x in b
    ensures |a| <= |b|
  {
    var sa := set x | x in a;
    var sb := set x | x in b;
    assert sa <= sb;
    NoDupCard(a);
    SeqSetCard(b);
    SubsetCardinality(sa, sb);
  }

  lemma {:induction false} NoDupCard(a: seq<string>)
    requires NoDup(a)
    ensures |set x | x in a| == |a|
  {
    if a != [] {
      var pre := a[..|a| - 1];
      assert NoDup(pre) by {
        forall i, j | 0 <= i < j < |pre| ensures pre[i] != pre[j] {
          assert pre[i] == a[i] && pre[j] == a[j];
        }
      }
      NoDupCard(pre);
      assert (set x | x in a) == (set x | x in pre) + {a[|a| - 1]} by {
        assert a == pre + [a[|a| - 1]];
      }
      assert a[|a| - 1] !in pre by {
        forall i | 0 <= i < |pre| ensures pre[i] != a[|a| - 1] {
          assert pre[i] == a[i];
        }
      }
    }
  }

  lemma {:induction false} SeqSetCard(b: seq<string>)
    ensures |set x | x in b| <= |b|
  {
    if b != [] {
      var pre := b[..|b| - 1];
      SeqSetCard(pre);
      assert (set x | x in b) == (set x | x in pre) + {b[|b| - 1]} by {
        assert b == pre + [b[|b| - 1]];
      }
    }
  }

  lemma {:induction false} SubsetCardinality(a: set<string>, b: set<string>)
    requires a <= b
    ensures |a| <= |b|
  {
    if a != {} {
      var x :| x in a;
      SubsetCardinality(a - {x}, b - {x});
    }
  }

  /** The result of `wearableCoverageStats`. */
  datatype WearableStats = WearableStats(rooms: seq<string>, presentRooms: seq<string>, hasWearable: bool, numGw: nat)

  function GatewayReachable(): Node -> bool {
    (n: Node) => n.def.modality == "gateway" && n.isReachable
  }

  /** Some node has the modality. */
  predicate HasModality(ns: seq<Node>, modality: string) {
    exists k :: 0 <= k < |ns| && ns[k].def.modality == modality
  }

  /** How many nodes have the modality. */
  function CountModality(ns: seq<Node>, modality: string): nat {
    if ns == [] then 0 else CountModality(ns[..|ns| - 1], modality) + (if ns[|ns| - 1].def.modality == modality then 1 else 0)
  }

  /** The statistics `wearableCoverageStats` reports for the nodes `ns` and the layout rooms. */
  ghost function StatsOf(ns: seq<Node>, roomNames: seq<string>): WearableStats {
    WearableStats(roomNames, PresentRooms(ns, GatewayReachable()), HasModality(ns, "wearable"), CountModality(ns, "gateway"))
  }

  /**
   * `wearableCoverageStats`: whether any wearable exists, how many gateways there are, and the
   * distinct rooms of the reachable gateways.
   */
  method WearableCoverageStats(ns: seq<Node>, roomNames: seq<string>) returns (result: WearableStats)
    ensures result == StatsOf(ns, roomNames)
  {
    result := WearableStats(roomNames, [], false, 0);
    var i := 0;
    assert ns[..0] == [];
    while i < |ns|
      invariant 0 <= i <= |ns| && result.rooms == roomNames
      invariant result.presentRooms == PresentRooms(ns[..i], GatewayReachable())
      invariant result.hasWearable == HasModality(ns[..i], "wearable")
      invariant result.numGw == CountModality(ns[..i], "gateway")
    {
      var n := ns[i];
      ghost var pre := ns[..i];
      assert ns[..i + 1][..i] == pre;
      assert HasModality(ns[..i + 1], "wearable") == (HasModality(pre, "wearable") || n.def.modality == "wearable") by {
        assert ns[..i + 1][i] == n;
        assert forall k :: 0 <= k < i ==> ns[..i + 1][k] == pre[k];
      }
      if n.def.modality == "wearable" {
        result := result.(hasWearable := true);
      } else if n.def.modality == "gateway" {
        result := result.(numGw := result.numGw + 1);
        if n.isReachable {
          assert RoomsOfNodes(ns[..i + 1], GatewayReachable()) == RoomsOfNodes(pre, GatewayReachable()) + n.rooms;
          var present := AddRooms(RoomsOfNodes(pre, GatewayReachable()), result.presentRooms, n.rooms);
          result := result.(presentRooms := present);
        } else {
          assert RoomsOfNodes(ns[..i + 1], GatewayReachable()) == RoomsOfNodes(pre, GatewayReachable());
        }
      } else {
        assert RoomsOfNodes(ns[..i + 1], GatewayReachable()) == RoomsOfNodes(pre, GatewayReachable());
      }
      if n.def.modality == "wearable" {
        assert RoomsOfNodes(ns[..i + 1], GatewayReachable()) == RoomsOfNodes(pre, GatewayReachable());
      }
      i := i + 1;
    }
    assert ns[..i] == ns;
  }

  /** The wearable percentage: 0 with no rooms or no wearable, else the capped share of two rooms per gateway room. */
  function WearablePercent(s: WearableStats): nat {
    if |s.rooms| > 0 then (if s.hasWearable then Percent(2 * |s.presentRooms|, |s.rooms|) else 0) else 0
  }

  /** The condition shared by full wearable coverage, indoor localisation and the minimalist achievement. */
  predicate WearableCovered(s: WearableStats) {
    s.hasWearable && 2 * |s.presentRooms| >= |s.rooms|
  }

  /**
   * `fullWearableCoverage`: holds when a wearable exists and reachable gateways cover at least
   * one room in two; it sets the wearable percentage.
   */
  method FullWearableCoverage(ns: seq<Node>, roomNames: seq<string>) returns (o: Outcome)
    ensures o.ok <==> HasModality(ns, "wearable") && 2 * |PresentRooms(ns, GatewayReachable())| >= |roomNames|
    ensures o.coverage == Some((Wearable, WearablePercent(StatsOf(ns, roomNames))))
  {
    var stats := WearableCoverageStats(ns, roomNames);
    var pct: nat;
    if |stats.rooms| > 0 {
      pct := if stats.hasWearable then Percent(2 * |stats.presentRooms|, |stats.rooms|) else 0;
    } else {
      pct := 0;
    }
    o := Outcome(stats.hasWearable && 2 * |stats.presentRooms| >= |stats.rooms|, Some((Wearable, pct)));
  }

  /** Without a wearable the wearable percentage is 0; with full coverage and rooms it is 100. */
  lemma WearablePercentCases(s: WearableStats)
    ensures !s.hasWearable ==> WearablePercent(s) == 0
    ensures WearablePercent(s) <= 100
    ensures WearableCovered(s) && |s.rooms| > 0 ==> WearablePercent(s) == 100
  {
    if |s.rooms| > 0 {
      PercentBounds(2 * |s.presentRooms|, |s.rooms|);
    }
  }

  /** The rooms whose cameras `fullVideoCoverage` checks. */
  const VideoRooms: seq<string> := ["hall-and-stairs", "kitchen", "living room"]

  function VideoReachable(): Node -> bool {
    (n: Node) => n.def.modality == "video" && n.isReachable
  }

  /** How many of the video rooms hold a reachable camera. */
  function CamerasIn(rooms: seq<string>): nat {
    (if "hall-and-stairs" in rooms then 1 else 0) + (if "kitchen" in rooms then 1 else 0) +
    (if "living room" in rooms then 1 else 0)
  }

  /**
   * `fullVideoCoverage`: `hasCamera[r]` is set for every room of every reachable camera; the
   * percentage is `round(100 * c / 3)` for the number `c` of video rooms with a camera, and the
   * achievement holds when all three have one.
   */
  method FullVideoCoverage(ns: seq<Node>) returns (o: Outcome)
    ensures o.ok <==> forall r :: r in VideoRooms ==> r in RoomsOfNodes(ns, VideoReachable())
    ensures o.coverage == Some((Video, RoundHalfUp(100 * CamerasIn(RoomsOfNodes(ns, VideoReachable())), 3)))
  {
    var hasCamera := map["hall-and-stairs" := false, "kitchen" := false, "living room" := false];
    var i := 0;
    assert ns[..0] == [];
    while i < |ns|
      invariant 0 <= i <= |ns|
      invariant forall r :: r in VideoRooms ==> r in hasCamera && (hasCamera[r] <==> r in RoomsOfNodes(ns[..i], VideoReachable()))
    {
      assert ns[..i + 1][..i] == ns[..i];
      var n := ns[i];
      if n.def.modality == "video" && n.isReachable {
        assert RoomsOfNodes(ns[..i + 1], VideoReachable()) == RoomsOfNodes(ns[..i], VideoReachable()) + n.rooms;
        hasCamera := MarkCameraRooms(hasCamera, RoomsOfNodes(ns[..i], VideoReachable()), n.rooms);
      } else {
        assert RoomsOfNodes(ns[..i + 1], VideoReachable()) == RoomsOfNodes(ns[..i], VideoReachable());
      }
      i := i + 1;
    }
    assert ns[..i] == ns;
    var c := CountCameras(hasCamera, RoomsOfNodes(ns, VideoReachable()));
    AllCameras(RoomsOfNodes(ns, VideoReachable()));
    o := Outcome(c >= 3, Some((Video, RoundHalfUp(100 * c, 3))));
  }

  /** The three `if (hasCamera[...]) c++` of `fullVideoCoverage`. */
  method CountCameras(hasCamera: map<string, bool>, ghost rooms: seq<string>) returns (c: nat)
    requires forall r :: r in VideoRooms ==> (r in hasCamera && (hasCamera[r] <==> r in rooms))
    ensures c == CamerasIn(rooms)
  {
    assert VideoRooms[0] == "hall-and-stairs" && VideoRooms[1] == "kitchen" && VideoRooms[2] == "living room";
    c := 0;
    if hasCamera["hall-and-stairs"] {
      c := c + 1;
    }
    if hasCamera["kitchen"] {
      c := c + 1;
    }
    if hasCamera["living room"] {
      c := c + 1;
    }
  }

  /** All three video rooms have a camera exactly when the count reaches 3. */
  lemma AllCameras(rooms: seq<string>)
    ensures CamerasIn(rooms) >= 3 <==> forall r :: r in VideoRooms ==> r in rooms
  {
    assert VideoRooms[0] == "hall-and-stairs" && VideoRooms[1] == "kitchen" && VideoRooms[2] == "living room";
  }

  /** `n.rooms.forEach(r => hasCamera[r] = true)`, seen through the three video rooms. */
  method MarkCameraRooms(hasCamera: map<string, bool>, ghost before: seq<string>, rooms: seq<string>)
    returns (hasCamera': map<string, bool>)
    requires forall r :: r in VideoRooms ==> (r in hasCamera && (hasCamera[r] <==> r in before))
    ensures forall r :: r in VideoRooms ==> (r in hasCamera' && (hasCamera'[r] <==> r in before + rooms))
  {
    hasCamera' := hasCamera;
    var j := 0;
    while j < |rooms|
      invariant 0 <= j <= |rooms|
      invariant forall r :: r in VideoRooms ==> (r in hasCamera' && (hasCamera'[r] <==> r in before || r in rooms[..j]))
    {
      assert rooms[..j + 1] == rooms[..j] + [rooms[j]];
      hasCamera' := hasCamera'[rooms[j] := true];
      j := j + 1;
    }
    assert rooms[..j] == rooms;
  }

  /** The video percentage takes only the values 0, 33, 67 and 100, and is 100 exactly when all three rooms have a camera. */
  lemma VideoPercentValues(rooms: seq<string>)
    ensures RoundHalfUp(100 * CamerasIn(rooms), 3) in {0, 33, 67, 100}
    ensures RoundHalfUp(100 * CamerasIn(rooms), 3) == 100 <==> forall r :: r in VideoRooms ==> r in rooms
  {
    assert VideoRooms[0] == "hall-and-stairs" && VideoRooms[1] == "kitchen" && VideoRooms[2] == "living room";
  }

  // ---------------------------------------------------------------- network shape

  /** Some stored node with id `id` has the gateway modality. */
  predicate GatewayId(ns: seq<Node>, id: string) {
    exists k :: 0 <= k < |ns| && ns[k].id == id && ns[k].def.modality == "gateway"
  }

  /** The source of `l`, looked up by id, is a gateway: `l.source._def.modality === "gateway"`. */
  predicate SourceIsGateway(ns: seq<Node>, l: Link) {
    FindById(ns, l.source).Some? && FindById(ns, l.source).value.def.modality == "gateway"
  }

  /** Under unique ids, looking the source up is the same as asking whether it is a gateway id. */
  lemma SourceIsGatewayId(ns: seq<Node>, l: Link)
    requires UniqueIds(ns)
    ensures SourceIsGateway(ns, l) <==> GatewayId(ns, l.source)
  {
    var r := FindById(ns, l.source);
    if GatewayId(ns, l.source) {
      var k :| 0 <= k < |ns| && ns[k].id == l.source && ns[k].def.modality == "gateway";
      SameIdSameNode(ns, ns[k], r.value);
    }
  }

  /** Some link into node `id` comes from a gateway. */
  predicate FedByGateway(ns: seq<Node>, ls: seq<Link>, id: string) {
    exists l :: l in ls && l.target == id && SourceIsGateway(ns, l)
  }
  /** Some gateway among the first `i` nodes is fed by a gateway. */
  predicate MeshAmong(ns: seq<Node>, ls: seq<Link>, i: int)
    requires 0 <= i <= |ns|
  {
    exists k :: 0 <= k < i && ns[k].def.modality == "gateway" && FedByGateway(ns, ls, ns[k].id)
  }

  /** What `isMeshNetwork` decides: some gateway receives a link from another gateway. */
  predicate IsMesh(ns: seq<Node>, ls: seq<Link>) {
    MeshAmong(ns, ls, |ns|)
  }

  function TargetIs(id: string): Link -> bool {
    (l: Link) => l.target == id
  }

  /** `isMeshNetwork`: for every gateway, the links whose target it is are checked for a gateway source. */
  method IsMeshNetwork(ns: seq<Node>, ls: seq<Link>) returns (ok: bool)
    ensures ok <==> IsMesh(ns, ls)
  {
    ok := false;
    var i := 0;
    while i < |ns|
      invariant 0 <= i <= |ns| && (ok <==> MeshAmong(ns, ls, i))
    {
      var n := ns[i];
      if n.def.modality == "gateway" {
        var fed := GatewayFeeds(ns, ls, n.id);
        if fed {
          ok := true;
        }
      }
      assert MeshAmong(ns, ls, i + 1) <==> MeshAmong(ns, ls, i) || (n.def.modality == "gateway" && FedByGateway(ns, ls, n.id));
      i := i + 1;
    }
  }

  /** The inner `forEach` of `isMeshNetwork` over `links.filter(l => l.target === n)`. */
  method GatewayFeeds(ns: seq<Node>, ls: seq<Link>, id: string) returns (fed: bool)
    ensures fed <==> FedByGateway(ns, ls, id)
  {
    var connectedLinks := Filter(TargetIs(id), ls);
    fed := false;
    var j := 0;
    while j < |connectedLinks|
      invariant 0 <= j <= |connectedLinks|
      invariant fed <==> exists q :: 0 <= q < j && SourceIsGateway(ns, connectedLinks[q])
    {
      var src := FindById(ns, connectedLinks[j].source);
      if src.Some? && src.value.def.modality == "gateway" {
        fed := true;
      }
      j := j + 1;
    }
    FedIffFiltered(ns, ls, id, connectedLinks);
  }

  /** Some link into `id` has a gateway source exactly when one of the filtered links does. */
  lemma FedIffFiltered(ns: seq<Node>, ls: seq<Link>, id: string, cl: seq<Link>)
    requires cl == Filter(TargetIs(id), ls)
    ensures FedByGateway(ns, ls, id) <==> exists q :: 0 <= q < |cl| && SourceIsGateway(ns, cl[q])
  {
    FilterMembers(TargetIs(id), ls);
    if exists q :: 0 <= q < |cl| && SourceIsGateway(ns, cl[q]) {
      var q :| 0 <= q < |cl| && SourceIsGateway(ns, cl[q]);
      assert cl[q] in cl;
    }
    if FedByGateway(ns, ls, id) {
      var l :| l in ls && l.target == id && SourceIsGateway(ns, l);
      assert l in cl;
      var q :| 0 <= q < |cl| && cl[q] == l;
    }
  }

  /** With unique ids, a mesh is a link whose source and target are both gateways. */
  lemma MeshIffGatewayLink(ns: seq<Node>, ls: seq<Link>)
    requires UniqueIds(ns)
    ensures IsMesh(ns, ls) <==> exists l :: l in ls && GatewayId(ns, l.target) && GatewayId(ns, l.source)
  {
    if IsMesh(ns, ls) {
      MeshHasGatewayLink(ns, ls);
    }
    if exists l :: l in ls && GatewayId(ns, l.target) && GatewayId(ns, l.source) {
      var l :| l in ls && GatewayId(ns, l.target) && GatewayId(ns, l.source);
      GatewayLinkIsMesh(ns, ls, l);
    }
  }

  lemma MeshHasGatewayLink(ns: seq<Node>, ls: seq<Link>)
    requires UniqueIds(ns) && IsMesh(ns, ls)
    ensures exists l :: l in ls && GatewayId(ns, l.target) && GatewayId(ns, l.source)
  {
    var k :| 0 <= k < |ns| && ns[k].def.modality == "gateway" && FedByGateway(ns, ls, ns[k].id);
    var l :| l in ls && l.target == ns[k].id && SourceIsGateway(ns, l);
    SourceIsGatewayId(ns, l);
    assert GatewayId(ns, l.target);
  }

  lemma GatewayLinkIsMesh(ns: seq<Node>, ls: seq<Link>, l: Link)
    requires UniqueIds(ns) && l in ls && GatewayId(ns, l.target) && GatewayId(ns, l.source)
    ensures IsMesh(ns, ls)
  {
    SourceIsGatewayId(ns, l);
    var k :| 0 <= k < |ns| && ns[k].id == l.target && ns[k].def.modality == "gateway";
    assert FedByGateway(ns, ls, ns[k].id);
  }

  /** How many links carry protocol `p`. */
  function CountProtocol(ls: seq<Link>, p: string): nat {
    if ls == [] then 0 else CountProtocol(ls[..|ls| - 1], p) + (if ls[|ls| - 1].protocol == Some(p) then 1 else 0)
  }

  /** What `wholeEmbeddedNetwork(protocol)` decides. */
  predicate WholeNetwork(ns: seq<Node>, ls: seq<Link>, protocol: string) {
    IsMesh(ns, ls) &&
    LastWhere(ns, QualifiesFor("environmental", true)).Some? &&
    LastWhere(ns, QualifiesFor("wearable", false)).Some? &&
    ((protocol == "TSCH" && CountProtocol(ls, "BLE") == 0) || (protocol == "BLE" && CountProtocol(ls, "TSCH") == 0))
  }

  /**
   * `wholeEmbeddedNetwork(protocol)`: a mesh, a reachable environmental sensor, any wearable, and
   * the links counted per protocol in `numLinks = {TSCH: 0, BLE: 0}` are all of `protocol`. Links
   * of other protocols are not counted; for a protocol other than TSCH and BLE the count is not a
   * number and the comparison fails.
   */
  method WholeEmbeddedNetwork(ns: seq<Node>, ls: seq<Link>, protocol: string) returns (ok: bool)
    ensures ok <==> WholeNetwork(ns, ls, protocol)
  {
    var mesh := IsMeshNetwork(ns, ls);
    if !mesh {
      return false;
    }
    var env := AnyCoverage(ns, "environmental", true);
    if env.None? {
      return false;
    }
    var wearable := AnyCoverage(ns, "wearable", false);
    if wearable.None? {
      return false;
    }
    var tsch, ble := 0, 0;
    var i := 0;
    assert ls[..0] == [];
    while i < |ls|
      invariant 0 <= i <= |ls| && tsch == CountProtocol(ls[..i], "TSCH") && ble == CountProtocol(ls[..i], "BLE")
    {
      assert ls[..i + 1][..i] == ls[..i];
      if ls[i].protocol == Some("TSCH") {
        tsch := tsch + 1;
      } else if ls[i].protocol == Some("BLE") {
        ble := ble + 1;
      }
      i := i + 1;
    }
    assert ls[..i] == ls;
    if protocol == "TSCH" {
      ok := tsch == tsch + ble;
    } else if protocol == "BLE" {
      ok := ble == tsch + ble;
    } else {
      ok := false;
    }
  }

  /** Without any TSCH or BLE link, both whole-network achievements hold together (given the rest). */
  lemma WholeNetworkWithoutEmbeddedLinks(ns: seq<Node>, ls: seq<Link>)
    requires IsMesh(ns, ls) && LastWhere(ns, QualifiesFor("environmental", true)).Some?
    requires LastWhere(ns, QualifiesFor("wearable", false)).Some?
    requires forall l :: l in ls ==> l.protocol != Some("TSCH") && l.protocol != Some("BLE")
    ensures WholeNetwork(ns, ls, "TSCH") && WholeNetwork(ns, ls, "BLE")
  {
    NoProtocolCount(ls, "TSCH");
    NoProtocolCount(ls, "BLE");
  }

  lemma {:induction false} NoProtocolCount(ls: seq<Link>, p: string)
    requires forall l :: l in ls ==> l.protocol != Some(p)
    ensures CountProtocol(ls, p) == 0
  {
    if ls != [] {
      assert forall l :: l in ls[..|ls| - 1] ==> l in ls;
      NoProtocolCount(ls[..|ls| - 1], p);
      assert ls[|ls| - 1] in ls;
    }
  }

  /** The count is zero exactly when no link carries the protocol. */
  lemma {:induction false} CountProtocolZero(ls: seq<Link>, p: string)
    ensures CountProtocol(ls, p) == 0 <==> forall l :: l in ls ==> l.protocol != Some(p)
  {
    if ls != [] {
      var pre := ls[..|ls| - 1];
      CountProtocolZero(pre, p);
      assert ls == pre + [ls[|ls| - 1]];
      assert forall l :: l in ls <==> l in pre || l == ls[|ls| - 1];
    }
  }

  // ---------------------------------------------------------------- the remaining predicates

  /** `systemMonitoring`: a reachable 3G router. */
  method SystemMonitoring(ns: seq<Node>) returns (ok: bool)
    ensures ok <==> exists k :: 0 <= k < |ns| && ns[k].isReachable && ns[k].def.modality == "3G"
  {
    var any := AnyCoverage(ns, "3G", true);
    LastWhereSpec(ns, QualifiesFor("3G", true));
    ok := any.Some?;
  }

  /** `sleepMonitoring`: a wearable, and a reachable gateway in one of the two bedrooms (when the layout has rooms). */
  method SleepMonitoring(ns: seq<Node>, roomNames: seq<string>) returns (ok: bool)
    ensures ok <==> (HasModality(ns, "wearable") && |roomNames| > 0 &&
      ("guest bedroom" in PresentRooms(ns, GatewayReachable()) || "master bedroom" in PresentRooms(ns, GatewayReachable())))
  {
    var stats := WearableCoverageStats(ns, roomNames);
    var inBedroom := false;
    if |stats.rooms| > 0 {
      if IndexOf(stats.presentRooms, "guest bedroom") != -1 || IndexOf(stats.presentRooms, "master bedroom") != -1 {
        inBedroom := true;
      }
    }
    ok := stats.hasWearable && inBedroom;
  }

  /** `indoorLocalization`: a wearable, and reachable gateways in at least as many rooms as the layout has. */
  method IndoorLocalization(ns: seq<Node>, roomNames: seq<string>) returns (ok: bool)
    ensures ok <==> HasModality(ns, "wearable") && |PresentRooms(ns, GatewayReachable())| >= |roomNames|
  {
    var stats := WearableCoverageStats(ns, roomNames);
    ok := stats.hasWearable && |stats.presentRooms| >= |stats.rooms|;
  }

  /** `isMinimalist`: full wearable coverage with at most two gateways in the whole plan. */
  method IsMinimalist(ns: seq<Node>, roomNames: seq<string>) returns (ok: bool)
    ensures ok <==> CountModality(ns, "gateway") <= 2 && WearableCovered(StatsOf(ns, roomNames))
  {
    var stats := WearableCoverageStats(ns, roomNames);
    ok := stats.numGw <= 2 && stats.hasWearable && 2 * |stats.presentRooms| >= |stats.rooms|;
  }

  /** `isWaterSensor(room)`: a reachable water sensor placed in `room`. */
  method IsWaterSensor(ns: seq<Node>, room: string) returns (ok: bool)
    ensures ok <==> exists k :: 0 <= k < |ns| && ns[k].isReachable && ns[k].def.modality == "water" && room in ns[k].rooms
  {
    var found := CoverageInRoom(ns, "water", room, true);
    LastWhereSpec(ns, QualifiesIn("water", room, true));
    ok := found.Some?;
  }

  /** Indoor localisation and the minimalist achievement each imply full wearable coverage. */
  lemma StricterWearableAchievements(ns: seq<Node>, roomNames: seq<string>)
    ensures HasModality(ns, "wearable") && |PresentRooms(ns, GatewayReachable())| >= |roomNames| ==>
      WearableCovered(StatsOf(ns, roomNames))
    ensures CountModality(ns, "gateway") <= 2 && WearableCovered(StatsOf(ns, roomNames)) ==>
      HasModality(ns, "wearable") && 2 * |PresentRooms(ns, GatewayReachable())| >= |roomNames|
  {
  }

  /** Sleep monitoring needs a wearable and a reachable gateway somewhere in a bedroom. */
  lemma SleepNeedsBedroomGateway(ns: seq<Node>, roomNames: seq<string>)
    requires HasModality(ns, "wearable") && |roomNames| > 0
    requires "guest bedroom" in PresentRooms(ns, GatewayReachable()) || "master bedroom" in PresentRooms(ns, GatewayReachable())
    ensures exists k :: (0 <= k < |ns| && ns[k].def.modality == "gateway" && ns[k].isReachable &&
      ("guest bedroom" in ns[k].rooms || "master bedroom" in ns[k].rooms))
  {
    PresentRoomsMembers(ns, GatewayReachable(), "guest bedroom");
    PresentRoomsMembers(ns, GatewayReachable(), "master bedroom");
  }

  // ---------------------------------------------------------------- the list of achievements

  /** Which predicate an achievement evaluates. */
  datatype Rule =
    | EnvironmentalSensing
    | WearableSensing
    | VideoSensing
    | MeshNetwork
    | FullEnvironmental
    | FullWearable
    | FullVideo
    | SystemMonitor
    | SleepMonitor
    | WholeNetworkOf(protocol: string)
    | Minimalist
    | IndoorLocalisation
    | WaterSensorIn(room: string)

  datatype Achievement = Achievement(name: string, rule: Rule, isHidden: bool)

  /** The achievements in the order they are evaluated; from "TSCH network" on they are hidden. */
  const AchievementList: seq<Achievement> := [
    Achievement("Environmental sensing", EnvironmentalSensing, false),
    Achievement("Wearable sensing", WearableSensing, false),
    Achievement("Video sensing", VideoSensing, false),
    Achievement("Mesh network", MeshNetwork, false),
    Achievement("Full environmental sensing", FullEnvironmental, false),
    Achievement("Full wearable sensing", FullWearable, false),
    Achievement("Full video sensing", FullVideo, false),
    Achievement("System monitoring", SystemMonitor, false),
    Achievement("Sleep monitoring", SleepMonitor, false),
    Achievement("TSCH network", WholeNetworkOf("TSCH"), true),
    Achievement("BLE network", WholeNetworkOf("BLE"), true),
    Achievement("Minimalist", Minimalist, true),
    Achievement("Indoor localization", IndoorLocalisation, true),
    Achievement("Water monitoring: kitchen", WaterSensorIn("kitchen"), true),
    Achievement("Water monitoring: bathroom", WaterSensorIn("bathroom"), true),
    Achievement("Water monitoring: toilet", WaterSensorIn("toilet"), true)
  ]

  /** What evaluating an achievement's predicate yields. */
  ghost function OutcomeOf(rule: Rule, ns: seq<Node>, ls: seq<Link>, roomNames: seq<string>): Outcome {
    match rule
    case EnvironmentalSensing => Outcome(LastWhere(ns, QualifiesFor("environmental", true)).Some?, None)
    case WearableSensing =>
      Outcome(LastWhere(ns, QualifiesFor("wearable", false)).Some? && LastWhere(ns, QualifiesFor("gateway", true)).Some?, None)
    case VideoSensing => Outcome(LastWhere(ns, QualifiesFor("video", true)).Some?, None)
    case MeshNetwork => Outcome(IsMesh(ns, ls), None)
    case FullEnvironmental =>
      var p := |PresentRooms(ns, EnvironmentalReachable())|;
      Outcome(p >= |roomNames|, Some((Environmental, EnvironmentalPercent(p, |roomNames|))))
    case FullWearable =>
      var s := StatsOf(ns, roomNames);
      Outcome(WearableCovered(s), Some((Wearable, WearablePercent(s))))
    case FullVideo =>
      var rooms := RoomsOfNodes(ns, VideoReachable());
      Outcome(forall r :: r in VideoRooms ==> r in rooms, Some((Video, RoundHalfUp(100 * CamerasIn(rooms), 3))))
    case SystemMonitor => Outcome(exists k :: 0 <= k < |ns| && ns[k].isReachable && ns[k].def.modality == "3G", None)
    case SleepMonitor =>
      var present := PresentRooms(ns, GatewayReachable());
      Outcome(HasModality(ns, "wearable") && |roomNames| > 0 && ("guest bedroom" in present || "master bedroom" in present), None)
    case WholeNetworkOf(p) => Outcome(WholeNetwork(ns, ls, p), None)
    case Minimalist => Outcome(CountModality(ns, "gateway") <= 2 && WearableCovered(StatsOf(ns, roomNames)), None)
    case IndoorLocalisation => Outcome(HasModality(ns, "wearable") && |PresentRooms(ns, GatewayReachable())| >= |roomNames|, None)
    case WaterSensorIn(room) =>
      Outcome(exists k :: 0 <= k < |ns| && ns[k].isReachable && ns[k].def.modality == "water" && room in ns[k].rooms, None)
  }

  /** `a.predicate()`: runs the achievement's scan. */
  method Evaluate(rule: Rule, ns: seq<Node>, ls: seq<Link>, roomNames: seq<string>) returns (o: Outcome)
    ensures o == OutcomeOf(rule, ns, ls, roomNames)
  {
    match rule {
      case EnvironmentalSensing =>
        var any := AnyCoverage(ns, "environmental", true);
        o := Outcome(any.Some?, None);
      case WearableSensing =>
        var w := AnyCoverage(ns, "wearable", false);
        var ok := w.Some?;
        if ok {
          var g := AnyCoverage(ns, "gateway", true);
          ok := g.Some?;
        }
        o := Outcome(ok, None);
      case VideoSensing =>
        var any := AnyCoverage(ns, "video", true);
        o := Outcome(any.Some?, None);
      case MeshNetwork =>
        var ok := IsMeshNetwork(ns, ls);
        o := Outcome(ok, None);
      case FullEnvironmental =>
        o := FullEnvironmentalCoverage(ns, roomNames);
      case FullWearable =>
        o := FullWearableCoverage(ns, roomNames);
      case FullVideo =>
        o := FullVideoCoverage(ns);
      case SystemMonitor =>
        var ok := SystemMonitoring(ns);
        o := Outcome(ok, None);
      case SleepMonitor =>
        var ok := SleepMonitoring(ns, roomNames);
        o := Outcome(ok, None);
      case WholeNetworkOf(p) =>
        var ok := WholeEmbeddedNetwork(ns, ls, p);
        o := Outcome(ok, None);
      case Minimalist =>
        var ok := IsMinimalist(ns, roomNames);
        o := Outcome(ok, None);
      case IndoorLocalisation =>
        var ok := IndoorLocalization(ns, roomNames);
        o := Outcome(ok, None);
      case WaterSensorIn(room) =>
        var ok := IsWaterSensor(ns, room);
        o := Outcome(ok, None);
    }
  }

  /** Only the three full-coverage achievements set a percentage, each its own. */
  lemma CoverageOnlyFromFullCoverage(rule: Rule, ns: seq<Node>, ls: seq<Link>, roomNames: seq<string>)
    ensures OutcomeOf(rule, ns, ls, roomNames).coverage.Some? <==> rule in {FullEnvironmental, FullWearable, FullVideo}
    ensures OutcomeOf(rule, ns, ls, roomNames).coverage.Some? ==> OutcomeOf(rule, ns, ls, roomNames).coverage.value.1 <= 100
  {
    match rule {
      case FullEnvironmental =>
        var p := |PresentRooms(ns, EnvironmentalReachable())|;
        if |roomNames| > 0 {
          PercentBounds(p, |roomNames|);
        }
      case FullWearable =>
        WearablePercentCases(StatsOf(ns, roomNames));
      case FullVideo =>
        VideoPercentValues(RoomsOfNodes(ns, VideoReachable()));
      case _ =>
    }
  }

  /** The names in the list, in order. */
  function Names(list: seq<Achievement>): (r: seq<string>)
    ensures |r| == |list| && forall i :: 0 <= i < |list| ==> r[i] == list[i].name
  {
    seq(|list|, i requires 0 <= i < |list| => list[i].name)
  }

  /** Achievement names are distinct. */
  lemma AchievementNamesDistinct()
    ensures NoDup(Names(AchievementList))
  {
    var ns := Names(AchievementList);
    forall i, j | 0 <= i < j < |ns| ensures ns[i] != ns[j] {
      assert ns[i] == AchievementList[i].name && ns[j] == AchievementList[j].name;
    }
  }

  /** The first achievement of `list` with that name. */
  function FirstNamed(list: seq<Achievement>, name: string): (r: Option<Achievement>)
    ensures r.Some? ==> r.value in list && r.value.name == name
    ensures r.None? <==> forall i :: 0 <= i < |list| ==> list[i].name != name
  {
    if list == [] then None
    else if list[0].name == name then Some(list[0])
    else
      var r := FirstNamed(list[1..], name);
      assert forall i :: 1 <= i < |list| ==> list[i] == list[1..][i - 1];
      r
  }

  /** `findByName(name)`: the loop over the list that returns the first achievement with that name, or null. */
  method FindByName(list: seq<Achievement>, name: string) returns (r: Option<Achievement>)
    ensures r == FirstNamed(list, name)
  {
    var i := 0;
    while i < |list|
      invariant 0 <= i <= |list| && FirstNamed(list, name) == FirstNamed(list[i..], name)
    {
      assert list[i..][1..] == list[i + 1..];
      if list[i].name == name {
        return Some(list[i]);
      }
      i := i + 1;
    }
    return None;
  }

  /** What `getAll` lists for the done achievements: their names, in list order. */
  function DoneNames(list: seq<Achievement>, done: seq<string>): seq<string> {
    if list == [] then []
    else DoneNames(list[..|list| - 1], done) + (if list[|list| - 1].name in done then [list[|list| - 1].name] else [])
  }

  /** What `getAll` lists for the others: their names, or "Hidden achievement" for hidden ones. */
  function PendingNames(list: seq<Achievement>, done: seq<string>): seq<string> {
    if list == [] then []
    else
      var a := list[|list| - 1];
      PendingNames(list[..|list| - 1], done) + (if a.name in done then [] else [if a.isHidden then "Hidden achievement" else a.name])
  }

  /** `getAll` splits the whole list: every achievement is in exactly one part, and done names are done. */
  lemma {:induction false} GetAllSplits(list: seq<Achievement>, done: seq<string>)
    ensures |DoneNames(list, done)| + |PendingNames(list, done)| == |list|
    ensures forall x :: x in DoneNames(list, done) ==> x in done
    ensures forall x :: x in PendingNames(list, done) && x != "Hidden achievement" ==>
      exists i :: 0 <= i < |list| && list[i].name == x && !list[i].isHidden && x !in done
  {
    if list != [] {
      var pre := list[..|list| - 1];
      var a := list[|list| - 1];
      GetAllSplits(pre, done);
      forall x | x in PendingNames(list, done) && x != "Hidden achievement"
        ensures exists i :: 0 <= i < |list| && list[i].name == x && !list[i].isHidden && x !in done
      {
        if x in PendingNames(pre, done) {
          var i :| 0 <= i < |pre| && pre[i].name == x && !pre[i].isHidden && x !in done;
          assert list[i] == pre[i];
        } else {
          assert list[|list| - 1] == a;
        }
      }
    }
  }

  /** The achievements already done, in the order they were first done (`doneAchievements`). */
  class DoneList {
    var done: seq<string>

    /** Starts from the stored list; `None` when nothing is stored or it does not parse. */
    constructor(stored: Option<seq<string>>)
      ensures done == stored.GetOr([])
    {
      done := stored.GetOr([]);
    }

    /** `isDone(name)`. */
    method IsDone(name: string) returns (b: bool)
      ensures b <==> name in done
    {
      b := IndexOf(done, name) != -1;
    }

    /** `setDone(name)`: appends the name unless it is already there. */
    method SetDone(name: string)
      modifies this
      ensures name in old(done) ==> done == old(done)
      ensures name !in old(done) ==> done == old(done) + [name]
    {
      if IndexOf(done, name) == -1 {
        done := done + [name];
      }
    }

    /** `getDone()`. */
    method GetDone() returns (d: seq<string>)
      ensures d == done
    {
      d := done;
    }

    /** `getAll()`: the done names and the others, each part in list order. */
    method GetAll(list: seq<Achievement>) returns (doneNames: seq<string>, pending: seq<string>)
      ensures doneNames == DoneNames(list, done) && pending == PendingNames(list, done)
    {
      doneNames, pending := [], [];
      var i := 0;
      assert list[..0] == [];
      while i < |list|
        invariant 0 <= i <= |list|
        invariant doneNames == DoneNames(list[..i], done) && pending == PendingNames(list[..i], done)
      {
        assert list[..i + 1][..i] == list[..i];
        var isDone := IsDone(list[i].name);
        if isDone {
          doneNames := doneNames + [list[i].name];
        } else {
          pending := pending + [if list[i].isHidden then "Hidden achievement" else list[i].name];
        }
        i := i + 1;
      }
      assert list[..i] == list;
    }

    /** `reset()`: forgets every done achievement. */
    method Reset()
      modifies this
      ensures done == []
    {
      done := [];
    }
  }

  /** Marking a name done never shrinks the list and never adds a duplicate. */
  lemma SetDoneMonotone(d: seq<string>, d': seq<string>, name: string)
    requires name in d ==> d' == d
    requires name !in d ==> d' == d + [name]
    ensures |d| <= |d'| && d'[..|d|] == d && name in d'
    ensures NoDup(d) ==> NoDup(d')
  {
    assert d'[..|d|] == d;
  }
}
