/**
 * The reconciliation done by `importNodes` in src/nodes.js: unknown types are tagged and
 * configuration-only unknown items dropped, nodes are added while the credit budget allows,
 * and the wires of the added nodes become links between added nodes.
 * The registered type descriptors (`getType`) are the map `catalog`.
 */
module Import {
  import opened Wrappers
  import opened Seqs
  import opened Nodes
  import opened Store
  import Options
  import Editor

  /** One wire of an imported node's port: the target's id and port, and the optional protocol. */
  datatype WireIn = WireIn(task: string, targetPort: nat, protocol: Option<string>)

  /**
   * One item of an imported flow. A missing coordinate is None; `outputs` 0 stands for an
   * absent or zero count (both falsy); `fields` holds the item's other properties.
   */
  datatype ImportItem = ImportItem(
    id: string,
    typ: string,
    x: Option<real>,
    y: Option<real>,
    z: string,
    outputs: int,
    wires: seq<seq<WireIn>>,
    fields: map<string, Value>)

  /** The item types that are not devices: workspaces, options and network links. */
  predicate Special(typ: string) {
    typ == "tab" || typ == "options" || typ == "link"
  }

  predicate IsNodeItem(it: ImportItem) {
    !Special(it.typ)
  }

  /** A device item whose type is not registered. */
  predicate IsUnknown(it: ImportItem, catalog: map<string, NodeDef>) {
    !Special(it.typ) && it.typ !in catalog
  }

  /** An unknown item without either coordinate: a configuration node, which the import drops. */
  predicate Dropped(it: ImportItem, catalog: map<string, NodeDef>) {
    IsUnknown(it, catalog) && it.x.None? && it.y.None?
  }

  /** An unknown item keeps its type under `name` and becomes of type "unknown". */
  function Tag(it: ImportItem, catalog: map<string, NodeDef>): (r: ImportItem)
    ensures r.id == it.id && r.wires == it.wires && r.x == it.x && r.y == it.y
    ensures IsNodeItem(r) == IsNodeItem(it)
    ensures IsUnknown(it, catalog) ==> r.typ == "unknown" && r.fields == it.fields["name" := Str(it.typ)]
    ensures !IsUnknown(it, catalog) ==> r == it
  {
    if IsUnknown(it, catalog) then it.(fields := it.fields["name" := Str(it.typ)], typ := "unknown") else it
  }

  /** The items after the tagging pass, in input order. */
  function TagAll(items: seq<ImportItem>, catalog: map<string, NodeDef>): seq<ImportItem> {
    if items == [] then []
    else
      var it := items[|items| - 1];
      TagAll(items[..|items| - 1], catalog) + (if Dropped(it, catalog) then [] else [Tag(it, catalog)])
  }

  /** The unknown type names, each once, in order of first appearance. */
  function UnknownNames(items: seq<ImportItem>, catalog: map<string, NodeDef>): seq<string> {
    if items == [] then []
    else
      var it := items[|items| - 1];
      var prev := UnknownNames(items[..|items| - 1], catalog);
      if IsUnknown(it, catalog) then AddIfAbsent(prev, it.typ) else prev
  }

  /** Device items have distinct ids, none of which is already stored (ids come from a collision-free generator). */
  ghost predicate FreshIds(its: seq<ImportItem>, stored: set<string>) {
    DistinctItemIds(its) && FreshFrom(its, 0, stored)
  }

  ghost predicate DistinctItemIds(its: seq<ImportItem>) {
    forall i, j :: 0 <= i < j < |its| && IsNodeItem(its[i]) && IsNodeItem(its[j]) ==> its[i].id != its[j].id
  }

  /** The device items from position `k` on avoid the ids `stored`. */
  ghost predicate FreshFrom(its: seq<ImportItem>, k: nat, stored: set<string>) {
    forall i :: k <= i < |its| && IsNodeItem(its[i]) ==> its[i].id !in stored
  }

  /** The ids of the device items. */
  function ItemIds(its: seq<ImportItem>): set<string> {
    set i | 0 <= i < |its| && IsNodeItem(its[i]) :: its[i].id
  }

  // ---------------------------------------------------------------- properties of the tagging pass

  /** The names reported are exactly the unregistered device types of the input, without repeats. */
  lemma {:induction false} UnknownNamesFacts(items: seq<ImportItem>, catalog: map<string, NodeDef>)
    ensures NoDup(UnknownNames(items, catalog))
    ensures forall t :: t in UnknownNames(items, catalog) <==>
      exists i :: 0 <= i < |items| && IsUnknown(items[i], catalog) && items[i].typ == t
  {
    if items != [] {
      var prefix := items[..|items| - 1];
      UnknownNamesFacts(prefix, catalog);
      assert forall i :: 0 <= i < |prefix| ==> prefix[i] == items[i];
      var it := items[|items| - 1];
      forall t | (exists i :: 0 <= i < |items| && IsUnknown(items[i], catalog) && items[i].typ == t)
        ensures t in UnknownNames(items, catalog)
      {
        var i :| 0 <= i < |items| && IsUnknown(items[i], catalog) && items[i].typ == t;
        if i < |prefix| {
          assert IsUnknown(prefix[i], catalog) && prefix[i].typ == t;
        }
      }
    }
  }

  /**
   * The tagging pass drops exactly the configuration-only unknown items; every kept item is
   * its input item, tagged, and no kept device item has an unregistered type other than "unknown".
   */
  lemma {:induction false} TagAllFacts(items: seq<ImportItem>, catalog: map<string, NodeDef>)
    ensures TagAll(items, catalog) == MapTag(Filter(NotDropped(catalog), items), catalog)
    ensures |TagAll(items, catalog)| + |Filter(IsDropped(catalog), items)| == |items|
    ensures forall i :: 0 <= i < |TagAll(items, catalog)| && IsNodeItem(TagAll(items, catalog)[i]) ==>
      TagAll(items, catalog)[i].typ in catalog || TagAll(items, catalog)[i].typ == "unknown"
  {
    if items != [] {
      var prefix := items[..|items| - 1];
      var it := items[|items| - 1];
      TagAllFacts(prefix, catalog);
      FilterComplementLength(IsDropped(catalog), NotDropped(catalog), items);
      FilterComplementLength(IsDropped(catalog), NotDropped(catalog), prefix);
      if !Dropped(it, catalog) {
        var f := Filter(NotDropped(catalog), prefix);
        assert Filter(NotDropped(catalog), items) == f + [it];
        MapTagAppend(f, it, catalog);
      }
    }
  }

  function NotDropped(catalog: map<string, NodeDef>): ImportItem -> bool {
    (it: ImportItem) => !Dropped(it, catalog)
  }

  function IsDropped(catalog: map<string, NodeDef>): ImportItem -> bool {
    (it: ImportItem) => Dropped(it, catalog)
  }

  /** `Tag` applied to every item. */
  function MapTag(its: seq<ImportItem>, catalog: map<string, NodeDef>): (r: seq<ImportItem>)
    ensures |r| == |its| && forall i :: 0 <= i < |its| ==> r[i] == Tag(its[i], catalog)
  {
    if its == [] then [] else MapTag(its[..|its| - 1], catalog) + [Tag(its[|its| - 1], catalog)]
  }

  lemma MapTagAppend(its: seq<ImportItem>, it: ImportItem, catalog: map<string, NodeDef>)
    ensures MapTag(its + [it], catalog) == MapTag(its, catalog) + [Tag(it, catalog)]
  {
    assert (its + [it])[..|its|] == its;
  }

  /** Tagging keeps ids and whether an item is a device, so fresh distinct ids stay so. */
  lemma {:induction false} TagAllFresh(items: seq<ImportItem>, catalog: map<string, NodeDef>, stored: set<string>)
    requires FreshIds(items, stored)
    ensures FreshIds(TagAll(items, catalog), stored)
    ensures ItemIds(TagAll(items, catalog)) <= ItemIds(items)
  {
    if items != [] {
      var prefix := items[..|items| - 1];
      var it := items[|items| - 1];
      assert forall i :: 0 <= i < |prefix| ==> prefix[i] == items[i];
      assert prefix + [it] == items;
      TagAllFresh(prefix, catalog, stored);
      var t := TagAll(prefix, catalog);
      if IsNodeItem(it) {
        LastIdFresh(items);
        ItemIdsAppend(prefix, it);
      } else {
        ItemIdsSkip(prefix, it);
      }
      if !Dropped(it, catalog) {
        FreshSnoc(t, Tag(it, catalog), stored);
      }
    }
  }

  /** The last device item's id differs from those of the device items before it. */
  lemma LastIdFresh(items: seq<ImportItem>)
    requires items != [] && IsNodeItem(items[|items| - 1]) && DistinctItemIds(items)
    ensures items[|items| - 1].id !in ItemIds(items[..|items| - 1])
  {
    var prefix := items[..|items| - 1];
    assert forall i :: 0 <= i < |prefix| ==> prefix[i] == items[i];
  }

  lemma ItemIdsSkip(its: seq<ImportItem>, it: ImportItem)
    requires !IsNodeItem(it)
    ensures ItemIds(its + [it]) == ItemIds(its)
  {
    var r := its + [it];
    forall x | x in ItemIds(its) ensures x in ItemIds(r) {
      var i :| 0 <= i < |its| && IsNodeItem(its[i]) && its[i].id == x;
      assert r[i] == its[i];
    }
  }

  /** Appending an item whose id is new keeps the device ids distinct and fresh. */
  lemma FreshSnoc(t: seq<ImportItem>, x: ImportItem, stored: set<string>)
    requires FreshIds(t, stored)
    requires IsNodeItem(x) ==> x.id !in stored && x.id !in ItemIds(t)
    ensures FreshIds(t + [x], stored)
    ensures ItemIds(t + [x]) <= ItemIds(t) + {x.id}
  {
    var r := t + [x];
    forall i, j | 0 <= i < j < |r| && IsNodeItem(r[i]) && IsNodeItem(r[j]) ensures r[i].id != r[j].id {
      assert r[i] == t[i];
      if j < |t| {
        assert r[j] == t[j];
      } else {
        assert t[i].id in ItemIds(t);
      }
    }
    forall i | 0 <= i < |r| && IsNodeItem(r[i]) ensures r[i].id !in stored {
      if i < |t| {
        assert r[i] == t[i];
      }
    }
    forall y | y in ItemIds(r) ensures y in ItemIds(t) + {x.id} {
      var i :| 0 <= i < |r| && IsNodeItem(r[i]) && r[i].id == y;
      if i < |t| {
        assert r[i] == t[i];
      }
    }
  }

  // ---------------------------------------------------------------- the added nodes

  /**
   * The descriptor an item gets: its registered type, or for an unknown type a placeholder
   * without properties, capabilities or cost, whose output count is the item's, else its number of ports.
   */
  function DefFor(it: ImportItem, catalog: map<string, NodeDef>): (d: NodeDef)
    ensures it.typ in catalog ==> d == catalog[it.typ]
    ensures it.typ !in catalog ==> d.defaults == [] && d.capabilities == [] && d.cost == NoCostDefault
  {
    if it.typ in catalog then catalog[it.typ]
    else NodeDef("", [], [], [], false, false, NoCostDefault, [], if it.outputs != 0 then it.outputs else |it.wires|)
  }

  /** The keys of a descriptor's property defaults. */
  function DefaultKeys(d: NodeDef): set<string> {
    set p | p in d.defaults :: p.key
  }

  /**
   * The node built from an item: its id, type and workspace, its coordinates (0 when absent),
   * the item's value (or undefined) for each key of the descriptor's defaults, not yet
   * validated, and marked dirty as `addNode` leaves it.
   */
  function BuildNode(it: ImportItem, catalog: map<string, NodeDef>): (n: Node)
    ensures n.id == it.id && n.typ == it.typ && n.z == it.z && n.def == DefFor(it, catalog)
    ensures n.props.Keys == DefaultKeys(DefFor(it, catalog))
    ensures forall k :: k in n.props ==> n.props[k] == (if k in it.fields then it.fields[k] else Undefined)
    ensures n.valid.None? && n.dirty && !n.changed
  {
    var d := DefFor(it, catalog);
    Node(it.id, it.typ, d, it.x.GetOr(0.0), it.y.GetOr(0.0), it.z, NodeWidth, NodeHeight,
      false, [], [], None, true, false, false,
      if it.outputs != 0 then it.outputs else d.outputs, [],
      map k | k in DefaultKeys(d) :: if k in it.fields then it.fields[k] else Undefined)
  }

  function Built(its: seq<ImportItem>, catalog: map<string, NodeDef>): (r: seq<Node>)
    ensures |r| == |its|
  {
    if its == [] then [] else Built(its[..|its| - 1], catalog) + [BuildNode(its[|its| - 1], catalog)]
  }

  /** The nodes built are, position by position, the nodes of the items. */
  lemma {:induction false} BuiltAt(its: seq<ImportItem>, catalog: map<string, NodeDef>)
    ensures forall i :: 0 <= i < |its| ==> Built(its, catalog)[i] == BuildNode(its[i], catalog)
  {
    if its != [] {
      var prefix := its[..|its| - 1];
      BuiltAt(prefix, catalog);
      assert forall i :: 0 <= i < |prefix| ==> prefix[i] == its[i];
    }
  }

  /**
   * The device items admitted, in order: each is admitted when `canAddNode` holds for its node
   * next to the stored nodes `base` and the nodes admitted before it.
   */
  function Admitted(base: seq<Node>, its: seq<ImportItem>, catalog: map<string, NodeDef>): seq<ImportItem> {
    if its == [] then []
    else
      var prev := Admitted(base, its[..|its| - 1], catalog);
      var it := its[|its| - 1];
      if IsNodeItem(it) && TotalCost(base + Built(prev, catalog) + [BuildNode(it, catalog)]) <= Options.StartingCredits
      then prev + [it]
      else prev
  }

  lemma TotalCostSnoc(ns: seq<Node>, n: Node)
    ensures TotalCost(ns + [n]) == TotalCost(ns) + CostOf(n)
  {
    assert (ns + [n])[..|ns|] == ns;
  }

  lemma ItemIdsPrefix(its: seq<ImportItem>, k: int)
    requires 0 <= k <= |its|
    ensures ItemIds(its[..k]) <= ItemIds(its)
  {
    forall x | x in ItemIds(its[..k]) ensures x in ItemIds(its) {
      var i :| 0 <= i < k && IsNodeItem(its[..k][i]) && its[..k][i].id == x;
      assert its[i] == its[..k][i];
    }
  }

  /** The admitted items are device items of the input, taken in input order, at most one per device item. */
  lemma {:induction false} AdmittedSubsequence(base: seq<Node>, its: seq<ImportItem>, catalog: map<string, NodeDef>)
    ensures |Admitted(base, its, catalog)| <= |Filter(IsNodeItemFn(), its)|
    ensures forall it :: it in Admitted(base, its, catalog) ==> it in its && IsNodeItem(it)
    ensures ItemIds(Admitted(base, its, catalog)) <= ItemIds(its)
  {
    if its != [] {
      var prefix := its[..|its| - 1];
      var it := its[|its| - 1];
      AdmittedSubsequence(base, prefix, catalog);
      ItemIdsPrefix(its, |its| - 1);
      var prev := Admitted(base, prefix, catalog);
      if Admitted(base, its, catalog) != prev {
        ItemIdsAppend(prev, it);
        assert it in its;
      }
    }
  }

  /** Whenever any item is admitted, the credits spent stay within the starting credits. */
  lemma {:induction false} AdmittedWithinBudget(base: seq<Node>, its: seq<ImportItem>, catalog: map<string, NodeDef>)
    ensures |Admitted(base, its, catalog)| > 0 ==>
      TotalCost(base + Built(Admitted(base, its, catalog), catalog)) <= Options.StartingCredits
  {
    if its != [] {
      var prefix := its[..|its| - 1];
      var it := its[|its| - 1];
      AdmittedWithinBudget(base, prefix, catalog);
      var prev := Admitted(base, prefix, catalog);
      if Admitted(base, its, catalog) != prev {
        BaseBuiltSnoc(base, prev, it, catalog);
      }
    }
  }

  function IsNodeItemFn(): ImportItem -> bool {
    (it: ImportItem) => IsNodeItem(it)
  }

  /**
   * When no device costs a negative amount and all device items fit within the budget
   * together, every device item is admitted.
   */
  lemma {:induction false} AllAdmittedWhenAffordable(base: seq<Node>, its: seq<ImportItem>, catalog: map<string, NodeDef>)
    requires forall i :: 0 <= i < |its| ==> CostOf(BuildNode(its[i], catalog)) >= 0
    requires TotalCost(base + Built(Filter(IsNodeItemFn(), its), catalog)) <= Options.StartingCredits
    ensures Admitted(base, its, catalog) == Filter(IsNodeItemFn(), its)
  {
    if its != [] {
      var prefix := its[..|its| - 1];
      assert forall i :: 0 <= i < |prefix| ==> prefix[i] == its[i];
      PrefixAffordable(base, its, catalog);
      AllAdmittedWhenAffordable(base, prefix, catalog);
      AdmittedExtends(base, its, catalog);
    }
  }

  /** When every earlier device item was admitted, the last one is admitted exactly when it fits. */
  lemma AdmittedExtends(base: seq<Node>, its: seq<ImportItem>, catalog: map<string, NodeDef>)
    requires its != []
    requires Admitted(base, its[..|its| - 1], catalog) == Filter(IsNodeItemFn(), its[..|its| - 1])
    requires IsNodeItem(its[|its| - 1]) ==>
      TotalCost(base + Built(Filter(IsNodeItemFn(), its[..|its| - 1]), catalog) + [BuildNode(its[|its| - 1], catalog)])
        <= Options.StartingCredits
    ensures Admitted(base, its, catalog) == Filter(IsNodeItemFn(), its)
  {
    var it := its[|its| - 1];
    var fp := Filter(IsNodeItemFn(), its[..|its| - 1]);
    if IsNodeItem(it) {
      assert Filter(IsNodeItemFn(), its) == fp + [it];
      assert Admitted(base, its, catalog) == fp + [it];
    } else {
      assert Filter(IsNodeItemFn(), its) == fp;
      assert Admitted(base, its, catalog) == fp;
    }
  }

  /** Dropping the last item keeps an affordable selection affordable when its cost is not negative. */
  lemma PrefixAffordable(base: seq<Node>, its: seq<ImportItem>, catalog: map<string, NodeDef>)
    requires its != [] && CostOf(BuildNode(its[|its| - 1], catalog)) >= 0
    requires TotalCost(base + Built(Filter(IsNodeItemFn(), its), catalog)) <= Options.StartingCredits
    ensures TotalCost(base + Built(Filter(IsNodeItemFn(), its[..|its| - 1]), catalog)) <= Options.StartingCredits
    ensures IsNodeItem(its[|its| - 1]) ==>
      TotalCost(base + Built(Filter(IsNodeItemFn(), its[..|its| - 1]), catalog) + [BuildNode(its[|its| - 1], catalog)])
        <= Options.StartingCredits
  {
    var it := its[|its| - 1];
    var fp := Filter(IsNodeItemFn(), its[..|its| - 1]);
    if IsNodeItem(it) {
      assert Filter(IsNodeItemFn(), its) == fp + [it];
      AddingOneNode(base, fp, it, catalog);
    } else {
      assert Filter(IsNodeItemFn(), its) == fp;
    }
  }

  lemma BaseBuiltSnoc(base: seq<Node>, its: seq<ImportItem>, it: ImportItem, catalog: map<string, NodeDef>)
    ensures base + Built(its + [it], catalog) == base + Built(its, catalog) + [BuildNode(it, catalog)]
  {
    BuiltStep(its, it, catalog);
  }

  lemma AddingOneNode(base: seq<Node>, its: seq<ImportItem>, it: ImportItem, catalog: map<string, NodeDef>)
    ensures base + Built(its + [it], catalog) == base + Built(its, catalog) + [BuildNode(it, catalog)]
    ensures TotalCost(base + Built(its + [it], catalog)) == TotalCost(base + Built(its, catalog)) + CostOf(BuildNode(it, catalog))
  {
    BuiltStep(its, it, catalog);
    TotalCostSnoc(base + Built(its, catalog), BuildNode(it, catalog));
  }

  // ---------------------------------------------------------------- the links of the wires

  /** The link `addLink` stores for the wire `w` of port `port` of node `src`. */
  function WireLink(src: string, port: nat, w: WireIn): (l: Link)
    ensures l.source == src && l.target == w.task && l.sourcePort == port && l.targetPort == w.targetPort
    ensures l.protocol == Some(w.protocol.GetOr("TSCH"))
  {
    WithDefaults(Link(src, w.task, port, w.targetPort, w.protocol, false, false, false))
  }

  /** The links of the wires `ws` of port `port` of `src` whose target is among `ids`. */
  function PortLinks(src: string, port: nat, ws: seq<WireIn>, ids: set<string>): seq<Link> {
    if ws == [] then []
    else
      var w := ws[|ws| - 1];
      PortLinks(src, port, ws[..|ws| - 1], ids) + (if w.task in ids then [WireLink(src, port, w)] else [])
  }

  /** The links of all ports of `src`, port by port. */
  function PortsLinks(src: string, ports: seq<seq<WireIn>>, ids: set<string>): seq<Link> {
    if ports == [] then []
    else PortsLinks(src, ports[..|ports| - 1], ids) + PortLinks(src, |ports| - 1, ports[|ports| - 1], ids)
  }

  /** The links of the wires of the admitted items, item by item. */
  function WireLinks(its: seq<ImportItem>, ids: set<string>): seq<Link> {
    if its == [] then []
    else
      var it := its[|its| - 1];
      WireLinks(its[..|its| - 1], ids) + PortsLinks(it.id, it.wires, ids)
  }

  /** A link exists for a wire exactly when the wire's target is among `ids`. */
  lemma {:induction false} PortLinksExact(src: string, port: nat, ws: seq<WireIn>, ids: set<string>)
    ensures forall l :: l in PortLinks(src, port, ws, ids) <==>
      exists q :: 0 <= q < |ws| && ws[q].task in ids && l == WireLink(src, port, ws[q])
  {
    if ws != [] {
      var prefix := ws[..|ws| - 1];
      PortLinksExact(src, port, prefix, ids);
      assert forall q :: 0 <= q < |prefix| ==> prefix[q] == ws[q];
    }
  }

  lemma {:induction false} PortsLinksExact(src: string, ports: seq<seq<WireIn>>, ids: set<string>)
    ensures forall l :: l in PortsLinks(src, ports, ids) <==>
      exists p, q :: 0 <= p < |ports| && 0 <= q < |ports[p]| && ports[p][q].task in ids && l == WireLink(src, p, ports[p][q])
  {
    if ports != [] {
      var prefix := ports[..|ports| - 1];
      var last := |ports| - 1;
      PortsLinksExact(src, prefix, ids);
      PortLinksExact(src, last, ports[last], ids);
      assert forall p :: 0 <= p < |prefix| ==> prefix[p] == ports[p];
      forall l | (exists p, q :: 0 <= p < |ports| && 0 <= q < |ports[p]| && ports[p][q].task in ids && l == WireLink(src, p, ports[p][q]))
        ensures l in PortsLinks(src, ports, ids)
      {
        var p, q :| 0 <= p < |ports| && 0 <= q < |ports[p]| && ports[p][q].task in ids && l == WireLink(src, p, ports[p][q]);
        if p < last {
          assert prefix[p][q] == ports[p][q];
        }
      }
    }
  }

  /** Every link made comes from a wire of an admitted item whose target was admitted. */
  lemma {:induction false} WireLinksSound(its: seq<ImportItem>, ids: set<string>, l: Link)
    requires l in WireLinks(its, ids)
    ensures exists k, p, q ::
      0 <= k < |its| && 0 <= p < |its[k].wires| && 0 <= q < |its[k].wires[p]| &&
      its[k].wires[p][q].task in ids && l == WireLink(its[k].id, p, its[k].wires[p][q])
  {
    var prefix := its[..|its| - 1];
    var last := |its| - 1;
    if l in WireLinks(prefix, ids) {
      WireLinksSound(prefix, ids, l);
      var k, p, q :| 0 <= k < |prefix| && 0 <= p < |prefix[k].wires| && 0 <= q < |prefix[k].wires[p]| &&
        prefix[k].wires[p][q].task in ids && l == WireLink(prefix[k].id, p, prefix[k].wires[p][q]);
      assert prefix[k] == its[k];
    } else {
      PortsLinksExact(its[last].id, its[last].wires, ids);
    }
  }

  /** Every wire of an admitted item whose target was admitted becomes a link. */
  lemma {:induction false} WireLinksComplete(its: seq<ImportItem>, ids: set<string>, k: int, p: int, q: int)
    requires 0 <= k < |its| && 0 <= p < |its[k].wires| && 0 <= q < |its[k].wires[p]| && its[k].wires[p][q].task in ids
    ensures WireLink(its[k].id, p, its[k].wires[p][q]) in WireLinks(its, ids)
  {
    var prefix := its[..|its| - 1];
    var last := |its| - 1;
    if k < last {
      assert prefix[k] == its[k];
      WireLinksComplete(prefix, ids, k, p, q);
    } else {
      PortsLinksExact(its[last].id, its[last].wires, ids);
    }
  }

  // ---------------------------------------------------------------- the import itself

  datatype ImportResult = ImportResult(
    nodes: seq<Node>,
    links: seq<Link>,
    unknownTypes: seq<string>,
    notifyUnknown: bool,
    notifyBudget: bool)

  /**
   * The tagging pass: each unregistered device type is renamed "unknown" (its name kept under
   * `name`) and recorded once; an unknown item without coordinates is spliced out of the list.
   */
  method TagItems(items: seq<ImportItem>, catalog: map<string, NodeDef>) returns (newNodes: seq<ImportItem>, unknownTypes: seq<string>)
    ensures newNodes == TagAll(items, catalog)
    ensures unknownTypes == UnknownNames(items, catalog)
  {
    newNodes := items;
    unknownTypes := [];
    var i := 0;
    ghost var j := 0;
    while i < |newNodes|
      invariant 0 <= i <= |newNodes| && 0 <= j <= |items|
      invariant newNodes[..i] == TagAll(items[..j], catalog)
      invariant newNodes[i..] == items[j..]
      invariant unknownTypes == UnknownNames(items[..j], catalog)
      decreases |newNodes| - i
    {
      newNodes, unknownTypes, i := TagOne(items, catalog, newNodes, unknownTypes, i, j);
      j := j + 1;
    }
    assert items[..j] == items;
  }

  /** One iteration of the tagging loop: the item at `i` is item `j` of the input. */
  method TagOne(items: seq<ImportItem>, catalog: map<string, NodeDef>, newNodes: seq<ImportItem>, unknownTypes: seq<string>,
                i: nat, ghost j: nat)
    returns (newNodes': seq<ImportItem>, unknownTypes': seq<string>, i': nat)
    requires i < |newNodes| && j <= |items|
    requires newNodes[..i] == TagAll(items[..j], catalog)
    requires newNodes[i..] == items[j..]
    requires unknownTypes == UnknownNames(items[..j], catalog)
    ensures j + 1 <= |items| && i' <= |newNodes'|
    ensures newNodes'[..i'] == TagAll(items[..j + 1], catalog)
    ensures newNodes'[i'..] == items[j + 1..]
    ensures unknownTypes' == UnknownNames(items[..j + 1], catalog)
    ensures |newNodes'| - i' < |newNodes| - i
  {
    var n := newNodes[i];
    assert n == items[j] by {
      assert newNodes[i..][0] == items[j..][0];
    }
    TagStep(items, j, catalog);
    assert newNodes[i + 1..] == items[j + 1..] by {
      assert newNodes[i..][1..] == items[j..][1..];
    }
    unknownTypes' := unknownTypes;
    if !Special(n.typ) && n.typ !in catalog {
      var name := n.typ;
      n := n.(fields := n.fields["name" := Str(name)], typ := "unknown");
      if IndexOf(unknownTypes, name) == -1 {
        unknownTypes' := unknownTypes + [name];
      }
      if n.x.None? && n.y.None? {
        newNodes' := newNodes[..i] + newNodes[i + 1..];
        assert newNodes'[..i] == newNodes[..i];
        assert newNodes'[i..] == newNodes[i + 1..];
        i' := i;
      } else {
        newNodes' := newNodes[i := n];
        assert newNodes'[..i + 1] == newNodes[..i] + [n];
        assert newNodes'[i + 1..] == newNodes[i + 1..];
        i' := i + 1;
      }
    } else {
      newNodes' := newNodes;
      assert newNodes[..i + 1] == newNodes[..i] + [n];
      i' := i + 1;
    }
  }

  /** The folds of the tagging pass extended by one input item. */
  lemma TagStep(items: seq<ImportItem>, j: int, catalog: map<string, NodeDef>)
    requires 0 <= j < |items|
    ensures TagAll(items[..j + 1], catalog) ==
      TagAll(items[..j], catalog) + (if Dropped(items[j], catalog) then [] else [Tag(items[j], catalog)])
    ensures UnknownNames(items[..j + 1], catalog) ==
      if IsUnknown(items[j], catalog) then AddIfAbsent(UnknownNames(items[..j], catalog), items[j].typ)
      else UnknownNames(items[..j], catalog)
  {
    assert items[..j + 1][..j] == items[..j];
  }

  /**
   * The node pass: for each device item in order, the node is built and added when
   * `canAddNode` allows it; `allAdded` records whether none was skipped.
   */
  method AddImportedNodes(store: GraphStore, kept: seq<ImportItem>, catalog: map<string, NodeDef>)
    returns (added: seq<Node>, addedItems: seq<ImportItem>, allAdded: bool)
    requires store.Valid() && DistinctItemIds(kept) && FreshFrom(kept, 0, Ids(store.nodes))
    modifies store`nodes
    ensures store.Valid()
    ensures addedItems == Admitted(old(store.nodes), kept, catalog)
    ensures added == Built(addedItems, catalog)
    ensures store.nodes == old(store.nodes) + added
    ensures allAdded <==> |addedItems| == |Filter(IsNodeItemFn(), kept)|
  {
    added := [];
    addedItems := [];
    allAdded := true;
    ghost var base := store.nodes;
    var i := 0;
    assert kept[..i] == [];
    while i < |kept|
      invariant 0 <= i <= |kept|
      invariant store.Valid()
      invariant addedItems == Admitted(base, kept[..i], catalog)
      invariant added == Built(addedItems, catalog)
      invariant store.nodes == base + added
      invariant allAdded <==> |addedItems| == |Filter(IsNodeItemFn(), kept[..i])|
      invariant FreshFrom(kept, i, Ids(store.nodes))
    {
      added, addedItems, allAdded := AdmitItem(store, base, kept, i, catalog, added, addedItems, allAdded);
      i := i + 1;
    }
    assert kept[..i] == kept;
  }

  /** One iteration of the node pass: item `i` is added when it is a device that `canAddNode` allows. */
  method AdmitItem(store: GraphStore, ghost base: seq<Node>, kept: seq<ImportItem>, i: nat, catalog: map<string, NodeDef>,
                   added: seq<Node>, addedItems: seq<ImportItem>, allAdded: bool)
    returns (added': seq<Node>, addedItems': seq<ImportItem>, allAdded': bool)
    requires i < |kept| && store.Valid()
    requires DistinctItemIds(kept) && FreshFrom(kept, i, Ids(store.nodes))
    requires addedItems == Admitted(base, kept[..i], catalog)
    requires added == Built(addedItems, catalog)
    requires store.nodes == base + added
    requires allAdded <==> |addedItems| == |Filter(IsNodeItemFn(), kept[..i])|
    modifies store`nodes
    ensures store.Valid()
    ensures addedItems' == Admitted(base, kept[..i + 1], catalog)
    ensures added' == Built(addedItems', catalog)
    ensures store.nodes == base + added'
    ensures allAdded' <==> |addedItems'| == |Filter(IsNodeItemFn(), kept[..i + 1])|
    ensures FreshFrom(kept, i + 1, Ids(store.nodes))
  {
    added', addedItems', allAdded' := added, addedItems, allAdded;
    var it := kept[i];
    if IsNodeItem(it) {
      var node := BuildNode(it, catalog);
      var ok := store.CanAddNode(node);
      AdmittedNext(base, kept, i, catalog, ok);
      if ok {
        FreshFromStep(kept, i, Ids(store.nodes));
        BuiltStep(addedItems, it, catalog);
        assert node.(dirty := true) == node;
        store.AddNode(node);
        added' := added + [node];
        addedItems' := addedItems + [it];
      } else {
        allAdded' := false;
      }
    } else {
      AdmittedNext(base, kept, i, catalog, false);
    }
  }

  /** Adding the node of item `i` keeps the later device items fresh. */
  lemma FreshFromStep(kept: seq<ImportItem>, i: int, stored: set<string>)
    requires 0 <= i < |kept| && IsNodeItem(kept[i])
    requires DistinctItemIds(kept) && FreshFrom(kept, i, stored)
    ensures kept[i].id !in stored
    ensures FreshFrom(kept, i + 1, stored + {kept[i].id})
  {
  }

  /** One more item: `Admitted` extends by that item exactly when `canAddNode` holds for its node. */
  lemma AdmittedStep(base: seq<Node>, its: seq<ImportItem>, i: int, catalog: map<string, NodeDef>)
    requires 0 <= i < |its|
    ensures var prev := Admitted(base, its[..i], catalog);
      Admitted(base, its[..i + 1], catalog) ==
        if IsNodeItem(its[i]) && TotalCost(base + Built(prev, catalog) + [BuildNode(its[i], catalog)]) <= Options.StartingCredits
        then prev + [its[i]] else prev
  {
    assert its[..i + 1][..i] == its[..i];
  }

  /** The node pass's loop step, stated on values: `take` is whether item `i` is admitted. */
  lemma AdmittedNext(base: seq<Node>, its: seq<ImportItem>, i: int, catalog: map<string, NodeDef>, take: bool)
    requires 0 <= i < |its|
    requires take <==> (IsNodeItem(its[i]) &&
      TotalCost(base + Built(Admitted(base, its[..i], catalog), catalog) + [BuildNode(its[i], catalog)]) <= Options.StartingCredits)
    ensures take ==> Admitted(base, its[..i + 1], catalog) == Admitted(base, its[..i], catalog) + [its[i]]
    ensures !take ==> Admitted(base, its[..i + 1], catalog) == Admitted(base, its[..i], catalog)
    ensures IsNodeItem(its[i]) ==> |Filter(IsNodeItemFn(), its[..i + 1])| == |Filter(IsNodeItemFn(), its[..i])| + 1
    ensures !IsNodeItem(its[i]) ==> Filter(IsNodeItemFn(), its[..i + 1]) == Filter(IsNodeItemFn(), its[..i])
    ensures |Admitted(base, its[..i], catalog)| <= |Filter(IsNodeItemFn(), its[..i])|
  {
    AdmittedStep(base, its, i, catalog);
    FilterPrefixStep(IsNodeItemFn(), its, i);
    AdmittedSubsequence(base, its[..i], catalog);
  }

  /** The ids of the nodes built from device items are the items' ids. */
  lemma {:induction false} BuiltIds(its: seq<ImportItem>, catalog: map<string, NodeDef>)
    requires forall it :: it in its ==> IsNodeItem(it)
    ensures Ids(Built(its, catalog)) == ItemIds(its)
  {
    if its != [] {
      var prefix := its[..|its| - 1];
      var it := its[|its| - 1];
      assert forall x :: x in prefix ==> x in its;
      BuiltIds(prefix, catalog);
      BuiltStep(prefix, it, catalog);
      assert prefix + [it] == its;
      IdsAppend(Built(prefix, catalog), BuildNode(it, catalog));
      ItemIdsAppend(prefix, it);
    }
  }

  lemma BuiltStep(its: seq<ImportItem>, it: ImportItem, catalog: map<string, NodeDef>)
    ensures Built(its + [it], catalog) == Built(its, catalog) + [BuildNode(it, catalog)]
  {
    assert (its + [it])[..|its|] == its;
  }

  lemma ItemIdsAppend(its: seq<ImportItem>, it: ImportItem)
    requires IsNodeItem(it)
    ensures ItemIds(its + [it]) == ItemIds(its) + {it.id}
  {
    var r := its + [it];
    assert r[|its|] == it;
    forall x | x in ItemIds(its) ensures x in ItemIds(r) {
      var i :| 0 <= i < |its| && IsNodeItem(its[i]) && its[i].id == x;
      assert r[i] == its[i];
    }
  }

  // ---------------------------------------------------------------- the wire pass

  lemma PortLinksStep(src: string, port: nat, ws: seq<WireIn>, j: int, ids: set<string>)
    requires 0 <= j < |ws|
    ensures PortLinks(src, port, ws[..j + 1], ids) ==
      PortLinks(src, port, ws[..j], ids) + (if ws[j].task in ids then [WireLink(src, port, ws[j])] else [])
  {
    assert ws[..j + 1][..j] == ws[..j];
  }

  lemma PortsLinksStep(src: string, ports: seq<seq<WireIn>>, p: int, ids: set<string>)
    requires 0 <= p < |ports|
    ensures PortsLinks(src, ports[..p + 1], ids) == PortsLinks(src, ports[..p], ids) + PortLinks(src, p, ports[p], ids)
  {
    assert ports[..p + 1][..p] == ports[..p];
  }

  lemma WireLinksStep(its: seq<ImportItem>, k: int, ids: set<string>)
    requires 0 <= k < |its|
    ensures WireLinks(its[..k + 1], ids) == WireLinks(its[..k], ids) + PortsLinks(its[k].id, its[k].wires, ids)
  {
    assert its[..k + 1][..k] == its[..k];
  }

  /** The wires of one output port: a link for each wire whose target node was added. */
  method AddPortLinks(store: GraphStore, src: string, port: nat, ws: seq<WireIn>, ids: set<string>)
    requires store.Valid() && src in Ids(store.nodes) && ids <= Ids(store.nodes)
    modifies store`links
    ensures store.Valid()
    ensures store.links == old(store.links) + PortLinks(src, port, ws, ids)
  {
    var j := 0;
    while j < |ws|
      invariant 0 <= j <= |ws|
      invariant store.Valid()
      invariant store.links == old(store.links) + PortLinks(src, port, ws[..j], ids)
    {
      PortLinksStep(src, port, ws, j, ids);
      if ws[j].task in ids {
        store.AddLink(Link(src, ws[j].task, port, ws[j].targetPort, ws[j].protocol, false, false, false));
      }
      j := j + 1;
    }
    assert ws[..j] == ws;
  }

  /** All output ports of one added node, in port order. */
  method AddItemLinks(store: GraphStore, it: ImportItem, ids: set<string>)
    requires store.Valid() && it.id in Ids(store.nodes) && ids <= Ids(store.nodes)
    modifies store`links
    ensures store.Valid()
    ensures store.links == old(store.links) + PortsLinks(it.id, it.wires, ids)
  {
    var p := 0;
    while p < |it.wires|
      invariant 0 <= p <= |it.wires|
      invariant store.Valid()
      invariant store.links == old(store.links) + PortsLinks(it.id, it.wires[..p], ids)
    {
      PortsLinksStep(it.id, it.wires, p, ids);
      AddPortLinks(store, it.id, p, it.wires[p], ids);
      p := p + 1;
    }
    assert it.wires[..p] == it.wires;
  }

  /**
   * The wire pass: for each added node in order, every wire whose target is an added node
   * becomes a stored link.
   */
  method AddWireLinks(store: GraphStore, addedItems: seq<ImportItem>, ids: set<string>)
    returns (newLinks: seq<Link>)
    requires store.Valid() && ids <= Ids(store.nodes)
    requires forall k :: 0 <= k < |addedItems| ==> addedItems[k].id in Ids(store.nodes)
    modifies store`links
    ensures store.Valid()
    ensures newLinks == WireLinks(addedItems, ids)
    ensures store.links == old(store.links) + newLinks
  {
    newLinks := [];
    var k := 0;
    while k < |addedItems|
      invariant 0 <= k <= |addedItems|
      invariant store.Valid()
      invariant newLinks == WireLinks(addedItems[..k], ids)
      invariant store.links == old(store.links) + newLinks
    {
      WireLinksStep(addedItems, k, ids);
      ghost var before := store.links;
      AddItemLinks(store, addedItems[k], ids);
      newLinks := newLinks + PortsLinks(addedItems[k].id, addedItems[k].wires, ids);
      k := k + 1;
    }
    assert addedItems[..k] == addedItems;
  }

  /** Every added item's id names a stored node after the node pass. */
  lemma AddedItemsStored(base: seq<Node>, addedItems: seq<ImportItem>, catalog: map<string, NodeDef>)
    requires forall it :: it in addedItems ==> IsNodeItem(it)
    ensures ItemIds(addedItems) <= Ids(base + Built(addedItems, catalog))
    ensures forall k :: 0 <= k < |addedItems| ==> addedItems[k].id in Ids(base + Built(addedItems, catalog))
  {
    IdsConcat(base, Built(addedItems, catalog));
    BuiltIds(addedItems, catalog);
    assert forall k :: 0 <= k < |addedItems| ==> addedItems[k].id in ItemIds(addedItems);
  }

  // ---------------------------------------------------------------- validation of the added nodes

  /**
   * `validateNode` on position `k` of `ns`: the node's `valid` flag becomes the verdict against
   * `ns`, and the node is marked dirty when the flag changes. The type's own validator and the
   * type's credentials are given per node by `custom` and `creds`.
   */
  function ValidatedAt(ns: seq<Node>, k: nat, custom: Node -> Option<bool>, creds: Node -> Option<Editor.Credentials>,
                       c: Editor.Checks): seq<Node>
    requires k < |ns|
  {
    var n := ns[k];
    var v := Editor.NodeValid(n, custom(n), creds(n), c, ns);
    ns[k := n.(valid := Some(v), dirty := n.dirty || Some(v) != n.valid)]
  }

  /** `ns` after validating positions `from` to `from + count - 1`, one after the other. */
  function ValidatedRun(ns: seq<Node>, from: nat, count: nat, custom: Node -> Option<bool>,
                        creds: Node -> Option<Editor.Credentials>, c: Editor.Checks): (r: seq<Node>)
    requires from + count <= |ns|
    ensures |r| == |ns|
  {
    if count == 0 then ns
    else ValidatedAt(ValidatedRun(ns, from, count - 1, custom, creds, c), from + count - 1, custom, creds, c)
  }

  /** The nodes after the run are untouched by it. */
  lemma {:induction false} ValidatedRunLater(ns: seq<Node>, from: nat, count: nat, custom: Node -> Option<bool>,
                                             creds: Node -> Option<Editor.Credentials>, c: Editor.Checks, k: nat)
    requires from + count <= k < |ns|
    ensures ValidatedRun(ns, from, count, custom, creds, c)[k] == ns[k]
  {
    if count > 0 {
      ValidatedRunLater(ns, from, count - 1, custom, creds, c, k);
    }
  }

  /**
   * Validation changes only the `valid` and `dirty` flags, and only of the nodes in the run.
   */
  lemma {:induction false} ValidatedRunKeeps(ns: seq<Node>, from: nat, count: nat, custom: Node -> Option<bool>,
                                             creds: Node -> Option<Editor.Credentials>, c: Editor.Checks)
    requires from + count <= |ns|
    ensures var r := ValidatedRun(ns, from, count, custom, creds, c);
      (forall k :: 0 <= k < |ns| ==> r[k] == ns[k].(valid := r[k].valid, dirty := r[k].dirty)) &&
      (forall k :: 0 <= k < |ns| && !(from <= k < from + count) ==> r[k] == ns[k])
  {
    if count > 0 {
      var pre := ValidatedRun(ns, from, count - 1, custom, creds, c);
      ValidatedRunKeeps(ns, from, count - 1, custom, creds, c);
      var k := from + count - 1;
      assert ValidatedRun(ns, from, count, custom, creds, c) == ValidatedAt(pre, k, custom, creds, c);
    }
  }

  /** So the ids stay those of `ns`. */
  lemma ValidatedRunIds(ns: seq<Node>, from: nat, count: nat, custom: Node -> Option<bool>,
                        creds: Node -> Option<Editor.Credentials>, c: Editor.Checks)
    requires from + count <= |ns|
    ensures Ids(ValidatedRun(ns, from, count, custom, creds, c)) == Ids(ns)
  {
    var r := ValidatedRun(ns, from, count, custom, creds, c);
    ValidatedRunKeeps(ns, from, count, custom, creds, c);
    forall x | x in Ids(ns) ensures x in Ids(r) {
      var k :| 0 <= k < |ns| && ns[k].id == x;
      assert r[k].id == x;
    }
    forall x | x in Ids(r) ensures x in Ids(ns) {
      var k :| 0 <= k < |r| && r[k].id == x;
      assert ns[k].id == x;
    }
  }

  /**
   * Each node of the run is judged when its turn comes: against the nodes with the earlier
   * positions of the run already validated. Its flag is that verdict, and it is dirty when it
   * was dirty or the flag changed.
   */
  lemma {:induction false} ValidatedRunVerdict(ns: seq<Node>, from: nat, count: nat, custom: Node -> Option<bool>,
                                               creds: Node -> Option<Editor.Credentials>, c: Editor.Checks, k: nat)
    requires from <= k < from + count <= |ns|
    ensures var r := ValidatedRun(ns, from, count, custom, creds, c);
      var v := Editor.NodeValid(ns[k], custom(ns[k]), creds(ns[k]), c, ValidatedRun(ns, from, k - from, custom, creds, c));
      r[k].valid == Some(v) && r[k].dirty == (ns[k].dirty || Some(v) != ns[k].valid)
  {
    var pre := ValidatedRun(ns, from, count - 1, custom, creds, c);
    var r := ValidatedRun(ns, from, count, custom, creds, c);
    assert r == ValidatedAt(pre, from + count - 1, custom, creds, c);
    if k < from + count - 1 {
      ValidatedRunVerdict(ns, from, count - 1, custom, creds, c, k);
      assert r[k] == pre[k];
    } else {
      ValidatedRunLater(ns, from, count - 1, custom, creds, c, k);
      assert pre[k] == ns[k];
    }
  }

  /**
   * The last loop of `importNodes`: `validateNode` on every node from position `from` on, in
   * store order.
   */
  method ValidateFrom(store: GraphStore, from: nat, custom: Node -> Option<bool>,
                      creds: Node -> Option<Editor.Credentials>, c: Editor.Checks)
    requires store.Valid() && from <= |store.nodes|
    modifies store`nodes
    ensures store.Valid()
    ensures store.nodes == ValidatedRun(old(store.nodes), from, |old(store.nodes)| - from, custom, creds, c)
  {
    var i := from;
    while i < |store.nodes|
      invariant store.Valid() && from <= i <= |store.nodes| == |old(store.nodes)|
      invariant store.nodes == ValidatedRun(old(store.nodes), from, i - from, custom, creds, c)
    {
      var n := store.nodes[i];
      Editor.ValidateNode(store, i, custom(n), creds(n), c);
      i := i + 1;
    }
  }

  /**
   * `importNodes` for a list of items, ids kept as given: unknown types are tagged and
   * reported, device nodes are added while the budget allows, then each added node is
   * validated in turn and its wires become links between added nodes. Validation reads only
   * nodes and the wire pass changes only links, so validating all added nodes before the wire
   * pass, as here, ends in the same state as the source's interleaving.
   */
  method ImportNodes(store: GraphStore, items: seq<ImportItem>, catalog: map<string, NodeDef>,
                     custom: Node -> Option<bool>, creds: Node -> Option<Editor.Credentials>, c: Editor.Checks)
    returns (r: ImportResult)
    requires store.Valid() && FreshIds(items, Ids(store.nodes))
    modifies store`nodes, store`links
    ensures store.Valid()
    ensures r.unknownTypes == UnknownNames(items, catalog)
    ensures r.notifyUnknown <==> |r.unknownTypes| > 0
    ensures var admitted := Admitted(old(store.nodes), TagAll(items, catalog), catalog);
      var built := Built(admitted, catalog);
      store.nodes == ValidatedRun(old(store.nodes) + built, |old(store.nodes)|, |built|, custom, creds, c) &&
      r.nodes == store.nodes[|old(store.nodes)|..] &&
      r.links == WireLinks(admitted, ItemIds(admitted)) &&
      (r.notifyBudget <==> |admitted| != |Filter(IsNodeItemFn(), TagAll(items, catalog))|)
    ensures store.links == old(store.links) + r.links
  {
    var kept, unknownTypes := TagItems(items, catalog);
    TagAllFresh(items, catalog, Ids(store.nodes));
    ghost var base := store.nodes;
    var start := |store.nodes|;
    var added, addedItems, allAdded := AddImportedNodes(store, kept, catalog);
    AdmittedSubsequence(base, kept, catalog);
    AddedItemsStored(base, addedItems, catalog);
    ghost var built := store.nodes;
    assert built == base + added && |built| - start == |added|;
    ValidateFrom(store, start, custom, creds, c);
    ValidatedRunIds(built, start, |added|, custom, creds, c);
    var links := AddWireLinks(store, addedItems, ItemIds(addedItems));
    r := ImportResult(store.nodes[start..], links, unknownTypes, |unknownTypes| > 0, !allAdded);
  }
}
