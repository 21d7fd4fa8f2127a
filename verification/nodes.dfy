/**
 * The device/link data model and the pure rules of the graph store (src/nodes.js):
 * credit accounting and link feasibility.
 */
module Nodes {
  import opened Wrappers
  import Options

  const NodeHeight: real := 42.0
  const NodeWidth: real := 174.0

  /** JavaScript values held in node properties. */
  datatype Value =
    | Undefined
    | Null
    | Str(s: string)
    | Num(n: real)
    | Bool(b: bool)
    | Arr(items: seq<Value>)
    | Obj(fields: seq<(string, Value)>)

  /**
   * The `cost` entry of a type's property defaults: absent, present without a `value`,
   * or present with a value that `parseInt` turns into an integer (Some) or NaN (None).
   */
  datatype CostDefault = NoCostDefault | CostWithoutValue | CostValue(parsed: Option<int>)

  /** One entry of a type's property defaults, as the editor's validation sees it. */
  datatype PropDef = PropDef(key: string, value: Value, required: bool, hasValidate: bool, configType: Option<string>)

  /**
   * A device type descriptor (`_def`). Absent `capabilitiesOnlyInput`/`capabilitiesOnlyOutput`
   * lists are empty lists.
   */
  datatype NodeDef = NodeDef(
    modality: string,
    capabilities: seq<string>,
    onlyInput: seq<string>,
    onlyOutput: seq<string>,
    isHomeGateway: bool,
    mobile: bool,
    cost: CostDefault,
    defaults: seq<PropDef>,
    outputs: int)

  /**
   * A device placed on the floor plan; `z` is its workspace, `props` its configurable properties.
   * `valid` is None until the node is first validated: the source leaves the field unset.
   */
  datatype Node = Node(
    id: string,
    typ: string,
    def: NodeDef,
    x: real, y: real, z: string, w: real, h: real,
    isReachable: bool,
    rooms: seq<string>,
    roomSegments: seq<string>,
    valid: Option<bool>, dirty: bool, changed: bool, selected: bool,
    outputs: int,
    ports: seq<int>,
    props: map<string, Value>)

  /** A link between two stored nodes, named by id; `protocol` None is a link without that field. */
  datatype Link = Link(
    source: string,
    target: string,
    sourcePort: nat,
    targetPort: nat,
    protocol: Option<string>,
    valid: bool,
    dirty: bool,
    changed: bool)

  // ---------------------------------------------------------------- credits

  /** `calculateCostForNode`: the cost of a node whose descriptor is `def` (None: no `_def`). */
  function CalculateCostForNode(def: Option<NodeDef>): (c: int)
    ensures c != 0 ==> def.Some? && def.value.cost == CostValue(Some(c))
    ensures def.Some? && def.value.cost.CostValue? && def.value.cost.parsed.Some? ==>
      c == def.value.cost.parsed.value
  {
    match def
    case None => 0
    case Some(d) =>
      match d.cost
      case CostValue(Some(k)) => k
      case _ => 0
  }

  function CostOf(n: Node): int {
    CalculateCostForNode(Some(n.def))
  }

  /** The credits spent on the nodes `ns`: the sum of their costs. */
  function TotalCost(ns: seq<Node>): int {
    if ns == [] then 0 else TotalCost(ns[..|ns| - 1]) + CostOf(ns[|ns| - 1])
  }

  /** Whether a node of descriptor `def` fits in the budget next to the nodes `ns`. */
  predicate Affordable(ns: seq<Node>, def: Option<NodeDef>) {
    TotalCost(ns) + CalculateCostForNode(def) <= Options.StartingCredits
  }

  lemma {:induction false} TotalCostAppend(a: seq<Node>, b: seq<Node>)
    ensures TotalCost(a + b) == TotalCost(a) + TotalCost(b)
    decreases |b|
  {
    if b == [] {
      assert a + b == a;
    } else {
      assert (a + b)[..|a + b| - 1] == a + b[..|b| - 1];
      TotalCostAppend(a, b[..|b| - 1]);
    }
  }

  /** Costs never go negative when no descriptor has a negative parsed cost. */
  lemma {:induction false} TotalCostNonNegative(ns: seq<Node>)
    requires forall i :: 0 <= i < |ns| ==> CostOf(ns[i]) >= 0
    ensures TotalCost(ns) >= 0
  {
    if ns != [] {
      TotalCostNonNegative(ns[..|ns| - 1]);
    }
  }

  /** A negative parsed cost is returned unchanged and lowers the total. */
  lemma NegativeCostPassesThrough(ns: seq<Node>, n: Node, k: int)
    requires k < 0 && n.def.cost == CostValue(Some(k))
    ensures CostOf(n) == k
    ensures TotalCost(ns + [n]) < TotalCost(ns)
  {
    assert (ns + [n])[..|ns|] == ns;
  }

  // ---------------------------------------------------------------- distance and links

  /** The square of `getDistance(s, d)`: measured from the right edge of `s` to the left edge of `d`. */
  function DistanceSquared(s: Node, d: Node): (r: real)
    ensures r >= 0.0
  {
    var dx := s.x + NodeWidth - d.x;
    var dy := s.y - d.y;
    dx * dx + dy * dy
  }

  /** `range >= getDistance(s, d)`, decided on squares. */
  predicate WithinRange(range: int, s: Node, d: Node) {
    range >= 0 && (range * range) as real >= DistanceSquared(s, d)
  }

  /** Range checks are not symmetric: a USB pair can be in range one way and out of range the other. */
  lemma DistanceAsymmetric(s: Node, d: Node)
    requires s.y == d.y && s.x == 0.0 && d.x == NodeWidth
    ensures WithinRange(150, s, d)
    ensures !WithinRange(150, d, s)
  {
    assert DistanceSquared(d, s) == 348.0 * 348.0;
  }

  /** The protocol `key` may carry data from `s` to `d` in this direction. */
  predicate DirectionOk(s: Node, d: Node, key: string) {
    !(key in s.def.onlyInput || key in d.def.onlyOutput)
  }

  /** The protocol `key` is known and its range covers the distance from `s` to `d`. */
  predicate ProtocolReaches(s: Node, d: Node, key: string) {
    var p := Options.GetProtocolByName(key);
    p.Some? && WithinRange(p.value.range, s, d)
  }

  /** `canBeLinkedWith(s, d, protocol, checkDistance)`. */
  function CanBeLinkedWith(s: Node, d: Node, protocol: string, checkDistance: bool): (ok: bool)
    ensures ok <==> (protocol in s.def.capabilities && protocol in d.def.capabilities && DirectionOk(s, d, protocol) &&
                     (checkDistance ==> ProtocolReaches(s, d, protocol)))
    ensures ok ==> checkDistance ==> protocol in Options.ProtocolNames()
  {
    if !(protocol in s.def.capabilities) || !(protocol in d.def.capabilities) then false
    else if protocol in s.def.onlyInput || protocol in d.def.onlyOutput then false
    else if checkDistance then ProtocolReaches(s, d, protocol)
    else true
  }

  /** The three flags `canBeLinked` accumulates over the source's capabilities. */
  datatype Flags = Flags(anyProtocol: bool, rightDirection: bool, distanceOk: bool)

  /** The `forEach` over `keys` (the source's capabilities) in `canBeLinked`. */
  function ScanCapabilities(keys: seq<string>, s: Node, d: Node): (f: Flags)
    ensures f.anyProtocol <==> exists i :: 0 <= i < |keys| && keys[i] in d.def.capabilities
    ensures f.rightDirection <==>
      exists i :: 0 <= i < |keys| && keys[i] in d.def.capabilities && DirectionOk(s, d, keys[i])
    ensures f.distanceOk <==>
      exists i :: 0 <= i < |keys| && keys[i] in d.def.capabilities && DirectionOk(s, d, keys[i]) && ProtocolReaches(s, d, keys[i])
  {
    if keys == [] then Flags(false, false, false)
    else
      var keys' := keys[..|keys| - 1];
      var f := ScanCapabilities(keys', s, d);
      var key := keys[|keys| - 1];
      assert forall i :: 0 <= i < |keys'| ==> keys'[i] == keys[i];
      if key in d.def.capabilities then
        var dirOk := DirectionOk(s, d, key);
        Flags(true, f.rightDirection || dirOk, f.distanceOk || (dirOk && ProtocolReaches(s, d, key)))
      else f
  }

  const WearableError := "Links to Wristband Sensors do not have to be configured: these devices are mobile and will automatically connect to nearby gateways"
  const NoCommonProtocolError := "These devices cannot be linked directly: they do not share any common communication protocols"
  const DirectionError := "These devices cannot be linked in this direction"
  const TooFarError := "These devices cannot be linked: they are too far away"

  datatype LinkCheck = LinkCheck(ok: bool, protocolsOk: bool, error: string)

  /** `canBeLinked(s, d)`: feasibility of a link from `s` to `d`, with the reason when it is not. */
  function CanBeLinked(s: Node, d: Node): (r: LinkCheck)
    ensures r.ok ==> r.protocolsOk
    ensures r.error == "" <==> r.ok
  {
    var f := ScanCapabilities(s.def.capabilities, s, d);
    var protocolsOk := f.anyProtocol && f.rightDirection;
    var ok := protocolsOk && f.distanceOk;
    var error :=
      if ok then ""
      else if !f.anyProtocol then
        (if s.def.modality == "wearable" || d.def.modality == "wearable" then WearableError else NoCommonProtocolError)
      else if !f.rightDirection then DirectionError
      else TooFarError;
    LinkCheck(ok, protocolsOk, error)
  }

  /** A link is feasible exactly when one of the source's capabilities passes `canBeLinkedWith` with distance. */
  lemma CanBeLinkedIffSomeProtocol(s: Node, d: Node)
    ensures CanBeLinked(s, d).ok <==>
      exists i :: 0 <= i < |s.def.capabilities| && CanBeLinkedWith(s, d, s.def.capabilities[i], true)
  {
    var caps := s.def.capabilities;
    if CanBeLinked(s, d).ok {
      var i :| 0 <= i < |caps| && caps[i] in d.def.capabilities && DirectionOk(s, d, caps[i]) && ProtocolReaches(s, d, caps[i]);
      assert CanBeLinkedWith(s, d, caps[i], true);
    }
  }

  /** The reason given for an infeasible link, in priority order. */
  lemma CanBeLinkedErrorPriority(s: Node, d: Node)
    ensures var caps := s.def.capabilities;
      var shared := exists i :: 0 <= i < |caps| && caps[i] in d.def.capabilities;
      var directed := exists i :: 0 <= i < |caps| && caps[i] in d.def.capabilities && DirectionOk(s, d, caps[i]);
      var r := CanBeLinked(s, d);
      (!shared ==>
        !r.ok && !r.protocolsOk &&
        r.error == (if s.def.modality == "wearable" || d.def.modality == "wearable" then WearableError else NoCommonProtocolError)) &&
      (shared && !directed ==> !r.protocolsOk && r.error == DirectionError) &&
      (directed && !r.ok ==> r.protocolsOk && r.error == TooFarError)
  {
  }

  /** Two non-wearable devices with no capability in common cannot be linked (scenario of disjoint protocols). */
  lemma DisjointCapabilitiesCannotLink(s: Node, d: Node)
    requires forall k :: k in s.def.capabilities ==> k !in d.def.capabilities
    requires s.def.modality != "wearable" && d.def.modality != "wearable"
    ensures CanBeLinked(s, d) == LinkCheck(false, false, NoCommonProtocolError)
  {
  }
}
