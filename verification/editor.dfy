/**
 * The validation and store updates of the node and link editor (src/ui/editor.js): the
 * per-property check, the all-properties check, a node's validity and dirty flag, the
 * port-count adjust that deletes dangling links, the removal of a link that fails validation
 * when its dialog closes, and the protocol options the link dialog offers.
 */
module Editor {
  import opened Wrappers
  import opened Seqs
  import opened Nodes
  import opened Store
  import opened Utils
  import Options

  // ---------------------------------------------------------------- one property

  /**
   * What property validation consults outside the property itself: the `validate` functions of
   * the definitions (`check(key, value)`, called with the trimmed value) and the names of the
   * registered node types (`getType` is truthy exactly for these).
   */
  datatype Checks = Checks(check: (string, Value) -> bool, types: set<string>)

  /** Strings are trimmed before they are checked; other values are checked as they are. */
  function Trimmed(v: Value): Value {
    if v.Str? then Str(Trim(v.s)) else v
  }

  /** `value === "" || value === undefined`. */
  predicate IsEmpty(v: Value) {
    v == Str("") || v == Undefined
  }

  /** The JavaScript falsy values among property values (`!value`). */
  predicate Falsy(v: Value) {
    v == Undefined || v == Null || v == Bool(false) || v == Num(0.0) || v == Str("")
  }

  /** The property refers to a config node: it has a non-empty registered `type` and no `validate`. */
  predicate ConfigChecked(def: PropDef, types: set<string>) {
    def.configType.Some? && def.configType.value != "" && def.configType.value in types && !def.hasValidate
  }

  /**
   * `v == null || v` on `RED.nodes.node(value).valid`: the value is the id of a stored node that
   * is valid or has not been validated yet.
   */
  predicate RefersToValidNode(ns: seq<Node>, v: Value) {
    v.Str? && FindById(ns, v.s).Some? && FindById(ns, v.s).value.valid != Some(false)
  }

  /**
   * `validateNodeLinkProperty`: an empty value is valid iff the property is not required; a
   * non-empty value with a `validate` function takes its verdict; any other value is valid. A
   * config-node reference that passed so far must then name a valid stored node, and is never
   * empty, falsy or the "_ADD_" placeholder.
   */
  function ValidateProperty(def: PropDef, value: Value, c: Checks, ns: seq<Node>): bool {
    var v := Trimmed(value);
    var valid :=
      if IsEmpty(v) then !def.required
      else if def.hasValidate then c.check(def.key, v)
      else true;
    if valid && ConfigChecked(def, c.types) then
      if Falsy(v) || v == Str("_ADD_") then false
      else RefersToValidNode(ns, v)
    else valid
  }

  /**
   * The verdict case by case: empty values follow `required`, values with a `validate`
   * function follow it, other values pass, and a config reference is valid exactly when it is
   * a non-empty string other than "_ADD_" naming a valid stored node.
   */
  lemma ValidatePropertyCases(def: PropDef, value: Value, c: Checks, ns: seq<Node>)
    ensures var v, valid := Trimmed(value), ValidateProperty(def, value, c, ns);
      (!ConfigChecked(def, c.types) && IsEmpty(v) ==> (valid <==> !def.required)) &&
      (!IsEmpty(v) && def.hasValidate ==> valid == c.check(def.key, v)) &&
      (!ConfigChecked(def, c.types) && !IsEmpty(v) && !def.hasValidate ==> valid) &&
      (ConfigChecked(def, c.types) ==>
        (valid <==> v.Str? && v.s != "" && v.s != "_ADD_" && RefersToValidNode(ns, v)))
  {
    var v := Trimmed(value);
    if ConfigChecked(def, c.types) {
      if IsEmpty(v) {
        assert !ValidateProperty(def, value, c, ns);
      } else if v.Str? && v.s != "" && v.s != "_ADD_" {
        assert !Falsy(v) && v != Str("_ADD_");
      } else if v.Str? {
        assert Falsy(v) || v == Str("_ADD_");
      } else {
        assert !RefersToValidNode(ns, v);
      }
    }
  }

  /** The verdict depends on the value only through its trimmed form. */
  lemma ValidatePropertySameTrim(def: PropDef, a: Value, b: Value, c: Checks, ns: seq<Node>)
    requires Trimmed(a) == Trimmed(b)
    ensures ValidateProperty(def, a, c, ns) == ValidateProperty(def, b, c, ns)
  {
  }

  /** Surrounding white space never changes the verdict on a string value. */
  lemma ValidatePropertyIgnoresSpace(def: PropDef, s: string, c: Checks, ns: seq<Node>)
    ensures ValidateProperty(def, Str(s), c, ns) == ValidateProperty(def, Str(Trim(s)), c, ns)
  {
    TrimIdempotent(s);
    ValidatePropertySameTrim(def, Str(s), Str(Trim(s)), c, ns);
  }

  // ---------------------------------------------------------------- all properties

  /** A property missing from the values is `undefined`. */
  function PropValue(props: map<string, Value>, key: string): Value {
    if key in props then props[key] else Undefined
  }

  /** Every defined property validates against its value. */
  predicate PropertiesValid(defs: seq<PropDef>, props: map<string, Value>, c: Checks, ns: seq<Node>) {
    forall i :: 0 <= i < |defs| ==> ValidateProperty(defs[i], PropValue(props, defs[i].key), c, ns)
  }

  /** `validateNodeLinkProperties`: stops at the first property that fails. */
  method ValidateProperties(defs: seq<PropDef>, props: map<string, Value>, c: Checks, ns: seq<Node>) returns (ok: bool)
    ensures ok <==> PropertiesValid(defs, props, c, ns)
    ensures !ok ==> exists i :: 0 <= i < |defs| && !ValidateProperty(defs[i], PropValue(props, defs[i].key), c, ns)
  {
    var i := 0;
    while i < |defs|
      invariant 0 <= i <= |defs|
      invariant forall j :: 0 <= j < i ==> ValidateProperty(defs[j], PropValue(props, defs[j].key), c, ns)
    {
      if !ValidateProperty(defs[i], PropValue(props, defs[i].key), c, ns) {
        return false;
      }
      i := i + 1;
    }
    return true;
  }

  /** With no definitions every node is valid; one failing definition makes it invalid. */
  lemma PropertiesValidAppend(defs: seq<PropDef>, d: PropDef, props: map<string, Value>, c: Checks, ns: seq<Node>)
    ensures PropertiesValid(defs + [d], props, c, ns) <==>
      PropertiesValid(defs, props, c, ns) && ValidateProperty(d, PropValue(props, d.key), c, ns)
  {
    var ds := defs + [d];
    assert ds[|defs|] == d;
    assert forall i :: 0 <= i < |defs| ==> ds[i] == defs[i];
  }

  // ---------------------------------------------------------------- a node

  /** The credential definitions of a type (`_def.credentials`) and the stored values (`_def._creds`). */
  datatype Credentials = Credentials(defs: seq<PropDef>, values: map<string, Value>)

  /**
   * The verdict of `validateNodeLink` on `n`: its properties, then the type's own `validate`
   * (`custom`, None when the type has none), then its credentials (None when it has none).
   */
  predicate NodeValid(n: Node, custom: Option<bool>, creds: Option<Credentials>, c: Checks, ns: seq<Node>) {
    PropertiesValid(n.def.defaults, n.props, c, ns) &&
    (custom.None? || custom.value) &&
    (creds.None? || PropertiesValid(creds.value.defs, creds.value.values, c, ns))
  }

  /**
   * `validateNodeLink` on the stored node at `k`: its `valid` flag becomes the verdict, and it
   * is marked dirty when the verdict differs from the old flag; nothing else changes.
   */
  method ValidateNode(store: GraphStore, k: int, custom: Option<bool>, creds: Option<Credentials>, c: Checks)
    requires store.Valid() && 0 <= k < |store.nodes|
    modifies store`nodes
    ensures store.Valid()
    ensures var n := old(store.nodes[k]);
      var v := NodeValid(n, custom, creds, c, old(store.nodes));
      store.nodes == old(store.nodes)[k := n.(valid := Some(v), dirty := n.dirty || Some(v) != n.valid)]
  {
    var n := store.nodes[k];
    var oldValue := n.valid;
    var valid := ValidateProperties(n.def.defaults, n.props, c, store.nodes);
    if valid && custom.Some? {
      valid := custom.value;
    }
    if valid && creds.Some? {
      valid := ValidateProperties(creds.value.defs, creds.value.values, c, store.nodes);
    }
    assert valid == NodeValid(n, custom, creds, c, store.nodes);
    var dirty := n.dirty;
    if oldValue != Some(valid) {
      dirty := true;
    }
    ReplaceKeepsValid(store.nodes, store.links, k, n.(valid := Some(valid), dirty := dirty));
    store.nodes := store.nodes[k := n.(valid := Some(valid), dirty := dirty)];
  }

  // ---------------------------------------------------------------- links

  /** The one property a link defines (`defaultLinkConfig().defaults`): a protocol defaulting to "TSCH". */
  const LinkProtocolDef := PropDef("protocol", Str("TSCH"), false, false, None)

  /** A link's property values: its protocol, or undefined when the field is absent. */
  function LinkProps(l: Link): map<string, Value> {
    map["protocol" := if l.protocol.Some? then Str(l.protocol.value) else Undefined]
  }

  /** The protocol property is optional, unchecked and no config reference, so it always validates. */
  lemma LinkPropertiesAlwaysValid(l: Link, c: Checks, ns: seq<Node>)
    ensures PropertiesValid([LinkProtocolDef], LinkProps(l), c, ns)
  {
    var v := PropValue(LinkProps(l), "protocol");
    assert ValidateProperty(LinkProtocolDef, v, c, ns);
  }

  /**
   * `defaultLinkConfig().validate`: the protocol is set and known, both endpoints exist, and the
   * endpoints can be linked with that protocol at their distance.
   */
  predicate LinkValid(ns: seq<Node>, l: Link) {
    l.protocol.Some? && l.protocol.value != "" && Options.GetProtocolByName(l.protocol.value).Some? &&
    FindById(ns, l.source).Some? && FindById(ns, l.target).Some? &&
    CanBeLinkedWith(FindById(ns, l.source).value, FindById(ns, l.target).value, l.protocol.value, true)
  }

  /**
   * A link validates exactly when its protocol is a known one that both endpoints list, the
   * direction is allowed and the target is within the protocol's range of the source.
   */
  lemma LinkValidIff(ns: seq<Node>, l: Link)
    ensures LinkValid(ns, l) <==>
      l.protocol.Some? && l.protocol.value in Options.ProtocolNames() &&
      l.source in Ids(ns) && l.target in Ids(ns) &&
      (var s, d, p := FindById(ns, l.source).value, FindById(ns, l.target).value, l.protocol.value;
       p in s.def.capabilities && p in d.def.capabilities && DirectionOk(s, d, p) &&
       WithinRange(Options.GetProtocolByName(p).value.range, s, d))
  {
  }

  /**
   * Closing the link dialog (Ok or Cancel) on the stored link at `k`: `validateNodeLink` sets
   * its `valid` flag, and a link that fails is removed from the store; nodes are untouched.
   */
  method FinishLinkEdit(store: GraphStore, k: int) returns (removed: bool)
    requires store.Valid() && 0 <= k < |store.links|
    modifies store`links
    ensures store.Valid()
    ensures store.nodes == old(store.nodes)
    ensures removed <==> !LinkValid(old(store.nodes), old(store.links[k]))
    ensures var l := old(store.links[k]);
      store.links == if removed then old(store.links[..k] + store.links[k + 1..])
                     else old(store.links)[k := l.(valid := true, dirty := l.dirty || !l.valid)]
  {
    var l := store.links[k];
    var valid := ValidateProperties([LinkProtocolDef], LinkProps(l), Checks((_, _) => true, {}), store.nodes);
    LinkPropertiesAlwaysValid(l, Checks((_, _) => true, {}), store.nodes);
    valid := LinkValid(store.nodes, l);
    var dirty := l.dirty || l.valid != valid;
    assert store.links[k] in store.links;
    store.links := store.links[k := l.(valid := valid, dirty := dirty)];
    removed := !valid;
    if removed {
      store.links := store.links[..k] + store.links[k + 1..];
      assert forall x :: x in store.links ==> x in old(store.links);
    }
  }

  // ---------------------------------------------------------------- ports

  /** A link that leaves node `id` through a port numbered `outputs` or above. */
  function Dangling(id: string, outputs: int): Link -> bool {
    (l: Link) => l.source == id && l.sourcePort >= outputs
  }

  function NotDangling(id: string, outputs: int): Link -> bool {
    (l: Link) => !(l.source == id && l.sourcePort >= outputs)
  }

  /**
   * The port list after `updateNodeProperties`: exactly `outputs` long, keeping the ports it
   * had and numbering any new port by its index.
   */
  function AdjustedPorts(ports: seq<int>, outputs: nat): (r: seq<int>)
    ensures |r| == outputs
    ensures forall j :: 0 <= j < |r| && j < |ports| ==> r[j] == ports[j]
    ensures forall j :: |ports| <= j < |r| ==> r[j] == j
  {
    if outputs <= |ports| then ports[..outputs] else ports + seq(outputs - |ports|, j => |ports| + j)
  }

  /** The `pop` loop: drops ports from the end until `outputs` are left. */
  method PopPorts(ports: seq<int>, outputs: nat) returns (r: seq<int>)
    requires outputs < |ports|
    ensures r == AdjustedPorts(ports, outputs)
  {
    r := ports;
    while outputs < |r|
      invariant outputs <= |r| <= |ports|
      invariant r == ports[..|r|]
    {
      r := r[..|r| - 1];
    }
  }

  /** The `push` loop: appends the next index until there are `outputs` ports. */
  method PushPorts(ports: seq<int>, outputs: nat) returns (r: seq<int>)
    requires outputs > |ports|
    ensures r == AdjustedPorts(ports, outputs)
  {
    r := ports;
    while outputs > |r|
      invariant |ports| <= |r| <= outputs
      invariant r == ports + seq(|r| - |ports|, j => |ports| + j)
    {
      r := r + [|r|];
    }
  }

  /** The `eachLink` pass: the links leaving node `id` through a port numbered `outputs` or above, in store order. */
  method CollectDangling(ls: seq<Link>, id: string, outputs: int) returns (removed: seq<Link>)
    ensures removed == Filter(Dangling(id, outputs), ls)
  {
    removed := [];
    var i := 0;
    while i < |ls|
      invariant 0 <= i <= |ls|
      invariant removed == Filter(Dangling(id, outputs), ls[..i])
    {
      FilterPrefixStep(Dangling(id, outputs), ls, i);
      if ls[i].source == id && ls[i].sourcePort >= outputs {
        removed := removed + [ls[i]];
      }
      i := i + 1;
    }
    assert ls[..i] == ls;
  }

  /**
   * Dropping the dangling links keeps every endpoint stored, leaves no link of `id` on a port
   * numbered `outputs` or above, and splits the links between kept and removed.
   */
  lemma DropDangling(ns: seq<Node>, ls: seq<Link>, id: string, outputs: int)
    requires EndpointsStored(ns, ls)
    ensures EndpointsStored(ns, Filter(NotDangling(id, outputs), ls))
    ensures forall l :: l in Filter(NotDangling(id, outputs), ls) && l.source == id ==> l.sourcePort < outputs
    ensures |Filter(Dangling(id, outputs), ls)| + |Filter(NotDangling(id, outputs), ls)| == |ls|
  {
    FilterMembers(NotDangling(id, outputs), ls);
    FilterComplementLength(Dangling(id, outputs), NotDangling(id, outputs), ls);
  }

  /**
   * `updateNodeProperties` on the stored node at `k`: marks it dirty and makes its port list as
   * long as its `outputs` (`AdjustedPorts`). When the list shrinks, exactly the links leaving
   * the node through a dropped port are removed and returned, in store order; otherwise no
   * link is removed. Negative `outputs` would make the source loop forever, hence the
   * precondition.
   */
  method UpdateNodeProperties(store: GraphStore, k: int) returns (removed: seq<Link>)
    requires store.Valid() && 0 <= k < |store.nodes| && store.nodes[k].outputs >= 0
    modifies store`nodes, store`links
    ensures store.Valid()
    ensures var n := old(store.nodes[k]);
      store.nodes == old(store.nodes)[k := n.(ports := AdjustedPorts(n.ports, n.outputs), dirty := true)]
    ensures var n := old(store.nodes[k]);
      if n.outputs < |n.ports| then
        removed == Filter(Dangling(n.id, n.outputs), old(store.links)) &&
        store.links == Filter(NotDangling(n.id, n.outputs), old(store.links))
      else removed == [] && store.links == old(store.links)
    ensures var n := old(store.nodes[k]);
      n.outputs < |n.ports| ==> forall l :: l in store.links && l.source == n.id ==> l.sourcePort < n.outputs
    ensures |removed| + |store.links| == |old(store.links)|
  {
    var n := store.nodes[k];
    var ports := n.ports;
    removed := [];
    if n.outputs < |ports| {
      ports := PopPorts(ports, n.outputs);
      var ls := store.links;
      removed := CollectDangling(ls, n.id, n.outputs);
      assert forall x :: NotDangling(n.id, n.outputs)(x) == !Dangling(n.id, n.outputs)(x);
      store.links := SpliceEach(ls, removed, Dangling(n.id, n.outputs), NotDangling(n.id, n.outputs));
      DropDangling(store.nodes, ls, n.id, n.outputs);
    } else if n.outputs > |ports| {
      ports := PushPorts(ports, n.outputs);
    } else {
      assert ports == AdjustedPorts(ports, n.outputs);
    }
    ReplaceKeepsValid(store.nodes, store.links, k, n.(ports := ports, dirty := true));
    store.nodes := store.nodes[k := n.(ports := ports, dirty := true)];
  }

  // ---------------------------------------------------------------- link dialog

  /** Protocol `p` is offered for a link from `s` to `d`, in range (`inRange`) or out of range. */
  predicate OfferedAs(p: Options.Protocol, s: Node, d: Node, inRange: bool) {
    CanBeLinkedWith(s, d, p.nm, false) && WithinRange(p.range, s, d) == inRange
  }

  /** The names of the protocols of `ps` offered as `inRange`, in the order of `ps`. */
  function Offered(ps: seq<Options.Protocol>, s: Node, d: Node, inRange: bool): (r: seq<string>)
    ensures forall x :: x in r ==> exists i :: 0 <= i < |ps| && ps[i].nm == x && OfferedAs(ps[i], s, d, inRange)
    ensures forall i :: 0 <= i < |ps| && OfferedAs(ps[i], s, d, inRange) ==> ps[i].nm in r
  {
    if ps == [] then []
    else
      var ps' := ps[..|ps| - 1];
      var p := ps[|ps| - 1];
      assert forall i :: 0 <= i < |ps'| ==> ps'[i] == ps[i];
      Offered(ps', s, d, inRange) + (if OfferedAs(p, s, d, inRange) then [p.nm] else [])
  }

  /**
   * The option lists of `showEditLinkDialog` over the protocols `ps`: every protocol both ends
   * can use regardless of distance, the in-range ones enabled and the others disabled, each
   * list in the order of `ps`.
   */
  method OfferProtocols(ps: seq<Options.Protocol>, s: Node, d: Node) returns (enabled: seq<string>, disabled: seq<string>)
    ensures enabled == Offered(ps, s, d, true)
    ensures disabled == Offered(ps, s, d, false)
  {
    enabled, disabled := [], [];
    var i := 0;
    while i < |ps|
      invariant 0 <= i <= |ps|
      invariant enabled == Offered(ps[..i], s, d, true)
      invariant disabled == Offered(ps[..i], s, d, false)
    {
      assert ps[..i + 1][..i] == ps[..i];
      var p := ps[i];
      if CanBeLinkedWith(s, d, p.nm, false) {
        if !WithinRange(p.range, s, d) {
          disabled := disabled + [p.nm];
        } else {
          enabled := enabled + [p.nm];
        }
      }
      i := i + 1;
    }
    assert ps[..i] == ps;
  }

  /**
   * `showEditLinkDialog`'s protocol options: the enabled ones are exactly the known protocols a
   * link from `s` to `d` may use (distance included), the disabled ones exactly those it may
   * use but for the distance; both keep the order of `getProtocols()`.
   */
  method ProtocolOptions(s: Node, d: Node) returns (enabled: seq<string>, disabled: seq<string>)
    ensures forall x :: x in enabled <==> x in Options.ProtocolNames() && CanBeLinkedWith(s, d, x, true)
    ensures forall x :: x in disabled <==>
      x in Options.ProtocolNames() && CanBeLinkedWith(s, d, x, false) && !CanBeLinkedWith(s, d, x, true)
  {
    var ps := Options.GetProtocols();
    enabled, disabled := OfferProtocols(ps, s, d);
    OfferedSound(ps, s, d, true);
    OfferedSound(ps, s, d, false);
    OfferedComplete(ps, s, d, true);
    OfferedComplete(ps, s, d, false);
  }

  /** Each entry of the protocol table is found by its own name, so its range is the one the link test uses. */
  lemma OfferedTableEntry(ps: seq<Options.Protocol>, s: Node, d: Node, i: int, b: bool)
    requires ps == Options.ProtocolValues(Options.ProtocolTable) && 0 <= i < |ps|
    ensures ps[i].nm in Options.ProtocolNames()
    ensures OfferedAs(ps[i], s, d, b) <==>
      CanBeLinkedWith(s, d, ps[i].nm, false) && CanBeLinkedWith(s, d, ps[i].nm, true) == b
  {
    Options.ProtocolTableLookup(i);
  }

  /** Every offered name is a known protocol that can be used, in range exactly when offered as such. */
  lemma OfferedSound(ps: seq<Options.Protocol>, s: Node, d: Node, b: bool)
    requires ps == Options.ProtocolValues(Options.ProtocolTable)
    ensures forall x :: x in Offered(ps, s, d, b) ==>
      x in Options.ProtocolNames() && CanBeLinkedWith(s, d, x, false) && CanBeLinkedWith(s, d, x, true) == b
  {
    forall x | x in Offered(ps, s, d, b)
      ensures x in Options.ProtocolNames() && CanBeLinkedWith(s, d, x, false) && CanBeLinkedWith(s, d, x, true) == b
    {
      var i :| 0 <= i < |ps| && ps[i].nm == x && OfferedAs(ps[i], s, d, b);
      OfferedTableEntry(ps, s, d, i, b);
    }
  }

  /** Every known protocol both ends can use is offered, in range exactly when the distance allows it. */
  lemma OfferedComplete(ps: seq<Options.Protocol>, s: Node, d: Node, b: bool)
    requires ps == Options.ProtocolValues(Options.ProtocolTable)
    ensures forall x :: x in Options.ProtocolNames() && CanBeLinkedWith(s, d, x, false) && CanBeLinkedWith(s, d, x, true) == b ==>
      x in Offered(ps, s, d, b)
  {
    forall x | x in Options.ProtocolNames() && CanBeLinkedWith(s, d, x, false) && CanBeLinkedWith(s, d, x, true) == b
      ensures x in Offered(ps, s, d, b)
    {
      var p := Options.GetProtocolByName(x).value;
      Options.ProtocolByNameListed(x);
      var i :| 0 <= i < |ps| && ps[i] == p;
      assert OfferedAs(ps[i], s, d, b);
    }
  }
}
