/**
 * The application shell of src/main.js: the validity guard and the flag reset of `save`, the
 * text of the suggestion dialog, and the application options.
 */
module Application {
  import opened Wrappers
  import opened Seqs
  import opened Nodes
  import opened Store

  // ---------------------------------------------------------------- save(): the guard

  /** `node.name`: the `name` property, undefined when the node has none. */
  function NameOf(n: Node): Value {
    if "name" in n.props then n.props["name"] else Undefined
  }

  /** The names of the nodes of type "unknown", in store order, repeats included. */
  function UnknownNameList(ns: seq<Node>): (r: seq<Value>)
    ensures forall v :: v in r <==> exists k :: 0 <= k < |ns| && ns[k].typ == "unknown" && NameOf(ns[k]) == v
  {
    if ns == [] then []
    else
      var last := ns[|ns| - 1];
      UnknownNameList(ns[..|ns| - 1]) + (if last.typ == "unknown" then [NameOf(last)] else [])
  }

  /** A node that blocks an unforced save: not validated as valid (`!node.valid`), or of type "unknown". */
  predicate Blocks(n: Node) {
    n.valid != Some(true) || n.typ == "unknown"
  }

  /** Some stored node blocks an unforced save. */
  predicate SomeNodeBlocks(ns: seq<Node>) {
    exists k :: 0 <= k < |ns| && Blocks(ns[k])
  }

  /** Every link is valid. */
  predicate LinksValid(ls: seq<Link>) {
    forall j :: 0 <= j < |ls| ==> ls[j].valid
  }

  /**
   * The guard of `save()` without `force`: the pass over the nodes raises `invalid` for a node
   * that is not valid or of type "unknown" and lists the unknown names, each once; the links are
   * folded only when no node raised it. The save is refused exactly when a node blocks it or a
   * link is not valid, and the list holds each unknown node's name once, in first-seen order.
   */
  method SaveGuard(ns: seq<Node>, ls: seq<Link>) returns (invalid: bool, unknownNodes: seq<Value>)
    ensures invalid <==> SomeNodeBlocks(ns) || !LinksValid(ls)
    ensures unknownNodes == Dedup(UnknownNameList(ns))
  {
    invalid := false;
    unknownNodes := [];
    var i := 0;
    while i < |ns|
      invariant 0 <= i <= |ns|
      invariant invalid <==> SomeNodeBlocks(ns[..i])
      invariant unknownNodes == Dedup(UnknownNameList(ns[..i]))
    {
      var node := ns[i];
      assert ns[..i + 1][..i] == ns[..i];
      invalid := invalid || node.valid != Some(true);
      if node.typ == "unknown" {
        if NameOf(node) !in unknownNodes {
          unknownNodes := unknownNodes + [NameOf(node)];
        }
        invalid := true;
      }
      DedupStep(UnknownNameList(ns[..i]), node);
      BlocksStep(ns, i);
      i := i + 1;
    }
    assert ns[..i] == ns;
    if !invalid {
      var acc := true;
      var j := 0;
      while j < |ls|
        invariant 0 <= j <= |ls|
        invariant acc <==> LinksValid(ls[..j])
      {
        acc := acc && ls[j].valid;
        j := j + 1;
      }
      assert ls[..j] == ls;
      invalid := !acc;
    }
  }

  /** The guard's list after one more node. */
  lemma DedupStep(names: seq<Value>, node: Node)
    ensures Dedup(names + (if node.typ == "unknown" then [NameOf(node)] else [])) ==
      if node.typ == "unknown" then AddIfAbsent(Dedup(names), NameOf(node)) else Dedup(names)
  {
    if node.typ != "unknown" {
      assert names + [] == names;
    } else {
      var s := names + [NameOf(node)];
      assert s[..|s| - 1] == names;
    }
  }

  /** The guard's flag after one more node. */
  lemma BlocksStep(ns: seq<Node>, i: int)
    requires 0 <= i < |ns|
    ensures SomeNodeBlocks(ns[..i + 1]) <==> SomeNodeBlocks(ns[..i]) || Blocks(ns[i])
  {
    var a, b := ns[..i + 1], ns[..i];
    assert a[i] == ns[i];
    assert forall k :: 0 <= k < i ==> a[k] == b[k];
  }

  /** The refusal lists a name exactly when some unknown node has it, with no repeats, in first-seen order. */
  lemma UnknownListSound(ns: seq<Node>)
    ensures NoDup(Dedup(UnknownNameList(ns)))
    ensures forall v :: v in Dedup(UnknownNameList(ns)) <==>
      exists k :: 0 <= k < |ns| && ns[k].typ == "unknown" && NameOf(ns[k]) == v
    ensures var names := UnknownNameList(ns); var d := Dedup(names);
      forall i, j :: 0 <= i < j < |d| ==> IndexOf(names, d[i]) < IndexOf(names, d[j])
  {
    DedupFirstAppearanceOrder(UnknownNameList(ns));
  }

  /** The list is empty exactly when no node has type "unknown"; an unknown node always refuses the save. */
  lemma UnknownRefuses(ns: seq<Node>, ls: seq<Link>)
    ensures Dedup(UnknownNameList(ns)) == [] <==> forall k :: 0 <= k < |ns| ==> ns[k].typ != "unknown"
    ensures (exists k :: 0 <= k < |ns| && ns[k].typ == "unknown") ==> SomeNodeBlocks(ns)
  {
    var d := Dedup(UnknownNameList(ns));
    if d != [] {
      assert d[0] in d;
    }
    if exists k :: 0 <= k < |ns| && ns[k].typ == "unknown" {
      var k :| 0 <= k < |ns| && ns[k].typ == "unknown";
      assert NameOf(ns[k]) in UnknownNameList(ns);
      assert Blocks(ns[k]);
    }
  }

  // ---------------------------------------------------------------- save(): after saving

  /** A node after a save: a `changed` node becomes dirty and no longer changed. */
  function Committed(n: Node): (r: Node)
    ensures !r.changed && r.id == n.id
    ensures n.changed ==> r == n.(dirty := true, changed := false)
    ensures !n.changed ==> r == n
  {
    if n.changed then n.(dirty := true, changed := false) else n
  }

  /** A second reset finds nothing left to do. */
  lemma CommittedIdempotent(n: Node)
    ensures Committed(Committed(n)) == Committed(n)
  {
  }

  /**
   * The local branch of `save()` after the guard: every `changed` node becomes dirty and not
   * changed; every other node, and every link, is left as it was.
   */
  method CommitChanges(store: GraphStore)
    requires store.Valid()
    modifies store`nodes
    ensures store.Valid() && Ids(store.nodes) == Ids(old(store.nodes))
    ensures |store.nodes| == |old(store.nodes)|
    ensures forall k :: 0 <= k < |store.nodes| ==> store.nodes[k] == Committed(old(store.nodes[k]))
  {
    ghost var ns0 := store.nodes;
    var i := 0;
    while i < |store.nodes|
      invariant 0 <= i <= |store.nodes| == |ns0|
      invariant store.Valid() && Ids(store.nodes) == Ids(ns0)
      invariant forall k :: 0 <= k < i ==> store.nodes[k] == Committed(ns0[k])
      invariant forall k :: i <= k < |ns0| ==> store.nodes[k] == ns0[k]
    {
      var node := store.nodes[i];
      if node.changed {
        var n := node.(dirty := true, changed := false);
        ReplaceKeepsValid(store.nodes, store.links, i, n);
        store.nodes := store.nodes[i := n];
      }
      i := i + 1;
    }
  }

  /** What `save()` did. */
  datatype SaveOutcome = Refused(unknownNodes: seq<Value>) | Saved

  /**
   * `save(force)` with the settings the application installs (a read-only server, so the flow is
   * saved locally): without `force`, a node that blocks or a link that is not valid refuses the
   * save and nothing changes; otherwise the changed nodes are committed.
   */
  method Save(store: GraphStore, force: bool) returns (outcome: SaveOutcome)
    requires store.Valid()
    modifies store`nodes
    ensures store.Valid()
    ensures outcome.Refused? <==> !force && (SomeNodeBlocks(old(store.nodes)) || !LinksValid(store.links))
    ensures outcome.Refused? ==>
      outcome.unknownNodes == Dedup(UnknownNameList(old(store.nodes))) && store.nodes == old(store.nodes)
    ensures outcome.Saved? ==>
      |store.nodes| == |old(store.nodes)| &&
      forall k :: 0 <= k < |store.nodes| ==> store.nodes[k] == Committed(old(store.nodes[k]))
  {
    if !force {
      var invalid, unknownNodes := SaveGuard(store.nodes, store.links);
      if invalid {
        return Refused(unknownNodes);
      }
    }
    CommitChanges(store);
    outcome := Saved;
  }

  // ---------------------------------------------------------------- showSuggestion()

  /**
   * The text of the suggestion dialog for advice of type `kind` and text `text`: a problem in
   * bold with '!', anything else with '.'.
   */
  function SuggestionHtml(kind: Option<string>, text: string): (r: string)
    ensures |r| > 0
  {
    if kind == Some("Problem") then "<strong>Problem: </strong>" + text + "!" else text + "."
  }

  /**
   * The dialog text tells problems from suggestions by its last character whenever the text
   * itself does not end in '!', and the advice text is read back by dropping that character and,
   * for a problem, the bold prefix.
   */
  lemma SuggestionHtmlReadBack(kind: Option<string>, text: string)
    ensures var r := SuggestionHtml(kind, text);
      (r[|r| - 1] == '!' <==> kind == Some("Problem")) && (r[|r| - 1] == '.' <==> kind != Some("Problem"))
    ensures var r := SuggestionHtml(kind, text);
      kind == Some("Problem") ==> r[..26] == "<strong>Problem: </strong>" && r[26..|r| - 1] == text
    ensures var r := SuggestionHtml(kind, text); kind != Some("Problem") ==> r[..|r| - 1] == text
  {
    var r := SuggestionHtml(kind, text);
    if kind == Some("Problem") {
      assert |"<strong>Problem: </strong>"| == 26;
      assert r[..26] == "<strong>Problem: </strong>";
    }
  }

  // ---------------------------------------------------------------- options

  /** The options `resetOptions` installs. */
  function DefaultOptions(): (r: map<string, Value>)
    ensures r.Keys == {"testOption"} && r["testOption"] == Bool(false)
  {
    map["testOption" := Bool(false)]
  }

  /** `options` after copying each property of `global` into it, in order. */
  function Overlay(options: map<string, Value>, global: seq<(string, Value)>): map<string, Value>
    decreases |global|
  {
    if global == [] then options
    else
      var last := global[|global| - 1];
      Overlay(options, global[..|global| - 1])[last.0 := last.1]
  }

  /** The property at `i` of `global` is named `k`. */
  predicate NamesKey(global: seq<(string, Value)>, i: int, k: string)
    requires 0 <= i < |global|
  {
    global[i].0 == k
  }

  /** A key is present after the copy iff it was before or `global` names it. */
  lemma {:induction false} OverlayHas(options: map<string, Value>, global: seq<(string, Value)>, k: string)
    ensures k in Overlay(options, global) <==> k in options || exists i :: 0 <= i < |global| && NamesKey(global, i, k)
    decreases |global|
  {
    if global != [] {
      var pre := global[..|global| - 1];
      OverlayHas(options, pre, k);
      forall i | 0 <= i < |pre| ensures NamesKey(global, i, k) == NamesKey(pre, i, k) {
        assert global[i] == pre[i];
      }
      if global[|global| - 1].0 == k {
        assert NamesKey(global, |global| - 1, k);
      }
    }
  }

  /** A key that `global` does not name keeps its value. */
  lemma {:induction false} OverlayKeeps(options: map<string, Value>, global: seq<(string, Value)>, k: string)
    requires k in options && forall i :: 0 <= i < |global| ==> !NamesKey(global, i, k)
    ensures k in Overlay(options, global) && Overlay(options, global)[k] == options[k]
    decreases |global|
  {
    if global != [] {
      var pre := global[..|global| - 1];
      assert !NamesKey(global, |global| - 1, k);
      forall i | 0 <= i < |pre| ensures !NamesKey(pre, i, k) {
        assert global[i] == pre[i] && !NamesKey(global, i, k);
      }
      OverlayKeeps(options, pre, k);
    }
  }

  /** A key that `global` names takes the value of the last property that names it. */
  lemma {:induction false} OverlayLastWins(options: map<string, Value>, global: seq<(string, Value)>, k: string, i: int)
    requires 0 <= i < |global| && NamesKey(global, i, k)
    requires forall j :: i < j < |global| ==> !NamesKey(global, j, k)
    ensures k in Overlay(options, global) && Overlay(options, global)[k] == global[i].1
    decreases |global|
  {
    var pre := global[..|global| - 1];
    if i < |global| - 1 {
      assert !NamesKey(global, |global| - 1, k);
      assert NamesKey(pre, i, k) by { assert pre[i] == global[i]; }
      forall j | i < j < |pre| ensures !NamesKey(pre, j, k) {
        assert global[j] == pre[j] && !NamesKey(global, j, k);
      }
      OverlayLastWins(options, pre, k, i);
    }
  }

  /** Copying the same properties a second time changes nothing. */
  lemma {:induction false} OverlayIdempotent(options: map<string, Value>, global: seq<(string, Value)>)
    ensures Overlay(Overlay(options, global), global) == Overlay(options, global)
  {
    var once := Overlay(options, global);
    var twice := Overlay(once, global);
    forall k ensures k in twice <==> k in once {
      OverlayHas(once, global, k);
      OverlayHas(options, global, k);
    }
    forall k | k in twice ensures twice[k] == once[k] {
      if exists i :: 0 <= i < |global| && NamesKey(global, i, k) {
        var i := LastNaming(global, k);
        OverlayLastWins(once, global, k, i);
        OverlayLastWins(options, global, k, i);
      } else {
        OverlayHas(once, global, k);
        OverlayKeeps(once, global, k);
      }
    }
  }

  /** The last position of `global` that names `k`. */
  lemma LastNaming(global: seq<(string, Value)>, k: string) returns (i: int)
    requires exists i :: 0 <= i < |global| && NamesKey(global, i, k)
    ensures 0 <= i < |global| && NamesKey(global, i, k)
    ensures forall j :: i < j < |global| ==> !NamesKey(global, j, k)
  {
    i := |global| - 1;
    while !NamesKey(global, i, k)
      invariant 0 <= i < |global|
      invariant forall j :: i < j < |global| ==> !NamesKey(global, j, k)
      invariant exists q :: 0 <= q <= i && NamesKey(global, q, k)
      decreases i
    {
      i := i - 1;
    }
  }

  /** The application's options (`getOptions`). */
  class AppOptions {
    var options: map<string, Value>

    constructor()
      ensures options == DefaultOptions()
    {
      options := map["testOption" := Bool(false)];
    }

    /** `resetOptions()`. */
    method ResetOptions()
      modifies this
      ensures options == DefaultOptions()
    {
      options := map["testOption" := Bool(false)];
    }

    /** `importOptions(globalOptions)`: each property of `global`, in order, is copied into the options. */
    method ImportOptions(global: seq<(string, Value)>)
      modifies this
      ensures options == Overlay(old(options), global)
    {
      ghost var o0 := options;
      var i := 0;
      while i < |global|
        invariant 0 <= i <= |global|
        invariant options == Overlay(o0, global[..i])
      {
        assert global[..i + 1][..i] == global[..i];
        options := options[global[i].0 := global[i].1];
        i := i + 1;
      }
      assert global[..i] == global;
    }

    /** `exportOptions(globalOptions)`: the options become `global`. */
    function ExportOptions(): map<string, Value>
      reads this
    {
      options
    }
  }
}
