/**
 * Undirected connectivity over the link list. Both breadth-first searches of the program
 * (`getAllFlowNodes` in src/nodes.js and `recalculateReachability` in src/game.js) follow
 * links in either direction; this module defines what they compute.
 */
module Graph {
  import opened Nodes

  predicate Touches(l: Link, a: string) {
    l.source == a || l.target == a
  }

  /** The far end of `l` seen from `a`; the target side is checked first, as src/game.js does. */
  function Other(l: Link, a: string): string {
    if l.target == a then l.source else l.target
  }

  /** Some link joins `a` and `b`, in either direction. */
  predicate Adjacent(links: seq<Link>, a: string, b: string) {
    exists i :: 0 <= i < |links| &&
      ((links[i].source == a && links[i].target == b) || (links[i].target == a && links[i].source == b))
  }

  /** `p` is a walk along links that starts in `from`. */
  ghost predicate IsPath(links: seq<Link>, from: set<string>, p: seq<string>) {
    |p| > 0 && p[0] in from &&
    forall k :: 0 <= k < |p| - 1 ==> Adjacent(links, p[k], p[k + 1])
  }

  /** `b` can be reached from some id in `from` by following links either way. */
  ghost predicate Connected(links: seq<Link>, from: set<string>, b: string) {
    exists p :: IsPath(links, from, p) && p[|p| - 1] == b
  }

  lemma Adjacency(links: seq<Link>, a: string, b: string)
    ensures Adjacent(links, a, b) <==> Adjacent(links, b, a)
  {
    if Adjacent(links, a, b) {
      var i :| 0 <= i < |links| &&
        ((links[i].source == a && links[i].target == b) || (links[i].target == a && links[i].source == b));
    }
    if Adjacent(links, b, a) {
      var i :| 0 <= i < |links| &&
        ((links[i].source == b && links[i].target == a) || (links[i].target == b && links[i].source == a));
    }
  }

  lemma ConnectedStart(links: seq<Link>, from: set<string>, a: string)
    requires a in from
    ensures Connected(links, from, a)
  {
    assert IsPath(links, from, [a]);
  }

  /** A stored link from a reached id reaches its far end. */
  lemma ConnectedStep(links: seq<Link>, from: set<string>, l: Link, a: string)
    requires Connected(links, from, a)
    requires l in links && Touches(l, a)
    ensures Connected(links, from, Other(l, a))
  {
    var p :| IsPath(links, from, p) && p[|p| - 1] == a;
    var i :| 0 <= i < |links| && links[i] == l;
    var q := p + [Other(l, a)];
    assert Adjacent(links, a, Other(l, a));
    assert forall k :: 0 <= k < |p| ==> q[k] == p[k];
    assert IsPath(links, from, q);
  }

  /**
   * A set of ids that contains `from` and is closed under following any link from any of its
   * members contains every id connected to `from`.
   */
  lemma ClosedContainsConnected(links: seq<Link>, from: set<string>, r: set<string>, b: string)
    requires from <= r
    requires forall i, a :: 0 <= i < |links| && a in r && Touches(links[i], a) ==> Other(links[i], a) in r
    requires Connected(links, from, b)
    ensures b in r
  {
    var p :| IsPath(links, from, p) && p[|p| - 1] == b;
    PathStaysInClosed(links, from, r, p, |p| - 1);
  }

  lemma {:induction false} PathStaysInClosed(links: seq<Link>, from: set<string>, r: set<string>, p: seq<string>, k: nat)
    requires from <= r
    requires forall i, a :: 0 <= i < |links| && a in r && Touches(links[i], a) ==> Other(links[i], a) in r
    requires IsPath(links, from, p) && k < |p|
    ensures p[k] in r
  {
    if k > 0 {
      PathStaysInClosed(links, from, r, p, k - 1);
      var a, c := p[k - 1], p[k];
      assert Adjacent(links, a, c);
      var i :| 0 <= i < |links| &&
        ((links[i].source == a && links[i].target == c) || (links[i].target == a && links[i].source == c));
      assert Touches(links[i], a);
      assert Other(links[i], a) == c || c == a;
    }
  }
}
