/**
 * The property validators of src/validators.js. The numeric validators see the value after
 * JavaScript's number conversion: `None` stands for a value that converts to NaN or an
 * infinity (what `isFinite` rejects), `Some(x)` for a finite number `x`.
 */
module Validators {
  import opened Wrappers
  import opened Seqs
  import opened Nodes
  import opened Store
  import opened Utils

  /** The integer part of `x`, rounding toward zero. */
  function Trunc(x: real): int {
    if x >= 0.0 then x.Floor else -((-x).Floor)
  }

  /** JavaScript's `x % 1`: the fractional part, carrying the sign of `x`. */
  function Rem1(x: real): (r: real)
    ensures -1.0 < r < 1.0
    ensures x >= 0.0 ==> 0.0 <= r
    ensures x <= 0.0 ==> r <= 0.0
  {
    x - Trunc(x) as real
  }

  /** `v % 1 === 0` holds exactly for the whole numbers. */
  lemma Rem1ZeroIffWhole(x: real)
    ensures Rem1(x) == 0.0 <==> x.Floor as real == x
  {
    if x < 0.0 && Rem1(x) == 0.0 {
      assert x == -((-x).Floor) as real;
      assert (-x).Floor as real == -x;
      assert x.Floor == -((-x).Floor);
    }
  }

  /** `number`. */
  predicate IsNumber(v: Option<real>) {
    v.Some?
  }

  /** `positiveNumber`. */
  predicate PositiveNumber(v: Option<real>) {
    v.Some? && v.value > 0.0
  }

  /** `nonNegNumber`. */
  predicate NonNegNumber(v: Option<real>) {
    v.Some? && v.value >= 0.0
  }

  /** `integer`. */
  predicate Integer(v: Option<real>) {
    v.Some? && Rem1(v.value) == 0.0
  }

  /** `positiveInteger`. */
  predicate PositiveInteger(v: Option<real>) {
    v.Some? && v.value > 0.0 && Rem1(v.value) == 0.0
  }

  /** `nonNegInteger`. */
  predicate NonNegInteger(v: Option<real>) {
    v.Some? && v.value >= 0.0 && Rem1(v.value) == 0.0
  }

  /** The validators weaken along two chains, and `nonNegInteger` is `nonNegNumber` and `integer` together. */
  lemma ValidatorChains(v: Option<real>)
    ensures PositiveInteger(v) ==> PositiveNumber(v) && NonNegInteger(v)
    ensures PositiveNumber(v) ==> NonNegNumber(v)
    ensures NonNegNumber(v) ==> IsNumber(v)
    ensures NonNegInteger(v) ==> Integer(v)
    ensures NonNegInteger(v) <==> NonNegNumber(v) && Integer(v)
    ensures Integer(v) ==> IsNumber(v)
  {
  }

  /** An integer-valid value is a whole number, and every finite whole number is integer-valid. */
  lemma IntegerIsWhole(v: Option<real>)
    ensures Integer(v) <==> v.Some? && v.value.Floor as real == v.value
  {
    if v.Some? {
      Rem1ZeroIffWhole(v.value);
    }
  }

  /** `id`: the value names a stored node. */
  predicate IsId(ns: seq<Node>, v: string) {
    FindById(ns, v).Some?
  }

  /** `id` holds exactly for the ids of the stored nodes. */
  lemma IdIffStored(ns: seq<Node>, v: string)
    ensures IsId(ns, v) <==> v in Ids(ns)
  {
  }

  /** One piece of an `idList` value, trimmed, names a stored node (is `id`-valid, by `IdIffStored`). */
  function PieceIsId(ns: seq<Node>): string -> bool {
    piece => Trim(piece) in Ids(ns)
  }

  /**
   * A `reduce` with accumulator `acc` over `s` that keeps a false accumulator and otherwise
   * replaces it by the test of the next element.
   */
  function AllFrom<T>(test: T -> bool, s: seq<T>, acc: bool): bool {
    if s == [] then acc
    else AllFrom(test, s[1..], if acc then test(s[0]) else acc)
  }

  /** The fold is true iff it starts true and every element passes the test. */
  lemma {:induction false} AllFromIff<T>(test: T -> bool, s: seq<T>, acc: bool)
    ensures AllFrom(test, s, acc) <==> acc && forall k :: 0 <= k < |s| ==> test(s[k])
  {
    if s != [] {
      AllFromIff(test, s[1..], if acc then test(s[0]) else acc);
      assert forall k :: 0 < k < |s| ==> s[k] == s[1..][k - 1];
    }
  }

  /** Once the accumulator is false, the rest of the fold cannot make it true again. */
  lemma {:induction false} AllFromStaysFalse<T>(test: T -> bool, s: seq<T>)
    ensures !AllFrom(test, s, false)
  {
    if s != [] {
      AllFromStaysFalse(test, s[1..]);
    }
  }

  /** `idList`: the comma-separated value, each piece trimmed, names only stored nodes. */
  predicate IdList(ns: seq<Node>, v: string) {
    AllFrom(PieceIsId(ns), SplitOn(v, ','), true)
  }

  /** Every trimmed piece names a stored node. */
  predicate AllPiecesStored(ns: seq<Node>, pieces: seq<string>) {
    forall k :: 0 <= k < |pieces| ==> Trim(pieces[k]) in Ids(ns)
  }

  /** `idList(v)` holds iff every comma-separated, trimmed piece of `v` is a stored id. */
  lemma IdListIff(ns: seq<Node>, v: string)
    ensures IdList(ns, v) <==> AllPiecesStored(ns, SplitOn(v, ','))
  {
    var pieces := SplitOn(v, ',');
    AllFromIff(PieceIsId(ns), pieces, true);
    assert AllFrom(PieceIsId(ns), pieces, true) <==> AllPiecesStored(ns, pieces);
  }

  /** The empty value is a list of one empty id, which no stored node normally has. */
  lemma IdListEmpty(ns: seq<Node>)
    ensures IdList(ns, "") <==> "" in Ids(ns)
  {
    var pieces := SplitOn("", ',');
    assert pieces == [""];
    assert pieces[1..] == [];
    assert Trim("") == "";
    assert AllFrom(PieceIsId(ns), pieces, true) == AllFrom(PieceIsId(ns), [], PieceIsId(ns)(""));
  }
}
