/**
 * `kompresja`: pre-order compression of a tree into a DAG. Every subtree is
 * looked up in a catalog of the original subtrees seen so far; the first
 * isomorphic entry `i` turns the subtree into a childless back-reference with
 * value `-(i+1)`, and a subtree with no match is copied node by node after its
 * original is appended to the catalog.
 */
module Compression {
  import opened Trees

  /** Position of the first catalog entry equal to `t`, or -1 when there is none. */
  function FirstIndex(catalog: seq<Tree>, t: Tree): (i: int)
    ensures -1 <= i < |catalog|
    ensures i == -1 <==> t !in catalog
    ensures 0 <= i ==> catalog[i] == t && t !in catalog[..i]
  {
    if |catalog| == 0 then -1
    else if catalog[0] == t then 0
    else
      var k := FirstIndex(catalog[1..], t);
      assert catalog == [catalog[0]] + catalog[1..];
      if k == -1 then -1
      else
        assert catalog[..k + 1] == [catalog[0]] + catalog[1..][..k];
        k + 1
  }

  /**
   * Compression of `t` against `catalog`: the DAG emitted and the catalog afterwards.
   * This is the specification the imperative Compressor is proved against.
   */
  function CompressFrom(t: Tree, catalog: seq<Tree>): (out: (Tree, seq<Tree>))
    ensures catalog <= out.1
    ensures out.0 == Nil <==> t == Nil
    ensures t == Nil ==> out.1 == catalog
    decreases t
  {
    match t
    case Nil => (Nil, catalog)
    case Node(v, l, r) =>
      var i := FirstIndex(catalog, t);
      if i == -1 then
        var left := CompressFrom(l, catalog + [t]);
        var right := CompressFrom(r, left.1);
        (Node(v, left.0, right.0), right.1)
      else
        (Node(-(i + 1), Nil, Nil), catalog)
  }

  /** The `for` loop of `kompresja` with its `break`: scans the catalog in insertion order with `izo`. */
  method FindEntry(catalog: seq<Tree>, t: Tree) returns (index: int)
    ensures index == FirstIndex(catalog, t)
    ensures index == -1 <==> t !in catalog
    ensures 0 <= index ==> index < |catalog| && catalog[index] == t && t !in catalog[..index]
  {
    index := -1;
    var i := 0;
    while i < |catalog|
      invariant 0 <= i <= |catalog|
      invariant t !in catalog[..i]
    {
      if Izo(t, catalog[i]) {
        index := i;
        break;
      }
      assert catalog[..i + 1] == catalog[..i] + [catalog[i]];
      i := i + 1;
    }
    assert index == -1 ==> catalog[..i] == catalog;
  }

  /** One compression pass; `catalog` replaces the global `tablica` and `count`. */
  class Compressor {
    /** Original subtrees in order of first occurrence. */
    var catalog: seq<Tree>

    constructor ()
      ensures catalog == []
    {
      catalog := [];
    }

    /** `kompresja` itself. */
    method Compress(t: Tree) returns (d: Tree)
      modifies this
      ensures (d, catalog) == CompressFrom(t, old(catalog))
      ensures old(catalog) <= catalog
      decreases t
    {
      if t == Nil {
        return Nil;
      }
      var index := FindEntry(catalog, t);
      if index == -1 {
        catalog := catalog + [t];
        var left := Compress(t.l);
        var right := Compress(t.r);
        d := Node(t.val, left, right);
      } else {
        d := Node(-(index + 1), Nil, Nil);
      }
    }
  }

  /** The `c` mode of `main`: compression with a fresh catalog. */
  method CompressTree(t: Tree) returns (d: Tree)
    ensures d == CompressFrom(t, []).0
  {
    var c := new Compressor();
    d := c.Compress(t);
  }

  /** First match wins: a subtree already in the catalog becomes a reference to its earliest entry, and nothing is appended. */
  lemma FirstMatchWins(t: Tree, catalog: seq<Tree>, i: int)
    requires 0 <= i < |catalog| && catalog[i] == t && t !in catalog[..i]
    requires t != Nil
    ensures CompressFrom(t, catalog) == (Node(-(i + 1), Nil, Nil), catalog)
  {
  }

  /** A subtree with no match keeps its value, and its original is appended right after the existing entries, ahead of anything its children add. */
  lemma AppendsOriginal(t: Tree, catalog: seq<Tree>)
    requires t != Nil && t !in catalog
    ensures CompressFrom(t, catalog).0.val == t.val
    ensures |CompressFrom(t, catalog).1| > |catalog| && CompressFrom(t, catalog).1[|catalog|] == t
  {
  }

  /** The catalog grows by exactly the number of non-reference nodes of the emitted DAG. */
  lemma {:induction false} CatalogGrowth(t: Tree, catalog: seq<Tree>)
    requires NonNegative(t)
    ensures |CompressFrom(t, catalog).1| == |catalog| + CatalogedNodes(CompressFrom(t, catalog).0)
    decreases t
  {
    match t
    case Nil =>
    case Node(v, l, r) =>
      if FirstIndex(catalog, t) == -1 {
        var left := CompressFrom(l, catalog + [t]);
        CatalogGrowth(l, catalog + [t]);
        CatalogGrowth(r, left.1);
      }
  }

  /** Every back-reference emitted is childless and names an entry present when it was emitted: `1 <= -v <= count`. */
  lemma {:induction false} BackRefsBounded(t: Tree, catalog: seq<Tree>)
    requires NonNegative(t)
    ensures BackRefsWithin(CompressFrom(t, catalog).0, |catalog|)
    decreases t
  {
    match t
    case Nil =>
    case Node(v, l, r) =>
      if FirstIndex(catalog, t) == -1 {
        var left := CompressFrom(l, catalog + [t]);
        BackRefsBounded(l, catalog + [t]);
        CatalogGrowth(l, catalog + [t]);
        BackRefsBounded(r, left.1);
      }
  }

  /** No two catalog entries are isomorphic. */
  ghost predicate Distinct(catalog: seq<Tree>)
  {
    forall i, j :: 0 <= i < j < |catalog| ==> catalog[i] != catalog[j]
  }

  /** Compression keeps the catalog free of duplicates: an entry is appended only when nothing isomorphic is there. */
  lemma {:induction false} CatalogStaysDistinct(t: Tree, catalog: seq<Tree>)
    requires Distinct(catalog)
    ensures Distinct(CompressFrom(t, catalog).1)
    decreases t
  {
    match t
    case Nil =>
    case Node(v, l, r) =>
      if FirstIndex(catalog, t) == -1 {
        var left := CompressFrom(l, catalog + [t]);
        CatalogStaysDistinct(l, catalog + [t]);
        CatalogStaysDistinct(r, left.1);
      }
  }

  /** A tree of positive values compresses to a DAG the DAG format can carry. */
  lemma {:induction false} CompressedIsDagShaped(t: Tree, catalog: seq<Tree>)
    requires Positive(t)
    ensures DagShaped(CompressFrom(t, catalog).0)
    decreases t
  {
    match t
    case Nil =>
    case Node(v, l, r) =>
      if FirstIndex(catalog, t) == -1 {
        var left := CompressFrom(l, catalog + [t]);
        CompressedIsDagShaped(l, catalog + [t]);
        CompressedIsDagShaped(r, left.1);
      }
  }
}
