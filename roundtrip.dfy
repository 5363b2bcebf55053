/**
 * Decompression undoes compression. Both passes catalog the same nodes in the
 * same pre-order, so a back-reference emitted against the compressor's
 * catalog names, in the decompressor's catalog, a finished copy of the same
 * subtree.
 */
module RoundTrip {
  import opened Wrappers
  import opened Trees
  import opened Compression
  import opened Decompression

  /**
   * How the decompressor's catalog stands to the compressor's at the same point
   * of the two passes: entry by entry the same subtree, except for slots still
   * reserved, which belong to nodes under construction and so hold originals
   * larger than `bound` nodes.
   */
  ghost predicate Agree(catalog: seq<Tree>, slots: seq<Option<Tree>>, bound: nat)
  {
    |catalog| == |slots| &&
    forall i :: 0 <= i < |catalog| ==>
      slots[i] == Some(catalog[i]) || (slots[i] == None && Size(catalog[i]) > bound)
  }

  /**
   * After a pass, the decompressor's catalog `slots'` extends `slots`, leaves it
   * unchanged, and holds a finished copy of every entry the compressor appended
   * to reach `catalog'`.
   */
  ghost predicate Completes(slots: seq<Option<Tree>>, catalog': seq<Tree>, slots': seq<Option<Tree>>)
  {
    |catalog'| == |slots'| && |slots| <= |slots'| && slots'[..|slots|] == slots &&
    forall i :: |slots| <= i < |catalog'| ==> slots'[i] == Some(catalog'[i])
  }

  /** Agreement survives a pass that completes the catalogs. */
  lemma AgreeAfter(catalog: seq<Tree>, slots: seq<Option<Tree>>, bound: nat, catalog': seq<Tree>, slots': seq<Option<Tree>>)
    requires Agree(catalog, slots, bound) && catalog <= catalog' && Completes(slots, catalog', slots')
    ensures Agree(catalog', slots', bound)
  {
    forall j | 0 <= j < |catalog'|
      ensures slots'[j] == Some(catalog'[j]) || (slots'[j] == None && Size(catalog'[j]) > bound)
    {
      if j < |slots| {
        assert slots'[j] == slots'[..|slots|][j];
      }
    }
  }

  /** Two passes in a row complete the catalogs as one. */
  lemma CompletesTrans(s0: seq<Option<Tree>>, c1: seq<Tree>, s1: seq<Option<Tree>>, c2: seq<Tree>, s2: seq<Option<Tree>>)
    requires Completes(s0, c1, s1) && c1 <= c2 && Completes(s1, c2, s2)
    ensures Completes(s0, c2, s2)
  {
    assert s2[..|s0|] == s2[..|s1|][..|s0|];
    forall j | |s0| <= j < |c2|
      ensures s2[j] == Some(c2[j])
    {
      if j < |s1| {
        assert s2[j] == s2[..|s1|][j];
      }
    }
  }

  /** Filling the slot reserved at position `|slots|` with its finished subtree completes the catalogs. */
  lemma PatchCompletes(slots: seq<Option<Tree>>, t: Tree, catalog': seq<Tree>, slots': seq<Option<Tree>>)
    requires Completes(slots + [None], catalog', slots')
    requires |slots| < |catalog'| && catalog'[|slots|] == t
    ensures Completes(slots, catalog', slots'[|slots| := Some(t)])
  {
    var k := |slots|;
    assert slots'[..k] == slots'[..k + 1][..k];
    assert slots'[k := Some(t)][..k] == slots'[..k];
  }

  /**
   * Decompressing what compression emitted against agreeing catalogs gives back
   * `t`, and leaves the catalogs agreeing on everything appended.
   */
  lemma {:induction false} RoundTripFrom(t: Tree, catalog: seq<Tree>, slots: seq<Option<Tree>>, bound: nat)
    requires NonNegative(t) && Size(t) <= bound && Agree(catalog, slots, bound)
    ensures DecompressFrom(CompressFrom(t, catalog).0, slots).0 == Ok(t)
    ensures Completes(slots, CompressFrom(t, catalog).1, DecompressFrom(CompressFrom(t, catalog).0, slots).1)
    decreases t, 1
  {
    match t
    case Nil =>
    case Node(v, l, r) =>
      var i := FirstIndex(catalog, t);
      if i == -1 {
        RoundTripFresh(t, catalog, slots, bound);
      } else {
        assert catalog[i] == t;
      }
  }

  /** The case of RoundTripFrom where `t` is not yet in the catalog and both passes reserve a new entry. */
  lemma {:induction false} RoundTripFresh(t: Tree, catalog: seq<Tree>, slots: seq<Option<Tree>>, bound: nat)
    requires t.Node? && FirstIndex(catalog, t) == -1
    requires NonNegative(t) && Size(t) <= bound && Agree(catalog, slots, bound)
    ensures DecompressFrom(CompressFrom(t, catalog).0, slots).0 == Ok(t)
    ensures Completes(slots, CompressFrom(t, catalog).1, DecompressFrom(CompressFrom(t, catalog).0, slots).1)
    decreases t, 0
  {
    var inner := Size(t) - 1;
    var cat1, slots1 := catalog + [t], slots + [None];
    assert Agree(cat1, slots1, inner);
    RoundTripFrom(t.l, cat1, slots1, inner);
    var left := CompressFrom(t.l, cat1);
    var dleft := DecompressFrom(left.0, slots1);
    AgreeAfter(cat1, slots1, inner, left.1, dleft.1);
    RoundTripFrom(t.r, left.1, dleft.1, inner);
    var right := CompressFrom(t.r, left.1);
    var dright := DecompressFrom(right.0, dleft.1);
    CompletesTrans(slots1, left.1, dleft.1, right.1, dright.1);
    assert right.1[|slots|] == t by {
      assert right.1[|slots|] == left.1[|slots|] == cat1[|slots|];
    }
    PatchCompletes(slots, t, right.1, dright.1);
  }

  /** `dekompresja(kompresja(T))` is `T` for every tree of non-negative values, with fresh catalogs. */
  lemma DecompressCompressed(t: Tree)
    requires NonNegative(t)
    ensures DecompressFrom(CompressFrom(t, []).0, []).0 == Ok(t)
  {
    RoundTripFrom(t, [], [], Size(t));
  }
}
