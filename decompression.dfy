/**
 * `dekompresja`: pre-order expansion of a DAG into a tree. Every node with a
 * non-negative value is copied and cataloged before its children are
 * expanded; a back-reference `v < 0` becomes a copy of catalog entry `-v-1`.
 * A cataloged node's children do not exist yet when its slot is taken, so a
 * slot is reserved as `None` and filled once the node is complete.
 */
module Decompression {
  import opened Wrappers
  import opened Trees

  /** A back-reference that names no entry yet, or an entry whose subtree is still being built. */
  datatype DecodeError = UnknownEntry(index: int) | UnfinishedEntry(index: int)

  datatype Result<+T> = Ok(value: T) | Err(error: DecodeError)

  /**
   * Decompression of `d` against `catalog`: the tree (or the bad reference)
   * and the catalog afterwards. Entries present on entry are never changed.
   * This is the specification the imperative Decompressor is proved against.
   */
  function DecompressFrom(d: Tree, catalog: seq<Option<Tree>>): (out: (Result<Tree>, seq<Option<Tree>>))
    ensures |catalog| <= |out.1| && out.1[..|catalog|] == catalog
    decreases d
  {
    match d
    case Nil => (Ok(Nil), catalog)
    case Node(v, l, r) =>
      if v < 0 then
        var i := -v - 1;
        if |catalog| <= i then (Err(UnknownEntry(i)), catalog)
        else if catalog[i].None? then (Err(UnfinishedEntry(i)), catalog)
        else (Ok(Copy(catalog[i].value)), catalog)
      else
        var k := |catalog|;
        var left := DecompressFrom(l, catalog + [None]);
        assert left.1[..k] == catalog by {
          assert left.1[..k] == left.1[..k + 1][..k];
        }
        if left.0.Err? then left
        else
          var right := DecompressFrom(r, left.1);
          if right.0.Err? then right
          else
            var t := Node(v, left.0.value, right.0.value);
            assert right.1[k := Some(t)][..k] == right.1[..k];
            (Ok(t), right.1[k := Some(t)])
  }

  /** One decompression pass; `catalog` replaces the global `tablica` and `count`. */
  class Decompressor {
    /** Output subtrees in order of first materialisation; `None` marks a reserved slot whose node is unfinished. */
    var catalog: seq<Option<Tree>>

    constructor ()
      ensures catalog == []
    {
      catalog := [];
    }

    /** `dekompresja` itself (without the unused root parameter). */
    method Decompress(d: Tree) returns (res: Result<Tree>)
      modifies this
      ensures (res, catalog) == DecompressFrom(d, old(catalog))
      ensures catalog[..|old(catalog)|] == old(catalog)
      decreases d
    {
      match d
      case Nil =>
        res := Ok(Nil);
      case Node(v, l, r) =>
        if v < 0 {
          var i := -v - 1;
          if |catalog| <= i {
            res := Err(UnknownEntry(i));
          } else if catalog[i].None? {
            res := Err(UnfinishedEntry(i));
          } else {
            res := Ok(Copy(catalog[i].value));
          }
        } else {
          var k := |catalog|;
          catalog := catalog + [None];
          var left := Decompress(l);
          if left.Err? {
            return left;
          }
          var right := Decompress(r);
          if right.Err? {
            return right;
          }
          var t := Node(v, left.value, right.value);
          catalog := catalog[k := Some(t)];
          res := Ok(t);
        }
    }
  }

  /** The `d` mode of `main`: decompression with a fresh catalog. */
  method DecompressDag(d: Tree) returns (res: Result<Tree>)
    ensures res == DecompressFrom(d, []).0
  {
    var dc := new Decompressor();
    res := dc.Decompress(d);
  }

  /** A back-reference appends nothing, and it resolves exactly when it names a finished entry, to a copy of that entry. */
  lemma ResolveBackRef(v: int, l: Tree, r: Tree, catalog: seq<Option<Tree>>)
    requires v < 0
    ensures DecompressFrom(Node(v, l, r), catalog).1 == catalog
    ensures DecompressFrom(Node(v, l, r), catalog).0.Ok?
        <==> -v - 1 < |catalog| && catalog[-v - 1].Some?
    ensures DecompressFrom(Node(v, l, r), catalog).0.Ok?
        ==> DecompressFrom(Node(v, l, r), catalog).0.value == catalog[-v - 1].value
  {
  }

  /** A successful pass appends one finished entry per non-reference node of the DAG. */
  lemma {:induction false} CatalogGrowth(d: Tree, catalog: seq<Option<Tree>>)
    requires DecompressFrom(d, catalog).0.Ok?
    ensures |DecompressFrom(d, catalog).1| == |catalog| + CatalogedNodes(d)
    ensures forall i :: |catalog| <= i < |DecompressFrom(d, catalog).1| ==> DecompressFrom(d, catalog).1[i].Some?
    decreases d
  {
    match d
    case Nil =>
    case Node(v, l, r) =>
      if v >= 0 {
        var left := DecompressFrom(l, catalog + [None]);
        CatalogGrowth(l, catalog + [None]);
        CatalogGrowth(r, left.1);
      }
  }

  /**
   * A node with a non-negative value catalogs its own output node, at the slot
   * it reserved at the old end of the catalog, ahead of anything its children add.
   */
  lemma CatalogsOwnNodeFirst(d: Tree, catalog: seq<Option<Tree>>)
    requires d.Node? && d.val >= 0 && DecompressFrom(d, catalog).0.Ok?
    ensures |catalog| < |DecompressFrom(d, catalog).1|
    ensures DecompressFrom(d, catalog).1[|catalog|] == Some(DecompressFrom(d, catalog).0.value)
  {
  }

  /** A DAG without back-references decompresses to itself. */
  lemma {:induction false} PlainTreeUnchanged(d: Tree, catalog: seq<Option<Tree>>)
    requires NonNegative(d)
    ensures DecompressFrom(d, catalog).0 == Ok(d)
    decreases d
  {
    match d
    case Nil =>
    case Node(v, l, r) =>
      var left := DecompressFrom(l, catalog + [None]);
      PlainTreeUnchanged(l, catalog + [None]);
      PlainTreeUnchanged(r, left.1);
  }
}
