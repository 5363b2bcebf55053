/**
 * Binary trees as values (the `drzewo` record of compressTree.c), the
 * isomorphism test and the deep copy, and the shape notions that the
 * compressor and the decompressor share.
 */
module Trees {

  /** A possibly absent node: `Nil` is a NULL child, written `0` in the text formats. */
  datatype Tree = Nil | Node(val: int, l: Tree, r: Tree)

  /** Number of nodes. */
  function Size(t: Tree): (n: nat)
  {
    match t
    case Nil => 0
    case Node(_, l, r) => 1 + Size(l) + Size(r)
  }

  /** Every value in `t` is at least zero: no node can be mistaken for a back-reference. */
  predicate NonNegative(t: Tree)
  {
    match t
    case Nil => true
    case Node(v, l, r) => v >= 0 && NonNegative(l) && NonNegative(r)
  }

  /** Every value in `t` is strictly positive: the trees the text format can carry losslessly and that compress to a well-formed DAG. */
  predicate Positive(t: Tree)
  {
    match t
    case Nil => true
    case Node(v, l, r) => v > 0 && Positive(l) && Positive(r)
  }

  /** No node holds the value 0, which the text formats reserve for an absent child. */
  predicate NoZero(t: Tree)
  {
    match t
    case Nil => true
    case Node(v, l, r) => v != 0 && NoZero(l) && NoZero(r)
  }

  /** A DAG in the shape the DAG format carries: no zero values, and every negative (back-reference) node is childless. */
  predicate DagShaped(d: Tree)
  {
    match d
    case Nil => true
    case Node(v, l, r) =>
      v != 0 && (v < 0 ==> l == Nil && r == Nil) && DagShaped(l) && DagShaped(r)
  }

  /**
   * Number of catalog entries a pass over the DAG `d` creates: the nodes with a
   * non-negative value, reached without descending below a back-reference.
   */
  function CatalogedNodes(d: Tree): (n: nat)
  {
    match d
    case Nil => 0
    case Node(v, l, r) => if v < 0 then 0 else 1 + CatalogedNodes(l) + CatalogedNodes(r)
  }

  /**
   * Every back-reference in `d` is childless and names one of the catalog entries
   * that exist when a pre-order pass reaches it, the pass starting with `n` entries.
   */
  predicate BackRefsWithin(d: Tree, n: int)
  {
    match d
    case Nil => true
    case Node(v, l, r) =>
      if v < 0 then 1 <= -v <= n && l == Nil && r == Nil
      else BackRefsWithin(l, n + 1) && BackRefsWithin(r, n + 1 + CatalogedNodes(l))
  }

  /**
   * `izo`: two subtrees are isomorphic exactly when they have the same shape and
   * the same value at every position, i.e. when they are equal as values.
   */
  function Izo(a: Tree, b: Tree): (same: bool)
    ensures same <==> a == b
  {
    if a.Nil? && b.Nil? then true
    else if a.Nil? || b.Nil? then false
    else a.val == b.val && Izo(a.l, b.l) && Izo(a.r, b.r)
  }

  /** `uzupelnij_miejsce`: a node-by-node copy of `t`, isomorphic to it. */
  function Copy(t: Tree): (c: Tree)
    ensures c == t
  {
    match t
    case Nil => Nil
    case Node(v, l, r) => Node(v, Copy(l), Copy(r))
  }
}
