/**
 * What the two modes of `main` do to the token streams: read, transform,
 * print. Only the first tree or DAG of the input is read; anything after it
 * is ignored.
 */
module Pipeline {
  import opened Wrappers
  import opened Trees
  import opened Format
  import opened Compression
  import opened Decompression
  import opened RoundTrip

  /** Mode `c`: the DAG tokens printed for the tree read from `input`; `None` when the input runs out. */
  function CompressTokens(input: seq<int>): (out: Option<seq<int>>)
    ensures out.Some? <==> ReadTree(input).Some?
    ensures out.Some? ==> out.value == PrintDag(CompressFrom(ReadTree(input).value.0, []).0)
  {
    match ReadTree(input)
    case None => None
    case Some((t, _)) => Some(PrintDag(CompressFrom(t, []).0))
  }

  /** Mode `d`: the tree tokens printed for the DAG read from `input`; `None` when the input runs out or a back-reference cannot be resolved. */
  function DecompressTokens(input: seq<int>): (out: Option<seq<int>>)
    ensures out.Some? <==> ReadDag(input).Some? && DecompressFrom(ReadDag(input).value.0, []).0.Ok?
    ensures out.Some? ==> out.value == PrintTree(DecompressFrom(ReadDag(input).value.0, []).0.value)
  {
    match ReadDag(input)
    case None => None
    case Some((d, _)) =>
      match DecompressFrom(d, []).0
      case Err(_) => None
      case Ok(t) => Some(PrintTree(t))
  }

  /** Decompressing the printed compression of a printed tree of positive values prints that tree again. */
  lemma TokensRoundTrip(t: Tree, rest: seq<int>)
    requires Positive(t)
    ensures CompressTokens(PrintTree(t) + rest) == Some(PrintDag(CompressFrom(t, []).0))
    ensures DecompressTokens(PrintDag(CompressFrom(t, []).0)) == Some(PrintTree(t))
  {
    PositiveIsNoZero(t);
    ReadPrintedTree(t, rest);
    var d := CompressFrom(t, []).0;
    CompressedIsDagShaped(t, []);
    ReadPrintedDag(d, []);
    assert PrintDag(d) + [] == PrintDag(d);
    PositiveIsNonNegative(t);
    DecompressCompressed(t);
  }

  lemma {:induction false} PositiveIsNoZero(t: Tree)
    requires Positive(t)
    ensures NoZero(t)
  {
    match t
    case Nil =>
    case Node(_, l, r) =>
      PositiveIsNoZero(l);
      PositiveIsNoZero(r);
  }

  lemma {:induction false} PositiveIsNonNegative(t: Tree)
    requires Positive(t)
    ensures NonNegative(t)
  {
    match t
    case Nil =>
    case Node(_, l, r) =>
      PositiveIsNonNegative(l);
      PositiveIsNonNegative(r);
  }

  /**
   * Root 5 with two leaves 3, printed as seven tokens (a trailing token is left
   * unread): the root is catalog entry 0 and the first 3 entry 1, so the second
   * 3 becomes the back-reference -2, and no child tokens follow it.
   */
  lemma TwoEqualLeaves()
    ensures CompressTokens([5, 3, 0, 0, 3, 0, 0, 0]) == Some([5, 3, 0, 0, -2])
    ensures DecompressTokens([5, 3, 0, 0, -2]) == Some([5, 3, 0, 0, 3, 0, 0])
  {
    var leaf := Node(3, Nil, Nil);
    var t := Node(5, leaf, leaf);
    var d := Node(5, leaf, Node(-2, Nil, Nil));
    TwoEqualLeavesTokens();
    TwoEqualLeavesCompressed();
    TokensRoundTrip(t, [0]);
    assert PrintDag(d) == [5, 3, 0, 0, -2] by {
      assert PrintDag(leaf) == [3, 0, 0];
    }
  }

  lemma TwoEqualLeavesTokens()
    ensures PrintTree(Node(5, Node(3, Nil, Nil), Node(3, Nil, Nil))) + [0] == [5, 3, 0, 0, 3, 0, 0, 0]
    ensures PrintTree(Node(5, Node(3, Nil, Nil), Node(3, Nil, Nil))) == [5, 3, 0, 0, 3, 0, 0]
  {
    assert PrintTree(Node(3, Nil, Nil)) == [3, 0, 0];
  }

  lemma TwoEqualLeavesCompressed()
    ensures CompressFrom(Node(5, Node(3, Nil, Nil), Node(3, Nil, Nil)), []).0
         == Node(5, Node(3, Nil, Nil), Node(-2, Nil, Nil))
  {
    var leaf := Node(3, Nil, Nil);
    var t := Node(5, leaf, leaf);
    assert FirstIndex([], t) == -1;
    assert FirstIndex([t], leaf) == -1;
    assert FirstIndex([t, leaf], leaf) == 1;
    assert [t] + [leaf] == [t, leaf];
    assert CompressFrom(leaf, [t]) == (leaf, [t, leaf]);
    assert CompressFrom(leaf, [t, leaf]) == (Node(-2, Nil, Nil), [t, leaf]);
  }
}
