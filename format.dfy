/**
 * The two line-per-integer pre-order text formats, over sequences of integers
 * instead of standard input and output. In the tree format `0` is an absent
 * child; in the DAG format a negative value is a back-reference and no
 * children follow it.
 */
module Format {
  import opened Wrappers
  import opened Trees

  /** `czytaj_drzewo`: reads one tree and returns it with the unread tokens; `None` when the input runs out. */
  function ReadTree(s: seq<int>): (r: Option<(Tree, seq<int>)>)
    ensures r.Some? ==> |r.value.1| < |s|
    decreases |s|
  {
    if |s| == 0 then None
    else if s[0] == 0 then Some((Nil, s[1..]))
    else
      match ReadTree(s[1..])
      case None => None
      case Some((l, s1)) =>
        match ReadTree(s1)
        case None => None
        case Some((r, s2)) => Some((Node(s[0], l, r), s2))
  }

  /**
   * `drukuj_drzewo`: the tokens printed for `t`: one per node and one `0` per
   * absent child, the last token always closing a branch with `0`.
   */
  function PrintTree(t: Tree): (s: seq<int>)
    ensures |s| == 2 * Size(t) + 1
    ensures s[|s| - 1] == 0
  {
    match t
    case Nil => [0]
    case Node(v, l, r) => [v] + PrintTree(l) + PrintTree(r)
  }

  /** `czytaj_dag`: like ReadTree, except that a negative value is a childless node. */
  function ReadDag(s: seq<int>): (r: Option<(Tree, seq<int>)>)
    ensures r.Some? ==> |r.value.1| < |s|
    decreases |s|
  {
    if |s| == 0 then None
    else if s[0] == 0 then Some((Nil, s[1..]))
    else if s[0] < 0 then Some((Node(s[0], Nil, Nil), s[1..]))
    else
      match ReadDag(s[1..])
      case None => None
      case Some((l, s1)) =>
        match ReadDag(s1)
        case None => None
        case Some((r, s2)) => Some((Node(s[0], l, r), s2))
  }

  /**
   * `drukuj_dag`: the tokens printed for `d`; children are printed only below a
   * positive value, so the output is never longer than the tree format's.
   */
  function PrintDag(d: Tree): (s: seq<int>)
    ensures 1 <= |s| <= 2 * Size(d) + 1
  {
    match d
    case Nil => [0]
    case Node(v, l, r) => [v] + (if v > 0 then PrintDag(l) + PrintDag(r) else [])
  }

  /** Reading what PrintTree printed gives back the tree and consumes exactly its tokens. */
  lemma {:induction false} ReadPrintedTree(t: Tree, rest: seq<int>)
    requires NoZero(t)
    ensures ReadTree(PrintTree(t) + rest) == Some((t, rest))
  {
    match t
    case Nil =>
    case Node(v, l, r) =>
      assert PrintTree(t) + rest == [v] + (PrintTree(l) + (PrintTree(r) + rest));
      ReadPrintedTree(l, PrintTree(r) + rest);
      ReadPrintedTree(r, rest);
  }

  /** Conversely, whatever ReadTree accepts is the printing of the tree it returns followed by the unread tokens. */
  lemma {:induction false} ReadTreeExact(s: seq<int>)
    requires ReadTree(s).Some?
    ensures NoZero(ReadTree(s).value.0)
    ensures PrintTree(ReadTree(s).value.0) + ReadTree(s).value.1 == s
    decreases |s|
  {
    if s[0] != 0 {
      var first := ReadTree(s[1..]).value;
      var second := ReadTree(first.1).value;
      assert ReadTree(s).value == (Node(s[0], first.0, second.0), second.1);
      ReadTreeExact(s[1..]);
      ReadTreeExact(first.1);
      Reassemble(s, PrintTree(first.0), first.1, PrintTree(second.0), second.1);
      assert PrintTree(Node(s[0], first.0, second.0)) == [s[0]] + PrintTree(first.0) + PrintTree(second.0);
    }
  }

  /** A node's tokens followed by the rest: its value, then its two children's tokens, then what follows them. */
  lemma Reassemble(s: seq<int>, left: seq<int>, mid: seq<int>, right: seq<int>, rest: seq<int>)
    requires |s| > 0 && s[1..] == left + mid && mid == right + rest
    ensures [s[0]] + left + right + rest == s
  {
    assert s == [s[0]] + s[1..];
  }

  /** Reading what PrintDag printed gives back the DAG and consumes exactly its tokens. */
  lemma {:induction false} ReadPrintedDag(d: Tree, rest: seq<int>)
    requires DagShaped(d)
    ensures ReadDag(PrintDag(d) + rest) == Some((d, rest))
  {
    match d
    case Nil =>
    case Node(v, l, r) =>
      if v > 0 {
        assert PrintDag(d) + rest == [v] + (PrintDag(l) + (PrintDag(r) + rest));
        ReadPrintedDag(l, PrintDag(r) + rest);
        ReadPrintedDag(r, rest);
      } else {
        assert PrintDag(d) + rest == [v] + rest;
      }
  }

  /** Whatever ReadDag accepts is DAG-shaped: no zero values, and every back-reference childless. */
  lemma {:induction false} ReadDagShaped(s: seq<int>)
    requires ReadDag(s).Some?
    ensures DagShaped(ReadDag(s).value.0)
    decreases |s|
  {
    if s[0] > 0 {
      var first := ReadDag(s[1..]).value;
      ReadDagShaped(s[1..]);
      ReadDagShaped(first.1);
    }
  }

  /** Conversely, whatever ReadDag accepts is the printing of the DAG it returns followed by the unread tokens. */
  lemma {:induction false} ReadDagExact(s: seq<int>)
    requires ReadDag(s).Some?
    ensures PrintDag(ReadDag(s).value.0) + ReadDag(s).value.1 == s
    decreases |s|
  {
    if s[0] > 0 {
      var first := ReadDag(s[1..]).value;
      var second := ReadDag(first.1).value;
      assert ReadDag(s).value == (Node(s[0], first.0, second.0), second.1);
      ReadDagExact(s[1..]);
      ReadDagExact(first.1);
      Reassemble(s, PrintDag(first.0), first.1, PrintDag(second.0), second.1);
      assert PrintDag(Node(s[0], first.0, second.0)) == [s[0]] + PrintDag(first.0) + PrintDag(second.0);
    } else if s[0] < 0 {
      assert ReadDag(s).value == (Node(s[0], Nil, Nil), s[1..]);
      assert PrintDag(Node(s[0], Nil, Nil)) == [s[0]];
      assert s == [s[0]] + s[1..];
    }
  }
}
