# Binary tree ⇄ DAG compression, modelled in Dafny

`compressTree.c` compresses a binary tree of integers into a directed acyclic
graph and expands such a graph back into the tree. Compression walks the tree
in pre-order. It keeps a catalog of the original subtrees already seen. A
subtree isomorphic to catalog entry `i` (the first such entry) becomes a
childless back-reference node with value `-(i+1)`. Any other node is copied,
its original subtree is appended to the catalog, and its children are
compressed. Decompression walks the DAG in the same pre-order and builds its own
catalog of output nodes. It copies each non-negative node and catalogs it before
expanding its children. Each back-reference becomes a deep copy of the catalog
entry it names. Both directions read and print a line-per-integer pre-order
format. In that format `0` is an absent child, and in the DAG format no children
follow a negative value.

The model:

- `trees.dfy` (module `Trees`) defines trees as values (`Nil | Node(val, l, r)`).
  It holds `Izo` (the isomorphism test), `Copy` (the deep copy) and the shape
  predicates that the other modules share.
- `format.dfy` (module `Format`) holds the four readers and printers. They work
  on `seq<int>` token streams instead of standard input and output.
- `compression.dfy` (module `Compression`) holds `CompressFrom`, a pure
  specification that threads the catalog explicitly. `Compressor` is a class
  whose `catalog` field replaces the global `tablica`/`count`. Its recursive
  `Compress` method is proved equal to `CompressFrom`. `FindEntry` is the
  catalog scan, written as a loop with `break`.
- `decompression.dfy` (module `Decompression`) holds `DecompressFrom` and the
  `Decompressor` class. The C code appends a node's pointer to the catalog
  before the node's children exist. Trees here are values, so the catalog is a
  `seq<Option<Tree>>`. A slot is reserved as `None` before the children are
  expanded and filled once the node is complete.
- `roundtrip.dfy` (module `RoundTrip`) proves that decompression undoes
  compression.
- `pipeline.dfy` (module `Pipeline`) holds what the `c` and `d` modes of `main`
  do to token streams, with the end-to-end round trip and a worked example.

On the tree `5 3 0 0 3 0 0 0` the code behaves as follows. The root is catalog entry 0 and the
first `3` is entry 1, so the second `3` becomes `-2`. No child tokens follow a
negative value, so the DAG is `5 3 0 0 -2`. The tree itself is seven tokens
(`5 3 0 0 3 0 0`), and the eighth `0` is left unread. Decompressing
`5 3 0 0 -2` prints those seven tokens (`Pipeline.TwoEqualLeaves`).

## Model

| member | source | states |
|---|---|---|
| `Trees.Izo` | compressTree.c:101-110 | isomorphic exactly when both trees have the same shape and the same value at every position (structural equality), absent trees included |
| `Trees.Copy` | compressTree.c:154-163 | the copy is isomorphic (equal) to the tree it copies |
| `Format.ReadTree` | compressTree.c:37-47 | a successful read consumes at least one token |
| `Format.ReadDag` | compressTree.c:52-67 | a successful read consumes at least one token |
| `Format.PrintTree` | compressTree.c:72-80 | one token per node plus one `0` per absent child (`2n+1` tokens), the last being `0` |
| `Format.PrintDag` | compressTree.c:85-95 | at least one token, and at most the `2n+1` of the tree format, since no children are printed below a non-positive value |
| `Format.ReadPrintedTree` | compressTree.c:37-80 | reading the tokens printed for a tree without zero values gives back that tree and consumes exactly its tokens |
| `Format.ReadTreeExact` | compressTree.c:37-80 | whatever the tree reader accepts has no zero values, and its printing followed by the unread tokens is the input |
| `Format.ReadPrintedDag` | compressTree.c:52-95 | reading the tokens printed for a DAG (no zero values, childless negative nodes) gives back that DAG and consumes exactly its tokens |
| `Format.ReadDagShaped` | compressTree.c:52-67 | whatever the DAG reader accepts has no zero values and only childless back-references |
| `Format.ReadDagExact` | compressTree.c:52-95 | whatever the DAG reader accepts, printed and followed by the unread tokens, is the input |
| `Compression.FirstIndex` | compressTree.c:119-126 | the scan result is -1 exactly when no entry matches; otherwise it is a matching entry with no match before it |
| `Compression.FindEntry` | compressTree.c:119-126 | the loop with `izo` and `break` returns the first matching catalog index, or -1 when nothing matches |
| `Compression.CompressFrom` | compressTree.c:115-146 | the catalog only grows at its end; the output is absent exactly when the input is; an absent input leaves the catalog unchanged |
| `Compression.Compressor.Compress` | compressTree.c:115-146 | the DAG returned and the new catalog are those of the compression specification applied to the old catalog |
| `Compression.Compressor.constructor` | compressTree.c:31-32 | a pass starts with an empty catalog |
| `Compression.CompressTree` | compressTree.c:209-211 | compression with a fresh catalog returns the specified DAG |
| `Compression.FirstMatchWins` | compressTree.c:119-144 | a subtree equal to catalog entry `i`, with no equal entry before `i`, becomes the childless node `-(i+1)` and appends nothing |
| `Compression.AppendsOriginal` | compressTree.c:128-136 | a subtree with no match keeps its value, and its original is appended at the current end of the catalog, before its children add anything |
| `Compression.CatalogGrowth` | compressTree.c:128-136 | the catalog grows by exactly the number of non-negative nodes of the emitted DAG |
| `Compression.BackRefsBounded` | compressTree.c:121-143 | every emitted back-reference `v` is childless and has `1 <= -v <= count` at the moment it is emitted |
| `Compression.CatalogStaysDistinct` | compressTree.c:119-136 | no two catalog entries become isomorphic |
| `Compression.CompressedIsDagShaped` | compressTree.c:115-146 | a tree of positive values compresses to a DAG with no zero values and childless back-references |
| `Decompression.DecompressFrom` | compressTree.c:172-188 | the catalog only grows, and entries present before the call are never changed |
| `Decompression.Decompressor.Decompress` | compressTree.c:172-188 | the tree or error returned and the new catalog are those of the decompression specification applied to the old catalog |
| `Decompression.Decompressor.constructor` | compressTree.c:31-32 | a pass starts with an empty catalog |
| `Decompression.DecompressDag` | compressTree.c:216-218 | decompression with a fresh catalog returns the specified tree |
| `Decompression.ResolveBackRef` | compressTree.c:175-176 | a back-reference appends nothing; it resolves exactly when `-v-1 < count` and that entry is finished, and then yields a copy of the entry |
| `Decompression.CatalogGrowth` | compressTree.c:177-186 | a successful pass appends one finished entry per non-negative node of the DAG |
| `Decompression.CatalogsOwnNodeFirst` | compressTree.c:178-185 | a non-negative node's own output node sits in the slot it took at the old end of the catalog, before anything its children append |
| `Decompression.PlainTreeUnchanged` | compressTree.c:172-188 | a DAG without back-references decompresses to itself |
| `RoundTrip.RoundTripFrom` | compressTree.c:115-188 | the two passes catalog in the same pre-order: given agreeing catalogs, decompressing the compression of `t` gives `t`, and the catalogs still agree afterwards |
| `RoundTrip.RoundTripFresh` | compressTree.c:128-136 | the unmatched-node case of the round trip: both passes reserve the same new entry, and it is complete once both children are processed |
| `RoundTrip.DecompressCompressed` | compressTree.c:115-188 | with fresh catalogs, decompressing the compression of any tree of non-negative values gives that tree back |
| `Pipeline.CompressTokens` | compressTree.c:209-215 | mode `c` yields output exactly when a whole tree can be read (`None` when the input runs out), and then prints the DAG of its compression with a fresh catalog |
| `Pipeline.DecompressTokens` | compressTree.c:216-222 | mode `d` yields output exactly when a whole DAG can be read and every back-reference resolves (`None` otherwise), and then prints the decompressed tree |
| `Pipeline.TokensRoundTrip` | compressTree.c:205-225 | the tokens of a tree of positive values, compressed in mode `c` and then decompressed in mode `d`, print that tree again |
| `Pipeline.TwoEqualLeaves` | compressTree.c:205-225 | `5 3 0 0 3 0 0 0` compresses to `5 3 0 0 -2`, and `5 3 0 0 -2` decompresses to `5 3 0 0 3 0 0` |

## Left out

- Standard input and output (`scanf`, `printf`) are modelled as `seq<int>` token streams. Truncated input is undefined in the C code; here the readers return `None`. Unparseable tokens are not modelled.
- `main`'s dispatch on `argv[1][0]`, including doing nothing for a missing or unknown argument, is command-line glue. Only the two modes are modelled, as `Pipeline.CompressTokens` and `Pipeline.DecompressTokens`.
- Memory management is not modelled: `zwolnij_pamiec`, `free(tablica)`, and the unchecked results of `malloc` and `realloc`.
- Trees are values, so the model has no node identity. `Trees.Izo` therefore has no counterpart of the pointer-identity shortcut at line 102. Its both-absent branch covers the NULL == NULL case, and identical nodes are isomorphic anyway.
- Heap nodes and aliasing are not modelled. Deep-copy independence, meaning that changing one copy leaves the others unchanged, cannot be stated for values. `Trees.Copy` only states that the copy equals its source.
- The unused `oryg_korzen` parameter of `dekompresja` is dropped.
- A back-reference past the end of the catalog, or to a node still under construction, is undefined behaviour in the C code. The model returns `Err(UnknownEntry)` or `Err(UnfinishedEntry)` instead.
- Integer overflow of `-(indeks+1)` is not modelled, because integers are unbounded.
- Input trees with negative values are outside the round trip: `RoundTrip.DecompressCompressed` requires non-negative values, and `Pipeline.TokensRoundTrip` requires positive ones.
- Running time is not modelled: the catalog scan is quadratic or worse.
