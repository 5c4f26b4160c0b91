# ncdu-import in Dafny

A verified model of the core of `ncdu-import`. The tool turns a flat
listing of file paths and sizes into the nested export that the `ncdu`
disk-usage viewer loads with `ncdu -f`. The input is a CSV with a header,
or the tab-separated output of `du`. The model covers the three stages of
that pipeline:

- **Record importer** (`import.dfy`, module `Import`). `read_csv` resolves
  the path and size columns. In du mode these are the fixed fields 1 and 0.
  Otherwise each is the first header position holding the column name. Each
  record then becomes a `SizedFile`. A record fails when it lacks a needed
  field or its size is not an unsigned integer, and the first failure aborts
  the whole import. `str::parse::<usize>` is modelled exactly (`ParseUsize`):
  an optional `+`, one or more ASCII digits, and a value of at most
  2^64 - 1.
- **Tree builder** (`filetree.dfy`, module `FileTree`).
  - `Tree` is a mutable class with a `size` and a map of children, one per
    path segment. `Tree.Add` changes it in place, recursing into the child
    named by the first segment. `Tree.From` folds `Add` over the input.
  - Each method is proved against a pure function on the tree's abstract
    value `TreeValue`: `Insert` for one file, `FromFiles` for the fold.
  - The properties of the builder are lemmas about those functions. Every
    visited node is zeroed, and only leaves keep a size. Nothing is ever
    removed. Every input path exists in the result. A directory wins over a
    leaf of the same name in either order. A file whose path already
    occurred anywhere earlier in the input is ignored, so the first file at
    a path wins.
- **Export serializer** (`ncdu.dfy`, module `Ncdu`).
  - A childless node becomes a bare info block `{name, dsize}`. A node with
    children becomes an array: its own info block, then the entries of its
    children in ascending name order.
  - The root is named `ROOT`. The export carries the constant versions 1 and
    2 and the program's metadata.
  - The lemmas show that there is one info block per tree node, carrying
    that node's size, in both directions. They also show that children
    appear in name order and that an empty tree exports as a bare `ROOT`
    block.

`strings.dfy` (module `Strings`) holds what the core borrows from Rust's
standard library, and one device of the model's own:
- `split_once('/')`.
- The order of `String` keys in a `BTreeMap`. Dafny's `char` is a Unicode
  scalar value, and comparing code points orders strings exactly as
  comparing their UTF-8 bytes does. `Below` computes the order one
  character at a time and is proved equal to the textbook definition
  `Lexicographic`.
- `Segments`, the chain of segments that repeated `split_once('/')` walks
  down a path. The source has no such function; the model uses it to state
  where a file ends up in the tree.

`wrappers.dfy` holds `Option` and `Result`.

Two behaviours of the code differ from what a tree of tagged File and Dir
nodes, with later files overwriting earlier ones, would do. The model
follows the code:
- **Duplicate leaves.** The code inserts leaves with `or_insert`
  (src/filetree.rs:50), so the first leaf at a path wins and the result
  depends on input order. `RepeatedPathIgnored` proves the first half for
  every input. `DuplicateLeavesFirstWins` shows that order matters.
- **File and directory nodes.** The code has a single node type; a
  directory is a node whose size was zeroed on the way through
  (src/filetree.rs:37). When a deeper path arrives, the code keeps the old
  leaf node and zeroes its size, where a Dir-node design would replace it
  with a fresh directory. `LeafBecomesDirectory` shows that for every file
  added below a leaf, both give the same node.

## Model

| member | source | states |
|---|---|---|
| `Strings.SplitOnce` | src/filetree.rs:38 | `split_once('/')`: what follows the cut is strictly shorter than the input, which is what the recursion of `add` descends on; `SplitOnceSpec` and `SplitOnceJoin` characterise the cut |
| `Strings.SplitOnceSpec` | src/filetree.rs:38 | `split_once('/')` fails exactly when there is no '/', and otherwise returns the '/'-free text before the first '/' and the rest, which glue back to the input |
| `Strings.SplitOnceJoin` | src/filetree.rs:38 | splitting `car + "/" + cdr` with a '/'-free `car` gives back exactly `(car, cdr)` |
| `Strings.Segments` | src/filetree.rs:38-47 | the segment chain of a path that repeated splitting walks: at least one segment, none containing '/', joined back with '/' they give the path |
| `Strings.SegmentsOfJoin` | src/filetree.rs:38-47 | segmenting a '/'-joined list of '/'-free segments gives back that list |
| `Strings.Below` | src/ncdu.rs:52-55 | the `<` of `String` keys, which orders a `BTreeMap`: `a` is below `b` exactly when `a` is a proper prefix of `b` or has the smaller character at the first position where they differ |
| `Strings.LexicographicStep` | src/ncdu.rs:52-55 | the textbook lexicographic order is decided by the first characters, then by the rest |
| `Strings.BelowTotal` | src/ncdu.rs:52-55 | the key order of a `BTreeMap<String, _>` is total: of two distinct strings one is below the other |
| `Strings.BelowTransitive` | src/ncdu.rs:52-55 | the key order is transitive |
| `Strings.SortedKeys` | src/ncdu.rs:52-55 | the iteration order of a `BTreeMap`'s keys: strictly ascending, the same keys as the map, each once |
| `Strings.AscendingUnique` | src/ncdu.rs:52-55 | two strictly ascending enumerations of the same keys are equal, so the iteration order is determined by the key set alone |
| `FileTree.Insert` | src/filetree.rs:34-58 | the value `add` leaves in a node: its size is 0 (src/filetree.rs:37), no child name is lost and it has at least one child; the lemmas below describe the rest |
| `FileTree.InsertKeepsDirectoriesUnsized` | src/filetree.rs:34-58 | if only childless nodes carry a size before `add`, the same holds after it, at every depth |
| `FileTree.InsertLastSegment` | src/filetree.rs:49-56 | a '/'-free path adds one leaf with the file's size when the name is absent, and leaves the children as they were when the name is present (a leaf or a directory) |
| `FileTree.InsertDescends` | src/filetree.rs:38-48 | for a path written `car + "/" + cdr` with a '/'-free `car`, the node is zeroed and only the child at `car` changes: it becomes the result of adding `cdr` to that child, or to a new empty node |
| `FileTree.InsertTouchesOnlyHead` | src/filetree.rs:38-48 | for a path written `car + "/" + cdr` with a '/'-free `car`, the child names gain exactly `car`, and every other child is unchanged |
| `FileTree.InsertKeepsPaths` | src/filetree.rs:41-55 | nothing is removed: every node reachable before `add` is reachable after it |
| `FileTree.InsertAtPath` | src/filetree.rs:34-58 | after `add`, the node at the file's full path is a new leaf of the file's size if there was none, and otherwise is the node that was there, unchanged |
| `FileTree.InsertMakesDirectories` | src/filetree.rs:37-48 | every proper prefix of the added path names a node of size 0 whose children include the next segment |
| `FileTree.InsertSamePathTwice` | src/filetree.rs:50-55 | adding a second file at the same path changes nothing: the first leaf wins |
| `FileTree.FromFiles` | src/filetree.rs:60-66 | the value `Tree::from` builds: its root has size 0, also for empty input, and it has children exactly when the input is not empty |
| `FileTree.FromFilesStep` | src/filetree.rs:62-64 | one more iteration of the loop is one more `add` |
| `FileTree.FromFilesDirectoriesUnsized` | src/filetree.rs:60-66 | in the built tree every node with children has size 0 |
| `FileTree.FromFilesHasEveryPath` | src/filetree.rs:60-66 | every input file's full segment chain exists in the built tree |
| `FileTree.InsertPresentPath` | src/filetree.rs:34-58 | in a tree built by `add` (root and directories of size 0), adding a path that already names a node changes nothing |
| `FileTree.RepeatedPathIgnored` | src/filetree.rs:50-66 | appending a file whose path equals that of any earlier input file leaves the built tree unchanged: the first file at a path wins |
| `FileTree.LeafBecomesDirectory` | src/filetree.rs:37-56 | adding any file below a leaf gives the same node as adding it to a fresh empty node: the leaf's old size leaves no trace |
| `FileTree.DirectoryReplacesEarlierLeaf` | src/filetree.rs:95-114 | `[d:a, d/f:b]` builds the same tree as `[d/f:b]`: the leaf `d` becomes the directory above `f` |
| `FileTree.LaterLeafUnderDirectoryIgnored` | src/filetree.rs:74-93 | `[d/f:b, d:a]` builds the same tree as `[d/f:b]`: the later leaf is ignored |
| `FileTree.DuplicateLeavesFirstWins` | src/filetree.rs:50-55 | two leaves at one path keep the first one's size, so swapping them gives a different tree when the sizes differ |
| `FileTree.Tree.constructor` | src/filetree.rs:25-31 | `Tree::default()`: a valid fresh tree whose value is size 0 with no children |
| `FileTree.Tree.OfSize` | src/filetree.rs:51-54 | `Tree { size, children: Default::default() }`: a valid fresh leaf of that size |
| `FileTree.Tree.Add` | src/filetree.rs:34-58 | `Tree::add` keeps the tree valid (children own disjoint parts of the heap), allocates only fresh nodes, and changes the tree's value to `Insert(old value, sf)` |
| `FileTree.Tree.ZeroSize` | src/filetree.rs:37 | `self.size = 0`: the size becomes 0 and nothing else changes |
| `FileTree.Tree.AddInChild` | src/filetree.rs:40-48 | the `Some((car, cdr))` arm after zeroing: the tree stays valid, only fresh objects are added, and its value becomes `Insert(value before add, sf)` |
| `FileTree.Tree.AddBelow` | src/filetree.rs:40-48 | the recursive step: the child at `car` gets `cdr` added, the node's other children are untouched, and the tree stays valid |
| `FileTree.Tree.EntryOrDefault` | src/filetree.rs:41-43 | `entry(car).or_insert(Default::default())`: returns the existing child at `car`, or a fresh empty one now stored there; the other children are unchanged |
| `FileTree.Tree.NewChild` | src/filetree.rs:41-43 | `or_insert(Default::default())` on an absent key: a fresh, valid empty node stored at `car`, disjoint from its siblings; size and other children unchanged |
| `FileTree.Tree.EntryOrLeaf` | src/filetree.rs:50-55 | `entry(name).or_insert(leaf)`: adds a fresh leaf of the given size only where `name` is absent |
| `FileTree.Tree.From` | src/filetree.rs:60-66 | `Tree::from`: a fresh valid tree whose value is `FromFiles(files)`, the in-order insertion of every file into an empty tree |
| `Ncdu.FromTreeAndName` | src/ncdu.rs:43-58 | the entry's info block is `{name, dsize: tree.size}`; the entry is a bare block exactly when the tree has no children, and otherwise an array of 1 + (number of children) entries |
| `Ncdu.ChildEntries` | src/ncdu.rs:51-56 | there is one child entry per child |
| `Ncdu.ExportOf` | src/ncdu.rs:61-79 | the export carries major version 1, minor version 2, metadata ("ncdu-import", "1.0", 1699656086), and a root entry whose info block is named "ROOT" with the tree's size |
| `Ncdu.DirectoryEntries` | src/ncdu.rs:44-57 | for a node with children and any ascending enumeration `keys` of their names, the entry is the header followed by the children's entries, the i-th being the entry of `keys[i]` and its subtree |
| `Ncdu.EmptyTreeExport` | src/ncdu.rs:48-50 | the empty tree exports as the bare info block `{"ROOT", 0}`, not as an array |
| `Ncdu.BlockCount` | src/ncdu.rs:43-58 | an entry has exactly as many info blocks as its tree has nodes |
| `Ncdu.DirectoryBlocks` | src/ncdu.rs:51-57 | the info blocks of a directory's entry are its own block together with the blocks of its children's entries |
| `Ncdu.BlocksAreNodes` | src/ncdu.rs:43-58 | every info block of an entry is the block of some node of the tree: named by the last segment of that node's path, with that node's size |
| `Ncdu.NodesAreBlocks` | src/ncdu.rs:43-58 | every node of the tree has its info block in the entry, named by the last segment of its path and carrying its size |
| `Ncdu.NestedExample` | src/ncdu.rs:43-58 | the single file `a/b` of size 5 exports as `[ROOT:0, [a:0, b:5]]` |
| `Ncdu.ChildrenInNameOrder` | src/ncdu.rs:52-55 | two children with names `x` below `y` are listed as `x` then `y`, whatever order they were added in |
| `Import.Position` | src/import.rs:46 | `position(|f| f == col)`: absent exactly when no header equals `col`, and otherwise the first index holding `col` |
| `Import.ColumnIndex` | src/import.rs:42-48 | `get_col_idx`: a `MissingColumn` error naming the column exactly when it is absent, and otherwise its first position |
| `Import.ParseUsize` | src/import.rs:69 | a successful parse of the size field never exceeds the largest 64-bit `usize` |
| `Import.ParseDecimal` | src/import.rs:69 | every `usize` written in decimal, with or without a leading '+', parses back to itself |
| `Import.OverflowRejected` | src/import.rs:69 | 2^64, one past the largest `usize`, is rejected |
| `Import.ParseUsizeShape` | src/import.rs:69 | a successful parse read an optional '+' followed by one or more digits, and yields their value |
| `Import.ParseUsizeAccepts` | src/import.rs:69 | an optional '+' followed by one or more digits whose value fits in a `usize` parses to that value, leading zeros included |
| `Import.LeadingZerosAccepted` | src/import.rs:69 | `"007"` parses to 7 |
| `Import.ParseUsizeRejects` | src/import.rs:69 | the empty string, a lone '+' and anything starting with '-' are rejected |
| `Import.RowToFile` | src/import.rs:59-71 | a record converts exactly when it has both fields and the size parses, yielding its path field and parsed size; a missing field is `MissingFields(line)`, and otherwise the error is `InvalidSize` of the size field |
| `Import.MapRows` | src/import.rs:56-72 | the records mapped and collected into one `Result`: on success one file per record; a failure needs at least one record and is never a missing column |
| `Import.MapRowsOk` | src/import.rs:56-72 | collecting into a `Result` succeeds exactly when every record converts, and then yields one file per record, in record order |
| `Import.MapRowsFirstError` | src/import.rs:56-72 | on failure, the error is that of the first record that does not convert |
| `Import.ReadCsv` | src/import.rs:27-72 | `read_csv` on split records: in du mode one file per record, otherwise the header is consumed and there is one file per remaining record; a `MissingColumn` error only arises outside du mode and names one of the two requested columns, absent from the header |
| `Import.MissingColumnFails` | src/import.rs:50-54 | outside du mode a path column absent from the header fails with its name; with the path column present, an absent size column fails with its name |
| `Import.ReadCsvRows` | src/import.rs:50-72 | with both columns present, the data records after the header are converted with the columns' first positions, and on success file i has record i's path field |
| `Import.DuModeIgnoresColumns` | src/import.rs:50-51 | in du mode the column names do not matter: every record is data, with the path from field 1 and the size from field 0 |
| `Import.UniformRecordsHaveAllFields` | src/import.rs:62-68 | when every record is as long as the header (what the CSV reader enforces), an import outside du mode never fails with `MissingFields` |
| `Import.DuExample` | src/import.rs:50-71 | the du line `100`, `some/path` becomes `SizedFile("some/path", 100)` |

## Left out

- `src/main.rs` is not part of this model. It covers command-line parsing, reading the input from a file or standard input, and writing the JSON to a file or standard output; all of it is I/O.
- CSV tokenising, quoting and delimiters are the CSV reader's work. Records enter the model already split into fields. Errors the reader raises are not modelled: `record?` at src/import.rs:60, a failing `headers()` read, and its rejection of records whose length differs from the first record's. `UniformRecordsHaveAllFields` states the consequence of that length check instead.
- Rendering the export as JSON text (serde, `#[serde(untagged)]`) is left out. The model stops at the `Export` and `Entry` values, whose shape is that of the JSON arrays and objects.
- Error messages are not modelled. Failures are the `ImportError` values `MissingColumn`, `MissingFields` and `InvalidSize`. `InvalidSize` carries the offending field text rather than Rust's `ParseIntError` kind.
- `usize` is taken to be 64 bits wide. Sizes are `nat` elsewhere, because the core does no arithmetic on them.
- `Ncdu.FromTreeAndName` and `Ncdu.ExportOf` take the tree's abstract value (`Tree.Value`) rather than walking the heap objects. In Rust the tree is moved into the export by value, and the serializer does not mutate it.
- `FileTree.Tree.Add`'s frame: Rust ownership guarantees that children do not alias. The model states this as disjoint footprints (`Repr`) in `Tree.Valid()`.

