/**
 * The export serializer of src/ncdu.rs: a finished tree becomes the value
 * that is rendered as ncdu's JSON export format. A node without children is
 * a bare info block; a node with children is an array whose first element is
 * its own info block, followed by the entries of its children in ascending
 * name order (the iteration order of the `BTreeMap`). Rendering that value
 * as JSON text is not part of this model.
 */
module Ncdu {
  import opened Wrappers
  import opened Strings
  import opened FileTree

  newtype u16 = x: int | 0 <= x < 0x1_0000

  /** One info block of the export: a name and the node's own size. */
  datatype InfoBlock = InfoBlock(name: string, dsize: nat)

  /** An export entry: a bare info block (a file), or an array of entries (a directory). */
  datatype Entry = IB(block: InfoBlock) | Vec(entries: seq<Entry>)

  datatype Metadata = Metadata(progname: string, progver: string, timestamp: nat)

  /** The top-level export array: versions, metadata, and the root entry. */
  datatype Export = Export(majorVer: u16, minorVer: u16, metadata: Metadata, root: Entry)

  const BIRTH_TIMESTAMP: nat := 1699656086
  const PROGNAME: string := "ncdu-import"
  const PROGVER: string := "1.0"
  const MAJOR_VER: u16 := 1
  const MINOR_VER: u16 := 2

  /** The info block an entry stands for: the bare block, or the first element of a directory array. */
  function Header(e: Entry): Option<InfoBlock>
  {
    match e
    case IB(b) => Some(b)
    case Vec(es) => if es != [] && es[0].IB? then Some(es[0].block) else None
  }

  /** `Entry::from_tree_and_name`. */
  function FromTreeAndName(name: string, tree: TreeValue): (e: Entry)
    ensures Header(e) == Some(InfoBlock(name, tree.size))
    ensures e.IB? <==> tree.children == map[]
    ensures e.Vec? ==> |e.entries| == 1 + |tree.children|
    decreases tree, 1
  {
    var header := IB(InfoBlock(name, tree.size));
    if tree.children == map[] then header else Vec([header] + ChildEntries(tree))
  }

  /** The entries of a node's children, one per child, in ascending name order. */
  function ChildEntries(tree: TreeValue): (es: seq<Entry>)
    ensures |es| == |tree.children|
    decreases tree, 0
  {
    var keys := SortedKeys(tree.children.Keys);
    seq(|keys|, i requires 0 <= i < |keys| => FromTreeAndName(keys[i], tree.children[keys[i]]))
  }

  /** `From<Tree> for Export`: the root entry is named "ROOT", the other fields are constants. */
  function ExportOf(tree: TreeValue): (x: Export)
    ensures x.majorVer == 1 && x.minorVer == 2
    ensures x.metadata == Metadata("ncdu-import", "1.0", 1699656086)
    ensures Header(x.root) == Some(InfoBlock("ROOT", tree.size))
  {
    Export(MAJOR_VER, MINOR_VER, Metadata(PROGNAME, PROGVER, BIRTH_TIMESTAMP), FromTreeAndName("ROOT", tree))
  }

  /**
   * The children's entries follow the header in ascending name order: for
   * any ascending enumeration `keys` of the child names, entry i + 1 is the
   * entry of the child named keys[i].
   */
  lemma DirectoryEntries(name: string, tree: TreeValue, keys: seq<string>)
    requires tree.children != map[]
    requires Ascending(keys)
    requires forall k :: k in keys <==> k in tree.children
    ensures FromTreeAndName(name, tree) == Vec([IB(InfoBlock(name, tree.size))] + ChildEntries(tree))
    ensures |ChildEntries(tree)| == |keys|
    ensures forall i :: 0 <= i < |keys| ==> ChildEntries(tree)[i] == FromTreeAndName(keys[i], tree.children[keys[i]])
  {
    AscendingUnique(keys, SortedKeys(tree.children.Keys));
  }

  /** The empty tree exports as the bare info block of ROOT, not as a one-element array. */
  lemma EmptyTreeExport()
    ensures ExportOf(Empty).root == IB(InfoBlock("ROOT", 0))
  {
  }

  // ----- the info blocks of an entry, in document order -----

  /** Every info block of an entry, in the order they appear in the export. */
  function Blocks(e: Entry): seq<InfoBlock>
    decreases e, 1
  {
    match e
    case IB(b) => [b]
    case Vec(es) => BlocksAll(es)
  }

  function BlocksAll(es: seq<Entry>): seq<InfoBlock>
    decreases es, 0
  {
    if es == [] then [] else Blocks(es[0]) + BlocksAll(es[1..])
  }

  lemma {:induction false} BlocksAllMember(es: seq<Entry>, b: InfoBlock)
    ensures b in BlocksAll(es) <==> exists j :: 0 <= j < |es| && b in Blocks(es[j])
  {
    if es != [] {
      BlocksAllMember(es[1..], b);
      if b in BlocksAll(es[1..]) {
        var j :| 0 <= j < |es[1..]| && b in Blocks(es[1..][j]);
        assert b in Blocks(es[j + 1]);
      }
      if exists j :: 0 <= j < |es| && b in Blocks(es[j]) {
        var j :| 0 <= j < |es| && b in Blocks(es[j]);
        if j > 0 {
          assert es[1..][j - 1] == es[j];
        }
      }
    }
  }

  function Sum(xs: seq<nat>): nat
  {
    if xs == [] then 0 else xs[0] + Sum(xs[1..])
  }

  lemma {:induction false} BlocksAllLength(es: seq<Entry>)
    ensures |BlocksAll(es)| == Sum(seq(|es|, i requires 0 <= i < |es| => |Blocks(es[i])|))
  {
    if es != [] {
      BlocksAllLength(es[1..]);
      assert seq(|es|, i requires 0 <= i < |es| => |Blocks(es[i])|)[1..] ==
             seq(|es[1..]|, i requires 0 <= i < |es[1..]| => |Blocks(es[1..][i])|);
    }
  }

  /** The number of nodes of a tree: itself and all of its descendants. */
  function NodeCount(tree: TreeValue): nat
    decreases tree
  {
    var keys := SortedKeys(tree.children.Keys);
    1 + Sum(seq(|keys|, i requires 0 <= i < |keys| => NodeCount(tree.children[keys[i]])))
  }

  /** There is one info block per node of the tree. */
  lemma {:induction false} BlockCount(name: string, tree: TreeValue)
    ensures |Blocks(FromTreeAndName(name, tree))| == NodeCount(tree)
    decreases tree
  {
    var keys := SortedKeys(tree.children.Keys);
    var counts := seq(|keys|, i requires 0 <= i < |keys| => NodeCount(tree.children[keys[i]]));
    if tree.children == map[] {
      assert keys == [] by {
        if keys != [] {
          HeadIn(keys);
          assert false;
        }
      }
    } else {
      var es := ChildEntries(tree);
      DirectoryBlocksUnfold(name, tree);
      BlocksAllLength(es);
      var lengths := seq(|es|, i requires 0 <= i < |es| => |Blocks(es[i])|);
      forall i | 0 <= i < |keys|
        ensures lengths[i] == counts[i]
      {
        BlockCount(keys[i], tree.children[keys[i]]);
      }
      assert lengths == counts;
    }
  }

  lemma DirectoryBlocksUnfold(name: string, tree: TreeValue)
    requires tree.children != map[]
    ensures Blocks(FromTreeAndName(name, tree)) == [InfoBlock(name, tree.size)] + BlocksAll(ChildEntries(tree))
  {
    var header := IB(InfoBlock(name, tree.size));
    var all := [header] + ChildEntries(tree);
    assert FromTreeAndName(name, tree) == Vec(all);
    assert all[0] == header && all[1..] == ChildEntries(tree);
    assert BlocksAll(all) == Blocks(header) + BlocksAll(ChildEntries(tree));
  }

  /** The blocks of a directory's entry: its own block, then the blocks of each child's entry. */
  lemma DirectoryBlocks(name: string, tree: TreeValue, b: InfoBlock)
    requires tree.children != map[]
    ensures b in Blocks(FromTreeAndName(name, tree)) <==>
              b == InfoBlock(name, tree.size) ||
              exists k :: k in tree.children && b in Blocks(FromTreeAndName(k, tree.children[k]))
  {
    var keys := SortedKeys(tree.children.Keys);
    var es := ChildEntries(tree);
    DirectoryBlocksUnfold(name, tree);
    BlocksAllMember(es, b);
    if exists k :: k in tree.children && b in Blocks(FromTreeAndName(k, tree.children[k])) {
      var k :| k in tree.children && b in Blocks(FromTreeAndName(k, tree.children[k]));
      var j :| 0 <= j < |keys| && keys[j] == k;
      assert es[j] == FromTreeAndName(k, tree.children[k]);
    }
    if exists j :: 0 <= j < |es| && b in Blocks(es[j]) {
      var j :| 0 <= j < |es| && b in Blocks(es[j]);
      assert keys[j] in tree.children;
    }
  }

  /**
   * Every info block is a node of the tree: for each block there is a path
   * from the root to a node of that size, named by the path's last segment
   * (or by `name` for the root itself).
   */
  lemma {:induction false} BlocksAreNodes(name: string, tree: TreeValue, b: InfoBlock)
    requires b in Blocks(FromTreeAndName(name, tree))
    ensures exists path :: IsNodeBlock(name, tree, path, b)
    decreases tree
  {
    if tree.children == map[] || b == InfoBlock(name, tree.size) {
      assert IsNodeBlock(name, tree, [], b);
    } else {
      var k := ChildWithBlock(name, tree, b);
      BlocksAreNodes(k, tree.children[k], b);
      var path :| IsNodeBlock(k, tree.children[k], path, b);
      NodeOfChild(name, tree, k, path, b);
    }
  }

  /** A block of a directory other than its header comes from one of its children. */
  lemma ChildWithBlock(name: string, tree: TreeValue, b: InfoBlock) returns (k: string)
    requires tree.children != map[]
    requires b in Blocks(FromTreeAndName(name, tree)) && b != InfoBlock(name, tree.size)
    ensures k in tree.children && b in Blocks(FromTreeAndName(k, tree.children[k]))
  {
    DirectoryBlocks(name, tree, b);
    k :| k in tree.children && b in Blocks(FromTreeAndName(k, tree.children[k]));
  }

  /** The node at `path` below child `k` is the node at `[k] + path` below its parent. */
  lemma NodeOfChild(name: string, tree: TreeValue, k: string, path: seq<string>, b: InfoBlock)
    requires k in tree.children && IsNodeBlock(k, tree.children[k], path, b)
    ensures IsNodeBlock(name, tree, [k] + path, b)
  {
    assert ([k] + path)[0] == k && ([k] + path)[1..] == path;
    assert Lookup(tree, [k] + path) == Lookup(tree.children[k], path);
  }

  /** Every node of the tree has its info block, carrying its own size. */
  lemma {:induction false} NodesAreBlocks(name: string, tree: TreeValue, path: seq<string>)
    requires Lookup(tree, path).Some?
    ensures exists b :: b in Blocks(FromTreeAndName(name, tree)) && IsNodeBlock(name, tree, path, b)
    decreases tree
  {
    var b := InfoBlock(if path == [] then name else path[|path| - 1], Lookup(tree, path).value.size);
    assert IsNodeBlock(name, tree, path, b);
    if path == [] {
      if tree.children != map[] {
        DirectoryBlocks(name, tree, b);
      }
    } else if tree.children != map[] {
      var k := path[0];
      NodesAreBlocks(k, tree.children[k], path[1..]);
      var c :| c in Blocks(FromTreeAndName(k, tree.children[k])) && IsNodeBlock(k, tree.children[k], path[1..], c);
      assert c == b;
      DirectoryBlocks(name, tree, b);
    } else {
      assert false;
    }
  }

  /** `b` is the info block of the node of `tree` at `path`. */
  predicate IsNodeBlock(name: string, tree: TreeValue, path: seq<string>, b: InfoBlock)
  {
    Lookup(tree, path).Some? &&
    b == InfoBlock(if path == [] then name else path[|path| - 1], Lookup(tree, path).value.size)
  }

  /** A nested file exports as ROOT > dir > file, each with its own size. */
  lemma NestedExample()
    ensures ExportOf(FromFiles([SizedFile("a/b", 5)])).root ==
      Vec([IB(InfoBlock("ROOT", 0)), Vec([IB(InfoBlock("a", 0)), IB(InfoBlock("b", 5))])])
  {
    var files := [SizedFile("a/b", 5)];
    SplitOnceJoin("a", "b");
    assert "a" + "/" + "b" == "a/b";
    InsertLastSegment(Empty, SizedFile("b", 5));
    InsertDescends(Empty, SizedFile("a/b", 5), "a", "b");
    assert files[..0] == [];
    var inner := TreeValue(0, map["b" := Leaf(5)]);
    var t := TreeValue(0, map["a" := inner]);
    assert FromFiles(files) == t;
    assert "a" in t.children && "b" in inner.children;
    DirectoryEntries("a", inner, ["b"]);
    var leaf := FromTreeAndName("b", Leaf(5));
    assert leaf == IB(InfoBlock("b", 5));
    assert ChildEntries(inner) == [leaf];
    var dir := FromTreeAndName("a", inner);
    assert dir == Vec([IB(InfoBlock("a", 0)), leaf]);
    DirectoryEntries("ROOT", t, ["a"]);
    assert ChildEntries(t) == [dir];
    assert FromTreeAndName("ROOT", t) == Vec([IB(InfoBlock("ROOT", 0)), dir]);
  }

  /** Children are listed by name, whatever order they were added in. */
  lemma ChildrenInNameOrder(name: string, x: string, y: string, p: nat, q: nat)
    requires Below(x, y)
    ensures FromTreeAndName(name, TreeValue(0, map[y := Leaf(q), x := Leaf(p)])) ==
      Vec([IB(InfoBlock(name, 0)), IB(InfoBlock(x, p)), IB(InfoBlock(y, q))])
  {
    var t := TreeValue(0, map[y := Leaf(q), x := Leaf(p)]);
    BelowIrreflexive(x);
    assert x in t.children && y in t.children;
    assert Ascending([x, y]);
    DirectoryEntries(name, t, [x, y]);
    var es := ChildEntries(t);
    assert es[0] == IB(InfoBlock(x, p));
    assert es[1] == IB(InfoBlock(y, q));
    assert es == [es[0], es[1]];
  }
}
