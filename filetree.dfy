/**
 * The tree builder of src/filetree.rs.
 *
 * `Tree` is the mutable node of the source: a size and a `BTreeMap` of
 * children keyed by path segment. Its abstract value is a `TreeValue`, and
 * the effect of `Tree.Add` on that value is the pure function `Insert`;
 * `Tree.From` folds `Add` over its input, which is `FromFiles`. There is no
 * file/directory tag: a directory is a node whose size has been zeroed by a
 * visit of `Add`.
 */
module FileTree {
  import opened Wrappers
  import opened Strings

  /** A file and its size, as the importer produces it. */
  datatype SizedFile = SizedFile(path: string, size: nat)

  /** The value of a tree node: its own size (excluding children) and its children by name. */
  datatype TreeValue = TreeValue(size: nat, children: map<string, TreeValue>)

  /** `Tree::default()`: size 0, no children. */
  const Empty := TreeValue(0, map[])

  function Leaf(size: nat): TreeValue
  {
    TreeValue(size, map[])
  }

  /**
   * What `Tree::add` does to the value of a node: zero its size, then either
   * descend into the child named by the first segment (creating it empty if
   * absent), or, for a last segment, add a leaf only if that name is absent.
   */
  function Insert(t: TreeValue, sf: SizedFile): (r: TreeValue)
    ensures r.size == 0
    ensures t.children.Keys <= r.children.Keys && r.children != map[]
    decreases |sf.path|
  {
    match SplitOnce(sf.path)
    case Some((car, cdr)) =>
      var child := if car in t.children then t.children[car] else Empty;
      TreeValue(0, t.children[car := Insert(child, SizedFile(cdr, sf.size))])
    case None =>
      TreeValue(0, if sf.path in t.children then t.children else t.children[sf.path := Leaf(sf.size)])
  }

  /**
   * `Tree::from`: `Insert` folded over the files in input order, from the
   * empty tree. The root has size 0, and it has children exactly when there
   * was some input.
   */
  function FromFiles(files: seq<SizedFile>): (r: TreeValue)
    ensures r.size == 0
    ensures r.children == map[] <==> files == []
  {
    if files == [] then Empty
    else Insert(FromFiles(files[..|files| - 1]), files[|files| - 1])
  }

  /** One more file of the input is one more insertion. */
  lemma FromFilesStep(files: seq<SizedFile>, i: nat)
    requires i < |files|
    ensures FromFiles(files[..i + 1]) == Insert(FromFiles(files[..i]), files[i])
  {
    assert files[..i + 1][..i] == files[..i];
  }

  /** The node reached from `t` by following the segments `segs`, if there is one. */
  function Lookup(t: TreeValue, segs: seq<string>): Option<TreeValue>
  {
    if segs == [] then Some(t)
    else if segs[0] in t.children then Lookup(t.children[segs[0]], segs[1..])
    else None
  }

  /** Every node that has children has size 0, everywhere in the tree. */
  ghost predicate DirectoriesUnsized(t: TreeValue)
  {
    (t.children != map[] ==> t.size == 0) &&
    forall k :: k in t.children ==> DirectoriesUnsized(t.children[k])
  }

  // ----- properties of one insertion -----

  /** An insertion keeps "only leaves carry a size" true. */
  lemma {:induction false} InsertKeepsDirectoriesUnsized(t: TreeValue, sf: SizedFile)
    requires DirectoriesUnsized(t)
    ensures DirectoriesUnsized(Insert(t, sf))
    decreases |sf.path|
  {
    match SplitOnce(sf.path)
    case Some((car, cdr)) =>
      var child := if car in t.children then t.children[car] else Empty;
      InsertKeepsDirectoriesUnsized(child, SizedFile(cdr, sf.size));
    case None =>
  }

  /**
   * A last segment: an absent name gets exactly one new leaf of the file's
   * size; a present name (a file or a directory) is left as it was.
   */
  lemma InsertLastSegment(t: TreeValue, sf: SizedFile)
    requires '/' !in sf.path
    ensures Insert(t, sf) ==
      TreeValue(0, if sf.path in t.children then t.children else t.children[sf.path := Leaf(sf.size)])
  {
    SplitOnceSpec(sf.path);
  }

  /** One step of `Insert` on a path "car/cdr": descend into the child at `car`, or into a new empty one. */
  lemma InsertDescends(t: TreeValue, sf: SizedFile, car: string, cdr: string)
    requires '/' !in car && sf.path == car + "/" + cdr
    ensures Insert(t, sf) ==
      TreeValue(0, t.children[car := Insert(if car in t.children then t.children[car] else Empty, SizedFile(cdr, sf.size))])
  {
    SplitOnceJoin(car, cdr);
  }

  /** Overwriting a key twice keeps only the second value. */
  lemma UpdateTwice<K, V>(m: map<K, V>, k: K, a: V, b: V)
    ensures m[k := a][k := b] == m[k := b]
  {
  }

  /** A path "car/cdr" changes only the child at `car`; every other child is unchanged. */
  lemma InsertTouchesOnlyHead(t: TreeValue, sf: SizedFile, car: string, cdr: string)
    requires '/' !in car && sf.path == car + "/" + cdr
    ensures Insert(t, sf).children.Keys == t.children.Keys + {car}
    ensures forall k :: k in t.children && k != car ==> Insert(t, sf).children[k] == t.children[k]
  {
    SplitOnceJoin(car, cdr);
  }

  /** Nothing is removed: every node reachable before an insertion is reachable after it. */
  lemma {:induction false} InsertKeepsPaths(t: TreeValue, sf: SizedFile, segs: seq<string>)
    requires Lookup(t, segs).Some?
    ensures Lookup(Insert(t, sf), segs).Some?
    decreases |sf.path|
  {
    if segs != [] {
      match SplitOnce(sf.path)
      case Some((car, cdr)) =>
        if segs[0] == car {
          InsertKeepsPaths(t.children[car], SizedFile(cdr, sf.size), segs[1..]);
        }
      case None =>
    }
  }

  /**
   * The node at the inserted path itself: absent before, it is now a leaf with
   * the file's size; present before (a leaf or a directory), it is unchanged.
   */
  lemma {:induction false} InsertAtPath(t: TreeValue, sf: SizedFile)
    ensures Lookup(t, Segments(sf.path)).None? ==>
              Lookup(Insert(t, sf), Segments(sf.path)) == Some(Leaf(sf.size))
    ensures Lookup(t, Segments(sf.path)).Some? ==>
              Lookup(Insert(t, sf), Segments(sf.path)) == Lookup(t, Segments(sf.path))
    decreases |sf.path|
  {
    match SplitOnce(sf.path)
    case Some((car, cdr)) =>
      var child := if car in t.children then t.children[car] else Empty;
      var segs := Segments(sf.path);
      assert segs[0] == car && segs[1..] == Segments(cdr);
      InsertAtPath(child, SizedFile(cdr, sf.size));
      if car !in t.children {
        EmptyLookup(Segments(cdr));
      }
    case None =>
  }

  /** Below an empty node only the node itself can be found. */
  lemma EmptyLookup(segs: seq<string>)
    requires |segs| >= 1
    ensures Lookup(Empty, segs).None?
  {
  }

  /**
   * Directory wins over an earlier leaf: every proper prefix of the inserted
   * path now names a node of size 0 that has the next segment as a child.
   */
  lemma {:induction false} InsertMakesDirectories(t: TreeValue, sf: SizedFile, i: nat)
    requires i < |Segments(sf.path)|
    ensures Lookup(Insert(t, sf), Segments(sf.path)[..i]).Some?
    ensures Lookup(Insert(t, sf), Segments(sf.path)[..i]).value.size == 0
    ensures Segments(sf.path)[i] in Lookup(Insert(t, sf), Segments(sf.path)[..i]).value.children
    decreases |sf.path|
  {
    var segs := Segments(sf.path);
    if i > 0 {
      match SplitOnce(sf.path)
      case Some((car, cdr)) =>
        var child := if car in t.children then t.children[car] else Empty;
        assert segs[0] == car && segs[1..] == Segments(cdr);
        assert segs[..i][1..] == Segments(cdr)[..i - 1];
        InsertMakesDirectories(child, SizedFile(cdr, sf.size), i - 1);
      case None =>
    }
  }

  /** Inserting the same path twice is the same as inserting it once: the first leaf wins. */
  lemma {:induction false} InsertSamePathTwice(t: TreeValue, a: SizedFile, b: SizedFile)
    requires a.path == b.path
    ensures Insert(Insert(t, a), b) == Insert(t, a)
    decreases |a.path|
  {
    match SplitOnce(a.path)
    case Some((car, cdr)) =>
      var child := if car in t.children then t.children[car] else Empty;
      InsertSamePathTwice(child, SizedFile(cdr, a.size), SizedFile(cdr, b.size));
    case None =>
  }

  // ----- properties of the whole fold -----

  /** In the built tree only leaves carry a size. */
  lemma {:induction false} FromFilesDirectoriesUnsized(files: seq<SizedFile>)
    ensures DirectoriesUnsized(FromFiles(files))
  {
    if files != [] {
      FromFilesDirectoriesUnsized(files[..|files| - 1]);
      InsertKeepsDirectoriesUnsized(FromFiles(files[..|files| - 1]), files[|files| - 1]);
    }
  }

  /** Every input path's segment chain exists in the built tree. */
  lemma {:induction false} FromFilesHasEveryPath(files: seq<SizedFile>, i: nat)
    requires i < |files|
    ensures Lookup(FromFiles(files), Segments(files[i].path)).Some?
  {
    var init := files[..|files| - 1];
    var last := files[|files| - 1];
    if i == |files| - 1 {
      InsertAtPath(FromFiles(init), last);
    } else {
      FromFilesHasEveryPath(init, i);
      assert init[i] == files[i];
      InsertKeepsPaths(FromFiles(init), last, Segments(files[i].path));
    }
  }

  /**
   * Adding a path that already names a node of a built tree changes
   * nothing: every node on the way is already a child, already of size 0.
   */
  lemma {:induction false} InsertPresentPath(t: TreeValue, sf: SizedFile)
    requires DirectoriesUnsized(t) && t.size == 0
    requires Lookup(t, Segments(sf.path)).Some?
    ensures Insert(t, sf) == t
    decreases |sf.path|
  {
    SplitOnceSpec(sf.path);
    match SplitOnce(sf.path)
    case Some((car, cdr)) =>
      var segs := Segments(sf.path);
      assert segs[0] == car && segs[1..] == Segments(cdr);
      var child := t.children[car];
      assert Lookup(child, Segments(cdr)).Some?;
      assert Segments(cdr)[0] in child.children;
      InsertPresentPath(child, SizedFile(cdr, sf.size));
      assert t.children[car := child] == t.children;
    case None =>
  }

  /**
   * A path that already occurred anywhere in the input never overwrites:
   * appending another file at that path leaves the built tree unchanged, so
   * the first file at a path decides its size.
   */
  lemma RepeatedPathIgnored(files: seq<SizedFile>, sf: SizedFile, i: nat)
    requires i < |files| && files[i].path == sf.path
    ensures FromFiles(files + [sf]) == FromFiles(files)
  {
    assert (files + [sf])[..|files|] == files;
    FromFilesDirectoriesUnsized(files);
    FromFilesHasEveryPath(files, i);
    InsertPresentPath(FromFiles(files), sf);
  }

  /**
   * A leaf that gets a path added below it becomes exactly the directory a
   * fresh node would have become: its old size leaves no trace.
   */
  lemma LeafBecomesDirectory(a: nat, sf: SizedFile)
    ensures Insert(Leaf(a), sf) == Insert(Empty, sf)
  {
  }

  /** Directory dominance, leaf first: `[d:a, d/f:b]` builds the same tree as `[d/f:b]`. */
  lemma DirectoryReplacesEarlierLeaf(d: string, f: string, a: nat, b: nat)
    requires '/' !in d && '/' !in f
    ensures FromFiles([SizedFile(d, a), SizedFile(d + "/" + f, b)]) == FromFiles([SizedFile(d + "/" + f, b)])
  {
    SplitOnceJoin(d, f);
    var both := [SizedFile(d, a), SizedFile(d + "/" + f, b)];
    var one := [SizedFile(d + "/" + f, b)];
    assert both[..1] == [SizedFile(d, a)] && both[..1][..0] == [] && one[..0] == [];
    var below := TreeValue(0, map[f := Leaf(b)]);
    InsertLastSegment(Empty, SizedFile(f, b));
    InsertLastSegment(Leaf(a), SizedFile(f, b));
    InsertDescends(Empty, SizedFile(d + "/" + f, b), d, f);
    assert FromFiles(one) == TreeValue(0, map[d := below]);
    InsertLastSegment(Empty, SizedFile(d, a));
    var first := TreeValue(0, map[d := Leaf(a)]);
    assert FromFiles(both[..1]) == first;
    InsertDescends(first, SizedFile(d + "/" + f, b), d, f);
    UpdateTwice(map[], d, Leaf(a), below);
  }

  /** Directory dominance, leaf second: `[d/f:b, d:a]` builds the same tree as `[d/f:b]`. */
  lemma LaterLeafUnderDirectoryIgnored(d: string, f: string, a: nat, b: nat)
    requires '/' !in d && '/' !in f
    ensures FromFiles([SizedFile(d + "/" + f, b), SizedFile(d, a)]) == FromFiles([SizedFile(d + "/" + f, b)])
  {
    SplitOnceJoin(d, f);
    var both := [SizedFile(d + "/" + f, b), SizedFile(d, a)];
    var one := [SizedFile(d + "/" + f, b)];
    assert both[..1] == one && one[..0] == [];
    InsertLastSegment(Empty, SizedFile(f, b));
    InsertDescends(Empty, SizedFile(d + "/" + f, b), d, f);
    var want := TreeValue(0, map[d := TreeValue(0, map[f := Leaf(b)])]);
    assert FromFiles(one) == want;
    InsertLastSegment(want, SizedFile(d, a));
  }

  /** The order of two files with the same name matters: the first one's size is kept. */
  lemma DuplicateLeavesFirstWins(p: string, a: nat, b: nat)
    requires '/' !in p && a != b
    ensures FromFiles([SizedFile(p, a), SizedFile(p, b)]) == TreeValue(0, map[p := Leaf(a)])
    ensures FromFiles([SizedFile(p, a), SizedFile(p, b)]) != FromFiles([SizedFile(p, b), SizedFile(p, a)])
  {
    var ab := [SizedFile(p, a), SizedFile(p, b)];
    var ba := [SizedFile(p, b), SizedFile(p, a)];
    assert ab[..1] == [SizedFile(p, a)] && ab[..1][..0] == [];
    assert ba[..1] == [SizedFile(p, b)] && ba[..1][..0] == [];
    InsertLastSegment(Empty, SizedFile(p, a));
    InsertLastSegment(Empty, SizedFile(p, b));
    InsertLastSegment(TreeValue(0, map[p := Leaf(a)]), SizedFile(p, b));
    InsertLastSegment(TreeValue(0, map[p := Leaf(b)]), SizedFile(p, a));
    assert FromFiles(ab[..1]) == TreeValue(0, map[p := Leaf(a)]);
    assert FromFiles(ba[..1]) == TreeValue(0, map[p := Leaf(b)]);
    assert FromFiles(ab) == TreeValue(0, map[p := Leaf(a)]);
    assert FromFiles(ba) == TreeValue(0, map[p := Leaf(b)]);
  }

  // ----- the mutable tree of the source -----

  /** `Tree` with its fields updated in place; `Value` is its abstract value. */
  class Tree {
    var size: nat
    var children: map<string, Tree>
    ghost var Value: TreeValue
    ghost var Repr: set<object>

    /** Each child owns a footprint of its own, disjoint from its siblings', and has the value recorded here. */
    ghost predicate Valid()
      reads this, Repr
      decreases Repr
    {
      this in Repr &&
      Value.size == size &&
      Value.children.Keys == children.Keys &&
      (forall k :: k in children ==>
         children[k] in Repr && children[k].Repr <= Repr && this !in children[k].Repr &&
         children[k].Valid() && children[k].Value == Value.children[k]) &&
      (forall k, k' :: k in children && k' in children && k != k' ==> children[k].Repr !! children[k'].Repr)
    }

    /** `Tree::default()`. */
    constructor ()
      ensures Valid() && fresh(Repr)
      ensures Value == Empty
    {
      size := 0;
      children := map[];
      Value := Empty;
      Repr := {this};
    }

    /** A childless node with the given size. */
    constructor OfSize(sz: nat)
      ensures Valid() && fresh(Repr)
      ensures Value == Leaf(sz)
    {
      size := sz;
      children := map[];
      Value := Leaf(sz);
      Repr := {this};
    }

    /** `Tree::add`. */
    method Add(sf: SizedFile)
      requires Valid()
      modifies Repr
      ensures Valid()
      ensures fresh(Repr - old(Repr))
      ensures Value == Insert(old(Value), sf)
      decreases 3 * |sf.path| + 2
    {
      ghost var initial := Value;
      ZeroSize();
      var split := SplitOnce(sf.path);
      if split.Some? {
        AddInChild(sf, split.value.0, split.value.1, initial);
      } else {
        SplitOnceSpec(sf.path);
        InsertLastSegment(initial, sf);
        EntryOrLeaf(sf.path, sf.size);
      }
    }

    /** The `Some((car, cdr))` arm of `Tree::add`, after the size was zeroed. */
    method AddInChild(sf: SizedFile, car: string, cdr: string, ghost initial: TreeValue)
      requires Valid() && Value == TreeValue(0, initial.children)
      requires SplitOnce(sf.path) == Some((car, cdr))
      modifies Repr
      ensures Valid()
      ensures fresh(Repr - old(Repr))
      ensures Value == Insert(initial, sf)
      decreases 3 * |sf.path| + 1
    {
      SplitOnceSpec(sf.path);
      InsertDescends(initial, sf, car, cdr);
      var child := EntryOrDefault(car);
      ghost var start := child.Value;
      ghost var entered := Repr;
      AddBelow(car, cdr, sf.size, child);
      assert Repr - old(Repr) <= (Repr - entered) + (entered - old(Repr));
      UpdateTwice(initial.children, car, start, Insert(start, SizedFile(cdr, sf.size)));
    }

    /** `self.size = 0`: every node `Tree::add` passes through becomes a directory. */
    method ZeroSize()
      requires Valid()
      modifies this
      ensures Valid() && Repr == old(Repr) && children == old(children)
      ensures Value == TreeValue(0, old(Value).children)
    {
      size := 0;
      Value := TreeValue(0, Value.children);
    }

    /** The recursive step of `Tree::add` for a path "car/cdr": add "cdr" to the child at `car`. */
    method AddBelow(car: string, cdr: string, sz: nat, child: Tree)
      requires Valid() && car in children && children[car] == child
      modifies Repr
      ensures Valid()
      ensures fresh(Repr - old(Repr))
      ensures Value == TreeValue(old(Value).size,
                                 old(Value).children[car := Insert(old(Value).children[car], SizedFile(cdr, sz))])
      decreases 3 * |cdr| + 3
    {
      child.Add(SizedFile(cdr, sz));
      label Added:
      Repr, Value := Repr + child.Repr, TreeValue(Value.size, Value.children[car := child.Value]);
      Untouched@Added(child);
      Readopted((car, child));
    }

    /** A valid node none of whose objects changed is still valid, with the same value and footprint. */
    twostate lemma Untouched(t: Tree)
      requires old(t.Valid())
      requires unchanged(old(t.Repr))
      ensures t.Valid() && t.Value == old(t.Value) && t.Repr == old(t.Repr)
    {
    }

    /**
     * Once the child `entry.1` at key `entry.0` has changed only objects of its
     * own footprint, recording its new footprint and value makes the node valid again.
     */
    twostate lemma Readopted(entry: (string, Tree))
      requires old(Valid()) && entry.0 in old(children) && old(children[entry.0]) == entry.1
      requires children == old(children) && size == old(size)
      requires entry.1.Valid() && this !in entry.1.Repr && fresh(entry.1.Repr - old(entry.1.Repr))
      requires forall o :: o in old(Repr) && o !in old(entry.1.Repr) && o != this ==> unchanged(o)
      requires Repr == old(Repr) + entry.1.Repr
      requires Value == TreeValue(old(Value).size, old(Value).children[entry.0 := entry.1.Value])
      ensures Valid()
    {
      var (car, child) := entry;
      forall k | k in children && k != car
        ensures children[k].Valid() && children[k].Value == Value.children[k]
        ensures children[k].Repr == old(children[k].Repr) && children[k].Repr !! child.Repr
      {
        var sibling := children[k];
        assert old(sibling.Repr) !! old(child.Repr);
        Untouched(sibling);
      }
      forall k, k' | k in children && k' in children && k != k'
        ensures children[k].Repr !! children[k'].Repr
      {
        if k != car && k' != car {
          assert old(children[k].Repr !! children[k'].Repr);
        }
      }
    }

    /** `children.entry(car).or_insert(Default::default())`: the child at `car`, added empty if absent. */
    method EntryOrDefault(car: string) returns (child: Tree)
      requires Valid()
      modifies this
      ensures Valid() && fresh(Repr - old(Repr))
      ensures size == old(size) && children == old(children)[car := child]
      ensures car in old(children) ==> child == old(children)[car]
      ensures child.Valid() && child.Repr <= Repr && this !in child.Repr
      ensures forall k :: k in children && k != car ==> children[k].Repr !! child.Repr
      ensures child.Value == if car in old(Value).children then old(Value).children[car] else Empty
      ensures Value == TreeValue(old(Value).size, old(Value).children[car := child.Value])
    {
      if car in children {
        child := children[car];
      } else {
        child := NewChild(car);
      }
    }

    /** `or_insert(Default::default())` on an absent key: a fresh empty node stored at `car`. */
    method NewChild(car: string) returns (child: Tree)
      requires Valid() && car !in children
      modifies this
      ensures Valid() && fresh(Repr - old(Repr))
      ensures size == old(size) && children == old(children)[car := child]
      ensures child.Valid() && child.Repr <= Repr && this !in child.Repr && fresh(child.Repr)
      ensures forall k :: k in children && k != car ==> children[k].Repr !! child.Repr
      ensures child.Value == Empty
      ensures Value == TreeValue(old(Value).size, old(Value).children[car := Empty])
    {
      child := new Tree();
      assert forall k :: k in children ==> children[k].Repr !! child.Repr;
      children := children[car := child];
      Repr := Repr + child.Repr;
      Value := TreeValue(Value.size, Value.children[car := Empty]);
    }

    /** `children.entry(name).or_insert(Tree { size, .. })`: a new leaf only where the name is absent. */
    method EntryOrLeaf(name: string, sz: nat)
      requires Valid()
      modifies this
      ensures Valid() && fresh(Repr - old(Repr))
      ensures size == old(size)
      ensures Value == TreeValue(old(Value).size,
                                 if name in old(Value).children then old(Value).children
                                 else old(Value).children[name := Leaf(sz)])
    {
      if name !in children {
        var leaf := new Tree.OfSize(sz);
        children := children[name := leaf];
        Repr := Repr + leaf.Repr;
        Value := TreeValue(Value.size, Value.children[name := Leaf(sz)]);
      }
    }

    /** `Tree::from`: a fresh tree with every file added in input order. */
    static method From(files: seq<SizedFile>) returns (result: Tree)
      ensures result.Valid() && fresh(result.Repr)
      ensures result.Value == FromFiles(files)
    {
      result := new Tree();
      for i := 0 to |files|
        invariant result.Valid() && fresh(result.Repr)
        invariant result.Value == FromFiles(files[..i])
      {
        result.Add(files[i]);
        FromFilesStep(files, i);
      }
      assert files[..|files|] == files;
    }
  }
}
