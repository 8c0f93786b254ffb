/** What a closure is for (src/fs/closure.py). */
module ClosureReads {
  // Reading: the closure of a directory's root is exactly what a store must hold for every
  // path of the directory to resolve and every file in it to be read, chunks included.

  import opened ByteStrings
  import opened Model
  import opened TreeNodes
  import opened TreeReader
  import opened BlobNodes
  import opened Directory
  import opened Closure

  /** The objects a store holds, out of all there could be. */
  function Among(objs: Objects, stored: set<Name>): (held: Objects)
  {
    map n | n in objs && n in stored :: objs[n]
  }

  /** Every file of the directory can be read to the last byte. */
  ghost predicate FilesReadable(objs: Objects, d: Item)
  {
    forall path: Path :: At(d, path).Some? && At(d, path).value.Leaf? ==> ReadableBlob(objs, At(d, path).value.target)
  }

  /** The tree is the directory, and so are the files. */
  ghost predicate Whole(objs: Objects, root: Name, d: Item)
    requires d.Dir?
  {
    Represents(objs, root, d) && FilesReadable(objs, d)
  }

  // ---- what is held is enough ----

  /** A store holds everything below a place. */
  ghost predicate AllIn(objs: Objects, v: Place, stored: set<Name>)
  {
    forall w :: Reaches(objs, v, w) ==> w.name in stored
  }

  lemma ReachesFrom(objs: Objects, v: Place, w: Place, u: Place)
    requires w in Children(objs, v) && Reaches(objs, w, u)
    ensures Reaches(objs, v, u)
  {
    var path :| Linked(objs, path) && path[0] == w && path[|path| - 1] == u;
    var longer := [v] + path;
    forall i | 0 < i < |longer|
      ensures longer[i] in Children(objs, longer[i - 1])
    {
      if i > 1 { assert longer[i] == path[i - 1] && longer[i - 1] == path[i - 2]; }
    }
    assert Linked(objs, longer) && longer[0] == v && longer[|longer| - 1] == u;
  }

  lemma AllInBelow(objs: Objects, v: Place, stored: set<Name>)
    requires AllIn(objs, v, stored)
    ensures v.name in stored && forall w :: w in Children(objs, v) ==> AllIn(objs, w, stored)
  {
    hide Reaches, Children;
    ReachesItself(objs, v);
    forall w, u | w in Children(objs, v) && Reaches(objs, w, u)
      ensures u.name in stored
    {
      ReachesFrom(objs, v, w, u);
    }
  }

  lemma TreeChild(objs: Objects, n: Name, i: nat)
    requires n in objs && objs[n].Tree? && i < |objs[n].entries|
    ensures var e := objs[n].entries[i];
            Place(e.target, if objs[n].level > 0 || e.kind == TreeKind then TreeNode else BlobNode)
              in Children(objs, Place(n, TreeNode))
  {
    assert TreeTargets(objs[n].level, objs[n].entries)[i] in Children(objs, Place(n, TreeNode));
  }

  lemma BlobChild(objs: Objects, n: Name, i: nat)
    requires n in objs && objs[n].Blob? && i < |objs[n].children|
    ensures Place(objs[n].children[i].target, if objs[n].level > 0 then BlobNode else ChunkLeaf)
              in Children(objs, Place(n, BlobNode))
  {
    assert BlobTargets(objs[n].level, objs[n].children)[i] in Children(objs, Place(n, BlobNode));
  }

  lemma {:induction false} TreeHeld(objs: Objects, stored: set<Name>, n: Name, level: nat)
    requires WellFormed(objs, n, level) && AllIn(objs, Place(n, TreeNode), stored)
    ensures WellFormed(Among(objs, stored), n, level)
    ensures Flat(Among(objs, stored), n, level) == Flat(objs, n, level)
    decreases level
  {
    hide AllIn, Children;
    var held := Among(objs, stored);
    AllInBelow(objs, Place(n, TreeNode), stored);
    if level > 0 {
      forall i | 0 <= i < |objs[n].entries|
        ensures RefOk(objs, objs[n].entries[i], level - 1) && RefOk(held, objs[n].entries[i], level - 1)
      {
        TreeChild(objs, n, i);
        TreeHeld(objs, stored, objs[n].entries[i].target, level - 1);
      }
      assert forall i :: 0 <= i < |held[n].entries| ==> RefOk(held, held[n].entries[i], level - 1);
    }
    FlatStable(held, objs, n, level);
  }

  lemma {:induction false} InFlatAll(objs: Objects, refs: seq<TreeEntry>, level: nat, e: TreeEntry)
    ensures e in FlatAll(objs, refs, level) <==>
              exists i :: 0 <= i < |refs| && e in Flat(objs, refs[i].target, level)
  {
    hide Flat;
    if refs != [] {
      InFlatAll(objs, refs[1..], level, e);
      if i :| 0 <= i < |refs[1..]| && e in Flat(objs, refs[1..][i].target, level) {
        assert refs[i + 1] == refs[1..][i];
      }
      if i :| 0 < i < |refs| && e in Flat(objs, refs[i].target, level) {
        assert refs[i] == refs[1..][i - 1];
      }
    }
  }

  /** How a directory entry is reached. */
  function PlaceOf(e: TreeEntry): (v: Place)
  {
    Place(e.target, if e.kind == TreeKind then TreeNode else BlobNode)
  }

  lemma {:induction false} EntryIsIn(objs: Objects, stored: set<Name>, n: Name, level: nat, e: TreeEntry)
    requires WellFormed(objs, n, level) && AllIn(objs, Place(n, TreeNode), stored) && e in Flat(objs, n, level)
    ensures AllIn(objs, PlaceOf(e), stored)
    decreases level
  {
    hide AllIn, Children;
    AllInBelow(objs, Place(n, TreeNode), stored);
    var entries := objs[n].entries;
    if level == 0 {
      var i :| 0 <= i < |entries| && entries[i] == e;
      TreeChild(objs, n, i);
    } else {
      InFlatAll(objs, entries, level - 1, e);
      var i :| 0 <= i < |entries| && e in Flat(objs, entries[i].target, level - 1);
      TreeChild(objs, n, i);
      EntryIsIn(objs, stored, entries[i].target, level - 1, e);
    }
  }

  lemma {:induction false} BlobHeld(objs: Objects, stored: set<Name>, n: Name, level: nat)
    requires WellFormedBlob(objs, n, level) && AllIn(objs, Place(n, BlobNode), stored)
    ensures WellFormedBlob(Among(objs, stored), n, level)
    ensures Content(Among(objs, stored), n, level) == Content(objs, n, level)
    decreases level
  {
    hide AllIn, Children, ContentAll;
    var held, children := Among(objs, stored), objs[n].children;
    AllInBelow(objs, Place(n, BlobNode), stored);
    forall i | 0 <= i < |children|
      ensures ContentOf(held, children[i], level) == ContentOf(objs, children[i], level)
      ensures SpanOk(held, children[i], level)
    {
      var e := children[i];
      assert SpanOk(objs, e, level);
      BlobChild(objs, n, i);
      if level > 0 {
        BlobHeld(objs, stored, e.target, level - 1);
      } else {
        AllInBelow(objs, Place(e.target, ChunkLeaf), stored);
      }
    }
    SameContent(held, objs, children, level);
  }

  lemma {:induction false} SameContent(a: Objects, b: Objects, children: seq<BlobEntry>, level: nat)
    requires forall i :: 0 <= i < |children| ==> ContentOf(a, children[i], level) == ContentOf(b, children[i], level)
    ensures ContentAll(a, children, level) == ContentAll(b, children, level)
  {
    hide ContentOf;
    if children != [] {
      assert forall i :: 0 <= i < |children| - 1 ==> children[1..][i] == children[i + 1];
      SameContent(a, b, children[1..], level);
    }
  }

  /** One file of the directory. */
  ghost predicate SameFile(objs: Objects, held: Objects, n: Name)
  {
    ReadableBlob(objs, n) && ReadableBlob(held, n) && FileBytes(held, n) == FileBytes(objs, n)
  }

  lemma AtChild(d: Item, k: Bytes, path: Path)
    requires d.Dir? && k in d.children
    ensures At(d, [k] + path) == At(d.children[k], path)
  {
    assert ([k] + path)[1..] == path;
  }

  lemma FilesBelow(objs: Objects, d: Item, k: Bytes)
    requires d.Dir? && k in d.children && FilesReadable(objs, d)
    ensures FilesReadable(objs, d.children[k])
  {
    hide At, ReadableBlob;
    forall path: Path | At(d.children[k], path).Some? && At(d.children[k], path).value.Leaf?
      ensures ReadableBlob(objs, At(d.children[k], path).value.target)
    {
      AtChild(d, k, path);
    }
  }

  /** A directory whose closure is held is the same directory, and its files have the same
      bytes. */
  lemma {:induction false} DirectoryHeld(objs: Objects, stored: set<Name>, root: Name, d: Item)
    requires d.Dir? && Whole(objs, root, d) && AllIn(objs, Place(root, TreeNode), stored)
    ensures Represents(Among(objs, stored), root, d)
    ensures forall path: Path :: At(d, path).Some? && At(d, path).value.Leaf? ==>
              SameFile(objs, Among(objs, stored), At(d, path).value.target)
    decreases d
  {
    hide AllIn, Flat, WellFormed, FilesReadable, SameFile;
    var held := Among(objs, stored);
    TreeHeld(objs, stored, root, objs[root].level);
    AllInBelow(objs, Place(root, TreeNode), stored);
    forall k, e | k in d.children && e in Listing(objs, root) && e.name == k
      ensures EntryIs(held, e, d.children[k]) && ItemHeld(objs, held, d.children[k])
    {
      assert EntryIs(objs, e, d.children[k]);
      EntryIsIn(objs, stored, root, objs[root].level, e);
      FilesBelow(objs, d, k);
      if d.children[k].Dir? {
        DirectoryHeld(objs, stored, e.target, d.children[k]);
      } else {
        LeafHeld(objs, stored, d.children[k]);
      }
    }
    ItemsHeld(objs, held, d);
  }

  ghost predicate ItemHeld(objs: Objects, held: Objects, item: Item)
  {
    forall path: Path :: At(item, path).Some? && At(item, path).value.Leaf? ==>
                           SameFile(objs, held, At(item, path).value.target)
  }

  lemma LeafHeld(objs: Objects, stored: set<Name>, item: Item)
    requires item.Leaf? && FilesReadable(objs, item) && AllIn(objs, Place(item.target, BlobNode), stored)
    ensures ItemHeld(objs, Among(objs, stored), item)
  {
    hide AllIn;
    assert At(item, []) == Some(item);
    BlobHeld(objs, stored, item.target, objs[item.target].level);
    AllInBelow(objs, Place(item.target, BlobNode), stored);
    assert SameFile(objs, Among(objs, stored), item.target);
  }

  lemma ItemsHeld(objs: Objects, held: Objects, d: Item)
    requires d.Dir? && forall k :: k in d.children ==> ItemHeld(objs, held, d.children[k])
    ensures ItemHeld(objs, held, d)
  {
    hide SameFile;
    forall path: Path | At(d, path).Some? && At(d, path).value.Leaf?
      ensures SameFile(objs, held, At(d, path).value.target)
    {
      assert At(d, path) == At(d.children[path[0]], path[1..]);
      assert ItemHeld(objs, held, d.children[path[0]]);
    }
  }

  // ---- nothing less is ----

  /** A place has been read in full, its chunks included. */
  ghost predicate Read(held: Objects, v: Place)
  {
    match v.kind
    case TreeNode =>
      exists level: nat :: WellFormed(held, v.name, level) &&
        forall e :: e in Flat(held, v.name, level) ==> EntryRead(held, e)
    case BlobNode => exists level: nat :: WellFormedBlob(held, v.name, level)
    case ChunkLeaf => v.name in held && held[v.name].Chunk?
  }

  ghost predicate EntryRead(held: Objects, e: TreeEntry)
  {
    if e.kind == TreeKind then exists d: Item :: d.Dir? && Whole(held, e.target, d) else ReadableBlob(held, e.target)
  }

  lemma WholeIsRead(held: Objects, root: Name, d: Item)
    requires d.Dir? && Whole(held, root, d)
    ensures Read(held, Place(root, TreeNode))
  {
    hide Flat, WellFormed, FilesReadable, ReadableBlob;
    forall e | e in Flat(held, root, held[root].level)
      ensures EntryRead(held, e)
    {
      assert e in Listing(held, root);
      var item := d.children[e.name];
      assert EntryIs(held, e, item);
      FilesBelow(held, d, e.name);
      if item.Dir? {
        assert Whole(held, e.target, item);
      } else {
        FileIsReadable(held, item);
      }
    }
  }

  lemma FileIsReadable(held: Objects, item: Item)
    requires item.Leaf? && FilesReadable(held, item)
    ensures ReadableBlob(held, item.target)
  {
    assert At(item, []) == Some(item);
  }

  lemma ReadIsHeld(held: Objects, v: Place)
    requires Read(held, v)
    ensures v.name in held && Fits(held, v)
  {
  }

  /** What has been read in full refers to places that have. */
  lemma ReadOn(objs: Objects, stored: set<Name>, v: Place, w: Place)
    requires Read(Among(objs, stored), v) && w in Children(objs, v)
    ensures Read(Among(objs, stored), w)
  {
    var held := Among(objs, stored);
    if v.kind == TreeNode {
      var level: nat :| WellFormed(held, v.name, level) &&
        forall e :: e in Flat(held, v.name, level) ==> EntryRead(held, e);
      var i :| 0 <= i < |objs[v.name].entries| && w == TreeTargets(objs[v.name].level, objs[v.name].entries)[i];
      ReadTreeOn(held, v.name, level, i);
    } else if v.kind == BlobNode {
      var level: nat :| WellFormedBlob(held, v.name, level);
      var i :| 0 <= i < |objs[v.name].children| && w == BlobTargets(objs[v.name].level, objs[v.name].children)[i];
      assert SpanOk(held, held[v.name].children[i], level);
      if level > 0 { assert WellFormedBlob(held, w.name, level - 1); }
    }
  }

  lemma ReadTreeOn(held: Objects, n: Name, level: nat, i: nat)
    requires WellFormed(held, n, level) && i < |held[n].entries|
    requires forall e :: e in Flat(held, n, level) ==> EntryRead(held, e)
    ensures var e := held[n].entries[i];
            Read(held, if level > 0 then Place(e.target, TreeNode) else PlaceOf(e))
  {
    hide EntryRead;
    var entries := held[n].entries;
    var target := entries[i].target;
    if level > 0 {
      forall e | e in Flat(held, target, level - 1)
        ensures EntryRead(held, e)
      {
        InFlatAll(held, entries, level - 1, e);
      }
      assert WellFormed(held, target, level - 1);
    } else {
      assert entries[i] in Flat(held, n, level);
      ReadEntry(held, entries[i]);
    }
  }

  lemma ReadEntry(held: Objects, e: TreeEntry)
    requires EntryRead(held, e)
    ensures Read(held, PlaceOf(e))
  {
    hide Whole;
    if e.kind == TreeKind {
      var d: Item :| d.Dir? && Whole(held, e.target, d);
      WholeIsRead(held, e.target, d);
    }
  }

  lemma ReachedIsRead(objs: Objects, stored: set<Name>, from: Place, to: Place)
    requires Read(Among(objs, stored), from) && Reaches(objs, from, to)
    ensures Read(Among(objs, stored), to)
  {
    hide Reaches, Children, Read;
    forall v, w | Read(Among(objs, stored), v) && w in Children(objs, v)
      ensures Read(Among(objs, stored), w)
    {
      ReadOn(objs, stored, v, w);
    }
    var read := iset v: Place | Read(Among(objs, stored), v);
    ClosedHoldsReachable(objs, read, from, to);
  }

  // ---- the two together ----

  /** A store reads a directory, with all its files, exactly when it holds the closure of
      the root: nothing in it is missing, and nothing in it is spare. */
  lemma ClosureIsWhatReadingNeeds(objs: Objects, stored: set<Name>, root: Name, d: Item)
    requires d.Dir? && Whole(objs, root, d)
    ensures Whole(Among(objs, stored), root, d) <==> forall n :: InClosure(objs, root, n) ==> n in stored
    ensures Whole(Among(objs, stored), root, d) ==>
              forall path: Path :: At(d, path).Some? && At(d, path).value.Leaf? ==>
                var file := At(d, path).value.target;
                FileBytes(Among(objs, stored), file) == FileBytes(objs, file)
  {
    hide Reaches, Read, Represents;
    var held, start := Among(objs, stored), Place(root, TreeNode);
    if forall n :: InClosure(objs, root, n) ==> n in stored {
      forall w | Reaches(objs, start, w)
        ensures w.name in stored
      {
        assert w == Place(w.name, w.kind) && InClosure(objs, root, w.name);
      }
      DirectoryHeld(objs, stored, root, d);
    }
    if Whole(held, root, d) {
      WholeIsRead(held, root, d);
      forall n | InClosure(objs, root, n)
        ensures n in stored
      {
        var kind :| Reaches(objs, start, Place(n, kind));
        ReachedIsRead(objs, stored, start, Place(n, kind));
        ReadIsHeld(held, Place(n, kind));
      }
    }
  }

  /** A directory that can be read can be walked, and the walk finds no other name: what it
      returns is the least a store must hold. */
  lemma WholeIsIntact(objs: Objects, root: Name, d: Item)
    requires d.Dir? && Whole(objs, root, d)
    ensures Intact(objs, root)
  {
    hide Reaches, Read, Represents;
    assert Among(objs, objs.Keys) == objs;
    WholeIsRead(objs, root, d);
    forall v | Reaches(objs, Place(root, TreeNode), v)
      ensures Fits(objs, v)
    {
      ReachedIsRead(objs, objs.Keys, Place(root, TreeNode), v);
      ReadIsHeld(objs, v);
    }
  }
}
