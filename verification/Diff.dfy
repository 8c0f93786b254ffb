/** Comparing two directory trees (src/fs/diff.py): the changes listed turn the one
    into the other, path by path, and nothing else is listed,
    whatever the shapes of the nodes. */
module Diff {
  import opened ByteStrings
  import opened Model
  import opened Validation
  import opened Shape
  import opened TreeNodes
  import opened TreeReader
  import opened Directory

  datatype ChangeKind = Added | Removed | Modified

  datatype Change = Change(path: Path, kind: ChangeKind, before: Option<TreeEntry>, after: Option<TreeEntry>)

  // ---- the flattened view of a directory ----

  /** What a diff compares at a path: everything about a file but its recorded size. */
  datatype File = File(kind: EntryKind, target: Name, mode: int)

  function FileOf(e: TreeEntry): (f: File)
  {
    File(e.kind, e.target, e.mode)
  }

  /** The file at a path below an item that may be missing. Directories are not files. */
  function FileIn(x: Option<Item>, path: Path): (f: Option<File>)
  {
    if x.None? then None
    else
      match At(x.value, path)
      case Some(Leaf(kind, target, mode, _)) => Some(File(kind, target, mode))
      case _ => None
  }

  /** What the changes, made in order, leave at one path that held `file`. */
  function Applied(changes: seq<Change>, path: Path, file: Option<File>): (f: Option<File>)
    decreases |changes|
  {
    if changes == [] then file
    else
      var c := changes[0];
      var next := if c.path != path then file else if c.after.None? then None else Some(FileOf(c.after.value));
      Applied(changes[1..], path, next)
  }

  /** The entry is really there. */
  predicate Holds(x: Option<Item>, path: Path, e: TreeEntry)
  {
    x.Some? && At(x.value, path) == Some(Leaf(e.kind, e.target, e.mode, e.size))
  }

  /** A change reported below `prefix` says what is there before and after, and is
      about a path on which the two sides differ. */
  predicate Genuine(c: Change, prefix: Path, x: Option<Item>, y: Option<Item>)
  {
    && prefix <= c.path
    && var q := c.path[|prefix|..];
       && FileIn(x, q) != FileIn(y, q)
       && (c.before.Some? ==> Holds(x, q, c.before.value))
       && (c.after.Some? ==> Holds(y, q, c.after.value))
       && match c.kind
          case Added => c.before.None? && c.after.Some?
          case Removed => c.before.Some? && c.after.None?
          case Modified => c.before.Some? && c.after.Some? && c.before.value.kind == c.after.value.kind
  }

  /** The changes are a diff of the items at `prefix`: sound, and complete on every path. */
  ghost predicate Differs(changes: seq<Change>, prefix: Path, x: Option<Item>, y: Option<Item>)
  {
    && (forall c :: c in changes ==> Genuine(c, prefix, x, y))
    && forall q: Path :: Applied(changes, prefix + q, FileIn(x, q)) == FileIn(y, q)
  }

  lemma {:induction false} AppliedInTurn(a: seq<Change>, b: seq<Change>, path: Path, file: Option<File>)
    ensures Applied(a + b, path, file) == Applied(b, path, Applied(a, path, file))
  {
    if a == [] {
      assert a + b == b;
    } else {
      assert (a + b)[1..] == a[1..] + b;
      var c := a[0];
      var next := if c.path != path then file else if c.after.None? then None else Some(FileOf(c.after.value));
      AppliedInTurn(a[1..], b, path, next);
    }
  }

  lemma {:induction false} AppliedElsewhere(changes: seq<Change>, path: Path, file: Option<File>)
    requires forall c :: c in changes ==> c.path != path
    ensures Applied(changes, path, file) == file
  {
    if changes != [] {
      assert changes[0] in changes;
      AppliedElsewhere(changes[1..], path, file);
    }
  }

  // ---- which paths are listed ----

  function LeafAt(x: Option<Item>, path: Path): (leaf: Option<Item>)
    ensures leaf.Some? ==> leaf.value.Leaf?
  {
    if x.Some? && At(x.value, path).Some? && At(x.value, path).value.Leaf? then At(x.value, path) else None
  }

  /** A path is listed exactly when a file stands there on one side only, or on both with
      another kind, another content or another mode. */
  lemma ListedIffDifferent(changes: seq<Change>, prefix: Path, x: Option<Item>, y: Option<Item>, q: Path)
    requires Differs(changes, prefix, x, y)
    ensures var a, b := LeafAt(x, q), LeafAt(y, q);
            (exists i :: 0 <= i < |changes| && changes[i].path == prefix + q)
            <==> (a.Some? != b.Some?
                  || (a.Some? && (a.value.kind != b.value.kind || a.value.target != b.value.target
                                  || a.value.mode != b.value.mode)))
  {
    if i :| 0 <= i < |changes| && changes[i].path == prefix + q {
      assert changes[i] in changes && changes[i].path[|prefix|..] == q;
    } else {
      forall c | c in changes
        ensures c.path != prefix + q
      {
        var i :| 0 <= i < |changes| && changes[i] == c;
      }
      AppliedElsewhere(changes, prefix + q, FileIn(x, q));
    }
  }

  // ---- directories, one name at a time ----

  function Child(d: Item, name: Bytes): (x: Option<Item>)
    requires d.Dir?
  {
    if name in d.children then Some(d.children[name]) else None
  }

  /** The changes are a diff as far as the names in `done` go, and about nothing else. */
  ghost predicate DiffersOn(changes: seq<Change>, prefix: Path, left: Item, right: Item, done: set<Bytes>)
  {
    && (forall c :: c in changes ==>
          |c.path| > |prefix| && c.path[|prefix|] in done && Genuine(c, prefix, Some(left), Some(right)))
    && forall q: Path :: q != [] && q[0] in done ==>
         Applied(changes, prefix + q, FileIn(Some(left), q)) == FileIn(Some(right), q)
  }

  lemma FileInChild(d: Item, path: Path)
    requires d.Dir? && path != []
    ensures FileIn(Some(d), path) == FileIn(Child(d, path[0]), path[1..])
    ensures forall e :: Holds(Child(d, path[0]), path[1..], e) ==> Holds(Some(d), path, e)
  {
  }

  lemma ChildChange(c: Change, prefix: Path, name: Bytes, left: Item, right: Item)
    requires left.Dir? && right.Dir?
    requires Genuine(c, prefix + [name], Child(left, name), Child(right, name))
    ensures Genuine(c, prefix, Some(left), Some(right))
    ensures |c.path| > |prefix| && c.path[|prefix|] == name
  {
    var q := c.path[|prefix|..];
    assert c.path == prefix + [name] + c.path[|prefix| + 1..];
    assert q[0] == name && q[1..] == c.path[|prefix + [name]|..];
    FileInChild(left, q);
    FileInChild(right, q);
  }

  /** Adding the diff of one more name. */
  lemma OneMoreName(changes: seq<Change>, more: seq<Change>, prefix: Path, left: Item, right: Item, done: set<Bytes>,
                    name: Bytes)
    requires left.Dir? && right.Dir? && name !in done
    requires DiffersOn(changes, prefix, left, right, done)
    requires Differs(more, prefix + [name], Child(left, name), Child(right, name))
    ensures DiffersOn(changes + more, prefix, left, right, done + {name})
  {
    hide Applied, Genuine, FileIn;
    forall c | c in more
      ensures |c.path| > |prefix| && c.path[|prefix|] == name && Genuine(c, prefix, Some(left), Some(right))
    {
      ChildChange(c, prefix, name, left, right);
    }
    forall q: Path | q != [] && q[0] in done + {name}
      ensures Applied(changes + more, prefix + q, FileIn(Some(left), q)) == FileIn(Some(right), q)
    {
      var path, was := prefix + q, FileIn(Some(left), q);
      AppliedInTurn(changes, more, path, was);
      assert path[|prefix|] == q[0];
      if q[0] == name {
        AppliedElsewhere(changes, path, was);
        FileInChild(left, q);
        FileInChild(right, q);
        assert path == prefix + [name] + q[1..];
      } else {
        AppliedElsewhere(more, path, FileIn(Some(right), q));
      }
    }
  }

  /** When every name of either side has been dealt with, that is the diff. */
  lemma AllNames(changes: seq<Change>, prefix: Path, left: Item, right: Item, done: set<Bytes>)
    requires left.Dir? && right.Dir? && DiffersOn(changes, prefix, left, right, done)
    requires done == left.children.Keys + right.children.Keys
    ensures Differs(changes, prefix, Some(left), Some(right))
  {
    hide Applied, Genuine;
    forall q: Path
      ensures Applied(changes, prefix + q, FileIn(Some(left), q)) == FileIn(Some(right), q)
    {
      if q == [] || q[0] !in done {
        assert q != [] ==> (prefix + q)[|prefix|] == q[0];
        AppliedElsewhere(changes, prefix + q, FileIn(Some(left), q));
        assert q != [] ==> q[0] !in left.children.Keys && q[0] !in right.children.Keys;
      }
    }
  }

  // ---- how deep a recursion can go ----

  /** More than the depth of any child. */
  ghost function Depth(x: Item): (n: nat)
    ensures n > 0
    ensures x.Dir? ==> forall k :: k in x.children ==> Depth(x.children[k]) < n
    decreases x, 1, 0
  {
    if x.Leaf? then 1
    else
      assert forall k :: k in x.children ==> k in x.children.Keys;
      1 + DepthAmong(x, x.children.Keys)
  }

  ghost function DepthAmong(x: Item, keys: set<Bytes>): (n: nat)
    requires x.Dir? && keys <= x.children.Keys
    ensures forall k :: k in keys ==> k in x.children && Depth(x.children[k]) <= n
    decreases x, 0, |keys|
  {
    if keys == {} then 0
    else
      var k :| k in keys;
      var rest := DepthAmong(x, keys - {k});
      var here := Depth(x.children[k]);
      if here > rest then here else rest
  }

  // ---- the diff ----

  /** A tree that may be missing, and the directory it is. */
  ghost predicate Side(objs: Objects, n: Option<Name>, d: Item)
  {
    d.Dir? && if n.None? then d == EmptyDir() else Represents(objs, n.value, d)
  }

  /** The entries of one side, in name order, are exactly its children. */
  ghost predicate Entries(objs: Objects, entries: seq<TreeEntry>, d: Item)
    requires d.Dir?
  {
    && Sorted(entries)
    && (forall k :: k in d.children ==> exists e :: e in entries && e.name == k)
    && forall e :: e in entries ==> e.name in d.children && EntryIs(objs, e, d.children[e.name])
  }

  method SideEntries(objs: Objects, n: Option<Name>, ghost d: Item) returns (entries: seq<TreeEntry>)
    requires Side(objs, n, d)
    ensures Entries(objs, entries, d)
  {
    hide EntryIs, IterEntries, WellFormed, Flat;
    if n.None? {
      return [];
    }
    var level := objs[n.value].level;
    entries := IterEntries(objs, n.value, level, None);
    IterYieldsTheRest(objs, n.value, level, None);
    EverythingAfterNothing(Listing(objs, n.value));
  }

  /** `diff_trees`: every path that differs between two trees, whatever the shape of
      their nodes. */
  method DiffTrees(objs: Objects, before: Option<Name>, after: Option<Name>, prefix: Path, ghost left: Item,
                   ghost right: Item)
    returns (changes: seq<Change>)
    requires Side(objs, before, left) && Side(objs, after, right)
    ensures Differs(changes, prefix, Some(left), Some(right))
    decreases Depth(left) + Depth(right), 2
  {
    hide Represents, EntryIs, Applied, Depth;
    if before == after {
      if before.Some? {
        RepresentsOneDirectory(objs, before.value, left, right);
      }
      NoChange(prefix, Some(left), Some(right));
      return [];
    }
    var l := SideEntries(objs, before, left);
    var r := SideEntries(objs, after, right);
    changes := MergeJoin(objs, l, r, prefix, left, right);
  }

  lemma NoChange(prefix: Path, x: Option<Item>, y: Option<Item>)
    requires forall q: Path :: FileIn(x, q) == FileIn(y, q)
    ensures Differs([], prefix, x, y)
  {
  }

  lemma MissingIsEmpty(changes: seq<Change>, prefix: Path, x: Option<Item>)
    ensures Differs(changes, prefix, x, Some(EmptyDir())) ==> Differs(changes, prefix, x, None)
    ensures Differs(changes, prefix, Some(EmptyDir()), x) ==> Differs(changes, prefix, None, x)
  {
    hide Applied;
    assert forall q: Path :: FileIn(Some(EmptyDir()), q) == FileIn(None, q);
  }

  /** `_removed`. */
  method RemovedBelow(objs: Objects, entry: TreeEntry, prefix: Path, ghost item: Item) returns (changes: seq<Change>)
    requires EntryIs(objs, entry, item)
    ensures Differs(changes, prefix + [entry.name], Some(item), None)
    decreases Depth(item) + 1, 3
  {
    hide Represents, Applied, Depth;
    var path := prefix + [entry.name];
    if entry.kind == TreeKind {
      DepthOfEmpty();
      changes := DiffTrees(objs, Some(entry.target), None, path, item, EmptyDir());
      MissingIsEmpty(changes, path, Some(item));
      return;
    }
    changes := [Change(path, Removed, Some(entry), None)];
    LeafChange(changes[0], path, Some(item), None);
  }

  /** `_added`. */
  method AddedBelow(objs: Objects, entry: TreeEntry, prefix: Path, ghost item: Item) returns (changes: seq<Change>)
    requires EntryIs(objs, entry, item)
    ensures Differs(changes, prefix + [entry.name], None, Some(item))
    decreases Depth(item) + 1, 3
  {
    hide Represents, Applied, Depth;
    var path := prefix + [entry.name];
    if entry.kind == TreeKind {
      DepthOfEmpty();
      changes := DiffTrees(objs, None, Some(entry.target), path, EmptyDir(), item);
      MissingIsEmpty(changes, path, Some(item));
      return;
    }
    changes := [Change(path, Added, None, Some(entry))];
    LeafChange(changes[0], path, None, Some(item));
  }

  lemma DepthOfEmpty()
    ensures Depth(EmptyDir()) == 1
  {
    assert EmptyDir().children.Keys == {};
  }

  /** One change is the whole diff of two items that are files or missing. */
  lemma LeafChange(c: Change, path: Path, x: Option<Item>, y: Option<Item>)
    requires x.Some? ==> x.value.Leaf?
    requires y.Some? ==> y.value.Leaf?
    requires c.path == path && Genuine(c, path, x, y)
    requires (c.before.Some? <==> x.Some?) && (c.after.Some? <==> y.Some?)
    ensures Differs([c], path, x, y)
  {
    assert path[|path|..] == [];
    forall q: Path
      ensures Applied([c], path + q, FileIn(x, q)) == FileIn(y, q)
    {
      assert [c][1..] == [];
      if q == [] { assert path + q == path; } else { assert |path + q| > |path|; }
    }
  }

  /** Something replaced by a thing of another kind: its files go, then the new ones come. */
  lemma Replaced(removed: seq<Change>, added: seq<Change>, path: Path, x: Item, y: Item)
    requires Differs(removed, path, Some(x), None) && Differs(added, path, None, Some(y))
    requires x.Leaf? || y.Leaf?
    requires x.Leaf? && y.Leaf? ==> x.kind != y.kind
    ensures Differs(removed + added, path, Some(x), Some(y))
  {
    hide Applied;
    forall q: Path
      ensures Applied(removed + added, path + q, FileIn(Some(x), q)) == FileIn(Some(y), q)
    {
      AppliedInTurn(removed, added, path + q, FileIn(Some(x), q));
    }
  }

  /** `_compare`. */
  method Compare(objs: Objects, before: TreeEntry, after: TreeEntry, prefix: Path, ghost x: Item, ghost y: Item)
    returns (changes: seq<Change>)
    requires EntryIs(objs, before, x) && EntryIs(objs, after, y) && before.name == after.name
    ensures Differs(changes, prefix + [before.name], Some(x), Some(y))
    decreases Depth(x) + Depth(y), 4
  {
    hide Represents, Applied, Depth;
    var path := prefix + [before.name];
    if before.target == after.target && before.mode == after.mode && before.kind == after.kind {
      if before.kind == TreeKind {
        RepresentsOneDirectory(objs, before.target, x, y);
      }
      NoChange(path, Some(x), Some(y));
      return [];
    }
    if before.kind == TreeKind && after.kind == TreeKind {
      changes := DiffTrees(objs, Some(before.target), Some(after.target), path, x, y);
      return;
    }
    if before.kind != after.kind {
      var removed := RemovedBelow(objs, before, prefix, x);
      var added := AddedBelow(objs, after, prefix, y);
      Replaced(removed, added, path, x, y);
      return removed + added;
    }
    changes := [Change(path, Modified, Some(before), Some(after))];
    LeafChange(changes[0], path, Some(x), Some(y));
  }

  /** Where the two indices of the join stand: what was passed has smaller names than
      what is next on either side. */
  ghost predicate Position(l: seq<TreeEntry>, r: seq<TreeEntry>, i: nat, j: nat)
  {
    && i <= |l| && j <= |r|
    && (forall b :: 0 <= b < j && i < |l| ==> Less(r[b].name, l[i].name))
    && (forall a :: 0 <= a < i && j < |r| ==> Less(l[a].name, r[j].name))
  }

  function NamesOf(entries: seq<TreeEntry>): (names: set<Bytes>)
  {
    set e | e in entries :: e.name
  }

  /** The names dealt with so far. */
  function Passed(l: seq<TreeEntry>, r: seq<TreeEntry>, i: nat, j: nat): (names: set<Bytes>)
    requires i <= |l| && j <= |r|
  {
    NamesOf(l[..i]) + NamesOf(r[..j])
  }

  /** `_merge_join`: one pass over two ordered lists. */
  method MergeJoin(objs: Objects, l: seq<TreeEntry>, r: seq<TreeEntry>, prefix: Path, ghost left: Item,
                   ghost right: Item)
    returns (changes: seq<Change>)
    requires left.Dir? && right.Dir? && Entries(objs, l, left) && Entries(objs, r, right)
    ensures Differs(changes, prefix, Some(left), Some(right))
    decreases Depth(left) + Depth(right), 1
  {
    hide EntryIs, Applied, DiffersOn, Differs, Position, Passed, Entries;
    changes := [];
    var i, j := 0, 0;
    StartOfJoin(objs, l, r, prefix, left, right);
    while i < |l| || j < |r|
      invariant i <= |l| && j <= |r| && Position(l, r, i, j)
      invariant DiffersOn(changes, prefix, left, right, Passed(l, r, i, j))
      decreases |l| - i + |r| - j
    {
      var more;
      if j == |r| || (i < |l| && Less(l[i].name, r[j].name)) {
        NextOnTheLeft(objs, l, r, i, j, left, right);
        more := RemovedBelow(objs, l[i], prefix, left.children[l[i].name]);
        OneMoreName(changes, more, prefix, left, right, Passed(l, r, i, j), l[i].name);
        i := i + 1;
      } else if i == |l| || Less(r[j].name, l[i].name) {
        NextOnTheRight(objs, l, r, i, j, left, right);
        more := AddedBelow(objs, r[j], prefix, right.children[r[j].name]);
        OneMoreName(changes, more, prefix, left, right, Passed(l, r, i, j), r[j].name);
        j := j + 1;
      } else {
        NextOnBoth(objs, l, r, i, j, left, right);
        more := Compare(objs, l[i], r[j], prefix, left.children[l[i].name], right.children[r[j].name]);
        OneMoreName(changes, more, prefix, left, right, Passed(l, r, i, j), l[i].name);
        i, j := i + 1, j + 1;
      }
      changes := changes + more;
    }
    EndOfJoin(objs, l, r, left, right);
    AllNames(changes, prefix, left, right, Passed(l, r, i, j));
  }

  lemma StartOfJoin(objs: Objects, l: seq<TreeEntry>, r: seq<TreeEntry>, prefix: Path, left: Item, right: Item)
    ensures Position(l, r, 0, 0) && DiffersOn([], prefix, left, right, Passed(l, r, 0, 0))
  {
  }

  lemma EndOfJoin(objs: Objects, l: seq<TreeEntry>, r: seq<TreeEntry>, left: Item, right: Item)
    requires left.Dir? && right.Dir? && Entries(objs, l, left) && Entries(objs, r, right)
    ensures Passed(l, r, |l|, |r|) == left.children.Keys + right.children.Keys
  {
    assert l[..|l|] == l && r[..|r|] == r;
    assert NamesOf(l) == left.children.Keys;
    assert NamesOf(r) == right.children.Keys;
  }

  lemma NamesOfMore(entries: seq<TreeEntry>, i: nat)
    requires i < |entries|
    ensures NamesOf(entries[..i + 1]) == NamesOf(entries[..i]) + {entries[i].name}
  {
    assert entries[..i + 1] == entries[..i] + [entries[i]];
  }

  /** A name below the next of a list, and not passed, is not in the list. */
  lemma NotListed(objs: Objects, entries: seq<TreeEntry>, k: nat, d: Item, name: Bytes)
    requires d.Dir? && Entries(objs, entries, d) && k <= |entries|
    requires forall b :: 0 <= b < k ==> Less(entries[b].name, name)
    requires k < |entries| ==> Less(name, entries[k].name)
    ensures name !in d.children && name !in NamesOf(entries)
  {
    if e :| e in entries && e.name == name {
      var b :| 0 <= b < |entries| && entries[b] == e;
      LessIrreflexive(name);
      if b > k {
        assert Less(entries[k].name, entries[b].name);
        LessAsymmetric(name, entries[k].name);
      }
    }
  }

  /** Names before a place in a sorted list are smaller than the one there. */
  lemma NotPassed(entries: seq<TreeEntry>, i: nat)
    requires Sorted(entries) && i < |entries|
    ensures entries[i].name !in NamesOf(entries[..i])
  {
    forall e | e in entries[..i]
      ensures e.name != entries[i].name
    {
      var a :| 0 <= a < i && entries[a] == e;
      LessIrreflexive(entries[i].name);
    }
  }

  lemma NextOnTheLeft(objs: Objects, l: seq<TreeEntry>, r: seq<TreeEntry>, i: nat, j: nat, left: Item, right: Item)
    requires left.Dir? && right.Dir? && Entries(objs, l, left) && Entries(objs, r, right) && Position(l, r, i, j)
    requires i < |l| && (j < |r| ==> Less(l[i].name, r[j].name))
    ensures var e := l[i];
            && e.name in left.children && EntryIs(objs, e, left.children[e.name])
            && e.name !in right.children && e.name !in Passed(l, r, i, j)
            && Child(left, e.name) == Some(left.children[e.name]) && Child(right, e.name) == None
            && Depth(left.children[e.name]) < Depth(left)
    ensures Position(l, r, i + 1, j) && Passed(l, r, i + 1, j) == Passed(l, r, i, j) + {l[i].name}
  {
    hide EntryIs;
    NotListed(objs, r, j, right, l[i].name);
    NotPassed(l, i);
    assert forall e :: e in r[..j] ==> e in r;
    NamesOfMore(l, i);
    forall b | 0 <= b < j && i + 1 < |l|
      ensures Less(r[b].name, l[i + 1].name)
    {
      LessTransitive(r[b].name, l[i].name, l[i + 1].name);
    }
  }

  lemma NextOnTheRight(objs: Objects, l: seq<TreeEntry>, r: seq<TreeEntry>, i: nat, j: nat, left: Item, right: Item)
    requires left.Dir? && right.Dir? && Entries(objs, l, left) && Entries(objs, r, right) && Position(l, r, i, j)
    requires j < |r| && (i < |l| ==> Less(r[j].name, l[i].name))
    ensures var e := r[j];
            && e.name in right.children && EntryIs(objs, e, right.children[e.name])
            && e.name !in left.children && e.name !in Passed(l, r, i, j)
            && Child(right, e.name) == Some(right.children[e.name]) && Child(left, e.name) == None
            && Depth(right.children[e.name]) < Depth(right)
    ensures Position(l, r, i, j + 1) && Passed(l, r, i, j + 1) == Passed(l, r, i, j) + {r[j].name}
  {
    hide EntryIs;
    NotListed(objs, l, i, left, r[j].name);
    NotPassed(r, j);
    assert forall e :: e in l[..i] ==> e in l;
    NamesOfMore(r, j);
    forall a | 0 <= a < i && j + 1 < |r|
      ensures Less(l[a].name, r[j + 1].name)
    {
      LessTransitive(l[a].name, r[j].name, r[j + 1].name);
    }
  }

  lemma NextOnBoth(objs: Objects, l: seq<TreeEntry>, r: seq<TreeEntry>, i: nat, j: nat, left: Item, right: Item)
    requires left.Dir? && right.Dir? && Entries(objs, l, left) && Entries(objs, r, right) && Position(l, r, i, j)
    requires i < |l| && j < |r| && !Less(l[i].name, r[j].name) && !Less(r[j].name, l[i].name)
    ensures var name := l[i].name;
            && name == r[j].name && name in left.children && name in right.children
            && EntryIs(objs, l[i], left.children[name]) && EntryIs(objs, r[j], right.children[name])
            && Child(left, name) == Some(left.children[name]) && Child(right, name) == Some(right.children[name])
            && Depth(left.children[name]) < Depth(left) && Depth(right.children[name]) < Depth(right)
    ensures l[i].name !in Passed(l, r, i, j)
    ensures Position(l, r, i + 1, j + 1) && Passed(l, r, i + 1, j + 1) == Passed(l, r, i, j) + {l[i].name}
  {
    hide EntryIs, Position, Passed, Sorted;
    LessTotal(l[i].name, r[j].name);
    assert l[i] in l && r[j] in r;
    BothMove(l, r, i, j);
  }

  lemma BothMove(l: seq<TreeEntry>, r: seq<TreeEntry>, i: nat, j: nat)
    requires Sorted(l) && Sorted(r) && Position(l, r, i, j) && i < |l| && j < |r| && l[i].name == r[j].name
    ensures l[i].name !in Passed(l, r, i, j)
    ensures Position(l, r, i + 1, j + 1) && Passed(l, r, i + 1, j + 1) == Passed(l, r, i, j) + {l[i].name}
  {
    NotPassed(l, i);
    NotPassed(r, j);
    NamesOfMore(l, i);
    NamesOfMore(r, j);
    forall b | 0 <= b <= j && i + 1 < |l|
      ensures Less(r[b].name, l[i + 1].name)
    {
      if b < j { LessTransitive(r[b].name, l[i].name, l[i + 1].name); }
    }
    forall a | 0 <= a <= i && j + 1 < |r|
      ensures Less(l[a].name, r[j + 1].name)
    {
      if a < i { LessTransitive(l[a].name, r[j].name, r[j + 1].name); }
    }
  }
}
