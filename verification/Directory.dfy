/** A directory as a nested map, and what it means for a stored tree to be one; path
    resolution (src/fs/tree.py) over it. */
module Directory {
  import opened ByteStrings
  import opened Model
  import opened Validation
  import opened Shape
  import opened TreeNodes
  import opened TreeReader

  /** What a name leads to: a file or link, or a directory. */
  datatype Item =
    | Leaf(kind: EntryKind, target: Name, mode: int, size: int)
    | Dir(children: map<Bytes, Item>)

  type Path = seq<Bytes>

  function EmptyDir(): (d: Item)
  {
    Dir(map[])
  }

  /** The item at a path; a path through a file leads nowhere. */
  function At(d: Item, path: Path): (item: Option<Item>)
  {
    if path == [] then Some(d)
    else if d.Leaf? || path[0] !in d.children then None
    else At(d.children[path[0]], path[1..])
  }

  // ---- stored directories ----

  /** The tree `n` is the directory `d`, whatever the shape of its nodes. */
  ghost predicate Represents(objs: Objects, n: Name, d: Item)
    requires d.Dir?
    decreases d, 0
  {
    && Readable(objs, n)
    && (forall e :: e in Listing(objs, n) ==> e.name in d.children)
    && (forall k :: k in d.children ==> exists e :: e in Listing(objs, n) && e.name == k)
    && forall k, e :: k in d.children && e in Listing(objs, n) && e.name == k ==> EntryIs(objs, e, d.children[k])
  }

  /** The directory entry `e` stands for the item. */
  ghost predicate EntryIs(objs: Objects, e: TreeEntry, item: Item)
    decreases item, 1
  {
    match item
    case Leaf(kind, target, mode, size) =>
      kind != TreeKind && e.kind == kind && e.target == target && e.mode == mode && e.size == size
    case Dir(_) => e.kind == TreeKind && e.mode == 0 && e.size == 0 && Represents(objs, e.target, item)
  }

  /** A stored tree is one directory: its root name decides everything below it. */
  lemma {:induction false} RepresentsOneDirectory(objs: Objects, n: Name, d: Item, e: Item)
    requires d.Dir? && e.Dir? && Represents(objs, n, d) && Represents(objs, n, e)
    ensures d == e
    decreases d
  {
    forall k
      ensures k in d.children <==> k in e.children
      ensures k in d.children ==> d.children[k] == e.children[k]
    {
      if k in d.children {
        var entry :| entry in Listing(objs, n) && entry.name == k;
        var x, y := d.children[k], e.children[k];
        assert EntryIs(objs, entry, x) && EntryIs(objs, entry, y);
        if x.Dir? && y.Dir? {
          RepresentsOneDirectory(objs, entry.target, x, y);
        }
      }
    }
    assert d.children == e.children;
  }

  /** Looking a name up in a stored directory finds what the map holds. */
  lemma LookupIsMapLookup(objs: Objects, n: Name, d: Item, name: Bytes, found: Option<TreeEntry>)
    requires d.Dir? && Represents(objs, n, d) && Finds(Listing(objs, n), name, found)
    ensures found.Some? <==> name in d.children
    ensures found.Some? ==> EntryIs(objs, found.value, d.children[name])
  {
  }

  /** `resolve_path`: one lookup per component; missing names, and paths through
      something that is not a directory, are not found. */
  method ResolvePath(objs: Objects, root: Name, components: Path, ghost d: Item) returns (r: Result<TreeEntry>)
    requires d.Dir? && Represents(objs, root, d)
    ensures components == [] || At(d, components).None? ==> r == Err(NotFound)
    ensures components != [] && At(d, components).Some? ==>
              r.Ok? && r.value.name == components[|components| - 1] && EntryIs(objs, r.value, At(d, components).value)
  {
    if components == [] {
      return Err(NotFound);
    }
    var current := root;
    ghost var dir := d;
    for depth := 0 to |components|
      invariant depth < |components|
      invariant dir.Dir? && Represents(objs, current, dir)
      invariant At(d, components) == At(dir, components[depth..])
    {
      var name := components[depth];
      var entry := Lookup(objs, current, name);
      LookupIsMapLookup(objs, current, dir, name, entry);
      assert components[depth..][0] == name;
      assert components[depth..][1..] == components[depth + 1..];
      if entry.None? {
        return Err(NotFound);
      }
      if depth == |components| - 1 {
        assert components[depth + 1..] == [];
        return Ok(entry.value);
      }
      if entry.value.kind != TreeKind {
        assert components[depth + 1..] != [];
        return Err(NotFound);
      }
      current := entry.value.target;
      dir := dir.children[name];
    }
    assert false;
  }
}
