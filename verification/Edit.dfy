/** Editing a directory (src/fs/edit.py): the tree that comes back is the built form of
    the edited map. Directories off the path are never read and keep their names; those
    on it are read whole into a dictionary, changed, put back in name order and built
    again. Whenever the entries turn out unchanged the tree that was given is returned,
    and that is the same tree a rebuild would have made. */
module Edit {
  import opened ByteStrings
  import opened Model
  import opened Validation
  import opened CodecSpec
  import opened Partition
  import opened Shape
  import opened ShapeBounds
  import opened TreeNodes
  import opened TreeReader
  import opened Directory
  import opened DirectoryEdits
  import opened Canonical
  import opened NameOrder
  import opened ObjectStores

  // ---- reading a directory ----

  /** The dictionary of a stored directory's entries by name. */
  method ReadEntries(objs: Objects, tree: Name) returns (existing: map<Bytes, TreeEntry>)
    requires Readable(objs, tree)
    ensures forall e :: e in Listing(objs, tree) <==> e.name in existing && existing[e.name] == e
    ensures forall k :: k in existing ==> existing[k].name == k
  {
    hide Flat, WellFormed, IterEntries, After;
    var level := objs[tree].level;
    var stream := IterEntries(objs, tree, level, None);
    IterYieldsTheRest(objs, tree, level, None);
    EverythingAfterNothing(Listing(objs, tree));
    existing := map[];
    for i := 0 to |stream|
      invariant forall e :: e in stream[..i] <==> e.name in existing && existing[e.name] == e
      invariant forall k :: k in existing ==> existing[k].name == k
    {
      forall e | e in stream[..i]
        ensures e.name != stream[i].name
      {
        var j :| 0 <= j < i && stream[j] == e;
        assert Less(stream[j].name, stream[i].name);
        LessIrreflexive(e.name);
      }
      assert stream[..i + 1] == stream[..i] + [stream[i]];
      existing := existing[stream[i].name := stream[i]];
    }
    assert stream[..|stream|] == stream;
  }

  // ---- edits of stored trees ----

  /** What an edit must return: the name of the edited map's built form. */
  ghost function EditedName(p: ShapeParams, nameOf: Naming, d: Item, path: Path, item: Option<Item>): (r: Result<Name>)
    requires d.Dir? && path != []
  {
    match Edited(d, path, item)
    case Err(e) => Err(e)
    case Ok(d') =>
      match CanonicalName(p, nameOf, d')
      case None => Err(NotCanonical)
      case Some(root) => Ok(root)
  }

  /** `existing` is the dictionary of the directory's entries. */
  ghost predicate EntriesOf(p: ShapeParams, nameOf: Naming, existing: map<Bytes, TreeEntry>, d: Item)
    requires d.Dir?
  {
    && existing.Keys == d.children.Keys
    && forall k :: k in existing ==> EntryFor(p, nameOf, k, d.children[k]) == Some(existing[k])
  }

  /** Sort the dictionary, build it, store what the builder emits. */
  method Rebuild(store: ObjectStore, existing: map<Bytes, TreeEntry>, p: ShapeParams, nowUs: int, ghost d: Item)
    returns (r: Result<Name>)
    requires store.Valid() && d.Dir? && EntriesOf(p, store.nameOf, existing, d)
    requires forall k :: k in d.children ==> CanonItem(store.objects, p, store.nameOf, d.children[k])
    modifies store
    ensures store.Valid() && Extends(old(store.objects), store.objects)
    ensures r == match CanonicalName(p, store.nameOf, d) case None => Err(NotCanonical) case Some(root) => Ok(root)
    ensures r.Ok? ==> Canon(store.objects, p, store.nameOf, d)
  {
    hide NamesEncodings, Injective, Extends, Canon, TreeBuild, SortedNames, FormOk;
    var names := SortNames(existing.Keys);
    var ordered: seq<TreeEntry> := [];
    assert forall k :: k in names <==> k in existing.Keys;
    for i := 0 to |names|
      invariant |ordered| == i
      invariant forall j :: 0 <= j < i ==> names[j] in existing && ordered[j] == existing[names[j]]
    {
      assert names[i] in names;
      ordered := ordered + [existing[names[i]]];
    }
    assert Buildable(p, store.nameOf, d) by {
      assert forall k :: k in d.children <==> k in d.children.Keys;
    }
    assert ordered == CanonicalListing(p, store.nameOf, d);
    var b := BuildTree(ordered, p, store.nameOf);
    EmittedNodesHaveForm(p, store.nameOf, ordered);
    var _ := store.PutAll(b.emitted, nowUs);
    if b.root.None? {
      return Err(NotCanonical);
    }
    forall k | k in d.children
      ensures CanonItem(store.objects, p, store.nameOf, d.children[k])
    {
      ItemIsStable(old(store.objects), store.objects, p, store.nameOf, d.children[k]);
    }
    BuildMakesCanon(store.objects, p, store.nameOf, d);
    r := Ok(b.root.value);
  }

  lemma EmittedNodesHaveForm(p: ShapeParams, nameOf: Naming, entries: seq<TreeEntry>)
    ensures forall o :: o in TreeBuild(entries, p, nameOf).emitted ==> FormOk(o)
  {
    hide TreeBuild;
    EmittedTreesAreValid(p, nameOf, entries);
  }

  lemma ItemIsStable(objs: Objects, more: Objects, p: ShapeParams, nameOf: Naming, item: Item)
    requires CanonItem(objs, p, nameOf, item) && Extends(objs, more)
    ensures CanonItem(more, p, nameOf, item)
  {
    if item.Dir? {
      CanonIsStable(objs, more, p, nameOf, item);
    }
  }

  /** The children that stay, and the one that is put, are all stored in built form. */
  ghost predicate ChildrenCanon(objs: Objects, p: ShapeParams, nameOf: Naming, d: Item)
    requires d.Dir?
  {
    forall k :: k in d.children ==> CanonItem(objs, p, nameOf, d.children[k])
  }

  /** A directory whose entries did not change needs no rewriting. */
  lemma UnchangedEntries(objs: Objects, p: ShapeParams, nameOf: Naming, existing: map<Bytes, TreeEntry>, d: Item,
                         d': Item)
    requires d.Dir? && d'.Dir? && Canon(objs, p, nameOf, d)
    requires EntriesOf(p, nameOf, existing, d) && EntriesOf(p, nameOf, existing, d')
    requires ChildrenCanon(objs, p, nameOf, d')
    ensures CanonicalName(p, nameOf, d') == CanonicalName(p, nameOf, d) && Canon(objs, p, nameOf, d')
  {
    assert forall k :: k in d.children <==> k in existing.Keys;
    SameEntriesSameName(p, nameOf, d, d');
  }

  lemma CanonEntries(objs: Objects, p: ShapeParams, nameOf: Naming, existing: map<Bytes, TreeEntry>, d: Item)
    requires d.Dir? && Canon(objs, p, nameOf, d)
    requires forall e :: e in Listing(objs, CanonicalName(p, nameOf, d).value) <==>
               e.name in existing && existing[e.name] == e
    requires forall k :: k in existing ==> existing[k].name == k
    ensures EntriesOf(p, nameOf, existing, d) && ChildrenCanon(objs, p, nameOf, d)
  {
    hide Listing, CanonicalListing, Readable, EntryFor, TreeBuild, SortedNames;
    assert Buildable(p, nameOf, d);
    forall k
      ensures k in existing <==> k in d.children
      ensures k in existing ==> EntryFor(p, nameOf, k, d.children[k]) == Some(existing[k])
    {
      DictionaryEntry(p, nameOf, existing, d, k);
    }
    assert existing.Keys == d.children.Keys;
  }

  lemma DictionaryEntry(p: ShapeParams, nameOf: Naming, existing: map<Bytes, TreeEntry>, d: Item, k: Bytes)
    requires d.Dir? && Buildable(p, nameOf, d)
    requires forall e :: e in CanonicalListing(p, nameOf, d) <==> e.name in existing && existing[e.name] == e
    requires forall name :: name in existing ==> existing[name].name == name
    ensures k in existing <==> k in d.children
    ensures k in existing ==> EntryFor(p, nameOf, k, d.children[k]) == Some(existing[k])
  {
    hide CanonicalListing, EntryFor;
    if k in existing {
      EntryAt(p, nameOf, d, existing[k]);
    }
    if k in d.children {
      EntryAt(p, nameOf, d, EntryFor(p, nameOf, k, d.children[k]).value);
    }
  }

  /** One child set, in the dictionary and in the map. */
  lemma SetChild(objs: Objects, p: ShapeParams, nameOf: Naming, existing: map<Bytes, TreeEntry>, d: Item, name: Bytes,
                 e: TreeEntry, item: Item)
    requires d.Dir? && EntriesOf(p, nameOf, existing, d) && ChildrenCanon(objs, p, nameOf, d)
    requires EntryFor(p, nameOf, name, item) == Some(e) && CanonItem(objs, p, nameOf, item)
    ensures EntriesOf(p, nameOf, existing[name := e], Dir(d.children[name := item]))
    ensures ChildrenCanon(objs, p, nameOf, Dir(d.children[name := item]))
  {
    hide EntryFor, CanonItem;
    assert d.children[name := item].Keys == d.children.Keys + {name};
    assert existing[name := e].Keys == existing.Keys + {name};
  }

  lemma DropChild(objs: Objects, p: ShapeParams, nameOf: Naming, existing: map<Bytes, TreeEntry>, d: Item, name: Bytes)
    requires d.Dir? && EntriesOf(p, nameOf, existing, d) && ChildrenCanon(objs, p, nameOf, d)
    ensures EntriesOf(p, nameOf, existing - {name}, Dir(d.children - {name}))
    ensures ChildrenCanon(objs, p, nameOf, Dir(d.children - {name}))
  {
    hide EntryFor, CanonItem;
    assert (d.children - {name}).Keys == d.children.Keys - {name};
    assert (existing - {name}).Keys == existing.Keys - {name};
  }

  lemma ChildrenAreStable(objs: Objects, more: Objects, p: ShapeParams, nameOf: Naming, d: Item)
    requires d.Dir? && ChildrenCanon(objs, p, nameOf, d) && Extends(objs, more)
    ensures ChildrenCanon(more, p, nameOf, d)
  {
    forall k | k in d.children
      ensures CanonItem(more, p, nameOf, d.children[k])
    {
      ItemIsStable(objs, more, p, nameOf, d.children[k]);
    }
  }

  /** What a caller may put: an entry that stands for an item already stored. Its own
      name is ignored. */
  ghost predicate Puts(objs: Objects, p: ShapeParams, nameOf: Naming, entry: Option<TreeEntry>, item: Option<Item>)
  {
    && (entry.Some? <==> item.Some?)
    && (entry.Some? ==>
          && CanonItem(objs, p, nameOf, item.value)
          && forall name :: EntryFor(p, nameOf, name, item.value) == Some(entry.value.(name := name)))
  }

  /** Put or remove one entry of a directory itself. */
  method ApplyHere(store: ObjectStore, tree: Name, name: Bytes, entry: Option<TreeEntry>, p: ShapeParams, nowUs: int,
                   ghost d: Item, ghost item: Option<Item>)
    returns (r: Result<Name>)
    requires store.Valid() && d.Dir? && Canon(store.objects, p, store.nameOf, d)
    requires CanonicalName(p, store.nameOf, d) == Some(tree)
    requires Puts(store.objects, p, store.nameOf, entry, item)
    modifies store
    ensures store.Valid() && Extends(old(store.objects), store.objects)
    ensures r == EditedName(p, store.nameOf, d, [name], item)
    ensures r.Ok? ==> Canon(store.objects, p, store.nameOf, Edited(d, [name], item).value)
  {
    hide NamesEncodings, Injective, Canon, CanonicalName, EntryFor, FormOk;
    var existing := ReadEntriesOf(store.objects, tree, p, store.nameOf, d);
    ghost var d' := Edited(d, [name], item).value;
    if entry.None? {
      DropChild(store.objects, p, store.nameOf, existing, d, name);
      if name !in existing {
        assert existing - {name} == existing;
        UnchangedEntries(store.objects, p, store.nameOf, existing, d, d');
        return Ok(tree);
      }
      existing := existing - {name};
    } else {
      var replacement := entry.value.(name := name);
      SetChild(store.objects, p, store.nameOf, existing, d, name, replacement, item.value);
      if name in existing && existing[name] == replacement {
        assert existing[name := replacement] == existing;
        UnchangedEntries(store.objects, p, store.nameOf, existing, d, d');
        return Ok(tree);
      }
      existing := existing[name := replacement];
    }
    r := Rebuild(store, existing, p, nowUs, d');
  }

  method ReadEntriesOf(objs: Objects, tree: Name, p: ShapeParams, nameOf: Naming, ghost d: Item)
    returns (existing: map<Bytes, TreeEntry>)
    requires d.Dir? && Canon(objs, p, nameOf, d) && CanonicalName(p, nameOf, d) == Some(tree)
    ensures EntriesOf(p, nameOf, existing, d) && ChildrenCanon(objs, p, nameOf, d)
  {
    existing := ReadEntries(objs, tree);
    CanonEntries(objs, p, nameOf, existing, d);
  }

  /** `empty_tree`. */
  method EmptyTree(store: ObjectStore, p: ShapeParams, nowUs: int) returns (root: Name)
    requires store.Valid()
    modifies store
    ensures store.Valid() && Extends(old(store.objects), store.objects)
    ensures Some(root) == CanonicalName(p, store.nameOf, EmptyDir())
    ensures Canon(store.objects, p, store.nameOf, EmptyDir())
  {
    assert SortedNames(EmptyDir().children.Keys) == [];
    var r := Rebuild(store, map[], p, nowUs, EmptyDir());
    root := r.value;
  }

  /** `_apply`: put or remove one entry at a path, rebuilding only the directories on it.
      Whatever shortcut is taken, what comes back is the built form of the edited map. */
  method Apply(store: ObjectStore, tree: Name, components: Path, entry: Option<TreeEntry>, p: ShapeParams, nowUs: int,
               ghost d: Item, ghost item: Option<Item>)
    returns (r: Result<Name>)
    requires store.Valid() && d.Dir? && Canon(store.objects, p, store.nameOf, d)
    requires CanonicalName(p, store.nameOf, d) == Some(tree)
    requires components != [] && Puts(store.objects, p, store.nameOf, entry, item)
    modifies store
    ensures store.Valid() && Extends(old(store.objects), store.objects)
    ensures r == EditedName(p, store.nameOf, d, components, item)
    ensures r.Ok? ==> Canon(store.objects, p, store.nameOf, Edited(d, components, item).value)
    decreases |components|
  {
    hide NamesEncodings, Injective, Canon, CanonicalName, EntryFor, FormOk;
    var name, rest := components[0], components[1..];
    if rest == [] {
      assert components == [name];
      r := ApplyHere(store, tree, name, entry, p, nowUs, d, item);
      return;
    }
    var existing := ReadEntriesOf(store.objects, tree, p, store.nameOf, d);
    if name in existing && existing[name].kind != TreeKind {
      ChildKind(store.objects, p, store.nameOf, existing, d, name);
      return Err(InvalidRequest);
    }
    if name !in existing && entry.None? {
      return Ok(tree);
    }
    ghost var sub := SubDir(d, name);
    var subtree;
    if name in existing {
      ChildKind(store.objects, p, store.nameOf, existing, d, name);
      subtree := existing[name].target;
    } else {
      subtree := EmptyTree(store, p, nowUs);
      PutsIsStable(old(store.objects), store.objects, p, store.nameOf, entry, item);
    }
    var below := Apply(store, subtree, rest, entry, p, nowUs, sub, item);
    if below.Err? {
      RefusedBelow(p, store.nameOf, d, components, item);
      return below;
    }
    ghost var sub' := Edited(sub, rest, item).value;
    CanonIsStable(old(store.objects), store.objects, p, store.nameOf, d);
    ChildrenAreStable(old(store.objects), store.objects, p, store.nameOf, d);
    EditBelow(d, components, item);
    r := PutBack(store, tree, existing, name, below.value, p, nowUs, d, sub');
  }

  /** Put a rebuilt subdirectory back under its name; nothing is rewritten when it is
      the one that was there. */
  method PutBack(store: ObjectStore, tree: Name, existing: map<Bytes, TreeEntry>, name: Bytes, rebuilt: Name,
                 p: ShapeParams, nowUs: int, ghost d: Item, ghost sub': Item)
    returns (r: Result<Name>)
    requires store.Valid() && d.Dir? && Canon(store.objects, p, store.nameOf, d)
    requires CanonicalName(p, store.nameOf, d) == Some(tree)
    requires EntriesOf(p, store.nameOf, existing, d) && ChildrenCanon(store.objects, p, store.nameOf, d)
    requires name in existing ==> existing[name].kind == TreeKind
    requires sub'.Dir? && Canon(store.objects, p, store.nameOf, sub')
    requires CanonicalName(p, store.nameOf, sub') == Some(rebuilt)
    modifies store
    ensures store.Valid() && Extends(old(store.objects), store.objects)
    ensures var d' := Dir(d.children[name := sub']);
            && r == (match CanonicalName(p, store.nameOf, d')
                     case None => Err(NotCanonical)
                     case Some(root) => Ok(root))
            && (r.Ok? ==> Canon(store.objects, p, store.nameOf, d'))
  {
    hide NamesEncodings, Injective, Canon, CanonicalName, EntryFor, FormOk;
    ghost var d' := Dir(d.children[name := sub']);
    var replacement := TreeEntry(name, TreeKind, rebuilt, 0, 0);
    DirectoryEntry(p, store.nameOf, name, sub');
    SetChild(store.objects, p, store.nameOf, existing, d, name, replacement, sub');
    if name in existing && rebuilt == existing[name].target {
      ChildKind(store.objects, p, store.nameOf, existing, d, name);
      assert existing[name := replacement] == existing;
      UnchangedEntries(store.objects, p, store.nameOf, existing, d, d');
      return Ok(tree);
    }
    r := Rebuild(store, existing[name := replacement], p, nowUs, d');
  }

  /** When the edit of a subdirectory fails, so does the whole. */
  lemma RefusedBelow(p: ShapeParams, nameOf: Naming, d: Item, path: Path, item: Option<Item>)
    requires d.Dir? && |path| > 1
    requires path[0] in d.children ==> d.children[path[0]].Dir?
    requires path[0] !in d.children ==> item.Some?
    requires EditedName(p, nameOf, SubDir(d, path[0]), path[1..], item).Err?
    ensures EditedName(p, nameOf, d, path, item) == EditedName(p, nameOf, SubDir(d, path[0]), path[1..], item)
  {
    var sub := Edited(SubDir(d, path[0]), path[1..], item);
    if sub.Ok? {
      assert path[0] in d.children[path[0] := sub.value];
      assert EntryFor(p, nameOf, path[0], sub.value).None?;
    }
  }

  lemma DirectoryEntry(p: ShapeParams, nameOf: Naming, name: Bytes, d: Item)
    requires d.Dir? && CanonicalName(p, nameOf, d).Some?
    ensures EntryFor(p, nameOf, name, d) == Some(TreeEntry(name, TreeKind, CanonicalName(p, nameOf, d).value, 0, 0))
  {
  }

  /** An entry's kind tells a directory from anything else. */
  lemma ChildKind(objs: Objects, p: ShapeParams, nameOf: Naming, existing: map<Bytes, TreeEntry>, d: Item, name: Bytes)
    requires d.Dir? && EntriesOf(p, nameOf, existing, d) && ChildrenCanon(objs, p, nameOf, d) && name in existing
    ensures name in d.children && (existing[name].kind == TreeKind <==> d.children[name].Dir?)
    ensures d.children[name].Dir? ==>
              && Canon(objs, p, nameOf, d.children[name])
              && CanonicalName(p, nameOf, d.children[name]) == Some(existing[name].target)
              && existing[name] == TreeEntry(name, TreeKind, existing[name].target, 0, 0)
  {
    hide CanonicalName, Canon;
  }

  lemma PutsIsStable(objs: Objects, more: Objects, p: ShapeParams, nameOf: Naming, entry: Option<TreeEntry>,
                     item: Option<Item>)
    requires Puts(objs, p, nameOf, entry, item) && Extends(objs, more)
    ensures Puts(more, p, nameOf, entry, item)
  {
    if item.Some? {
      ItemIsStable(objs, more, p, nameOf, item.value);
    }
  }

  // ---- the two edits ----

  /** `set_path`: the tree that is `root` with `path` set, which is the built form of the
      map with that path set. */
  method SetPath(store: ObjectStore, root: Name, components: Path, entry: TreeEntry, p: ShapeParams, nowUs: int,
                 ghost d: Item, ghost item: Item)
    returns (r: Result<Name>)
    requires store.Valid() && d.Dir? && Canon(store.objects, p, store.nameOf, d)
    requires CanonicalName(p, store.nameOf, d) == Some(root)
    requires Puts(store.objects, p, store.nameOf, Some(entry), Some(item))
    modifies store
    ensures store.Valid() && Extends(old(store.objects), store.objects)
    ensures components == [] ==> r == Err(InvalidRequest)
    ensures components != [] ==> r == EditedName(p, store.nameOf, d, components, Some(item))
    ensures r.Ok? ==> Represents(store.objects, r.value, Edited(d, components, Some(item)).value)
    ensures r.Ok? ==> Canon(store.objects, p, store.nameOf, Edited(d, components, Some(item)).value)
  {
    hide Canon, CanonicalName, Represents, EntryFor;
    if components == [] {
      return Err(InvalidRequest);
    }
    r := Apply(store, root, components, Some(entry), p, nowUs, d, Some(item));
    if r.Ok? {
      CanonRepresents(store.objects, p, store.nameOf, Edited(d, components, Some(item)).value);
    }
  }

  /** `remove_path`: the tree that is `root` without `path`. Absent is not an error, and
      a directory left empty stays. */
  method RemovePath(store: ObjectStore, root: Name, components: Path, p: ShapeParams, nowUs: int, ghost d: Item)
    returns (r: Result<Name>)
    requires store.Valid() && d.Dir? && Canon(store.objects, p, store.nameOf, d)
    requires CanonicalName(p, store.nameOf, d) == Some(root)
    modifies store
    ensures store.Valid() && Extends(old(store.objects), store.objects)
    ensures components == [] ==> r == Err(InvalidRequest)
    ensures components != [] ==> r == EditedName(p, store.nameOf, d, components, None)
    ensures r.Ok? ==> Represents(store.objects, r.value, Edited(d, components, None).value)
    ensures r.Ok? ==> Canon(store.objects, p, store.nameOf, Edited(d, components, None).value)
  {
    hide Canon, CanonicalName, Represents, EntryFor;
    if components == [] {
      return Err(InvalidRequest);
    }
    r := Apply(store, root, components, None, p, nowUs, d, None);
    if r.Ok? {
      CanonRepresents(store.objects, p, store.nameOf, Edited(d, components, None).value);
    }
  }

  /** In a store, two directories have one root name exactly when they are one map. */
  lemma RootNameIsTheMap(objs: Objects, p: ShapeParams, nameOf: Naming, d: Item, e: Item)
    requires d.Dir? && e.Dir? && Canon(objs, p, nameOf, d) && Canon(objs, p, nameOf, e)
    ensures CanonicalName(p, nameOf, d) == CanonicalName(p, nameOf, e) <==> d == e
  {
    hide Canon, CanonicalName, Represents;
    if CanonicalName(p, nameOf, d) == CanonicalName(p, nameOf, e) {
      CanonRepresents(objs, p, nameOf, d);
      CanonRepresents(objs, p, nameOf, e);
      RepresentsOneDirectory(objs, CanonicalName(p, nameOf, d).value, d, e);
    }
  }

  /** Unrelated edits made in either order return the same root. */
  lemma EditOrderDoesNotMatter(p: ShapeParams, nameOf: Naming, d: Item, a: Path, x: Option<Item>, b: Path,
                               y: Option<Item>)
    requires d.Dir? && Unrelated(a, b)
    requires Edited(d, a, x).Ok? && Edited(Edited(d, a, x).value, b, y).Ok?
    ensures Edited(d, b, y).Ok?
    ensures EditedName(p, nameOf, Edited(d, b, y).value, a, x) == EditedName(p, nameOf, Edited(d, a, x).value, b, y)
  {
    EditsCommute(d, a, x, b, y);
  }
}
