/** The canonical tree of a nested map: built bottom-up, each directory from its children
    in name order. Its name depends on the map alone, not on the edits that led there; it
    is missing exactly when the builder refuses a directory somewhere in the map. A store
    holds it when every directory of the map can be read back under its canonical name,
    and whatever is stored afterwards leaves that so. */
module Canonical {
  import opened ByteStrings
  import opened Model
  import opened Validation
  import opened Partition
  import opened Wire
  import opened CodecSpec
  import opened Sums
  import opened Shape
  import opened ShapeBounds
  import opened TreeNodes
  import opened TreeReader
  import opened Directory
  import opened NameOrder

  // ---- the built form ----

  /** The directory entry an item makes, when every directory in it can be built. */
  ghost function EntryFor(p: ShapeParams, nameOf: Naming, name: Bytes, item: Item): (e: Option<TreeEntry>)
    ensures e.Some? ==> e.value.name == name
    decreases item, 1
  {
    match item
    case Leaf(kind, target, mode, size) => Some(TreeEntry(name, kind, target, mode, size))
    case Dir(_) =>
      match CanonicalName(p, nameOf, item)
      case None => None
      case Some(target) => Some(TreeEntry(name, TreeKind, target, 0, 0))
  }

  /** Every child can be built. */
  ghost predicate Buildable(p: ShapeParams, nameOf: Naming, d: Item)
    requires d.Dir?
    decreases d, 0, 1
  {
    forall k :: k in d.children ==> EntryFor(p, nameOf, k, d.children[k]).Some?
  }

  /** The children's entries, in name order. */
  ghost function CanonicalListing(p: ShapeParams, nameOf: Naming, d: Item): (entries: seq<TreeEntry>)
    requires d.Dir? && Buildable(p, nameOf, d)
    ensures |entries| == |SortedNames(d.children.Keys)|
    ensures forall i :: 0 <= i < |entries| ==>
              var k := SortedNames(d.children.Keys)[i];
              k in d.children && Some(entries[i]) == EntryFor(p, nameOf, k, d.children[k])
    decreases d, 0, 2
  {
    var names := SortedNames(d.children.Keys);
    assert forall i :: 0 <= i < |names| ==> names[i] in names;
    seq(|names|, i requires 0 <= i < |names| => EntryFor(p, nameOf, names[i], d.children[names[i]]).value)
  }

  /** The root of the built form of `d`, unless the builder refuses a node in it. */
  ghost function CanonicalName(p: ShapeParams, nameOf: Naming, d: Item): (root: Option<Name>)
    requires d.Dir?
    decreases d, 0, 3
  {
    if Buildable(p, nameOf, d) then TreeBuild(CanonicalListing(p, nameOf, d), p, nameOf).root else None
  }

  /** The built form of `d` is stored, all of it, and can be read back. */
  ghost predicate Canon(objs: Objects, p: ShapeParams, nameOf: Naming, d: Item)
    requires d.Dir?
    decreases d
  {
    && CanonicalName(p, nameOf, d).Some?
    && Readable(objs, CanonicalName(p, nameOf, d).value)
    && Listing(objs, CanonicalName(p, nameOf, d).value) == CanonicalListing(p, nameOf, d)
    && forall k :: k in d.children ==>
         var item := d.children[k];
         if item.Leaf? then item.kind != TreeKind else Canon(objs, p, nameOf, item)
  }

  /** An item whose directories, if it has any, are stored in their built form. */
  ghost predicate CanonItem(objs: Objects, p: ShapeParams, nameOf: Naming, item: Item)
  {
    if item.Leaf? then item.kind != TreeKind else Canon(objs, p, nameOf, item)
  }

  lemma EntryAt(p: ShapeParams, nameOf: Naming, d: Item, e: TreeEntry)
    requires d.Dir? && Buildable(p, nameOf, d)
    ensures e in CanonicalListing(p, nameOf, d) <==>
              e.name in d.children && EntryFor(p, nameOf, e.name, d.children[e.name]) == Some(e)
  {
    var names, entries := SortedNames(d.children.Keys), CanonicalListing(p, nameOf, d);
    if e.name in d.children && EntryFor(p, nameOf, e.name, d.children[e.name]) == Some(e) {
      assert e.name in d.children.Keys;
      var i :| 0 <= i < |names| && names[i] == e.name;
      assert entries[i] == e;
    }
  }

  /** The canonical listing is in name order. */
  lemma CanonicalListingAscends(p: ShapeParams, nameOf: Naming, d: Item)
    requires d.Dir? && Buildable(p, nameOf, d)
    ensures EntryNames(CanonicalListing(p, nameOf, d)) == SortedNames(d.children.Keys)
    ensures Sorted(CanonicalListing(p, nameOf, d))
  {
    assert EntryNames(CanonicalListing(p, nameOf, d)) == SortedNames(d.children.Keys);
    AscendingIsSorted(CanonicalListing(p, nameOf, d));
  }

  /** The built form of a map represents it. */
  lemma {:induction false} CanonRepresents(objs: Objects, p: ShapeParams, nameOf: Naming, d: Item)
    requires d.Dir? && Canon(objs, p, nameOf, d)
    ensures CanonicalName(p, nameOf, d).Some? && Represents(objs, CanonicalName(p, nameOf, d).value, d)
    decreases d
  {
    forall k | k in d.children && d.children[k].Dir?
      ensures Represents(objs, CanonicalName(p, nameOf, d.children[k]).value, d.children[k])
    {
      CanonRepresents(objs, p, nameOf, d.children[k]);
    }
    ChildrenMakeTheDirectory(objs, p, nameOf, d);
  }

  lemma ChildrenMakeTheDirectory(objs: Objects, p: ShapeParams, nameOf: Naming, d: Item)
    requires d.Dir? && Canon(objs, p, nameOf, d)
    requires forall k :: k in d.children && d.children[k].Dir? ==>
               Represents(objs, CanonicalName(p, nameOf, d.children[k]).value, d.children[k])
    ensures Represents(objs, CanonicalName(p, nameOf, d).value, d)
  {
    hide Readable, Listing, CanonicalListing, EntryFor, EntryIs;
    var n := CanonicalName(p, nameOf, d).value;
    forall e | e in Listing(objs, n)
      ensures e.name in d.children && EntryIs(objs, e, d.children[e.name])
    {
      EntryAt(p, nameOf, d, e);
      EntryStandsFor(objs, p, nameOf, e, d.children[e.name]);
    }
    forall k | k in d.children
      ensures exists e :: e in Listing(objs, n) && e.name == k
    {
      EntryAt(p, nameOf, d, EntryFor(p, nameOf, k, d.children[k]).value);
    }
  }

  lemma EntryStandsFor(objs: Objects, p: ShapeParams, nameOf: Naming, e: TreeEntry, item: Item)
    requires EntryFor(p, nameOf, e.name, item) == Some(e)
    requires if item.Leaf? then item.kind != TreeKind
             else CanonicalName(p, nameOf, item).Some? && Represents(objs, CanonicalName(p, nameOf, item).value, item)
    ensures EntryIs(objs, e, item)
  {
    hide CanonicalName, Represents;
  }

  /** Growing the store keeps it. */
  lemma {:induction false} CanonIsStable(objs: Objects, more: Objects, p: ShapeParams, nameOf: Naming, d: Item)
    requires d.Dir? && Canon(objs, p, nameOf, d) && Extends(objs, more)
    ensures Canon(more, p, nameOf, d)
    decreases d
  {
    var n := CanonicalName(p, nameOf, d).value;
    FlatStable(objs, more, n, objs[n].level);
    forall k | k in d.children && d.children[k].Dir?
      ensures Canon(more, p, nameOf, d.children[k])
    {
      CanonIsStable(objs, more, p, nameOf, d.children[k]);
    }
  }

  /** Storing what the builder emits for a directory stores its built form. */
  lemma BuildMakesCanon(objs: Objects, p: ShapeParams, nameOf: Naming, d: Item)
    requires d.Dir? && Buildable(p, nameOf, d)
    requires forall k :: k in d.children ==> CanonItem(objs, p, nameOf, d.children[k])
    requires var b := TreeBuild(CanonicalListing(p, nameOf, d), p, nameOf);
             b.root.Some? && Stored(objs, nameOf, b.emitted)
    ensures Canon(objs, p, nameOf, d)
  {
    CanonicalListingAscends(p, nameOf, d);
    TreeBuildRefines(objs, p, nameOf, CanonicalListing(p, nameOf, d));
  }

  /** Directories with the same entries have the same built form. */
  lemma SameEntriesSameName(p: ShapeParams, nameOf: Naming, d: Item, e: Item)
    requires d.Dir? && e.Dir? && d.children.Keys == e.children.Keys
    requires forall k :: k in d.children ==>
               EntryFor(p, nameOf, k, d.children[k]) == EntryFor(p, nameOf, k, e.children[k])
    ensures Buildable(p, nameOf, d) <==> Buildable(p, nameOf, e)
    ensures Buildable(p, nameOf, d) ==> CanonicalListing(p, nameOf, d) == CanonicalListing(p, nameOf, e)
    ensures CanonicalName(p, nameOf, d) == CanonicalName(p, nameOf, e)
  {
    assert forall k :: k in d.children <==> k in d.children.Keys;
    assert forall k :: k in e.children <==> k in e.children.Keys;
  }

  /** A directory the codec has no objection to: legal names, legal entries, and fewer
      of them than 2^256. */
  ghost predicate Legal(d: Item)
    requires d.Dir?
    decreases d
  {
    && |d.children.Keys| < Pow2(256)
    && forall k :: k in d.children ==>
         var item := d.children[k];
         && EntryNameOk(k)
         && if item.Leaf? then
              && item.kind != TreeKind && item.size < TWO_64
              && EntryOk(0, TreeEntry(k, item.kind, item.target, item.mode, item.size))
            else Legal(item)
  }

  /** With a node budget that leaves room, every legal directory has a built form. */
  lemma {:induction false} LegalIsBuilt(p: ShapeParams, nameOf: Naming, d: Item)
    requires SafeTreeShape(p) && d.Dir? && Legal(d)
    ensures CanonicalName(p, nameOf, d).Some?
    decreases d
  {
    forall k | k in d.children
      ensures EntryFor(p, nameOf, k, d.children[k]).Some?
      ensures var e := EntryFor(p, nameOf, k, d.children[k]).value; EntryOk(0, e) && e.size < TWO_64
    {
      if d.children[k].Dir? {
        LegalIsBuilt(p, nameOf, d.children[k]);
      }
    }
    var entries, names := CanonicalListing(p, nameOf, d), SortedNames(d.children.Keys);
    CanonicalListingAscends(p, nameOf, d);
    NamesAreAsMany(names, d.children.Keys);
    SafeTreeBuildSucceeds(p, nameOf, entries);
  }
}
