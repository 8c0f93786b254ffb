/** Reading a directory (src/fs/tree.py): lookup, streaming and paging over a node
    tree agree with the sorted list of its entries. */
module TreeReader {
  import opened ByteStrings
  import opened Model
  import opened Validation
  import opened Shape
  import opened TreeNodes

  // ---- sorted lists of entries ----

  /** Strictly ascending names: the list is a sorted map. */
  predicate Sorted(entries: seq<TreeEntry>)
  {
    forall i, j :: 0 <= i < j < |entries| ==> Less(entries[i].name, entries[j].name)
  }

  lemma AscendingIsSorted(entries: seq<TreeEntry>)
    requires Ascending(EntryNames(entries))
    ensures Sorted(entries)
  {
    forall i, j | 0 <= i < j < |entries|
      ensures Less(entries[i].name, entries[j].name)
    {
      AscendingPairwise(EntryNames(entries), i, j);
    }
  }

  lemma SortedParts(a: seq<TreeEntry>, b: seq<TreeEntry>)
    requires Sorted(a + b)
    ensures Sorted(a) && Sorted(b)
    ensures forall x, y :: x in a && y in b ==> Less(x.name, y.name)
  {
    var s := a + b;
    forall i, j | 0 <= i < j < |a|
      ensures Less(a[i].name, a[j].name)
    {
      assert s[i] == a[i] && s[j] == a[j];
    }
    forall i, j | 0 <= i < j < |b|
      ensures Less(b[i].name, b[j].name)
    {
      assert s[|a| + i] == b[i] && s[|a| + j] == b[j];
    }
    forall x, y | x in a && y in b
      ensures Less(x.name, y.name)
    {
      var i :| 0 <= i < |a| && a[i] == x;
      var j :| 0 <= j < |b| && b[j] == y;
      assert s[i] == x && s[|a| + j] == y;
    }
  }

  /** No name in a sorted list is above the last. */
  lemma NoneAboveTheLast(entries: seq<TreeEntry>, e: TreeEntry)
    requires Sorted(entries) && e in entries
    ensures LessEq(e.name, LastName(entries))
  {
    var i :| 0 <= i < |entries| && entries[i] == e;
    if i < |entries| - 1 {
      assert Less(entries[i].name, entries[|entries| - 1].name);
    }
  }

  /** `found` is what a map lookup of `name` gives. */
  predicate Finds(entries: seq<TreeEntry>, name: Bytes, found: Option<TreeEntry>)
  {
    match found
    case Some(e) => e in entries && e.name == name
    case None => forall e :: e in entries ==> e.name != name
  }

  /** There is only one right answer. */
  lemma FindsOne(entries: seq<TreeEntry>, name: Bytes, a: Option<TreeEntry>, b: Option<TreeEntry>)
    requires Sorted(entries) && Finds(entries, name, a) && Finds(entries, name, b)
    ensures a == b
  {
    if a.Some? && b.Some? {
      var i :| 0 <= i < |entries| && entries[i] == a.value;
      var j :| 0 <= j < |entries| && entries[j] == b.value;
      LessIrreflexive(name);
      assert !(i < j) && !(j < i);
    }
  }

  // ---- lookup ----

  /** A directory that can be read: well-formed from the top, and sorted. */
  predicate Readable(objs: Objects, n: Name)
  {
    && n in objs && objs[n].Tree? && objs[n].level >= 0
    && WellFormed(objs, n, objs[n].level)
    && Sorted(Flat(objs, n, objs[n].level))
  }

  function Listing(objs: Objects, n: Name): (entries: seq<TreeEntry>)
    requires Readable(objs, n)
  {
    Flat(objs, n, objs[n].level)
  }

  /** The entries below a node, split at one child. */
  lemma SplitAtChild(objs: Objects, refs: seq<TreeEntry>, k: nat, level: nat)
    requires k < |refs|
    ensures FlatAll(objs, refs, level)
            == FlatAll(objs, refs[..k], level)
               + (Flat(objs, refs[k].target, level) + FlatAll(objs, refs[k + 1..], level))
  {
    assert refs == refs[..k] + refs[k..];
    FlatAllOfConcat(objs, refs[..k], refs[k..], level);
    assert refs[k..][1..] == refs[k + 1..];
  }

  lemma ChildrenAreRefs(objs: Objects, n: Name, level: nat)
    requires level > 0 && WellFormed(objs, n, level)
    ensures forall i :: 0 <= i < |objs[n].entries| ==> RefOk(objs, objs[n].entries[i], level - 1)
  {
    forall i | 0 <= i < |objs[n].entries|
      ensures RefOk(objs, objs[n].entries[i], level - 1)
    {
    }
  }

  /** Only the first child whose key is not below `name` can hold it. */
  lemma CoveringChildDecides(objs: Objects, n: Name, level: nat, k: nat, name: Bytes, found: Option<TreeEntry>)
    requires level > 0 && WellFormed(objs, n, level) && Sorted(Flat(objs, n, level))
    requires var refs := objs[n].entries;
             && k < |refs| && LessEq(name, refs[k].name)
             && (forall i :: 0 <= i < k ==> !LessEq(name, refs[i].name))
             && Finds(Flat(objs, refs[k].target, level - 1), name, found)
    ensures Sorted(Flat(objs, objs[n].entries[k].target, level - 1))
    ensures Finds(Flat(objs, n, level), name, found)
  {
    hide Flat, FlatAll, RefOk;
    var refs := objs[n].entries;
    var left, mid := FlatAll(objs, refs[..k], level - 1), Flat(objs, refs[k].target, level - 1);
    var right := FlatAll(objs, refs[k + 1..], level - 1);
    InteriorIsSplit(objs, n, level, k);
    SortedParts(left, mid + right);
    SortedParts(mid, right);
    ChildrenAreRefs(objs, n, level);
    assert forall i :: 0 <= i < k ==> refs[..k][i] == refs[i];
    SmallerKeysHoldNothing(objs, refs[..k], level - 1, name);
    CoveringSubtree(objs, refs[k], level - 1);
    NothingPastTheCover(mid, right, refs[k].name, name);
  }

  lemma InteriorIsSplit(objs: Objects, n: Name, level: nat, k: nat)
    requires level > 0 && WellFormed(objs, n, level) && k < |objs[n].entries|
    ensures var refs := objs[n].entries;
            Flat(objs, n, level)
            == FlatAll(objs, refs[..k], level - 1)
               + (Flat(objs, refs[k].target, level - 1) + FlatAll(objs, refs[k + 1..], level - 1))
  {
    SplitAtChild(objs, objs[n].entries, k, level - 1);
  }

  lemma CoveringSubtree(objs: Objects, e: TreeEntry, level: nat)
    requires RefOk(objs, e, level)
    ensures Flat(objs, e.target, level) != [] && LastName(Flat(objs, e.target, level)) == e.name
  {
  }

  /** Subtrees whose last keys are below a name do not hold it. */
  lemma SmallerKeysHoldNothing(objs: Objects, refs: seq<TreeEntry>, level: nat, name: Bytes)
    requires forall i :: 0 <= i < |refs| ==> RefOk(objs, refs[i], level) && !LessEq(name, refs[i].name)
    requires Sorted(FlatAll(objs, refs, level))
    ensures forall e :: e in FlatAll(objs, refs, level) ==> e.name != name
  {
    hide Flat, RefOk, Sorted;
    if refs == [] {
      assert FlatAll(objs, refs, level) == [];
    } else {
      FlatAllEndsWithLast(objs, refs, level);
      forall e | e in FlatAll(objs, refs, level)
        ensures e.name != name
      {
        NoneAboveTheLast(FlatAll(objs, refs, level), e);
        LessTrichotomy(name, refs[|refs| - 1].name);
      }
    }
  }

  /** What comes after the subtree that covers a name does not hold it. */
  lemma NothingPastTheCover(mid: seq<TreeEntry>, right: seq<TreeEntry>, key: Bytes, name: Bytes)
    requires mid != [] && LastName(mid) == key && LessEq(name, key)
    requires forall x, y :: x in mid && y in right ==> Less(x.name, y.name)
    ensures forall e :: e in right ==> e.name != name
  {
    var last := mid[|mid| - 1];
    forall e | e in right
      ensures e.name != name
    {
      assert last in mid;
      LessTrichotomy(name, e.name);
      if name == e.name && Less(name, key) { LessTransitive(name, key, e.name); }
    }
  }

  /** Beyond the last routing key there is nothing to find. */
  lemma NothingBeyondTheLastKey(objs: Objects, n: Name, level: nat, name: Bytes)
    requires level > 0 && WellFormed(objs, n, level) && Sorted(Flat(objs, n, level))
    requires forall i :: 0 <= i < |objs[n].entries| ==> !LessEq(name, objs[n].entries[i].name)
    ensures Finds(Flat(objs, n, level), name, None)
  {
    var refs := objs[n].entries;
    ChildrenAreRefs(objs, n, level);
    FlatAllEndsWithLast(objs, refs, level - 1);
    forall e | e in Flat(objs, n, level)
      ensures e.name != name
    {
      NoneAboveTheLast(Flat(objs, n, level), e);
      LessTrichotomy(name, refs[|refs| - 1].name);
    }
  }

  /** `_child_covering`: the index of the first child whose key is not below `name`. */
  method ChildCovering(refs: seq<TreeEntry>, name: Bytes) returns (k: Option<nat>)
    ensures match k
            case Some(i) => i < |refs| && LessEq(name, refs[i].name)
                            && forall j :: 0 <= j < i ==> !LessEq(name, refs[j].name)
            case None => forall j :: 0 <= j < |refs| ==> !LessEq(name, refs[j].name)
  {
    for i := 0 to |refs|
      invariant forall j :: 0 <= j < i ==> !LessEq(name, refs[j].name)
    {
      if LessEq(name, refs[i].name) {
        return Some(i);
      }
    }
    k := None;
  }

  /** `_find_in_leaf`. */
  method FindInLeaf(entries: seq<TreeEntry>, name: Bytes) returns (found: Option<TreeEntry>)
    requires Sorted(entries)
    ensures Finds(entries, name, found)
  {
    for i := 0 to |entries|
      invariant forall j :: 0 <= j < i ==> entries[j].name != name
    {
      if entries[i].name == name {
        return Some(entries[i]);
      }
      if Less(name, entries[i].name) {
        forall j | i <= j < |entries|
          ensures entries[j].name != name
        {
          LessTrichotomy(name, entries[i].name);
          if i < j {
            LessTransitive(name, entries[i].name, entries[j].name);
            LessTrichotomy(name, entries[j].name);
          }
        }
        break;
      }
    }
    found := None;
  }

  /** `lookup`: one child per level, and the answer of the sorted map. */
  method Lookup(objs: Objects, tree: Name, name: Bytes) returns (found: Option<TreeEntry>)
    requires Readable(objs, tree)
    ensures Finds(Listing(objs, tree), name, found)
  {
    var node := tree;
    ghost var whole := Listing(objs, tree);
    while objs[node].level > 0
      invariant Readable(objs, node)
      invariant forall answer :: Finds(Listing(objs, node), name, answer) ==> Finds(whole, name, answer)
      decreases objs[node].level
    {
      var level := objs[node].level;
      var k := ChildCovering(objs[node].entries, name);
      if k.None? {
        NothingBeyondTheLastKey(objs, node, level, name);
        return None;
      }
      var child := objs[node].entries[k.value].target;
      ChildrenAreRefs(objs, node, level);
      assert RefOk(objs, objs[node].entries[k.value], level - 1);
      forall answer | Finds(Flat(objs, child, level - 1), name, answer)
        ensures Finds(Flat(objs, node, level), name, answer)
      {
        CoveringChildDecides(objs, node, level, k.value, name, answer);
      }
      ChildIsSorted(objs, node, level, k.value);
      node := child;
    }
    found := FindInLeaf(objs[node].entries, name);
  }

  lemma ChildIsSorted(objs: Objects, n: Name, level: nat, k: nat)
    requires level > 0 && WellFormed(objs, n, level) && Sorted(Flat(objs, n, level)) && k < |objs[n].entries|
    ensures Sorted(Flat(objs, objs[n].entries[k].target, level - 1))
  {
    var refs := objs[n].entries;
    SplitAtChild(objs, refs, k, level - 1);
    SortedParts(FlatAll(objs, refs[..k], level - 1),
                Flat(objs, refs[k].target, level - 1) + FlatAll(objs, refs[k + 1..], level - 1));
    SortedParts(Flat(objs, refs[k].target, level - 1), FlatAll(objs, refs[k + 1..], level - 1));
  }

  // ---- streaming ----

  predicate Above(e: TreeEntry, after: Option<Bytes>)
  {
    after.None? || Less(after.value, e.name)
  }

  /** The entries above a cursor. */
  function After(entries: seq<TreeEntry>, after: Option<Bytes>): (rest: seq<TreeEntry>)
  {
    if entries == [] then []
    else (if Above(entries[0], after) then [entries[0]] else []) + After(entries[1..], after)
  }

  /** `iter_entries`: what the generator yields, in order. */
  function IterEntries(objs: Objects, n: Name, level: nat, after: Option<Bytes>): (entries: seq<TreeEntry>)
    decreases level, 0
  {
    if n !in objs || !objs[n].Tree? then []
    else if level == 0 then After(objs[n].entries, after)
    else IterChildren(objs, objs[n].entries, level - 1, after)
  }

  function IterChildren(objs: Objects, refs: seq<TreeEntry>, level: nat,
                        after: Option<Bytes>): (entries: seq<TreeEntry>)
    decreases level, 1 + |refs|
  {
    if refs == [] then []
    else
      (if after.Some? && LessEq(refs[0].name, after.value) then [] else IterEntries(objs, refs[0].target, level, after))
      + IterChildren(objs, refs[1..], level, after)
  }

  lemma {:induction false} EverythingAfterNothing(entries: seq<TreeEntry>)
    ensures After(entries, None) == entries
  {
    if entries != [] {
      EverythingAfterNothing(entries[1..]);
    }
  }

  lemma {:induction false} AfterOfConcat(a: seq<TreeEntry>, b: seq<TreeEntry>, after: Option<Bytes>)
    ensures After(a + b, after) == After(a, after) + After(b, after)
  {
    hide Above;
    if a == [] {
      assert a + b == b;
    } else {
      var head := if Above(a[0], after) then [a[0]] else [];
      AfterOfConcat(a[1..], b, after);
      assert (a + b)[0] == a[0] && (a + b)[1..] == a[1..] + b;
      assert After(a + b, after) == head + After(a[1..] + b, after);
      assert head + (After(a[1..], after) + After(b, after)) == (head + After(a[1..], after)) + After(b, after);
    }
  }

  lemma {:induction false} NothingAfter(entries: seq<TreeEntry>, after: Option<Bytes>)
    requires forall e :: e in entries ==> !Above(e, after)
    ensures After(entries, after) == []
  {
    if entries != [] {
      assert entries[0] in entries;
      assert forall e :: e in entries[1..] ==> e in entries;
      NothingAfter(entries[1..], after);
    }
  }

  /** A subtree whose last key is at or before the cursor holds nothing to yield. */
  lemma SkippedSubtreeIsEmpty(entries: seq<TreeEntry>, after: Bytes)
    requires entries != [] && Sorted(entries) && LessEq(LastName(entries), after)
    ensures After(entries, Some(after)) == []
  {
    forall e | e in entries
      ensures !Above(e, Some(after))
    {
      NoneAboveTheLast(entries, e);
      LessTrichotomy(e.name, after);
      if Less(e.name, LastName(entries)) && Less(LastName(entries), after) {
        LessTransitive(e.name, LastName(entries), after);
      }
    }
    NothingAfter(entries, Some(after));
  }

  /** Streaming from a cursor yields exactly the entries above it, in order, although
      whole subtrees are never fetched. */
  lemma {:induction false} IterYieldsTheRest(objs: Objects, n: Name, level: nat, after: Option<Bytes>)
    requires WellFormed(objs, n, level) && Sorted(Flat(objs, n, level))
    ensures IterEntries(objs, n, level, after) == After(Flat(objs, n, level), after)
    decreases level, 0
  {
    if level > 0 {
      ChildrenAreRefs(objs, n, level);
      IterChildrenYieldTheRest(objs, objs[n].entries, level - 1, after);
    }
  }

  lemma {:induction false} IterChildrenYieldTheRest(objs: Objects, refs: seq<TreeEntry>, level: nat,
                                                    after: Option<Bytes>)
    requires forall i :: 0 <= i < |refs| ==> RefOk(objs, refs[i], level)
    requires Sorted(FlatAll(objs, refs, level))
    ensures IterChildren(objs, refs, level, after) == After(FlatAll(objs, refs, level), after)
    decreases level, 1 + |refs|
  {
    if refs != [] {
      var first, rest := Flat(objs, refs[0].target, level), FlatAll(objs, refs[1..], level);
      assert RefOk(objs, refs[0], level);
      assert forall i :: 0 <= i < |refs| - 1 ==> refs[1..][i] == refs[i + 1];
      SortedParts(first, rest);
      AfterOfConcat(first, rest, after);
      IterYieldsTheRest(objs, refs[0].target, level, after);
      IterChildrenYieldTheRest(objs, refs[1..], level, after);
      if after.Some? && LessEq(refs[0].name, after.value) {
        SkippedSubtreeIsEmpty(first, after.value);
      }
    }
  }

  // ---- paging ----

  datatype Page = Page(entries: seq<TreeEntry>, cursor: Option<Bytes>)

  /** The page a sorted list gives: at most `limit` entries, and a cursor exactly when
      more remain. */
  function PageOf(rest: seq<TreeEntry>, limit: nat): (page: Page)
    requires limit > 0
  {
    if |rest| <= limit then Page(rest, None) else Page(rest[..limit], Some(rest[limit - 1].name))
  }

  lemma {:induction false} AfterIsSorted(entries: seq<TreeEntry>, after: Option<Bytes>)
    requires Sorted(entries)
    ensures Sorted(After(entries, after))
    ensures forall e :: e in After(entries, after) ==> e in entries && Above(e, after)
  {
    if entries != [] {
      SortedParts([entries[0]], entries[1..]);
      assert [entries[0]] + entries[1..] == entries;
      AfterIsSorted(entries[1..], after);
    }
  }

  /** A later cursor sees no more than an earlier one. */
  lemma {:induction false} AfterTwice(entries: seq<TreeEntry>, after: Option<Bytes>, name: Bytes)
    requires after.Some? ==> Less(after.value, name)
    ensures After(After(entries, after), Some(name)) == After(entries, Some(name))
  {
    if entries != [] {
      var head := if Above(entries[0], after) then [entries[0]] else [];
      if after.Some? && Less(name, entries[0].name) { LessTransitive(after.value, name, entries[0].name); }
      AfterTwice(entries[1..], after, name);
      AfterOfConcat(head, After(entries[1..], after), Some(name));
      if head != [] { assert After(head[1..], Some(name)) == []; }
    }
  }

  /** Resuming after the k-th entry of a listing gives what follows it. */
  lemma AfterResumes(entries: seq<TreeEntry>, after: Option<Bytes>, k: nat)
    requires Sorted(entries) && k < |After(entries, after)|
    ensures After(entries, Some(After(entries, after)[k].name)) == After(entries, after)[k + 1..]
  {
    hide After;
    var rest := After(entries, after);
    var name := rest[k].name;
    AfterIsSorted(entries, after);
    assert rest[k] in rest;
    AfterTwice(entries, after, name);
    var left, right := rest[..k + 1], rest[k + 1..];
    assert rest == left + right;
    AfterOfConcat(left, right, Some(name));
    forall e | e in left
      ensures !Above(e, Some(name))
    {
      LessTrichotomy(e.name, name);
      var i :| 0 <= i < |left| && left[i] == e;
      assert rest[i] == e;
    }
    NothingAfter(left, Some(name));
    forall e | e in right
      ensures Less(name, e.name)
    {
      var i :| 0 <= i < |right| && right[i] == e;
      assert rest[k + 1 + i] == e;
    }
    EverythingAbove(right, name);
  }

  lemma {:induction false} EverythingAbove(entries: seq<TreeEntry>, name: Bytes)
    requires forall e :: e in entries ==> Less(name, e.name)
    ensures After(entries, Some(name)) == entries
  {
    if entries != [] {
      assert entries[0] in entries;
      assert forall e :: e in entries[1..] ==> e in entries;
      EverythingAbove(entries[1..], name);
    }
  }

  /** `list_dir`: one page, resuming after a name. */
  method ListDir(objs: Objects, tree: Name, after: Option<Bytes>, limit: nat) returns (page: Page)
    requires Readable(objs, tree) && limit > 0
    ensures page == PageOf(After(Listing(objs, tree), after), limit)
  {
    hide After, IterEntries, Flat, WellFormed, Sorted;
    var level := objs[tree].level;
    var stream := IterEntries(objs, tree, level, after);
    IterYieldsTheRest(objs, tree, level, after);
    var collected: seq<TreeEntry> := [];
    for i := 0 to |stream|
      invariant collected == stream[..i] && i < limit
    {
      collected := collected + [stream[i]];
      if |collected| == limit {
        var more := IterEntries(objs, tree, level, Some(stream[i].name));
        IterYieldsTheRest(objs, tree, level, Some(stream[i].name));
        AfterResumes(Listing(objs, tree), after, i);
        assert stream[..limit] == collected;
        return Page(collected, if more != [] then Some(stream[i].name) else None);
      }
    }
    assert stream[..|stream|] == stream;
    page := Page(collected, None);
  }

  /** Every page a client sees by following cursors. */
  function Pages(entries: seq<TreeEntry>, after: Option<Bytes>, limit: nat): (pages: seq<Page>)
    requires limit > 0 && Sorted(entries)
    decreases |After(entries, after)|
  {
    var page := PageOf(After(entries, after), limit);
    if page.cursor.None? then [page]
    else
      AfterResumes(entries, after, limit - 1);
      [page] + Pages(entries, page.cursor, limit)
  }

  function PagedEntries(pages: seq<Page>): (entries: seq<TreeEntry>)
  {
    if pages == [] then [] else pages[0].entries + PagedEntries(pages[1..])
  }

  /** Following cursors yields every entry exactly once and in order; every page but
      the last is full, and no empty page follows a full one. */
  lemma {:induction false} PagingIsComplete(entries: seq<TreeEntry>, after: Option<Bytes>, limit: nat)
    requires limit > 0 && Sorted(entries)
    ensures var pages := Pages(entries, after, limit);
            && pages != []
            && PagedEntries(pages) == After(entries, after)
            && (forall i :: 0 <= i < |pages| - 1 ==> |pages[i].entries| == limit)
            && (After(entries, after) != [] ==> pages[|pages| - 1].entries != [])
    decreases |After(entries, after)|
  {
    hide After, Sorted;
    var rest := After(entries, after);
    var page := PageOf(rest, limit);
    if page.cursor.None? {
      assert PagedEntries([page]) == page.entries + PagedEntries([page][1..]);
      assert [page][1..] == [];
    } else {
      AfterResumes(entries, after, limit - 1);
      PagingIsComplete(entries, page.cursor, limit);
      var later := Pages(entries, page.cursor, limit);
      assert ([page] + later)[1..] == later;
      assert rest[..limit] + rest[limit..] == rest;
    }
  }
}
