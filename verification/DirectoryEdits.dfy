/** Edits of a nested map: put one item at one path, or remove what is there. */
module DirectoryEdits {
  import opened ByteStrings
  import opened Model
  import opened Directory

  /** Put `item` at `path`, or remove what is there. Directories on the way are made
      for a put; a removal below a missing directory changes nothing. */
  function Edited(d: Item, path: Path, item: Option<Item>): (r: Result<Item>)
    requires d.Dir? && path != []
    ensures r.Ok? ==> r.value.Dir?
    decreases |path|
  {
    var name := path[0];
    if |path| == 1 then
      Ok(Dir(if item.None? then d.children - {name} else d.children[name := item.value]))
    else if name in d.children then
      if d.children[name].Leaf? then Err(InvalidRequest)
      else
        var sub :- Edited(d.children[name], path[1..], item);
        Ok(Dir(d.children[name := sub]))
    else if item.None? then Ok(d)
    else
      var sub :- Edited(EmptyDir(), path[1..], item);
      Ok(Dir(d.children[name := sub]))
  }

  /** Neither path leads through the other. */
  predicate Unrelated(p: Path, q: Path)
  {
    p != [] && q != [] && (p[0] != q[0] || Unrelated(p[1..], q[1..]))
  }

  /** The edited path holds what was put there, or nothing after a removal. */
  lemma {:induction false} EditTakesEffect(d: Item, path: Path, item: Option<Item>)
    requires d.Dir? && path != [] && Edited(d, path, item).Ok?
    ensures At(Edited(d, path, item).value, path) == item
    decreases |path|
  {
    var name := path[0];
    if |path| > 1 {
      if name in d.children {
        EditTakesEffect(d.children[name], path[1..], item);
      } else if item.Some? {
        EditTakesEffect(EmptyDir(), path[1..], item);
      }
    } else {
      assert path[1..] == [];
    }
  }

  /** Every unrelated path keeps what it held. */
  lemma {:induction false} EditKeepsTheRest(d: Item, path: Path, item: Option<Item>, other: Path)
    requires d.Dir? && path != [] && Edited(d, path, item).Ok?
    requires Unrelated(path, other)
    ensures At(Edited(d, path, item).value, other) == At(d, other)
    decreases |path|
  {
    var name := path[0];
    if other[0] == name {
      assert Unrelated(path[1..], other[1..]);
      if name in d.children {
        EditKeepsTheRest(d.children[name], path[1..], item, other[1..]);
      } else if item.Some? {
        EditKeepsTheRest(EmptyDir(), path[1..], item, other[1..]);
      }
    }
  }

  /** An edit is refused exactly when its path leads through a file. */
  lemma {:induction false} EditRefusedIff(d: Item, path: Path, item: Option<Item>)
    requires d.Dir? && path != []
    ensures Edited(d, path, item).Err? <==>
              exists k :: 0 < k < |path| && At(d, path[..k]).Some? && At(d, path[..k]).value.Leaf?
    ensures Edited(d, path, item).Err? ==> Edited(d, path, item).error == InvalidRequest
    decreases |path|
  {
    var name := path[0];
    if |path| > 1 {
      forall k | 0 < k < |path|
        ensures At(d, path[..k])
                == if name in d.children then At(d.children[name], path[1..][..k - 1]) else None
      {
        assert path[..k][1..] == path[1..][..k - 1];
      }
      if name in d.children {
        var sub := d.children[name];
        if sub.Leaf? {
          assert At(d, path[..1]) == At(sub, path[1..][..0]);
        } else {
          EditRefusedIff(sub, path[1..], item);
          if k :| 0 < k < |path[1..]| && At(sub, path[1..][..k]).Some? && At(sub, path[1..][..k]).value.Leaf? {
            assert At(d, path[..k + 1]) == At(sub, path[1..][..k]);
          }
        }
      } else if item.Some? {
        EditRefusedIff(EmptyDir(), path[1..], item);
        NothingInEmpty(path[1..]);
      }
    }
  }

  lemma NothingInEmpty(path: Path)
    ensures forall k :: 0 < k <= |path| ==> At(EmptyDir(), path[..k]).None?
  {
  }

  /** Directories on the way are there afterwards if they were, or if something was put:
      a removal makes none, and takes none away. */
  lemma {:induction false} EditMakesDirectoriesForPuts(d: Item, path: Path, item: Option<Item>, k: nat)
    requires d.Dir? && 0 < k < |path| && Edited(d, path, item).Ok?
    ensures var was, now := At(d, path[..k]), At(Edited(d, path, item).value, path[..k]);
            (now.Some? <==> was.Some? || item.Some?) && (now.Some? ==> now.value.Dir?)
    decreases |path|
  {
    var name := path[0];
    assert path[..k][1..] == path[1..][..k - 1];
    if name in d.children || item.Some? {
      var sub := SubDir(d, name);
      if k > 1 {
        EditMakesDirectoriesForPuts(sub, path[1..], item, k - 1);
        NothingInEmpty(path[1..]);
      } else {
        assert path[1..][..0] == [];
      }
    }
  }

  /** Edits at unrelated paths commute, so the order they are made in does not matter. */
  lemma {:induction false} EditsCommute(d: Item, p: Path, x: Option<Item>, q: Path, y: Option<Item>)
    requires d.Dir? && Unrelated(p, q)
    requires Edited(d, p, x).Ok? && Edited(Edited(d, p, x).value, q, y).Ok?
    ensures Edited(d, q, y).Ok?
    ensures Edited(Edited(d, q, y).value, p, x) == Edited(Edited(d, p, x).value, q, y)
    decreases |p|
  {
    var a := p[0];
    if a == q[0] {
      assert Unrelated(p[1..], q[1..]);
      var below := SubDir(d, a);
      EditBelow(d, p, x);
      EditBelow(Edited(d, p, x).value, q, y);
      EditBelow(d, q, y);
      var first, both := Edited(below, p[1..], x).value, Edited(Edited(below, p[1..], x).value, q[1..], y).value;
      EditsCommute(below, p[1..], x, q[1..], y);
      var second := Edited(below, q[1..], y).value;
      EditBelow(With(d, a, second), p, x);
      if x.Some? {
        PutLeavesSomething(second, p[1..], x);
      } else if y.Some? {
        PutLeavesSomething(first, q[1..], y);
      } else if below == EmptyDir() {
        RemoveFromEmpty(p[1..]);
        RemoveFromEmpty(q[1..]);
      }
      WithTwice(d, a, first, both);
      WithTwice(d, a, second, both);
    } else {
      EditsApart(d, p, x, q, y);
    }
  }

  /** The directory a name leads to; a missing one counts as empty. */
  function SubDir(d: Item, name: Bytes): (sub: Item)
    requires d.Dir?
  {
    if name in d.children then d.children[name] else EmptyDir()
  }

  /** `d` with one name led to `sub`, unless that leaves a missing directory missing. */
  function With(d: Item, name: Bytes, sub: Item): (r: Item)
    requires d.Dir?
    ensures r.Dir?
  {
    if name !in d.children && sub == EmptyDir() then d else Dir(d.children[name := sub])
  }

  lemma WithTwice(d: Item, name: Bytes, first: Item, second: Item)
    requires d.Dir?
    requires name !in d.children && second == EmptyDir() ==> first == EmptyDir()
    ensures With(With(d, name, first), name, second) == With(d, name, second)
    ensures SubDir(With(d, name, first), name) == first
  {
    assert d.children[name := first][name := second] == d.children[name := second];
  }

  /** An edit below a directory is the edit of what the first name leads to. */
  lemma EditBelow(d: Item, path: Path, item: Option<Item>)
    requires d.Dir? && |path| > 1
    ensures SubDir(d, path[0]).Leaf? ==> Edited(d, path, item) == Err(InvalidRequest)
    ensures SubDir(d, path[0]).Dir? ==>
              Edited(d, path, item) == match Edited(SubDir(d, path[0]), path[1..], item)
                                       case Err(e) => Err(e)
                                       case Ok(sub) => Ok(With(d, path[0], sub))
  {
    if path[0] !in d.children {
      RemoveFromEmpty(path[1..]);
      if item.Some? && Edited(EmptyDir(), path[1..], item).Ok? {
        PutLeavesSomething(EmptyDir(), path[1..], item);
      }
    }
  }

  lemma PutLeavesSomething(d: Item, path: Path, item: Option<Item>)
    requires d.Dir? && path != [] && item.Some? && Edited(d, path, item).Ok?
    ensures Edited(d, path, item).value != EmptyDir()
  {
    EditTakesEffect(d, path, item);
  }

  lemma EditsApart(d: Item, p: Path, x: Option<Item>, q: Path, y: Option<Item>)
    requires d.Dir? && p != [] && q != [] && p[0] != q[0]
    requires Edited(d, p, x).Ok? && Edited(Edited(d, p, x).value, q, y).Ok?
    ensures Edited(d, q, y).Ok?
    ensures Edited(Edited(d, q, y).value, p, x) == Edited(Edited(d, p, x).value, q, y)
  {
    hide Edited;
    var a, b := p[0], q[0];
    var d1 := Edited(d, p, x).value;
    OtherNameUntouched(d, p, x);
    SameEditThere(d, d1, q, y);
    var d2 := Edited(d, q, y).value;
    OtherNameUntouched(d, q, y);
    SameEditThere(d, d2, p, x);
    OtherNameUntouched(d1, q, y);
    OtherNameUntouched(d2, p, x);
    assert Edited(d2, p, x).value.children == Edited(d1, q, y).value.children;
  }

  /** Removing from an empty directory leaves it empty. */
  lemma RemoveFromEmpty(path: Path)
    requires path != []
    ensures Edited(EmptyDir(), path, None) == Ok(EmptyDir())
  {
    assert EmptyDir().children - {path[0]} == EmptyDir().children;
  }

  /** An edit changes only what its first name leads to. */
  lemma OtherNameUntouched(d: Item, path: Path, item: Option<Item>)
    requires d.Dir? && path != [] && Edited(d, path, item).Ok?
    ensures var d' := Edited(d, path, item).value;
            forall name :: name != path[0] ==>
              && (name in d'.children <==> name in d.children)
              && (name in d'.children ==> d'.children[name] == d.children[name])
  {
  }

  lemma SameEditThere(d: Item, e: Item, path: Path, item: Option<Item>)
    requires d.Dir? && e.Dir? && path != []
    requires path[0] in d.children <==> path[0] in e.children
    requires path[0] in d.children ==> d.children[path[0]] == e.children[path[0]]
    ensures Edited(d, path, item).Ok? == Edited(e, path, item).Ok?
    ensures Edited(d, path, item).Ok? ==>
              var d', e' := Edited(d, path, item).value, Edited(e, path, item).value;
              && (path[0] in d'.children <==> path[0] in e'.children)
              && (path[0] in d'.children ==> d'.children[path[0]] == e'.children[path[0]])
  {
  }
}
