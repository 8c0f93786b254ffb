/** The codec's validators (src/format/codec.py, "Validation"): each rule as a
    predicate, and the loops that check the ordered lists. */
module Validation {
  import opened ByteStrings
  import opened Model

  /** Strict UTF-8: the well-formed sequences of section 3 of RFC 3629, so neither
      overlong forms nor surrogates. */
  predicate ValidUtf8(b: Bytes)
  {
    b == [] || (var n := FirstCharacter(b); n > 0 && ValidUtf8(b[n..]))
  }

  /** The length of the character `b` starts with, or 0 when it starts with none. */
  function FirstCharacter(b: Bytes): (length: nat)
    requires b != []
    ensures length <= |b|
  {
    if b[0] < 0x80 then 1
    else if 0xC2 <= b[0] <= 0xDF then
      if |b| >= 2 && Continues(b[1]) then 2 else 0
    else if 0xE0 <= b[0] <= 0xEF then
      if |b| >= 3 && Continues(b[1]) && Continues(b[2])
         && (b[0] == 0xE0 ==> b[1] >= 0xA0) && (b[0] == 0xED ==> b[1] < 0xA0) then 3 else 0
    else
      if 0xF0 <= b[0] <= 0xF4 && |b| >= 4 && Continues(b[1]) && Continues(b[2]) && Continues(b[3])
         && (b[0] == 0xF0 ==> b[1] >= 0x90) && (b[0] == 0xF4 ==> b[1] < 0x90) then 4 else 0
  }

  predicate Continues(b: Byte)
  {
    0x80 <= b < 0xC0
  }

  /** Neither an empty node nor a single-child one may sit above level 0. */
  predicate NodeLevelOk(level: int, count: nat)
  {
    (count == 0 ==> level == 0) && (level > 0 ==> count >= 2)
  }

  predicate EntryNameOk(name: Bytes)
  {
    && 1 <= |name| <= MAX_ENTRY_NAME_BYTES
    && 0x2F !in name && 0x00 !in name
    && name != [0x2E] && name != [0x2E, 0x2E]
    && ValidUtf8(name)
  }

  predicate EntryOk(level: int, e: TreeEntry)
  {
    && EntryNameOk(e.name)
    && e.kind != ConflictKind
    && if level > 0 then e.kind == TreeKind && e.mode == 0 && e.size == 0
       else
         && e.size >= 0
         && match e.kind
            case BlobKind => e.mode == MODE_REGULAR || e.mode == MODE_EXEC
            case TreeKind => e.mode == 0 && e.size == 0
            case SymlinkKind => e.mode == 0
            case ConflictKind => false
  }

  predicate Ascending(keys: seq<Bytes>)
  {
    forall i :: 0 < i < |keys| ==> Less(keys[i - 1], keys[i])
  }

  function EntryNames(entries: seq<TreeEntry>): (names: seq<Bytes>)
    ensures |names| == |entries|
    ensures forall i :: 0 <= i < |names| ==> names[i] == entries[i].name
  {
    seq(|entries|, i requires 0 <= i < |entries| => entries[i].name)
  }

  predicate TreeEntriesOk(level: int, entries: seq<TreeEntry>)
  {
    && (forall i :: 0 <= i < |entries| ==> EntryOk(level, entries[i]))
    && Ascending(EntryNames(entries))
  }

  predicate Distinct<T(==)>(xs: seq<T>)
  {
    forall i, j :: 0 <= i < j < |xs| ==> xs[i] != xs[j]
  }

  predicate CommitOk(o: Object)
    requires o.Commit?
  {
    && |o.changeId| == CHANGE_ID_BYTES
    && Distinct(o.parents)
    && o.author != [] && o.committer != []
    && MetadataOk(o.metadata)
  }

  function Keys(metadata: seq<(Bytes, Bytes)>): (keys: seq<Bytes>)
    ensures |keys| == |metadata|
    ensures forall i :: 0 <= i < |keys| ==> keys[i] == metadata[i].0
  {
    seq(|metadata|, i requires 0 <= i < |metadata| => metadata[i].0)
  }

  predicate MetadataOk(metadata: seq<(Bytes, Bytes)>)
  {
    && (forall i :: 0 <= i < |metadata| ==> metadata[i].0 != [])
    && Ascending(Keys(metadata))
  }

  // ---- what the ordered checks mean ----

  /** Checking neighbours is checking every pair. */
  lemma {:induction false} AscendingPairwise(keys: seq<Bytes>, i: nat, j: nat)
    requires Ascending(keys)
    requires i < j < |keys|
    ensures Less(keys[i], keys[j])
    decreases j
  {
    if i + 1 < j {
      AscendingPairwise(keys, i, j - 1);
      LessTransitive(keys[i], keys[j - 1], keys[j]);
    }
  }

  /** `len(set(xs)) == len(xs)` is the test for duplicates. */
  lemma {:induction false} SetSizeShowsDuplicates<T>(xs: seq<T>)
    ensures |set x | x in xs| <= |xs|
    ensures |set x | x in xs| == |xs| <==> Distinct(xs)
  {
    if xs != [] {
      var front, last := xs[..|xs| - 1], xs[|xs| - 1];
      SetSizeShowsDuplicates(front);
      var all, most := (set x | x in xs), (set x | x in front);
      assert xs == front + [last];
      assert all == most + {last};
      if last in front {
        assert all == most;
        var i :| 0 <= i < |front| && front[i] == last;
        assert xs[i] == xs[|xs| - 1];
      } else {
        assert |all| == |most| + 1;
        assert Distinct(xs) <==> Distinct(front) by {
          if Distinct(xs) {
            assert forall i, j :: 0 <= i < j < |front| ==> front[i] == xs[i] && front[j] == xs[j];
          }
        }
      }
    }
  }

  // ---- the checks as the source runs them ----

  method ValidateTreeEntries(level: int, entries: seq<TreeEntry>) returns (r: Outcome)
    ensures r == if TreeEntriesOk(level, entries) then Pass else Fail(NotCanonical)
  {
    var previous: Option<Bytes> := None;
    for k := 0 to |entries|
      invariant previous == if k == 0 then None else Some(entries[k - 1].name)
      invariant forall i :: 0 <= i < k ==> EntryOk(level, entries[i])
      invariant forall i :: 0 < i < k ==> Less(entries[i - 1].name, entries[i].name)
    {
      var e := entries[k];
      ghost var names := EntryNames(entries);
      if !EntryNameOk(e.name) {
        return Fail(NotCanonical);
      }
      if previous.Some? && LessEq(e.name, previous.value) {
        LessTrichotomy(e.name, previous.value);
        assert names[k - 1] == previous.value && names[k] == e.name;
        return Fail(NotCanonical);
      }
      if previous.Some? {
        LessTrichotomy(e.name, previous.value);
      }
      previous := Some(e.name);
      if e.kind == ConflictKind {
        return Fail(NotCanonical);
      }
      if level > 0 {
        if e.kind != TreeKind || e.mode != 0 || e.size != 0 {
          return Fail(NotCanonical);
        }
        continue;
      }
      match e.kind {
        case BlobKind =>
          if e.mode != MODE_REGULAR && e.mode != MODE_EXEC { return Fail(NotCanonical); }
        case TreeKind =>
          if e.mode != 0 || e.size != 0 { return Fail(NotCanonical); }
        case SymlinkKind =>
          if e.mode != 0 { return Fail(NotCanonical); }
      }
      if e.size < 0 {
        return Fail(NotCanonical);
      }
    }
    r := Pass;
  }

  method ValidateCommit(o: Object) returns (r: Outcome)
    requires o.Commit?
    ensures r == if CommitOk(o) then Pass else Fail(NotCanonical)
  {
    if |o.changeId| != CHANGE_ID_BYTES {
      return Fail(NotCanonical);
    }
    SetSizeShowsDuplicates(o.parents);
    if |set p | p in o.parents| != |o.parents| {
      return Fail(NotCanonical);
    }
    if o.author == [] || o.committer == [] {
      return Fail(NotCanonical);
    }
    ghost var keys := Keys(o.metadata);
    var previous: Option<Bytes> := None;
    for k := 0 to |o.metadata|
      invariant previous == if k == 0 then None else Some(o.metadata[k - 1].0)
      invariant forall i :: 0 <= i < k ==> o.metadata[i].0 != []
      invariant forall i :: 0 < i < k ==> Less(o.metadata[i - 1].0, o.metadata[i].0)
    {
      var key := o.metadata[k].0;
      if key == [] {
        return Fail(NotCanonical);
      }
      if previous.Some? && LessEq(key, previous.value) {
        LessTrichotomy(key, previous.value);
        assert keys[k - 1] == previous.value && keys[k] == key;
        return Fail(NotCanonical);
      }
      if previous.Some? {
        LessTrichotomy(key, previous.value);
      }
      previous := Some(key);
    }
    r := Pass;
  }
}
