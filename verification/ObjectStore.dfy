/** The content-addressed store (src/store/cas.py) with its write catalog
    (src/store/catalog.py) and tombstones (src/store/tombstone.py). An object at rest is
    held as what it decodes to; by the inverse law of the codec that is the same thing as
    its one encoding. What a caller supplies is checked against the name it came under;
    what this process has just encoded is not checked again. */
module ObjectStores {
  import opened ByteStrings
  import opened Model
  import opened CodecSpec
  import opened Codec
  import opened Shape
  import opened TreeNodes

  datatype CatalogEntry = CatalogEntry(size: nat, kind: Byte, writtenAtUs: int)

  /** Naming never gives two objects one name. */
  ghost predicate Injective(nameOf: Naming)
  {
    forall a: Object, b: Object {:trigger nameOf(a), nameOf(b)} :: nameOf(a) == nameOf(b) ==> a == b
  }

  /** The name of an object is the hash of its encoding. */
  ghost predicate NamesEncodings(nameOf: Naming, hash: Bytes -> Name)
  {
    forall o: Object {:trigger nameOf(o)} :: Encode(o).Ok? ==> nameOf(o) == hash(Encode(o).value)
  }

  class ObjectStore {
    const nameOf: Naming
    const hash: Bytes -> Name
    var objects: map<Name, Object>
    var catalog: map<Name, CatalogEntry>
    /** Swept names, each with its expiry. */
    var tombstones: map<Name, int>

    constructor (nameOf: Naming, hash: Bytes -> Name)
      requires Injective(nameOf) && NamesEncodings(nameOf, hash)
      ensures Valid() && objects == map[] && catalog == map[] && tombstones == map[]
      ensures this.nameOf == nameOf && this.hash == hash
    {
      this.nameOf, this.hash := nameOf, hash;
      objects, catalog, tombstones := map[], map[], map[];
    }

    /** Everything is stored under its own name and has the form of an encodable object,
        and the catalog lists exactly what is stored. */
    ghost predicate Valid()
      reads this
    {
      && Injective(nameOf) && NamesEncodings(nameOf, hash)
      && (forall n :: n in objects ==> nameOf(objects[n]) == n && FormOk(objects[n]))
      && catalog.Keys == objects.Keys
    }

    /** `put_encoded`: bytes this process just encoded. Storing an object twice changes
        nothing but its tombstone. */
    method PutEncoded(name: Name, o: Object, occupied: nat, nowUs: int) returns (created: bool)
      requires Valid() && name == nameOf(o) && FormOk(o)
      modifies this
      ensures Valid()
      ensures objects == old(objects)[name := o]
      ensures created <==> name !in old(objects)
      ensures tombstones == old(tombstones) - {name}
      ensures catalog == if created then old(catalog)[name := CatalogEntry(occupied, KindTag(o), nowUs)]
                         else old(catalog)
    {
      if name in objects {
        assert nameOf(objects[name]) == nameOf(o);
        tombstones := tombstones - {name};
        return false;
      }
      objects := objects[name := o];
      tombstones := tombstones - {name};
      catalog := catalog[name := CatalogEntry(occupied, KindTag(o), nowUs)];
      created := true;
    }

    /** `put_object`: encode, then store. What has no encoding is refused, and nothing
        changes. */
    method PutObject(o: Object, occupied: nat, nowUs: int) returns (r: Result<bool>)
      requires Valid()
      modifies this
      ensures Valid()
      ensures r.Ok? <==> FormOk(o)
      ensures r.Err? ==> Encode(o) == Err(r.error)
      ensures r.Err? ==> objects == old(objects) && catalog == old(catalog) && tombstones == old(tombstones)
      ensures r.Ok? ==>
                && objects == old(objects)[nameOf(o) := o]
                && tombstones == old(tombstones) - {nameOf(o)}
                && (r.value <==> nameOf(o) !in old(objects))
                && catalog == if r.value then old(catalog)[nameOf(o) := CatalogEntry(occupied, KindTag(o), nowUs)]
                              else old(catalog)
    {
      if !FormOk(o) {
        EncodesIffStorable(o);
        if Storable(o) { StorableHasForm(o); }
        var framed := EncodeObject(o);
        return Err(framed.error);
      }
      var created := PutEncoded(nameOf(o), o, occupied, nowUs);
      r := Ok(created);
    }

    /** `put`: the door for bytes a caller supplied. They are taken exactly when they
        hash to the name they came under and are the encoding of some object; then
        that object, and nothing else, is stored under that name. */
    method Put(name: Name, framed: Bytes, occupied: nat, nowUs: int) returns (r: Result<bool>)
      requires Valid()
      modifies this
      ensures Valid()
      ensures r.Ok? <==> hash(framed) == name && Decode(framed).Ok?
      ensures hash(framed) != name ==> r == Err(Corrupt)
      ensures r.Err? ==> objects == old(objects) && catalog == old(catalog) && tombstones == old(tombstones)
      ensures r.Ok? ==>
                && objects == old(objects)[name := Decode(framed).value]
                && Encode(objects[name]) == Ok(framed)
                && tombstones == old(tombstones) - {name}
                && (r.value <==> name !in old(objects))
                && catalog == if r.value then old(catalog)[name := CatalogEntry(occupied, framed[0], nowUs)]
                              else old(catalog)
    {
      if hash(framed) != name {
        return Err(Corrupt);
      }
      var o :- DecodeObject(framed);
      EncodeOfDecode(framed);
      var again := EncodeObject(o);
      assert again == Ok(framed) && nameOf(o) == name;
      EncodesIffStorable(o);
      StorableHasForm(o);
      var created := PutEncoded(name, o, occupied, nowUs);
      r := Ok(created);
    }

    /** `get`: what is stored always verifies against its name. */
    method Get(name: Name) returns (r: Result<Object>)
      requires Valid()
      ensures r == if name in objects then Ok(objects[name]) else Err(NotFound)
      ensures r.Ok? ==> nameOf(r.value) == name
    {
      r := if name in objects then Ok(objects[name]) else Err(NotFound);
    }

    /** `missing`: the one existence predicate. A name is owed when it is not stored, or
        was swept and not stored again since. */
    method Missing(names: seq<Name>) returns (owed: set<Name>)
      ensures forall n :: n in owed <==> n in names && (n !in objects || n in tombstones)
    {
      var absent := set n | n in names && n !in objects;
      var swept := set n | n in names && n in tombstones;
      owed := absent + swept;
    }

    /** `tombstones.record`: an earlier tombstone keeps its expiry. */
    method RecordTombstones(names: seq<Name>, expiresAtUs: int)
      modifies this`tombstones
      ensures forall n :: n in tombstones <==> n in old(tombstones) || n in names
      ensures forall n :: n in tombstones ==>
                tombstones[n] == if n in old(tombstones) then old(tombstones)[n] else expiresAtUs
    {
      for i := 0 to |names|
        invariant forall n :: n in tombstones <==> n in old(tombstones) || n in names[..i]
        invariant forall n :: n in tombstones ==>
                    tombstones[n] == if n in old(tombstones) then old(tombstones)[n] else expiresAtUs
      {
        if names[i] !in tombstones {
          tombstones := tombstones[names[i] := expiresAtUs];
        }
      }
    }

    /** `delete`: objects and their catalog rows go together. */
    method Delete(names: seq<Name>) returns (removed: nat)
      requires Valid()
      modifies this`objects, this`catalog
      ensures Valid()
      ensures objects == old(objects) - (set n | n in names)
      ensures catalog == old(catalog) - (set n | n in names)
      ensures removed == |(set n | n in names && n in old(objects))|
    {
      var doomed := set n | n in names && n in objects;
      removed := |doomed|;
      objects := objects - (set n | n in names);
      catalog := catalog - (set n | n in names);
    }

    /** Emitting a build: every node is stored, and nothing that was there changes. */
    method PutAll(nodes: seq<Object>, nowUs: int) returns (written: seq<(Name, bool)>)
      requires Valid() && forall i :: 0 <= i < |nodes| ==> FormOk(nodes[i])
      modifies this
      ensures Valid()
      ensures Extends(old(objects), objects)
      ensures Stored(objects, nameOf, nodes)
      ensures forall n :: n in objects && n !in old(objects) ==> objects[n] in nodes
      ensures |written| == |nodes| && forall i :: 0 <= i < |nodes| ==> written[i].0 == nameOf(nodes[i])
    {
      hide NamesEncodings, Extends, Stored, FormOk;
      written := [];
      NothingPut(objects, nameOf);
      for i := 0 to |nodes|
        invariant Valid()
        invariant Extends(old(objects), objects)
        invariant Stored(objects, nameOf, nodes[..i])
        invariant forall n :: n in objects && n !in old(objects) ==> objects[n] in nodes
        invariant |written| == i && forall j :: 0 <= j < i ==> written[j].0 == nameOf(nodes[j])
      {
        var name := nameOf(nodes[i]);
        OnePut(old(objects), objects, nameOf, nodes, i);
        var created := PutEncoded(name, nodes[i], 0, nowUs);
        written := written + [(name, created)];
      }
      assert nodes[..|nodes|] == nodes;
    }
  }

  lemma NothingPut(objs: Objects, nameOf: Naming)
    ensures Extends(objs, objs) && Stored(objs, nameOf, [])
  {
  }

  lemma OnePut(was: Objects, objs: Objects, nameOf: Naming, nodes: seq<Object>, i: nat)
    requires i < |nodes| && Extends(was, objs) && Stored(objs, nameOf, nodes[..i])
    requires Injective(nameOf) && forall n :: n in objs ==> nameOf(objs[n]) == n
    ensures Extends(was, objs[nameOf(nodes[i]) := nodes[i]])
    ensures Stored(objs[nameOf(nodes[i]) := nodes[i]], nameOf, nodes[..i + 1])
  {
    var name, o := nameOf(nodes[i]), nodes[i];
    if name in objs { assert nameOf(objs[name]) == nameOf(o); }
    var more, put := objs[name := o], nodes[..i + 1];
    forall j | 0 <= j < |put|
      ensures nameOf(put[j]) in more && more[nameOf(put[j])] == put[j]
    {
      if j < i {
        assert put[j] == nodes[..i][j];
        if nameOf(put[j]) == name { assert put[j] == o; }
      }
    }
  }

  /** Storing twice is storing once. */
  method PutTwice(store: ObjectStore, o: Object, first: int, second: int) returns (again: Result<bool>)
    requires store.Valid()
    modifies store
    ensures again.Ok? ==> !again.value && store.objects == old(store.objects)[store.nameOf(o) := o]
    ensures again.Err? ==> store.objects == old(store.objects) && store.tombstones == old(store.tombstones)
    ensures again.Ok? <==> FormOk(o)
  {
    var _ := store.PutObject(o, 0, first);
    again := store.PutObject(o, 0, second);
  }
}
