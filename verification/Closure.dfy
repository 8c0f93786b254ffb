/** Everything a tree or a commit reaches (src/fs/closure.py): one worklist that returns
    each reachable name once and never fetches a chunk. */
module Closure {
  import opened ByteStrings
  import opened Model
  import opened Validation
  import opened TreeNodes

  /** How a name was reached, which says how to read it. */
  datatype Kind = TreeNode | BlobNode | ChunkLeaf

  datatype Place = Place(name: Name, kind: Kind)

  // ---- reachability ----

  function TreeTargets(level: int, entries: seq<TreeEntry>): (below: seq<Place>)
    ensures |below| == |entries|
  {
    seq(|entries|, i requires 0 <= i < |entries| =>
      Place(entries[i].target, if level > 0 || entries[i].kind == TreeKind then TreeNode else BlobNode))
  }

  function BlobTargets(level: int, children: seq<BlobEntry>): (below: seq<Place>)
    ensures |below| == |children|
  {
    seq(|children|, i requires 0 <= i < |children| =>
      Place(children[i].target, if level > 0 then BlobNode else ChunkLeaf))
  }

  /** What one object refers to, read as the kind it was reached as. */
  function Children(objs: Objects, v: Place): (below: seq<Place>)
  {
    if v.kind == ChunkLeaf || v.name !in objs then []
    else
      match objs[v.name]
      case Tree(level, entries) => if v.kind == TreeNode then TreeTargets(level, entries) else []
      case Blob(level, children) => if v.kind == BlobNode then BlobTargets(level, children) else []
      case _ => []
  }

  /** A chain of references. */
  predicate Linked(objs: Objects, path: seq<Place>)
  {
    path != [] && forall i :: 0 < i < |path| ==> path[i] in Children(objs, path[i - 1])
  }

  ghost predicate Reaches(objs: Objects, from: Place, to: Place)
  {
    exists path :: Linked(objs, path) && path[0] == from && path[|path| - 1] == to
  }

  /** The object is stored, and is of the kind it was reached as. Chunks need not be. */
  predicate Fits(objs: Objects, v: Place)
  {
    match v.kind
    case TreeNode => v.name in objs && objs[v.name].Tree?
    case BlobNode => v.name in objs && objs[v.name].Blob?
    case ChunkLeaf => v.name !in objs || objs[v.name].Chunk?
  }

  /** Every node below a tree can be read as what it is reached as. */
  ghost predicate Intact(objs: Objects, root: Name)
  {
    forall v :: Reaches(objs, Place(root, TreeNode), v) ==> Fits(objs, v)
  }

  /** The names a tree reaches, its own among them. */
  ghost predicate InClosure(objs: Objects, root: Name, n: Name)
  {
    exists kind :: Reaches(objs, Place(root, TreeNode), Place(n, kind))
  }

  lemma ReachesItself(objs: Objects, v: Place)
    ensures Reaches(objs, v, v)
  {
    assert Linked(objs, [v]) && [v][0] == v && [v][|[v]| - 1] == v;
  }

  lemma ReachesOn(objs: Objects, from: Place, v: Place, w: Place)
    requires Reaches(objs, from, v) && w in Children(objs, v)
    ensures Reaches(objs, from, w)
  {
    var path :| Linked(objs, path) && path[0] == from && path[|path| - 1] == v;
    var longer := path + [w];
    assert Linked(objs, longer) && longer[0] == from && longer[|longer| - 1] == w;
  }

  /** A set of places that holds the start and everything its members refer to holds
      whatever is reachable. */
  lemma ClosedHoldsReachable(objs: Objects, closed: iset<Place>, from: Place, to: Place)
    requires from in closed && Reaches(objs, from, to)
    requires forall v, w :: v in closed && w in Children(objs, v) ==> w in closed
    ensures to in closed
  {
    var path :| Linked(objs, path) && path[0] == from && path[|path| - 1] == to;
    AlongThePath(objs, closed, path, |path| - 1);
  }

  lemma {:induction false} AlongThePath(objs: Objects, closed: iset<Place>, path: seq<Place>, i: nat)
    requires Linked(objs, path) && path[0] in closed && i < |path|
    requires forall v, w :: v in closed && w in Children(objs, v) ==> w in closed
    ensures path[i] in closed
  {
    if i > 0 {
      AlongThePath(objs, closed, path, i - 1);
    }
  }

  // ---- a finite world to walk in ----

  /** Every name some stored object refers to. */
  function Mentioned(objs: Objects): (names: set<Name>)
  {
    set n, v | n in objs && v in Children(objs, Place(n, TreeNode)) + Children(objs, Place(n, BlobNode)) :: v.name
  }

  lemma ChildrenAreMentioned(objs: Objects, v: Place)
    ensures forall w :: w in Children(objs, v) ==> w.name in Mentioned(objs)
  {
    forall w | w in Children(objs, v)
      ensures w.name in Mentioned(objs)
    {
      assert w in Children(objs, Place(v.name, TreeNode)) + Children(objs, Place(v.name, BlobNode));
    }
  }

  // ---- the walk ----

  /** Where the worklist stands: what was found is reachable, and whatever it refers to
      has been found or is waiting. */
  ghost predicate Walking(objs: Objects, root: Name, seed: seq<Name>, found: seq<Name>, seen: set<Name>,
                          stack: seq<Place>, kinds: map<Name, Kind>)
  {
    && seed <= found && Distinct(found) && (forall n :: n in seen <==> n in found)
    && kinds.Keys == seen - (set n | n in seed)
    && (forall n :: n in kinds ==> Reaches(objs, Place(root, TreeNode), Place(n, kinds[n])))
    && (forall v :: v in stack ==> Reaches(objs, Place(root, TreeNode), v))
    && (forall n, w :: n in kinds && w in Children(objs, Place(n, kinds[n])) ==> w.name in seen || w in stack)
    && (root in seen || Place(root, TreeNode) in stack)
  }

  /** Nothing seeded is part of what is walked. */
  ghost predicate Apart(objs: Objects, root: Name, seed: seq<Name>)
  {
    forall n :: n in seed ==> !InClosure(objs, root, n)
  }

  /** `_walk`: depth-first from `root`, with `seed` already counted as found. */
  method Walk(objs: Objects, root: Name, seed: seq<Name>) returns (r: Result<seq<Name>>)
    requires Distinct(seed)
    ensures Intact(objs, root) ==> r.Ok?
    ensures r.Ok? ==> seed <= r.value && Distinct(r.value)
    ensures r.Ok? ==> forall n :: n in r.value ==> n in seed || InClosure(objs, root, n)
    ensures r.Ok? && Intact(objs, root) && Apart(objs, root, seed) ==>
              forall n :: n in r.value <==> n in seed || InClosure(objs, root, n)
  {
    hide Reaches, Children, Mentioned;
    var found, seen, stack := seed, set n | n in seed, [Place(root, TreeNode)];
    ghost var kinds: map<Name, Kind> := map[];
    ghost var world := Mentioned(objs) + {root};
    ReachesItself(objs, Place(root, TreeNode));
    while stack != []
      invariant Walking(objs, root, seed, found, seen, stack, kinds)
      invariant forall v :: v in stack ==> v.name in world
      decreases world - seen, |stack|
    {
      var v := stack[|stack| - 1];
      ghost var waiting := stack;
      stack := stack[..|stack| - 1];
      assert waiting == stack + [v];
      if v.name !in seen {
        if v.kind != ChunkLeaf && !Fits(objs, v) {
          return Err(if v.name in objs then Malformed else NotFound);
        }
        var below := Children(objs, v);
        ChildrenAreMentioned(objs, v);
        Visit(objs, root, seed, found, seen, stack, kinds, v);
        found, seen := found + [v.name], seen + {v.name};
        kinds := kinds[v.name := v.kind];
        stack := stack + below;
      }
    }
    if Intact(objs, root) && Apart(objs, root, seed) {
      WalkIsComplete(objs, root, seed, found, seen, kinds);
    }
    forall n | n in found
      ensures n in seed || InClosure(objs, root, n)
    {
      assert n in seen;
      assert n !in seed ==> n in kinds;
    }
    r := Ok(found);
  }

  lemma Visit(objs: Objects, root: Name, seed: seq<Name>, found: seq<Name>, seen: set<Name>, stack: seq<Place>,
              kinds: map<Name, Kind>, v: Place)
    requires Walking(objs, root, seed, found, seen, stack + [v], kinds) && v.name !in seen
    ensures Walking(objs, root, seed, found + [v.name], seen + {v.name}, stack + Children(objs, v),
                    kinds[v.name := v.kind])
  {
    hide Reaches, Children;
    assert v in stack + [v];
    assert v.name !in found;
    forall w | w in Children(objs, v)
      ensures Reaches(objs, Place(root, TreeNode), w)
    {
      ReachesOn(objs, Place(root, TreeNode), v, w);
    }
    assert seed <= found + [v.name];
  }

  /** When nothing waits, everything reachable has been found. */
  lemma WalkIsComplete(objs: Objects, root: Name, seed: seq<Name>, found: seq<Name>, seen: set<Name>,
                       kinds: map<Name, Kind>)
    requires Walking(objs, root, seed, found, seen, [], kinds) && Intact(objs, root)
    requires Apart(objs, root, seed)
    ensures forall n :: InClosure(objs, root, n) ==> n in found
  {
    hide Reaches, Children, Intact, Distinct;
    var start := Place(root, TreeNode);
    var closed := iset v: Place | Reaches(objs, start, v) && v.name in kinds && kinds[v.name] == v.kind;
    ReachesItself(objs, start);
    FoundAsReached(objs, root, seed, found, seen, [], kinds, start);
    forall v, w | v in closed && w in Children(objs, v)
      ensures w in closed
    {
      ReachesOn(objs, start, v, w);
      assert v == Place(v.name, kinds[v.name]);
      FoundAsReached(objs, root, seed, found, seen, [], kinds, w);
    }
    forall n | InClosure(objs, root, n)
      ensures n in found
    {
      var kind :| Reaches(objs, start, Place(n, kind));
      ClosedHoldsReachable(objs, closed, start, Place(n, kind));
    }
  }

  /** What was found was found as what it is reached as. */
  lemma FoundAsReached(objs: Objects, root: Name, seed: seq<Name>, found: seq<Name>, seen: set<Name>, stack: seq<Place>,
                       kinds: map<Name, Kind>, v: Place)
    requires Walking(objs, root, seed, found, seen, stack, kinds) && Intact(objs, root)
    requires Apart(objs, root, seed)
    requires Reaches(objs, Place(root, TreeNode), v) && v.name in seen
    ensures v.name in kinds && kinds[v.name] == v.kind
  {
    hide Reaches, Children, Intact, Distinct;
    assert InClosure(objs, root, v.name);
    assert v.name in kinds.Keys;
    OneKind(objs, root, v.name, v.kind, kinds[v.name]);
  }

  /** In an intact store a name is reached as one kind only, so skipping a name already
      seen loses nothing. */
  lemma OneKind(objs: Objects, root: Name, n: Name, a: Kind, b: Kind)
    requires Intact(objs, root)
    requires Reaches(objs, Place(root, TreeNode), Place(n, a)) && Reaches(objs, Place(root, TreeNode), Place(n, b))
    ensures a == b
  {
    assert Fits(objs, Place(n, a)) && Fits(objs, Place(n, b));
  }

  /** `tree_closure`: every object the tree reaches, each once, the root included. */
  method TreeClosure(objs: Objects, root: Name) returns (r: Result<seq<Name>>)
    ensures Intact(objs, root) ==> r.Ok? && forall n :: n in r.value <==> InClosure(objs, root, n)
    ensures r.Ok? ==> Distinct(r.value) && forall n :: n in r.value ==> InClosure(objs, root, n)
  {
    r := Walk(objs, root, []);
  }

  /** A commit is never part of its own tree, when that tree can be read. */
  lemma CommitIsApart(objs: Objects, commit: Name)
    requires commit in objs && objs[commit].Commit? && Intact(objs, objs[commit].tree)
    ensures Apart(objs, objs[commit].tree, [commit])
  {
    var root := objs[commit].tree;
    forall kind
      ensures !Reaches(objs, Place(root, TreeNode), Place(commit, kind))
    {
      assert !Fits(objs, Place(commit, kind));
    }
  }

  /** `commit_closure`: the commit, and everything its tree reaches; not its parents. */
  method CommitClosure(objs: Objects, commit: Name) returns (r: Result<seq<Name>>)
    ensures commit !in objs || !objs[commit].Commit? ==> r.Err?
    ensures commit in objs && objs[commit].Commit? && Intact(objs, objs[commit].tree) ==>
              r.Ok? && Distinct(r.value) && forall n ::
                n in r.value <==> n == commit || InClosure(objs, objs[commit].tree, n)
  {
    if commit !in objs {
      return Err(NotFound);
    }
    if !objs[commit].Commit? {
      return Err(Malformed);
    }
    r := Walk(objs, objs[commit].tree, [commit]);
    if Intact(objs, objs[commit].tree) {
      CommitIsApart(objs, commit);
    }
  }
}
