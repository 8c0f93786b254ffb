/** One collection cycle (src/maintenance/gc.py, `_leased`, `plan`, `run` and
    `_apply_circuit_breaker`): the shard-by-shard plan is the difference of the whole
    tables. */
module Collector {
  import opened ByteStrings
  import opened Model
  import opened Sums
  import opened Validation
  import opened Sharding
  import opened KeepSets
  import opened ObjectStores

  const MAX_LISTED_ENVS: nat := 10_000
  const MAX_LISTED_SESSIONS: nat := 1000
  const MAX_SESSION_PAGES: nat := 100_000

  /** A write session: when its lease ends and what it recorded, page after page. */
  datatype Session = Session(expiresAtUs: int, pages: seq<seq<Name>>)

  datatype Config = Config(graceUs: int, tombstoneTtlUs: int, shardBits: int, maxDeleteFraction: real,
                           minCorpusObjects: nat)

  datatype Plan = Plan(cutoffUs: int, candidates: seq<Name>, bytesReclaimable: nat, corpusObjects: nat,
                       liveObjects: nat, tooRecent: nat, aborted: bool)

  datatype Report = Report(plan: Plan, enforced: bool, deleted: nat)

  type Catalog = map<Name, CatalogEntry>

  // ---- leases ----

  /** A session whose lease is open recorded the name on one of its first pages. */
  predicate HeldBy(s: Session, limit: nat, now: int, n: Name)
  {
    s.expiresAtUs > now && exists k :: 0 <= k < |s.pages| && k < limit && n in s.pages[k]
  }

  predicate HeldAnywhere(s: Session, now: int, n: Name)
  {
    HeldBy(s, |s.pages|, now, n)
  }

  /** What every open write session holds, listed or not. */
  ghost predicate Leased(envs: seq<seq<Session>>, now: int, n: Name)
  {
    exists i, j :: 0 <= i < |envs| && 0 <= j < |envs[i]| && HeldAnywhere(envs[i][j], now, n)
  }

  /** What the listing limits let the collector see. */
  ghost predicate SeenLeased(envs: seq<seq<Session>>, now: int, n: Name)
  {
    exists i, j :: 0 <= i < |envs| && i < MAX_LISTED_ENVS && 0 <= j < |envs[i]| && j < MAX_LISTED_SESSIONS
                   && HeldBy(envs[i][j], MAX_SESSION_PAGES, now, n)
  }

  /** `_leased`: what the listed sessions whose lease is open have on their listed pages. */
  method OpenLeases(envs: seq<seq<Session>>, now: int) returns (leased: set<Name>)
    ensures forall n :: n in leased <==> SeenLeased(envs, now, n)
  {
    hide HeldBy;
    leased := {};
    var i := 0;
    while i < |envs| && i < MAX_LISTED_ENVS
      invariant 0 <= i <= |envs| && i <= MAX_LISTED_ENVS
      invariant forall n :: n in leased <==>
                  exists a, b :: 0 <= a < i && 0 <= b < |envs[a]| && b < MAX_LISTED_SESSIONS
                      && HeldBy(envs[a][b], MAX_SESSION_PAGES, now, n)
    {
      var here := LeasesOf(envs[i], now);
      leased := leased + here;
      i := i + 1;
    }
  }

  method LeasesOf(sessions: seq<Session>, now: int) returns (leased: set<Name>)
    ensures forall n :: n in leased <==>
              exists b :: 0 <= b < |sessions| && b < MAX_LISTED_SESSIONS
                          && HeldBy(sessions[b], MAX_SESSION_PAGES, now, n)
  {
    leased := {};
    var j := 0;
    while j < |sessions| && j < MAX_LISTED_SESSIONS
      invariant 0 <= j <= |sessions| && j <= MAX_LISTED_SESSIONS
      invariant forall n :: n in leased <==>
                  exists b :: 0 <= b < j && HeldBy(sessions[b], MAX_SESSION_PAGES, now, n)
    {
      if sessions[j].expiresAtUs > now {
        var uploaded := UploadedObjects(sessions[j]);
        leased := leased + (set n | n in uploaded);
      }
      j := j + 1;
    }
  }

  /** `uploaded_objects`: the names on the pages one query returns, in order. */
  method UploadedObjects(s: Session) returns (names: seq<Name>)
    ensures names == Joined(s.pages[..if |s.pages| < MAX_SESSION_PAGES then |s.pages| else MAX_SESSION_PAGES])
    ensures forall n :: n in names <==> exists k :: 0 <= k < |s.pages| && k < MAX_SESSION_PAGES && n in s.pages[k]
  {
    var listed := s.pages[..if |s.pages| < MAX_SESSION_PAGES then |s.pages| else MAX_SESSION_PAGES];
    names := [];
    for k := 0 to |listed|
      invariant names == Joined(listed[..k])
      invariant forall n :: n in names <==> exists p :: 0 <= p < k && n in listed[p]
    {
      assert listed[..k + 1][..k] == listed[..k];
      names := names + listed[k];
    }
    assert listed[..|listed|] == listed;
  }

  function Joined(pages: seq<seq<Name>>): (names: seq<Name>)
  {
    if pages == [] then [] else Joined(pages[..|pages| - 1]) + pages[|pages| - 1]
  }

  predicate WithinLimits(envs: seq<seq<Session>>)
  {
    && |envs| <= MAX_LISTED_ENVS
    && (forall i :: 0 <= i < |envs| ==> |envs[i]| <= MAX_LISTED_SESSIONS)
    && forall i, j :: 0 <= i < |envs| && 0 <= j < |envs[i]| ==> |envs[i][j].pages| <= MAX_SESSION_PAGES
  }

  /** Within the listing limits every open lease is seen. */
  lemma EveryLeaseIsSeen(envs: seq<seq<Session>>, now: int, n: Name)
    requires WithinLimits(envs)
    ensures Leased(envs, now, n) <==> SeenLeased(envs, now, n)
  {
    if Leased(envs, now, n) {
      var i, j :| 0 <= i < |envs| && 0 <= j < |envs[i]| && HeldAnywhere(envs[i][j], now, n);
      assert i < MAX_LISTED_ENVS && j < MAX_LISTED_SESSIONS && HeldBy(envs[i][j], MAX_SESSION_PAGES, now, n);
    }
    if SeenLeased(envs, now, n) {
      SeenIsLeased(envs, now, n);
    }
  }

  lemma SeenIsLeased(envs: seq<seq<Session>>, now: int, n: Name)
    requires SeenLeased(envs, now, n)
    ensures Leased(envs, now, n)
  {
    var i, j :| 0 <= i < |envs| && i < MAX_LISTED_ENVS && 0 <= j < |envs[i]| && j < MAX_LISTED_SESSIONS
                && HeldBy(envs[i][j], MAX_SESSION_PAGES, now, n);
    assert HeldAnywhere(envs[i][j], now, n);
  }

  /** The name is on a page past the ones `uploaded_objects` returns. */
  predicate HeldPastThePages(s: Session, now: int, n: Name)
  {
    s.expiresAtUs > now && exists k :: MAX_SESSION_PAGES <= k < |s.pages| && n in s.pages[k]
  }

  /** What the listings leave out: held by an unlisted session, or on an unlisted page. */
  ghost predicate UnseenLeased(envs: seq<seq<Session>>, now: int, n: Name)
  {
    exists i, j :: 0 <= i < |envs| && 0 <= j < |envs[i]|
                   && (HeldPastThePages(envs[i][j], now, n)
                       || ((i >= MAX_LISTED_ENVS || j >= MAX_LISTED_SESSIONS) && HeldAnywhere(envs[i][j], now, n)))
  }

  lemma LeasedIsSeenOrNot(envs: seq<seq<Session>>, now: int)
    ensures forall n :: Leased(envs, now, n) <==> SeenLeased(envs, now, n) || UnseenLeased(envs, now, n)
  {
    forall n
      ensures Leased(envs, now, n) <==> SeenLeased(envs, now, n) || UnseenLeased(envs, now, n)
    {
      if Leased(envs, now, n) {
        var i, j :| 0 <= i < |envs| && 0 <= j < |envs[i]| && HeldAnywhere(envs[i][j], now, n);
        assert HeldBy(envs[i][j], MAX_SESSION_PAGES, now, n) || HeldPastThePages(envs[i][j], now, n);
      }
      if SeenLeased(envs, now, n) {
        SeenIsLeased(envs, now, n);
      }
      if UnseenLeased(envs, now, n) {
        var i, j :| 0 <= i < |envs| && 0 <= j < |envs[i]|
                    && (HeldPastThePages(envs[i][j], now, n) || HeldAnywhere(envs[i][j], now, n));
        assert HeldAnywhere(envs[i][j], now, n);
      }
    }
  }

  /** Every open lease is seen exactly when what the listings leave out is also held by
      something listed. */
  lemma EveryLeaseIsSeenIff(envs: seq<seq<Session>>, now: int)
    ensures (forall n :: Leased(envs, now, n) ==> SeenLeased(envs, now, n))
            <==> forall n :: UnseenLeased(envs, now, n) ==> SeenLeased(envs, now, n)
  {
    hide Leased, SeenLeased, UnseenLeased;
    LeasedIsSeenOrNot(envs, now);
  }

  /** How many pages each session of each environment has. */
  predicate HasShape(envs: seq<seq<Session>>, shape: seq<seq<nat>>)
  {
    && |envs| == |shape|
    && (forall i :: 0 <= i < |shape| ==> |envs[i]| == |shape[i]|)
    && forall i, j :: 0 <= i < |shape| && 0 <= j < |shape[i]| ==> |envs[i][j].pages| == shape[i][j]
  }

  /** No page is out of reach of the three listings. */
  predicate AllListed(shape: seq<seq<nat>>)
  {
    forall i, j :: 0 <= i < |shape| && 0 <= j < |shape[i]| && shape[i][j] > 0 ==>
                     i < 10_000 && j < 1000 && shape[i][j] <= 100_000
  }

  /** Counting environments, sessions and pages decides it: whatever is leased on them is
      seen exactly when every page is in reach of the listings. */
  lemma LeasesAreSeenIff(shape: seq<seq<nat>>, now: int, n: Name)
    ensures (forall envs :: HasShape(envs, shape) && Leased(envs, now, n) ==> SeenLeased(envs, now, n))
            <==> AllListed(shape)
  {
    if AllListed(shape) {
      forall envs | HasShape(envs, shape) && Leased(envs, now, n)
        ensures SeenLeased(envs, now, n)
      {
        var i, j :| 0 <= i < |envs| && 0 <= j < |envs[i]| && HeldAnywhere(envs[i][j], now, n);
        assert shape[i][j] > 0 && HeldBy(envs[i][j], MAX_SESSION_PAGES, now, n);
      }
    } else {
      var i, j :| 0 <= i < |shape| && 0 <= j < |shape[i]| && shape[i][j] > 0
                  && !(i < MAX_LISTED_ENVS && j < MAX_LISTED_SESSIONS && shape[i][j] <= MAX_SESSION_PAGES);
      OutOfReach(shape, now, n, i, j);
    }
  }

  /** Open sessions with one name, on the last page of the one session. */
  function Planted(shape: seq<seq<nat>>, now: int, n: Name, i: nat, j: nat): (envs: seq<seq<Session>>)
    requires i < |shape| && j < |shape[i]| && shape[i][j] > 0
    ensures HasShape(envs, shape)
  {
    seq(|shape|, a requires 0 <= a < |shape| =>
      seq(|shape[a]|, b requires 0 <= b < |shape[a]| =>
        Session(now + 1, seq(shape[a][b], k => if a == i && b == j && k == shape[i][j] - 1 then [n] else []))))
  }

  lemma OutOfReach(shape: seq<seq<nat>>, now: int, n: Name, i: nat, j: nat)
    requires i < |shape| && j < |shape[i]| && shape[i][j] > 0
    requires !(i < MAX_LISTED_ENVS && j < MAX_LISTED_SESSIONS && shape[i][j] <= MAX_SESSION_PAGES)
    ensures exists envs :: HasShape(envs, shape) && Leased(envs, now, n) && !SeenLeased(envs, now, n)
  {
    var envs: seq<seq<Session>> := Planted(shape, now, n, i, j);
    assert n in envs[i][j].pages[shape[i][j] - 1];
    assert HeldAnywhere(envs[i][j], now, n);
    forall a, b | 0 <= a < |envs| && a < MAX_LISTED_ENVS && 0 <= b < |envs[a]| && b < MAX_LISTED_SESSIONS
      ensures !HeldBy(envs[a][b], MAX_SESSION_PAGES, now, n)
    {
      assert forall k :: 0 <= k < |envs[a][b].pages| && k < MAX_SESSION_PAGES ==> envs[a][b].pages[k] == [];
    }
    assert HasShape(envs, shape) && Leased(envs, now, n);
  }

  /** Beyond them one can be missed: the ten-thousand-and-first environment's. */
  lemma ALeaseCanBeMissed(n: Name, now: int)
    ensures exists envs :: Leased(envs, now, n) && !SeenLeased(envs, now, n)
  {
    var held := [Session(now + 1, [[n]])];
    var envs: seq<seq<Session>> := seq(MAX_LISTED_ENVS + 1, i => if i == MAX_LISTED_ENVS then held else []);
    assert envs[MAX_LISTED_ENVS] == held && n in held[0].pages[0] && HeldAnywhere(envs[MAX_LISTED_ENVS][0], now, n);
    assert Leased(envs, now, n);
    assert forall i :: 0 <= i < MAX_LISTED_ENVS ==> envs[i] == [];
    assert !SeenLeased(envs, now, n);
  }

  // ---- the plan ----

  /** Old enough, and neither kept nor leased. */
  predicate Candidate(catalog: Catalog, live: set<Name>, leased: set<Name>, cutoff: int, n: Name)
  {
    n in catalog && n !in live && n !in leased && catalog[n].writtenAtUs <= cutoff
  }

  predicate TooRecent(catalog: Catalog, live: set<Name>, leased: set<Name>, cutoff: int, n: Name)
  {
    n in catalog && n !in live && n !in leased && catalog[n].writtenAtUs > cutoff
  }

  function Sizes(catalog: Catalog, names: seq<Name>): (sizes: seq<nat>)
    requires forall n :: n in names ==> n in catalog
    ensures |sizes| == |names|
  {
    seq(|names|, i requires 0 <= i < |names| => catalog[names[i]].size)
  }

  /** The rows of one shard, judged against that shard's live set. */
  method PlanShard(catalog: Catalog, rows: seq<Name>, live: set<Name>, leased: set<Name>, cutoff: int)
    returns (candidates: seq<Name>, bytes: nat, recent: set<Name>)
    requires Distinct(rows) && forall n :: n in rows ==> n in catalog
    ensures forall n :: n in candidates <==> n in rows && Candidate(catalog, live, leased, cutoff, n)
    ensures Distinct(candidates) && bytes == Sum(Sizes(catalog, candidates))
    ensures recent == set n | n in rows && TooRecent(catalog, live, leased, cutoff, n)
  {
    candidates, bytes, recent := [], 0, {};
    for i := 0 to |rows|
      invariant forall n :: n in candidates <==> n in rows[..i] && Candidate(catalog, live, leased, cutoff, n)
      invariant Distinct(candidates) && bytes == Sum(Sizes(catalog, candidates))
      invariant recent == set n | n in rows[..i] && TooRecent(catalog, live, leased, cutoff, n)
    {
      var n := rows[i];
      assert rows[..i + 1] == rows[..i] + [n];
      assert n !in rows[..i];
      if n in live || n in leased {
      } else if catalog[n].writtenAtUs > cutoff {
        recent := recent + {n};
      } else {
        SizesOfMore(catalog, candidates, [n]);
        assert Sizes(catalog, [n])[1..] == [];
        candidates := candidates + [n];
        bytes := bytes + catalog[n].size;
      }
    }
    assert rows[..|rows|] == rows;
  }

  lemma SizesOfMore(catalog: Catalog, a: seq<Name>, b: seq<Name>)
    requires forall n :: n in a + b ==> n in catalog
    requires (forall n :: n in a ==> n in catalog) && forall n :: n in b ==> n in catalog
    ensures Sum(Sizes(catalog, a + b)) == Sum(Sizes(catalog, a)) + Sum(Sizes(catalog, b))
  {
    assert Sizes(catalog, a + b) == Sizes(catalog, a) + Sizes(catalog, b);
    SumOfConcat(Sizes(catalog, a), Sizes(catalog, b));
  }

  /** What a scan of shards `0..shard` has come past. */
  predicate Scanned(n: Name, bits: int, shard: int)
  {
    BitsOk(bits) && ShardOf(n.digest, bits).value < shard && !PastTheEnd(n.digest)
  }

  lemma ScannedMore(n: Name, bits: int, shard: int)
    requires BitsOk(bits)
    ensures Scanned(n, bits, shard + 1) <==> Scanned(n, bits, shard) || InShard(n, bits, shard)
  {
  }

  lemma AllScanned(n: Name, bits: int)
    requires BitsOk(bits) && |n.digest| == DIGEST_BYTES
    ensures Scanned(n, bits, ShardCount(bits)) <==> !PastTheEnd(n.digest)
    ensures !Scanned(n, bits, 0)
  {
    EveryDigestHasAShard(n.digest, bits);
  }

  /** Where the shard loop of `plan` stands. */
  ghost predicate PlannedUpTo(catalog: Catalog, kept: set<Name>, leased: set<Name>, cutoff: int, bits: int, shard: int,
                              candidates: seq<Name>, bytes: nat, seenLive: set<Name>, recent: set<Name>)
  {
    && (forall n :: n in candidates <==> Candidate(catalog, kept, leased, cutoff, n) && Scanned(n, bits, shard))
    && Distinct(candidates) && bytes == Sum(Sizes(catalog, candidates))
    && (forall n :: n in seenLive <==> n in kept && Scanned(n, bits, shard))
    && (forall n :: n in recent <==> TooRecent(catalog, kept, leased, cutoff, n) && Scanned(n, bits, shard))
  }

  /** Each shard of the catalog needs only the same shard of the keep-sets. */
  lemma OneMoreShard(catalog: Catalog, kept: set<Name>, leased: set<Name>, cutoff: int, bits: int, shard: int,
                     candidates: seq<Name>, bytes: nat, seenLive: set<Name>, recent: set<Name>,
                     live: set<Name>, rows: seq<Name>, more: seq<Name>, moreBytes: nat, moreRecent: set<Name>)
    requires BitsOk(bits)
    requires PlannedUpTo(catalog, kept, leased, cutoff, bits, shard, candidates, bytes, seenLive, recent)
    requires forall n :: n in live <==> n in kept && InShard(n, bits, shard)
    requires forall n :: n in rows <==> n in catalog.Keys && InShard(n, bits, shard)
    requires forall n :: n in more <==> n in rows && Candidate(catalog, live, leased, cutoff, n)
    requires Distinct(more) && (forall n :: n in more ==> n in catalog) && moreBytes == Sum(Sizes(catalog, more))
    requires forall n :: n in moreRecent <==> n in rows && TooRecent(catalog, live, leased, cutoff, n)
    ensures PlannedUpTo(catalog, kept, leased, cutoff, bits, shard + 1, candidates + more, bytes + moreBytes,
                        seenLive + live, recent + moreRecent)
    ensures seenLive !! live && recent !! moreRecent
  {
    hide ShardOf, PastTheEnd;
    forall n
      ensures Scanned(n, bits, shard + 1) <==> Scanned(n, bits, shard) || InShard(n, bits, shard)
      ensures !(Scanned(n, bits, shard) && InShard(n, bits, shard))
    {
      ScannedMore(n, bits, shard);
    }
    assert forall n :: n in candidates + more <==> n in candidates || n in more;
    SizesOfMore(catalog, candidates, more);
    hide Scanned, InShard;
    forall i, j | 0 <= i < j < |candidates + more|
      ensures (candidates + more)[i] != (candidates + more)[j]
    {
      if i < |candidates| <= j {
        assert candidates[i] in candidates && more[j - |candidates|] in more;
      }
    }
  }

  /** The shard loop of `plan`. */
  method PlanShards(catalog: Catalog, keepSets: KeepSetTable, leased: set<Name>, cutoff: int, bits: int)
    returns (candidates: seq<Name>, bytes: nat, liveObjects: nat, tooRecent: nat,
             ghost seenLive: set<Name>, ghost recent: set<Name>)
    requires BitsOk(bits) && FullDigests(catalog.Keys) && FullDigests(keepSets.All())
    ensures PlannedUpTo(catalog, keepSets.All(), leased, cutoff, bits, ShardCount(bits), candidates, bytes, seenLive,
              recent)
    ensures liveObjects == |seenLive| && tooRecent == |recent|
  {
    hide PlannedUpTo, ShardCount;
    candidates, bytes, liveObjects, tooRecent := [], 0, 0, 0;
    seenLive, recent := {}, {};
    NothingScanned(catalog, keepSets.All(), leased, cutoff, bits);
    for shard := 0 to ShardCount(bits)
      invariant PlannedUpTo(catalog, keepSets.All(), leased, cutoff, bits, shard, candidates, bytes, seenLive, recent)
      invariant liveObjects == |seenLive| && tooRecent == |recent|
    {
      var live, more, moreBytes, moreRecent :=
        DiffShard(catalog, keepSets, leased, cutoff, bits, shard, candidates, bytes, seenLive, recent);
      candidates, bytes := candidates + more, bytes + moreBytes;
      liveObjects, tooRecent := liveObjects + |live|, tooRecent + |moreRecent|;
      seenLive, recent := seenLive + live, recent + moreRecent;
    }
  }

  /** One shard of the catalog against the same shard of the keep-sets. */
  method DiffShard(catalog: Catalog, keepSets: KeepSetTable, leased: set<Name>, cutoff: int, bits: int, shard: nat,
                   ghost candidates: seq<Name>, ghost bytes: nat, ghost seenLive: set<Name>, ghost recent: set<Name>)
    returns (live: set<Name>, more: seq<Name>, moreBytes: nat, moreRecent: set<Name>)
    requires BitsOk(bits) && shard < ShardCount(bits) && FullDigests(catalog.Keys) && FullDigests(keepSets.All())
    requires PlannedUpTo(catalog, keepSets.All(), leased, cutoff, bits, shard, candidates, bytes, seenLive, recent)
    ensures PlannedUpTo(catalog, keepSets.All(), leased, cutoff, bits, shard + 1, candidates + more, bytes + moreBytes,
                        seenLive + live, recent + moreRecent)
    ensures seenLive !! live && recent !! moreRecent
  {
    hide PlannedUpTo, InShard, ShardCount, Candidate, TooRecent, Sum, Distinct;
    var liveRows := keepSets.IterShard(bits, shard);
    live := set n | n in liveRows;
    var rows := ScanShard(catalog.Keys, bits, shard);
    more, moreBytes, moreRecent := PlanShard(catalog, rows, live, leased, cutoff);
    OneMoreShard(catalog, keepSets.All(), leased, cutoff, bits, shard, candidates, bytes, seenLive, recent,
                 live, rows, more, moreBytes, moreRecent);
  }

  lemma NothingScanned(catalog: Catalog, kept: set<Name>, leased: set<Name>, cutoff: int, bits: int)
    requires BitsOk(bits) && FullDigests(catalog.Keys) && FullDigests(kept)
    ensures PlannedUpTo(catalog, kept, leased, cutoff, bits, 0, [], 0, {}, {})
  {
    forall n | n in catalog.Keys || n in kept
      ensures !Scanned(n, bits, 0)
    {
      AllScanned(n, bits);
    }
  }

  lemma EverythingScanned(catalog: Catalog, kept: set<Name>, leased: set<Name>, cutoff: int, bits: int,
                          candidates: seq<Name>, bytes: nat, seenLive: set<Name>, recent: set<Name>)
    requires BitsOk(bits) && FullDigests(catalog.Keys) && FullDigests(kept)
    requires PlannedUpTo(catalog, kept, leased, cutoff, bits, ShardCount(bits), candidates, bytes, seenLive, recent)
    ensures forall n :: n in candidates <==> Candidate(catalog, kept, leased, cutoff, n) && !PastTheEnd(n.digest)
    ensures Distinct(candidates) && bytes == Sum(Sizes(catalog, candidates))
    ensures seenLive == set n | n in kept && !PastTheEnd(n.digest)
    ensures recent == set n | n in catalog && TooRecent(catalog, kept, leased, cutoff, n) && !PastTheEnd(n.digest)
  {
    hide Scanned, PastTheEnd, ShardCount;
    forall n | n in catalog.Keys || n in kept
      ensures Scanned(n, bits, ShardCount(bits)) <==> !PastTheEnd(n.digest)
    {
      AllScanned(n, bits);
    }
    assert forall n :: n in catalog <==> n in catalog.Keys;
  }

  /** A fraction of so many objects. */
  function Share(fraction: real, objects: nat): (share: real)
  {
    fraction * (objects as real)
  }

  /** More of the corpus would go than a cycle may take, and the corpus is not small. */
  predicate TooMany(config: Config, count: nat, corpusObjects: nat)
  {
    corpusObjects >= config.minCorpusObjects && count > 0
    && count as real > Share(config.maxDeleteFraction, corpusObjects)
  }

  /** `_apply_circuit_breaker`: the share that would go is a quotient in the code. */
  method CircuitBreaker(config: Config, candidates: seq<Name>, corpus: nat) returns (aborted: bool)
    requires candidates != [] ==> corpus > 0
    ensures aborted <==> TooMany(config, |candidates|, corpus)
  {
    if corpus < config.minCorpusObjects {
      return false;
    }
    if candidates == [] {
      return false;
    }
    var fraction := (|candidates| as real) / (corpus as real);
    QuotientIsShare(|candidates| as real, corpus as real, config.maxDeleteFraction);
    aborted := !(fraction <= config.maxDeleteFraction);
  }

  lemma QuotientIsShare(part: real, whole: real, limit: real)
    requires whole > 0.0
    ensures part / whole <= limit <==> part <= limit * whole
  {
    var q := part / whole;
    assert part == q * whole;
    if q <= limit {
      assert (limit - q) * whole >= 0.0;
    } else {
      assert (q - limit) * whole > 0.0;
    }
  }

  lemma JudgedByLeases(catalog: Catalog, kept: set<Name>, leased: set<Name>, envs: seq<seq<Session>>, now: int,
                       cutoff: int)
    requires forall n :: n in leased <==> SeenLeased(envs, now, n)
    ensures (set n | n in catalog && TooRecent(catalog, kept, leased, cutoff, n) && !PastTheEnd(n.digest))
            == set n | && n in catalog && catalog[n].writtenAtUs > cutoff
                       && n !in kept && !SeenLeased(envs, now, n) && !PastTheEnd(n.digest)
    ensures forall n :: Candidate(catalog, kept, leased, cutoff, n) <==>
                          n in catalog && catalog[n].writtenAtUs <= cutoff && n !in kept && !SeenLeased(envs, now, n)
  {
    hide SeenLeased, PastTheEnd;
  }

  /** `plan`: exactly the stored names that are old enough and neither kept nor leased,
      each once, whatever the number of shards; only names past the end of the digest
      range escape. */
  method MakePlan(store: ObjectStore, keepSets: KeepSetTable, envs: seq<seq<Session>>, config: Config, now: int)
    returns (plan: Plan)
    requires store.Valid() && BitsOk(config.shardBits)
    requires FullDigests(store.catalog.Keys) && FullDigests(keepSets.All())
    ensures plan.cutoffUs == now - config.graceUs
    ensures forall n :: n in plan.candidates <==>
              && n in store.objects && store.catalog[n].writtenAtUs <= now - config.graceUs
              && n !in keepSets.All() && !SeenLeased(envs, now, n) && !PastTheEnd(n.digest)
    ensures Distinct(plan.candidates) && forall n :: n in plan.candidates ==> n in store.objects
    ensures plan.bytesReclaimable == Sum(Sizes(store.catalog, plan.candidates))
    ensures plan.corpusObjects == |store.catalog|
    ensures plan.candidates != [] ==> plan.corpusObjects > 0
    ensures plan.liveObjects == |(set n | n in keepSets.All() && !PastTheEnd(n.digest))|
    ensures plan.tooRecent == |(set n | && n in store.catalog && store.catalog[n].writtenAtUs > now - config.graceUs
                                        && n !in keepSets.All() && !SeenLeased(envs, now, n) && !PastTheEnd(n.digest))|
    ensures plan.aborted <==> TooMany(config, |plan.candidates|, plan.corpusObjects)
  {
    hide PastTheEnd, SeenLeased, Sum, NamesEncodings, Injective, PlannedUpTo, ShardCount, Candidate, TooRecent;
    hide Distinct, TooMany, Sizes, BitsOk;
    var cutoff := now - config.graceUs;
    var leased := OpenLeases(envs, now);
    var candidates, bytes, liveObjects, tooRecent, seenLive, recent :=
      PlanShards(store.catalog, keepSets, leased, cutoff, config.shardBits);
    EverythingScanned(store.catalog, keepSets.All(), leased, cutoff, config.shardBits, candidates, bytes, seenLive,
        recent);
    assert forall n :: n in store.catalog <==> n in store.objects.Keys;
    JudgedByLeases(store.catalog, keepSets.All(), leased, envs, now, cutoff);
    if candidates != [] {
      assert candidates[0] in candidates;
      assert candidates[0] in store.catalog;
    }
    var corpus := |store.catalog|;
    var aborted := CircuitBreaker(config, candidates, corpus);
    plan := Plan(cutoff, candidates, bytes, corpus, liveObjects, tooRecent, aborted);
  }

  /** `run`: a report, or one sweep. What is swept is tombstoned; what any environment
      keeps, an open session holds, or was written within the grace period, stays. */
  method Run(store: ObjectStore, keepSets: KeepSetTable, envs: seq<seq<Session>>, config: Config, now: int,
             enforce: bool)
    returns (report: Report)
    requires store.Valid() && BitsOk(config.shardBits)
    requires FullDigests(store.catalog.Keys) && FullDigests(keepSets.All())
    modifies store
    ensures store.Valid()
    ensures report.enforced <==> enforce && !report.plan.aborted
    ensures !report.enforced ==>
              store.objects == old(store.objects) && store.catalog == old(store.catalog)
              && store.tombstones == old(store.tombstones) && report.deleted == 0
    ensures report.enforced ==>
              && store.objects == old(store.objects) - (set n | n in report.plan.candidates)
              && store.catalog == old(store.catalog) - (set n | n in report.plan.candidates)
              && report.deleted == |report.plan.candidates|
              && (forall n :: n in store.tombstones <==> n in old(store.tombstones) || n in report.plan.candidates)
              && forall n :: n in store.tombstones ==>
                   store.tombstones[n] == if n in old(store.tombstones) then old(store.tombstones)[n]
                                          else now + config.tombstoneTtlUs
    ensures forall n :: n in report.plan.candidates <==>
              && n in old(store.objects) && old(store.catalog)[n].writtenAtUs <= now - config.graceUs
              && n !in keepSets.All() && !SeenLeased(envs, now, n) && !PastTheEnd(n.digest)
    ensures var corpus, removed := |old(store.objects)|, |old(store.objects)| - |store.objects|;
            removed > 0 && corpus >= config.minCorpusObjects ==>
              removed as real <= Share(config.maxDeleteFraction, corpus)
    ensures var corpus, planned := |old(store.objects)|, |report.plan.candidates|;
            enforce && !report.enforced ==>
              && corpus >= config.minCorpusObjects && planned > 0
              && planned as real > Share(config.maxDeleteFraction, corpus)
  {
    hide PastTheEnd, SeenLeased, Sum, NamesEncodings, Injective, Sizes, Distinct, BitsOk, Share;
    var plan := MakePlan(store, keepSets, envs, config, now);
    SameCount(store.objects, store.catalog);
    if plan.aborted || !enforce {
      return Report(plan, false, 0);
    }
    var deleted := Sweep(store, plan.candidates, now + config.tombstoneTtlUs);
    report := Report(plan, true, deleted);
  }

  /** The enforced half of `run`: tombstones first, then the objects. */
  method Sweep(store: ObjectStore, names: seq<Name>, expiresAtUs: int) returns (deleted: nat)
    requires store.Valid() && Distinct(names) && forall n :: n in names ==> n in store.objects
    modifies store
    ensures store.Valid() && deleted == |names|
    ensures store.objects == old(store.objects) - (set n | n in names)
    ensures store.catalog == old(store.catalog) - (set n | n in names)
    ensures |store.objects| == |old(store.objects)| - |names|
    ensures forall n :: n in store.tombstones <==> n in old(store.tombstones) || n in names
    ensures forall n :: n in store.tombstones ==>
              store.tombstones[n] == if n in old(store.tombstones) then old(store.tombstones)[n] else expiresAtUs
  {
    hide NamesEncodings, Injective, Distinct;
    store.RecordTombstones(names, expiresAtUs);
    CountDistinct(names);
    AllPresent(names, store.objects);
    Removed(store.objects, set n | n in names);
    deleted := store.Delete(names);
  }

  lemma SameCount(objects: map<Name, Object>, catalog: Catalog)
    requires objects.Keys == catalog.Keys
    ensures |objects| == |catalog|
  {
    assert |objects| == |objects.Keys| && |catalog| == |catalog.Keys|;
  }

  lemma Removed(objects: map<Name, Object>, gone: set<Name>)
    requires gone <= objects.Keys
    ensures |objects - gone| == |objects| - |gone|
  {
    assert (objects - gone).Keys == objects.Keys - gone;
    assert |objects - gone| == |(objects - gone).Keys|;
  }

  lemma AllPresent(names: seq<Name>, objects: map<Name, Object>)
    requires forall n :: n in names ==> n in objects
    ensures (set n | n in names && n in objects) == set n | n in names
  {
  }

  lemma {:induction false} CountDistinct(names: seq<Name>)
    requires Distinct(names)
    ensures |(set n | n in names)| == |names|
  {
    if names != [] {
      var front, last := names[..|names| - 1], names[|names| - 1];
      CountDistinct(front);
      OneMoreElement(front, last);
      assert names == front + [last];
    }
  }

  lemma OneMoreElement(front: seq<Name>, last: Name)
    ensures (set n | n in front + [last]) == (set n | n in front) + {last}
  {
  }

  /** A sweep leaves everything that is leased in place exactly when no old, unkept name
      is leased by unlisted sessions or on unlisted pages alone. */
  method SweepRespectsLeasesIff(store: ObjectStore, keepSets: KeepSetTable, envs: seq<seq<Session>>, config: Config,
                                now: int)
    returns (report: Report)
    requires store.Valid() && BitsOk(config.shardBits)
    requires FullDigests(store.catalog.Keys) && FullDigests(keepSets.All())
    modifies store
    ensures report.enforced ==>
              ((forall n :: n in old(store.objects) && Leased(envs, now, n) ==> n in store.objects)
               <==> forall n :: && n in old(store.objects) && old(store.catalog)[n].writtenAtUs <= now - config.graceUs
                                && n !in old(keepSets.All()) && !PastTheEnd(n.digest) && UnseenLeased(envs, now, n)
                                ==> SeenLeased(envs, now, n))
  {
    hide PastTheEnd, SeenLeased, Leased, UnseenLeased, NamesEncodings, Injective;
    report := Run(store, keepSets, envs, config, now, true);
    LeasedIsSeenOrNot(envs, now);
  }
}
