/** The per-backend caches that are reused while an epoch read under the reader's snapshot is unchanged: the Arrow
    cache and the lexical index cache, keyed by a generation, and the graph cache, keyed by its build time. */
module EpochCache {
  import opened Options

  /** What a snapshot shows for a table: the epoch in the catalog and what a fresh build would return. */
  datatype Version<V> = Version(epoch: int, content: V)

  /** The tables registered as of a snapshot. */
  type Snapshot<V> = map<int, Version<V>>

  /** The committed states in commit order; a reader's snapshot is one of them, in any order over time. */
  type History<V> = seq<Snapshot<V>>

  datatype Read = Read(table: int, snapshot: nat)

  type Cache<V> = map<int, Version<V>>

  ghost predicate Readable<V>(h: History<V>, r: Read) {
    r.snapshot < |h| && r.table in h[r.snapshot]
  }

  function Fresh<V>(h: History<V>, r: Read): Version<V>
    requires r.snapshot < |h| && r.table in h[r.snapshot]
  {
    h[r.snapshot][r.table]
  }

  predicate Hit<V>(c: Cache<V>, table: int, epoch: int) {
    table in c && c[table].epoch == epoch
  }

  function Answer<V>(c: Cache<V>, table: int, v: Version<V>): V {
    if Hit(c, table, v.epoch) then c[table].content else v.content
  }

  /** A hit leaves the cache alone; a miss stores the fresh build, and may drop any other entries. */
  ghost predicate Served<V(!new)>(c: Cache<V>, table: int, v: Version<V>, c': Cache<V>) {
    if Hit(c, table, v.epoch) then c' == c
    else
      && table in c' && c'[table] == v
      && forall t :: t in c' && t != table ==> t in c && c'[t] == c[t]
  }

  /** A backend's reads and the caches between them. */
  ghost predicate Run<V(!new)>(h: History<V>, requests: seq<Read>, caches: seq<Cache<V>>) {
    && |caches| == |requests| + 1 && caches[0] == map[]
    && forall i :: 0 <= i < |requests| ==>
         Readable(h, requests[i]) && Served(caches[i], requests[i].table, Fresh(h, requests[i]), caches[i + 1])
  }

  /** Equal epochs of a table mean equal contents. */
  ghost predicate EpochsDecide<V(!new)>(h: History<V>) {
    forall m, n, t :: 0 <= m < |h| && 0 <= n < |h| && t in h[m] && t in h[n] && h[m][t].epoch == h[n][t].epoch
      ==> h[m][t].content == h[n][t].content
  }

  /** Every entry is what some snapshot showed. */
  ghost predicate Sourced<V(!new)>(h: History<V>, c: Cache<V>) {
    forall t :: t in c ==> exists n :: 0 <= n < |h| && t in h[n] && h[n][t] == c[t]
  }

  lemma {:induction false} CachesAreSourced<V(!new)>(h: History<V>, requests: seq<Read>, caches: seq<Cache<V>>, i: nat)
    requires Run(h, requests, caches) && i <= |requests|
    ensures Sourced(h, caches[i])
  {
    if i > 0 {
      CachesAreSourced(h, requests, caches, i - 1);
      var r := requests[i - 1];
      forall t | t in caches[i] ensures exists n :: 0 <= n < |h| && t in h[n] && h[n][t] == caches[i][t] {
        if t == r.table && !Hit(caches[i - 1], t, Fresh(h, r).epoch) {
          assert h[r.snapshot][t] == caches[i][t];
        } else {
          assert t in caches[i - 1] && caches[i][t] == caches[i - 1][t];
        }
      }
    }
  }

  /** Every read is answered as a fresh build at its snapshot would answer it. */
  ghost predicate Transparent<V(!new)>(h: History<V>, requests: seq<Read>, caches: seq<Cache<V>>)
    requires Run(h, requests, caches)
  {
    forall i :: 0 <= i < |requests| ==>
      Answer(caches[i], requests[i].table, Fresh(h, requests[i])) == Fresh(h, requests[i]).content
  }

  lemma DecidingEpochsSuffice<V(!new)>(h: History<V>, requests: seq<Read>, caches: seq<Cache<V>>)
    requires EpochsDecide(h) && Run(h, requests, caches)
    ensures Transparent(h, requests, caches)
  {
    forall i | 0 <= i < |requests|
      ensures Answer(caches[i], requests[i].table, Fresh(h, requests[i])) == Fresh(h, requests[i]).content
    {
      CachesAreSourced(h, requests, caches, i);
    }
  }

  /** Two reads of one table are enough to be answered wrongly when an epoch stands for two contents. */
  lemma DecidingEpochsNeeded<V(!new)>(h: History<V>) returns (requests: seq<Read>, caches: seq<Cache<V>>)
    requires !EpochsDecide(h)
    ensures Run(h, requests, caches) && !Transparent(h, requests, caches)
  {
    var m, n, t :| 0 <= m < |h| && 0 <= n < |h| && t in h[m] && t in h[n] && h[m][t].epoch == h[n][t].epoch
      && h[m][t].content != h[n][t].content;
    requests := [Read(t, m), Read(t, n)];
    caches := [map[], map[t := h[m][t]], map[t := h[m][t]]];
    assert Served(caches[0], t, h[m][t], caches[1]);
    assert Served(caches[1], t, h[n][t], caches[2]);
    assert Run(h, requests, caches);
    assert Answer(caches[1], requests[1].table, Fresh(h, requests[1])) == h[m][t].content;
  }

  /** The cache is invisible in every run exactly when epochs decide contents. */
  lemma TransparentIff<V(!new)>(h: History<V>)
    ensures EpochsDecide(h)
       <==> forall requests, caches :: Run(h, requests, caches) ==> Transparent(h, requests, caches)
  {
    if EpochsDecide(h) {
      forall requests, caches | Run(h, requests, caches) ensures Transparent(h, requests, caches) {
        DecidingEpochsSuffice(h, requests, caches);
      }
    } else {
      var requests, caches := DecidingEpochsNeeded(h);
    }
  }

  // ----- writers that bump a generation -----

  /** What one committed transaction did to a table: the writing statements, each bumping the generation once, whether
      it (re)columnarized the table, and what a build returns afterwards. */
  datatype Change<V> = Change(statements: nat, columnarized: bool, content: V)

  type Commit<V> = map<int, Change<V>>

  /** A table enters the catalog at generation 0 when first columnarized; columnarizing again bumps. */
  ghost function Committed<V>(s: Snapshot<V>, c: Commit<V>): Snapshot<V> {
    map t | t in s.Keys + c.Keys && (t in s || c[t].columnarized) ::
      if t !in c then s[t]
      else if t !in s then Version(c[t].statements, c[t].content)
      else Version(s[t].epoch + c[t].statements + (if c[t].columnarized then 1 else 0), c[t].content)
  }

  ghost function Commits<V>(s: Snapshot<V>, cs: seq<Commit<V>>, n: nat): Snapshot<V>
    requires n <= |cs|
  {
    if n == 0 then s else Committed(Commits(s, cs, n - 1), cs[n - 1])
  }

  ghost function HistoryOf<V>(s: Snapshot<V>, cs: seq<Commit<V>>): (h: History<V>)
    ensures |h| == |cs| + 1 && forall n :: 0 <= n <= |cs| ==> h[n] == Commits(s, cs, n)
  {
    seq(|cs| + 1, n requires 0 <= n <= |cs| => Commits(s, cs, n))
  }

  /** The trigger fires on every writing statement, so a transaction that changes a build bumps at least once. */
  ghost predicate WritersBump<V(!new)>(cs: seq<Commit<V>>) {
    forall n, t :: 0 <= n < |cs| && t in cs[n] ==> cs[n][t].statements >= 1 || cs[n][t].columnarized
  }

  /** From s to s', every table stays registered, and is as it was or at a higher epoch. */
  ghost predicate Rises<V(!new)>(s: Snapshot<V>, s': Snapshot<V>) {
    forall t :: t in s ==> t in s' && (s'[t] == s[t] || s'[t].epoch > s[t].epoch)
  }

  ghost predicate Rising<V(!new)>(h: History<V>) {
    forall m, n :: 0 <= m && n == m + 1 < |h| ==> Rises(h[m], h[n])
  }

  lemma {:induction false} RisingBetween<V(!new)>(h: History<V>, m: nat, n: nat, t: int)
    requires Rising(h) && m <= n < |h| && t in h[m]
    ensures t in h[n] && (h[n][t] == h[m][t] || h[n][t].epoch > h[m][t].epoch)
  {
    if m < n {
      RisingBetween(h, m, n - 1, t);
      assert Rises(h[n - 1], h[n]);
    }
  }

  lemma RisingEpochsDecide<V(!new)>(h: History<V>)
    requires Rising(h)
    ensures EpochsDecide(h)
  {
    forall m, n, t | 0 <= m < |h| && 0 <= n < |h| && t in h[m] && t in h[n] && h[m][t].epoch == h[n][t].epoch
      ensures h[m][t].content == h[n][t].content
    {
      if m <= n { RisingBetween(h, m, n, t); } else { RisingBetween(h, n, m, t); }
    }
  }

  /** With generations bumped by every writing transaction, every run of cached reads at any snapshots equals
      recomputation. */
  lemma GenerationCacheIsTransparent<V(!new)>(s: Snapshot<V>, cs: seq<Commit<V>>, requests: seq<Read>,
                                              caches: seq<Cache<V>>)
    requires WritersBump(cs) && Run(HistoryOf(s, cs), requests, caches)
    ensures Transparent(HistoryOf(s, cs), requests, caches)
  {
    var h: History<V> := HistoryOf(s, cs);
    forall m, n | 0 <= m && n == m + 1 < |h| ensures Rises(h[m], h[n]) {
      assert h[n] == Committed(h[m], cs[m]);
    }
    RisingEpochsDecide(h);
    DecidingEpochsSuffice(h, requests, caches);
  }

  // ----- rebuilds stamped with the clock -----

  /** The persisted graph of one relation: each rebuild replaces the content and stamps the time. */
  ghost function Rebuilds<V>(table: int, builds: seq<Version<V>>): (h: History<V>)
    ensures |h| == |builds| && forall n :: 0 <= n < |builds| ==> h[n] == map[table := builds[n]]
  {
    seq(|builds|, n requires 0 <= n < |builds| => map[table := builds[n]])
  }

  /** A build-time cache is transparent exactly when no two rebuilds with different graphs share a microsecond. */
  lemma BuildTimeCacheIff<V(!new)>(table: int, builds: seq<Version<V>>)
    ensures (forall requests, caches :: Run(Rebuilds(table, builds), requests, caches)
               ==> Transparent(Rebuilds(table, builds), requests, caches))
       <==> forall m, n :: 0 <= m < n < |builds| && builds[m].epoch == builds[n].epoch
               ==> builds[m].content == builds[n].content
  {
    hide EpochsDecide, Run, Transparent;
    TransparentIff(Rebuilds(table, builds));
    BuildTimesDecideIff(table, builds);
  }

  lemma BuildTimesDecideIff<V(!new)>(table: int, builds: seq<Version<V>>)
    ensures EpochsDecide(Rebuilds(table, builds))
       <==> forall m, n :: 0 <= m < n < |builds| && builds[m].epoch == builds[n].epoch
               ==> builds[m].content == builds[n].content
  {
    var h: History<V> := Rebuilds(table, builds);
    if EpochsDecide(h) {
      forall m, n | 0 <= m < n < |builds| && builds[m].epoch == builds[n].epoch
        ensures builds[m].content == builds[n].content
      {
        assert table in h[m] && table in h[n];
        assert h[m][table].epoch == h[n][table].epoch;
      }
    } else {
      var m, n, t :| 0 <= m < |h| && 0 <= n < |h| && t in h[m] && t in h[n] && h[m][t].epoch == h[n][t].epoch
        && h[m][t].content != h[n][t].content;
      var a, b := if m < n then m else n, if m < n then n else m;
      assert a < b && builds[a].epoch == builds[b].epoch && builds[a].content != builds[b].content;
    }
  }

  /** Two different graphs built in the same microsecond: some run of reads is answered wrongly. */
  lemma SharedMicrosecond()
    ensures var h: History<int> := Rebuilds(7, [Version(5, 0), Version(5, 1)]);
      exists requests, caches :: Run(h, requests, caches) && !Transparent(h, requests, caches)
  {
    var h: History<int> := Rebuilds(7, [Version(5, 0), Version(5, 1)]);
    assert h[0][7].epoch == h[1][7].epoch && h[0][7].content != h[1][7].content;
    var requests, caches := DecidingEpochsNeeded(h);
    assert Run(h, requests, caches) && !Transparent(h, requests, caches);
  }

  // ----- the caches themselves -----

  class EntryCache<V(!new)> {
    var entries: Cache<V>

    constructor ()
      ensures entries == map[]
    {
      entries := map[];
    }

    /** Without a size bound: the lexical index cache and the graph cache. */
    method GetOrBuild(table: int, epoch: int, build: () -> V) returns (r: V)
      modifies this
      ensures Served(old(entries), table, Version(epoch, build()), entries)
      ensures r == Answer(old(entries), table, Version(epoch, build()))
      ensures entries.Keys == old(entries).Keys + {table}
    {
      if !(table in entries && entries[table].epoch == epoch) {
        entries := entries[table := Version(epoch, build())];
      }
      r := entries[table].content;
    }

    /** Evict arbitrary entries until there is room for a new table. */
    method MakeRoom(table: int, cap: nat)
      modifies this
      ensures forall t :: t in entries ==> t in old(entries) && entries[t] == old(entries)[t]
      ensures table in old(entries) ==> entries == old(entries)
      ensures table !in old(entries) ==> |entries| < cap || entries == map[]
    {
      while |entries| >= cap && table !in entries && |entries| > 0
        invariant forall t :: t in entries ==> t in old(entries) && entries[t] == old(entries)[t]
        invariant table in old(entries) ==> entries == old(entries)
        invariant table !in old(entries) ==> table !in entries
        decreases |entries|
      {
        HoldsOne(entries);
        var k :| k in entries;
        entries := entries - {k};
      }
    }

    /** With a size bound, and a build that may fail: the Arrow cache. Failure changes nothing. */
    method GetOrBuildBounded(table: int, epoch: int, build: () -> Option<V>, cap: nat) returns (r: Option<V>)
      modifies this
      ensures r == None <==> build() == None && !Hit(old(entries), table, epoch)
      ensures r == None ==> entries == old(entries)
      ensures r.Some? && Hit(old(entries), table, epoch) ==> entries == old(entries) && r.value == entries[table].content
      ensures r.Some? && !Hit(old(entries), table, epoch) ==>
        && build().Some? && r == build()
        && Served(old(entries), table, Version(epoch, build().value), entries)
      ensures cap >= 1 && |old(entries)| <= cap ==> |entries| <= cap
    {
      if table in entries && entries[table].epoch == epoch {
        return Some(entries[table].content);
      }
      var b := build();
      if b.None? {
        return None;
      }
      MakeRoom(table, cap);
      ghost var kept := entries;
      entries := entries[table := Version(epoch, b.value)];
      assert entries.Keys == kept.Keys + {table};
      if table in kept {
        assert entries.Keys == kept.Keys;
        SizeOfKeys(entries, kept);
      }
      r := b;
    }
  }

  lemma HoldsOne<V>(c: Cache<V>)
    requires |c| > 0
    ensures exists t :: t in c
  {
    if forall t :: t !in c { assert false; }
  }

  lemma SizeOfKeys<V>(a: Cache<V>, b: Cache<V>)
    requires a.Keys == b.Keys
    ensures |a| == |b|
  {
    assert |a| == |a.Keys| && |b| == |b.Keys|;
  }
}
