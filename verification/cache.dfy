/** The bounded caches of recently seen transaction IDs and block hashes. */
module Cache {
  import opened Sorting

  const SEEN_LIMIT: nat := 2048
  const SEEN_TTL_SECONDS: int := 1800

  type Times = map<string, int>

  datatype Entry = Entry(key: string, ts: int)

  function ByTime(): (Entry, Entry) -> bool {
    (a: Entry, b: Entry) => a.ts <= b.ts
  }

  function Removals(size: nat, excess: int): nat {
    if excess <= 0 then 0 else if excess > size then size else excess
  }

  /** `after` is `before` without its `excess` oldest entries (all of them when there are fewer). */
  ghost predicate Trimmed(before: Times, after: Times, excess: int) {
    && after.Keys <= before.Keys && (forall k :: k in after ==> after[k] == before[k])
    && |after| == |before| - Removals(|before|, excess)
    && forall gone, kept :: gone in before && gone !in after && kept in after ==> before[gone] <= after[kept]
  }

  ghost predicate Lists(entries: seq<Entry>, keys: set<string>, m: Times) {
    && (forall i :: 0 <= i < |entries| ==>
          entries[i].key in keys && entries[i].key in m && entries[i].ts == m[entries[i].key])
    && (forall k :: k in keys && k in m ==> Entry(k, m[k]) in entries)
    && (forall i, j :: 0 <= i < j < |entries| ==> entries[i].key != entries[j].key)
  }

  lemma Without(m: Times, k: string)
    requires k in m
    ensures |m - {k}| == |m| - 1
  {
    assert (m - {k}).Keys == m.Keys - {k};
  }

  /** Two sequences with the same elements, one free of repeated keys: so is the other. */
  lemma SortedLists(entries: seq<Entry>, sorted: seq<Entry>, m: Times)
    requires Lists(entries, m.Keys, m) && multiset(entries) == multiset(sorted)
    ensures Lists(sorted, m.Keys, m)
  {
    forall i | 0 <= i < |sorted|
      ensures sorted[i].key in m && sorted[i].ts == m[sorted[i].key]
    {
      assert sorted[i] in multiset(entries);
    }
    forall k | k in m ensures Entry(k, m[k]) in sorted {
      assert Entry(k, m[k]) in multiset(sorted);
    }
    forall i, j | 0 <= i < j < |sorted| ensures sorted[i].key != sorted[j].key {
      if sorted[i].key == sorted[j].key {
        assert sorted[i] == sorted[j];
        assert sorted == sorted[..j] + [sorted[j]] + sorted[j + 1..];
        assert sorted[i] in sorted[..j];
        assert multiset(entries)[sorted[j]] >= 2;
        OnlyOnce(entries, sorted[j]);
      }
    }
  }

  lemma {:induction false} OnlyOnce(entries: seq<Entry>, e: Entry)
    requires forall i, j :: 0 <= i < j < |entries| ==> entries[i].key != entries[j].key
    ensures multiset(entries)[e] <= 1
  {
    if entries != [] {
      var rest := entries[..|entries| - 1];
      OnlyOnce(rest, e);
      assert entries == rest + [entries[|entries| - 1]];
      if entries[|entries| - 1] == e { assert e !in rest; }
    }
  }

  lemma {:induction false} ListsLength(entries: seq<Entry>, m: Times)
    requires Lists(entries, m.Keys, m)
    ensures |entries| == |m|
    decreases |entries|
  {
    hide Lists;
    if m != map[] { SomeEntry(entries, m); }
    if entries != [] {
      var last := |entries| - 1;
      ListsWithoutLast(entries, m);
      Without(m, entries[last].key);
      ListsLength(entries[..last], m - {entries[last].key});
    }
  }

  lemma SomeEntry(entries: seq<Entry>, m: Times)
    requires Lists(entries, m.Keys, m) && m != map[]
    ensures entries != []
  {
    var k :| k in m;
    var e := Entry(k, m[k]);
    assert e in entries;
  }

  lemma ListsWithoutLast(entries: seq<Entry>, m: Times)
    requires Lists(entries, m.Keys, m) && entries != []
    ensures var e, rest := entries[|entries| - 1], entries[..|entries| - 1];
            e.key in m && Lists(rest, (m - {e.key}).Keys, m - {e.key})
  {
    var e, rest := entries[|entries| - 1], entries[..|entries| - 1];
    var less := m - {e.key};
    forall k | k in less ensures Entry(k, less[k]) in rest {
      assert Entry(k, m[k]) in entries && Entry(k, m[k]) != e;
      var i :| 0 <= i < |entries| && entries[i] == Entry(k, m[k]);
      assert rest[i] == entries[i];
    }
  }

  lemma NewestRemain(before: Times, sorted: seq<Entry>, count: nat, after: Times)
    requires Lists(sorted, before.Keys, before) && Sorted(sorted, ByTime())
    requires after.Keys <= before.Keys && forall k :: k in after ==> after[k] == before[k]
    requires forall j :: 0 <= j < |sorted| ==> (sorted[j].key in after <==> j >= count)
    ensures forall gone, kept :: gone in before && gone !in after && kept in after ==> before[gone] <= after[kept]
  {
    forall gone, kept | gone in before && gone !in after && kept in after ensures before[gone] <= after[kept] {
      assert Entry(gone, before[gone]) in sorted && Entry(kept, before[kept]) in sorted;
      var j :| 0 <= j < |sorted| && sorted[j] == Entry(gone, before[gone]);
      var k :| 0 <= k < |sorted| && sorted[k] == Entry(kept, before[kept]);
      assert ByTime()(sorted[j], sorted[k]);
    }
  }

  /** Where no two entries share a time, the specification leaves no choice: every way of trimming,
      by one pass for the oldest or by sorting, gives the same cache. */
  lemma TrimmedIsUnique(before: Times, one: Times, two: Times, excess: int)
    requires Trimmed(before, one, excess) && Trimmed(before, two, excess)
    requires forall j, k :: j in before && k in before && before[j] == before[k] ==> j == k
    ensures one == two
  {
    assert |one.Keys - two.Keys| == |two.Keys - one.Keys|;
    assert one.Keys == two.Keys;
  }

  /** A cache of identifiers with the time each was last seen. */
  class SeenMap {
    var entries: Times

    constructor ()
      ensures entries == map[]
    {
      entries := map[];
    }

    /** Deletes the oldest entries; both the single-pass and the sorting branch meet one specification. */
    method Trim(excess: int)
      modifies this
      ensures Trimmed(old(entries), entries, excess)
    {
      if excess <= 0 || |entries| == 0 { return; }
      if excess == 1 {
        var oldest := Oldest();
        Without(entries, oldest);
        entries := entries - {oldest};
        return;
      }
      var listed := Listing();
      var sorted := Sort(listed, ByTime());
      SortCorrect(listed, ByTime());
      SortedLists(listed, sorted, entries);
      ListsLength(sorted, entries);
      var count := if excess > |sorted| then |sorted| else excess;
      DeleteFirst(sorted, count);
      NewestRemain(old(entries), sorted, count, entries);
    }

    method DeleteFirst(sorted: seq<Entry>, count: nat)
      requires count <= |sorted|
      requires forall j :: 0 <= j < |sorted| ==> sorted[j].key in entries
      requires forall i, j :: 0 <= i < j < |sorted| ==> sorted[i].key != sorted[j].key
      modifies this
      ensures entries.Keys <= old(entries).Keys && forall k :: k in entries ==> entries[k] == old(entries)[k]
      ensures |entries| == |old(entries)| - count
      ensures forall j :: 0 <= j < |sorted| ==> (sorted[j].key in entries <==> j >= count)
    {
      var i := 0;
      while i < count
        invariant 0 <= i <= count
        invariant entries.Keys <= old(entries).Keys && forall k :: k in entries ==> entries[k] == old(entries)[k]
        invariant |entries| == |old(entries)| - i
        invariant forall j :: 0 <= j < |sorted| ==> (sorted[j].key in entries <==> j >= i)
      {
        Without(entries, sorted[i].key);
        entries := entries - {sorted[i].key};
        i := i + 1;
      }
    }

    method Oldest() returns (oldest: string)
      requires |entries| > 0
      ensures oldest in entries && forall k :: k in entries ==> entries[oldest] <= entries[k]
    {
      oldest := "";
      var left, first := entries.Keys, true;
      assert left != {};
      while left != {}
        invariant left <= entries.Keys
        invariant first ==> left == entries.Keys
        invariant !first ==> oldest in entries && forall k :: k in entries && k !in left ==>
                    entries[oldest] <= entries[k]
        decreases |left|
      {
        var k :| k in left;
        if first || entries[k] < entries[oldest] {
          oldest, first := k, false;
        }
        left := left - {k};
      }
    }

    method Listing() returns (listed: seq<Entry>)
      ensures Lists(listed, entries.Keys, entries)
    {
      listed := [];
      var left := entries.Keys;
      while left != {}
        invariant left <= entries.Keys
        invariant Lists(listed, entries.Keys - left, entries)
        decreases |left|
      {
        var k :| k in left;
        listed := listed + [Entry(k, entries[k])];
        left := left - {k};
      }
      assert entries.Keys - left == entries.Keys;
    }

    /** Deletes every entry older than the time to live. */
    method DropExpired(now: int)
      modifies this
      ensures entries == Unexpired(old(entries), now)
    {
      ghost var before := entries;
      var left := entries.Keys;
      while left != {}
        invariant left <= before.Keys && entries.Keys <= before.Keys
        invariant forall k :: k in before ==> (k in entries <==> k in left || now - before[k] <= SEEN_TTL_SECONDS)
        invariant forall k :: k in entries ==> entries[k] == before[k]
        decreases |left|
      {
        var k :| k in left;
        if now - entries[k] > SEEN_TTL_SECONDS { entries := entries - {k}; }
        left := left - {k};
      }
    }
  }

  function Unexpired(m: Times, now: int): Times {
    map k | k in m && now - m[k] <= SEEN_TTL_SECONDS :: m[k]
  }

  /** What pruning leaves of a cache: the newest of the unexpired entries, at most 2048. */
  ghost predicate Pruned(before: Times, after: Times, now: int) {
    && Trimmed(Unexpired(before, now), after, |Unexpired(before, now)| - SEEN_LIMIT)
    && |after| <= SEEN_LIMIT
    && forall k :: k in after ==> k in before && after[k] == before[k] && now - after[k] <= SEEN_TTL_SECONDS
  }

  /** After pruning nothing older than half an hour is left, and at most 2048 entries: all that are young
      enough, or, if more are, 2048 of them, none older than one that is gone. */
  lemma PrunedExactly(before: Times, after: Times, now: int)
    requires Pruned(before, after, now)
    ensures |after| <= 2048
    ensures forall k :: k in after ==> k in before && after[k] == before[k] && now - before[k] <= 1800
    ensures var young := set k | k in before && now - before[k] <= 1800;
            && (|young| <= 2048 ==> after.Keys == young)
            && (|young| > 2048 ==>
                  |after| == 2048 && forall gone, kept :: gone in young - after.Keys && kept in after ==>
                                       before[gone] <= before[kept])
  {
    var young := set k | k in before && now - before[k] <= 1800;
    assert Unexpired(before, now).Keys == young;
    if |young| <= 2048 {
      assert |after.Keys| == |young|;
      SubsetOfSameSize(after.Keys, young);
    }
  }

  lemma SubsetOfSameSize(a: set<string>, b: set<string>)
    requires a <= b && |a| == |b|
    ensures a == b
  {
    assert |b - a| == 0;
  }

  class SeenCache {
    var transactions: SeenMap
    var blocks: SeenMap

    constructor ()
      ensures fresh(transactions) && fresh(blocks) && transactions != blocks
      ensures transactions.entries == map[] && blocks.entries == map[]
    {
      transactions := new SeenMap();
      blocks := new SeenMap();
    }

    method Prune(now: int)
      requires transactions != blocks
      modifies transactions, blocks
      ensures Pruned(old(transactions.entries), transactions.entries, now)
      ensures Pruned(old(blocks.entries), blocks.entries, now)
    {
      transactions.DropExpired(now);
      blocks.DropExpired(now);
      if |transactions.entries| > SEEN_LIMIT { transactions.Trim(|transactions.entries| - SEEN_LIMIT); }
      if |blocks.entries| > SEEN_LIMIT { blocks.Trim(|blocks.entries| - SEEN_LIMIT); }
    }
  }
}
