/** The petal counter (`window.PetalCountLogger`): every five seconds a tick reads the
    inventory table out of the heap, and query methods summarise the last tick. */
module PetalCount {
  import opened Wrappers
  import opened Catalog
  import opened Snapshot
  import opened Ranking
  import Layout

  datatype PetalRank = PetalRank(sid: string, name: string, total: nat, id: Option<int>)

  datatype PetalRarityRank = PetalRarityRank(sid: string, name: string, count: nat, id: Option<int>)

  datatype FormattedPetal = FormattedPetal(id: int, sid: string, counts: map<string, nat>)

  function PetalSids(petals: seq<Petal>): (sids: seq<string>)
    ensures |sids| == |petals| && forall p :: 0 <= p < |petals| ==> sids[p] == petals[p].sid
  {
    seq(|petals|, p requires 0 <= p < |petals| => petals[p].sid)
  }

  /** `petalIdMap[sid]` for a sid of the catalog. */
  function IdOf(petals: seq<Petal>, p: nat): int
    requires p < |petals|
  {
    PetalIdOf(petals, petals[p].sid).value
  }

  /** The counts of petal `p`, one per rarity, read at `base + p*rarityCount + r`. */
  function PetalRow(heap: seq<nat>, base: int, rarityCount: nat, p: nat): (row: seq<nat>)
    ensures |row| == rarityCount
    ensures forall r :: 0 <= r < rarityCount ==> row[r] == HeapRead(heap, Layout.PetalCell(base, rarityCount, p, r))
  {
    seq(rarityCount, r requires 0 <= r < rarityCount => HeapRead(heap, Layout.PetalCell(base, rarityCount, p, r)))
  }

  /** `raw` after the first `n` petals of a tick. */
  function PetalRaw(heap: seq<nat>, base: int, petals: seq<Petal>, rarityCount: nat, n: nat): (raw: seq<RawEntry>)
    requires n <= |petals|
    ensures |raw| == n
    ensures forall p :: 0 <= p < n ==>
              raw[p] == RawEntry(IdOf(petals, p), petals[p].sid, PetalRow(heap, base, rarityCount, p))
  {
    seq(n, p requires 0 <= p < n => RawEntry(IdOf(petals, p), petals[p].sid, PetalRow(heap, base, rarityCount, p)))
  }

  lemma PetalRawSnoc(heap: seq<nat>, base: int, petals: seq<Petal>, rarityCount: nat, p: nat)
    requires p < |petals|
    ensures PetalRaw(heap, base, petals, rarityCount, p + 1)
         == PetalRaw(heap, base, petals, rarityCount, p)
            + [RawEntry(IdOf(petals, p), petals[p].sid, PetalRow(heap, base, rarityCount, p))]
  {
  }

  /** Row `p` of a tick is petal `p`'s, with one count per rarity. */
  lemma PetalRawRows(heap: seq<nat>, base: int, petals: seq<Petal>, rarityCount: nat)
    ensures var raw := PetalRaw(heap, base, petals, rarityCount, |petals|);
            && |raw| == |petals|
            && forall p :: 0 <= p < |petals| ==> raw[p].sid == petals[p].sid && |raw[p].counts| == rarityCount
  {
  }

  /** `getLeaderboard` before its sort, over the first `n` catalog sids. */
  function TotalBoard(petals: seq<Petal>, detail: seq<map<string, nat>>, n: nat): seq<PetalRank>
    requires n <= |petals|
  {
    Board(PetalSids(petals)[..n], (sid: string) => TotalOf(detail, sid),
          (sid: string, total: nat) => PetalRank(sid, sid, total, PetalIdOf(petals, sid)))
  }

  /** `getLeaderboardByRarity` before its sort, over the first `n` catalog sids. */
  function RarityBoard(petals: seq<Petal>, counts: map<string, nat>, n: nat): seq<PetalRarityRank>
    requires n <= |petals|
  {
    Board(PetalSids(petals)[..n], (sid: string) => Lookup(counts, sid),
          (sid: string, count: nat) => PetalRarityRank(sid, sid, count, PetalIdOf(petals, sid)))
  }

  lemma TotalBoardSnoc(petals: seq<Petal>, detail: seq<map<string, nat>>, n: nat)
    requires n < |petals|
    ensures var sid := petals[n].sid;
            var total := TotalOf(detail, sid);
            TotalBoard(petals, detail, n + 1)
            == TotalBoard(petals, detail, n) + (if total > 0 then [PetalRank(sid, sid, total, PetalIdOf(petals, sid))] else [])
  {
    assert PetalSids(petals)[..n + 1][..n] == PetalSids(petals)[..n];
  }

  lemma RarityBoardSnoc(petals: seq<Petal>, counts: map<string, nat>, n: nat)
    requires n < |petals|
    ensures var sid := petals[n].sid;
            var count := Lookup(counts, sid);
            RarityBoard(petals, counts, n + 1)
            == RarityBoard(petals, counts, n) + (if count > 0 then [PetalRarityRank(sid, sid, count, PetalIdOf(petals, sid))] else [])
  {
    assert PetalSids(petals)[..n + 1][..n] == PetalSids(petals)[..n];
  }

  /** The petal leaderboard lists exactly the catalog petals whose total is positive. */
  lemma TotalBoardMembers(petals: seq<Petal>, detail: seq<map<string, nat>>, x: PetalRank)
    ensures x in TotalBoard(petals, detail, |petals|) <==>
              exists p :: 0 <= p < |petals| && TotalOf(detail, petals[p].sid) > 0 &&
                            x == PetalRank(petals[p].sid, petals[p].sid, TotalOf(detail, petals[p].sid),
                                           PetalIdOf(petals, petals[p].sid))
  {
    assert PetalSids(petals)[..|petals|] == PetalSids(petals);
    BoardMembers(PetalSids(petals), (sid: string) => TotalOf(detail, sid),
                 (sid: string, total: nat) => PetalRank(sid, sid, total, PetalIdOf(petals, sid)), x);
  }

  /** The per-rarity leaderboard lists exactly the catalog petals with a positive count. */
  lemma RarityBoardMembers(petals: seq<Petal>, counts: map<string, nat>, x: PetalRarityRank)
    ensures x in RarityBoard(petals, counts, |petals|) <==>
              exists p :: 0 <= p < |petals| && Lookup(counts, petals[p].sid) > 0 &&
                            x == PetalRarityRank(petals[p].sid, petals[p].sid, Lookup(counts, petals[p].sid),
                                                 PetalIdOf(petals, petals[p].sid))
  {
    assert PetalSids(petals)[..|petals|] == PetalSids(petals);
    BoardMembers(PetalSids(petals), (sid: string) => Lookup(counts, sid),
                 (sid: string, count: nat) => PetalRarityRank(sid, sid, count, PetalIdOf(petals, sid)), x);
  }

  const ByTotal: (PetalRank, PetalRank) -> bool := (a: PetalRank, b: PetalRank) => a.total >= b.total

  const ByCount: (PetalRarityRank, PetalRarityRank) -> bool :=
    (a: PetalRarityRank, b: PetalRarityRank) => a.count >= b.count

  /** The names of a prefix grow by one name at a time. */
  lemma PrefixKeys(names: seq<string>, r: nat)
    requires r < |names|
    ensures forall x :: x in names[..r + 1] <==> x in names[..r] || x == names[r]
  {
    assert names[..r + 1] == names[..r] + [names[r]];
  }

  /** The loop of `getDistribution`: each rarity name mapped to `detail[rarity][sid] || 0`. */
  method Distribution(names: seq<string>, d: seq<map<string, nat>>, sid: string) returns (m: map<string, nat>)
    requires Distinct(names) && |names| == |d|
    ensures m.Keys == set k | k in names
    ensures forall k :: 0 <= k < |names| ==> m[names[k]] == Lookup(d[k], sid)
  {
    m := map[];
    var r := 0;
    while r < |names|
      invariant 0 <= r <= |names|
      invariant m.Keys == set k | k in names[..r]
      invariant forall k :: 0 <= k < r ==> m[names[k]] == Lookup(d[k], sid)
    {
      PrefixKeys(names, r);
      m := m[names[r] := Lookup(d[r], sid)];
      r := r + 1;
    }
    assert names[..r] == names;
  }

  /** The inner loop of the callback for petal `p` (catalog id `id`, sid `sid`): reads its
      counts and adds them to `summary` and `detail`, or stops where the rarity has no name
      (`names`, the number of rarity names, is at most the rarity count). */
  method AddPetal(heap: seq<nat>, base: int, rarityCount: nat, names: nat, p: nat, id: int, sid: string,
                  sum: seq<nat>, det: seq<map<string, nat>>, ghost sids: seq<string>, ghost rows: seq<RawEntry>)
    returns (completed: bool, data: seq<nat>, sum': seq<nat>, det': seq<map<string, nat>>)
    requires names <= rarityCount
    requires sum == Summary(rows, names) && det == Detail(sids, rows, names)
    ensures completed <==> rarityCount == names
    ensures completed ==> && data == PetalRow(heap, base, rarityCount, p)
                          && var e := RawEntry(id, sid, data);
                             sum' == Summary(rows + [e], names) && det' == Detail(sids, rows + [e], names)
  {
    ghost var e := RawEntry(id, sid, PetalRow(heap, base, rarityCount, p));
    PartwayStart(sum, det, e);
    sum', det' := sum, det;
    data := [];
    var r := 0;
    while r < rarityCount
      invariant 0 <= r <= rarityCount && r <= names
      invariant data == e.counts[..r]
      invariant sum' == AddedUpTo(sum, e, r)
      invariant det' == WrittenUpTo(det, e, r)
    {
      if r >= names {
        return false, data, sum', det';
      }
      var count := HeapRead(heap, base + p * rarityCount + r);
      assert count == CountAt(e, r);
      CountsPrefixStep(e, r);
      PartwayStep(sum, det, e, r);
      data := data + [count];
      sum' := sum'[r := sum'[r] + count];
      det' := det'[r := det'[r][sid := count]];
      r := r + 1;
    }
    PartwayDone(sids, rows, e, names);
    assert data == e.counts;
    completed := true;
  }

  /** Each row with its counts keyed by rarity name. */
  function FormatRows(names: seq<string>, rows: seq<RawEntry>): (r: seq<FormattedPetal>)
    requires Distinct(names)
    requires forall i :: 0 <= i < |rows| ==> |names| <= |rows[i].counts|
    ensures |r| == |rows| && forall i :: 0 <= i < |rows| ==>
              && r[i].id == rows[i].id && r[i].sid == rows[i].sid
              && r[i].counts.Keys == set k | k in names
              && forall k :: 0 <= k < |names| ==> names[k] in r[i].counts && r[i].counts[names[k]] == rows[i].counts[k]
  {
    seq(|rows|, i requires 0 <= i < |rows| => FormattedPetal(rows[i].id, rows[i].sid, NamedCounts(names, rows[i].counts)))
  }

  /** `raw` holds one row per petal, with one count per rarity, and `summary` and `detail`
      are computed from it. */
  ghost predicate Tallied(petals: seq<Petal>, rarityCount: nat, names: nat, sids: seq<string>,
                          summary: seq<nat>, detail: seq<map<string, nat>>, raw: seq<RawEntry>)
  {
    && |raw| == |petals|
    && (forall p :: 0 <= p < |petals| ==> raw[p].sid == petals[p].sid && |raw[p].counts| == rarityCount)
    && summary == Summary(raw, names)
    && detail == Detail(sids, raw, names)
  }

  class PetalCountLogger {
    /** The inventory base address the signature scan found. */
    const base: int
    const petals: seq<Petal>
    const sids: seq<string> := PetalSids(petals)
    const rarityCount: nat := PetalRarityCount(petals)
    const rarityNames: seq<string> := PetalRarityNames(rarityCount)

    var summary: Option<seq<nat>>
    var detail: Option<seq<map<string, nat>>>
    var raw: Option<seq<RawEntry>>
    var lastUpdate: Option<int>

    /** Either no tick has completed, or the four fields are the result of one tick. */
    ghost predicate Valid()
      reads this
    {
      || (summary.None? && detail.None? && raw.None? && lastUpdate.None?)
      || (&& summary.Some? && detail.Some? && raw.Some? && lastUpdate.Some?
          && Tallied(petals, rarityCount, |rarityNames|, sids, summary.value, detail.value, raw.value))
    }

    constructor(base: int, petals: seq<Petal>)
      ensures this.base == base && this.petals == petals
      ensures summary.None? && detail.None? && raw.None? && lastUpdate.None?
      ensures Valid()
    {
      this.base := base;
      this.petals := petals;
      summary, detail, raw, lastUpdate := None, None, None, None;
    }

    /** The body of the interval callback up to the field writes: builds `summary`, `detail`
        and `raw` from the heap. With more than nine rarities the write to `detail[undefined]`
        throws at the first petal (`completed` is false). */
    method BuildSnapshot(heap: seq<nat>) returns (completed: bool, sum: seq<nat>, det: seq<map<string, nat>>,
                                                 rows: seq<RawEntry>)
      ensures completed <==> !(rarityCount > |rarityNames| && |petals| > 0)
      ensures completed ==> && rows == PetalRaw(heap, base, petals, rarityCount, |petals|)
                            && sum == Summary(rows, |rarityNames|)
                            && det == Detail(sids, rows, |rarityNames|)
                            && Tallied(petals, rarityCount, |rarityNames|, sids, sum, det, rows)
    {
      sum := seq(|rarityNames|, _ => 0);
      det := seq(|rarityNames|, _ => Zeros(sids));
      rows := [];
      var p := 0;
      while p < |petals|
        invariant 0 <= p <= |petals|
        invariant p > 0 ==> rarityCount <= |rarityNames|
        invariant rows == PetalRaw(heap, base, petals, rarityCount, p)
        invariant sum == Summary(rows, |rarityNames|)
        invariant det == Detail(sids, rows, |rarityNames|)
      {
        var data;
        completed, data, sum, det := AddPetal(heap, base, rarityCount, |rarityNames|, p, IdOf(petals, p), petals[p].sid,
                                              sum, det, sids, rows);
        if !completed {
          return;
        }
        PetalRawSnoc(heap, base, petals, rarityCount, p);
        rows := rows + [RawEntry(PetalIdOf(petals, petals[p].sid).value, petals[p].sid, data)];
        p := p + 1;
      }
      PetalRawRows(heap, base, petals, rarityCount);
      completed := true;
    }

    /** One run of the interval callback: without a heap it returns early, and a callback that
        throws replaces no field. `Valid()` ties the new `summary` and `detail` to the new `raw`. */
    method Tick(heap: Option<seq<nat>>, now: int)
      requires Valid()
      modifies this
      ensures Valid()
      ensures heap.None? || (rarityCount > |rarityNames| && |petals| > 0) ==>
                summary == old(summary) && detail == old(detail) && raw == old(raw) && lastUpdate == old(lastUpdate)
      ensures heap.Some? && !(rarityCount > |rarityNames| && |petals| > 0) ==>
                raw == Some(PetalRaw(heap.value, base, petals, rarityCount, |petals|)) && lastUpdate == Some(now)
    {
      if heap.None? {
        return;
      }
      var completed, sum, det, rows := BuildSnapshot(heap.value);
      if !completed {
        return;
      }
      summary, detail, raw, lastUpdate := Some(sum), Some(det), Some(rows), Some(now);
    }

    /** `getTotalCount`: the count of `sid` summed over the rarities, 0 before the first tick. */
    method GetTotalCount(sid: string) returns (total: nat)
      requires Valid()
      ensures detail.None? ==> total == 0
      ensures detail.Some? ==> total == TotalOf(detail.value, sid)
      ensures detail.Some? && (forall p :: 0 <= p < |petals| ==> petals[p].sid != sid) ==> total == 0
      ensures forall p :: detail.Some? && LastWithSid(raw.value, p) && raw.value[p].sid == sid ==>
                total == RowTotal(raw.value[p], |rarityNames|)
    {
      if detail.None? {
        return 0;
      }
      var d := detail.value;
      total := 0;
      var r := 0;
      while r < |rarityNames|
        invariant 0 <= r <= |rarityNames| == |d|
        invariant total == Sum(Lookups(d[..r], sid))
      {
        LookupsSnoc(d, sid, r);
        total := total + Lookup(d[r], sid);
        r := r + 1;
      }
      assert d[..r] == d;
      TotalOfDetail(sids, raw.value, |rarityNames|, sid);
    }

    /** `getGrandTotal`: the sum of `summary`, which is every count of the last tick. */
    function GrandTotal(): (t: nat)
      requires Valid()
      reads this
      ensures summary.None? ==> t == 0
      ensures raw.Some? ==> t == Sum(RowTotals(raw.value, |rarityNames|))
    {
      if summary.None? then 0
      else
        GrandTotalIsRowTotals(raw.value, |rarityNames|);
        Sum(summary.value)
    }

    /** `getLeaderboard`: the petals with a positive total, by non-increasing total; the sort is
        stable, so petals with equal totals stay in catalog order. */
    method GetLeaderboard() returns (board: seq<PetalRank>)
      requires Valid()
      ensures detail.None? ==> board == []
      ensures detail.Some? ==> board == StableSort(TotalBoard(petals, detail.value, |petals|), ByTotal)
      ensures forall i, j :: 0 <= i < j < |board| ==> board[i].total >= board[j].total
      ensures detail.Some? ==> multiset(board) == multiset(TotalBoard(petals, detail.value, |petals|))
      ensures detail.Some? ==> forall t :: Ties(board, t, ByTotal) == Ties(TotalBoard(petals, detail.value, |petals|), t, ByTotal)
    {
      if detail.None? {
        return [];
      }
      var leaderboard: seq<PetalRank> := [];
      var i := 0;
      while i < |sids|
        invariant 0 <= i <= |sids| == |petals|
        invariant leaderboard == TotalBoard(petals, detail.value, i)
      {
        var total := GetTotalCount(sids[i]);
        TotalBoardSnoc(petals, detail.value, i);
        if total > 0 {
          leaderboard := leaderboard + [PetalRank(sids[i], sids[i], total, PetalIdOf(petals, sids[i]))];
        }
        i := i + 1;
      }
      ByDescendingIsPreorder(ByTotal, (e: PetalRank) => e.total);
      StableSortCorrect(leaderboard, ByTotal);
      board := StableSort(leaderboard, ByTotal);
    }

    /** `getLeaderboardByRarity`: empty before the first tick and for a name that is not a rarity;
        otherwise the petals with a positive count of that rarity, by non-increasing count. */
    method GetLeaderboardByRarity(rarityName: string) returns (board: seq<PetalRarityRank>)
      requires Valid()
      ensures detail.None? || rarityName !in rarityNames ==> board == []
      ensures detail.Some? && rarityName in rarityNames ==>
                var counts := detail.value[IndexOf(rarityNames, rarityName)];
                && board == StableSort(RarityBoard(petals, counts, |petals|), ByCount)
                && multiset(board) == multiset(RarityBoard(petals, counts, |petals|))
                && forall t :: Ties(board, t, ByCount) == Ties(RarityBoard(petals, counts, |petals|), t, ByCount)
      ensures forall i, j :: 0 <= i < j < |board| ==> board[i].count >= board[j].count
    {
      if detail.None? {
        return [];
      }
      var r := IndexOf(rarityNames, rarityName);
      if r == -1 {
        return [];
      }
      var counts := detail.value[r];
      var leaderboard: seq<PetalRarityRank> := [];
      var i := 0;
      while i < |sids|
        invariant 0 <= i <= |sids| == |petals|
        invariant leaderboard == RarityBoard(petals, counts, i)
      {
        var count := Lookup(counts, sids[i]);
        RarityBoardSnoc(petals, counts, i);
        if count > 0 {
          leaderboard := leaderboard + [PetalRarityRank(sids[i], sids[i], count, PetalIdOf(petals, sids[i]))];
        }
        i := i + 1;
      }
      ByDescendingIsPreorder(ByCount, (e: PetalRarityRank) => e.count);
      StableSortCorrect(leaderboard, ByCount);
      board := StableSort(leaderboard, ByCount);
    }

    /** `getDistribution`: the count of `sid` under every rarity name, `null` before the first tick. */
    method GetDistribution(sid: string) returns (dist: Option<map<string, nat>>)
      requires Valid()
      ensures dist.None? <==> detail.None?
      ensures dist.Some? ==> dist.value.Keys == set k | k in rarityNames
      ensures dist.Some? ==> forall k :: 0 <= k < |rarityNames| ==> dist.value[rarityNames[k]] == Lookup(detail.value[k], sid)
    {
      if detail.None? {
        return None;
      }
      PetalRarityNamesWellFormed(rarityCount);
      var m := Distribution(rarityNames, detail.value, sid);
      dist := Some(m);
    }

    /** `getRawFormatted`: `raw` with each row's counts keyed by rarity name. */
    function RawFormatted(): (r: Option<seq<FormattedPetal>>)
      requires Valid()
      reads this
      ensures r.None? <==> raw.None?
      ensures r.Some? ==> |r.value| == |raw.value| && forall i :: 0 <= i < |raw.value| ==>
                && r.value[i].id == raw.value[i].id && r.value[i].sid == raw.value[i].sid
                && r.value[i].counts.Keys == set k | k in rarityNames
                && forall k :: 0 <= k < |rarityNames| ==>
                     rarityNames[k] in r.value[i].counts && r.value[i].counts[rarityNames[k]] == raw.value[i].counts[k]
    {
      if raw.None? then None
      else
        PetalRarityNamesWellFormed(rarityCount);
        Some(FormatRows(rarityNames, raw.value))
    }
  }
}
