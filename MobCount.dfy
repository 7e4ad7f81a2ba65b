/** The mob kill counter (`window.MobCountLogger`): the mob table sits after the petal table
    (base derived with a gap of 176 bytes), and `updateData` reads it once at start and then every
    five seconds. */
module MobCount {
  import opened Wrappers
  import opened Catalog
  import opened Snapshot
  import opened Ranking
  import opened MobTable
  import Layout

  datatype MobRank = MobRank(sid: string, name: string, total: nat)

  datatype FormattedMob = FormattedMob(id: int, sid: string, kills: map<string, nat>)

  function MobSids(mobs: seq<Mob>): (sids: seq<string>)
    ensures |sids| == |mobs| && forall i :: 0 <= i < |mobs| ==> sids[i] == mobs[i].sid
  {
    seq(|mobs|, i requires 0 <= i < |mobs| => mobs[i].sid)
  }

  /** `getLeaderboard` before its sort, over the first `n` catalog sids. */
  function KillBoard(mobs: seq<Mob>, detail: seq<map<string, nat>>, n: nat): seq<MobRank>
    requires n <= |mobs|
  {
    Board(MobSids(mobs)[..n], (sid: string) => TotalOf(detail, sid), (sid: string, total: nat) => MobRank(sid, sid, total))
  }

  lemma KillBoardSnoc(mobs: seq<Mob>, detail: seq<map<string, nat>>, n: nat)
    requires n < |mobs|
    ensures var sid := mobs[n].sid;
            var total := TotalOf(detail, sid);
            KillBoard(mobs, detail, n + 1)
            == KillBoard(mobs, detail, n) + (if total > 0 then [MobRank(sid, sid, total)] else [])
  {
    assert MobSids(mobs)[..n + 1][..n] == MobSids(mobs)[..n];
  }

  /** The mob leaderboard lists exactly the catalog mobs whose total is positive. */
  lemma KillBoardMembers(mobs: seq<Mob>, detail: seq<map<string, nat>>, x: MobRank)
    ensures x in KillBoard(mobs, detail, |mobs|) <==>
              exists i :: 0 <= i < |mobs| && TotalOf(detail, mobs[i].sid) > 0 &&
                          x == MobRank(mobs[i].sid, mobs[i].sid, TotalOf(detail, mobs[i].sid))
  {
    assert MobSids(mobs)[..|mobs|] == MobSids(mobs);
    BoardMembers(MobSids(mobs), (sid: string) => TotalOf(detail, sid),
                 (sid: string, total: nat) => MobRank(sid, sid, total), x);
  }

  const ByTotal: (MobRank, MobRank) -> bool := (a: MobRank, b: MobRank) => a.total >= b.total

  /** Each row with its kills keyed by rarity name. */
  function FormatRows(names: seq<string>, rows: seq<RawEntry>): (r: seq<FormattedMob>)
    requires Distinct(names)
    requires forall i :: 0 <= i < |rows| ==> |names| <= |rows[i].counts|
    ensures |r| == |rows| && forall i :: 0 <= i < |rows| ==>
              && r[i].id == rows[i].id && r[i].sid == rows[i].sid
              && r[i].kills.Keys == set k | k in names
              && forall k :: 0 <= k < |names| ==> names[k] in r[i].kills && r[i].kills[names[k]] == rows[i].counts[k]
  {
    seq(|rows|, i requires 0 <= i < |rows| => FormattedMob(rows[i].id, rows[i].sid, NamedCounts(names, rows[i].counts)))
  }

  /** `updateData` up to the field writes: every row `0..maxMobId` is read, and the rows that
      belong to a catalog mob go into `raw`, `summary` and `detail`. */
  method ReadMobTable(heap: seq<nat>, mobBase: int, mobs: seq<Mob>, maxMobId: int, sids: seq<string>)
    returns (sum: seq<nat>, det: seq<map<string, nat>>, rows: seq<RawEntry>)
    ensures rows == MobData(heap, Some(mobBase), mobs, RowsThrough(maxMobId))
    ensures sum == Summary(rows, Layout.MobRarityCount) && det == Detail(sids, rows, Layout.MobRarityCount)
  {
    sum := seq(Layout.MobRarityCount, _ => 0);
    det := seq(Layout.MobRarityCount, _ => Zeros(sids));
    rows := [];
    var i := 0;
    while i <= maxMobId
      invariant 0 <= i <= RowsThrough(maxMobId)
      invariant rows == MobData(heap, Some(mobBase), mobs, i)
      invariant sum == Summary(rows, Layout.MobRarityCount) && det == Detail(sids, rows, Layout.MobRarityCount)
    {
      var mobData := ReadMobRow(heap, Some(mobBase), i);
      var mob := MobById(mobs, i + 1);
      if mob.Some? {
        var e := RawEntry(mob.value.id, mob.value.sid, mobData);
        sum, det := AddRow(sum, det, e, sids, rows);
        rows := rows + [e];
      }
      i := i + 1;
    }
  }

  class MobCountLogger {
    const base: int
    const petals: seq<Petal>
    const mobs: seq<Mob>
    const mobSids: seq<string> := MobSids(mobs)
    const rarityCountAll: nat := MobScriptRarityCount(petals)
    const maxMobId: int := MaxMobId(mobs)
    const mobBase: int := Layout.DerivedBase(base, |petals|, rarityCountAll, Layout.LoggerGap)
    const rarityNames: seq<string> := MobRarityNames

    var summary: Option<seq<nat>>
    var detail: Option<seq<map<string, nat>>>
    var raw: Option<seq<RawEntry>>
    var lastUpdate: Option<int>

    /** Either no update has run, or the four fields are the result of one update. */
    ghost predicate Valid()
      reads this
    {
      || (summary.None? && detail.None? && raw.None? && lastUpdate.None?)
      || (&& summary.Some? && detail.Some? && raw.Some? && lastUpdate.Some?
          && (forall k :: 0 <= k < |raw.value| ==> |raw.value[k].counts| == |rarityNames|)
          && summary.value == Summary(raw.value, |rarityNames|)
          && detail.value == Detail(mobSids, raw.value, |rarityNames|))
    }

    constructor(base: int, petals: seq<Petal>, mobs: seq<Mob>)
      ensures this.base == base && this.petals == petals && this.mobs == mobs
      ensures summary.None? && detail.None? && raw.None? && lastUpdate.None?
      ensures Valid()
    {
      this.base := base;
      this.petals := petals;
      this.mobs := mobs;
      summary, detail, raw, lastUpdate := None, None, None, None;
    }

    /** `updateData`: without a heap it returns early and changes nothing. */
    method UpdateData(heap: Option<seq<nat>>, now: int)
      requires Valid()
      modifies this
      ensures Valid()
      ensures heap.None? ==>
                summary == old(summary) && detail == old(detail) && raw == old(raw) && lastUpdate == old(lastUpdate)
      ensures heap.Some? ==>
                && raw == Some(MobData(heap.value, Some(mobBase), mobs, RowsThrough(maxMobId)))
                && summary == Some(Summary(raw.value, |rarityNames|))
                && detail == Some(Detail(mobSids, raw.value, |rarityNames|))
                && lastUpdate == Some(now)
    {
      if heap.None? {
        return;
      }
      var sum, det, rows := ReadMobTable(heap.value, mobBase, mobs, maxMobId, mobSids);
      MobDataShape(heap.value, Some(mobBase), mobs, RowsThrough(maxMobId));
      summary, detail, raw, lastUpdate := Some(sum), Some(det), Some(rows), Some(now);
    }

    /** `getTotalKills`: the kills of `sid` summed over the rarities, 0 before the first update. */
    method GetTotalKills(sid: string) returns (total: nat)
      requires Valid()
      ensures detail.None? ==> total == 0
      ensures detail.Some? ==> total == TotalOf(detail.value, sid)
      ensures detail.Some? && (forall k :: 0 <= k < |raw.value| ==> raw.value[k].sid != sid) ==> total == 0
      ensures forall k :: detail.Some? && LastWithSid(raw.value, k) && raw.value[k].sid == sid ==>
                total == RowTotal(raw.value[k], |rarityNames|)
    {
      if detail.None? {
        return 0;
      }
      var d := detail.value;
      total := 0;
      var r := 0;
      while r < |rarityNames|
        invariant 0 <= r <= |rarityNames| == |d|
        invariant total == Sum(Lookups(d[..r], sid))
      {
        LookupsSnoc(d, sid, r);
        total := total + Lookup(d[r], sid);
        r := r + 1;
      }
      assert d[..r] == d;
      TotalOfDetail(mobSids, raw.value, |rarityNames|, sid);
    }

    /** `getGrandTotal`: the sum of `summary`, which is every kill of the last update. */
    function GrandTotal(): (t: nat)
      requires Valid()
      reads this
      ensures summary.None? ==> t == 0
      ensures raw.Some? ==> t == Sum(RowTotals(raw.value, |rarityNames|))
    {
      if summary.None? then 0
      else
        GrandTotalIsRowTotals(raw.value, |rarityNames|);
        Sum(summary.value)
    }

    /** `getLeaderboard`: the catalog mobs with a positive total, by non-increasing total, equal
        totals in catalog order. */
    method GetLeaderboard() returns (board: seq<MobRank>)
      requires Valid()
      ensures detail.None? ==> board == []
      ensures detail.Some? ==> board == StableSort(KillBoard(mobs, detail.value, |mobs|), ByTotal)
      ensures forall i, j :: 0 <= i < j < |board| ==> board[i].total >= board[j].total
      ensures detail.Some? ==> multiset(board) == multiset(KillBoard(mobs, detail.value, |mobs|))
      ensures detail.Some? ==> forall t :: Ties(board, t, ByTotal) == Ties(KillBoard(mobs, detail.value, |mobs|), t, ByTotal)
    {
      if detail.None? {
        return [];
      }
      var leaderboard: seq<MobRank> := [];
      var i := 0;
      while i < |mobSids|
        invariant 0 <= i <= |mobSids| == |mobs|
        invariant leaderboard == KillBoard(mobs, detail.value, i)
      {
        var total := GetTotalKills(mobSids[i]);
        KillBoardSnoc(mobs, detail.value, i);
        if total > 0 {
          leaderboard := leaderboard + [MobRank(mobSids[i], mobSids[i], total)];
        }
        i := i + 1;
      }
      ByDescendingIsPreorder(ByTotal, (e: MobRank) => e.total);
      StableSortCorrect(leaderboard, ByTotal);
      board := StableSort(leaderboard, ByTotal);
    }

    /** `getRawFormatted`: `raw` with each row's kills keyed by rarity name. */
    function RawFormatted(): (r: Option<seq<FormattedMob>>)
      requires Valid()
      reads this
      ensures r.None? <==> raw.None?
      ensures r.Some? ==> |r.value| == |raw.value| && forall i :: 0 <= i < |raw.value| ==>
                && r.value[i].id == raw.value[i].id && r.value[i].sid == raw.value[i].sid
                && r.value[i].kills.Keys == set k | k in rarityNames
                && forall k :: 0 <= k < |rarityNames| ==>
                     rarityNames[k] in r.value[i].kills && r.value[i].kills[rarityNames[k]] == raw.value[i].counts[k]
    {
      if raw.None? then None
      else
        RarityNamesWellFormed();
        Some(FormatRows(rarityNames, raw.value))
    }
  }
}
