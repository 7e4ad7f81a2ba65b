/** The kill tracker of script/KilledThisRun.js (`MobTracker`): it keeps a baseline copy of the
    mob kill table, reports every positive difference since then, and merges the report into
    the list the overlay displays. */
module KilledThisRun {
  import opened Wrappers
  import opened Catalog
  import opened Snapshot
  import opened Ranking
  import opened MobTable
  import opened WasmScan
  import Leb128
  import Layout

  /** A `setInterval` handle; browsers hand out positive ids, so a live handle is truthy. */
  type TimerId = n: nat | n > 0 witness 1

  /** One reported cell: `count` new kills of the mob `sid` at the given rarity. */
  datatype Kill = Kill(sid: string, rarity: string, imageUrl: string, count: nat, rarityIndex: nat)

  /** `getMobImageUrl(rarity, sid)`, a call into the game's image generator, is a parameter. */
  type ImageOf = (string, string) -> Option<string>

  /** Cell `r` of `current` against the same cell of `initial` (a missing count reads 0): reported
      when the difference is positive, the rarity has a name and an image is available. */
  predicate IsKill(current: RawEntry, initial: RawEntry, imageOf: ImageOf, r: nat, x: Kill)
  {
    && r < |current.counts|
    && current.counts[r] > CountAt(initial, r)
    && r < |MobRarityNames|
    && imageOf(MobRarityNames[r], current.sid).Some?
    && x == Kill(current.sid, MobRarityNames[r], imageOf(MobRarityNames[r], current.sid).value,
                 current.counts[r] - CountAt(initial, r), r)
  }

  function CellKills(current: RawEntry, initial: RawEntry, imageOf: ImageOf, r: nat): seq<Kill>
    requires r < |current.counts|
  {
    var diff := current.counts[r] - CountAt(initial, r);
    if diff > 0 && r < |MobRarityNames| && imageOf(MobRarityNames[r], current.sid).Some? then
      [Kill(current.sid, MobRarityNames[r], imageOf(MobRarityNames[r], current.sid).value, diff, r)]
    else []
  }

  /** The kills of the first `n` cells of a row. */
  function RowKills(current: RawEntry, initial: RawEntry, imageOf: ImageOf, n: nat): seq<Kill>
    requires n <= |current.counts|
  {
    if n == 0 then [] else RowKills(current, initial, imageOf, n - 1) + CellKills(current, initial, imageOf, n - 1)
  }

  /** The kills of the first `n` rows of `current`, each paired with the baseline row at the same
      position; a row with no baseline counterpart is skipped. */
  function Killed(current: seq<RawEntry>, initial: seq<RawEntry>, imageOf: ImageOf, n: nat): seq<Kill>
    requires n <= |current|
  {
    if n == 0 then []
    else
      Killed(current, initial, imageOf, n - 1) +
      (if n - 1 < |initial| then RowKills(current[n - 1], initial[n - 1], imageOf, |current[n - 1].counts|) else [])
  }

  lemma {:induction false} RowKillsExactly(current: RawEntry, initial: RawEntry, imageOf: ImageOf, n: nat, x: Kill)
    requires n <= |current.counts|
    ensures x in RowKills(current, initial, imageOf, n) <==> exists r :: 0 <= r < n && IsKill(current, initial, imageOf, r, x)
  {
    if n > 0 {
      RowKillsExactly(current, initial, imageOf, n - 1, x);
      assert x in CellKills(current, initial, imageOf, n - 1) <==> IsKill(current, initial, imageOf, n - 1, x);
      if IsKill(current, initial, imageOf, n - 1, x) {
        assert x in RowKills(current, initial, imageOf, n);
      } else if x in RowKills(current, initial, imageOf, n) {
        assert x in RowKills(current, initial, imageOf, n - 1);
      }
    }
  }

  lemma {:induction false} RowKillsNone(e: RawEntry, imageOf: ImageOf, n: nat)
    requires n <= |e.counts|
    ensures RowKills(e, e, imageOf, n) == []
  {
    if n > 0 {
      RowKillsNone(e, imageOf, n - 1);
    }
  }

  /** A reported kill is exactly a cell, paired by position with the baseline, whose count grew
      and which has a rarity name and an image; it reports the growth. */
  lemma {:induction false} KilledExactly(current: seq<RawEntry>, initial: seq<RawEntry>, imageOf: ImageOf, n: nat, x: Kill)
    requires n <= |current|
    ensures x in Killed(current, initial, imageOf, n) <==>
              exists k, r :: 0 <= k < n && k < |initial| && 0 <= r && IsKill(current[k], initial[k], imageOf, r, x)
  {
    if n > 0 {
      var m := n - 1;
      var prev := Killed(current, initial, imageOf, m);
      var row := if m < |initial| then RowKills(current[m], initial[m], imageOf, |current[m].counts|) else [];
      assert Killed(current, initial, imageOf, n) == prev + row;
      KilledExactly(current, initial, imageOf, m, x);
      if m < |initial| {
        RowKillsExactly(current[m], initial[m], imageOf, |current[m].counts|, x);
      }
      if x in row {
        var r :| 0 <= r < |current[m].counts| && IsKill(current[m], initial[m], imageOf, r, x);
        assert 0 <= m < n && m < |initial| && 0 <= r && IsKill(current[m], initial[m], imageOf, r, x);
      }
      if exists k, r :: 0 <= k < n && k < |initial| && 0 <= r && IsKill(current[k], initial[k], imageOf, r, x) {
        var k, r :| 0 <= k < n && k < |initial| && 0 <= r && IsKill(current[k], initial[k], imageOf, r, x);
        if k == m {
          assert x in row;
        } else {
          assert x in prev;
        }
      }
    }
  }

  /** Every reported count is positive. */
  lemma KilledPositive(current: seq<RawEntry>, initial: seq<RawEntry>, imageOf: ImageOf, x: Kill)
    requires x in Killed(current, initial, imageOf, |current|)
    ensures x.count > 0 && x.rarityIndex < |MobRarityNames| && x.rarity == MobRarityNames[x.rarityIndex]
  {
    KilledExactly(current, initial, imageOf, |current|, x);
  }

  /** Against a baseline equal to the current data nothing is reported: right after
      `resetBaseline`, with the heap unchanged, `getKilledThisRun` returns `[]`. */
  lemma {:induction false} NothingKilledSinceBaseline(data: seq<RawEntry>, imageOf: ImageOf, n: nat)
    requires n <= |data|
    ensures Killed(data, data, imageOf, n) == []
  {
    if n > 0 {
      NothingKilledSinceBaseline(data, imageOf, n - 1);
      RowKillsNone(data[n - 1], imageOf, |data[n - 1].counts|);
    }
  }

  /** The order of the display list, best rarity first. */
  const RarityOrder: seq<string> := ["Super", "Ultra", "Mythic", "Legendary", "Epic", "Rare", "Unusual", "Common"]

  /** The display comparator as "a may come before b": a better rarity, or the same rarity and
      `a.sid.localeCompare(b.sid) <= 0`, which is the parameter `sidLe`. */
  function DisplayOrder(sidLe: (string, string) -> bool): (Kill, Kill) -> bool
  {
    (a: Kill, b: Kill) =>
      var d := IndexOf(RarityOrder, a.rarity) - IndexOf(RarityOrder, b.rarity);
      d < 0 || (d == 0 && sidLe(a.sid, b.sid))
  }

  /** With `localeCompare` a total preorder on sids, the display comparator is one on kills. */
  lemma DisplayOrderIsPreorder(sidLe: (string, string) -> bool)
    requires TotalPreorder(sidLe)
    ensures TotalPreorder(DisplayOrder(sidLe))
  {
    var le := DisplayOrder(sidLe);
    forall a: Kill, b: Kill
      ensures le(a, b) || le(b, a)
    {
      assert sidLe(a.sid, b.sid) || sidLe(b.sid, a.sid);
    }
    forall a: Kill, b: Kill, c: Kill | le(a, b) && le(b, c)
      ensures le(a, c)
    {
      if IndexOf(RarityOrder, a.rarity) == IndexOf(RarityOrder, b.rarity) == IndexOf(RarityOrder, c.rarity) {
        assert sidLe(a.sid, b.sid) && sidLe(b.sid, c.sid);
      }
    }
  }

  /** With `localeCompare` a total preorder, the display list runs from the best rarity to the
      worst, by sid within a rarity, and equal entries keep their report order. */
  lemma DisplaySorted(killed: seq<Kill>, sidLe: (string, string) -> bool)
    requires TotalPreorder(sidLe)
    ensures var sorted := StableSort(killed, DisplayOrder(sidLe));
            && multiset(sorted) == multiset(killed)
            && (forall i, j :: 0 <= i < j < |sorted| ==>
                  && IndexOf(RarityOrder, sorted[i].rarity) <= IndexOf(RarityOrder, sorted[j].rarity)
                  && (IndexOf(RarityOrder, sorted[i].rarity) == IndexOf(RarityOrder, sorted[j].rarity) ==>
                        sidLe(sorted[i].sid, sorted[j].sid)))
            && forall t :: Ties(sorted, t, DisplayOrder(sidLe)) == Ties(killed, t, DisplayOrder(sidLe))
  {
    DisplayOrderIsPreorder(sidLe);
    StableSortCorrect(killed, DisplayOrder(sidLe));
  }

  /** The kills of `items`, each weighted by `w`. */
  function Tally(items: seq<Kill>, w: Kill -> nat): nat
  {
    if items == [] then 0 else Tally(items[..|items| - 1], w) + w(items[|items| - 1])
  }

  function KillCount(k: Kill): nat
  {
    k.count
  }

  /** The number of kills in `items`. */
  function TotalCount(items: seq<Kill>): nat
  {
    Tally(items, KillCount)
  }

  lemma {:induction false} TallyFront(items: seq<Kill>, w: Kill -> nat)
    requires items != []
    ensures Tally(items, w) == w(items[0]) + Tally(items[1..], w)
  {
    if |items| > 1 {
      var n := |items| - 1;
      TallyFront(items[..n], w);
      assert items[..n][1..] == items[1..][..n - 1];
    }
  }

  lemma {:induction false} InsertKeepsTally(s: seq<Kill>, x: Kill, le: (Kill, Kill) -> bool, w: Kill -> nat)
    ensures Tally(Insert(s, x, le), w) == Tally(s, w) + w(x)
  {
    var r := Insert(s, x, le);
    TallyFront(r, w);
    if s == [] {
    } else if !le(s[0], x) {
      assert r[1..] == s;
    } else {
      InsertKeepsTally(s[1..], x, le, w);
      assert r[1..] == Insert(s[1..], x, le);
      TallyFront(s, w);
    }
  }

  /** Sorting keeps every weighted count of the kills, whatever the comparator. */
  lemma {:induction false} SortKeepsTally(s: seq<Kill>, le: (Kill, Kill) -> bool, w: Kill -> nat)
    ensures Tally(StableSort(s, le), w) == Tally(s, w)
  {
    if s != [] {
      SortKeepsTally(s[..|s| - 1], le, w);
      InsertKeepsTally(StableSort(s[..|s| - 1], le), s[|s| - 1], le, w);
    }
  }

  /** The key of the `Map` that merges the display list. */
  function Key(k: Kill): string
  {
    k.rarity + "_" + k.sid
  }

  /** The first `_` of a key ends its rarity, so keys with rarities of different lengths differ. */
  lemma KeysOfDifferentRarityLengths(r1: string, s1: string, r2: string, s2: string)
    requires '_' !in r2 && |r1| < |r2|
    ensures r1 + "_" + s1 != r2 + "_" + s2
  {
    assert (r1 + "_" + s1)[|r1|] == '_';
    assert (r2 + "_" + s2)[|r1|] == r2[|r1|];
  }

  /** Two kills whose rarities contain no `_` share a key exactly when they share rarity and
      sid. Every rarity name qualifies. */
  lemma KeyInjective(a: Kill, b: Kill)
    requires '_' !in a.rarity && '_' !in b.rarity
    ensures Key(a) == Key(b) <==> a.rarity == b.rarity && a.sid == b.sid
  {
    var ka, kb := Key(a), Key(b);
    if |a.rarity| < |b.rarity| {
      KeysOfDifferentRarityLengths(a.rarity, a.sid, b.rarity, b.sid);
    } else if |b.rarity| < |a.rarity| {
      KeysOfDifferentRarityLengths(b.rarity, b.sid, a.rarity, a.sid);
    } else if ka == kb {
      assert a.rarity == ka[..|a.rarity|] == kb[..|b.rarity|] == b.rarity;
      assert a.sid == ka[|a.rarity| + 1..] == kb[|b.rarity| + 1..] == b.sid;
    }
  }

  /** The merged display list: the `Map`'s keys in insertion order and its entries. */
  datatype Merged = Merged(keys: seq<string>, entries: map<string, Kill>)

  /** `sortedKilled.forEach`: a new key copies the item, a known key adds the item's count. */
  function Merge(items: seq<Kill>): Merged
  {
    if items == [] then Merged([], map[]) else MergeStep(Merge(items[..|items| - 1]), items[|items| - 1])
  }

  /** One step of the `forEach`. */
  function MergeStep(m: Merged, item: Kill): Merged
  {
    var key := Key(item);
    if key in m.entries then
      Merged(m.keys, m.entries[key := m.entries[key].(count := m.entries[key].count + item.count)])
    else Merged(m.keys + [key], m.entries[key := item])
  }

  function KeyWeight(key: string): Kill -> nat
  {
    (k: Kill) => if Key(k) == key then k.count else 0
  }

  /** The kills of `items` under one key. */
  function KeyCount(items: seq<Kill>, key: string): nat
  {
    Tally(items, KeyWeight(key))
  }

  /** The sum of the merged counts, key by key (a key without an entry counts 0). */
  function MergedTotal(keys: seq<string>, entries: map<string, Kill>): nat
  {
    if keys == [] then 0
    else
      var k := keys[|keys| - 1];
      MergedTotal(keys[..|keys| - 1], entries) + (if k in entries then entries[k].count else 0)
  }

  /** The keys are distinct, and they are the keys of the entries. */
  lemma {:induction false} MergeKeys(items: seq<Kill>)
    ensures Distinct(Merge(items).keys)
    ensures forall k :: k in Merge(items).keys <==> k in Merge(items).entries
  {
    if items != [] {
      MergeKeys(items[..|items| - 1]);
    }
  }

  /** A key is merged exactly when some item has it. */
  lemma {:induction false} MergeDomain(items: seq<Kill>, k: string)
    ensures k in Merge(items).entries <==> exists i :: 0 <= i < |items| && Key(items[i]) == k
  {
    if items != [] {
      var n := |items| - 1;
      MergeDomain(items[..n], k);
      if exists i :: 0 <= i < |items| && Key(items[i]) == k {
        var i :| 0 <= i < |items| && Key(items[i]) == k;
        if i < n {
          assert Key(items[..n][i]) == k;
        }
      }
      if exists i :: 0 <= i < n && Key(items[..n][i]) == k {
        var i :| 0 <= i < n && Key(items[..n][i]) == k;
        assert Key(items[i]) == k;
      }
    }
  }

  /** Each entry carries its own key and the total count of the items with that key. */
  lemma {:induction false} MergeEntries(items: seq<Kill>)
    ensures forall k :: k in Merge(items).entries ==> Key(Merge(items).entries[k]) == k
    ensures forall k :: k in Merge(items).entries ==> Merge(items).entries[k].count == KeyCount(items, k)
  {
    if items != [] {
      var n := |items| - 1;
      MergeEntries(items[..n]);
      forall k | k in Merge(items).entries
        ensures Merge(items).entries[k].count == KeyCount(items, k)
      {
        if k !in Merge(items[..n]).entries {
          MergeDomain(items[..n], k);
          if KeyCount(items[..n], k) != 0 {
            KeyCountPositive(items[..n], k);
          }
        }
      }
    }
  }

  lemma {:induction false} KeyCountPositive(items: seq<Kill>, k: string)
    requires KeyCount(items, k) != 0
    ensures exists i :: 0 <= i < |items| && Key(items[i]) == k
  {
    var n := |items| - 1;
    if Key(items[n]) != k || KeyCount(items[..n], k) != 0 {
      if Key(items[n]) != k {
        KeyCountPositive(items[..n], k);
        var i :| 0 <= i < n && Key(items[..n][i]) == k;
        assert Key(items[i]) == k;
      }
    }
  }

  lemma {:induction false} MergedTotalOther(keys: seq<string>, entries: map<string, Kill>, key: string, v: Kill)
    requires key !in keys
    ensures MergedTotal(keys, entries[key := v]) == MergedTotal(keys, entries)
  {
    if keys != [] {
      MergedTotalOther(keys[..|keys| - 1], entries, key, v);
    }
  }

  lemma {:induction false} MergedTotalBump(keys: seq<string>, entries: map<string, Kill>, key: string, v: Kill)
    requires Distinct(keys) && key in keys && key in entries
    ensures MergedTotal(keys, entries[key := v]) + entries[key].count == MergedTotal(keys, entries) + v.count
  {
    var n := |keys| - 1;
    if keys[n] == key {
      assert key !in keys[..n];
      MergedTotalOther(keys[..n], entries, key, v);
    } else {
      assert key in keys[..n];
      MergedTotalBump(keys[..n], entries, key, v);
    }
  }

  /** One step adds the item's count to the merged total. */
  lemma MergeStepTotal(m: Merged, item: Kill)
    requires Distinct(m.keys) && forall k :: k in m.keys <==> k in m.entries
    ensures MergedTotal(MergeStep(m, item).keys, MergeStep(m, item).entries) == MergedTotal(m.keys, m.entries) + item.count
  {
    var key := Key(item);
    if key in m.entries {
      var v := m.entries[key].(count := m.entries[key].count + item.count);
      MergedTotalBump(m.keys, m.entries, key, v);
    } else {
      var e := m.entries[key := item];
      assert (m.keys + [key])[..|m.keys|] == m.keys;
      assert MergedTotal(m.keys + [key], e) == MergedTotal(m.keys, e) + item.count;
      MergedTotalOther(m.keys, m.entries, key, item);
    }
  }

  /** Merging keeps the number of kills. */
  lemma {:induction false} MergeKeepsTotal(items: seq<Kill>)
    ensures MergedTotal(Merge(items).keys, Merge(items).entries) == TotalCount(items)
  {
    if items != [] {
      var n := |items| - 1;
      MergeKeepsTotal(items[..n]);
      MergeKeys(items[..n]);
      MergeStepTotal(Merge(items[..n]), items[n]);
    }
  }

  /** What the merged display list holds, for any order of the sort: one entry per distinct key
      of the report, carrying that key and the sum of the report's counts under it, so the
      total number of kills is unchanged. */
  lemma MergedReport(killed: seq<Kill>, le: (Kill, Kill) -> bool)
    ensures var m := Merge(StableSort(killed, le));
            && Distinct(m.keys)
            && (forall k :: k in m.keys <==> k in m.entries)
            && (forall k :: k in m.entries <==> exists i :: 0 <= i < |killed| && Key(killed[i]) == k)
            && (forall k :: k in m.entries ==> Key(m.entries[k]) == k && m.entries[k].count == KeyCount(killed, k))
            && MergedTotal(m.keys, m.entries) == TotalCount(killed)
  {
    var sorted := StableSort(killed, le);
    var m := Merge(sorted);
    MergeKeys(sorted);
    MergeEntries(sorted);
    MergeKeepsTotal(sorted);
    SortKeepsTally(killed, le, KillCount);
    forall k
      ensures k in m.entries <==> exists i :: 0 <= i < |killed| && Key(killed[i]) == k
      ensures k in m.entries ==> m.entries[k].count == KeyCount(killed, k)
    {
      MergedKey(killed, le, k);
    }
  }

  /** One key of the merged display list: present exactly when some reported kill has it,
      with the report's count under it. */
  lemma MergedKey(killed: seq<Kill>, le: (Kill, Kill) -> bool, k: string)
    ensures var m := Merge(StableSort(killed, le));
            && (k in m.entries <==> exists i :: 0 <= i < |killed| && Key(killed[i]) == k)
            && (k in m.entries ==> m.entries[k].count == KeyCount(killed, k))
  {
    var sorted := StableSort(killed, le);
    MergeEntries(sorted);
    MergeDomain(sorted, k);
    SortKeepsTally(killed, le, KeyWeight(k));
    StableSortPermutes(killed, le);
    KeyInBoth(killed, sorted, k);
    KeyInBoth(sorted, killed, k);
  }

  /** A permutation holds the same keys. */
  lemma KeyInBoth(a: seq<Kill>, b: seq<Kill>, k: string)
    requires multiset(a) == multiset(b)
    ensures (exists i :: 0 <= i < |a| && Key(a[i]) == k) ==> exists j :: 0 <= j < |b| && Key(b[j]) == k
  {
    if exists i :: 0 <= i < |a| && Key(a[i]) == k {
      var i :| 0 <= i < |a| && Key(a[i]) == k;
      assert a[i] in multiset(b);
      var j :| 0 <= j < |b| && b[j] == a[i];
    }
  }

  class MobTracker {
    var initialData: Option<seq<RawEntry>>
    var currentData: Option<seq<RawEntry>>
    /** The catalog behind `mobById`; a later mob with the same id wins. */
    var mobs: seq<Mob>
    var maxMobId: int
    var mobBase: Option<int>
    var updateInterval: Option<TimerId>

    constructor()
      ensures initialData.None? && currentData.None? && mobs == [] && maxMobId == 0
      ensures mobBase == Some(0) && updateInterval.None?
    {
      initialData, currentData := None, None;
      mobs, maxMobId, mobBase := [], 0, Some(0);
      updateInterval := None;
    }

    /** `getMobData`: `null` without a heap, else the entries of the rows `0..maxMobId` that
        belong to a catalog mob. */
    method GetMobData(heap: Option<seq<nat>>) returns (data: Option<seq<RawEntry>>)
      ensures heap.None? ==> data.None?
      ensures heap.Some? ==> data == Some(MobData(heap.value, mobBase, mobs, RowsThrough(maxMobId)))
    {
      if heap.None? {
        return None;
      }
      var rows: seq<RawEntry> := [];
      var i := 0;
      while i <= maxMobId
        invariant 0 <= i <= RowsThrough(maxMobId)
        invariant rows == MobData(heap.value, mobBase, mobs, i)
      {
        var mobCounts := ReadMobRow(heap.value, mobBase, i);
        var mob := MobById(mobs, i + 1);
        if mob.Some? {
          rows := rows + [RawEntry(mob.value.id, mob.value.sid, mobCounts)];
        }
        i := i + 1;
      }
      data := Some(rows);
    }

    /** `resetBaseline`: the baseline is a copy of the current table. The sequences are
        values, so the JSON round trip that breaks aliasing in the source is implicit. */
    method ResetBaseline(heap: Option<seq<nat>>)
      modifies this
      ensures initialData == (if heap.None? then None else Some(MobData(heap.value, mobBase, mobs, RowsThrough(maxMobId))))
      ensures currentData == old(currentData) && mobs == old(mobs) && maxMobId == old(maxMobId)
      ensures mobBase == old(mobBase) && updateInterval == old(updateInterval)
    {
      initialData := GetMobData(heap);
    }

    /** `getKilledThisRun`: refreshes `currentData` and reports every positive difference from
        the baseline, or nothing while either side is `null`. */
    method GetKilledThisRun(heap: Option<seq<nat>>, imageOf: ImageOf) returns (killed: seq<Kill>)
      modifies this
      ensures currentData == (if heap.None? then None else Some(MobData(heap.value, mobBase, mobs, RowsThrough(maxMobId))))
      ensures initialData == old(initialData) && mobs == old(mobs) && maxMobId == old(maxMobId)
      ensures mobBase == old(mobBase) && updateInterval == old(updateInterval)
      ensures currentData.None? || initialData.None? ==> killed == []
      ensures currentData.Some? && initialData.Some? ==>
                killed == Killed(currentData.value, initialData.value, imageOf, |currentData.value|)
    {
      currentData := GetMobData(heap);
      if currentData.None? || initialData.None? {
        return [];
      }
      killed := KilledSince(currentData.value, initialData.value, imageOf);
    }

    /** `startTracking`: the handle of the 50 ms interval is kept for `stop`. */
    method StartTracking(timer: TimerId)
      modifies this
      ensures updateInterval == Some(timer)
      ensures initialData == old(initialData) && currentData == old(currentData) && mobs == old(mobs)
      ensures maxMobId == old(maxMobId) && mobBase == old(mobBase)
    {
      updateInterval := Some(timer);
    }

    /** `initialize`: loads the catalog, derives the table base with a gap of 164 bytes from the
        scan's first candidate (none gives the `NaN` base), takes the baseline and starts the
        interval. The default rarity count of the derivation is 9 (`|| 9`). */
    method Initialize(catalog: seq<Mob>, petals: seq<Petal>, wasm: seq<Leb128.Byte>, heap: Option<seq<nat>>,
                      timer: TimerId)
      modifies this
      ensures mobs == old(mobs) + catalog && maxMobId == MaxMobId(catalog)
      ensures Candidates(wasm, |wasm|) == [] ==> mobBase.None?
      ensures Candidates(wasm, |wasm|) != [] ==>
                mobBase == Some(Layout.DerivedBase(Candidates(wasm, |wasm|)[0], |petals|, MobScriptRarityCount(petals),
                                                   Layout.TrackerGap))
      ensures initialData == (if heap.None? then None else Some(MobData(heap.value, mobBase, mobs, RowsThrough(maxMobId))))
      ensures updateInterval == Some(timer) && currentData == old(currentData)
    {
      mobs := mobs + catalog;
      maxMobId := MaxMobId(catalog);
      var inventoryBase := FirstInventoryBaseAddress(wasm);
      var rarityCount := MobScriptRarityCount(petals);
      mobBase := match inventoryBase
        case None => None
        case Some(b) => Some(Layout.DerivedBase(b, |petals|, rarityCount, Layout.TrackerGap));
      ResetBaseline(heap);
      StartTracking(timer);
    }

    /** `stop`: clears a running interval (its handle is returned) and forgets it; a second call
        finds nothing to clear. */
    method Stop() returns (cleared: Option<TimerId>)
      modifies this
      ensures cleared == old(updateInterval) && updateInterval.None?
      ensures initialData == old(initialData) && currentData == old(currentData) && mobs == old(mobs)
      ensures maxMobId == old(maxMobId) && mobBase == old(mobBase)
    {
      cleared := None;
      if updateInterval.Some? {
        cleared := updateInterval;
        updateInterval := None;
      }
    }
  }

  /** The two `forEach` loops of `getKilledThisRun`, pairing rows by position. */
  method KilledSince(current: seq<RawEntry>, initial: seq<RawEntry>, imageOf: ImageOf) returns (killed: seq<Kill>)
    ensures killed == Killed(current, initial, imageOf, |current|)
  {
    killed := [];
    var index := 0;
    while index < |current|
      invariant 0 <= index <= |current|
      invariant killed == Killed(current, initial, imageOf, index)
    {
      var row: seq<Kill> := [];
      if index < |initial| {
        row := KillsOfRow(current[index], initial[index], imageOf);
      }
      assert Killed(current, initial, imageOf, index + 1) == killed + row;
      killed := killed + row;
      index := index + 1;
    }
  }

  /** The inner `forEach` of `getKilledThisRun` over one row's counts. */
  method KillsOfRow(current: RawEntry, initial: RawEntry, imageOf: ImageOf) returns (kills: seq<Kill>)
    ensures kills == RowKills(current, initial, imageOf, |current.counts|)
  {
    kills := [];
    var rarityIndex := 0;
    while rarityIndex < |current.counts|
      invariant 0 <= rarityIndex <= |current.counts|
      invariant kills == RowKills(current, initial, imageOf, rarityIndex)
    {
      var diff := current.counts[rarityIndex] - CountAt(initial, rarityIndex);
      if diff > 0 && rarityIndex < |MobRarityNames| {
        var rarity := MobRarityNames[rarityIndex];
        var imageUrl := imageOf(rarity, current.sid);
        if imageUrl.Some? {
          kills := kills + [Kill(current.sid, rarity, imageUrl.value, diff, rarityIndex)];
        }
      }
      rarityIndex := rarityIndex + 1;
    }
  }

  /** The sort and merge of `updateUI`: the report sorted by rarity then sid, and merged by key. */
  method DisplayList(killed: seq<Kill>, sidLe: (string, string) -> bool) returns (merged: Merged)
    ensures merged == Merge(StableSort(killed, DisplayOrder(sidLe)))
  {
    var sorted := StableSort(killed, DisplayOrder(sidLe));
    var keys: seq<string> := [];
    var entries: map<string, Kill> := map[];
    var i := 0;
    while i < |sorted|
      invariant 0 <= i <= |sorted|
      invariant Merged(keys, entries) == Merge(sorted[..i])
    {
      assert sorted[..i + 1][..i] == sorted[..i];
      var item := sorted[i];
      var key := item.rarity + "_" + item.sid;
      if key in entries {
        entries := entries[key := entries[key].(count := entries[key].count + item.count)];
      } else {
        keys := keys + [key];
        entries := entries[key := item];
      }
      i := i + 1;
    }
    assert sorted[..i] == sorted;
    merged := Merged(keys, entries);
  }
}
