/** The mob kill table both mob scripts read: rows `0..maxMobId`, eight double-stride counts
    per row, row `i` belonging to the mob whose id is `i + 1`. */
module MobTable {
  import opened Wrappers
  import opened Catalog
  import opened Snapshot
  import Layout

  /** The count at row `i`, rarity `r`. A base of `None` stands for the `NaN` base of a tracker
      whose scan found nothing: every index is then `NaN` and reads 0. */
  function MobCount(heap: seq<nat>, mobBase: Option<int>, i: nat, r: nat): nat
  {
    match mobBase
    case None => 0
    case Some(b) => HeapRead(heap, Layout.MobCell(b, i, r))
  }

  /** The eight counts of row `i`. */
  function MobRow(heap: seq<nat>, mobBase: Option<int>, i: nat): (row: seq<nat>)
    ensures |row| == Layout.MobRarityCount
    ensures forall r :: 0 <= r < |row| ==> row[r] == MobCount(heap, mobBase, i, r)
  {
    seq(Layout.MobRarityCount, r requires 0 <= r < Layout.MobRarityCount => MobCount(heap, mobBase, i, r))
  }

  /** The entry of row `i`, if a catalog mob has the id `i + 1`. */
  function RowEntry(heap: seq<nat>, mobBase: Option<int>, mobs: seq<Mob>, i: nat): seq<RawEntry>
  {
    match MobById(mobs, i + 1)
    case None => []
    case Some(m) => [RawEntry(m.id, m.sid, MobRow(heap, mobBase, i))]
  }

  lemma RowEntryShape(heap: seq<nat>, mobBase: Option<int>, mobs: seq<Mob>, i: nat)
    ensures var row := RowEntry(heap, mobBase, mobs, i);
            |row| <= 1 && forall k :: 0 <= k < |row| ==> row[k].id == i + 1 && |row[k].counts| == Layout.MobRarityCount
  {
  }

  /** The entries of rows `0..n-1` that belong to a catalog mob, in row order. */
  function MobData(heap: seq<nat>, mobBase: Option<int>, mobs: seq<Mob>, n: nat): seq<RawEntry>
  {
    if n == 0 then [] else MobData(heap, mobBase, mobs, n - 1) + RowEntry(heap, mobBase, mobs, n - 1)
  }

  /** Every entry has eight counts and an id in `1..n`, and the ids strictly increase. */
  lemma {:induction false} MobDataShape(heap: seq<nat>, mobBase: Option<int>, mobs: seq<Mob>, n: nat)
    ensures forall k :: 0 <= k < |MobData(heap, mobBase, mobs, n)| ==>
              |MobData(heap, mobBase, mobs, n)[k].counts| == Layout.MobRarityCount &&
              1 <= MobData(heap, mobBase, mobs, n)[k].id <= n
    ensures forall k, l :: 0 <= k < l < |MobData(heap, mobBase, mobs, n)| ==>
              MobData(heap, mobBase, mobs, n)[k].id < MobData(heap, mobBase, mobs, n)[l].id
  {
    var data := MobData(heap, mobBase, mobs, n);
    if n > 0 {
      var prev, row := MobData(heap, mobBase, mobs, n - 1), RowEntry(heap, mobBase, mobs, n - 1);
      MobDataShape(heap, mobBase, mobs, n - 1);
      RowEntryShape(heap, mobBase, mobs, n - 1);
      assert data == prev + row;
      forall k | 0 <= k < |data|
        ensures |data[k].counts| == Layout.MobRarityCount && 1 <= data[k].id <= n
      {
        if k < |prev| {
          assert data[k] == prev[k];
        } else {
          assert data[k] == row[k - |prev|];
        }
      }
      forall k, l | 0 <= k < l < |data|
        ensures data[k].id < data[l].id
      {
        if l < |prev| {
          assert data[k] == prev[k] && data[l] == prev[l];
        } else {
          assert data[l] == row[l - |prev|];
          assert data[k] == prev[k];
        }
      }
    }
  }

  /** The entry row `i` contributes when a catalog mob has the id `i + 1`. */
  function EntryOfRow(heap: seq<nat>, mobBase: Option<int>, mobs: seq<Mob>, i: nat): RawEntry
    requires MobById(mobs, i + 1).Some?
  {
    RawEntry(i + 1, MobById(mobs, i + 1).value.sid, MobRow(heap, mobBase, i))
  }

  lemma {:induction false} MobDataEntryHasRow(heap: seq<nat>, mobBase: Option<int>, mobs: seq<Mob>, n: nat, e: RawEntry)
    requires e in MobData(heap, mobBase, mobs, n)
    ensures exists i :: 0 <= i < n && MobById(mobs, i + 1).Some? && e == EntryOfRow(heap, mobBase, mobs, i)
  {
    var m := n - 1;
    var prev, row := MobData(heap, mobBase, mobs, m), RowEntry(heap, mobBase, mobs, m);
    assert MobData(heap, mobBase, mobs, n) == prev + row;
    if e in prev {
      MobDataEntryHasRow(heap, mobBase, mobs, m, e);
      var i :| 0 <= i < m && MobById(mobs, i + 1).Some? && e == EntryOfRow(heap, mobBase, mobs, i);
      assert 0 <= i < n;
    } else {
      assert e in row;
      assert e == EntryOfRow(heap, mobBase, mobs, m);
    }
  }

  lemma {:induction false} MobDataRowHasEntry(heap: seq<nat>, mobBase: Option<int>, mobs: seq<Mob>, n: nat, i: nat)
    requires i < n && MobById(mobs, i + 1).Some?
    ensures EntryOfRow(heap, mobBase, mobs, i) in MobData(heap, mobBase, mobs, n)
  {
    var m := n - 1;
    var prev, row := MobData(heap, mobBase, mobs, m), RowEntry(heap, mobBase, mobs, m);
    assert MobData(heap, mobBase, mobs, n) == prev + row;
    if i < m {
      MobDataRowHasEntry(heap, mobBase, mobs, m, i);
    } else {
      assert EntryOfRow(heap, mobBase, mobs, i) in row;
    }
  }

  /** An entry is in the data exactly when its row has a catalog mob, and it then carries that
      mob's id and sid and the row's counts. */
  lemma MobDataMembers(heap: seq<nat>, mobBase: Option<int>, mobs: seq<Mob>, n: nat, e: RawEntry)
    ensures e in MobData(heap, mobBase, mobs, n) <==>
              exists i :: 0 <= i < n && MobById(mobs, i + 1).Some? &&
                          e == RawEntry(i + 1, MobById(mobs, i + 1).value.sid, MobRow(heap, mobBase, i))
  {
    if e in MobData(heap, mobBase, mobs, n) {
      MobDataEntryHasRow(heap, mobBase, mobs, n, e);
    }
    if exists i :: 0 <= i < n && MobById(mobs, i + 1).Some? &&
                   e == RawEntry(i + 1, MobById(mobs, i + 1).value.sid, MobRow(heap, mobBase, i)) {
      var i :| 0 <= i < n && MobById(mobs, i + 1).Some? &&
               e == RawEntry(i + 1, MobById(mobs, i + 1).value.sid, MobRow(heap, mobBase, i));
      MobDataRowHasEntry(heap, mobBase, mobs, n, i);
    }
  }

  /** With unique ids, every catalog mob whose id is in `1..n` has its entry. */
  lemma CatalogMobListed(heap: seq<nat>, mobBase: Option<int>, mobs: seq<Mob>, n: nat, j: nat)
    requires j < |mobs| && 1 <= mobs[j].id <= n
    requires forall a, b :: 0 <= a < b < |mobs| ==> mobs[a].id != mobs[b].id
    ensures RawEntry(mobs[j].id, mobs[j].sid, MobRow(heap, mobBase, mobs[j].id - 1)) in MobData(heap, mobBase, mobs, n)
  {
    MobByOwnId(mobs, j);
    MobDataMembers(heap, mobBase, mobs, n,
                   RawEntry(mobs[j].id, mobs[j].sid, MobRow(heap, mobBase, mobs[j].id - 1)));
  }

  /** The first inner loop of both mob scripts: the eight counts of row `i`. */
  method ReadMobRow(heap: seq<nat>, mobBase: Option<int>, i: nat) returns (counts: seq<nat>)
    ensures counts == MobRow(heap, mobBase, i)
  {
    counts := [];
    var r := 0;
    while r < Layout.MobRarityCount
      invariant 0 <= r <= Layout.MobRarityCount
      invariant counts == MobRow(heap, mobBase, i)[..r]
    {
      var count := match mobBase
        case None => 0
        case Some(b) => HeapRead(heap, b + i * Layout.MobRarityCount * 2 + r * 2);
      counts := counts + [count];
      r := r + 1;
    }
  }
}
