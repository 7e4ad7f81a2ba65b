/** The snapshot engine shared by the petal and mob loggers: reading the `u32` heap, the
    per-row `raw` entries, and the per-rarity `summary` and `detail` built from them.

    An object keyed by rarity name (`summary`, `detail`) is a sequence indexed by the rarity's
    position in the list of rarity names; an object keyed by sid is a `map<string, nat>`. */
module Snapshot {

  /** `heap[idx] || 0` on a `Uint32Array`: an index outside the array reads `undefined`. */
  function HeapRead(heap: seq<nat>, idx: int): (r: nat)
    ensures 0 <= idx < |heap| ==> r == heap[idx]
    ensures !(0 <= idx < |heap|) ==> r == 0
  {
    if 0 <= idx < |heap| then heap[idx] else 0
  }

  /** `m[k] || 0` on an object of counts. */
  function Lookup(m: map<string, nat>, k: string): nat
  {
    if k in m then m[k] else 0
  }

  function Sum(s: seq<nat>): nat
  {
    if s == [] then 0 else Sum(s[..|s| - 1]) + s[|s| - 1]
  }

  /** One row of the table as the loggers keep it. */
  datatype RawEntry = RawEntry(id: int, sid: string, counts: seq<nat>)

  function CountAt(e: RawEntry, r: nat): nat
  {
    if r < |e.counts| then e.counts[r] else 0
  }

  /** The counts of one rarity, row by row. */
  function Column(raw: seq<RawEntry>, r: nat): (c: seq<nat>)
    ensures |c| == |raw| && forall k :: 0 <= k < |raw| ==> c[k] == CountAt(raw[k], r)
  {
    seq(|raw|, k requires 0 <= k < |raw| => CountAt(raw[k], r))
  }

  function RowTotal(e: RawEntry, rarities: nat): nat
  {
    Sum(seq(rarities, r requires 0 <= r < rarities => CountAt(e, r)))
  }

  /** `summary`: per rarity, the sum of that rarity's count over all rows. */
  function Summary(raw: seq<RawEntry>, rarities: nat): (s: seq<nat>)
    ensures |s| == rarities
  {
    seq(rarities, r requires 0 <= r < rarities => Sum(Column(raw, r)))
  }

  /** Every sid of the catalog starts at 0. */
  function Zeros(sids: seq<string>): (m: map<string, nat>)
    ensures m.Keys == set k | k in sids
    ensures forall k :: Lookup(m, k) == 0
  {
    map k | k in sids :: 0
  }

  /** Rows write `detail[rarity][sid]` in order, so a later row with the same sid wins. */
  function Fill(init: map<string, nat>, raw: seq<RawEntry>, r: nat): map<string, nat>
  {
    if raw == [] then init
    else Fill(init, raw[..|raw| - 1], r)[raw[|raw| - 1].sid := CountAt(raw[|raw| - 1], r)]
  }

  /** `detail`: per rarity, the count of every sid. */
  function Detail(sids: seq<string>, raw: seq<RawEntry>, rarities: nat): (d: seq<map<string, nat>>)
    ensures |d| == rarities
  {
    seq(rarities, r requires 0 <= r < rarities => Fill(Zeros(sids), raw, r))
  }

  /** `detail[r][sid] || 0` for every rarity `r`. */
  function Lookups(detail: seq<map<string, nat>>, sid: string): (s: seq<nat>)
    ensures |s| == |detail| && forall r :: 0 <= r < |detail| ==> s[r] == Lookup(detail[r], sid)
  {
    seq(|detail|, r requires 0 <= r < |detail| => Lookup(detail[r], sid))
  }

  /** The total of one sid across the rarities of `detail`. */
  function TotalOf(detail: seq<map<string, nat>>, sid: string): nat
  {
    Sum(Lookups(detail, sid))
  }

  /** The total of every row. */
  function RowTotals(raw: seq<RawEntry>, rarities: nat): (s: seq<nat>)
    ensures |s| == |raw| && forall k :: 0 <= k < |raw| ==> s[k] == RowTotal(raw[k], rarities)
  {
    seq(|raw|, k requires 0 <= k < |raw| => RowTotal(raw[k], rarities))
  }

  /** Row `k` is the last row with its sid. */
  predicate LastWithSid(raw: seq<RawEntry>, k: int)
  {
    0 <= k < |raw| && forall j :: k < j < |raw| ==> raw[j].sid != raw[k].sid
  }

  predicate DistinctSids(raw: seq<RawEntry>)
  {
    forall i, j :: 0 <= i < j < |raw| ==> raw[i].sid != raw[j].sid
  }

  lemma SumSnoc(s: seq<nat>, x: nat)
    ensures Sum(s + [x]) == Sum(s) + x
  {
    assert (s + [x])[..|s|] == s;
  }

  lemma {:induction false} SumPointwise(a: seq<nat>, b: seq<nat>, c: seq<nat>)
    requires |a| == |b| == |c|
    requires forall i :: 0 <= i < |c| ==> c[i] == a[i] + b[i]
    ensures Sum(c) == Sum(a) + Sum(b)
  {
    if c != [] {
      var n := |c| - 1;
      SumPointwise(a[..n], b[..n], c[..n]);
    }
  }

  lemma ColumnSnoc(raw: seq<RawEntry>, e: RawEntry, r: nat)
    ensures Column(raw + [e], r) == Column(raw, r) + [CountAt(e, r)]
  {
  }

  /** Adding a row adds its counts to the summary, rarity by rarity. */
  lemma SummarySnoc(raw: seq<RawEntry>, e: RawEntry, rarities: nat, r: nat)
    requires r < rarities
    ensures Summary(raw + [e], rarities)[r] == Summary(raw, rarities)[r] + CountAt(e, r)
  {
    ColumnSnoc(raw, e, r);
    SumSnoc(Column(raw, r), CountAt(e, r));
  }

  /** The value `detail` holds for a sid is the count of the last row with that sid. */
  lemma {:induction false} FillLast(init: map<string, nat>, raw: seq<RawEntry>, r: nat, k: nat)
    requires LastWithSid(raw, k)
    ensures Lookup(Fill(init, raw, r), raw[k].sid) == CountAt(raw[k], r)
  {
    var n := |raw| - 1;
    if k < n {
      assert raw[..n][k] == raw[k];
      FillLast(init, raw[..n], r, k);
    }
  }

  /** A sid no row carries keeps its initial value. */
  lemma {:induction false} FillOther(init: map<string, nat>, raw: seq<RawEntry>, r: nat, sid: string)
    requires forall k :: 0 <= k < |raw| ==> raw[k].sid != sid
    ensures Lookup(Fill(init, raw, r), sid) == Lookup(init, sid)
  {
    if raw != [] {
      FillOther(init, raw[..|raw| - 1], r, sid);
    }
  }

  /** `raw[k].counts[r] == detail[r][raw[k].sid]` for the last row with that sid. */
  lemma RawMatchesDetail(sids: seq<string>, raw: seq<RawEntry>, rarities: nat, k: nat, r: nat)
    requires LastWithSid(raw, k) && r < rarities
    ensures Lookup(Detail(sids, raw, rarities)[r], raw[k].sid) == CountAt(raw[k], r)
  {
    FillLast(Zeros(sids), raw, r, k);
  }

  /** With distinct sids, `summary[r]` is the sum of `detail[r][sid]` over the rows. */
  lemma SummaryMatchesDetail(sids: seq<string>, raw: seq<RawEntry>, rarities: nat, r: nat)
    requires DistinctSids(raw) && r < rarities
    ensures Summary(raw, rarities)[r]
         == Sum(seq(|raw|, k requires 0 <= k < |raw| => Lookup(Detail(sids, raw, rarities)[r], raw[k].sid)))
  {
    var d := Detail(sids, raw, rarities)[r];
    forall k | 0 <= k < |raw|
      ensures Lookup(d, raw[k].sid) == CountAt(raw[k], r)
    {
      FillLast(Zeros(sids), raw, r, k);
    }
    assert Column(raw, r) == seq(|raw|, k requires 0 <= k < |raw| => Lookup(d, raw[k].sid));
  }

  /** The total of a sid across the rarities is the row total of its last row. */
  lemma TotalOfLastRow(sids: seq<string>, raw: seq<RawEntry>, rarities: nat, k: nat)
    requires LastWithSid(raw, k)
    ensures TotalOf(Detail(sids, raw, rarities), raw[k].sid) == RowTotal(raw[k], rarities)
  {
    var d := Detail(sids, raw, rarities);
    forall r | 0 <= r < rarities
      ensures Lookup(d[r], raw[k].sid) == CountAt(raw[k], r)
    {
      FillLast(Zeros(sids), raw, r, k);
    }
    assert Lookups(d, raw[k].sid) == seq(rarities, r requires 0 <= r < rarities => CountAt(raw[k], r));
  }

  /** A sid no row carries totals 0. */
  lemma TotalOfAbsent(sids: seq<string>, raw: seq<RawEntry>, rarities: nat, sid: string)
    requires forall k :: 0 <= k < |raw| ==> raw[k].sid != sid
    ensures TotalOf(Detail(sids, raw, rarities), sid) == 0
  {
    var d := Detail(sids, raw, rarities);
    forall r | 0 <= r < rarities
      ensures Lookup(d[r], sid) == 0
    {
      FillOther(Zeros(sids), raw, r, sid);
    }
    ZeroSum(Lookups(d, sid));
  }

  lemma {:induction false} ZeroSum(s: seq<nat>)
    requires forall i :: 0 <= i < |s| ==> s[i] == 0
    ensures Sum(s) == 0
  {
    if s != [] {
      ZeroSum(s[..|s| - 1]);
    }
  }

  /** The grand total (the sum of `summary`) is the sum of every count of every row. */
  lemma {:induction false} GrandTotalIsRowTotals(raw: seq<RawEntry>, rarities: nat)
    ensures Sum(Summary(raw, rarities)) == Sum(RowTotals(raw, rarities))
  {
    var totals := RowTotals(raw, rarities);
    if raw == [] {
      ZeroSum(Summary(raw, rarities));
    } else {
      var init, e := raw[..|raw| - 1], raw[|raw| - 1];
      assert raw == init + [e];
      GrandTotalIsRowTotals(init, rarities);
      forall r | 0 <= r < rarities
        ensures Summary(raw, rarities)[r] == Summary(init, rarities)[r] + CountAt(e, r)
      {
        SummarySnoc(init, e, rarities, r);
      }
      SumPointwise(Summary(init, rarities), seq(rarities, r requires 0 <= r < rarities => CountAt(e, r)), Summary(raw, rarities));
      assert totals[..|raw| - 1] == RowTotals(init, rarities);
    }
  }

  /** `names.reduce((obj, name, idx) => { obj[name] = counts[idx]; return obj }, {})`: one key
      per name, carrying the count at the name's position. */
  function NamedCounts(names: seq<string>, counts: seq<nat>): (m: map<string, nat>)
    requires |names| <= |counts|
    ensures m.Keys == set k | k in names
    ensures (forall i, j :: 0 <= i < j < |names| ==> names[i] != names[j]) ==>
              forall k :: 0 <= k < |names| ==> m[names[k]] == counts[k]
  {
    if names == [] then map[]
    else
      var n := |names| - 1;
      assert forall k :: k in names <==> k in names[..n] || k == names[n];
      NamedCounts(names[..n], counts)[names[n] := counts[n]]
  }

  /** `summary` while row `e` is being added to it: the rarities below `r` include it. */
  function AddedUpTo(sum: seq<nat>, e: RawEntry, r: nat): (s: seq<nat>)
    ensures |s| == |sum|
  {
    seq(|sum|, k requires 0 <= k < |sum| => if k < r then sum[k] + CountAt(e, k) else sum[k])
  }

  /** `detail` while row `e` is being written into it: the rarities below `r` hold it. */
  function WrittenUpTo(det: seq<map<string, nat>>, e: RawEntry, r: nat): (d: seq<map<string, nat>>)
    ensures |d| == |det|
  {
    seq(|det|, k requires 0 <= k < |det| => if k < r then det[k][e.sid := CountAt(e, k)] else det[k])
  }

  lemma PartwayStart(sum: seq<nat>, det: seq<map<string, nat>>, e: RawEntry)
    ensures AddedUpTo(sum, e, 0) == sum && WrittenUpTo(det, e, 0) == det
  {
  }

  lemma PartwayStep(sum: seq<nat>, det: seq<map<string, nat>>, e: RawEntry, r: nat)
    requires r < |sum| && r < |det|
    ensures var s := AddedUpTo(sum, e, r);
            s[r := s[r] + CountAt(e, r)] == AddedUpTo(sum, e, r + 1)
    ensures var d := WrittenUpTo(det, e, r);
            var m: map<string, nat> := d[r][e.sid := CountAt(e, r)];
            d[r := m] == WrittenUpTo(det, e, r + 1)
  {
  }

  /** Reading count `r` of a row extends the prefix read so far by one. */
  lemma CountsPrefixStep(e: RawEntry, r: nat)
    requires r < |e.counts|
    ensures e.counts[..r] + [CountAt(e, r)] == e.counts[..r + 1]
  {
  }

  /** Once every rarity has been visited, `summary` and `detail` describe the rows plus `e`. */
  lemma PartwayDone(sids: seq<string>, raw: seq<RawEntry>, e: RawEntry, rarities: nat)
    ensures AddedUpTo(Summary(raw, rarities), e, rarities) == Summary(raw + [e], rarities)
    ensures WrittenUpTo(Detail(sids, raw, rarities), e, rarities) == Detail(sids, raw + [e], rarities)
  {
    forall k | 0 <= k < rarities
      ensures AddedUpTo(Summary(raw, rarities), e, rarities)[k] == Summary(raw + [e], rarities)[k]
    {
      SummarySnoc(raw, e, rarities, k);
    }
    assert (raw + [e])[..|raw|] == raw;
  }

  lemma LookupsSnoc(detail: seq<map<string, nat>>, sid: string, r: nat)
    requires r < |detail|
    ensures Sum(Lookups(detail[..r + 1], sid)) == Sum(Lookups(detail[..r], sid)) + Lookup(detail[r], sid)
  {
    assert Lookups(detail[..r + 1], sid) == Lookups(detail[..r], sid) + [Lookup(detail[r], sid)];
    SumSnoc(Lookups(detail[..r], sid), Lookup(detail[r], sid));
  }

  /** What the total of a sid is after a tick: 0 for a sid no row carries, the row total of the
      last row for a sid that some row carries. */
  lemma TotalOfDetail(sids: seq<string>, raw: seq<RawEntry>, rarities: nat, sid: string)
    ensures (forall k :: 0 <= k < |raw| ==> raw[k].sid != sid) ==> TotalOf(Detail(sids, raw, rarities), sid) == 0
    ensures forall k :: LastWithSid(raw, k) && raw[k].sid == sid ==>
              TotalOf(Detail(sids, raw, rarities), sid) == RowTotal(raw[k], rarities)
  {
    if forall k :: 0 <= k < |raw| ==> raw[k].sid != sid {
      TotalOfAbsent(sids, raw, rarities, sid);
    }
    forall k | LastWithSid(raw, k) && raw[k].sid == sid
      ensures TotalOf(Detail(sids, raw, rarities), sid) == RowTotal(raw[k], rarities)
    {
      TotalOfLastRow(sids, raw, rarities, k);
    }
  }

  /** Adds row `e` to `summary` and `detail`, rarity by rarity. */
  method AddRow(sum: seq<nat>, det: seq<map<string, nat>>, e: RawEntry, ghost sids: seq<string>,
                ghost raw: seq<RawEntry>) returns (sum': seq<nat>, det': seq<map<string, nat>>)
    requires |e.counts| >= |sum|
    requires sum == Summary(raw, |sum|) && det == Detail(sids, raw, |sum|)
    ensures sum' == Summary(raw + [e], |sum|) && det' == Detail(sids, raw + [e], |sum|)
  {
    PartwayStart(sum, det, e);
    sum', det' := sum, det;
    var r := 0;
    while r < |sum|
      invariant 0 <= r <= |sum|
      invariant sum' == AddedUpTo(sum, e, r)
      invariant det' == WrittenUpTo(det, e, r)
    {
      PartwayStep(sum, det, e, r);
      sum' := sum'[r := sum'[r] + e.counts[r]];
      det' := det'[r := det'[r][e.sid := e.counts[r]]];
      r := r + 1;
    }
    PartwayDone(sids, raw, e, |sum|);
  }
}
