/** The game's petal and mob catalogs (`florrio.utils.getPetals()` / `getMobs()`) and the
    values the scripts derive from them: the rarity count, the rarity names, the id lookups
    and the highest mob id. */
module Catalog {
  import opened Wrappers

  /** `dropRarities` is the length of `allowedDropRarities` when that field is an array. */
  datatype Petal = Petal(id: int, sid: string, dropRarities: Option<nat>)

  datatype Mob = Mob(id: int, sid: string)

  const RarityNames: seq<string> :=
    ["Common", "Unusual", "Rare", "Epic", "Legendary", "Mythic", "Ultra", "Super", "Unique"]

  /** The mob scripts know eight rarities. */
  const MobRarityNames: seq<string> :=
    ["Common", "Unusual", "Rare", "Epic", "Legendary", "Mythic", "Ultra", "Super"]

  function Min(a: nat, b: nat): nat
  {
    if a < b then a else b
  }

  /** The index of the first petal whose `allowedDropRarities` is an array (`petals.find(...)`). */
  function FirstSample(petals: seq<Petal>): (r: Option<nat>)
    ensures r.None? <==> forall i :: 0 <= i < |petals| ==> petals[i].dropRarities.None?
    ensures r.Some? ==> IsFirstSample(petals, r.value)
    ensures forall i :: IsFirstSample(petals, i) ==> r == Some(i)
  {
    if petals == [] then None
    else if petals[0].dropRarities.Some? then Some(0)
    else
      match FirstSample(petals[1..])
      case None => None
      case Some(i) => Some(i + 1)
  }

  predicate IsFirstSample(petals: seq<Petal>, i: int)
  {
    0 <= i < |petals| && petals[i].dropRarities.Some? && forall j :: 0 <= j < i ==> petals[j].dropRarities.None?
  }

  /** Petal counter: 9 unless a sample petal exists, whose array length is then used as is. */
  function PetalRarityCount(petals: seq<Petal>): (rc: nat)
    ensures (forall i :: 0 <= i < |petals| ==> petals[i].dropRarities.None?) ==> rc == 9
    ensures forall i :: IsFirstSample(petals, i) ==> rc == petals[i].dropRarities.value
  {
    match FirstSample(petals)
    case None => 9
    case Some(i) => petals[i].dropRarities.value
  }

  /** Mob scripts: `find(...)?.allowedDropRarities.length || 9`, so a length of 0 also gives 9. */
  function MobScriptRarityCount(petals: seq<Petal>): (rc: nat)
    ensures rc > 0
    ensures (forall i :: 0 <= i < |petals| ==> petals[i].dropRarities.None?) ==> rc == 9
    ensures forall i :: IsFirstSample(petals, i) ==>
                          rc == (if petals[i].dropRarities.value == 0 then 9 else petals[i].dropRarities.value)
  {
    match FirstSample(petals)
    case None => 9
    case Some(i) => if petals[i].dropRarities.value == 0 then 9 else petals[i].dropRarities.value
  }

  /** `RarityNames.slice(0, rarityCount)`. */
  function PetalRarityNames(rarityCount: nat): (names: seq<string>)
    ensures |names| == Min(rarityCount, |RarityNames|)
    ensures forall k :: 0 <= k < |names| ==> names[k] == RarityNames[k]
  {
    RarityNames[..Min(rarityCount, |RarityNames|)]
  }

  /** The petal rarity names are distinct and none holds an underscore. */
  lemma PetalRarityNamesWellFormed(rarityCount: nat)
    ensures Distinct(PetalRarityNames(rarityCount)) && NoUnderscore(PetalRarityNames(rarityCount))
  {
    RarityNamesWellFormed();
  }

  predicate Distinct(names: seq<string>)
  {
    forall i, j :: 0 <= i < j < |names| ==> names[i] != names[j]
  }

  predicate NoUnderscore(names: seq<string>)
  {
    forall i :: 0 <= i < |names| ==> '_' !in names[i]
  }

  lemma RarityNamesWellFormed()
    ensures Distinct(RarityNames) && NoUnderscore(RarityNames)
    ensures Distinct(MobRarityNames) && NoUnderscore(MobRarityNames)
  {
  }

  /** `names.indexOf(x)`. */
  function IndexOf(names: seq<string>, x: string): (r: int)
    ensures -1 <= r < |names|
    ensures r == -1 <==> x !in names
    ensures r >= 0 ==> names[r] == x && forall j :: 0 <= j < r ==> names[j] != x
  {
    if names == [] then -1
    else if names[0] == x then 0
    else
      var r := IndexOf(names[1..], x);
      if r == -1 then -1 else r + 1
  }

  predicate LastPetalWithSid(petals: seq<Petal>, i: int, sid: string)
  {
    0 <= i < |petals| && petals[i].sid == sid && forall j :: i < j < |petals| ==> petals[j].sid != sid
  }

  predicate LastMobWithId(mobs: seq<Mob>, i: int, id: int)
  {
    0 <= i < |mobs| && mobs[i].id == id && forall j :: i < j < |mobs| ==> mobs[j].id != id
  }

  /** The last petal with the given sid. */
  function LastPetalIndex(petals: seq<Petal>, sid: string): (r: Option<nat>)
    ensures r.None? <==> forall i :: 0 <= i < |petals| ==> petals[i].sid != sid
    ensures r.Some? ==> LastPetalWithSid(petals, r.value, sid)
  {
    if petals == [] then None
    else if petals[|petals| - 1].sid == sid then Some(|petals| - 1)
    else LastPetalIndex(petals[..|petals| - 1], sid)
  }

  /** `Object.fromEntries(petals.map(p => [p.sid, p.id]))[sid]`: a later petal with the same
      sid overwrites an earlier one. */
  function PetalIdOf(petals: seq<Petal>, sid: string): Option<int>
  {
    match LastPetalIndex(petals, sid)
    case None => None
    case Some(i) => Some(petals[i].id)
  }

  /** The last mob with the given id. */
  function LastMobIndex(mobs: seq<Mob>, id: int): (r: Option<nat>)
    ensures r.None? <==> forall i :: 0 <= i < |mobs| ==> mobs[i].id != id
    ensures r.Some? ==> LastMobWithId(mobs, r.value, id)
  {
    if mobs == [] then None
    else if mobs[|mobs| - 1].id == id then Some(|mobs| - 1)
    else LastMobIndex(mobs[..|mobs| - 1], id)
  }

  /** `mobById[id]`, filled by `forEach`: a later mob with the same id overwrites. */
  function MobById(mobs: seq<Mob>, id: int): Option<Mob>
  {
    match LastMobIndex(mobs, id)
    case None => None
    case Some(i) => Some(mobs[i])
  }

  /** With unique ids, the lookup finds each catalog mob by its own id. */
  lemma MobByOwnId(mobs: seq<Mob>, i: nat)
    requires i < |mobs|
    requires forall a, b :: 0 <= a < b < |mobs| ==> mobs[a].id != mobs[b].id
    ensures MobById(mobs, mobs[i].id) == Some(mobs[i])
  {
  }

  /** `Math.max(...mobs.map(m => m.id))`; the `-Infinity` of an empty catalog is -1 here, which
      like `-Infinity` makes `i <= maxMobId` false for every row. */
  function MaxMobId(mobs: seq<Mob>): (m: int)
    ensures mobs == [] ==> m == -1
    ensures forall i :: 0 <= i < |mobs| ==> mobs[i].id <= m
    ensures mobs != [] ==> exists i :: 0 <= i < |mobs| && mobs[i].id == m
  {
    if mobs == [] then -1
    else if |mobs| == 1 then mobs[0].id
    else
      var n := |mobs| - 1;
      var m := MaxMobId(mobs[..n]);
      assert exists i :: 0 <= i < n && mobs[..n][i].id == m;
      if mobs[n].id > m then mobs[n].id else m
  }

  /** The rows `0..maxMobId` the loop `for (i = 0; i <= maxMobId; i++)` reads. */
  function RowsThrough(maxMobId: int): (n: nat)
    ensures n == 0 <==> maxMobId < 0
    ensures maxMobId >= 0 ==> n == maxMobId + 1
  {
    if maxMobId < 0 then 0 else maxMobId + 1
  }
}
