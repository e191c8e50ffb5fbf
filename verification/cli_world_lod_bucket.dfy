/** `PS2MapTool.Cli.Models.WorldLodBucket`
    (PS2MapTool.Cli/Models/WorldLodBucket.cs): tiles of the enum-typed parser
    grouped by `World` and `Lod`; a null filter becomes every enum value. */
module CliWorldLodBucket {
  import opened Wrappers
  import opened Enums
  import opened Grouping
  import CliTile

  type Tile = CliTile.Tile

  datatype Bucket = Bucket(tiles: Grouping.Bucket<nat, nat, Tile>, worlds: seq<nat>, lods: seq<nat>)

  function WorldOf(t: Tile): nat { t.world }
  function LodOf(t: Tile): nat { t.lod }

  /** The constructor: `worlds ?? Enum.GetValues<World>()`, likewise for LODs. */
  function Create(worlds: Option<seq<nat>>, lods: Option<seq<nat>>, worldEnum: EnumType, lodEnum: EnumType): (b: Bucket)
    ensures b.tiles == map[]
    ensures worlds.None? ==> forall w: nat :: w in b.worlds <==> IsValue(worldEnum, w)
    ensures lods.None? ==> forall l: nat :: l in b.lods <==> IsValue(lodEnum, l)
    ensures worlds.Some? ==> b.worlds == worlds.value
    ensures lods.Some? ==> b.lods == lods.value
  {
    Bucket(map[], worlds.GetOr(AllValues(worldEnum)), lods.GetOr(AllValues(lodEnum)))
  }

  /** `AddLodTile(tile)`. */
  function AddLodTile(b: Bucket, t: Tile): (r: (bool, Bucket))
    ensures r.0 <==> t.world in b.worlds && t.lod in b.lods
    ensures !r.0 ==> r.1 == b
    ensures r.1.worlds == b.worlds && r.1.lods == b.lods
    ensures r.0 ==> Tiles(r.1.tiles, t.world, t.lod) == Tiles(b.tiles, t.world, t.lod) + [t]
    ensures forall w, l | w != t.world || l != t.lod :: Tiles(r.1.tiles, w, l) == Tiles(b.tiles, w, l)
  {
    if t.world !in b.worlds then (false, b)
    else if t.lod !in b.lods then (false, b)
    else (true, b.(tiles := Append(b.tiles, t.world, t.lod, t)))
  }

  /** The bucket after `AddLodTile` on each tile in turn. */
  function AddAll(b: Bucket, ts: seq<Tile>): (r: Bucket)
    ensures r.worlds == b.worlds && r.lods == b.lods
  {
    if |ts| == 0 then b else AddLodTile(AddAll(b, ts[..|ts| - 1]), ts[|ts| - 1]).1
  }

  /** The tiles whose world and LOD both appear in the include lists, in order. */
  function Admitted(ts: seq<Tile>, worlds: seq<nat>, lods: seq<nat>): (r: seq<Tile>)
    ensures forall i | 0 <= i < |r| :: r[i].world in worlds && r[i].lod in lods
  {
    if |ts| == 0 then []
    else
      var t := ts[|ts| - 1];
      Admitted(ts[..|ts| - 1], worlds, lods) + (if t.world in worlds && t.lod in lods then [t] else [])
  }

  /** Filling a new bucket groups exactly the tiles its include lists admit. */
  lemma {:induction false} AddAllGroupsAdmitted(worlds: Option<seq<nat>>, lods: Option<seq<nat>>,
                                                worldEnum: EnumType, lodEnum: EnumType, ts: seq<Tile>)
    ensures var b := Create(worlds, lods, worldEnum, lodEnum);
      AddAll(b, ts).tiles == Group(Admitted(ts, b.worlds, b.lods), WorldOf, LodOf)
  {
    var b := Create(worlds, lods, worldEnum, lodEnum);
    if |ts| > 0 {
      var init := ts[..|ts| - 1];
      var t := ts[|ts| - 1];
      AddAllGroupsAdmitted(worlds, lods, worldEnum, lodEnum, init);
      var a := Admitted(init, b.worlds, b.lods);
      var prev := AddAll(b, init);
      assert AddAll(b, ts) == AddLodTile(prev, t).1;
      if t.world in b.worlds && t.lod in b.lods {
        assert Admitted(ts, b.worlds, b.lods) == a + [t];
        assert (a + [t])[..|a|] == a;
        assert Group(a + [t], WorldOf, LodOf) == Append(Group(a, WorldOf, LodOf), t.world, t.lod, t);
        assert AddLodTile(prev, t).1.tiles == Append(prev.tiles, t.world, t.lod, t);
      } else {
        assert Admitted(ts, b.worlds, b.lods) == a;
        assert AddLodTile(prev, t).1 == prev;
      }
    }
  }

  /** A world/LOD pair outside the include lists gets no tiles; one inside
      them gets every tile of the input with that world and LOD. */
  lemma {:induction false} AdmittedSelect(ts: seq<Tile>, worlds: seq<nat>, lods: seq<nat>, w: nat, l: nat)
    ensures Select(Admitted(ts, worlds, lods), w, l, WorldOf, LodOf)
         == if w in worlds && l in lods then Select(ts, w, l, WorldOf, LodOf) else []
  {
    if |ts| > 0 {
      var init := ts[..|ts| - 1];
      var t := ts[|ts| - 1];
      AdmittedSelect(init, worlds, lods, w, l);
      var a := Admitted(init, worlds, lods);
      if t.world in worlds && t.lod in lods {
        assert Admitted(ts, worlds, lods) == a + [t];
        assert (a + [t])[..|a|] == a;
        assert Select(a + [t], w, l, WorldOf, LodOf)
            == Select(a, w, l, WorldOf, LodOf) + (if t.world == w && t.lod == l then [t] else []);
      } else {
        assert Admitted(ts, worlds, lods) == a;
      }
    }
  }

  /** `GetWorlds()` lists only worlds with an admitted tile, and `GetTiles`
      returns, for an included pair, every tile of that pair in order. */
  lemma FilledContents(worlds: Option<seq<nat>>, lods: Option<seq<nat>>, worldEnum: EnumType, lodEnum: EnumType,
                       ts: seq<Tile>, w: nat, l: nat)
    ensures var c := Create(worlds, lods, worldEnum, lodEnum);
      var b := AddAll(c, ts);
      && (w in b.tiles <==> HasWorld(Admitted(ts, c.worlds, c.lods), w, WorldOf))
      && GetTiles(b.tiles, w, l)
         == if !HasWorld(Admitted(ts, c.worlds, c.lods), w, WorldOf) then UnknownWorld
            else if !(w in c.worlds && l in c.lods) || Select(ts, w, l, WorldOf, LodOf) == [] then UnknownLod
            else Found(Select(ts, w, l, WorldOf, LodOf))
  {
    var c := Create(worlds, lods, worldEnum, lodEnum);
    var a := Admitted(ts, c.worlds, c.lods);
    AddAllGroupsAdmitted(worlds, lods, worldEnum, lodEnum, ts);
    GroupWorlds(a, w, WorldOf, LodOf);
    GroupLookup(a, w, l, WorldOf, LodOf);
    AdmittedSelect(ts, c.worlds, c.lods, w, l);
  }

  /** The include lists admit every tile whose world and LOD they list. */
  lemma {:induction false} AdmittedEvery(ts: seq<Tile>, worlds: seq<nat>, lods: seq<nat>)
    requires forall i :: 0 <= i < |ts| ==> ts[i].world in worlds && ts[i].lod in lods
    ensures Admitted(ts, worlds, lods) == ts
  {
    if |ts| > 0 {
      AdmittedEvery(ts[..|ts| - 1], worlds, lods);
      assert ts[..|ts| - 1] + [ts[|ts| - 1]] == ts;
    }
  }

  /** Without filters, a bucket filled with tiles of defined enum values, as
      `CliTile.TryParse` produces, groups all of them. */
  lemma UnfilteredGroupsAll(ts: seq<Tile>, worldEnum: EnumType, lodEnum: EnumType)
    requires forall i :: 0 <= i < |ts| ==> IsValue(worldEnum, ts[i].world) && IsValue(lodEnum, ts[i].lod)
    ensures AddAll(Create(None, None, worldEnum, lodEnum), ts).tiles == Group(ts, WorldOf, LodOf)
  {
    var b := Create(None, None, worldEnum, lodEnum);
    assert b.worlds == AllValues(worldEnum) && b.lods == AllValues(lodEnum);
    forall i | 0 <= i < |ts| ensures ts[i].world in b.worlds && ts[i].lod in b.lods {
      assert IsValue(worldEnum, ts[i].world) && IsValue(lodEnum, ts[i].lod);
    }
    AddAllGroupsAdmitted(None, None, worldEnum, lodEnum, ts);
    AdmittedEvery(ts, b.worlds, b.lods);
  }
}
