/** `TileBucket` (PS2MapTool/Tiles/TileBucket.cs): tiles grouped by their
    `World` and `Lod`, without filters. */
module TileBucket {
  import opened Grouping
  import TileInfo

  type Info<S> = TileInfo.Info<S>

  function WorldOf<S>(t: Info<S>): nat { t.world }
  function LodOf<S>(t: Info<S>): nat { t.lod }

  /** `AddLodTile(tile)`: appends under the tile's own keys and reports
      success; duplicates are kept. */
  function AddLodTile<S>(b: Bucket<nat, nat, Info<S>>, t: Info<S>): (r: (bool, Bucket<nat, nat, Info<S>>))
    ensures r.0
    ensures Tiles(r.1, t.world, t.lod) == Tiles(b, t.world, t.lod) + [t]
    ensures forall w, l | w != t.world || l != t.lod :: Tiles(r.1, w, l) == Tiles(b, w, l)
    ensures r.1.Keys == b.Keys + {t.world}
    ensures WellFormed(b, WorldOf, LodOf) ==> WellFormed(r.1, WorldOf, LodOf)
  {
    var r := Append(b, t.world, t.lod, t);
    AppendTiles(b, t.world, t.lod, t);
    assert WellFormed(b, WorldOf, LodOf) ==> WellFormed(r, WorldOf, LodOf) by {
      if WellFormed(b, WorldOf, LodOf) {
        AppendWellFormed(b, t, WorldOf, LodOf);
      }
    }
    (true, r)
  }

  /** A new bucket after `AddLodTile` on each tile in turn. */
  function AddAll<S>(ts: seq<Info<S>>): (b: Bucket<nat, nat, Info<S>>)
    ensures WellFormed(b, WorldOf, LodOf)
  {
    if |ts| == 0 then map[] else AddLodTile(AddAll(ts[..|ts| - 1]), ts[|ts| - 1]).1
  }

  /** Adding tiles one by one builds their grouping. */
  lemma {:induction false} AddAllGroups<S>(ts: seq<Info<S>>)
    ensures AddAll(ts) == Group(ts, WorldOf, LodOf)
  {
    if |ts| > 0 {
      AddAllGroups(ts[..|ts| - 1]);
    }
  }

  /** `GetWorlds()`: the worlds of the added tiles and no others. `GetTiles`
      fails for a world no tile has, then for a LOD no tile of that world
      has, and otherwise returns that world and LOD's tiles in the order
      they were added. */
  lemma AddAllContents<S>(ts: seq<Info<S>>, w: nat, l: nat)
    ensures w in AddAll(ts).Keys <==> HasWorld(ts, w, WorldOf)
    ensures GetTiles(AddAll(ts), w, l)
         == if !HasWorld(ts, w, WorldOf) then UnknownWorld
            else if Select(ts, w, l, WorldOf, LodOf) == [] then UnknownLod
            else Found(Select(ts, w, l, WorldOf, LodOf))
  {
    AddAllGroups(ts);
    GroupWorlds(ts, w, WorldOf, LodOf);
    GroupLookup(ts, w, l, WorldOf, LodOf);
  }
}
