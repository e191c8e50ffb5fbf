/** `PS2MapTool.Models.WorldLodBucket` (PS2MapTool/Models/WorldLodBucket.cs):
    tiles of the five-piece parser grouped by world and LOD string, with
    optional include-filters where `None` (a null list) admits everything. */
module WorldLodBucket {
  import opened Wrappers
  import opened Grouping
  import MapToolTile

  type Tile = MapToolTile.Tile

  datatype Bucket = Bucket(tiles: Grouping.Bucket<string, string, Tile>,
                           worlds: Option<seq<string>>, lods: Option<seq<string>>)

  function WorldOf(t: Tile): string { t.world }
  function LodOf(t: Tile): string { t.lod }

  /** The constructor: an empty bucket with the given filters. */
  function Create(worlds: Option<seq<string>>, lods: Option<seq<string>>): (b: Bucket)
    ensures b.tiles == map[] && b.worlds == worlds && b.lods == lods
  {
    Bucket(map[], worlds, lods)
  }

  /** `filter?.Contains(v) == false` fails only for a list lacking `v`. */
  predicate Admits(filter: Option<seq<string>>, v: string) {
    filter.None? || v in filter.value
  }

  /** `AddLodTile(tile)`. */
  function AddLodTile(b: Bucket, t: Tile): (r: (bool, Bucket))
    ensures r.0 <==> Admits(b.worlds, t.world) && Admits(b.lods, t.lod)
    ensures !r.0 ==> r.1 == b
    ensures r.1.worlds == b.worlds && r.1.lods == b.lods
    ensures r.0 ==> Tiles(r.1.tiles, t.world, t.lod) == Tiles(b.tiles, t.world, t.lod) + [t]
    ensures forall w, l | w != t.world || l != t.lod :: Tiles(r.1.tiles, w, l) == Tiles(b.tiles, w, l)
  {
    if !Admits(b.worlds, t.world) then (false, b)
    else if !Admits(b.lods, t.lod) then (false, b)
    else (true, b.(tiles := Append(b.tiles, t.world, t.lod, t)))
  }

  /** The bucket after `AddLodTile` on each tile in turn. */
  function AddAll(b: Bucket, ts: seq<Tile>): (r: Bucket)
    ensures r.worlds == b.worlds && r.lods == b.lods
  {
    if |ts| == 0 then b else AddLodTile(AddAll(b, ts[..|ts| - 1]), ts[|ts| - 1]).1
  }

  /** The tiles a filter admits, in order. */
  function Admitted(ts: seq<Tile>, worlds: Option<seq<string>>, lods: Option<seq<string>>): (r: seq<Tile>)
    ensures forall i | 0 <= i < |r| :: Admits(worlds, r[i].world) && Admits(lods, r[i].lod)
  {
    if |ts| == 0 then []
    else
      var t := ts[|ts| - 1];
      Admitted(ts[..|ts| - 1], worlds, lods) + (if Admits(worlds, t.world) && Admits(lods, t.lod) then [t] else [])
  }

  /** Filling a new bucket groups exactly the admitted tiles. */
  lemma {:induction false} AddAllGroupsAdmitted(worlds: Option<seq<string>>, lods: Option<seq<string>>, ts: seq<Tile>)
    ensures AddAll(Create(worlds, lods), ts).tiles == Group(Admitted(ts, worlds, lods), WorldOf, LodOf)
  {
    if |ts| > 0 {
      var init := ts[..|ts| - 1];
      var t := ts[|ts| - 1];
      AddAllGroupsAdmitted(worlds, lods, init);
      var a := Admitted(init, worlds, lods);
      var prev := AddAll(Create(worlds, lods), init);
      assert AddAll(Create(worlds, lods), ts) == AddLodTile(prev, t).1;
      if Admits(worlds, t.world) && Admits(lods, t.lod) {
        assert Admitted(ts, worlds, lods) == a + [t];
        assert (a + [t])[..|a|] == a;
        assert Group(a + [t], WorldOf, LodOf) == Append(Group(a, WorldOf, LodOf), t.world, t.lod, t);
        assert AddLodTile(prev, t).1.tiles == Append(prev.tiles, t.world, t.lod, t);
      } else {
        assert Admitted(ts, worlds, lods) == a;
        assert AddLodTile(prev, t).1 == prev;
      }
    }
  }

  /** A tile the filters refuse never reaches `GetTiles`; an admitted one
      does, under its own world and LOD. */
  lemma AdmittedSelect(ts: seq<Tile>, worlds: Option<seq<string>>, lods: Option<seq<string>>, w: string, l: string)
    ensures Select(Admitted(ts, worlds, lods), w, l, WorldOf, LodOf)
         == if Admits(worlds, w) && Admits(lods, l) then Select(ts, w, l, WorldOf, LodOf) else []
  {
    AdmittedSelectInduct(ts, worlds, lods, w, l);
  }

  lemma {:induction false} AdmittedSelectInduct(ts: seq<Tile>, worlds: Option<seq<string>>, lods: Option<seq<string>>, w: string, l: string)
    ensures Select(Admitted(ts, worlds, lods), w, l, WorldOf, LodOf)
         == if Admits(worlds, w) && Admits(lods, l) then Select(ts, w, l, WorldOf, LodOf) else []
  {
    if |ts| > 0 {
      var init := ts[..|ts| - 1];
      var t := ts[|ts| - 1];
      AdmittedSelectInduct(init, worlds, lods, w, l);
      var a := Admitted(init, worlds, lods);
      if Admits(worlds, t.world) && Admits(lods, t.lod) {
        assert Admitted(ts, worlds, lods) == a + [t];
        assert (a + [t])[..|a|] == a;
        assert Select(a + [t], w, l, WorldOf, LodOf)
            == Select(a, w, l, WorldOf, LodOf) + (if t.world == w && t.lod == l then [t] else []);
      } else {
        assert Admitted(ts, worlds, lods) == a;
      }
    }
  }

  /** `GetWorlds()` lists only worlds with an admitted tile, and `GetTiles`
      returns, for admitted keys, every tile with those keys in order. */
  lemma FilledContents(worlds: Option<seq<string>>, lods: Option<seq<string>>, ts: seq<Tile>, w: string, l: string)
    ensures var b := AddAll(Create(worlds, lods), ts);
      && (w in b.tiles <==> HasWorld(Admitted(ts, worlds, lods), w, WorldOf))
      && GetTiles(b.tiles, w, l)
         == if !HasWorld(Admitted(ts, worlds, lods), w, WorldOf) then UnknownWorld
            else if !(Admits(worlds, w) && Admits(lods, l)) || Select(ts, w, l, WorldOf, LodOf) == [] then UnknownLod
            else Found(Select(ts, w, l, WorldOf, LodOf))
  {
    var a := Admitted(ts, worlds, lods);
    AddAllGroupsAdmitted(worlds, lods, ts);
    GroupWorlds(a, w, WorldOf, LodOf);
    GroupLookup(a, w, l, WorldOf, LodOf);
    AdmittedSelect(ts, worlds, lods, w, l);
  }
}
