/** `PackDataLoaderService` (PS2MapTool/Services/PackDataLoaderService.cs):
    pre-compute the name hash of every tile a world can have at one LOD,
    then keep the asset headers of the world's packs whose name hash is one
    of them. The pack reader and the CRC-64 name hash are not part of this
    model: a pack is its path and its list of header name hashes, and the
    hash is the parameter `hash`. */
module PackDataLoader {
  import opened Wrappers
  import opened Text
  import Layout

  /** `PackedTileInfo(NameHash, X, Y, lod)`. */
  datatype PackedTileInfo<H> = PackedTileInfo(nameHash: H, x: int, y: int, lod: nat)

  /** `Pack2TileDataSource` as `GetTilesAsync` builds it. */
  datatype PackTile<H> = PackTile(worldName: string, x: int, y: int, lod: nat, fileExtension: string,
                                  packPath: string, header: H)

  datatype Pack<H> = Pack(path: string, headers: seq<H>)

  function Pow2(n: nat): (r: nat)
    ensures r >= 1
  {
    if n == 0 then 1 else 2 * Pow2(n - 1)
  }

  /** `4 * (int)Math.Pow(2, lodNum)`: the grid step in world tiles. */
  function Step(lod: nat): (r: nat)
    ensures r >= 4
  {
    4 * Pow2(lod)
  }

  /** The loop `for (v = from; v < 64; v += step)`: the values it visits. */
  function Axis(from: int, step: nat): (r: seq<int>)
    requires step > 0
    ensures |r| > 0 <==> from < 64
    decreases 64 - from
  {
    if from >= 64 then [] else [from] + Axis(from + step, step)
  }

  /** The axis holds `from + i * step` for each `i` below its length, all
      below 64, and takes as many values as it needs to reach 64. */
  lemma {:induction false} AxisValues(from: int, step: nat)
    requires step > 0
    ensures var r := Axis(from, step);
      (forall i :: 0 <= i < |r| ==> r[i] == from + i * step && r[i] < 64) && from + |r| * step >= 64
    decreases 64 - from
  {
    if from < 64 {
      var rest := Axis(from + step, step);
      AxisValues(from + step, step);
      var r := Axis(from, step);
      forall i | 1 <= i < |r| ensures r[i] == from + i * step {
        Layout.MulSucc(i - 1, step);
      }
      Layout.MulSucc(|rest|, step);
    }
  }

  /** The loop runs `ceil((64 - from) / step)` times: one value short of
      that count would stay below 64. */
  lemma AxisLength(from: int, step: nat)
    requires step > 0
    ensures var n := |Axis(from, step)|;
      from + n * step >= 64 && (n > 0 ==> from + (n - 1) * step < 64)
  {
    AxisValues(from, step);
    var r := Axis(from, step);
    if |r| > 0 {
      assert r[|r| - 1] < 64;
    }
  }

  /** A value is on the axis from -64 exactly when it lies in [-64, 64) and
      is a whole number of steps from -64. */
  lemma AxisMembers(step: nat, v: int)
    requires step > 0
    ensures v in Axis(-64, step) <==> -64 <= v < 64 && (v + 64) % step == 0
  {
    var r := Axis(-64, step);
    AxisValues(-64, step);
    if v in r {
      var i :| 0 <= i < |r| && r[i] == v;
      assert v + 64 == i * step;
      ModOfMultiple(i, step);
    }
    if -64 <= v < 64 && (v + 64) % step == 0 {
      var i := (v + 64) / step;
      assert v + 64 == i * step;
      if i >= |r| {
        Layout.MulLe(|r|, i, step);
      }
      assert r[i] == v;
    }
  }

  lemma ModOfMultiple(i: nat, step: nat)
    requires step > 0
    ensures (i * step) % step == 0
  {
    var q, m := (i * step) / step, (i * step) % step;
    assert i * step == q * step + m;
    if q < i {
      Layout.MulLe(q + 1, i, step);
      Layout.MulSucc(q, step);
    } else if q > i {
      Layout.MulLe(i + 1, q, step);
      Layout.MulSucc(i, step);
    }
  }

  /** `v.ToString("D3")` for `v >= 0` and `v.ToString("D2")` for `v < 0`:
      at least three digits, or a minus and at least two digits. */
  function FormatCoordinate(v: int): (s: string)
    ensures v >= 0 ==> |s| >= 3 && AllDigits(s)
    ensures v < 0 ==> |s| >= 3 && s[0] == '-' && AllDigits(s[1..])
  {
    if v >= 0 then PadLeft(NatToString(v), 3, '0')
    else "-" + PadLeft(NatToString(-v), 2, '0')
  }

  /** Zero padding keeps a digit string's value. */
  lemma PadZerosValue(d: string, w: nat)
    requires AllDigits(d)
    ensures AllDigits(PadLeft(d, w, '0')) && DigitsValue(PadLeft(d, w, '0')) == DigitsValue(d)
  {
    var z := if |d| >= w then 0 else w - |d|;
    assert PadLeft(d, w, '0') == seq(z, _ => '0') + d;
    LeadingZerosValue(z, d);
  }

  /** The padded spelling reads back, as `int.TryParse` reads it, to the
      coordinate. */
  lemma FormatCoordinateParses(v: int)
    requires IsInt32(v)
    ensures ParseInt32(FormatCoordinate(v)) == Some(v)
  {
    if v >= 0 {
      NatToStringValue(v);
      PadZerosValue(NatToString(v), 3);
      var s := FormatCoordinate(v);
      assert IsDigit(s[0]);
    } else {
      NatToStringValue(-v);
      PadZerosValue(NatToString(-v), 2);
      var s := FormatCoordinate(v);
      assert s[1..] == PadLeft(NatToString(-v), 2, '0');
    }
  }

  /** `$"{worldName}_Tile_{xs}_{ys}_LOD{lodNum}.dds"`: X before Y. */
  function TileFileName(worldName: string, x: int, y: int, lod: nat): string {
    worldName + "_Tile_" + FormatCoordinate(x) + "_" + FormatCoordinate(y) + "_LOD" + NatToString(lod) + ".dds"
  }

  /** The entry for one coordinate pair: the hash of its printed file name. */
  function InfoOf<H>(worldName: string, lod: nat, hash: string -> H): (int, int) -> PackedTileInfo<H> {
    (x: int, y: int) => PackedTileInfo(hash(TileFileName(worldName, x, y, lod)), x, y, lod)
  }

  /** `f` at X and each Y of `ys` in turn. */
  function Row<T>(f: (int, int) -> T, x: int, ys: seq<int>): (r: seq<T>)
    ensures |r| == |ys|
  {
    if |ys| == 0 then [] else Row(f, x, ys[..|ys| - 1]) + [f(x, ys[|ys| - 1])]
  }

  /** `f` at every pair, X outer and Y inner. */
  function Grid<T>(f: (int, int) -> T, xs: seq<int>, ys: seq<int>): seq<T> {
    if |xs| == 0 then [] else Grid(f, xs[..|xs| - 1], ys) + Row(f, xs[|xs| - 1], ys)
  }

  /** The entries `PregenPackedTileInfo` pre-computes for a world and LOD. */
  function Names<H>(worldName: string, lod: nat, hash: string -> H): seq<PackedTileInfo<H>> {
    Grid(InfoOf(worldName, lod, hash), Axis(-64, Step(lod)), Axis(-64, Step(lod)))
  }

  lemma {:induction false} RowAt<T>(f: (int, int) -> T, x: int, ys: seq<int>, j: nat)
    requires j < |ys|
    ensures Row(f, x, ys)[j] == f(x, ys[j])
    decreases |ys|
  {
    if j < |ys| - 1 {
      RowAt(f, x, ys[..|ys| - 1], j);
    }
  }

  /** The grid has `|xs| * |ys|` entries. */
  lemma {:induction false} GridLength<T>(f: (int, int) -> T, xs: seq<int>, ys: seq<int>)
    ensures |Grid(f, xs, ys)| == |xs| * |ys|
    decreases |xs|
  {
    if |xs| > 0 {
      GridLength(f, xs[..|xs| - 1], ys);
      Layout.MulSucc(|xs| - 1, |ys|);
    }
  }

  /** Every entry is `f` at a pair drawn from the two axes. */
  lemma {:induction false} GridEntry<T>(f: (int, int) -> T, xs: seq<int>, ys: seq<int>, k: nat) returns (a: nat, b: nat)
    requires k < |Grid(f, xs, ys)|
    ensures a < |xs| && b < |ys| && Grid(f, xs, ys)[k] == f(xs[a], ys[b])
    decreases |xs|
  {
    var init := xs[..|xs| - 1];
    var g0 := Grid(f, init, ys);
    if k < |g0| {
      a, b := GridEntry(f, init, ys, k);
    } else {
      a, b := |xs| - 1, k - |g0|;
      RowAt(f, xs[a], ys, b);
    }
  }

  /** Every pair drawn from the two axes has its entry in the grid. */
  lemma {:induction false} GridCovers<T>(f: (int, int) -> T, xs: seq<int>, ys: seq<int>, x: int, y: int)
    requires x in xs && y in ys
    ensures f(x, y) in Grid(f, xs, ys)
    decreases |xs|
  {
    var init := xs[..|xs| - 1];
    if x in init {
      GridCovers(f, init, ys, x, y);
    } else {
      var row := Row(f, x, ys);
      var j :| 0 <= j < |ys| && ys[j] == y;
      RowAt(f, x, ys, j);
      assert row[j] in row;
    }
  }

  /** Past the point where the axis reads `from`, it goes on from the next step. */
  lemma AxisTail(axis: seq<int>, i: nat, from: int, step: nat)
    requires step > 0 && i <= |axis| && axis[i..] == Axis(from, step) && from < 64
    ensures i < |axis| && axis[i] == from && axis[i + 1..] == Axis(from + step, step)
  {
    assert axis[i + 1..] == axis[i..][1..];
  }

  lemma RowSnoc<T>(f: (int, int) -> T, x: int, ys: seq<int>, j: nat)
    requires j < |ys|
    ensures Row(f, x, ys[..j + 1]) == Row(f, x, ys[..j]) + [f(x, ys[j])]
  {
    assert ys[..j + 1][..j] == ys[..j];
  }

  lemma GridSnoc<T>(f: (int, int) -> T, xs: seq<int>, ys: seq<int>, i: nat)
    requires i < |xs|
    ensures Grid(f, xs[..i + 1], ys) == Grid(f, xs[..i], ys) + Row(f, xs[i], ys)
  {
    assert xs[..i + 1][..i] == xs[..i];
  }

  /** `PregenPackedTileInfo`: X in the outer loop, Y in the inner one, both
      from -64 up to 64 by the LOD's step. */
  method PregenPackedTileInfo<H>(worldName: string, lod: nat, hash: string -> H)
    returns (infos: seq<PackedTileInfo<H>>)
    ensures infos == Names(worldName, lod, hash)
  {
    var f := InfoOf(worldName, lod, hash);
    var step := Step(lod);
    var axis := Axis(-64, step);
    infos := [];
    var x: int := -64;
    var i := 0;
    while x < 64
      invariant 0 <= i <= |axis|
      invariant axis[i..] == Axis(x, step)
      invariant infos == Grid(f, axis[..i], axis)
    {
      AxisTail(axis, i, x, step);
      GridSnoc(f, axis, axis, i);
      var row := PregenRow(worldName, lod, hash, x, step);
      infos := infos + row;
      x := x + step;
      i := i + 1;
    }
    assert axis[..i] == axis;
  }

  /** The inner loop of `PregenPackedTileInfo`, for one X. */
  method PregenRow<H>(worldName: string, lod: nat, hash: string -> H, x: int, step: nat)
    returns (row: seq<PackedTileInfo<H>>)
    requires step > 0
    ensures row == Row(InfoOf(worldName, lod, hash), x, Axis(-64, step))
  {
    var f := InfoOf(worldName, lod, hash);
    var axis := Axis(-64, step);
    var y: int := -64;
    var j := 0;
    row := [];
    while y < 64
      invariant 0 <= j <= |axis|
      invariant axis[j..] == Axis(y, step)
      invariant row == Row(f, x, axis[..j])
    {
      AxisTail(axis, j, y, step);
      RowSnoc(f, x, axis, j);
      var xs := FormatCoordinate(x);
      var ys := FormatCoordinate(y);
      var name := worldName + "_Tile_" + xs + "_" + ys + "_LOD" + NatToString(lod) + ".dds";
      assert name == TileFileName(worldName, x, y, lod);
      var info := PackedTileInfo(hash(name), x, y, lod);
      assert info == f(x, y);
      row := row + [info];
      y := y + step;
      j := j + 1;
    }
    assert axis[..j] == axis;
  }

  /** `infos.FirstOrDefault(ti => ti.NameHash == h)`. */
  function FirstWithHash<H(==)>(infos: seq<PackedTileInfo<H>>, h: H): (r: Option<PackedTileInfo<H>>)
    ensures r.Some? <==> exists i :: 0 <= i < |infos| && infos[i].nameHash == h
    ensures r.Some? ==> exists i :: (0 <= i < |infos| && infos[i] == r.value && r.value.nameHash == h &&
      forall j :: 0 <= j < i ==> infos[j].nameHash != h)
  {
    if |infos| == 0 then None
    else if infos[0].nameHash == h then
      assert infos[0] == infos[0];
      Some(infos[0])
    else
      var r := FirstWithHash(infos[1..], h);
      assert r.Some? ==> exists i :: (0 <= i < |infos| && infos[i] == r.value && r.value.nameHash == h &&
        forall j :: 0 <= j < i ==> infos[j].nameHash != h) by {
        if r.Some? {
          var i :| 0 <= i < |infos[1..]| && infos[1..][i] == r.value && r.value.nameHash == h &&
            forall j :: 0 <= j < i ==> infos[1..][j].nameHash != h;
          assert infos[i + 1] == r.value;
        }
      }
      r
  }

  /** The tiles one pack contributes: a tile per header whose hash matches,
      in header order, carrying the requested world and the ".dds"
      extension. */
  function MatchHeaders<H(==)>(worldName: string, infos: seq<PackedTileInfo<H>>, pack: Pack<H>): (r: seq<PackTile<H>>)
    ensures |r| <= |pack.headers|
    decreases |pack.headers|
  {
    if |pack.headers| == 0 then []
    else
      var h := pack.headers[|pack.headers| - 1];
      var rest := MatchHeaders(worldName, infos, pack.(headers := pack.headers[..|pack.headers| - 1]));
      match FirstWithHash(infos, h)
      case None => rest
      case Some(info) => rest + [PackTile(worldName, info.x, info.y, info.lod, ".dds", pack.path, h)]
  }

  predicate HasHeader<H(==)>(tiles: seq<PackTile<H>>, h: H) {
    exists i :: 0 <= i < |tiles| && tiles[i].header == h
  }

  /** A pack contributes a tile for a header exactly when the header is in
      the pack and its hash is among the pre-computed ones. */
  lemma {:induction false} MatchHeadersMembers<H>(worldName: string, infos: seq<PackedTileInfo<H>>, pack: Pack<H>, h: H)
    ensures HasHeader(MatchHeaders(worldName, infos, pack), h) <==> (h in pack.headers && FirstWithHash(infos, h).Some?)
    decreases |pack.headers|
  {
    if |pack.headers| > 0 {
      var init := pack.(headers := pack.headers[..|pack.headers| - 1]);
      var last := pack.headers[|pack.headers| - 1];
      MatchHeadersMembers(worldName, infos, init, h);
      var rest := MatchHeaders(worldName, infos, init);
      var r := MatchHeaders(worldName, infos, pack);
      assert pack.headers == init.headers + [last];
      assert h in pack.headers <==> h in init.headers || h == last;
      match FirstWithHash(infos, last)
      case None =>
        assert r == rest;
      case Some(info) =>
        var extra := [PackTile(worldName, info.x, info.y, info.lod, ".dds", pack.path, last)];
        assert r == rest + extra;
        HasHeaderAppend(rest, extra, h);
        assert HasHeader(extra, h) <==> h == last by {
          assert extra[0].header == last;
        }
    }
  }

  lemma HasHeaderAppend<H>(a: seq<PackTile<H>>, b: seq<PackTile<H>>, h: H)
    ensures HasHeader(a + b, h) <==> HasHeader(a, h) || HasHeader(b, h)
  {
    if HasHeader(a + b, h) {
      var i :| 0 <= i < |a + b| && (a + b)[i].header == h;
      if i >= |a| {
        assert b[i - |a|].header == h;
      }
    }
    if HasHeader(a, h) {
      var i :| 0 <= i < |a| && a[i].header == h;
      assert (a + b)[i].header == h;
    }
    if HasHeader(b, h) {
      var i :| 0 <= i < |b| && b[i].header == h;
      assert (a + b)[|a| + i].header == h;
    }
  }

  /** Every tile a pack contributes names the pack, the world and ".dds" and
      copies the coordinates and LOD of the first entry with its hash. */
  lemma {:induction false} MatchHeadersShape<H>(worldName: string, infos: seq<PackedTileInfo<H>>, pack: Pack<H>, i: nat)
    requires i < |MatchHeaders(worldName, infos, pack)|
    ensures var t := MatchHeaders(worldName, infos, pack)[i];
      var info := FirstWithHash(infos, t.header);
      info.Some? && t == PackTile(worldName, info.value.x, info.value.y, info.value.lod, ".dds", pack.path, t.header)
    decreases |pack.headers|
  {
    var init := pack.(headers := pack.headers[..|pack.headers| - 1]);
    var rest := MatchHeaders(worldName, infos, init);
    if i < |rest| {
      MatchHeadersShape(worldName, infos, init, i);
    }
  }

  /** The tiles of a run of packs, pack after pack. */
  function Collect<H(==)>(worldName: string, infos: seq<PackedTileInfo<H>>, packs: seq<Pack<H>>): seq<PackTile<H>> {
    if |packs| == 0 then []
    else Collect(worldName, infos, packs[..|packs| - 1]) + MatchHeaders(worldName, infos, packs[|packs| - 1])
  }

  /** `GetTilesAsync`, with the cancellation check made before each pack;
      `None` is the `OperationCanceledException`. The packs are those the
      directory enumeration finds, in its order. */
  method GetTilesAsync<H(==)>(worldName: string, lod: nat, packs: seq<Pack<H>>, hash: string -> H,
                              canceled: nat -> bool) returns (r: Option<seq<PackTile<H>>>)
    ensures r.None? <==> exists p :: 0 <= p < |packs| && canceled(p)
    ensures r.Some? ==> r.value == Collect(worldName, Names(worldName, lod, hash), packs)
  {
    var infos := PregenPackedTileInfo(worldName, lod, hash);
    var tiles: seq<PackTile<H>> := [];
    var p := 0;
    while p < |packs|
      invariant 0 <= p <= |packs|
      invariant forall q :: 0 <= q < p ==> !canceled(q)
      invariant tiles == Collect(worldName, infos, packs[..p])
    {
      if canceled(p) {
        return None;
      }
      assert forall q :: 0 <= q < p + 1 ==> !canceled(q);
      assert packs[..p + 1][..p] == packs[..p];
      assert Collect(worldName, infos, packs[..p + 1]) == tiles + MatchHeaders(worldName, infos, packs[p]);
      tiles := tiles + MatchHeaders(worldName, infos, packs[p]);
      p := p + 1;
    }
    assert packs[..p] == packs;
    return Some(tiles);
  }

  /** Every tile the loader returns is a tile of the requested world and LOD
      at a grid position, and its header's hash is the hash of the file name
      printed from that position; conversely a header hashing to such a name
      yields a tile. */
  lemma LoadedTiles<H>(worldName: string, lod: nat, packs: seq<Pack<H>>, hash: string -> H, t: PackTile<H>)
    requires t in Collect(worldName, Names(worldName, lod, hash), packs)
    ensures t.worldName == worldName && t.lod == lod && t.fileExtension == ".dds"
    ensures t.x in Axis(-64, Step(lod)) && t.y in Axis(-64, Step(lod))
    ensures t.header == hash(TileFileName(worldName, t.x, t.y, lod))
    ensures exists p :: 0 <= p < |packs| && t.packPath == packs[p].path && t.header in packs[p].headers
  {
    var axis := Axis(-64, Step(lod));
    var f := InfoOf(worldName, lod, hash);
    var infos := Names(worldName, lod, hash);
    var p := CollectSource(worldName, infos, packs, t);
    var r := MatchHeaders(worldName, infos, packs[p]);
    var i :| 0 <= i < |r| && r[i] == t;
    MatchHeadersShape(worldName, infos, packs[p], i);
    MatchHeadersMembers(worldName, infos, packs[p], t.header);
    var info := FirstWithHash(infos, t.header).value;
    var k :| 0 <= k < |infos| && infos[k] == info && info.nameHash == t.header;
    var a, b := GridEntry(f, axis, axis, k);
  }

  /** The pack a collected tile came from. */
  lemma {:induction false} CollectSource<H>(worldName: string, infos: seq<PackedTileInfo<H>>, packs: seq<Pack<H>>, t: PackTile<H>)
    returns (p: nat)
    requires t in Collect(worldName, infos, packs)
    ensures p < |packs| && t in MatchHeaders(worldName, infos, packs[p])
    decreases |packs|
  {
    var init := packs[..|packs| - 1];
    if t in Collect(worldName, infos, init) {
      p := CollectSource(worldName, infos, init, t);
    } else {
      p := |packs| - 1;
    }
  }

  /** A header of one of the packs whose hash is the name hash of a grid
      position is loaded. */
  lemma LoadsEveryNamedHeader<H>(worldName: string, lod: nat, packs: seq<Pack<H>>, hash: string -> H, p: nat, x: int, y: int)
    requires p < |packs|
    requires x in Axis(-64, Step(lod)) && y in Axis(-64, Step(lod))
    requires hash(TileFileName(worldName, x, y, lod)) in packs[p].headers
    ensures exists t :: (t in Collect(worldName, Names(worldName, lod, hash), packs)
      && t.header == hash(TileFileName(worldName, x, y, lod)) && t.packPath == packs[p].path)
  {
    var axis := Axis(-64, Step(lod));
    var f := InfoOf(worldName, lod, hash);
    var infos := Names(worldName, lod, hash);
    var h := hash(TileFileName(worldName, x, y, lod));
    GridCovers(f, axis, axis, x, y);
    assert f(x, y).nameHash == h;
    MatchHeadersMembers(worldName, infos, packs[p], h);
    var r := MatchHeaders(worldName, infos, packs[p]);
    var i :| 0 <= i < |r| && r[i].header == h;
    MatchHeadersShape(worldName, infos, packs[p], i);
    CollectIncludes(worldName, infos, packs, p, r[i]);
  }

  lemma {:induction false} CollectIncludes<H>(worldName: string, infos: seq<PackedTileInfo<H>>, packs: seq<Pack<H>>, p: nat, t: PackTile<H>)
    requires p < |packs| && t in MatchHeaders(worldName, infos, packs[p])
    ensures t in Collect(worldName, infos, packs)
    decreases |packs|
  {
    if p < |packs| - 1 {
      CollectIncludes(worldName, infos, packs[..|packs| - 1], p, t);
    }
  }

  /** `GetAreasAsync`: the first header of the data pack whose hash is that
      of `worldName + "Areas.xml"`; `None` is the `FileNotFoundException`. */
  function GetAreasHeader<H(==)>(worldName: string, dataPack: Pack<H>, hash: string -> H): (r: Option<H>)
    ensures r.None? <==> hash(worldName + "Areas.xml") !in dataPack.headers
    ensures r.Some? ==> r.value == hash(worldName + "Areas.xml")
  {
    var h := hash(worldName + "Areas.xml");
    if h in dataPack.headers then Some(h) else None
  }
}
