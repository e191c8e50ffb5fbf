/** The two-level dictionary `world -> lod -> list of tiles` that every
    bucket of the tool keeps: keys are created on demand and tiles are only
    ever appended. */
module Grouping {
  import opened Wrappers

  type Bucket<W, L, T> = map<W, map<L, seq<T>>>

  /** `bucket[w][l]` when both keys exist, else the empty list. */
  function Tiles<W(==,!new), L(==,!new), T>(b: Bucket<W, L, T>, w: W, l: L): seq<T> {
    if w in b && l in b[w] then b[w][l] else []
  }

  /** Create the world entry, then the LOD entry, if missing, and append `t`. */
  function Append<W(==,!new), L(==,!new), T>(b: Bucket<W, L, T>, w: W, l: L, t: T): Bucket<W, L, T> {
    var inner := if w in b then b[w] else map[];
    var list := if l in inner then inner[l] else [];
    b[w := inner[l := list + [t]]]
  }

  /** Appending adds the keys when missing, puts the tile at the end of its
      own list and changes no other list. */
  lemma AppendTiles<W(!new), L(!new), T>(b: Bucket<W, L, T>, w: W, l: L, t: T)
    ensures var r := Append(b, w, l, t);
      && r.Keys == b.Keys + {w}
      && r[w].Keys == (if w in b then b[w].Keys else {}) + {l}
      && Tiles(r, w, l) == Tiles(b, w, l) + [t]
      && (forall w', l' | w' != w || l' != l :: Tiles(r, w', l') == Tiles(b, w', l'))
      && (forall w' | w' in b && w' != w :: r[w'] == b[w'])
  {
  }

  /** Every world entry holds some LOD and every LOD entry some tile. */
  predicate NonEmpty<W(!new), L(!new), T>(b: Bucket<W, L, T>) {
    forall w | w in b :: |b[w]| > 0 && forall l | l in b[w] :: |b[w][l]| > 0
  }

  /** Every stored tile sits under its own world and LOD. */
  predicate Keyed<W(!new), L(!new), T>(b: Bucket<W, L, T>, worldOf: T -> W, lodOf: T -> L) {
    forall w, l | w in b && l in b[w] ::
      forall i | 0 <= i < |b[w][l]| :: worldOf(b[w][l][i]) == w && lodOf(b[w][l][i]) == l
  }

  predicate WellFormed<W(!new), L(!new), T>(b: Bucket<W, L, T>, worldOf: T -> W, lodOf: T -> L) {
    NonEmpty(b) && Keyed(b, worldOf, lodOf)
  }

  /** Appending a tile under its own keys keeps the bucket well formed. */
  lemma AppendWellFormed<W(!new), L(!new), T>(b: Bucket<W, L, T>, t: T, worldOf: T -> W, lodOf: T -> L)
    requires WellFormed(b, worldOf, lodOf)
    ensures WellFormed(Append(b, worldOf(t), lodOf(t), t), worldOf, lodOf)
  {
    var w := worldOf(t);
    var l := lodOf(t);
    var r := Append(b, w, l, t);
    assert NonEmpty(r) by {
      forall w' | w' in r ensures |r[w']| > 0 && forall l' | l' in r[w'] :: |r[w'][l']| > 0 {
        if w' == w {
          assert l in r[w];
          forall l' | l' in r[w] ensures |r[w][l']| > 0 {
            assert r[w][l'] == Tiles(r, w, l');
            if l' != l { assert Tiles(r, w, l') == Tiles(b, w, l'); }
          }
        }
      }
    }
    assert Keyed(r, worldOf, lodOf) by {
      forall w', l' | w' in r && l' in r[w'] ensures forall i | 0 <= i < |r[w'][l']| :: worldOf(r[w'][l'][i]) == w' && lodOf(r[w'][l'][i]) == l' {
        assert r[w'][l'] == Tiles(r, w', l');
        AppendKeyedAt(b, t, worldOf, lodOf, w', l');
      }
    }
  }

  /** After appending a tile under its own keys, the list under any pair of
      keys still holds only tiles with those keys. */
  lemma AppendKeyedAt<W(!new), L(!new), T>(b: Bucket<W, L, T>, t: T, worldOf: T -> W, lodOf: T -> L, w': W, l': L)
    requires Keyed(b, worldOf, lodOf)
    ensures var s := Tiles(Append(b, worldOf(t), lodOf(t), t), w', l');
      forall i | 0 <= i < |s| :: worldOf(s[i]) == w' && lodOf(s[i]) == l'
  {
    var before := Tiles(b, w', l');
    assert forall i | 0 <= i < |before| :: worldOf(before[i]) == w' && lodOf(before[i]) == l';
    if w' == worldOf(t) && l' == lodOf(t) {
      var s := before + [t];
      assert forall i | 0 <= i < |before| :: s[i] == before[i];
    }
  }

  /** The tiles of a sequence that belong under `w` and `l`, in order. */
  function Select<W(==,!new), L(==,!new), T>(ts: seq<T>, w: W, l: L, worldOf: T -> W, lodOf: T -> L): (r: seq<T>)
    ensures |r| <= |ts|
  {
    if |ts| == 0 then []
    else
      var last := ts[|ts| - 1];
      Select(ts[..|ts| - 1], w, l, worldOf, lodOf) + (if worldOf(last) == w && lodOf(last) == l then [last] else [])
  }

  /** Adding every tile of `ts`, first to last, to an empty bucket. */
  function Group<W(==,!new), L(==,!new), T>(ts: seq<T>, worldOf: T -> W, lodOf: T -> L): Bucket<W, L, T> {
    if |ts| == 0 then map[]
    else
      var t := ts[|ts| - 1];
      Append(Group(ts[..|ts| - 1], worldOf, lodOf), worldOf(t), lodOf(t), t)
  }

  /** A grouping has no empty entry and keeps every tile under its own keys. */
  lemma {:induction false} GroupWellFormed<W(!new), L(!new), T>(ts: seq<T>, worldOf: T -> W, lodOf: T -> L)
    ensures WellFormed(Group(ts, worldOf, lodOf), worldOf, lodOf)
  {
    if |ts| > 0 {
      GroupWellFormed(ts[..|ts| - 1], worldOf, lodOf);
      AppendWellFormed(Group(ts[..|ts| - 1], worldOf, lodOf), ts[|ts| - 1], worldOf, lodOf);
    }
  }

  /** Grouping one more tile appends it under its own keys. */
  lemma GroupSnoc<W(!new), L(!new), T>(ts: seq<T>, t: T, worldOf: T -> W, lodOf: T -> L)
    ensures Group(ts + [t], worldOf, lodOf) == Append(Group(ts, worldOf, lodOf), worldOf(t), lodOf(t), t)
  {
    assert (ts + [t])[..|ts|] == ts;
  }

  /** Grouping keeps, under each pair of keys, exactly the tiles with those
      keys, in input order. */
  lemma {:induction false} GroupSelects<W(!new), L(!new), T>(ts: seq<T>, w: W, l: L, worldOf: T -> W, lodOf: T -> L)
    ensures Tiles(Group(ts, worldOf, lodOf), w, l) == Select(ts, w, l, worldOf, lodOf)
  {
    if |ts| > 0 {
      GroupSelects(ts[..|ts| - 1], w, l, worldOf, lodOf);
    }
  }

  /** A world is a key exactly when some tile belongs to it. */
  lemma {:induction false} GroupWorlds<W(!new), L(!new), T>(ts: seq<T>, w: W, worldOf: T -> W, lodOf: T -> L)
    ensures w in Group(ts, worldOf, lodOf) <==> HasWorld(ts, w, worldOf)
  {
    if |ts| > 0 {
      var init := ts[..|ts| - 1];
      GroupWorlds(init, w, worldOf, lodOf);
      HasWorldLast(ts, w, worldOf);
    }
  }

  predicate HasWorld<W(==), T>(ts: seq<T>, w: W, worldOf: T -> W) {
    exists i :: 0 <= i < |ts| && worldOf(ts[i]) == w
  }

  lemma HasWorldLast<W, T>(ts: seq<T>, w: W, worldOf: T -> W)
    requires |ts| > 0
    ensures HasWorld(ts, w, worldOf) <==> HasWorld(ts[..|ts| - 1], w, worldOf) || worldOf(ts[|ts| - 1]) == w
  {
    var init := ts[..|ts| - 1];
    if HasWorld(ts, w, worldOf) {
      var i :| 0 <= i < |ts| && worldOf(ts[i]) == w;
      if i < |init| { assert init[i] == ts[i]; }
    }
    if HasWorld(init, w, worldOf) {
      var i :| 0 <= i < |init| && worldOf(init[i]) == w;
      assert ts[i] == init[i];
    }
  }

  /** A grouped tile is found in the list of its own keys, at its rank among
      the tiles sharing those keys. */
  lemma GroupContains<W(!new), L(!new), T>(ts: seq<T>, i: nat, worldOf: T -> W, lodOf: T -> L)
    requires i < |ts|
    ensures var t := ts[i]; ts[i] in Tiles(Group(ts, worldOf, lodOf), worldOf(t), lodOf(t))
  {
    GroupSelects(ts, worldOf(ts[i]), lodOf(ts[i]), worldOf, lodOf);
    SelectContains(ts, i, worldOf, lodOf);
  }

  lemma {:induction false} SelectContains<W(!new), L(!new), T>(ts: seq<T>, i: nat, worldOf: T -> W, lodOf: T -> L)
    requires i < |ts|
    ensures ts[i] in Select(ts, worldOf(ts[i]), lodOf(ts[i]), worldOf, lodOf)
  {
    if i < |ts| - 1 {
      assert ts[..|ts| - 1][i] == ts[i];
      SelectContains(ts[..|ts| - 1], i, worldOf, lodOf);
    }
  }

  /** The outcome of `GetTiles`. */
  datatype Lookup<T> = Found(tiles: seq<T>) | UnknownWorld | UnknownLod

  /** `GetTiles(w, l)`: `ArgumentException` for an unknown world, then for an
      unknown LOD of that world. */
  function GetTiles<W(==,!new), L(==,!new), T>(b: Bucket<W, L, T>, w: W, l: L): (r: Lookup<T>)
    ensures r.UnknownWorld? <==> w !in b
    ensures r.UnknownLod? <==> w in b && l !in b[w]
    ensures r.Found? ==> r.tiles == Tiles(b, w, l)
  {
    if w !in b then UnknownWorld
    else if l !in b[w] then UnknownLod
    else Found(b[w][l])
  }

  /** `GetLods(w)`: the dictionary indexer throws for an unknown world. */
  function GetLods<W(==,!new), L(==,!new), T>(b: Bucket<W, L, T>, w: W): (r: Option<set<L>>)
    ensures r.Some? <==> w in b
    ensures r.Some? ==> forall l :: l in r.value <==> GetTiles(b, w, l).Found?
  {
    if w in b then Some(b[w].Keys) else None
  }

  /** After grouping, `GetTiles` fails for a world no tile has, then for a
      LOD no tile of that world has, and otherwise returns the tiles with
      those keys in input order. */
  lemma GroupLookup<W(!new), L(!new), T>(ts: seq<T>, w: W, l: L, worldOf: T -> W, lodOf: T -> L)
    ensures GetTiles(Group(ts, worldOf, lodOf), w, l)
         == if !HasWorld(ts, w, worldOf) then UnknownWorld
            else if Select(ts, w, l, worldOf, lodOf) == [] then UnknownLod
            else Found(Select(ts, w, l, worldOf, lodOf))
  {
    var g := Group(ts, worldOf, lodOf);
    GroupSelects(ts, w, l, worldOf, lodOf);
    GroupWorlds(ts, w, worldOf, lodOf);
    if w in g && l in g[w] {
      assert |g[w][l]| > 0;
    }
  }

  /** The files that `parse` accepts, as tiles, in listing order. */
  function ParsedBy<T>(files: seq<string>, parse: string -> Option<T>): (r: seq<T>)
    ensures |r| <= |files|
  {
    if |files| == 0 then []
    else
      var p := parse(files[|files| - 1]);
      ParsedBy(files[..|files| - 1], parse) + (if p.Some? then [p.value] else [])
  }

  /** A tile is parsed exactly when some file of the listing parses to it. */
  lemma {:induction false} ParsedMembers<T>(files: seq<string>, parse: string -> Option<T>, t: T)
    ensures t in ParsedBy(files, parse) <==> exists i :: 0 <= i < |files| && parse(files[i]) == Some(t)
  {
    if |files| > 0 {
      var init := files[..|files| - 1];
      ParsedMembers(init, parse, t);
      assert forall i :: 0 <= i < |init| ==> init[i] == files[i];
      if parse(files[|files| - 1]) != Some(t) && exists i :: 0 <= i < |files| && parse(files[i]) == Some(t) {
        var i :| 0 <= i < |files| && parse(files[i]) == Some(t);
        assert i < |init|;
      }
    }
  }

  /** Every file yields an item when every file parses. */
  lemma {:induction false} ParsedEvery<T>(files: seq<string>, parse: string -> Option<T>)
    requires forall i :: 0 <= i < |files| ==> parse(files[i]).Some?
    ensures |ParsedBy(files, parse)| == |files|
  {
    if |files| > 0 {
      ParsedEvery(files[..|files| - 1], parse);
    }
  }

  /** Parsing one more file appends its item, if it has one. */
  lemma ParsedSnoc<T>(files: seq<string>, i: nat, parse: string -> Option<T>)
    requires i < |files|
    ensures ParsedBy(files[..i + 1], parse)
         == ParsedBy(files[..i], parse) + (if parse(files[i]).Some? then [parse(files[i]).value] else [])
  {
    assert files[..i + 1][..i] == files[..i];
  }
}
