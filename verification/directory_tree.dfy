/** `RecursiveFileSearch`, the depth-first search for one file name that both
    directory data loaders (PS2MapTool/Services/DirectoryDataLoaderService.cs
    and PS2MapTool.Core/Services/DirectoryDataLoaderService.cs) carry a copy
    of. The file system is an abstract tree: a directory is its path, the
    names of the files directly inside it and its subdirectories in
    enumeration order. `Path.Combine` is the parameter `combine`.

    The cancellation token is checked once at the start of every call. A
    token never goes back to "not requested", so its history during one
    search is described by `live`: the number of checks that find it still
    clear. Every check after those finds it requested. */
module DirectoryTree {
  import opened Wrappers

  datatype Dir = Dir(path: string, files: set<string>, subdirs: seq<Dir>)

  /** The directories of a tree in the order the search visits them: a
      directory before its subdirectories, subtrees in enumeration order. */
  function Preorder(d: Dir): (r: seq<Dir>)
    ensures |r| >= 1 && r[0] == d
    decreases d, 1
  {
    [d] + PreorderAll(d.subdirs, 0)
  }

  /** The preorders of `ds[i..]`, one after another. */
  function PreorderAll(ds: seq<Dir>, i: nat): seq<Dir>
    requires i <= |ds|
    decreases ds, 0, |ds| - i
  {
    if i == |ds| then [] else Preorder(ds[i]) + PreorderAll(ds, i + 1)
  }

  /** The position of the first directory of `ps` that holds `fileName`. */
  function FirstHit(ps: seq<Dir>, fileName: string): (r: Option<nat>)
    ensures r.Some? ==> r.value < |ps| && fileName in ps[r.value].files
    ensures r.Some? ==> forall j :: 0 <= j < r.value ==> fileName !in ps[j].files
    ensures r.None? <==> forall j :: 0 <= j < |ps| ==> fileName !in ps[j].files
  {
    if |ps| == 0 then None
    else if fileName in ps[0].files then Some(0)
    else
      var r := FirstHit(ps[1..], fileName);
      assert forall j :: 1 <= j < |ps| ==> ps[j] == ps[1..][j - 1];
      if r.None? then None else Some(r.value + 1)
  }

  /** `RecursiveFileSearch(fileName, d.path, ct)` with `live` clear checks
      left: the path found, if any, and the clear checks that remain. */
  function Search(fileName: string, d: Dir, combine: (string, string) -> string, live: nat): (r: (Option<string>, nat))
    ensures r.1 <= live
    decreases d, 1
  {
    if live == 0 then (None, 0)
    else if fileName in d.files then (Some(combine(d.path, fileName)), live - 1)
    else SearchAll(fileName, d.subdirs, 0, combine, live - 1)
  }

  /** The `foreach` over the subdirectories `ds[i..]`: the first non-null
      result of the recursive calls. */
  function SearchAll(fileName: string, ds: seq<Dir>, i: nat, combine: (string, string) -> string, live: nat): (r: (Option<string>, nat))
    requires i <= |ds|
    ensures r.1 <= live
    decreases ds, 0, |ds| - i
  {
    if i == |ds| then (None, live)
    else
      var (found, left) := Search(fileName, ds[i], combine, live);
      if found.Some? then (found, left) else SearchAll(fileName, ds, i + 1, combine, left)
  }

  /** What the search promises, in terms of the visiting order: the path of
      the first directory holding the file, provided the token was still
      clear when that directory was checked; null otherwise. */
  function Expected(ps: seq<Dir>, fileName: string, combine: (string, string) -> string, live: nat): Option<string> {
    var h := FirstHit(ps, fileName);
    if h.Some? && h.value < live then Some(combine(ps[h.value].path, fileName)) else None
  }

  /** The clear checks left after visiting `ps` up to the first hit, or all
      of it. */
  function Left(ps: seq<Dir>, fileName: string, live: nat): nat {
    var h := FirstHit(ps, fileName);
    var used := if h.Some? then h.value + 1 else |ps|;
    if used <= live then live - used else 0
  }

  lemma {:induction false} FirstHitAppend(a: seq<Dir>, b: seq<Dir>, fileName: string)
    ensures FirstHit(a + b, fileName)
         == if FirstHit(a, fileName).Some? then FirstHit(a, fileName)
            else if FirstHit(b, fileName).Some? then Some(|a| + FirstHit(b, fileName).value)
            else None
  {
    if |a| == 0 {
      assert a + b == b;
    } else {
      assert (a + b)[0] == a[0] && (a + b)[1..] == a[1..] + b;
      if fileName !in a[0].files {
        FirstHitAppend(a[1..], b, fileName);
      }
    }
  }

  /** The recursive search agrees with the first hit in visiting order,
      however early the token is cancelled. */
  lemma {:induction false} SearchFindsFirst(fileName: string, d: Dir, combine: (string, string) -> string, live: nat)
    ensures Search(fileName, d, combine, live)
         == (Expected(Preorder(d), fileName, combine, live), Left(Preorder(d), fileName, live))
    decreases d, 1
  {
    var ps := Preorder(d);
    var rest := PreorderAll(d.subdirs, 0);
    assert ps == [d] + rest;
    FirstHitAppend([d], rest, fileName);
    if live > 0 && fileName !in d.files {
      SearchAllFindsFirst(fileName, d.subdirs, 0, combine, live - 1);
    }
  }

  lemma {:induction false} SearchAllFindsFirst(fileName: string, ds: seq<Dir>, i: nat, combine: (string, string) -> string, live: nat)
    requires i <= |ds|
    ensures SearchAll(fileName, ds, i, combine, live)
         == (Expected(PreorderAll(ds, i), fileName, combine, live), Left(PreorderAll(ds, i), fileName, live))
    decreases ds, 0, |ds| - i
  {
    if i < |ds| {
      var p := Preorder(ds[i]);
      var q := PreorderAll(ds, i + 1);
      SearchFindsFirst(fileName, ds[i], combine, live);
      FirstHitAppend(p, q, fileName);
      var (found, left) := Search(fileName, ds[i], combine, live);
      var pq := p + q;
      var hp := FirstHit(p, fileName);
      if found.None? {
        SearchAllFindsFirst(fileName, ds, i + 1, combine, left);
        var hq := FirstHit(q, fileName);
        if hp.None? {
          if hq.Some? {
            assert pq[|p| + hq.value] == q[hq.value];
          }
        }
      } else {
        assert pq[hp.value] == p[hp.value];
      }
    }
  }

  /** With a token that is never cancelled, null means that no directory of
      the tree holds the file, and a path is that of a directory holding it
      with none before it in visiting order. */
  lemma UncancelledSearch(fileName: string, d: Dir, combine: (string, string) -> string)
    ensures var ps := Preorder(d);
      var r := Search(fileName, d, combine, |ps|).0;
      && (r.None? <==> forall j :: 0 <= j < |ps| ==> fileName !in ps[j].files)
      && (r.Some? ==> exists k :: (0 <= k < |ps| && fileName in ps[k].files && r.value == combine(ps[k].path, fileName)
            && forall j :: 0 <= j < k ==> fileName !in ps[j].files))
  {
    SearchFindsFirst(fileName, d, combine, |Preorder(d)|);
  }
}
