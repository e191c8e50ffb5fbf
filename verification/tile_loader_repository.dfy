/** `TileLoaderServiceRepository` (PS2MapTool/Services/TileLoaderServiceRepository.cs):
    an ordered list of loaders, searched front to back for the first one that
    accepts a buffer. A loader's `CanLoad` test on the buffer in hand is the
    parameter `accepts`. */
module TileLoaderRepository {
  import opened Wrappers

  datatype Repository<L> = Repository(loaders: seq<L>)

  function Empty<L>(): (r: Repository<L>)
    ensures |GetAll(r)| == 0
  {
    Repository([])
  }

  /** `Add`: append, duplicates allowed. */
  function Add<L>(r: Repository<L>, loader: L): (r': Repository<L>)
    ensures GetAll(r') == GetAll(r) + [loader]
  {
    Repository(r.loaders + [loader])
  }

  /** `GetAll`: the loaders in the order they were added. */
  function GetAll<L>(r: Repository<L>): seq<L> {
    r.loaders
  }

  /** The position of the first loader that accepts, if any. */
  function FirstAccepting<L>(loaders: seq<L>, accepts: L -> bool, from: nat): (i: Option<nat>)
    requires from <= |loaders|
    ensures i.Some? <==> exists j :: from <= j < |loaders| && accepts(loaders[j])
    ensures i.Some? ==> from <= i.value < |loaders| && accepts(loaders[i.value])
    ensures i.Some? ==> forall j :: from <= j < i.value ==> !accepts(loaders[j])
    decreases |loaders| - from
  {
    if from == |loaders| then None
    else if accepts(loaders[from]) then Some(from)
    else FirstAccepting(loaders, accepts, from + 1)
  }

  /** `TryGet`: the earliest-added loader that accepts the buffer; `None`
      is the `false` return with a null loader. */
  function TryGet<L>(r: Repository<L>, accepts: L -> bool): (found: Option<L>)
    ensures found.Some? <==> exists j :: 0 <= j < |r.loaders| && accepts(r.loaders[j])
    ensures found.Some? ==> exists i :: (0 <= i < |r.loaders| && found.value == r.loaders[i] &&
      accepts(r.loaders[i]) && forall j :: 0 <= j < i ==> !accepts(r.loaders[j]))
  {
    match FirstAccepting(r.loaders, accepts, 0)
    case None => None
    case Some(i) => Some(r.loaders[i])
  }

  /** Registering another loader never hides one that already accepts: the
      answer only changes when no earlier loader accepted. */
  lemma AddKeepsEarlierMatch<L>(r: Repository<L>, loader: L, accepts: L -> bool)
    ensures TryGet(r, accepts).Some? ==> TryGet(Add(r, loader), accepts) == TryGet(r, accepts)
    ensures TryGet(r, accepts).None? ==>
      TryGet(Add(r, loader), accepts) == (if accepts(loader) then Some(loader) else None)
  {
    var ls := r.loaders + [loader];
    assert forall j :: 0 <= j < |r.loaders| ==> ls[j] == r.loaders[j];
    FirstAcceptingPrefix(r.loaders, [loader], accepts, 0);
  }

  lemma {:induction false} FirstAcceptingPrefix<L>(a: seq<L>, b: seq<L>, accepts: L -> bool, from: nat)
    requires from <= |a|
    ensures FirstAccepting(a, accepts, from).Some? ==>
      FirstAccepting(a + b, accepts, from) == FirstAccepting(a, accepts, from)
    ensures FirstAccepting(a, accepts, from).None? && |b| > 0 ==>
      FirstAccepting(a + b, accepts, from) == FirstAccepting(a + b, accepts, |a|)
    decreases |a| - from
  {
    if from < |a| {
      assert (a + b)[from] == a[from];
      FirstAcceptingPrefix(a, b, accepts, from + 1);
    }
  }
}
