/** The no-deploy zone scan that `AreasService.GetNoDeployAreasAsync`
    (PS2MapTool/Services/AreasService.cs) and its older copy
    `AreaService.GetNoDeployAreasAsync` (PS2MapTool/Areas/AreaService.cs)
    run over an areas file.

    The XML reader is replaced by the sequence of nodes it yields; an
    element is its name and its attributes. `float.TryParse` is the
    parameter `parseFloat`, whose results are opaque values of type `F`.

    `AreaDefinition` is a reference type: the scan appends the object held
    in its "last zone" register and then sets that object's `Info`, so one
    zone appended twice shows the `Info` of its later property in both
    places. The model names each zone object by the position of the element
    it was parsed from, records the appends as `Pick`s and resolves the
    final `Info` of each object at the end. */
module NoDeployAreas {
  import opened Wrappers
  import opened Text
  import Layout

  datatype Node = Element(name: string, attributes: map<string, string>) | OtherNode

  /** `NoDeployAreaInfo`; `requirement` is the `NoDeployType` value. */
  datatype Info = Info(requirement: int, facilityId: int)

  /** The `Info` a new `AreaDefinition` starts with. */
  const DefaultInfo: Info := Info(0, 0)

  datatype Zone<F> = Zone(x: F, z: F, radius: F, name: Option<string>)

  /** An `AreaDefinition` as the caller sees it once the scan has ended. */
  datatype Area<F> = Area(zone: Zone<F>, info: Info)

  /** `reader.GetAttribute(name)`: null when the attribute is absent. */
  function Attribute(n: Node, name: string): Option<string> {
    if n.Element? && name in n.attributes then Some(n.attributes[name]) else None
  }

  /** `TryParseNoDeployInfo`: `x1`, `z1` and `radius` must all be present
      and parse; the optional `name` is copied and decides nothing. */
  function TryParseNoDeployInfo<F>(n: Node, parseFloat: string -> Option<F>): (r: Option<Zone<F>>)
    ensures r.Some? <==> (
      && Attribute(n, "x1").Some? && parseFloat(Attribute(n, "x1").value).Some?
      && Attribute(n, "z1").Some? && parseFloat(Attribute(n, "z1").value).Some?
      && Attribute(n, "radius").Some? && parseFloat(Attribute(n, "radius").value).Some?)
    ensures r.Some? ==> r.value == Zone(parseFloat(Attribute(n, "x1").value).value,
                                        parseFloat(Attribute(n, "z1").value).value,
                                        parseFloat(Attribute(n, "radius").value).value,
                                        Attribute(n, "name"))
  {
    var xVal := Attribute(n, "x1");
    var yVal := Attribute(n, "z1");
    var radVal := Attribute(n, "radius");
    if xVal.None? || yVal.None? || radVal.None? then None
    else
      var x := parseFloat(xVal.value);
      if x.None? then None
      else
        var y := parseFloat(yVal.value);
        if y.None? then None
        else
          var radius := parseFloat(radVal.value);
          if radius.None? then None
          else Some(Zone(x.value, y.value, radius.value, Attribute(n, "name")))
  }

  /** `int.TryParse` of an attribute; a missing attribute does not parse. */
  function ParseAttribute(n: Node, name: string): Option<int> {
    var v := Attribute(n, name);
    if v.None? then None else ParseInt32(v.value)
  }

  /** `TryParseNdzPropertyInfo`: `Requirement` and `FacilityId` must both
      parse as 32-bit integers. */
  function TryParseNdzPropertyInfo(n: Node): (r: Option<Info>)
    ensures r.Some? <==> ParseAttribute(n, "Requirement").Some? && ParseAttribute(n, "FacilityId").Some?
    ensures r.Some? ==> r.value == Info(ParseAttribute(n, "Requirement").value, ParseAttribute(n, "FacilityId").value)
    ensures r.Some? ==> IsInt32(r.value.requirement) && IsInt32(r.value.facilityId)
  {
    var req := ParseAttribute(n, "Requirement");
    if req.None? then None
    else
      var fac := ParseAttribute(n, "FacilityId");
      if fac.None? then None else Some(Info(req.value, fac.value))
  }

  predicate IsElement(n: Node, name: string) {
    n.Element? && n.name == name
  }

  /** The "last zone" register after the first `n` nodes: the position of
      the latest `AreaDefinition` element, or null when there is none or it
      did not parse. */
  function LastZone<F>(nodes: seq<Node>, parseFloat: string -> Option<F>, n: nat): (r: Option<nat>)
    requires n <= |nodes|
    ensures r.Some? ==> (
      && r.value < n && IsElement(nodes[r.value], "AreaDefinition")
      && TryParseNoDeployInfo(nodes[r.value], parseFloat).Some?
      && forall j :: r.value < j < n ==> !IsElement(nodes[j], "AreaDefinition"))
  {
    if n == 0 then None
    else if IsElement(nodes[n - 1], "AreaDefinition") then
      if TryParseNoDeployInfo(nodes[n - 1], parseFloat).Some? then Some(n - 1) else None
    else LastZone(nodes, parseFloat, n - 1)
  }

  /** Whether the node at `i` is a property that appends the last zone, and
      with which `Info`. */
  function Selects<F>(nodes: seq<Node>, parseFloat: string -> Option<F>, kind: int, i: nat): (r: Option<Info>)
    requires i < |nodes|
    ensures r.Some? <==> (
      && IsElement(nodes[i], "Property")
      && Attribute(nodes[i], "type") == Some("SundererNoDeploy")
      && LastZone(nodes, parseFloat, i).Some?
      && TryParseNdzPropertyInfo(nodes[i]).Some?
      && TryParseNdzPropertyInfo(nodes[i]).value.requirement == kind)
    ensures r.Some? ==> r == TryParseNdzPropertyInfo(nodes[i])
  {
    var n := nodes[i];
    if IsElement(n, "Property") && Attribute(n, "type") == Some("SundererNoDeploy")
       && LastZone(nodes, parseFloat, i).Some?
    then
      var info := TryParseNdzPropertyInfo(n);
      if info.Some? && info.value.requirement == kind then info else None
    else None
  }

  /** One append: the zone object (by position) and the `Info` set on it. */
  datatype Pick = Pick(zone: nat, info: Info)

  /** The appends made while reading the first `n` nodes, in document order. */
  function Picks<F>(nodes: seq<Node>, parseFloat: string -> Option<F>, kind: int, n: nat): (r: seq<Pick>)
    requires n <= |nodes|
    ensures forall k :: 0 <= k < |r| ==> r[k].zone < n
  {
    if n == 0 then []
    else
      var s := Selects(nodes, parseFloat, kind, n - 1);
      Picks(nodes, parseFloat, kind, n - 1)
        + (if s.Some? then [Pick(LastZone(nodes, parseFloat, n - 1).value, s.value)] else [])
  }

  /** The `Info` a zone object ends up with: the one set by its last append. */
  function FinalInfo(picks: seq<Pick>, zone: nat): Info {
    if |picks| == 0 then DefaultInfo
    else if picks[|picks| - 1].zone == zone then picks[|picks| - 1].info
    else FinalInfo(picks[..|picks| - 1], zone)
  }

  /** The zone objects appended at least once. */
  function Zones(picks: seq<Pick>): (r: set<nat>)
    ensures forall k :: 0 <= k < |picks| ==> picks[k].zone in r
  {
    if |picks| == 0 then {} else Zones(picks[..|picks| - 1]) + {picks[|picks| - 1].zone}
  }

  /** The zone parsed from the `AreaDefinition` element at `i`. */
  function ZoneAt<F>(nodes: seq<Node>, parseFloat: string -> Option<F>, i: nat): Zone<F>
    requires i < |nodes| && TryParseNoDeployInfo(nodes[i], parseFloat).Some?
  {
    TryParseNoDeployInfo(nodes[i], parseFloat).value
  }

  /** The list the scan returns, as the caller sees it afterwards. */
  function Resolve<F>(nodes: seq<Node>, parseFloat: string -> Option<F>, kind: int): (r: seq<Area<F>>)
    ensures |r| == |Picks(nodes, parseFloat, kind, |nodes|)|
  {
    var picks := Picks(nodes, parseFloat, kind, |nodes|);
    seq(|picks|, k requires 0 <= k < |picks| =>
      PickedZoneParses(nodes, parseFloat, kind, |nodes|, k);
      Area(ZoneAt(nodes, parseFloat, picks[k].zone), FinalInfo(picks, picks[k].zone)))
  }

  /** Every picked position is a parsed `AreaDefinition`. */
  lemma {:induction false} PickedZoneParses<F>(nodes: seq<Node>, parseFloat: string -> Option<F>, kind: int, n: nat, k: nat)
    requires n <= |nodes| && k < |Picks(nodes, parseFloat, kind, n)|
    ensures var z := Picks(nodes, parseFloat, kind, n)[k].zone;
      z < |nodes| && IsElement(nodes[z], "AreaDefinition") && TryParseNoDeployInfo(nodes[z], parseFloat).Some?
  {
    if k < |Picks(nodes, parseFloat, kind, n - 1)| {
      PickedZoneParses(nodes, parseFloat, kind, n - 1, k);
    }
  }

  /** The append the node at `i` makes, if any. */
  function PickAt<F>(nodes: seq<Node>, parseFloat: string -> Option<F>, kind: int, i: nat): Option<Pick>
    requires i < |nodes|
  {
    var s := Selects(nodes, parseFloat, kind, i);
    if s.Some? then Some(Pick(LastZone(nodes, parseFloat, i).value, s.value)) else None
  }

  /** Some property before position `n` selects `p`. */
  predicate PickedBefore<F>(nodes: seq<Node>, parseFloat: string -> Option<F>, kind: int, n: nat, p: Pick)
    requires n <= |nodes|
  {
    exists i :: 0 <= i < n && PickAt(nodes, parseFloat, kind, i) == Some(p)
  }

  /** A pick exists exactly for each selecting property, and names the zone
      the register held there. */
  lemma {:induction false} PicksMembers<F>(nodes: seq<Node>, parseFloat: string -> Option<F>, kind: int, n: nat, p: Pick)
    requires n <= |nodes|
    ensures p in Picks(nodes, parseFloat, kind, n) <==> PickedBefore(nodes, parseFloat, kind, n, p)
  {
    if n > 0 {
      PicksMembers(nodes, parseFloat, kind, n - 1, p);
      var prev := Picks(nodes, parseFloat, kind, n - 1);
      var last := PickAt(nodes, parseFloat, kind, n - 1);
      assert Picks(nodes, parseFloat, kind, n) == prev + (if last.Some? then [last.value] else []);
      InSnoc(prev, last, p);
      PickedBeforeStep(nodes, parseFloat, kind, n, p);
    }
  }

  /** Widening the range by one position adds exactly that position's pick. */
  lemma PickedBeforeStep<F>(nodes: seq<Node>, parseFloat: string -> Option<F>, kind: int, n: nat, p: Pick)
    requires 0 < n <= |nodes|
    ensures PickedBefore(nodes, parseFloat, kind, n, p)
        <==> PickedBefore(nodes, parseFloat, kind, n - 1, p) || PickAt(nodes, parseFloat, kind, n - 1) == Some(p)
  {
    if PickedBefore(nodes, parseFloat, kind, n, p) {
      var i :| 0 <= i < n && PickAt(nodes, parseFloat, kind, i) == Some(p);
      assert i < n - 1 || PickAt(nodes, parseFloat, kind, n - 1) == Some(p);
    }
  }

  /** Membership in a sequence extended by an optional element. */
  lemma InSnoc<T>(prev: seq<T>, last: Option<T>, p: T)
    ensures p in prev + (if last.Some? then [last.value] else []) <==> p in prev || last == Some(p)
  {
  }

  /** Two entries for the same zone object are the same `AreaDefinition`,
      carrying the `Info` of that zone's last append. */
  lemma SharedZoneEntries<F>(nodes: seq<Node>, parseFloat: string -> Option<F>, kind: int, a: nat, b: nat)
    requires a < b < |Resolve(nodes, parseFloat, kind)|
    requires Picks(nodes, parseFloat, kind, |nodes|)[a].zone == Picks(nodes, parseFloat, kind, |nodes|)[b].zone
    ensures Resolve(nodes, parseFloat, kind)[a] == Resolve(nodes, parseFloat, kind)[b]
  {
  }

  /** The `Info` a zone ends with is that of its last append. */
  lemma {:induction false} FinalInfoIsLast(picks: seq<Pick>, zone: nat, k: nat)
    requires k < |picks| && picks[k].zone == zone
    requires forall j :: k < j < |picks| ==> picks[j].zone != zone
    ensures FinalInfo(picks, zone) == picks[k].info
  {
    if k < |picks| - 1 {
      FinalInfoIsLast(picks[..|picks| - 1], zone, k);
    }
  }

  /** The scan's list of zones and its zone objects' `Info` fields agree
      with the appends made so far. */
  predicate Tracks(areas: seq<nat>, infos: map<nat, Info>, picks: seq<Pick>) {
    && |areas| == |picks| && (forall k :: 0 <= k < |picks| ==> areas[k] == picks[k].zone)
    && infos.Keys == Zones(picks)
    && (forall z :: z in infos ==> infos[z] == FinalInfo(picks, z))
  }

  /** One more append keeps the list and the `Info` fields in step. */
  lemma TracksStep(areas: seq<nat>, infos: map<nat, Info>, picks: seq<Pick>, p: Pick)
    requires Tracks(areas, infos, picks)
    ensures Tracks(areas + [p.zone], infos[p.zone := p.info], picks + [p])
  {
    var picks' := picks + [p];
    assert picks'[..|picks|] == picks;
  }

  /** What reading the node at `i` does to the zone register and the appends. */
  lemma ScanStep<F>(nodes: seq<Node>, parseFloat: string -> Option<F>, kind: int, i: nat)
    requires i < |nodes|
    ensures LastZone(nodes, parseFloat, i + 1)
         == if IsElement(nodes[i], "AreaDefinition") then
              if TryParseNoDeployInfo(nodes[i], parseFloat).Some? then Some(i) else None
            else LastZone(nodes, parseFloat, i)
    ensures Picks(nodes, parseFloat, kind, i + 1)
         == Picks(nodes, parseFloat, kind, i) + (if Selects(nodes, parseFloat, kind, i).Some?
              then [Pick(LastZone(nodes, parseFloat, i).value, Selects(nodes, parseFloat, kind, i).value)] else [])
  {
  }

  datatype Scan<F> = ScanCanceled | Scanned(areas: seq<Area<F>>)

  /** The `while (reader.Read())` loop, with the token checked on every node
      (`canceled(i)` before node `i`) and `TaskCanceledException` as
      `ScanCanceled`. `infos` plays the `Info` fields of the zone objects. */
  method ScanAreas<F>(nodes: seq<Node>, parseFloat: string -> Option<F>, kind: int, canceled: nat -> bool)
    returns (r: Scan<F>)
    ensures r.ScanCanceled? <==> exists i :: 0 <= i < |nodes| && canceled(i)
    ensures r.Scanned? ==> r.areas == Resolve(nodes, parseFloat, kind)
  {
    var lastZone: Option<nat> := None;
    var areas: seq<nat> := [];
    var infos: map<nat, Info> := map[];
    ghost var picks: seq<Pick> := [];
    var i := 0;
    while i < |nodes|
      invariant 0 <= i <= |nodes|
      invariant forall j :: 0 <= j < i ==> !canceled(j)
      invariant lastZone == LastZone(nodes, parseFloat, i)
      invariant picks == Picks(nodes, parseFloat, kind, i)
      invariant Tracks(areas, infos, picks)
    {
      if canceled(i) {
        return ScanCanceled;
      }
      assert forall j :: 0 <= j < i + 1 ==> !canceled(j);
      ScanStep(nodes, parseFloat, kind, i);
      var n := nodes[i];
      if IsElement(n, "AreaDefinition") {
        lastZone := if TryParseNoDeployInfo(n, parseFloat).Some? then Some(i) else None;
      } else if IsElement(n, "Property") && Attribute(n, "type") == Some("SundererNoDeploy") && lastZone.Some? {
        var info := TryParseNdzPropertyInfo(n);
        if info.Some? && info.value.requirement == kind {
          var p := Pick(lastZone.value, info.value);
          var picks' := picks + [p];
          TracksStep(areas, infos, picks, p);
          infos := infos[lastZone.value := info.value];
          areas := areas + [lastZone.value];
          picks := picks';
        }
      }
      i := i + 1;
    }
    assert picks == Picks(nodes, parseFloat, kind, |nodes|);
    var result := seq(|areas|, k requires 0 <= k < |areas| =>
      PickedZoneParses(nodes, parseFloat, kind, |nodes|, k);
      Area(ZoneAt(nodes, parseFloat, areas[k]), infos[areas[k]]));
    return Scanned(result);
  }

  /** The overlay is `IMAGE_PIXEL_SIZE` pixels across at LOD 0. */
  const ImagePixelSize: nat := 8192

  /** `GetLodScalar(lod)`: `(int)lod + 1`. */
  function LodScalar(lod: nat): (r: nat)
    ensures r >= 1
  {
    lod + 1
  }

  /** The side of the overlay image: `8192 / (lod + 1)` in integer
      division, the largest side that `lod + 1` copies fit in 8192. */
  function ImageSide(lod: nat): (r: nat)
    ensures r * LodScalar(lod) <= ImagePixelSize < (r + 1) * LodScalar(lod)
  {
    ImagePixelSize / LodScalar(lod)
  }

  /** A coarser LOD never gets a larger overlay; LOD 0 gets the full 8192. */
  lemma ImageSideShrinks(a: nat, b: nat)
    requires a <= b
    ensures ImageSide(b) <= ImageSide(a)
    ensures ImageSide(0) == ImagePixelSize
  {
    var sa, sb := ImageSide(a), ImageSide(b);
    Layout.MulLe(LodScalar(a), LodScalar(b), sb);
    Layout.MulCancel(sb, sa + 1, LodScalar(a));
  }
}
