/** The `World` and `Lod` enums are not part of this model. An enum is
    represented by the table of its member names and a value by its
    declaration index; for `Lod` the index is also the numeric value that
    `(int)lod` yields (members `Lod0`, `Lod1`, ... numbered from 0). */
module Enums {
  import opened Wrappers
  import opened Text

  datatype EnumType = EnumType(names: seq<string>)

  predicate IsValue(e: EnumType, v: nat) {
    v < |e.names|
  }

  /** `v.ToString()`: the member's name. */
  function Name(e: EnumType, v: nat): string
    requires IsValue(e, v)
  {
    e.names[v]
  }

  /** `v.ToString()` for any value: the member's name, or the number itself
      when no member has that value. */
  function ValueName(e: EnumType, v: nat): (s: string)
    ensures IsValue(e, v) ==> s == Name(e, v)
    ensures !IsValue(e, v) ==> AllDigits(s) && DigitsValue(s) == v
  {
    if IsValue(e, v) then e.names[v]
    else
      NatToStringValue(v);
      NatToString(v)
  }

  /** `Enum.GetValues<E>()`: every member, in declaration order. */
  function AllValues(e: EnumType): (r: seq<nat>)
    ensures |r| == |e.names|
    ensures forall v: nat :: v in r <==> IsValue(e, v)
  {
    var r := Range(|e.names|);
    assert forall v: nat :: v in r <==> v < |e.names| by {
      forall v: nat | v < |e.names| ensures v in r {
        assert r[v] == v;
      }
    }
    r
  }

  function Range(n: nat): (r: seq<nat>)
    ensures |r| == n
    ensures forall i | 0 <= i < n :: r[i] == i
  {
    if n == 0 then [] else Range(n - 1) + [n - 1]
  }

  predicate NameMatches(name: string, s: string, ignoreCase: bool) {
    if ignoreCase then EqualsIgnoreCase(name, s) else name == s
  }

  /** `Enum.TryParse(s, ignoreCase, out v)`: the first member whose name
      matches `s`, exactly or ignoring ASCII case. */
  function TryParse(e: EnumType, s: string, ignoreCase: bool): (r: Option<nat>)
    ensures r.Some? <==> exists i :: 0 <= i < |e.names| && NameMatches(e.names[i], s, ignoreCase)
    ensures r.Some? ==> IsValue(e, r.value) && NameMatches(e.names[r.value], s, ignoreCase)
    ensures r.Some? ==> forall j :: 0 <= j < r.value ==> !NameMatches(e.names[j], s, ignoreCase)
  {
    FirstMatch(e.names, s, ignoreCase, 0)
  }

  function FirstMatch(names: seq<string>, s: string, ignoreCase: bool, from: nat): (r: Option<nat>)
    requires from <= |names|
    ensures r.Some? <==> exists i :: from <= i < |names| && NameMatches(names[i], s, ignoreCase)
    ensures r.Some? ==> from <= r.value < |names| && NameMatches(names[r.value], s, ignoreCase)
    ensures r.Some? ==> forall j :: from <= j < r.value ==> !NameMatches(names[j], s, ignoreCase)
    decreases |names| - from
  {
    if from == |names| then None
    else if NameMatches(names[from], s, ignoreCase) then Some(from)
    else FirstMatch(names, s, ignoreCase, from + 1)
  }

  /** Member names differ even when case is ignored. */
  predicate Distinct(e: EnumType) {
    forall i, j :: 0 <= i < j < |e.names| ==> !EqualsIgnoreCase(e.names[i], e.names[j])
  }

  /** A string equal to a member's name up to ASCII case parses, ignoring
      case, to that member. */
  lemma ParseIgnoringCase(e: EnumType, v: nat, s: string)
    requires Distinct(e) && IsValue(e, v)
    requires EqualsIgnoreCase(e.names[v], s)
    ensures TryParse(e, s, true) == Some(v)
  {
    assert NameMatches(e.names[v], s, true);
    var r := TryParse(e, s, true);
    EqualsIgnoreCaseThrough(e.names[r.value], s, e.names[v]);
  }

  /** A member's own name parses back to that member, in either mode. */
  lemma ParseName(e: EnumType, v: nat, ignoreCase: bool)
    requires Distinct(e) && IsValue(e, v)
    ensures TryParse(e, Name(e, v), ignoreCase) == Some(v)
  {
    assert NameMatches(e.names[v], e.names[v], ignoreCase);
    var r := TryParse(e, Name(e, v), ignoreCase);
    MatchIgnoresCase(e.names[r.value], e.names[v], ignoreCase);
  }

  /** Two strings equal to a third up to ASCII case are equal up to case. */
  lemma EqualsIgnoreCaseThrough(a: string, s: string, b: string)
    requires EqualsIgnoreCase(a, s) && EqualsIgnoreCase(b, s)
    ensures EqualsIgnoreCase(a, b)
  {
  }

  /** A match in either mode is a match ignoring case. */
  lemma MatchIgnoresCase(name: string, s: string, ignoreCase: bool)
    requires NameMatches(name, s, ignoreCase)
    ensures EqualsIgnoreCase(name, s)
  {
  }
}
