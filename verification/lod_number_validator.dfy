/** `PS2MapTool.Validators.LODNumberValidator`
    (PS2MapTool/Validators/LODNumberValidator.cs): LOD options must not be
    negative. */
module LodNumberValidator {
  import opened Wrappers

  /** The position of the first negative value, where the `foreach` stops. */
  function FirstNegative(values: seq<int>): (r: Option<nat>)
    ensures r.Some? ==> r.value < |values| && values[r.value] < 0
    ensures r.Some? ==> forall j :: 0 <= j < r.value ==> values[j] >= 0
    ensures r.None? <==> forall j :: 0 <= j < |values| ==> values[j] >= 0
  {
    if |values| == 0 then None
    else if values[0] < 0 then Some(0)
    else
      var r := FirstNegative(values[1..]);
      assert forall j :: 1 <= j < |values| ==> values[j] == values[1..][j - 1];
      if r.None? then None else Some(r.value + 1)
  }

  /** `Validate(value)`: `true` for the error, `false` for null. The loop
      returns as soon as it meets a negative value; `examined` is how many
      values it read. */
  method Validate(values: seq<int>) returns (error: bool, examined: nat)
    ensures error <==> exists j :: 0 <= j < |values| && values[j] < 0
    ensures error ==> FirstNegative(values) == Some(examined - 1)
    ensures !error ==> examined == |values|
  {
    var i := 0;
    while i < |values|
      invariant 0 <= i <= |values|
      invariant forall j :: 0 <= j < i ==> values[j] >= 0
    {
      if values[i] < 0 {
        return true, i + 1;
      }
      i := i + 1;
    }
    return false, i;
  }
}
