/** `PS2MapTool.Validators.MaxParallelValidator`
    (PS2MapTool/Validators/MaxParallelValidator.cs): the bound on the
    parallelism option. */
module MaxParallelValidator {
  datatype Verdict = Valid | BelowMinimum | AboveMaximum

  const MinParallelism: int := 1
  const MaxParallelism: int := 16

  /** `Validate(value)`: null, or the minimum or maximum error. */
  function Validate(value: int): (r: Verdict)
    ensures r.Valid? <==> MinParallelism <= value <= MaxParallelism
    ensures r.BelowMinimum? <==> value < MinParallelism
    ensures r.AboveMaximum? <==> value > MaxParallelism
  {
    if value < 1 then BelowMinimum
    else if value > 16 then AboveMaximum
    else Valid
  }
}
