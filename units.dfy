/** `unit_step` from example/useless/utils.py: the display unit for a byte
    count and the divisor that goes with it. */
module Units {

  const KiB: nat := 1024
  const MiB: nat := 1024 * 1024
  const GiB: nat := 1024 * 1024 * 1024

  /** `unit_step(size)`. The source returns the step as a float (`step * 1.0`);
      every step is a small power of two, so the integer is exact. */
  function UnitStep(size: int): (r: (string, nat))
    ensures r.1 == 1 || r.1 == KiB || r.1 == MiB || r.1 == GiB
    ensures 1 <= size ==> r.1 <= size
    ensures r.0 != "GB" ==> size < 1024 * r.1
    ensures r.0 == "B" <==> r.1 == 1
    ensures r.0 == "KB" <==> r.1 == KiB
    ensures r.0 == "MB" <==> r.1 == MiB
    ensures r.0 == "GB" <==> r.1 == GiB
  {
    if size < 1024 then ("B", 1)
    else if size < 1024 * 1024 then ("KB", 1024)
    else if size < 1024 * 1024 * 1024 then ("MB", 1024 * 1024)
    else ("GB", 1024 * 1024 * 1024)
  }

  /** The step is the largest of 1, 1 KiB, 1 MiB and 1 GiB that does not exceed the
      size (1 for sizes below one byte). */
  lemma UnitStepIsLargestFit(size: int, step: nat)
    requires step == 1 || step == KiB || step == MiB || step == GiB
    requires step <= size
    ensures step <= UnitStep(size).1
  {
  }

  /** A larger size never gets a smaller step. */
  lemma UnitStepMonotone(a: int, b: int)
    requires a <= b
    ensures UnitStep(a).1 <= UnitStep(b).1
  {
  }
}
