/** Small helpers (internal/util/util.go). */
module Util {
  import opened Libm

  /** `AlmostZero`: the threshold below which a magnitude counts as zero. */
  const AlmostZero: real := 0.00000001

  /** `DegreesToRadians`: multiplication by pi/180. */
  function DegreesToRadians(m: Libm, degrees: real): (r: real)
    ensures degrees == 0.0 ==> r == 0.0
    ensures degrees == 180.0 ==> r == m.pi
  {
    degrees * (m.pi / 180.0)
  }

  /** The conversion is linear: the test's sample points and oddness follow. */
  lemma DegreesToRadiansLinear(m: Libm, a: real, b: real, k: real)
    ensures DegreesToRadians(m, a + b) == DegreesToRadians(m, a) + DegreesToRadians(m, b)
    ensures DegreesToRadians(m, k * a) == k * DegreesToRadians(m, a)
    ensures DegreesToRadians(m, -a) == -DegreesToRadians(m, a)
  {
    var c := m.pi / 180.0;
    assert (a + b) * c == a * c + b * c;
    assert (k * a) * c == k * (a * c);
    assert (-a) * c == -(a * c);
  }

  lemma DegreesToRadiansSamples(m: Libm)
    ensures DegreesToRadians(m, 0.0) == 0.0
    ensures DegreesToRadians(m, 180.0) == m.pi
    ensures DegreesToRadians(m, 360.0) == 2.0 * m.pi
    ensures DegreesToRadians(m, -180.0) == -m.pi
  {
    DegreesToRadiansLinear(m, 180.0, 180.0, 2.0);
    DegreesToRadiansLinear(m, 180.0, 0.0, -1.0);
  }

  /** The owner-execute permission bit, octal 0100. */
  const OwnerExec: bv32 := 0x40

  /** `IsExecOwner` (`os.FileMode` is a 32-bit word): whether the owner-execute bit of the mode is set. */
  function IsExecOwner(mode: bv32): (r: bool)
    ensures r <==> (mode >> 6) & 1 == 1
  {
    mode & OwnerExec != 0
  }

  /** Only the owner-execute bit matters: setting or clearing any other bits
      leaves the answer unchanged. */
  lemma IsExecOwnerIgnoresOtherBits(mode: bv32, other: bv32)
    requires other & OwnerExec == 0
    ensures IsExecOwner(mode | other) == IsExecOwner(mode)
    ensures IsExecOwner(mode & !other) == IsExecOwner(mode)
  {}
}
