/**
 * The few definitions of ITU-T H.265 that the scheduler relies on:
 * the nal_unit_type values of section 7.4.2.2, Table 7-1, and the slice types.
 */
module Hevc {

  // nal_unit_type values, ITU-T H.265 section 7.4.2.2, Table 7-1
  const TRAIL_N: int := 0
  const TRAIL_R: int := 1
  const RASL_N: int := 8
  const RASL_R: int := 9
  const IDR_N_LP: int := 20
  const CRA_NUT: int := 21

  /** Intra random access point pictures: nal_unit_type BLA_W_LP (16) to RSV_IRAP_VCL23 (23). */
  predicate IsIrap(nut: int)
  {
    16 <= nut <= 23
  }

  /** The two slice types the scheduler assigns. */
  datatype SliceType = B | I
}
