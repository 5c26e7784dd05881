/** Page-capacity calibration (`calc_max_kv_per_page`, identical in both
    engines): try counts 0, 1, ..., 255 of synthetic entries and return one less
    than the first count whose encoded page exceeds the frame payload area. The
    encoded size of a page of c entries is the parameter `size(c)`. */
module Calibration {
  import opened Errors

  /** A frame is 4096 bytes, 8 of which are its CRC and length header. */
  const FRAME_SIZE: nat := 4096
  const PAYLOAD_MAX: nat := 4088

  /** The loop from count i onward. Counts below i have already been found to
      fit. */
  function MaxPerPageFrom(size: nat -> nat, i: nat): (r: Result<nat>)
    requires i <= 256
    requires forall c :: 0 <= c < i ==> size(c) <= PAYLOAD_MAX
    ensures r.Ok? ==> 2 <= r.value <= 255
    ensures r.Ok? ==> forall c :: 0 <= c <= r.value ==> size(c) <= PAYLOAD_MAX
    ensures r.Ok? && r.value < 255 ==> size(r.value + 1) > PAYLOAD_MAX
    ensures r.Err? ==> r.error == CapacityTooSmall
    ensures r.Err? <==> exists c :: i <= c <= 2 && size(c) > PAYLOAD_MAX
    decreases 256 - i
  {
    if i == 256 then Ok(255)
    else if size(i) > PAYLOAD_MAX then
      if i > 2 then Ok(i - 1) else Err(CapacityTooSmall)
    else MaxPerPageFrom(size, i + 1)
  }

  /** `calc_max_kv_per_page`: the largest count r <= 255 such that every count
      up to r fits, where count r + 1 does not (unless r is the cap 255). The
      Rust code panics (`assert!(i > 2)`) when fewer than two entries fit. */
  function MaxPerPage(size: nat -> nat): (r: Result<nat>)
    ensures r.Ok? ==> 2 <= r.value <= 255
    ensures r.Ok? ==> forall c :: 0 <= c <= r.value ==> size(c) <= PAYLOAD_MAX
    ensures r.Ok? && r.value < 255 ==> size(r.value + 1) > PAYLOAD_MAX
    ensures r.Err? <==> exists c :: 0 <= c <= 2 && size(c) > PAYLOAD_MAX
    ensures r.Err? ==> r.error == CapacityTooSmall
  {
    MaxPerPageFrom(size, 0)
  }

  /** The boundary is unique: any count with the three properties is the
      calibrated one, so calibration is deterministic. */
  lemma MaxPerPageUnique(size: nat -> nat, m: nat)
    requires 2 <= m <= 255
    requires forall c :: 0 <= c <= m ==> size(c) <= PAYLOAD_MAX
    requires m < 255 ==> size(m + 1) > PAYLOAD_MAX
    ensures MaxPerPage(size) == Ok(m)
  {
    var r := MaxPerPage(size);
    if r.Err? {
      assert false;
    } else if r.value < m {
      assert false;
    } else if r.value > m {
      assert false;
    }
  }
}
