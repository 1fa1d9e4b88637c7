/** The persisted HOTP counter (an `ESPPreferenceObject` holding a `uint32_t`).
    The store holds a saved value or nothing; each load and save can also
    fail, which the caller passes in as `loadOk` / `saveOk`. */
module CounterStore {
  import opened PinpadTypes

  /** What `get_current_hotp_counter` reports: the saved value when the load
      succeeds, 0 otherwise. */
  function Load(saved: Option<uint32>, loadOk: bool): uint32
  {
    if loadOk && saved.Some? then saved.value else 0
  }

  /** The store after `save(v)`: the new value when the save succeeds,
      untouched otherwise. */
  function Save(saved: Option<uint32>, v: uint32, saveOk: bool): Option<uint32>
  {
    if saveOk then Some(v) else saved
  }

  /** The store after `increment_hotp_counter`: the loaded value plus one
      (modulo 2^32), saved if the save succeeds. */
  function Increment(saved: Option<uint32>, loadOk: bool, saveOk: bool): Option<uint32>
  {
    Save(saved, Add32(Load(saved, loadOk), 1), saveOk)
  }

  /** The store after `n` increments whose loads and saves all succeed. */
  function Increments(saved: Option<uint32>, n: nat): Option<uint32>
  {
    if n == 0 then saved else Increment(Increments(saved, n - 1), true, true)
  }

  /** A failed save leaves the store as it was; a failed load followed by a
      successful save restarts the counter at 1. */
  lemma IncrementFaults(saved: Option<uint32>, loadOk: bool)
    ensures Increment(saved, loadOk, false) == saved
    ensures Increment(saved, false, true) == Some(1)
  {
  }

  /** From a stored value `v`, `n` fault-free increments store `v + n`
      modulo 2^32. */
  lemma {:induction false} IncrementsAdvanceCounter(v: uint32, n: nat)
    ensures Increments(Some(v), n).Some?
    ensures Increments(Some(v), n).value as int == (v as int + n) % TWO_POW_32
  {
    if n > 0 {
      IncrementsAdvanceCounter(v, n - 1);
      var x := Increments(Some(v), n - 1).value;
      var q := (v as int + n - 1) / TWO_POW_32;
      assert v as int + n - 1 == q * TWO_POW_32 + x as int;
      if x as int + 1 < TWO_POW_32 {
        assert Add32(x, 1) as int == x as int + 1;
        assert v as int + n == q * TWO_POW_32 + (x as int + 1);
      } else {
        assert Add32(x, 1) as int == 0;
        assert v as int + n == (q + 1) * TWO_POW_32;
      }
    }
  }
}
