/** Machine words of the modelled code, as bounded integers with explicit wrap-around. */
module Words {
  const TWO32: int := 0x1_0000_0000
  const TWO64: int := 0x1_0000_0000_0000_0000

  type u32 = x: int | 0 <= x < 0x1_0000_0000
  type u64 = x: int | 0 <= x < 0x1_0000_0000_0000_0000

  /** `a.wrapping_sub(b)`: the age of stamp `b` on a 32-bit clock that reads `a`. */
  function WrapSub(a: u32, b: u32): u32 {
    (a - b) % TWO32
  }

  /** `a.wrapping_add(b)`. */
  function WrapAdd(a: u32, b: u32): u32 {
    if a + b < TWO32 then a + b else a + b - TWO32
  }

  lemma WrapAddIsSum(a: u32, b: u32)
    ensures WrapAdd(a, b) == (a + b) % TWO32
  {
  }
}

module Options {
  datatype Option<+T> = None | Some(value: T)
}

/** Limits shared by the parts of the visible-item coalescer. */
module VisibleItems {
  import opened Words

  const VISIBLE_SLOTS: nat := 19
  const RESTORE_WINDOW_MS: u32 := 100
}
