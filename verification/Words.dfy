/** Machine words as integers, and the few facts about numbers and sequences that all modules share. */
module Words {

  const TWO_32: int := 0x1_0000_0000
  const TWO_64: int := 0x1_0000_0000_0000_0000

  type u32 = x: int | 0 <= x < TWO_32

  /** An unsigned long, a pointer or a DMA address. */
  type u64 = x: int | 0 <= x < TWO_64

  /** Addition in u32. */
  function Add32(a: u32, b: nat): u32 {
    (a + b) % TWO_32
  }

  /** A number cut down to 64 bits. */
  function Wrap64(x: int): u64 {
    x % TWO_64
  }

  lemma Wraps32(x: int)
    requires -TWO_32 <= x < 2 * TWO_32
    ensures x % TWO_32 == if x < 0 then x + TWO_32 else if x < TWO_32 then x else x - TWO_32
  {
  }

  function Min(a: nat, b: nat): nat {
    if a < b then a else b
  }

  lemma Associative<T>(x: seq<T>, y: seq<T>, z: seq<T>)
    ensures x + (y + z) == x + y + z
  {
  }
}
