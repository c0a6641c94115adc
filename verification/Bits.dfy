/** Single bits of machine words. */
module Bits {

  /** (w >> i) & 1 */
  predicate Bit(w: nat, i: nat) {
    if i == 0 then w % 2 == 1 else Bit(w / 2, i - 1)
  }

  /** w | (1 << i) */
  function SetBit(w: nat, i: nat): nat {
    if i == 0 then w / 2 * 2 + 1 else SetBit(w / 2, i - 1) * 2 + w % 2
  }

  /** w & ~(1 << i) */
  function ClearBit(w: nat, i: nat): nat {
    if i == 0 then w / 2 * 2 else ClearBit(w / 2, i - 1) * 2 + w % 2
  }

  lemma {:induction false} BitOfSet(w: nat, i: nat, j: nat)
    ensures Bit(SetBit(w, i), j) <==> (i == j || Bit(w, j))
    decreases i
  {
    if i > 0 && j > 0 {
      assert SetBit(w, i) / 2 == SetBit(w / 2, i - 1);
      BitOfSet(w / 2, i - 1, j - 1);
    }
  }

  lemma {:induction false} BitOfClear(w: nat, i: nat, j: nat)
    ensures Bit(ClearBit(w, i), j) <==> (i != j && Bit(w, j))
    decreases i
  {
    if i > 0 && j > 0 {
      assert ClearBit(w, i) / 2 == ClearBit(w / 2, i - 1);
      BitOfClear(w / 2, i - 1, j - 1);
    }
  }

  lemma {:induction false} BitOfZero(i: nat)
    ensures !Bit(0, i)
  {
    if i > 0 {
      BitOfZero(i - 1);
    }
  }

  /** Bit v of a table of 32-bit words. */
  predicate TableBit(table: seq<nat>, v: nat) {
    v / 32 < |table| && Bit(table[v / 32], v % 32)
  }

  /** Setting bit v of a table, and clearing it, changes no other bit. */
  lemma TableSet(table: seq<nat>, v: nat, u: nat)
    requires v / 32 < |table|
    ensures TableBit(table[v / 32 := SetBit(table[v / 32], v % 32)], u) <==> (u == v || TableBit(table, u))
    ensures TableBit(table[v / 32 := ClearBit(table[v / 32], v % 32)], u) <==> (u != v && TableBit(table, u))
  {
    BitOfSet(table[v / 32], v % 32, u % 32);
    BitOfClear(table[v / 32], v % 32, u % 32);
  }
}
