/** Books of resources: addresses handed out, given back, and still held. */
module Accounts {
  import opened Words

  /** An address, with 0 for NULL or for no mapping. */
  function One(x: u64): multiset<u64> {
    if x == 0 then multiset{} else multiset{x}
  }

  /** The addresses among xs, without the NULLs. */
  function Held(xs: seq<u64>): multiset<u64> {
    if xs == [] then multiset{} else Held(xs[..|xs| - 1]) + One(xs[|xs| - 1])
  }

  lemma Exchange(a: multiset<u64>, b: multiset<u64>, c: multiset<u64>, d: multiset<u64>, e: multiset<u64>)
    requires a + b == c + d
    ensures (a + e) + b == (c + e) + d
  {
    forall x: u64 ensures ((a + e) + b)[x] == ((c + e) + d)[x] {
      assert (a + b)[x] == (c + d)[x];
    }
  }

  lemma {:induction false} HeldUpdate(xs: seq<u64>, i: nat, x: u64)
    requires i < |xs|
    ensures Held(xs[i := x]) + One(xs[i]) == Held(xs) + One(x)
    decreases |xs|
  {
    hide One;
    var init, last := xs[..|xs| - 1], xs[|xs| - 1];
    if i == |xs| - 1 {
      assert xs[i := x][..|xs| - 1] == init;
    } else {
      HeldUpdate(init, i, x);
      assert xs[i := x][..|xs| - 1] == init[i := x];
      Exchange(Held(init[i := x]), One(xs[i]), Held(init), One(x), One(last));
    }
  }

  /** Everything allocated is freed, given away, or `live`. */
  ghost predicate Owed(got: seq<u64>, gone: seq<u64>, given: seq<u64>, live: multiset<u64>) {
    multiset(got) == multiset(gone) + multiset(given) + live
  }

  /** Every mapping made is undone, or `live`. */
  ghost predicate OwedMaps(mapped: seq<u64>, unmapped: seq<u64>, live: multiset<u64>) {
    multiset(mapped) == multiset(unmapped) + live
  }

  lemma Got(got: seq<u64>, gone: seq<u64>, given: seq<u64>, live: multiset<u64>, x: u64)
    requires Owed(got, gone, given, live)
    ensures Owed(if x == 0 then got else got + [x], gone, given, live + One(x))
  {
  }

  lemma Gone(got: seq<u64>, gone: seq<u64>, given: seq<u64>, live: multiset<u64>, x: u64)
    requires x != 0 && Owed(got, gone, given, live + One(x))
    ensures Owed(got, gone + [x], given, live)
  {
  }

  lemma MultisetSwap(a: multiset<u64>, b: multiset<u64>, c: multiset<u64>)
    ensures a + b + c == a + c + b
  {
  }

  lemma NoOne(a: multiset<u64>)
    ensures a + One(0) == a
  {
  }

  lemma GotAndGone(got: seq<u64>, gone: seq<u64>, given: seq<u64>, live: multiset<u64>, x: u64)
    requires Owed(got, gone, given, live)
    ensures Owed(got + [x], gone + [x], given, live)
  {
  }

  lemma MapAndUnmap(mapped: seq<u64>, unmapped: seq<u64>, live: multiset<u64>, x: u64)
    requires OwedMaps(mapped, unmapped, live)
    ensures OwedMaps(mapped + [x], unmapped + [x], live)
  {
  }

  lemma {:induction false} NothingHeld(xs: seq<u64>)
    requires forall i :: 0 <= i < |xs| ==> xs[i] == 0
    ensures Held(xs) == multiset{}
  {
    if xs != [] {
      NothingHeld(xs[..|xs| - 1]);
    }
  }

  lemma Cancel(a: multiset<u64>, b: multiset<u64>, c: multiset<u64>)
    requires a + c == b + c
    ensures a == b
  {
    assert a + c - c == a && b + c - c == b;
  }
}
