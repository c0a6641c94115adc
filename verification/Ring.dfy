/** Index arithmetic on a ring of n slots, as drivers do it: one conditional
    subtraction instead of a remainder. */
module Ring {

  /** Slot x of a ring of n slots, where x has run past the end at most once. */
  function Wrap(x: nat, n: nat): (w: nat)
    requires x < 2 * n
    ensures w < n
  {
    if x < n then x else x - n
  }

  /** `if (++i == n) i = 0` */
  function Next(i: nat, n: nat): (j: nat)
    requires i < n
    ensures j < n && j == Wrap(i + 1, n)
  {
    if i + 1 == n then 0 else i + 1
  }

  /** The slot before. */
  function Back(i: nat, n: nat): (j: nat)
    requires i < n
    ensures j < n && Next(j, n) == i
  {
    if i == 0 then n - 1 else i - 1
  }

  /** How many steps forward lead from slot a to slot b. */
  function Dist(a: nat, b: nat, n: nat): (d: nat)
    requires a < n && b < n
    ensures d < n && Wrap(a + d, n) == b
  {
    if b >= a then b - a else b + n - a
  }

  /** Walking k steps and measuring them agree. */
  lemma DistOf(a: nat, k: nat, n: nat)
    requires a < n && k < n
    ensures Dist(a, Wrap(a + k, n), n) == k
  {
  }

  /** Moving the start forward by s brings every slot beyond s closer by s. */
  lemma DistShift(a: nat, s: nat, j: nat, n: nat)
    requires a < n && s < n && j < n
    ensures s <= Dist(a, j, n) ==> Dist(Wrap(a + s, n), j, n) == Dist(a, j, n) - s
    ensures Dist(a, j, n) < s ==> Dist(Wrap(a + s, n), j, n) == Dist(a, j, n) + n - s
  {
  }

  /** The slots at distance lo, lo + 1, ..., hi - 1 from slot a hold the same in s and t. */
  ghost predicate Same<T>(s: seq<T>, t: seq<T>, a: nat, lo: nat, hi: nat)
    requires |s| == |t| && a < |s|
  {
    forall j :: 0 <= j < |s| && lo <= Dist(a, j, |s|) < hi ==> s[j] == t[j]
  }

  /** Slots that may still be filled: one always stays empty. */
  function Unused(clean: nat, use: nat, n: nat): (u: nat)
    requires clean < n && use < n
    ensures u < n && u + Dist(clean, use, n) == n - 1
  {
    if clean > use then clean - use - 1 else n + clean - use - 1
  }

  lemma SameShift<T>(s: seq<T>, t: seq<T>, a: nat, n: nat, hi: nat)
    requires |s| == |t| && a < |s| && n <= hi < |s| && Same(s, t, a, 0, hi)
    ensures Same(s, t, Wrap(a + n, |s|), 0, hi - n)
  {
    forall j | 0 <= j < |s| && 0 <= Dist(Wrap(a + n, |s|), j, |s|) < hi - n ensures s[j] == t[j] {
      DistShift(a, n, j, |s|);
    }
  }
}
