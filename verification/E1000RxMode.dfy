/** The e1000 address filters: exact-match registers, the multicast hash table and the promiscuous bits. */
module E1000RxMode {
  import opened Bits
  import opened Wrappers

  const NUM_MTA: nat := 128

  type Mac = nat

  datatype Flags = Flags(promisc: bool, allMulti: bool)

  /** The part of RCTL that e1000_set_rx_mode touches. */
  datatype Rctl = Rctl(upe: bool, mpe: bool, vfe: bool)

  class Filters {
    const rarEntries: nat                // E1000_RAR_ENTRIES
    const hashOf: Mac -> nat             // e1000_hash_mc_addr
    const errata: bool                   // 82544: writing an odd register damages the one before
    const damage: nat -> nat
    const ra: array<Option<Mac>>         // RAL/RAH pairs; None is a cleared one
    const mta: array<nat>
    var rctl: Rctl

    ghost predicate Shape() {
      ra.Length == rarEntries > 0 && mta.Length == NUM_MTA
    }

    /** The bit of the hash table that stands for an address: register bits 5..11, bit 0..4 of its hash. */
    function HashSlot(a: Mac): (s: nat)
      ensures s < 32 * NUM_MTA
    {
      (hashOf(a) / 32) % 128 * 32 + hashOf(a) % 32
    }

    /** The addresses wanted in exact filters, in order of precedence. */
    function Wanted(uc: seq<Mac>, mc: seq<Mac>, flags: Flags): seq<Mac> {
      (if |uc| <= rarEntries - 1 && !flags.promisc then uc else []) + mc
    }

    /** Registers 1 and on hold exactly the first addresses of w, and nothing else. */
    ghost predicate Exact(w: seq<Mac>)
      reads ra
    {
      forall i :: 1 <= i < ra.Length ==> ra[i] == if i - 1 < |w| then Some(w[i - 1]) else None
    }

    /** The hash table has exactly the bits of the addresses in s. */
    ghost predicate Hashes(table: seq<nat>, s: seq<Mac>) {
      forall b: nat :: b < 32 * NUM_MTA ==> (TableBit(table, b) <==> InHash(s, b))
    }

    ghost predicate InHash(s: seq<Mac>, b: nat) {
      exists a <- s :: HashSlot(a) == b
    }

    /** e1000_set_rx_mode. Afterwards the exact filters hold the first addresses, unicast
        ones first, the hash table stands for just the multicast addresses left
        over, and nothing remains of earlier calls. */
    method SetRxMode(uc: seq<Mac>, mc: seq<Mac>, flags: Flags, vlanUsed: bool, allocOk: bool)
      requires Shape()
      modifies this, ra, mta
      ensures !allocOk ==> rctl == old(rctl) && ra[..] == old(ra[..]) && mta[..] == old(mta[..])
      ensures allocOk ==>
                && rctl.upe == (|uc| > rarEntries - 1 || flags.promisc) && rctl.mpe == (flags.promisc || flags.allMulti)
                && rctl.vfe == (!flags.promisc && (vlanUsed || old(rctl.vfe)))
                && ra[0] == old(ra[0])
                && var w := Wanted(uc, mc, flags);
                   Exact(w) && Hashes(mta[..], Rest(w))
    {
      if !allocOk {
        return;
      }
      var mcarray := new nat[NUM_MTA](_ => 0);
      var useUc := SetPromisc(uc, flags, vlanUsed);
      var i := LoadUnicast(uc, useUc);
      i := LoadMulticast(mc, i, mcarray, if useUc then uc else []);
      ClearRest(i, Wanted(uc, mc, flags));
      WriteMta(mcarray);
    }

    method SetPromisc(uc: seq<Mac>, flags: Flags, vlanUsed: bool) returns (useUc: bool)
      modifies this`rctl
      ensures rctl.upe == (|uc| > rarEntries - 1 || flags.promisc) && rctl.mpe == (flags.promisc || flags.allMulti)
      ensures rctl.vfe == (!flags.promisc && (vlanUsed || old(rctl.vfe)))
      ensures useUc == (|uc| <= rarEntries - 1 && !flags.promisc)
    {
      var r := rctl;
      useUc := false;
      if flags.promisc {
        r := r.(upe := true, mpe := true, vfe := false);
      } else {
        r := r.(mpe := flags.allMulti);
        if vlanUsed {
          r := r.(vfe := true);
        }
      }
      if |uc| > rarEntries - 1 {
        r := r.(upe := true);
      } else if !flags.promisc {
        r := r.(upe := false);
        useUc := true;
      }
      rctl := r;
    }

    /** Registers 1 to i - 1 hold the addresses of w. */
    ghost predicate Loaded(w: seq<Mac>, i: nat)
      reads ra
    {
      1 <= i <= ra.Length && i - 1 <= |w| && forall k :: 1 <= k < i ==> ra[k] == Some(w[k - 1])
    }

    method LoadUnicast(uc: seq<Mac>, useUc: bool) returns (i: nat)
      requires Shape() && (useUc ==> |uc| <= rarEntries - 1)
      modifies ra
      ensures ra[0] == old(ra[0]) && i == 1 + (if useUc then |uc| else 0)
      ensures Loaded(if useUc then uc else [], i)
    {
      i := 1;
      if useUc {
        for n := 0 to |uc|
          invariant i == n + 1 && Loaded(uc, i) && ra[0] == old(ra[0])
        {
          if i == rarEntries {
            break;
          }
          ra[i] := Some(uc[n]);
          i := i + 1;
        }
      }
    }

    method LoadMulticast(mc: seq<Mac>, i0: nat, mcarray: array<nat>, ghost u: seq<Mac>) returns (i: nat)
      requires Shape() && Loaded(u, i0) && i0 == |u| + 1
      requires mcarray.Length == NUM_MTA && forall k :: 0 <= k < NUM_MTA ==> mcarray[k] == 0
      modifies ra, mcarray
      ensures ra[0] == old(ra[0])
      ensures Loaded(u + mc, i) && i == NextFree(|u + mc|)
      ensures Hashes(mcarray[..], Rest(u + mc))
    {
      hide Hashes, Loaded, Rest;
      i := i0;
      assert u + mc[..0] == u;
      NoRest(u, i0);
      NoHash(mcarray[..]);
      for n := 0 to |mc|
        invariant Shape() && Loaded(u + mc[..n], i) && i == NextFree(|u| + n)
        invariant mcarray.Length == NUM_MTA && ra[0] == old(ra[0])
        invariant Hashes(mcarray[..], Rest(u + mc[..n]))
      {
        assert u + mc[..n + 1] == u + mc[..n] + [mc[n]];
        i := LoadOne(mc[n], i, mcarray, u + mc[..n]);
      }
      assert mc[..|mc|] == mc;
    }

    /** The register after the last one in use, once n addresses are loaded. */
    ghost function NextFree(n: nat): nat {
      if n <= rarEntries - 1 then n + 1 else rarEntries
    }

    lemma NoRest(u: seq<Mac>, i: nat)
      requires Shape() && Loaded(u, i) && i == |u| + 1
      ensures Rest(u) == [] && i == NextFree(|u|)
    {
    }

    /** One multicast address, after those in w. */
    method LoadOne(a: Mac, i0: nat, mcarray: array<nat>, ghost w: seq<Mac>) returns (i: nat)
      requires Shape() && Loaded(w, i0) && i0 == NextFree(|w|)
      requires mcarray.Length == NUM_MTA && Hashes(mcarray[..], Rest(w))
      modifies ra, mcarray
      ensures Loaded(w + [a], i) && i == NextFree(|w| + 1) && ra[0] == old(ra[0])
      ensures Hashes(mcarray[..], Rest(w + [a]))
    {
      hide Hashes;
      RestSnoc(w, a);
      i := i0;
      if i == rarEntries {
        AddHash(a, mcarray, Rest(w));
      } else {
        ra[i] := Some(a);
        i := i + 1;
      }
    }

    /** The addresses that find no exact filter. */
    ghost function Rest(w: seq<Mac>): seq<Mac> {
      if |w| >= rarEntries > 0 then w[rarEntries - 1..] else []
    }

    lemma RestSnoc(w: seq<Mac>, a: Mac)
      requires rarEntries > 0
      ensures Rest(w + [a]) == if |w| < rarEntries - 1 then [] else Rest(w) + [a]
      ensures |w| < rarEntries - 1 ==> Rest(w) == []
    {
    }

    lemma NoHash(table: seq<nat>)
      requires |table| == NUM_MTA && forall k :: 0 <= k < NUM_MTA ==> table[k] == 0
      ensures Hashes(table, [])
    {
      forall b: nat | b < 32 * NUM_MTA ensures !TableBit(table, b) {
        BitOfZero(b % 32);
      }
    }

    /** One more address in the hash table. */
    lemma HashSnoc(table: seq<nat>, s: seq<Mac>, a: Mac)
      requires |table| == NUM_MTA && Hashes(table, s)
      ensures var v := HashSlot(a);
              Hashes(table[v / 32 := SetBit(table[v / 32], v % 32)], s + [a])
    {
      var v := HashSlot(a);
      var table' := table[v / 32 := SetBit(table[v / 32], v % 32)];
      forall b: nat | b < 32 * NUM_MTA ensures TableBit(table', b) <==> InHash(s + [a], b) {
        TableSet(table, v, b);
        InHashSnoc(s, a, b);
      }
    }

    lemma InHashSnoc(s: seq<Mac>, a: Mac, b: nat)
      ensures InHash(s + [a], b) <==> (HashSlot(a) == b || InHash(s, b))
    {
      if HashSlot(a) == b {
        assert a in s + [a];
      }
      if InHash(s, b) {
        var c :| c in s && HashSlot(c) == b;
        assert c in s + [a];
      }
    }

    method AddHash(a: Mac, mcarray: array<nat>, ghost s: seq<Mac>)
      requires mcarray.Length == NUM_MTA && Hashes(mcarray[..], s)
      modifies mcarray
      ensures Hashes(mcarray[..], s + [a])
    {
      HashSnoc(mcarray[..], s, a);
      ghost var t, v := mcarray[..], HashSlot(a);
      var hashReg := hashOf(a) / 32 % 128;
      var hashBit := hashOf(a) % 32;
      assert v / 32 == hashReg && v % 32 == hashBit;
      mcarray[hashReg] := SetBit(mcarray[hashReg], hashBit);
      assert mcarray[..] == t[v / 32 := SetBit(t[v / 32], v % 32)];
    }

    /** Unused exact filters are cleared. */
    method ClearRest(i0: nat, ghost w: seq<Mac>)
      requires Shape() && Loaded(w, i0) && i0 == NextFree(|w|)
      modifies ra
      ensures Exact(w) && ra[0] == old(ra[0])
    {
      for i := i0 to rarEntries
        invariant Loaded(w, i0) && ra[0] == old(ra[0])
        invariant forall k :: i0 <= k < i ==> ra[k] == None
      {
        ra[i] := None;
      }
    }

    /** The hash table is written from the top down, so that the damage of writing an
        odd register on an 82544 is made good by the next write. */
    method WriteMta(mcarray: array<nat>)
      requires mta.Length == NUM_MTA == mcarray.Length && mta != mcarray
      modifies mta
      ensures mta[..] == mcarray[..]
    {
      for i := NUM_MTA downto 0
        invariant forall k :: i <= k < NUM_MTA ==> mta[k] == mcarray[k]
      {
        mta[i] := mcarray[i];
        if errata && i % 2 == 1 {
          mta[i - 1] := damage(i);
        }
      }
    }

    /** Filter completeness: what e1000_set_rx_mode leaves behind passes every address
        asked for, and holds nothing that was not asked for. */
    lemma Complete(uc: seq<Mac>, mc: seq<Mac>, flags: Flags)
      requires Shape() && rctl.upe == (|uc| > rarEntries - 1 || flags.promisc)
      requires var w := Wanted(uc, mc, flags);
               Exact(w) && Hashes(mta[..], Rest(w))
      ensures forall a <- uc :: rctl.upe || InExact(a)
      ensures forall a <- mc :: InExact(a) || TableBit(mta[..], HashSlot(a))
      ensures forall a: Mac :: InExact(a) ==> a in uc || a in mc
      ensures forall b: nat :: b < 32 * NUM_MTA && TableBit(mta[..], b) ==> InHash(mc, b)
    {
      var w := Wanted(uc, mc, flags);
      forall a <- w ensures InExact(a) || (a in mc && InHash(Rest(w), HashSlot(a))) {
        Placed(w, uc, mc, flags, a);
      }
      forall a <- uc ensures rctl.upe || InExact(a) {
        var k :| 0 <= k < |uc| && uc[k] == a;
        assert !rctl.upe ==> ra[k + 1] == Some(a);
      }
      forall a: Mac | InExact(a) ensures a in uc || a in mc {
        var i :| 1 <= i < ra.Length && ra[i] == Some(a);
        assert w[i - 1] == a;
      }
      forall b: nat | b < 32 * NUM_MTA && TableBit(mta[..], b) ensures InHash(mc, b) {
        var a :| a in Rest(w) && HashSlot(a) == b;
        LeftOver(uc, mc, flags, a);
      }
    }

    ghost predicate InExact(a: Mac)
      reads ra
    {
      exists i :: 1 <= i < ra.Length && ra[i] == Some(a)
    }

    lemma LeftOver(uc: seq<Mac>, mc: seq<Mac>, flags: Flags, a: Mac)
      requires rarEntries > 0
      requires a in Rest(Wanted(uc, mc, flags))
      ensures a in mc
    {
      var w := Wanted(uc, mc, flags);
      var n := |w| - |mc|;
      assert n <= rarEntries - 1 && w[n..] == mc;
      assert w[rarEntries - 1..] == mc[rarEntries - 1 - n..];
    }

    lemma Placed(w: seq<Mac>, uc: seq<Mac>, mc: seq<Mac>, flags: Flags, a: Mac)
      requires Shape() && w == Wanted(uc, mc, flags) && Exact(w) && a in w
      ensures InExact(a) || (a in mc && InHash(Rest(w), HashSlot(a)))
    {
      var k :| 0 <= k < |w| && w[k] == a;
      if k < rarEntries - 1 {
        assert ra[k + 1] == Some(a);
      } else {
        assert w[rarEntries - 1..][k - (rarEntries - 1)] == a;
        LeftOver(uc, mc, flags, a);
      }
    }

    constructor (rarEntries: nat, hashOf: Mac -> nat, errata: bool, damage: nat -> nat)
      requires rarEntries > 0
      ensures Shape() && fresh(ra) && fresh(mta)
    {
      this.rarEntries, this.hashOf, this.errata, this.damage := rarEntries, hashOf, errata, damage;
      ra := new Option<Mac>[rarEntries](_ => None);
      mta := new nat[NUM_MTA](_ => 0);
      rctl := Rctl(false, false, false);
    }
  }
}
