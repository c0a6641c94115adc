/** The shared-memory NIC emulator: its receive and transmit loops over two rings of 32 buffers. */
module HwEmu {
  import opened Words

  const RING: nat := 32

  /** What of a buffer is copied: as many bytes as its length says, and its type. */
  datatype Packet = Packet(bytes: seq<bv8>, kind: nat)

  /** own is ownedByFpga: the buffer is the emulator's. */
  datatype Node = Node(own: bool, data: Packet)

  /** What may happen between two looks at we_live: a signal; the peer handing over
      buffers of its own, the transmit ones with new contents; and the other thread, if
      there is one, taking transmit buffers or filling receive buffers. */
  datatype Tick =
    Tick(signal: bool, tx: map<nat, Packet>, rx: set<nat>, otherTaken: set<nat>, otherFilled: map<nat, Packet>)

  /** The loop runs alone, or beside a thread that runs loop_txonly or loop_rxonly. */
  datatype Other = Nobody | TxThread | RxThread

  /** One receive: the slots it copied from and to, what it copied, and whether the emulator owned the target. */
  datatype Copy = Copy(txSlot: nat, rxSlot: nat, data: Packet, owned: bool)

  /** The peer's effect on a ring: it only ever hands buffers over. */
  function Handed(s: seq<Node>, filled: map<nat, Packet>, given: set<nat>): (t: seq<Node>)
    ensures |t| == |s| && forall j :: 0 <= j < |s| && s[j].own ==> t[j] == s[j]
  {
    seq(|s|, j requires 0 <= j < |s| =>
      if s[j].own then s[j]
      else if j in filled then Node(true, filled[j])
      else if j in given then s[j].(own := true)
      else s[j])
  }

  /** The effect of loop_txonly in the other thread on the transmit ring. */
  function TakenBy(o: Other, s: seq<Node>, slots: set<nat>): (t: seq<Node>)
    ensures |t| == |s| && (o != TxThread ==> t == s)
  {
    if o != TxThread then s
    else seq(|s|, j requires 0 <= j < |s| => if j in slots then s[j].(own := false) else s[j])
  }

  /** The effect of loop_rxonly in the other thread on the receive ring. */
  function FilledBy(o: Other, s: seq<Node>, slots: map<nat, Packet>): (t: seq<Node>)
    ensures |t| == |s| && (o != RxThread ==> t == s)
  {
    if o != RxThread then s
    else seq(|s|, j requires 0 <= j < |s| => if j in slots then Node(false, slots[j]) else s[j])
  }

  /** rxpkts_cnt after n receives. */
  function Counted(n: nat): nat {
    if n < RING then 0 else n - (RING - 1)
  }

  /** The slot of the n-th turn. */
  function Slot(n: nat): (j: nat)
    ensures j < RING
  {
    n % RING
  }

  /** (++d <= last) ? d : base */
  function Bump(d: nat): nat {
    if d + 1 == RING then 0 else d + 1
  }

  lemma NextSlot(n: nat)
    ensures Slot(n + 1) == Bump(Slot(n))
    ensures Slot(0) == Slot(RING) == 0 && (n < RING ==> Slot(n) == n)
  {
  }

  lemma NextCount(n: nat)
    ensures Wrap64(Counted(n + 1)) == Wrap64(Wrap64(Counted(n)) + if n + 1 < RING then 0 else 1)
  {
  }

  lemma WrapNext(n: nat)
    ensures Wrap64(Wrap64(n) + 1) == Wrap64(n + 1)
  {
  }

  lemma WrapTwice(x: int)
    ensures Wrap64(Wrap64(x)) == Wrap64(x)
  {
  }

  /** What is reported after n receives, one taken off. */
  lemma Reported(n: nat)
    ensures Wrap64(Wrap64(Counted(n)) - 1) == if n < RING then TWO_64 - 1 else Wrap64(n - RING)
  {
  }

  class Emulator {
    const tx: array<Node>
    const rx: array<Node>
    const env: seq<Tick>      // after the last tick, SIGINT
    const other: Other
    var clock: nat
    var live: bool            // we_live
    // the variables of the loops
    var txd: nat
    var rxd: nat
    var burst32rxDone: nat
    var rxpkts: int
    var txpkts: int

    ghost var copies: seq<Copy>
    ghost var taken: seq<(nat, bool)>  // the slots taken by transmits, and whether the emulator owned them
    ghost var heads: seq<(nat, nat)>   // the cursors at every live head of the outer loop

    ghost predicate Shape()
      reads this
    {
      && tx.Length == rx.Length == RING && tx != rx && txd < RING && rxd < RING && clock <= |env|
    }

    /** What is so between any two receives. */
    ghost predicate Inv()
      reads this, rx
    {
      && Shape() && rxd == Slot(|copies|)
      && rxpkts == Wrap64(Counted(|copies|))
      && (other != RxThread ==> forall j :: |copies| <= j < RING ==> rx[j].own)
      && (forall n :: 0 <= n < |copies| ==> copies[n].owned && copies[n].rxSlot == copies[n].txSlot == Slot(n))
    }

    /** The n-th transmit took slot n mod 32, which the emulator owned, and each was counted. */
    ghost predicate Taken()
      reads this`taken, this`txpkts
    {
      && txpkts == Wrap64(|taken|)
      && forall n :: 0 <= n < |taken| ==> taken[n] == (Slot(n), true)
    }

    /** burst32rxDone counts the first 32 receives, which do not wait. */
    ghost predicate Started()
      reads this
    {
      live ==> burst32rxDone == if |copies| < RING then |copies| else RING
    }

    /** Time passes: the peer may act, and we_live may fall, never to rise again. */
    method Observe()
      requires Inv()
      modifies tx, rx, this`clock, this`live
      ensures Inv() && (live ==> old(live)) && (live ==> |env| - clock < old(|env| - clock)) && clock >= old(clock)
      ensures other != RxThread ==> forall j :: 0 <= j < RING && old(rx[j].own) ==> rx[j] == old(rx[j])
      ensures other != TxThread ==> forall j :: 0 <= j < RING && old(tx[j].own) ==> tx[j] == old(tx[j])
    {
      if clock == |env| {
        live := false;
        return;
      }
      var t := env[clock];
      clock := clock + 1;
      var txs := TakenBy(other, Handed(tx[..], t.tx, {}), t.otherTaken);
      var rxs := FilledBy(other, Handed(rx[..], map[], t.rx), t.otherFilled);
      forall j | 0 <= j < RING { tx[j] := txs[j]; }
      forall j | 0 <= j < RING { rx[j] := rxs[j]; }
      if t.signal {
        live := false;
      }
    }

    /** The start-up of main, over shared memory with whatever contents: once round both rings. */
    constructor (env: seq<Tick>, other: Other, tx0: seq<Node>, rx0: seq<Node>)
      requires |tx0| == |rx0| == RING
      ensures Inv() && Started() && Taken() && taken == [] && fresh(tx) && fresh(rx) && live && copies == []
          && heads == [] && txd == rxd == 0 && txpkts == 0 && this.other == other
      ensures forall j :: 0 <= j < RING ==>
                rx[j].own && !tx[j].own && rx[j].data == rx0[j].data && tx[j].data == tx0[j].data
    {
      tx := new Node[RING](j requires 0 <= j < RING => tx0[j]);
      rx := new Node[RING](j requires 0 <= j < RING => rx0[j]);
      this.env, this.other := env, other;
      clock, live, txd, rxd, burst32rxDone, rxpkts, txpkts := 0, true, 0, 0, 0, 0, 0;
      copies, taken, heads := [], [], [];
      new;
      InitRings();
    }

    method InitRings()
      requires Shape() && txd == rxd == 0
      modifies tx, rx, this`txd, this`rxd
      ensures txd == rxd == 0
      ensures forall j :: 0 <= j < RING ==> rx[j] == old(rx[j]).(own := true) && tx[j] == old(tx[j]).(own := false)
    {
      var again := true;
      ghost var n := 0;
      while again
        invariant if again then txd == rxd == n < RING else txd == rxd == 0 && n == RING
        invariant forall j :: 0 <= j < RING ==> rx[j] == if j < n then old(rx[j]).(own := true) else old(rx[j])
        invariant forall j :: 0 <= j < RING ==> tx[j] == if j < n then old(tx[j]).(own := false) else old(tx[j])
        decreases RING - n
      {
        rx[rxd] := rx[rxd].(own := true);
        rxd := Bump(rxd);
        tx[txd] := tx[txd].(own := false);
        txd := Bump(txd);
        again := rxd != 0;
        n := n + 1;
      }
    }

    /** One turn of a receive loop. While the flag stays up it copies transmit slot
        txd to receive slot rxd, which the emulator owns. */
    method RxOne()
      requires other != RxThread && Inv() && Started() && live && txd == rxd
      modifies tx, rx, this`clock, this`live, this`txd, this`rxd, this`burst32rxDone, this`rxpkts, this`copies
      ensures Inv() && Started() && clock >= old(clock)
      ensures if live then clock > old(clock) && txd == rxd == Bump(old(rxd)) && |copies| == |old(copies)| + 1
          else copies == old(copies)
      ensures old(copies) <= copies
    {
      if burst32rxDone == RING {
        AwaitRx();
      } else {
        burst32rxDone := burst32rxDone + 1;
      }
      Observe();
      if !live {
        return;
      }
      Transfer();
    }

    /** Wait until the emulator owns the receive buffer at hand, or the flag falls. */
    method AwaitRx()
      requires other != RxThread && Inv() && live
      modifies tx, rx, this`clock, this`live
      ensures Inv() && clock >= old(clock) && (live ==> rx[rxd].own)
    {
      while !rx[rxd].own && live
        invariant Inv() && clock >= old(clock)
        decreases live, |env| - clock
      {
        Observe();
      }
    }

    method Transfer()
      requires other != RxThread && Inv() && txd == rxd && rx[rxd].own
      requires burst32rxDone == if |copies| + 1 < RING then |copies| + 1 else RING
      modifies rx, this`txd, this`rxd, this`rxpkts, this`copies
      ensures Inv() && Started() && txd == rxd == Bump(old(rxd)) && |copies| == |old(copies)| + 1
          && old(copies) <= copies
      ensures copies[|old(copies)|].data == tx[old(txd)].data == rx[old(rxd)].data
    {
      hide Slot, Wrap64, Counted;
      NextSlot(|copies|);
      NextCount(|copies|);
      WrapTwice(Counted(|copies|));
      copies := copies + [Copy(txd, rxd, tx[txd].data, rx[rxd].own)];
      rx[rxd] := rx[rxd].(data := tx[txd].data);
      rx[rxd] := rx[rxd].(own := false);
      if burst32rxDone == RING {
        rxpkts := Wrap64(rxpkts + 1);
      }
      rxd := Bump(rxd);
      txd := Bump(txd);
    }

    /** One turn of a transmit loop: it takes the buffer at hand once the peer has handed it over. */
    method TxOne()
      requires other != TxThread && Inv() && Started() && Taken() && live && txd == Slot(|taken|)
      modifies tx, rx, this`clock, this`live, this`txd, this`txpkts, this`taken
      ensures Inv() && Started() && Taken() && clock >= old(clock)
      ensures live ==> txd == Slot(|taken|) && |taken| == |old(taken)| + 1 && clock > old(clock)
    {
      hide Taken, Slot, Wrap64;
      AwaitTx();
      Observe();
      if !live {
        return;
      }
      Take();
    }

    /** Wait until the emulator owns the transmit buffer at hand, or the flag falls. */
    method AwaitTx()
      requires other != TxThread && Inv() && live
      modifies tx, rx, this`clock, this`live
      ensures Inv() && clock >= old(clock) && (live ==> tx[txd].own)
    {
      while !tx[txd].own && live
        invariant Inv() && clock >= old(clock)
        decreases live, |env| - clock
      {
        Observe();
      }
    }

    /** The buffer at hand is taken. */
    method Take()
      requires Inv() && Started() && Taken() && txd == Slot(|taken|) && tx[txd].own
      modifies tx, this`txd, this`txpkts, this`taken
      ensures Inv() && Started() && Taken() && txd == Slot(|taken|) && |taken| == |old(taken)| + 1
    {
      hide Slot, Wrap64, Counted;
      NextSlot(|taken|);
      WrapNext(|taken|);
      taken := taken + [(txd, tx[txd].own)];
      tx[txd] := tx[txd].(own := false);
      txpkts := Wrap64(txpkts + 1);
      txd := Bump(txd);
    }

    /** The receive burst of loop_rxtx: while the flag stays up it goes once round both rings. */
    method RxBurst()
      requires other != RxThread && Inv() && Started() && txd == rxd == 0
      modifies tx, rx, this`clock, this`live, this`txd, this`rxd, this`burst32rxDone, this`rxpkts, this`copies
      ensures Inv() && Started() && clock >= old(clock) && old(copies) <= copies
      ensures live ==> txd == rxd == 0 && clock > old(clock)
    {
      hide Slot, Wrap64, Counted;
      NextSlot(0);
      for burst := 0 to RING
        invariant Inv() && Started() && clock >= old(clock) && old(copies) <= copies
        invariant live ==> txd == rxd == Slot(burst) && (burst > 0 ==> clock > old(clock))
      {
        if !live {
          break;
        }
        NextSlot(burst);
        RxOne();
      }
    }

    /** The transmit burst of loop_rxtx, and of its start with tx first. */
    method TxBurst()
      requires other != TxThread && Inv() && Started() && Taken() && txd == Slot(|taken|) == 0
      modifies tx, rx, this`clock, this`live, this`txd, this`txpkts, this`taken
      ensures Inv() && Started() && Taken() && clock >= old(clock)
      ensures live ==> txd == Slot(|taken|) == 0
    {
      hide Wrap64, Counted;
      for burst := 0 to RING
        invariant Inv() && Started() && Taken() && clock >= old(clock)
        invariant live ==> txd == Slot(|taken|) && |taken| == |old(taken)| + burst
      {
        if !live {
          break;
        }
        TxOne();
      }
    }

    /** loop_rxtx. Both cursors are at the base of their rings at every live head of the
        outer loop. The n-th receive copies transmit slot n mod 32 to receive slot
        n mod 32, which the emulator owns. The count reported is that of the receives
        but the first 32, or 2^64 - 1 if there were fewer; or 0 if the flag fell before
        the outer loop was entered. */
    method LoopRxTx(txFirst: bool) returns (rxReported: int, txReported: int, ghost counted: bool)
      requires other == Nobody
      requires Inv() && Started() && copies == [] && heads == [] && txd == rxd == 0 && Taken() && taken == []
      modifies tx, rx, this`clock, this`live, this`txd, this`rxd, this`burst32rxDone, this`rxpkts, this`txpkts,
          this`taken, this`copies, this`heads
      ensures forall n :: 0 <= n < |copies| ==> copies[n].owned && copies[n].rxSlot == copies[n].txSlot == Slot(n)
      ensures (forall n :: 0 <= n < |taken| ==> taken[n] == (Slot(n), true)) && txReported == Wrap64(|taken|)
      ensures forall h <- heads :: h == (0, 0)
      ensures rxReported == if !counted then 0 else if |copies| < RING then TWO_64 - 1 else Wrap64(|copies| - RING)
      ensures counted <==> heads != []
      ensures !counted ==> copies == []
      ensures !txFirst ==> (counted <==> old(live))
    {
      assert Wrap64(Counted(0)) == 0;
      NextSlot(0);
      hide Slot, Wrap64;
      if txFirst {
        TxBurst();
      }
      if !live {
        return rxpkts, txpkts, false;
      }
      while live
        invariant Inv() && Started() && Taken() && (live ==> txd == rxd == Slot(|taken|) == 0)
        invariant (forall h <- heads :: h == (0, 0)) && (live || heads != [])
        decreases live, |env| - clock
      {
        heads := heads + [(txd, rxd)];
        RxBurst();
        if live {
          TxBurst();
        }
      }
      Reported(|copies|);
      rxpkts := Wrap64(rxpkts - 1);
      return rxpkts, txpkts, true;
    }

    /** loop_rxonly: the same receives, without regard to what the peer hands over to
        transmit, alone or with loop_txonly in the other thread. */
    method LoopRxOnly() returns (rxReported: int)
      requires other != RxThread && Inv() && Started() && copies == [] && txd == rxd == 0
      modifies tx, rx, this`clock, this`live, this`txd, this`rxd, this`burst32rxDone, this`rxpkts, this`copies
      ensures forall n :: 0 <= n < |copies| ==> copies[n].owned && copies[n].rxSlot == copies[n].txSlot == Slot(n)
      ensures rxReported == if |copies| < RING then TWO_64 - 1 else Wrap64(|copies| - RING)
    {
      hide Slot, Wrap64;
      while live
        invariant Inv() && Started() && (live ==> txd == rxd)
        decreases live, |env| - clock
      {
        RxOne();
      }
      Reported(|copies|);
      rxpkts := Wrap64(rxpkts - 1);
      return rxpkts;
    }

    /** loop_txonly: the transmits, alone or with loop_rxonly in the other thread. */
    method LoopTxOnly() returns (txReported: int)
      requires other != TxThread && Inv() && Started() && Taken() && taken == [] && txd == 0
      modifies tx, rx, this`clock, this`live, this`txd, this`txpkts, this`taken
      ensures (forall n :: 0 <= n < |taken| ==> taken[n] == (Slot(n), true)) && txReported == Wrap64(|taken|)
    {
      NextSlot(0);
      while live
        invariant Inv() && Started() && Taken() && (live ==> txd == Slot(|taken|))
        decreases live, |env| - clock
      {
        TxOne();
      }
      return txpkts;
    }
  }
}
