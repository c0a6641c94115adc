/** The e1000 transmit ring: mapping, queueing and reclaiming packets. */
module E1000TxRing {
  import opened E1000TxMap
  import opened NetDev
  import opened Ring
  import opened Words
  import opened Wrappers

  /** struct e1000_tx_buffer; dma == 0 means "not mapped". */
  datatype TxBuffer = TxBuffer(skb: Option<Skb>, dma: nat, length: nat, mappedAsPage: bool,
                               segs: nat, bytecount: nat, nextToWatch: nat)

  /** The parts of struct e1000_tx_desc the ring logic reads or relies on:
      `eop` is the report-status command of a packet's last descriptor and `dd`
      the status bit with which the hardware answers it. */
  datatype TxDesc = TxDesc(addr: nat, length: nat, eop: bool, dd: bool)

  /** A packet that owns slots of the ring: an optional context slot, whose
      buffer record may hold a stale handle, then one slot per chunk. */
  datatype Flight = Flight(skb: Skb, ctx: bool, ctxDma: nat, chunks: seq<Chunk>, dmas: seq<nat>)
  {
    function Slots(): nat {
      One(ctx) + |chunks|
    }

    /** The handles that reclaiming the packet releases, in order. */
    function Handles(): seq<nat> {
      (if ctx then Log(ctxDma) else []) + dmas
    }
  }

  function ByteCount(skb: Skb): nat {
    (GsoSegs(skb) - 1) * skb.head.len + SkbLen(skb)
  }

  function GsoSegs(skb: Skb): (s: nat)
    ensures s >= 1
  {
    if skb.segs == 0 then 1 else skb.segs
  }

  function QueueSlots(q: seq<Flight>): nat {
    if q == [] then 0 else q[0].Slots() + QueueSlots(q[1..])
  }

  function QueueSkbs(q: seq<Flight>): seq<Skb> {
    if q == [] then [] else [q[0].skb] + QueueSkbs(q[1..])
  }

  function QueueHandles(q: seq<Flight>): seq<nat> {
    if q == [] then [] else q[0].Handles() + QueueHandles(q[1..])
  }

  function SkbBytes(skbs: seq<Skb>): nat {
    if skbs == [] then 0 else SkbLen(skbs[0]) + SkbBytes(skbs[1..])
  }

  /** Slot k of a packet that starts at slot `start`. */
  ghost predicate SlotOk(b: seq<TxBuffer>, d: seq<TxDesc>, start: nat, f: Flight, k: nat)
    requires |b| == |d| && start < |b| && k < f.Slots() <= |b| && |f.dmas| == |f.chunks|
  {
    var j := Wrap(start + k, |b|);
    var c := k - One(f.ctx);
    && (b[j].skb == if k == f.Slots() - 1 then Some(f.skb) else None)
    && (k < f.Slots() - 1 ==> !d[j].dd)
    && (c < 0 ==> b[j].dma == f.ctxDma)
    && (c >= 0 ==>
          && b[j].dma == f.dmas[c] != 0 && b[j].length == f.chunks[c].len
          && d[j].addr == f.dmas[c] && d[j].length == f.chunks[c].len
          && d[j].eop == (k == f.Slots() - 1))
  }

  ghost predicate FlightOk(b: seq<TxBuffer>, d: seq<TxDesc>, start: nat, f: Flight)
    requires |b| == |d| && start < |b|
  {
    && |f.dmas| == |f.chunks| && 0 < |f.chunks| && f.Slots() < |b|
    && (forall k :: 0 <= k < f.Slots() ==> SlotOk(b, d, start, f, k))
    && b[start].nextToWatch == Wrap(start + f.Slots() - 1, |b|)
    && var last := Wrap(start + f.Slots() - 1, |b|);
       b[last].segs == GsoSegs(f.skb) && b[last].bytecount == ByteCount(f.skb)
  }

  /** The packets of q own consecutive slots from `start` on. */
  ghost predicate Laid(b: seq<TxBuffer>, d: seq<TxDesc>, start: nat, q: seq<Flight>)
    requires |b| == |d| && start < |b|
    decreases |q|
  {
    q != [] ==>
      && FlightOk(b, d, start, q[0])
      && Laid(b, d, Wrap(start + q[0].Slots(), |b|), q[1..])
  }

  /** How many packets at the head of the queue the hardware has finished. */
  ghost function DonePrefix(d: seq<TxDesc>, start: nat, q: seq<Flight>): (k: nat)
    requires start < |d|
    ensures k <= |q|
    decreases |q|
  {
    if q == [] || q[0].Slots() == 0 || q[0].Slots() > |d| then 0
    else if !d[Wrap(start + q[0].Slots() - 1, |d|)].dd then 0
    else 1 + DonePrefix(d, Wrap(start + q[0].Slots(), |d|), q[1..])
  }

  // Slots outside the queue do not matter to it.
  lemma {:induction false} LaidFrame(b: seq<TxBuffer>, d: seq<TxDesc>, b': seq<TxBuffer>, d': seq<TxDesc>,
                                     start: nat, q: seq<Flight>)
    requires |b| == |d| == |b'| == |d'| && start < |b| && QueueSlots(q) < |b|
    requires Laid(b, d, start, q)
    requires Same(b, b', start, 0, QueueSlots(q)) && Same(d, d', start, 0, QueueSlots(q))
    ensures Laid(b', d', start, q)
    decreases |q|
  {
    if q != [] {
      FlightFrame(b, d, b', d', start, q[0]);
      var next := Wrap(start + q[0].Slots(), |b|);
      SameShift(b, b', start, q[0].Slots(), QueueSlots(q));
      SameShift(d, d', start, q[0].Slots(), QueueSlots(q));
      LaidFrame(b, d, b', d', next, q[1..]);
    }
  }

  lemma FlightFrame(b: seq<TxBuffer>, d: seq<TxDesc>, b': seq<TxBuffer>, d': seq<TxDesc>, start: nat, f: Flight)
    requires |b| == |d| == |b'| == |d'| && start < |b|
    requires FlightOk(b, d, start, f)
    requires Same(b, b', start, 0, f.Slots()) && Same(d, d', start, 0, f.Slots())
    ensures FlightOk(b', d', start, f)
  {
    forall k | 0 <= k < f.Slots()
      ensures b'[Wrap(start + k, |b|)] == b[Wrap(start + k, |b|)] && d'[Wrap(start + k, |b|)] == d[Wrap(start + k, |b|)]
      ensures SlotOk(b', d', start, f, k)
    {
      DistOf(start, k, |b|);
      assert SlotOk(b, d, start, f, k);
    }
    DistOf(start, 0, |b|);
    DistOf(start, f.Slots() - 1, |b|);
  }

  lemma {:induction false} SlotsAppend(q: seq<Flight>, f: Flight)
    ensures QueueSlots(q + [f]) == QueueSlots(q) + f.Slots()
  {
    if q == [] {
      assert q + [f] == [f];
    } else {
      SlotsAppend(q[1..], f);
      assert (q + [f])[0] == q[0] && (q + [f])[1..] == q[1..] + [f];
    }
  }

  lemma {:induction false} SkbsAppend(q: seq<Flight>, f: Flight)
    ensures QueueSkbs(q + [f]) == QueueSkbs(q) + [f.skb]
  {
    if q == [] {
      assert q + [f] == [f];
    } else {
      SkbsAppend(q[1..], f);
      assert (q + [f])[0] == q[0] && (q + [f])[1..] == q[1..] + [f];
    }
  }

  lemma {:induction false} SkbsConcat(q: seq<Flight>, r: seq<Flight>)
    ensures QueueSkbs(q + r) == QueueSkbs(q) + QueueSkbs(r)
    decreases |r|
  {
    if r == [] {
      assert q + r == q;
    } else {
      hide QueueSkbs;
      var rest, f := r[..|r| - 1], r[|r| - 1];
      assert r == rest + [f] && q + r == (q + rest) + [f];
      SkbsConcat(q, rest);
      SkbsAppend(q + rest, f);
      SkbsAppend(rest, f);
    }
  }

  lemma {:induction false} HandlesAppend(q: seq<Flight>, f: Flight)
    ensures QueueHandles(q + [f]) == QueueHandles(q) + f.Handles()
  {
    if q == [] {
      assert q + [f] == [f];
    } else {
      HandlesAppend(q[1..], f);
      assert (q + [f])[0] == q[0] && (q + [f])[1..] == q[1..] + [f];
    }
  }

  lemma {:induction false} LaidAppend(b: seq<TxBuffer>, d: seq<TxDesc>, start: nat, q: seq<Flight>, f: Flight)
    requires |b| == |d| && start < |b| && QueueSlots(q) + f.Slots() < |b|
    requires Laid(b, d, start, q) && FlightOk(b, d, Wrap(start + QueueSlots(q), |b|), f)
    ensures Laid(b, d, start, q + [f])
    decreases |q|
  {
    hide FlightOk;
    if q == [] {
      assert (q + [f])[0] == f && (q + [f])[1..] == [];
    } else {
      var next := Wrap(start + q[0].Slots(), |b|);
      assert QueueSlots(q) == q[0].Slots() + QueueSlots(q[1..]);
      assert Wrap(next + QueueSlots(q[1..]), |b|) == Wrap(start + QueueSlots(q), |b|);
      LaidAppend(b, d, next, q[1..], f);
      assert (q + [f])[0] == q[0] && (q + [f])[1..] == q[1..] + [f];
    }
  }

  // --------------------------------------------------------- the ring state

  /** The consistent states of the ring: the queue owns exactly the slots from
      `clean` up to `use`; the other slots hold no packet and no status bit. */
  ghost predicate RingOk(b: seq<TxBuffer>, d: seq<TxDesc>, clean: nat, use: nat, q: seq<Flight>) {
    && |b| == |d| && clean < |b| && use < |b|
    && QueueSlots(q) == Dist(clean, use, |b|)
    && Laid(b, d, clean, q)
    && (forall j :: 0 <= j < |b| ==> b[j].nextToWatch < |b|)
    && FreeFrom(b, d, clean, QueueSlots(q))
  }

  predicate FreeSlot(b: TxBuffer, d: TxDesc) {
    b.skb == None && !d.dd
  }

  /** Every mapping ever made was given back or belongs to a queued packet, in
      order, and no slot outside a packet remembers a handle. */
  ghost predicate TidyRing(b: seq<TxBuffer>, clean: nat, q: seq<Flight>, mapped: seq<nat>, unmapped: seq<nat>) {
    && clean < |b|
    && (forall j :: 0 <= j < |b| && Dist(clean, j, |b|) >= QueueSlots(q) ==> b[j].dma == 0)
    && mapped == unmapped + QueueHandles(q)
  }

  /** Outside the s slots from `first` on, (b', d') is (b, d). */
  ghost predicate ChangedWithin(b: seq<TxBuffer>, d: seq<TxDesc>, b': seq<TxBuffer>, d': seq<TxDesc>, first: nat,
      s: nat)
    requires |b| == |d| == |b'| == |d'| && first < |b|
  {
    Same(b, b', first, s, |b|) && Same(d, d', first, s, |d|)
  }

  lemma EnqueueLaid(b: seq<TxBuffer>, d: seq<TxDesc>, b': seq<TxBuffer>, d': seq<TxDesc>, clean: nat, q: seq<Flight>,
      f: Flight)
    requires |b| == |d| == |b'| == |d'| && clean < |b| && QueueSlots(q) + f.Slots() < |b|
    requires Laid(b, d, clean, q)
    requires Same(b, b', clean, 0, QueueSlots(q)) && Same(d, d', clean, 0, QueueSlots(q))
    requires FlightOk(b', d', Wrap(clean + QueueSlots(q), |b|), f)
    ensures Laid(b', d', clean, q + [f])
  {
    hide FlightOk;
    LaidFrame(b, d, b', d', clean, q);
    LaidAppend(b', d', clean, q, f);
  }

  /** The slots at distance s and beyond are free. */
  ghost predicate FreeFrom(b: seq<TxBuffer>, d: seq<TxDesc>, clean: nat, s: nat)
    requires |b| == |d| && clean < |b|
  {
    forall j :: 0 <= j < |b| && Dist(clean, j, |b|) >= s ==> FreeSlot(b[j], d[j])
  }

  /** Adding a packet behind the queue. */
  lemma Enqueue(b: seq<TxBuffer>, d: seq<TxDesc>, b': seq<TxBuffer>, d': seq<TxDesc>, clean: nat, use: nat,
      q: seq<Flight>, f: Flight)
    requires RingOk(b, d, clean, use, q) && |b'| == |d'| == |b|
    requires f.Slots() <= Unused(clean, use, |b|)
    requires ChangedWithin(b, d, b', d', use, f.Slots()) && FlightOk(b', d', use, f)
    requires forall j :: 0 <= j < |b'| ==> b'[j].nextToWatch < |b'|
    ensures RingOk(b', d', clean, Wrap(use + f.Slots(), |b|), q + [f])
  {
    hide FlightOk, FreeSlot, Laid, FreeFrom, Same, QueueSlots;
    SlotsAppend(q, f);
    assert Wrap(clean + QueueSlots(q), |b|) == use;
    SameBefore(b, b', clean, QueueSlots(q), f.Slots());
    SameBefore(d, d', clean, QueueSlots(q), f.Slots());
    EnqueueLaid(b, d, b', d', clean, q, f);
    EnqueueFree(b, d, b', d', clean, QueueSlots(q), QueueSlots(q) + f.Slots());
  }

  lemma EnqueueFree(b: seq<TxBuffer>, d: seq<TxDesc>, b': seq<TxBuffer>, d': seq<TxDesc>, clean: nat, s: nat, t: nat)
    requires |b| == |d| == |b'| == |d'| && clean < |b| && s <= t
    requires FreeFrom(b, d, clean, s) && Same(b, b', clean, t, |b|) && Same(d, d', clean, t, |d|)
    ensures FreeFrom(b', d', clean, t)
  {
    forall j | 0 <= j < |b| && Dist(clean, j, |b|) >= t ensures FreeSlot(b'[j], d'[j]) {
      assert b'[j] == b[j] && d'[j] == d[j];
    }
  }

  // A change confined to `len` slots right behind the s slots from a on.
  lemma SameBefore<T>(x: seq<T>, y: seq<T>, a: nat, s: nat, len: nat)
    requires |x| == |y| && a < |x| && s + len < |x| && Same(x, y, Wrap(a + s, |x|), len, |x|)
    ensures Same(x, y, a, 0, s) && Same(x, y, a, s + len, |x|)
  {
    forall j | 0 <= j < |x| && !(s <= Dist(a, j, |x|) < s + len) ensures x[j] == y[j] {
      DistShift(a, s, j, |x|);
    }
  }

  lemma EnqueueTidy(b: seq<TxBuffer>, b': seq<TxBuffer>, clean: nat, use: nat, q: seq<Flight>, f: Flight,
      mapped: seq<nat>, unmapped: seq<nat>)
    requires clean < |b| == |b'| && use < |b| && QueueSlots(q) == Dist(clean, use, |b|)
    requires TidyRing(b, clean, q, mapped, unmapped) && Same(b, b', use, f.Slots(), |b|)
    requires f.Slots() <= Unused(clean, use, |b|) && (f.ctx ==> f.ctxDma == 0)
    ensures TidyRing(b', clean, q + [f], mapped + f.dmas, unmapped)
  {
    hide QueueSlots, QueueHandles;
    SlotsAppend(q, f);
    HandlesAppend(q, f);
    assert f.Handles() == f.dmas;
    SameBefore(b, b', clean, QueueSlots(q), f.Slots());
    assert mapped + f.dmas == unmapped + (QueueHandles(q) + f.dmas);
  }

  // ------------------------------------------------------------- reclaiming

  /** The first `done` slots from `clean` on are released; all others are as before. */
  ghost predicate Released(b: seq<TxBuffer>, d: seq<TxDesc>, b0: seq<TxBuffer>, d0: seq<TxDesc>, clean: nat,
      done: nat) {
    |b| == |d| == |b0| == |d0| && clean < |b|
    && forall j :: 0 <= j < |b| ==>
         if Dist(clean, j, |b|) < done
         then b[j] == b0[j].(dma := 0, skb := None) && d[j] == d0[j].(dd := false)
         else b[j] == b0[j] && d[j] == d0[j]
  }

  lemma ReleaseStep(b: seq<TxBuffer>, d: seq<TxDesc>, b0: seq<TxBuffer>, d0: seq<TxDesc>, clean: nat, done: nat)
    requires Released(b, d, b0, d0, clean, done) && done < |b|
    ensures var j := Wrap(clean + done, |b|);
            b[j] == b0[j] && Released(b[j := b[j].(dma := 0, skb := None)], d[j := d[j].(dd := false)], b0, d0, clean,
                done + 1)
  {
    DistOf(clean, done, |b|);
  }

  lemma ReleaseNone(b: seq<TxBuffer>, d: seq<TxDesc>, clean: nat)
    requires |b| == |d| && clean < |b|
    ensures Released(b, d, b, d, clean, 0)
  {
  }

  lemma UntouchedAt(b: seq<TxBuffer>, d: seq<TxDesc>, b0: seq<TxBuffer>, d0: seq<TxDesc>, clean: nat, done: nat)
    requires Released(b, d, b0, d0, clean, done) && done < |b|
    ensures b[Wrap(clean + done, |b|)] == b0[Wrap(clean + done, |b|)]
  {
    DistOf(clean, done, |b|);
  }

  /** The rest of the queue is untouched ... */
  lemma ReleasedLaid(b: seq<TxBuffer>, d: seq<TxDesc>, b0: seq<TxBuffer>, d0: seq<TxDesc>, clean: nat, q: seq<Flight>)
    requires |b0| == |d0| && clean < |b0| && QueueSlots(q) < |b0| && Laid(b0, d0, clean, q) && q != []
    requires Released(b, d, b0, d0, clean, q[0].Slots())
    ensures Laid(b, d, Wrap(clean + q[0].Slots(), |b|), q[1..])
  {
    hide FlightOk;
    var n, s := |b|, q[0].Slots();
    var next := Wrap(clean + s, n);
    forall j | 0 <= j < n && Dist(next, j, n) < QueueSlots(q[1..]) ensures b[j] == b0[j] && d[j] == d0[j] {
      DistShift(clean, s, j, n);
    }
    LaidFrame(b0, d0, b, d, next, q[1..]);
  }

  /** ... the other slots are free ... */
  lemma ReleasedFree(b: seq<TxBuffer>, d: seq<TxDesc>, b0: seq<TxBuffer>, d0: seq<TxDesc>, clean: nat, s: nat,
      rest: nat)
    requires |b0| == |d0| && clean < |b0| && s + rest < |b0| && Released(b, d, b0, d0, clean, s)
    requires FreeFrom(b0, d0, clean, s + rest)
    ensures FreeFrom(b, d, Wrap(clean + s, |b|), rest)
  {
    var n := |b|;
    forall j | 0 <= j < n && Dist(Wrap(clean + s, n), j, n) >= rest ensures FreeSlot(b[j], d[j]) {
      DistShift(clean, s, j, n);
      if Dist(clean, j, n) >= s {
        assert FreeSlot(b0[j], d0[j]);
      }
    }
  }

  /** ... so releasing all slots of the oldest packet takes it off the queue. */
  lemma ReleasedKeeps(b: seq<TxBuffer>, d: seq<TxDesc>, b0: seq<TxBuffer>, d0: seq<TxDesc>, clean: nat, use: nat,
                      q: seq<Flight>)
    requires RingOk(b0, d0, clean, use, q) && q != [] && Released(b, d, b0, d0, clean, q[0].Slots())
    requires q[0].Slots() < |b|
    ensures RingOk(b, d, Wrap(clean + q[0].Slots(), |b|), use, q[1..])
  {
    hide FlightOk, Laid, FreeFrom;
    ReleasedLaid(b, d, b0, d0, clean, q);
    ReleasedFree(b, d, b0, d0, clean, q[0].Slots(), QueueSlots(q[1..]));
  }

  lemma ReleasedTidy(b: seq<TxBuffer>, d: seq<TxDesc>, b0: seq<TxBuffer>, d0: seq<TxDesc>, clean: nat, q: seq<Flight>,
                     mapped: seq<nat>, unmapped: seq<nat>)
    requires q != [] && Released(b, d, b0, d0, clean, q[0].Slots()) && QueueSlots(q) < |b|
    requires TidyRing(b0, clean, q, mapped, unmapped)
    ensures TidyRing(b, Wrap(clean + q[0].Slots(), |b|), q[1..], mapped, unmapped + q[0].Handles())
  {
    var n, s := |b|, q[0].Slots();
    var next := Wrap(clean + s, n);
    forall j | 0 <= j < n && Dist(next, j, n) >= QueueSlots(q[1..]) ensures b[j].dma == 0 {
      DistShift(clean, s, j, n);
    }
  }

  /** What releasing the first k slots of a packet gives back. */
  ghost function SlotHandles(b: seq<TxBuffer>, clean: nat, k: nat): seq<nat>
    requires clean < |b| && k <= |b|
  {
    if k == 0 then [] else SlotHandles(b, clean, k - 1) + Log(b[Wrap(clean + (k - 1), |b|)].dma)
  }

  lemma SlotHandlesStep(b: seq<TxBuffer>, clean: nat, k: nat)
    requires clean < |b| && k < |b|
    ensures SlotHandles(b, clean, k + 1) == SlotHandles(b, clean, k) + Log(b[Wrap(clean + k, |b|)].dma)
  {
  }

  lemma {:induction false} SlotHandlesAre(b: seq<TxBuffer>, d: seq<TxDesc>, clean: nat, f: Flight, k: nat)
    requires |b| == |d| && clean < |b| && FlightOk(b, d, clean, f) && One(f.ctx) <= k <= f.Slots()
    ensures SlotHandles(b, clean, k) == (if f.ctx then Log(f.ctxDma) else []) + f.dmas[..k - One(f.ctx)]
  {
    hide SlotHandles, SlotOk;
    SlotHandlesNone(b, clean);
    if k == One(f.ctx) {
      if f.ctx {
        SlotHandlesStep(b, clean, 0);
        SlotDma(b, d, clean, f, 0);
      }
    } else {
      SlotHandlesAre(b, d, clean, f, k - 1);
      SlotHandlesStep(b, clean, k - 1);
      SlotDma(b, d, clean, f, k - 1);
      var c := One(f.ctx);
      assert f.dmas[..k - c] == f.dmas[..k - 1 - c] + [f.dmas[k - 1 - c]];
      Associative(if f.ctx then Log(f.ctxDma) else [], f.dmas[..k - 1 - c], [f.dmas[k - 1 - c]]);
    }
  }

  lemma SlotHandlesNone(b: seq<TxBuffer>, clean: nat)
    requires clean < |b|
    ensures SlotHandles(b, clean, 0) == []
  {
  }

  lemma SlotDma(b: seq<TxBuffer>, d: seq<TxDesc>, clean: nat, f: Flight, k: nat)
    requires |b| == |d| && clean < |b| && FlightOk(b, d, clean, f) && k < f.Slots()
    ensures Log(b[Wrap(clean + k, |b|)].dma) == if k < One(f.ctx) then Log(f.ctxDma) else [f.dmas[k - One(f.ctx)]]
  {
    assert SlotOk(b, d, clean, f, k);
  }

  lemma HeadFacts(b: seq<TxBuffer>, d: seq<TxDesc>, clean: nat, f: Flight)
    requires |b| == |d| && clean < |b| && FlightOk(b, d, clean, f)
    ensures 0 < f.Slots() < |b| && b[clean].nextToWatch == Wrap(clean + f.Slots() - 1, |b|)
    ensures var last := b[clean].nextToWatch;
            b[last].segs == GsoSegs(f.skb) && b[last].bytecount == ByteCount(f.skb) && b[last].skb == Some(f.skb)
    ensures SlotHandles(b, clean, 0) == [] && SlotHandles(b, clean, f.Slots()) == f.Handles()
  {
    SlotHandlesAre(b, d, clean, f, f.Slots());
    assert f.dmas[..|f.chunks|] == f.dmas;
    assert SlotOk(b, d, clean, f, f.Slots() - 1);
  }

  lemma {:induction false} DoneFrame(d: seq<TxDesc>, d': seq<TxDesc>, start: nat, q: seq<Flight>)
    requires |d| == |d'| && start < |d| && QueueSlots(q) < |d| && Same(d, d', start, 0, QueueSlots(q))
    requires forall f <- q :: f.Slots() > 0
    ensures DonePrefix(d', start, q) == DonePrefix(d, start, q)
    decreases |q|
  {
    if q != [] {
      assert q[0] in q;
      DistOf(start, q[0].Slots() - 1, |d|);
      SameShift(d, d', start, q[0].Slots(), QueueSlots(q));
      DoneFrame(d, d', Wrap(start + q[0].Slots(), |d|), q[1..]);
    }
  }

  lemma {:induction false} LaidSlots(b: seq<TxBuffer>, d: seq<TxDesc>, start: nat, q: seq<Flight>)
    requires |b| == |d| && start < |b| && Laid(b, d, start, q)
    ensures forall f <- q :: f.Slots() > 0
    decreases |q|
  {
    if q != [] {
      LaidSlots(b, d, Wrap(start + q[0].Slots(), |b|), q[1..]);
      assert forall f <- q :: f == q[0] || f in q[1..];
    }
  }

  /** The last slot of packet k of a queue that starts at slot `start`. */
  ghost function EndSlot(start: nat, q: seq<Flight>, k: nat, n: nat): (end: nat)
    requires k < |q| && start < n && QueueSlots(q) < n
    ensures end < n
    decreases |q|
  {
    var next := Wrap(start + q[0].Slots(), n);
    if k == 0 then Back(next, n) else EndSlot(next, q[1..], k - 1, n)
  }

  lemma LaidHeadDone(b: seq<TxBuffer>, d: seq<TxDesc>, start: nat, q: seq<Flight>)
    requires |b| == |d| && start < |b| && QueueSlots(q) < |b| && Laid(b, d, start, q) && q != []
    ensures var end := EndSlot(start, q, 0, |b|);
            && Dist(start, end, |b|) < QueueSlots(q)
            && Laid(b, d[end := d[end].(dd := true)], start, q)
  {
    hide FlightOk;
    var n, s := |b|, q[0].Slots();
    HeadLaid(b, d, start, q);
    var next, end := Wrap(start + s, n), EndSlot(start, q, 0, n);
    var d' := d[end := d[end].(dd := true)];
    FlightDone(b, d, start, q[0]);
    forall j | 0 <= j < n && Dist(next, j, n) < QueueSlots(q[1..]) ensures d'[j] == d[j] {
      DistShift(start, s, j, n);
    }
    LaidFrame(b, d, b, d', next, q[1..]);
  }

  /** The hardware answering a packet's report-status command keeps the queue laid out. */
  lemma {:induction false} LaidDone(b: seq<TxBuffer>, d: seq<TxDesc>, start: nat, q: seq<Flight>, k: nat)
    requires |b| == |d| && start < |b| && QueueSlots(q) < |b| && Laid(b, d, start, q) && k < |q|
    ensures var end := EndSlot(start, q, k, |b|);
            && Dist(start, end, |b|) < QueueSlots(q)
            && Laid(b, d[end := d[end].(dd := true)], start, q)
    decreases |q|
  {
    hide FlightOk;
    var n, s := |b|, q[0].Slots();
    HeadLaid(b, d, start, q);
    if k == 0 {
      LaidHeadDone(b, d, start, q);
    } else {
      var next, end := Wrap(start + s, n), EndSlot(start, q, k, n);
      LaidDone(b, d, next, q[1..], k - 1);
      DistShift(start, s, end, n);
      FlightFrame(b, d, b, d[end := d[end].(dd := true)], start, q[0]);
    }
  }

  lemma HeadLaid(b: seq<TxBuffer>, d: seq<TxDesc>, start: nat, q: seq<Flight>)
    requires |b| == |d| && start < |b| && Laid(b, d, start, q) && q != []
    ensures 0 < q[0].Slots() < |b| && QueueSlots(q) == q[0].Slots() + QueueSlots(q[1..])
    ensures Dist(start, Wrap(start + q[0].Slots() - 1, |b|), |b|) == q[0].Slots() - 1
  {
    DistOf(start, q[0].Slots() - 1, |b|);
  }

  lemma FlightDone(b: seq<TxBuffer>, d: seq<TxDesc>, start: nat, f: Flight)
    requires |b| == |d| && start < |b| && FlightOk(b, d, start, f)
    ensures var end := Wrap(start + f.Slots() - 1, |b|);
            FlightOk(b, d[end := d[end].(dd := true)], start, f)
  {
    var n, s := |b|, f.Slots();
    var end := Wrap(start + s - 1, n);
    var d' := d[end := d[end].(dd := true)];
    DistOf(start, s - 1, n);
    forall i | 0 <= i < s ensures SlotOk(b, d', start, f, i) {
      DistOf(start, i, n);
      assert SlotOk(b, d, start, f, i);
    }
  }

  /** How far the hardware is carries over to the rest of the queue. */
  lemma DoneStep(b: seq<TxBuffer>, d: seq<TxDesc>, b0: seq<TxBuffer>, d0: seq<TxDesc>, clean: nat, use: nat,
      q: seq<Flight>)
    requires RingOk(b0, d0, clean, use, q) && q != [] && Released(b, d, b0, d0, clean, q[0].Slots())
    requires d0[Wrap(clean + q[0].Slots() - 1, |d0|)].dd
    ensures DonePrefix(d0, clean, q) == 1 + DonePrefix(d, Wrap(clean + q[0].Slots(), |d|), q[1..])
  {
    hide FlightOk, Laid;
    var n, s := |b|, q[0].Slots();
    var next := Wrap(clean + s, n);
    LaidSlots(b0, d0, clean, q);
    assert q[0] in q;
    forall j | 0 <= j < n && Dist(next, j, n) < QueueSlots(q[1..]) ensures d[j] == d0[j] {
      DistShift(clean, s, j, n);
    }
    DoneFrame(d0, d, next, q[1..]);
  }

  /** What `next_to_watch` of the next slot to clean leads to: the end of the
      oldest packet, or, with nothing queued, a slot without status bit. */
  lemma WatchHead(b: seq<TxBuffer>, d: seq<TxDesc>, clean: nat, use: nat, q: seq<Flight>)
    requires RingOk(b, d, clean, use, q)
    ensures |b| == |d| && clean < |b| && b[clean].nextToWatch < |b|
    ensures q == [] ==> !d[b[clean].nextToWatch].dd && DonePrefix(d, clean, q) == 0
    ensures q != [] ==> FlightOk(b, d, clean, q[0]) && b[clean].nextToWatch == Wrap(clean + q[0].Slots() - 1, |b|)
    ensures !d[b[clean].nextToWatch].dd ==> DonePrefix(d, clean, q) == 0
  {
    if q == [] {
      assert FreeSlot(b[b[clean].nextToWatch], d[b[clean].nextToWatch]);
    }
  }

  /** What a reclaimed prefix of the queue adds to the statistics. */
  function QueueSegs(q: seq<Flight>): nat {
    if q == [] then 0 else GsoSegs(q[0].skb) + QueueSegs(q[1..])
  }

  function QueueBytes(q: seq<Flight>): nat {
    if q == [] then 0 else ByteCount(q[0].skb) + QueueBytes(q[1..])
  }

  lemma QueueHead(q: seq<Flight>)
    requires q != []
    ensures QueueSlots(q) == q[0].Slots() + QueueSlots(q[1..])
  {
  }

  lemma {:induction false} StatsAppend(q: seq<Flight>, f: Flight)
    ensures QueueSegs(q + [f]) == QueueSegs(q) + GsoSegs(f.skb)
    ensures QueueBytes(q + [f]) == QueueBytes(q) + ByteCount(f.skb)
  {
    if q == [] {
      assert q + [f] == [f];
    } else {
      StatsAppend(q[1..], f);
      assert (q + [f])[0] == q[0] && (q + [f])[1..] == q[1..] + [f];
    }
  }

  lemma {:induction false} SkbBytesConcat(a: seq<Skb>, b: seq<Skb>)
    ensures SkbBytes(a + b) == SkbBytes(a) + SkbBytes(b)
  {
    if a == [] {
      assert a + b == b;
    } else {
      SkbBytesConcat(a[1..], b);
      assert (a + b)[0] == a[0] && (a + b)[1..] == a[1..] + b;
    }
  }

  /** Bytes reported as sent minus bytes reported as completed are the bytes in flight. */
  lemma BytesInFlight(accepted: seq<Skb>, freed: seq<Skb>, q: seq<Flight>)
    requires accepted == freed + QueueSkbs(q)
    ensures SkbBytes(accepted) - SkbBytes(freed) == SkbBytes(QueueSkbs(q))
  {
    SkbBytesConcat(freed, QueueSkbs(q));
  }

  /** What reclaiming the packets `gone` does to the logs and the statistics. */
  ghost predicate Accounts(gone: seq<Flight>, freed0: seq<Skb>, freed: seq<Skb>, unmapped0: seq<nat>,
      unmapped: seq<nat>,
                           count: nat, packets: nat, bytes: nat, compl: nat)
  {
    && compl == SkbBytes(QueueSkbs(gone))
    && freed == freed0 + QueueSkbs(gone) && unmapped == unmapped0 + QueueHandles(gone)
    && count == QueueSlots(gone) && packets == QueueSegs(gone) && bytes == QueueBytes(gone)
    && (count == 0 <==> gone == [])
  }

  lemma AccountsNone(freed: seq<Skb>, unmapped: seq<nat>)
    ensures Accounts([], freed, freed, unmapped, unmapped, 0, 0, 0, 0)
  {
  }

  lemma AccountsStep(gone: seq<Flight>, freed0: seq<Skb>, freed: seq<Skb>, unmapped0: seq<nat>, unmapped: seq<nat>,
                     count: nat, packets: nat, bytes: nat, compl: nat, f: Flight)
    requires Accounts(gone, freed0, freed, unmapped0, unmapped, count, packets, bytes, compl) && f.Slots() > 0
    ensures Accounts(gone + [f], freed0, freed + [f.skb], unmapped0, unmapped + f.Handles(), count + f.Slots(),
                     packets + GsoSegs(f.skb), bytes + ByteCount(f.skb), compl + SkbLen(f.skb))
  {
    SkbBytesConcat(QueueSkbs(gone), [f.skb]);
    hide QueueSlots, QueueSkbs, QueueHandles, QueueSegs, QueueBytes;
    SlotsAppend(gone, f);
    SkbsAppend(gone, f);
    HandlesAppend(gone, f);
    StatsAppend(gone, f);
  }

  const TX_WAKE_THRESHOLD: nat := 32

  // ------------------------------------------------------- effect of tx_map

  /** The buffer record of slot j once a chunk is mapped there. */
  function MappedBuf(old_: TxBuffer, ch: Chunk, handle: nat, j: nat): TxBuffer {
    old_.(dma := handle, length := ch.len, mappedAsPage := ch.buf > 0, nextToWatch := j)
  }

  /** The buffer record of the slot whose mapping failed. */
  function FailedBuf(old_: TxBuffer, ch: Chunk): TxBuffer {
    old_.(dma := 0, length := ch.len, mappedAsPage := ch.buf > 0)
  }

  /** A mapping job: `chunks` go to the slots from `base` on, which held b0. */
  datatype Job = Job(b0: seq<TxBuffer>, base: nat, chunks: seq<Chunk>, dmas: seq<nat>)
  {
    ghost predicate Fits() {
      base < |b0| && |chunks| < |b0|
      && forall j :: 0 <= j < |b0| && Dist(base, j, |b0|) < |chunks| ==> b0[j].skb == None
    }

    /** The first n chunks are mapped; all other slots are as before. */
    ghost predicate Mapped(b: seq<TxBuffer>, n: nat) {
      Fits() && |b| == |b0| && n <= |chunks| && FirstZero(dmas, n) == n
      && forall j :: 0 <= j < |b| ==>
           b[j] == if Dist(base, j, |b|) < n
                   then MappedBuf(b0[j], chunks[Dist(base, j, |b|)], dmas[Dist(base, j, |b|)], j)
                   else b0[j]
    }

    /** Mapping chunk n failed, and of the mappings made the first `left` are still live. */
    ghost predicate Unwound(b: seq<TxBuffer>, n: nat, left: nat) {
      Fits() && |b| == |b0| && n < |chunks| && FirstZero(dmas, |chunks|) == n
      && forall j :: 0 <= j < |b| ==>
           b[j] == if Dist(base, j, |b|) > n then b0[j]
                   else if Dist(base, j, |b|) == n then FailedBuf(b0[j], chunks[n])
                   else MappedBuf(b0[j], chunks[Dist(base, j, |b|)],
                                  if Dist(base, j, |b|) < left then dmas[Dist(base, j, |b|)] else 0, j)
    }

    /** Slot j of the finished packet. */
    ghost predicate SentSlot(x: TxBuffer, first: nat, skb: Skb, j: nat)
      requires base < |b0| && j < |b0| && 0 < |chunks| < |b0| && |chunks| <= |dmas|
    {
      var last, k := Wrap(base + |chunks| - 1, |b0|), Dist(base, j, |b0|);
      var m := if k < |chunks| then MappedBuf(b0[j], chunks[k], dmas[k], j) else b0[j];
      var l := if j == last then m.(skb := Some(skb), segs := GsoSegs(skb), bytecount := ByteCount(skb)) else m;
      x == if j == first then l.(nextToWatch := last) else l
    }

    /** The whole packet is mapped; its last slot carries the packet and slot
        `first` points at that last slot. */
    ghost predicate Sent(b: seq<TxBuffer>, first: nat, skb: Skb) {
      && Fits() && 0 < |chunks| <= |dmas| && |b| == |b0|
      && forall j :: 0 <= j < |b| ==> SentSlot(b[j], first, skb, j)
    }

    /** The slot of chunk k. */
    function Slot(k: nat): int {
      if base + k < |b0| then base + k else base + k - |b0|
    }

    lemma SentAt(b: seq<TxBuffer>, first: nat, skb: Skb, c: nat)
      requires Sent(b, first, skb) && c < |chunks|
      ensures |b| == |b0| && base < |b0| && |chunks| < |b0| && |chunks| <= |dmas|
      ensures var x := b[Wrap(base + c, |b0|)];
              && x.skb == (if c == |chunks| - 1 then Some(skb) else None)
              && x.dma == dmas[c] && x.length == chunks[c].len
    {
      DistOf(base, c, |b|);
      DistOf(base, |chunks| - 1, |b|);
      assert b0[Wrap(base + c, |b0|)].skb == None;
    }

    lemma Bounds()
      requires Fits()
      ensures base < |b0| && |chunks| < |b0|
    {
    }

    lemma Start()
      requires Fits()
      ensures Mapped(b0, 0)
    {
    }

    lemma MapStep(b: seq<TxBuffer>, n: nat)
      requires Mapped(b, n) && n < |chunks| && Handle(dmas, n) != 0
      ensures Mapped(b[Slot(n) := MappedBuf(b[Slot(n)], chunks[n], dmas[n], Slot(n))], n + 1)
    {
      DistOf(base, n, |b|);
    }

    lemma FailStep(b: seq<TxBuffer>, n: nat)
      requires Mapped(b, n) && n < |chunks| && Handle(dmas, n) == 0
      ensures Unwound(b[Slot(n) := FailedBuf(b[Slot(n)], chunks[n])], n, n)
    {
      DistOf(base, n, |b|);
      FirstZeroAt(dmas, n, |chunks|);
    }

    lemma UnwindStep(b: seq<TxBuffer>, n: nat, left: nat)
      requires Unwound(b, n, left) && 0 < left <= n
      ensures Unwound(b[Slot(left - 1) := b[Slot(left - 1)].(dma := 0, skb := None)], n, left - 1)
      ensures b[Slot(left - 1)].dma == Handle(dmas, left - 1)
    {
      DistOf(base, left - 1, |b|);
    }

    lemma UnwoundAt(b: seq<TxBuffer>, n: nat, left: nat)
      requires Unwound(b, n, left)
      ensures n < |chunks| && FirstZero(dmas, |chunks|) == n
    {
    }

    lemma UnwindStart(b: seq<TxBuffer>, n: nat)
      requires Unwound(b, n, n)
      ensures b[Slot(n)].dma == 0 && (n == 0 ==> Unwound(b, 0, 1))
    {
      DistOf(base, n, |b|);
    }

    lemma FinishSlot(b: seq<TxBuffer>, first: nat, skb: Skb, j: nat)
      requires Mapped(b, |chunks|) && 0 < |chunks| && first < |b| && j < |b|
      ensures base < |b0| == |b| && |chunks| < |b0| && |chunks| <= |dmas|
      ensures var last := Slot(|chunks| - 1);
              var c := b[last := b[last].(skb := Some(skb), segs := GsoSegs(skb), bytecount := ByteCount(skb))];
              SentSlot(c[first := c[first].(nextToWatch := last)][j], first, skb, j)
    {
      hide GsoSegs, ByteCount, FirstZero;
    }

    lemma Finish(b: seq<TxBuffer>, first: nat, skb: Skb)
      requires Mapped(b, |chunks|) && 0 < |chunks| && first < |b|
      ensures var last := Slot(|chunks| - 1);
              var c := b[last := b[last].(skb := Some(skb), segs := GsoSegs(skb), bytecount := ByteCount(skb))];
              Sent(c[first := c[first].(nextToWatch := last)], first, skb)
      ensures FirstZero(dmas, |chunks|) == |chunks|
    {
      hide SentSlot, GsoSegs, ByteCount, FirstZero;
      FinishSlot(b, first, skb, 0);
      var last := Slot(|chunks| - 1);
      var c := b[last := b[last].(skb := Some(skb), segs := GsoSegs(skb), bytecount := ByteCount(skb))];
      var x := c[first := c[first].(nextToWatch := last)];
      forall j | 0 <= j < |b| ensures SentSlot(x[j], first, skb, j) {
        FinishSlot(b, first, skb, j);
      }
    }
  }

  /** Only real handles are given back. */
  function Log(handle: nat): seq<nat> {
    if handle != 0 then [handle] else []
  }

  /** The non-zero handles of mappings hi - 1, ..., lo. */
  ghost function HandlesDown(dmas: seq<nat>, lo: nat, hi: nat): seq<nat>
    decreases hi
  {
    if hi <= lo then []
    else Log(Handle(dmas, hi - 1)) + HandlesDown(dmas, lo, hi - 1)
  }

  lemma HandlesDownEmpty(dmas: seq<nat>)
    ensures HandlesDown(dmas, 1, 0) == HandlesDown(dmas, 1, 1) == []
  {
  }

  lemma HandlesDownStep(log: seq<nat>, dmas: seq<nat>, lo: nat, hi: nat)
    requires lo < hi
    ensures log + HandlesDown(dmas, lo, hi)
            == log + Log(Handle(dmas, hi - 1)) + HandlesDown(dmas, lo, hi - 1)
  {
  }

  /** The `count` descriptors from `base` on are filled in from the buffer
      records, the last one with the report-status command; no status bit is set. */
  ghost predicate Queued(d: seq<TxDesc>, d0: seq<TxDesc>, b: seq<TxBuffer>, base: nat, count: nat, done: nat) {
    |d| == |d0| == |b| && base < |b|
    && forall j :: 0 <= j < |b| ==>
         d[j] == if Dist(base, j, |b|) < done
                 then TxDesc(b[j].dma, b[j].length, Dist(base, j, |b|) == count - 1, false)
                 else d0[j]
  }

  /** The packet that a send puts into the ring. */
  function NewFlight(skb: Skb, ctxDma: nat, chunks: seq<Chunk>, dmas: seq<nat>): Flight
    requires |chunks| <= |dmas|
  {
    Flight(skb, ContextDescs(skb) == 1, ctxDma, chunks, dmas[..|chunks|])
  }

  /** The ring after the optional context slot `first` is written: slot records
      and descriptors before are b and d. */
  ghost predicate CtxWritten(b: seq<TxBuffer>, d: seq<TxDesc>, b1: seq<TxBuffer>, d1: seq<TxDesc>, first: nat,
      ctx: bool) {
    |b| == |d| == |b1| == |d1| && first < |b|
    && (!ctx ==> b1 == b && d1 == d)
    && (ctx ==> b1 == b[first := b[first].(nextToWatch := first)] && d1 == d[first := d1[first]] && !d1[first].dd)
  }

  lemma BuildFlight(b: seq<TxBuffer>, d: seq<TxDesc>, b': seq<TxBuffer>, d1: seq<TxDesc>, d': seq<TxDesc>, first: nat,
      skb: Skb, job: Job)
    requires CtxWritten(b, d, job.b0, d1, first, ContextDescs(skb) == 1)
    requires job.base == Wrap(first + ContextDescs(skb), |b|) && |b| > 1
    requires 0 < |job.chunks| && ContextDescs(skb) + |job.chunks| < |b|
    requires FirstZero(job.dmas, |job.chunks|) == |job.chunks| && job.Sent(b', first, skb)
    requires Queued(d', d1, b', job.base, |job.chunks|, |job.chunks|)
    requires b[first].skb == None && forall j :: 0 <= j < |b| ==> b[j].nextToWatch < |b|
    ensures |b'| == |d'| == |b|
    ensures FlightOk(b', d', first, NewFlight(skb, b[first].dma, job.chunks, job.dmas))
    ensures ChangedWithin(b, d, b', d', first, ContextDescs(skb) + |job.chunks|)
    ensures forall j :: 0 <= j < |b'| ==> b'[j].nextToWatch < |b|
  {
    hide SlotOk, Queued, ContextDescs;
    var f, n, x := NewFlight(skb, b[first].dma, job.chunks, job.dmas), |b|, ContextDescs(skb);
    FewContexts(skb);
    assert f.Slots() == x + |job.chunks|;
    BuildEnds(b, d, b', d1, d', first, skb, job);
    BuildFrame(b, d, b', d1, d', first, skb, job);
    hide Job.Sent;
    forall k | 0 <= k < f.Slots() ensures SlotOk(b', d', first, f, k) {
      if k < x {
        BuildCtxSlot(b, d, b', d1, d', first, skb, job);
      } else {
        BuildChunkSlot(b, d, b', d1, d', first, skb, job, k - x);
      }
    }
  }

  lemma FewContexts(skb: Skb)
    ensures ContextDescs(skb) <= 1 && One(ContextDescs(skb) == 1) == ContextDescs(skb)
  {
  }

  lemma BuildEnds(b: seq<TxBuffer>, d: seq<TxDesc>, b': seq<TxBuffer>, d1: seq<TxDesc>, d': seq<TxDesc>, first: nat,
      skb: Skb, job: Job)
    requires CtxWritten(b, d, job.b0, d1, first, ContextDescs(skb) == 1)
    requires job.base == Wrap(first + ContextDescs(skb), |b|) && |b| > 1
    requires 0 < |job.chunks| && ContextDescs(skb) + |job.chunks| < |b|
    requires job.Sent(b', first, skb) && Queued(d', d1, b', job.base, |job.chunks|, |job.chunks|)
    requires forall j :: 0 <= j < |b| ==> b[j].nextToWatch < |b|
    ensures |b'| == |d'| == |b| && |job.dmas| >= |job.chunks|
    ensures var last := Wrap(first + ContextDescs(skb) + |job.chunks| - 1, |b|);
            b'[first].nextToWatch == last && b'[last].segs == GsoSegs(skb) && b'[last].bytecount == ByteCount(skb)
    ensures forall j :: 0 <= j < |b'| ==> b'[j].nextToWatch < |b|
  {
    DistOf(job.base, |job.chunks| - 1, |b|);
    assert Wrap(first + ContextDescs(skb) + |job.chunks| - 1, |b|) == Wrap(job.base + |job.chunks| - 1, |b|);
  }

  lemma BuildFrame(b: seq<TxBuffer>, d: seq<TxDesc>, b': seq<TxBuffer>, d1: seq<TxDesc>, d': seq<TxDesc>, first: nat,
      skb: Skb, job: Job)
    requires CtxWritten(b, d, job.b0, d1, first, ContextDescs(skb) == 1)
    requires job.base == Wrap(first + ContextDescs(skb), |b|) && |b| > 1
    requires 0 < |job.chunks| && ContextDescs(skb) + |job.chunks| < |b|
    requires job.Sent(b', first, skb) && Queued(d', d1, b', job.base, |job.chunks|, |job.chunks|)
    ensures ChangedWithin(b, d, b', d', first, ContextDescs(skb) + |job.chunks|)
  {
    var x, n := ContextDescs(skb), |b|;
    DistOf(job.base, |job.chunks| - 1, n);
    forall j | 0 <= j < n && x + |job.chunks| <= Dist(first, j, n) ensures b'[j] == b[j] && d'[j] == d[j] {
      DistShift(first, x, j, n);
      assert j != first;
    }
  }

  lemma BuildCtxSlot(b: seq<TxBuffer>, d: seq<TxDesc>, b': seq<TxBuffer>, d1: seq<TxDesc>, d': seq<TxDesc>, first: nat,
      skb: Skb, job: Job)
    requires ContextDescs(skb) == 1 && CtxWritten(b, d, job.b0, d1, first, true)
    requires job.base == Wrap(first + 1, |b|) && |b| > 1
    requires 0 < |job.chunks| && 1 + |job.chunks| < |b|
    requires job.Sent(b', first, skb) && Queued(d', d1, b', job.base, |job.chunks|, |job.chunks|)
    requires b[first].skb == None
    ensures SlotOk(b', d', first, NewFlight(skb, b[first].dma, job.chunks, job.dmas), 0)
  {
    DistShift(first, 1, first, |b|);
    DistOf(job.base, |job.chunks| - 1, |b|);
  }

  lemma BuildChunkSlot(b: seq<TxBuffer>, d: seq<TxDesc>, b': seq<TxBuffer>, d1: seq<TxDesc>, d': seq<TxDesc>,
      first: nat, skb: Skb, job: Job, c: nat)
    requires CtxWritten(b, d, job.b0, d1, first, ContextDescs(skb) == 1)
    requires job.base == Wrap(first + ContextDescs(skb), |b|) && |b| > 1
    requires c < |job.chunks| && ContextDescs(skb) + |job.chunks| < |b|
    requires FirstZero(job.dmas, |job.chunks|) == |job.chunks| && job.Sent(b', first, skb)
    requires Queued(d', d1, b', job.base, |job.chunks|, |job.chunks|)
    ensures SlotOk(b', d', first, NewFlight(skb, b[first].dma, job.chunks, job.dmas), ContextDescs(skb) + c)
  {
    hide Queued, Job.Sent, FirstZero;
    var x := ContextDescs(skb);
    FewContexts(skb);
    job.SentAt(b', first, skb, c);
    QueuedAt(d', d1, b', job.base, |job.chunks|, c);
    hide ContextDescs;
    assert Wrap(job.base + c, |b|) == Wrap(first + (x + c), |b|);
  }

  lemma QueuedAt(d: seq<TxDesc>, d0: seq<TxDesc>, b: seq<TxBuffer>, base: nat, count: nat, c: nat)
    requires Queued(d, d0, b, base, count, count) && c < count < |b|
    ensures |d| == |b| && base < |b|
    ensures var j := Wrap(base + c, |b|);
            d[j] == TxDesc(b[j].dma, b[j].length, c == count - 1, false)
  {
    DistOf(base, c, |b|);
  }

  /** A failed send leaves queued slots alone, and the other ones free. */
  lemma DropSlot(b: seq<TxBuffer>, d: seq<TxDesc>, b': seq<TxBuffer>, d1: seq<TxDesc>, clean: nat, use: nat,
                  q: seq<Flight>, skb: Skb, job: Job, k: nat, j: nat)
    requires RingOk(b, d, clean, use, q) && CtxWritten(b, d, job.b0, d1, use, ContextDescs(skb) == 1)
    requires |b| > 1 && job.base == Wrap(use + ContextDescs(skb), |b|)
    requires ContextDescs(skb) + |job.chunks| <= Unused(clean, use, |b|)
    requires job.Unwound(b', k, 1)
    requires j < |b|
    ensures |b| == |d| == |b'| == |d1| && clean < |b|
    ensures if Dist(clean, j, |b|) < QueueSlots(q) then b'[j] == b[j] && d1[j] == d[j] else FreeSlot(b'[j], d1[j])
    ensures b'[j].nextToWatch < |b|
  {
    hide FlightOk, Laid;
    var n, s := |b|, QueueSlots(q);
    DistShift(clean, s, j, n);
    DistShift(use, ContextDescs(skb), j, n);
    assert Dist(clean, j, n) >= s ==> FreeSlot(b[j], d[j]);
  }

  /** A failed send leaves the queue as it was. */
  lemma DropKeeps(b: seq<TxBuffer>, d: seq<TxDesc>, b': seq<TxBuffer>, d1: seq<TxDesc>, clean: nat, use: nat,
                  q: seq<Flight>, skb: Skb, job: Job, k: nat)
    requires RingOk(b, d, clean, use, q) && CtxWritten(b, d, job.b0, d1, use, ContextDescs(skb) == 1)
    requires |b| > 1 && job.base == Wrap(use + ContextDescs(skb), |b|)
    requires ContextDescs(skb) + |job.chunks| <= Unused(clean, use, |b|)
    requires job.Unwound(b', k, 1)
    ensures RingOk(b', d1, clean, use, q)
  {
    hide FlightOk, Laid, CtxWritten, Job.Unwound, FreeSlot;
    DropSlot(b, d, b', d1, clean, use, q, skb, job, k, 0);
    forall j | 0 <= j < |b|
      ensures if Dist(clean, j, |b|) < QueueSlots(q) then b'[j] == b[j] && d1[j] == d[j] else FreeSlot(b'[j], d1[j])
      ensures b'[j].nextToWatch < |b|
    {
      DropSlot(b, d, b', d1, clean, use, q, skb, job, k, j);
    }
    LaidFrame(b, d, b', d1, clean, q);
  }

  /** A failed send keeps the accounts exactly if it failed at its first mapping. */
  lemma DropTidy(b: seq<TxBuffer>, d: seq<TxDesc>, b': seq<TxBuffer>, d1: seq<TxDesc>, clean: nat, use: nat,
      q: seq<Flight>,
                 skb: Skb, job: Job, k: nat, mapped: seq<nat>, unmapped: seq<nat>)
    requires RingOk(b, d, clean, use, q) && CtxWritten(b, d, job.b0, d1, use, ContextDescs(skb) == 1)
    requires |b| > 1 && job.base == Wrap(use + ContextDescs(skb), |b|)
    requires ContextDescs(skb) + |job.chunks| <= Unused(clean, use, |b|)
    requires job.Unwound(b', k, 1)
    ensures k <= |job.dmas|
    ensures TidyRing(b, clean, q, mapped, unmapped) ==>
              (TidyRing(b', clean, q, mapped + job.dmas[..k], unmapped + HandlesDown(job.dmas, 1, k)) <==> k == 0)
  {
    var n, s, x := |b|, QueueSlots(q), ContextDescs(skb);
    hide Laid, FreeFrom;
    if TidyRing(b, clean, q, mapped, unmapped) {
      if k == 0 {
        assert mapped + job.dmas[..0] == mapped && unmapped + HandlesDown(job.dmas, 1, 0) == unmapped;
        forall j | 0 <= j < n && Dist(clean, j, n) >= s ensures b'[j].dma == 0 {
          assert b[j].dma == 0;
        }
      } else {
        DistShift(clean, s, job.base, n);
        DistOf(use, x, n);
        assert b'[job.base].dma == job.dmas[0];
      }
    }
  }

  /** A successful send adds the packet to the queue. */
  lemma SendKeeps(b: seq<TxBuffer>, d: seq<TxDesc>, b': seq<TxBuffer>, d1: seq<TxDesc>, d': seq<TxDesc>, clean: nat,
      use: nat,
                  q: seq<Flight>, skb: Skb, job: Job)
    requires RingOk(b, d, clean, use, q) && CtxWritten(b, d, job.b0, d1, use, ContextDescs(skb) == 1)
    requires |b| > 1 && job.base == Wrap(use + ContextDescs(skb), |b|) && 0 < |job.chunks|
    requires ContextDescs(skb) + |job.chunks| <= Unused(clean, use, |b|)
    requires FirstZero(job.dmas, |job.chunks|) == |job.chunks| && job.Sent(b', use, skb)
    requires Queued(d', d1, b', job.base, |job.chunks|, |job.chunks|)
    ensures |job.chunks| <= |job.dmas|
    ensures RingOk(b', d', clean, Wrap(use + ContextDescs(skb) + |job.chunks|, |b|),
                   q + [NewFlight(skb, b[use].dma, job.chunks, job.dmas)])
  {
    hide FlightOk, Job.Sent, Queued, CtxWritten, RingOk, FirstZero;
    RingBounds(b, d, clean, use, q);
    BuildFlight(b, d, b', d1, d', use, skb, job);
    var f := NewFlight(skb, b[use].dma, job.chunks, job.dmas);
    Enqueue(b, d, b', d', clean, use, q, f);
    assert use + f.Slots() == use + ContextDescs(skb) + |job.chunks|;
  }

  lemma SendTidy(b: seq<TxBuffer>, d: seq<TxDesc>, b': seq<TxBuffer>, d1: seq<TxDesc>, d': seq<TxDesc>, clean: nat,
      use: nat,
                 q: seq<Flight>, skb: Skb, job: Job, mapped: seq<nat>, unmapped: seq<nat>)
    requires RingOk(b, d, clean, use, q) && CtxWritten(b, d, job.b0, d1, use, ContextDescs(skb) == 1)
    requires |b| > 1 && job.base == Wrap(use + ContextDescs(skb), |b|) && 0 < |job.chunks|
    requires ContextDescs(skb) + |job.chunks| <= Unused(clean, use, |b|)
    requires FirstZero(job.dmas, |job.chunks|) == |job.chunks| && job.Sent(b', use, skb)
    requires Queued(d', d1, b', job.base, |job.chunks|, |job.chunks|)
    ensures TidyRing(b, clean, q, mapped, unmapped) ==>
              TidyRing(b', clean, q + [NewFlight(skb, b[use].dma, job.chunks, job.dmas)],
                  mapped + job.dmas[..|job.chunks|], unmapped)
  {
    if TidyRing(b, clean, q, mapped, unmapped) {
      RingBounds(b, d, clean, use, q);
      BuildFrame(b, d, b', d1, d', use, skb, job);
      assert b[use].dma == 0;
      hide RingOk, Job.Sent, Queued, CtxWritten;
      EnqueueTidy(b, b', clean, use, q, NewFlight(skb, b[use].dma, job.chunks, job.dmas), mapped, unmapped);
    }
  }

  lemma RingBounds(b: seq<TxBuffer>, d: seq<TxDesc>, clean: nat, use: nat, q: seq<Flight>)
    requires RingOk(b, d, clean, use, q)
    ensures |b| == |d| && clean < |b| && use < |b| && QueueSlots(q) == Dist(clean, use, |b|)
    ensures b[use].skb == None && !d[use].dd && forall j :: 0 <= j < |b| ==> b[j].nextToWatch < |b|
  {
    assert FreeSlot(b[use], d[use]);
  }

  /** The context descriptor of a TSO packet does not change how it is cut. */
  lemma SameChunks(skb: Skb, bus: Bus, last: bool, last': bool)
    requires Sendable(skb) && (last' == last || skb.mss > 0)
    ensures PacketChunks(skb, bus, last') == PacketChunks(skb, bus, last)
  {
  }

  lemma JobFits(b: seq<TxBuffer>, d: seq<TxDesc>, clean: nat, use: nat, q: seq<Flight>, d1: seq<TxDesc>, skb: Skb,
      job: Job)
    requires RingOk(b, d, clean, use, q) && CtxWritten(b, d, job.b0, d1, use, ContextDescs(skb) == 1)
    requires |b| > 1 && job.base == Wrap(use + ContextDescs(skb), |b|)
    requires ContextDescs(skb) + |job.chunks| <= Unused(clean, use, |b|)
    ensures job.Fits()
  {
    var n, s, x := |b|, QueueSlots(q), ContextDescs(skb);
    forall j | 0 <= j < n && Dist(job.base, j, n) < |job.chunks| ensures job.b0[j].skb == None {
      DistShift(clean, s, j, n);
      DistShift(use, x, j, n);
      assert FreeSlot(b[j], d[j]);
    }
  }

  datatype XmitStatus = Busy | Sent | Dropped

  /** What is left to map of the linear part and all that follows it. */
  ghost predicate HeadRest(skb: Skb, bus: Bus, lastTxTso: bool, chunks: seq<Chunk>, count: nat, off: nat) {
    var trim := NeedsTrim(skb, lastTxTso);
    && count <= |chunks| && off <= skb.head.len && (trim ==> count == 0 && skb.head.len - off >= ETH_ZLEN)
    && chunks[count..] == Cuts(CutterFor(skb, bus, 0), count == 0, trim, HeadBuf(skb), off) + FragChunks(skb, bus, 0)
  }

  lemma SendableHead(skb: Skb)
    requires Sendable(skb)
    ensures skb.head.len > 0
  {
  }

  lemma HeadBegins(skb: Skb, bus: Bus, lastTxTso: bool)
    requires Sendable(skb)
    ensures HeadRest(skb, bus, lastTxTso, PacketChunks(skb, bus, lastTxTso), 0, 0)
  {
    var chunks := PacketChunks(skb, bus, lastTxTso);
    assert chunks[0..] == chunks;
  }

  lemma HeadNext(skb: Skb, bus: Bus, lastTxTso: bool, chunks: seq<Chunk>, count: nat, off: nat)
    requires HeadRest(skb, bus, lastTxTso, chunks, count, off) && off < skb.head.len
    ensures var trim := NeedsTrim(skb, lastTxTso);
            && (trim ==> skb.head.len - off >= ETH_ZLEN && CutterFor(skb, bus, 0).max >= ETH_ZLEN)
            && var s := CutSize(CutterFor(skb, bus, 0), count == 0, trim, skb.head.addr + off, skb.head.len - off);
               && count < |chunks| && chunks[count] == Chunk(0, off, s)
               && HeadRest(skb, bus, lastTxTso && !trim, chunks, count + 1, off + s)
  {
    var trim := NeedsTrim(skb, lastTxTso);
    var c := CutterFor(skb, bus, 0);
    NextChunk(c, count == 0, trim, HeadBuf(skb), off,
              CutSize(c, count == 0, trim, skb.head.addr + off, skb.head.len - off), FragChunks(skb, bus, 0), chunks,
                  count);
  }

  lemma HeadEnds(skb: Skb, bus: Bus, lastTxTso: bool, chunks: seq<Chunk>, count: nat)
    requires HeadRest(skb, bus, lastTxTso, chunks, count, skb.head.len)
    ensures count <= |chunks| && chunks[count..] == FragChunks(skb, bus, 0)
  {
  }

  // The next chunk of a buffer, when `chunks` from `count` on is the rest of the
  // buffer followed by `tail`.
  lemma NextChunk(c: Cutter, first: bool, trim: bool, b: Buf, off: nat, s: nat, tail: seq<Chunk>, chunks: seq<Chunk>,
      count: nat)
    requires c.max >= 4 && off < b.len && count <= |chunks|
    requires trim ==> b.len - off >= ETH_ZLEN && c.max >= ETH_ZLEN
    requires s == CutSize(c, first, trim, b.base + off, b.len - off)
    requires chunks[count..] == Cuts(c, first, trim, b, off) + tail
    ensures 0 < s <= b.len - off && count < |chunks| && chunks[count] == Chunk(b.idx, off, s)
    ensures chunks[count + 1..] == Cuts(c, false, false, b, off + s) + tail
    ensures off + s == b.len ==> chunks[count + 1..] == tail
  {
    CutsUnfold(c, first, trim, b, off, s);
    assert chunks[count..] == [Chunk(b.idx, off, s)] + (Cuts(c, false, false, b, off + s) + tail);
    assert chunks[count..][0] == chunks[count] && chunks[count..][1..] == chunks[count + 1..];
  }

  /** What is left to map of fragment f and all that follows it. */
  ghost predicate FragRest(skb: Skb, bus: Bus, f: nat, chunks: seq<Chunk>, count: nat, off: nat) {
    && f < |skb.frags| && count <= |chunks| && off <= skb.frags[f].len
    && chunks[count..] == Cuts(CutterFor(skb, bus, f + 1), false, false, FragBuf(skb, f), off) + FragChunks(skb, bus,
        f + 1)
  }

  lemma FragNext(skb: Skb, bus: Bus, f: nat, chunks: seq<Chunk>, count: nat, off: nat)
    requires FragRest(skb, bus, f, chunks, count, off) && off < skb.frags[f].len
    ensures var s := CutSize(CutterFor(skb, bus, f + 1), false, false, skb.frags[f].page + off, skb.frags[f].len - off);
            && count < |chunks| && chunks[count] == Chunk(f + 1, off, s)
            && FragRest(skb, bus, f, chunks, count + 1, off + s)
  {
    var c := CutterFor(skb, bus, f + 1);
    NextChunk(c, false, false, FragBuf(skb, f), off,
              CutSize(c, false, false, skb.frags[f].page + off, skb.frags[f].len - off), FragChunks(skb, bus, f + 1),
                  chunks, count);
  }

  lemma FragBegins(skb: Skb, bus: Bus, f: nat, chunks: seq<Chunk>, count: nat)
    requires f < |skb.frags| && count <= |chunks| && chunks[count..] == FragChunks(skb, bus, f)
    ensures FragRest(skb, bus, f, chunks, count, 0)
  {
  }

  lemma FragEnds(skb: Skb, bus: Bus, f: nat, chunks: seq<Chunk>, count: nat)
    requires f < |skb.frags| && FragRest(skb, bus, f, chunks, count, skb.frags[f].len)
    ensures count <= |chunks| && chunks[count..] == FragChunks(skb, bus, f + 1)
  {
  }

  class TxRing {
    const bufferInfo: array<TxBuffer>
    const desc: array<TxDesc>
    var nextToUse: nat
    var nextToClean: nat
    var lastTxTso: bool
    var stopped: bool

    ghost var inflight: seq<Flight>  // accepted, not yet reclaimed, oldest first
    ghost var accepted: seq<Skb>     // every packet ever queued, in order
    ghost var freed: seq<Skb>        // reclaimed after transmission, in order
    ghost var mapped: seq<nat>       // every handle dma_map_* returned, in order
    ghost var unmapped: seq<nat>     // every handle given back, in order

    /** A ring of n zeroed slots. */
    constructor (n: nat)
      requires n > 1
      ensures Valid() && Tidy() && fresh(bufferInfo) && fresh(desc) && bufferInfo.Length == n
      ensures inflight == [] && accepted == [] && freed == [] && mapped == [] && unmapped == []
      ensures nextToUse == nextToClean == 0 && !lastTxTso && !stopped
    {
      bufferInfo := new TxBuffer[n](_ => TxBuffer(None, 0, 0, false, 0, 0, 0));
      desc := new TxDesc[n](_ => TxDesc(0, 0, false, false));
      nextToUse, nextToClean, lastTxTso, stopped := 0, 0, false, false;
      inflight, accepted, freed, mapped, unmapped := [], [], [], [], [];
    }

    /** e1000_unmap_and_free_tx_resource */
    method UnmapAndFree(j: nat)
      requires j < bufferInfo.Length
      modifies bufferInfo, this`unmapped
      ensures bufferInfo[..] == old(bufferInfo[..])[j := old(bufferInfo[j]).(dma := 0, skb := None)]
      ensures unmapped == old(unmapped) + Log(old(bufferInfo[j].dma))
    {
      if bufferInfo[j].dma != 0 {
        unmapped := unmapped + [bufferInfo[j].dma];
        bufferInfo[j] := bufferInfo[j].(dma := 0);
      }
      if bufferInfo[j].skb.Some? {
        bufferInfo[j] := bufferInfo[j].(skb := None);
      }
    }

    /** One round of the dma_error loop: step back from slot i0 and release that slot. */
    method UnwindOne(i0: nat, ghost job: Job, ghost n: nat, ghost left: nat) returns (i: nat)
      requires job.Fits() && bufferInfo.Length == |job.b0| && 0 < left <= n
      requires job.Unwound(bufferInfo[..], n, left) && i0 == job.Slot(left)
      modifies bufferInfo, this`unmapped
      ensures i == job.Slot(left - 1) && job.Unwound(bufferInfo[..], n, left - 1)
      ensures unmapped == old(unmapped) + Log(Handle(job.dmas, left - 1))
    {
      i := i0;
      if i == 0 {
        i := i + bufferInfo.Length;
      }
      i := i - 1;
      job.UnwindStep(bufferInfo[..], n, left);
      UnmapAndFree(i);
    }

    /** The dma_error path: mapping chunk `count0` into slot i0 failed. The loop
        releases one mapping fewer than were made. */
    method DmaError(i0: nat, count0: nat, ghost job: Job) returns (r: nat)
      requires job.Fits() && bufferInfo.Length == |job.b0| && job.Unwound(bufferInfo[..], count0, count0)
          && i0 == job.Slot(count0)
      modifies bufferInfo, this`unmapped
      ensures r == 0 && job.Unwound(bufferInfo[..], count0, 1)
      ensures unmapped == old(unmapped) + HandlesDown(job.dmas, 1, count0)
    {
      var i: nat, count: nat := i0, count0;
      job.UnwindStart(bufferInfo[..], count0);
      HandlesDownEmpty(job.dmas);
      bufferInfo[i] := bufferInfo[i].(dma := 0);
      assert bufferInfo[..] == old(bufferInfo[..]);
      if count > 0 {
        count := count - 1;
      }
      hide Job.Unwound, Job.Fits, HandlesDown, Handle;
      while count > 0
        invariant count0 == 0 ==> count == 0
        invariant count0 > 0 ==> count < count0 && i == job.Slot(count + 1)
        invariant job.Unwound(bufferInfo[..], count0, count + 1)
        invariant unmapped + HandlesDown(job.dmas, 1, count + 1) == old(unmapped) + HandlesDown(job.dmas, 1, count0)
      {
        HandlesDownStep(unmapped, job.dmas, 1, count + 1);
        i := UnwindOne(i, job, count0, count + 1);
        count := count - 1;
      }
      return 0;
    }

    /** One round of either mapping loop: fill in slot i and map the chunk. */
    method MapChunk(i: nat, size: nat, asPage: bool, handle: nat, ghost job: Job, ghost count: nat) returns (ok: bool)
      requires job.Fits() && bufferInfo.Length == |job.b0| && job.Mapped(bufferInfo[..], count) && count < |job.chunks|
      requires i == job.Slot(count) && handle == Handle(job.dmas, count)
      requires size == job.chunks[count].len && asPage == (job.chunks[count].buf > 0)
      modifies bufferInfo, this`mapped
      ensures ok == (handle != 0)
      ensures ok ==>
                job.Mapped(bufferInfo[..], count + 1) && count < |job.dmas| && mapped == old(mapped) + [job.dmas[count]]
      ensures !ok ==> job.Unwound(bufferInfo[..], count, count) && mapped == old(mapped)
    {
      bufferInfo[i] := bufferInfo[i].(length := size, mappedAsPage := asPage, dma := handle);
      if handle == 0 {
        job.FailStep(old(bufferInfo[..]), count);
        return false;
      }
      mapped := mapped + [handle];
      bufferInfo[i] := bufferInfo[i].(nextToWatch := i);
      job.MapStep(old(bufferInfo[..]), count);
      assert bufferInfo[..] == old(bufferInfo[..])[i := MappedBuf(old(bufferInfo[i]), job.chunks[count], handle, i)];
      return true;
    }

    /** The loop of e1000_tx_map over the linear part. On failure `i` is the failing slot. */
    method MapHead(skb: Skb, bus: Bus, ghost job: Job, dmas: seq<nat>) returns (ok: bool, i: nat, count: nat)
      requires Sendable(skb) && job.Fits() && job.dmas == dmas && job.base == nextToUse && bufferInfo.Length == |job.b0|
      requires job.chunks == PacketChunks(skb, bus, lastTxTso) && job.Mapped(bufferInfo[..], 0)
      modifies bufferInfo, this`lastTxTso, this`mapped
      ensures lastTxTso == (old(lastTxTso) && !NeedsTrim(skb, old(lastTxTso)))
      ensures ok ==> job.Mapped(bufferInfo[..], count) && count > 0 && i == job.Slot(count - 1)
                     && count <= |job.chunks| && job.chunks[count..] == FragChunks(skb, bus, 0)
      ensures !ok ==> job.Unwound(bufferInfo[..], count, count) && i == job.Slot(count)
      ensures count <= |dmas| && mapped == old(mapped) + dmas[..count]
    {
      hide HeadRest, CutSize, Job.Mapped, Job.Unwound, Job.Fits, PacketChunks, FragChunks, HeadChunks, Handle,
          FirstZero;
      var c := CutterFor(skb, bus, 0);
      var len: nat, offset: nat := skb.head.len, 0;
      i, count := nextToUse, 0;
      HeadBegins(skb, bus, lastTxTso);
      SendableHead(skb);
      job.Bounds();
      hide Sendable;
      while len > 0
        invariant len + offset == skb.head.len && (len == 0 ==> count > 0)
        invariant lastTxTso == (old(lastTxTso) && (count == 0 || !NeedsTrim(skb, old(lastTxTso))))
        invariant HeadRest(skb, bus, lastTxTso, job.chunks, count, offset)
        invariant i == job.Slot(if len > 0 then count else count - 1)
        invariant job.Mapped(bufferInfo[..], count)
        invariant count <= |dmas| && mapped == old(mapped) + dmas[..count]
      {
        HeadNext(skb, bus, lastTxTso, job.chunks, count, offset);
        var trim := NeedsTrim(skb, lastTxTso);
        var size := CutSize(c, count == 0, trim, skb.head.addr + offset, len);
        if trim {
          lastTxTso := false;
        }
        ok := MapChunk(i, size, false, Handle(dmas, count), job, count);
        if !ok {
          return;
        }
        len := len - size;
        offset := offset + size;
        count := count + 1;
        if len > 0 {
          i := Next(i, bufferInfo.Length);
        }
      }
      HeadEnds(skb, bus, lastTxTso, job.chunks, count);
      ok := true;
    }

    /** The loop of e1000_tx_map over fragment f; slot i0 holds the chunk before it. */
    method MapFrag(skb: Skb, bus: Bus, f: nat, i0: nat, count0: nat, ghost job: Job, dmas: seq<nat>)
      returns (ok: bool, i: nat, count: nat)
      requires f < |skb.frags| && job.Fits() && job.dmas == dmas && bufferInfo.Length == |job.b0|
      requires 0 < count0 <= |dmas| && job.Mapped(bufferInfo[..], count0) && i0 == job.Slot(count0 - 1)
      requires count0 <= |job.chunks| && job.chunks[count0..] == FragChunks(skb, bus, f)
      modifies bufferInfo, this`mapped
      ensures ok ==> job.Mapped(bufferInfo[..], count) && count > 0 && i == job.Slot(count - 1)
                     && count <= |job.chunks| && job.chunks[count..] == FragChunks(skb, bus, f + 1)
      ensures !ok ==> job.Unwound(bufferInfo[..], count, count) && i == job.Slot(count)
      ensures count0 <= count <= |dmas| && mapped == old(mapped) + dmas[count0..count]
    {
      hide FragRest, CutSize, Job.Mapped, Job.Unwound, Job.Fits, FragChunks, FirstZero, CutterFor, Handle;
      var c := CutterFor(skb, bus, f + 1);
      var len: nat, offset: nat := skb.frags[f].len, 0;
      i, count := i0, count0;
      FragBegins(skb, bus, f, job.chunks, count);
      job.Bounds();
      while len > 0
        invariant len + offset == skb.frags[f].len && count0 <= count
        invariant FragRest(skb, bus, f, job.chunks, count, offset)
        invariant i == job.Slot(count - 1)
        invariant job.Mapped(bufferInfo[..], count)
        invariant count <= |dmas| && mapped == old(mapped) + dmas[count0..count]
      {
        FragNext(skb, bus, f, job.chunks, count, offset);
        i := Next(i, bufferInfo.Length);
        var size := CutSize(c, false, false, skb.frags[f].page + offset, len);
        ok := MapChunk(i, size, true, Handle(dmas, count), job, count);
        if !ok {
          return;
        }
        len := len - size;
        offset := offset + size;
        count := count + 1;
      }
      FragEnds(skb, bus, f, job.chunks, count);
      ok := true;
    }

    /** The loop of e1000_tx_map over all fragments. */
    method MapFrags(skb: Skb, bus: Bus, i0: nat, count0: nat, ghost job: Job, dmas: seq<nat>)
      returns (ok: bool, i: nat, count: nat)
      requires job.Fits() && job.dmas == dmas && bufferInfo.Length == |job.b0|
      requires 0 < count0 <= |dmas| && job.Mapped(bufferInfo[..], count0) && i0 == job.Slot(count0 - 1)
      requires count0 <= |job.chunks| && job.chunks[count0..] == FragChunks(skb, bus, 0)
      modifies bufferInfo, this`mapped
      ensures ok ==> job.Mapped(bufferInfo[..], |job.chunks|) && count == |job.chunks| && i == job.Slot(count - 1)
      ensures !ok ==> job.Unwound(bufferInfo[..], count, count) && i == job.Slot(count)
      ensures count0 <= count <= |dmas| && mapped == old(mapped) + dmas[count0..count]
    {
      ok, i, count := true, i0, count0;
      var f := 0;
      hide Job.Mapped, Job.Unwound, Job.Fits;
      while ok && f < |skb.frags|
        invariant f <= |skb.frags| && count0 <= count <= |dmas| && mapped == old(mapped) + dmas[count0..count]
        invariant ok ==> job.Mapped(bufferInfo[..], count) && i == job.Slot(count - 1)
        invariant ok ==> count <= |job.chunks| && job.chunks[count..] == FragChunks(skb, bus, f)
        invariant !ok ==> job.Unwound(bufferInfo[..], count, count) && i == job.Slot(count)
      {
        ok, i, count := MapFrag(skb, bus, f, i, count, job, dmas);
        f := f + 1;
      }
      assert ok ==> job.chunks[count..] == [];
    }

    /** The end of e1000_tx_map: slot i, the last one mapped, takes the packet. */
    method FinishMap(skb: Skb, i: nat, first: nat, ghost job: Job)
      requires job.Fits() && bufferInfo.Length == |job.b0| && first < bufferInfo.Length
      requires 0 < |job.chunks| && job.Mapped(bufferInfo[..], |job.chunks|) && i == job.Slot(|job.chunks| - 1)
      modifies bufferInfo
      ensures job.Sent(bufferInfo[..], first, skb) && FirstZero(job.dmas, |job.chunks|) == |job.chunks|
    {
      job.Finish(bufferInfo[..], first, skb);
      bufferInfo[i] := bufferInfo[i].(skb := Some(skb), segs := GsoSegs(skb), bytecount := ByteCount(skb));
      bufferInfo[first] := bufferInfo[first].(nextToWatch := i);
    }

    /** e1000_tx_map. `dmas` lists what the successive mapping calls return. */
    method TxMap(skb: Skb, bus: Bus, first: nat, dmas: seq<nat>, ghost job: Job) returns (count: nat)
      requires Sendable(skb) && job.Fits() && bufferInfo.Length == |job.b0| && first < bufferInfo.Length
      requires job.b0 == bufferInfo[..] && job.base == nextToUse && job.dmas == dmas
      requires job.chunks == PacketChunks(skb, bus, lastTxTso)
      modifies bufferInfo, this`lastTxTso, this`mapped, this`unmapped
      ensures lastTxTso == (old(lastTxTso) && !NeedsTrim(skb, old(lastTxTso)))
      ensures var k := FirstZero(dmas, |job.chunks|);
              && mapped == old(mapped) + dmas[..k]
              && (k == |job.chunks| ==>
                    count == k > 0 && unmapped == old(unmapped) && job.Sent(bufferInfo[..], first, skb))
              && (k < |job.chunks| ==>
                    count == 0 && unmapped == old(unmapped) + HandlesDown(dmas, 1, k)
                        && job.Unwound(bufferInfo[..], k, 1))
    {
      hide PacketChunks, FragChunks, Job.Fits, Job.Mapped, Job.Unwound, Job.Sent, HandlesDown, Sendable;
      job.Start();
      var ok, i := true, 0;
      ok, i, count := MapHead(skb, bus, job, dmas);
      if ok {
        ghost var head := count;
        ok, i, count := MapFrags(skb, bus, i, count, job, dmas);
        assert dmas[..count] == dmas[..head] + dmas[head..count];
      }
      assert mapped == old(mapped) + dmas[..count];
      if ok {
        FinishMap(skb, i, first, job);
      } else {
        job.UnwoundAt(bufferInfo[..], count, count);
        count := DmaError(i, count, job);
      }
    }

    /** e1000_tx_queue */
    method TxQueue(count: nat)
      requires bufferInfo.Length == desc.Length && nextToUse < desc.Length && 0 < count < desc.Length
      modifies desc, this`nextToUse
      ensures Queued(desc[..], old(desc[..]), bufferInfo[..], old(nextToUse), count, count)
      ensures nextToUse == Wrap(old(nextToUse) + count, desc.Length)
    {
      var base := nextToUse;
      var i, last, left := base, base, count;
      while left > 0
        invariant left <= count
        invariant i == Wrap(base + (count - left), desc.Length)
        invariant left < count ==> last == Wrap(base + (count - left - 1), desc.Length)
        invariant forall j :: 0 <= j < desc.Length ==>
                    desc[j] == if Dist(base, j, desc.Length) < count - left
                               then TxDesc(bufferInfo[j].dma, bufferInfo[j].length, false, false)
                               else old(desc[j])
      {
        DistOf(base, count - left, desc.Length);
        desc[i] := TxDesc(bufferInfo[i].dma, bufferInfo[i].length, false, false);
        last := i;
        i := Next(i, desc.Length);
        left := left - 1;
      }
      DistOf(base, count - 1, desc.Length);
      desc[last] := desc[last].(eop := true);
      nextToUse := i;
    }

    ghost predicate Valid()
      reads this, bufferInfo, desc
    {
      && RingOk(bufferInfo[..], desc[..], nextToClean, nextToUse, inflight)
      && accepted == freed + QueueSkbs(inflight)
    }

    ghost predicate Tidy()
      reads this, bufferInfo
    {
      TidyRing(bufferInfo[..], nextToClean, inflight, mapped, unmapped)
    }

    function DescUnused(): nat
      requires nextToClean < bufferInfo.Length && nextToUse < bufferInfo.Length
      reads this
    {
      Unused(nextToClean, nextToUse, bufferInfo.Length)
    }

    /** The descriptor count at the head of e1000_xmit_frame. */
    method ReserveCount(skb: Skb, bus: Bus) returns (count: nat)
      ensures count == Reserved(skb, bus, lastTxTso)
    {
      var pwr := MaxTxdPwr(skb.mss);
      count := 0;
      if skb.mss > 0 || skb.csumPartial {
        count := count + 1;
      }
      count := count + 1;
      if skb.frags == [] && lastTxTso && skb.mss == 0 {
        count := count + 1;
      }
      count := count + TxdUseCount(skb.head.len, pwr);
      if bus.pcix82544 {
        count := count + 1;
      }
      if bus.pcix && skb.head.len > PCIX_FIRST_MAX {
        count := count + 1;
      }
      ghost var total := count + FragUse(skb, pwr, 0);
      for f := 0 to |skb.frags|
        invariant count + FragUse(skb, pwr, f) == total
      {
        count := count + TxdUseCount(skb.frags[f].len, pwr);
      }
      if bus.pcix82544 {
        count := count + |skb.frags|;
      }
    }

    /** e1000_tso and e1000_tx_csum: write the context descriptor, if any. TSO
        leaves the status byte of the slot alone, checksum offload clears it. */
    method Offload(skb: Skb, mac82544: bool)
      requires bufferInfo.Length == desc.Length > 1 && nextToUse < desc.Length && !desc[nextToUse].dd
      modifies bufferInfo, desc, this`nextToUse, this`lastTxTso
      ensures CtxWritten(old(bufferInfo[..]), old(desc[..]), bufferInfo[..], desc[..], old(nextToUse),
          ContextDescs(skb) == 1)
      ensures nextToUse == Wrap(old(nextToUse) + ContextDescs(skb), desc.Length)
      ensures lastTxTso == (old(lastTxTso) || (skb.mss > 0 && !mac82544))
    {
      if skb.mss > 0 || skb.csumPartial {
        desc[nextToUse] := TxDesc(0, 0, false, if skb.mss > 0 then desc[nextToUse].dd else false);
        bufferInfo[nextToUse] := bufferInfo[nextToUse].(nextToWatch := nextToUse);
        nextToUse := Next(nextToUse, desc.Length);
      }
      if skb.mss > 0 && !mac82544 {
        lastTxTso := true;
      }
    }

    /** A mapped packet is queued: b, d is the ring before the send, and m what had been mapped by then. */
    method Commit(skb: Skb, first: nat, count: nat, ghost job: Job, ghost b: seq<TxBuffer>, ghost d: seq<TxDesc>,
                  ghost m: seq<nat>)
      requires RingOk(b, d, nextToClean, first, inflight) && accepted == freed + QueueSkbs(inflight)
      requires |b| == bufferInfo.Length == desc.Length > 1 && first < |b|
      requires CtxWritten(b, d, job.b0, desc[..], first, ContextDescs(skb) == 1)
      requires job.base == nextToUse == Wrap(first + ContextDescs(skb), |b|) && count == |job.chunks| > 0
      requires nextToClean < |b| && ContextDescs(skb) + count <= Unused(nextToClean, first, |b|)
      requires FirstZero(job.dmas, count) == count <= |job.dmas| && job.Sent(bufferInfo[..], first, skb)
      requires mapped == m + job.dmas[..count]
      modifies desc, this`nextToUse, this`accepted, this`inflight
      ensures Valid() && accepted == old(accepted) + [skb]
      ensures inflight == old(inflight) + [NewFlight(skb, b[first].dma, job.chunks, job.dmas)]
      ensures nextToUse == Wrap(first + ContextDescs(skb) + count, bufferInfo.Length)
      ensures TidyRing(b, nextToClean, old(inflight), m, unmapped) ==> Tidy()
    {
      hide RingOk, TidyRing, CtxWritten, Queued, Job.Sent, ContextDescs, QueueSkbs, FirstZero, Unused;
      ghost var d1, f := desc[..], NewFlight(skb, b[first].dma, job.chunks, job.dmas);
      TxQueue(count);
      SendKeeps(b, d, bufferInfo[..], d1, desc[..], nextToClean, first, inflight, skb, job);
      SendTidy(b, d, bufferInfo[..], d1, desc[..], nextToClean, first, inflight, skb, job, m, unmapped);
      SkbsAppend(inflight, f);
      accepted := accepted + [skb];
      inflight := inflight + [f];
    }

    /** A packet that could not be mapped is forgotten: k mappings were made, all but the first are undone. */
    method Revert(skb: Skb, first: nat, ghost job: Job, ghost b: seq<TxBuffer>, ghost d: seq<TxDesc>,
                  ghost m: seq<nat>, ghost u: seq<nat>, ghost k: nat)
      requires RingOk(b, d, nextToClean, first, inflight) && accepted == freed + QueueSkbs(inflight)
      requires |b| == bufferInfo.Length == desc.Length > 1 && first < |b|
      requires CtxWritten(b, d, job.b0, desc[..], first, ContextDescs(skb) == 1)
      requires job.base == Wrap(first + ContextDescs(skb), |b|)
      requires nextToClean < |b| && ContextDescs(skb) + |job.chunks| <= Unused(nextToClean, first, |b|)
      requires job.Unwound(bufferInfo[..], k, 1) && k <= |job.dmas|
      requires mapped == m + job.dmas[..k] && unmapped == u + HandlesDown(job.dmas, 1, k)
      modifies this`nextToUse
      ensures Valid() && nextToUse == first
      ensures TidyRing(b, nextToClean, inflight, m, u) ==> (Tidy() <==> k == 0)
    {
      hide RingOk, TidyRing, CtxWritten, Job.Unwound, ContextDescs, QueueSkbs, HandlesDown, Unused;
      DropKeeps(b, d, bufferInfo[..], desc[..], nextToClean, first, inflight, skb, job, k);
      DropTidy(b, d, bufferInfo[..], desc[..], nextToClean, first, inflight, skb, job, k, m, u);
      nextToUse := first;
    }

    /** The middle of e1000_xmit_frame, once room is known to be there: write the
        context, map, queue; or take everything back. */
    method Send(skb: Skb, bus: Bus, mac82544: bool, dmas: seq<nat>) returns (sent: bool)
      requires Valid() && Sendable(skb)
      requires ContextDescs(skb) + |PacketChunks(skb, bus, lastTxTso)| + 2 <= DescUnused()
      modifies bufferInfo, desc, this`nextToUse, this`lastTxTso, this`mapped, this`unmapped, this`accepted,
          this`inflight
      ensures Valid()
      ensures var chunks := old(PacketChunks(skb, bus, lastTxTso));
              var k := FirstZero(dmas, |chunks|);
              && sent == (k == |chunks|) && mapped == old(mapped) + dmas[..k]
              && (sent ==>
                    && accepted == old(accepted) + [skb]
                    && inflight == old(inflight) + [NewFlight(skb, old(bufferInfo[nextToUse].dma), chunks, dmas)]
                    && nextToUse == Wrap(old(nextToUse) + ContextDescs(skb) + |chunks|, bufferInfo.Length)
                    && unmapped == old(unmapped) && (old(Tidy()) ==> Tidy()))
              && (!sent ==>
                    && inflight == old(inflight) && accepted == old(accepted) && nextToUse == old(nextToUse)
                    && unmapped == old(unmapped) + HandlesDown(dmas, 1, k)
                    && (old(Tidy()) ==> (Tidy() <==> k == 0)))
      ensures lastTxTso == ((old(lastTxTso) || (skb.mss > 0 && !mac82544)) && !NeedsTrim(skb, old(lastTxTso)))
    {
      hide PacketChunks, RingOk, TidyRing, CtxWritten, FirstZero, NewFlight, QueueSkbs;
      hide Job.Fits, Job.Sent, Job.Unwound, HandlesDown, ContextDescs;
      var first := nextToUse;
      ghost var chunks, b, d := PacketChunks(skb, bus, lastTxTso), bufferInfo[..], desc[..];
      ghost var k := FirstZero(dmas, |chunks|);
      RingBounds(b, d, nextToClean, first, inflight);
      Offload(skb, mac82544);
      SameChunks(skb, bus, old(lastTxTso), lastTxTso);
      ghost var job := Job(bufferInfo[..], nextToUse, chunks, dmas);
      JobFits(b, d, nextToClean, first, inflight, desc[..], skb, job);
      var count := TxMap(skb, bus, first, dmas, job);
      sent := count > 0;
      if sent {
        Commit(skb, first, count, job, b, d, old(mapped));
      } else {
        Revert(skb, first, job, b, d, old(mapped), old(unmapped), k);
      }
    }

    /** Slots that must be free after a send for the queue to keep running. */
    static function DescNeeded(bus: Bus, maxFrags: nat): nat {
      maxFrags + 7 + (if bus.pcix82544 then maxFrags + 1 else 0)
    }

    /** e1000_xmit_frame. `cowFails`: the header of a TSO packet cannot be made
        writable; `fifoStall`: the 82547 half-duplex FIFO is full. */
    method XmitFrame(skb: Skb, bus: Bus, mac82544: bool, maxFrags: nat, cowFails: bool, fifoStall: bool, dmas: seq<nat>)
      returns (r: XmitStatus)
      requires Valid() && Sendable(skb)
      modifies this, bufferInfo, desc
      ensures Valid() && nextToClean == old(nextToClean) && freed == old(freed)
      ensures r == Busy <==> old(DescUnused()) < old(Reserved(skb, bus, lastTxTso)) + 2 || fifoStall
      ensures r != Sent ==> accepted == old(accepted)
      ensures r == Busy ==>
                && stopped && inflight == old(inflight) && nextToUse == old(nextToUse) && lastTxTso == old(lastTxTso)
                && mapped == old(mapped) && unmapped == old(unmapped)
                && bufferInfo[..] == old(bufferInfo[..]) && desc[..] == old(desc[..])
      ensures r == Sent ==>
                var chunks := old(PacketChunks(skb, bus, lastTxTso));
                && FirstZero(dmas, |chunks|) == |chunks| && (skb.mss > 0 ==> !cowFails)
                && accepted == old(accepted) + [skb]
                && inflight == old(inflight) + [NewFlight(skb, old(bufferInfo[nextToUse].dma), chunks, dmas)]
                && mapped == old(mapped) + dmas[..|chunks|] && unmapped == old(unmapped)
                && DescUnused() >= 2
                && stopped == (old(stopped) || DescUnused() < DescNeeded(bus, maxFrags))
                && (old(Tidy()) ==> Tidy())
      ensures r == Dropped ==>
                var k := FirstZero(dmas, old(|PacketChunks(skb, bus, lastTxTso)|));
                && inflight == old(inflight) && nextToUse == old(nextToUse) && stopped == old(stopped)
                && ((skb.mss > 0 && cowFails && mapped == old(mapped) && unmapped == old(unmapped)
                    && Tidy() == old(Tidy()))
                    || (k < old(|PacketChunks(skb, bus, lastTxTso)|)
                        && mapped == old(mapped) + dmas[..k] && unmapped == old(unmapped) + HandlesDown(dmas, 1, k)
                        && (old(Tidy()) ==> (Tidy() <==> k == 0))))
    {
      hide PacketChunks, RingOk, TidyRing, HandlesDown, NewFlight, Reserved, FirstZero, ContextDescs, QueueSkbs,
          Sendable;
      BudgetCovers(skb, bus, lastTxTso);
      RingBounds(bufferInfo[..], desc[..], nextToClean, nextToUse, inflight);
      var count := ReserveCount(skb, bus);
      if DescUnused() < count + 2 {
        stopped := true;
        return Busy;
      }
      if fifoStall {
        stopped := true;
        return Busy;
      }
      if skb.mss > 0 && cowFails {
        return Dropped;
      }
      var sent := Send(skb, bus, mac82544, dmas);
      RingBounds(bufferInfo[..], desc[..], nextToClean, nextToUse, inflight);
      if !sent {
        return Dropped;
      }
      if DescUnused() < DescNeeded(bus, maxFrags) {
        stopped := true;
      }
      return Sent;
    }

    /** One slot of a packet being reclaimed, the done-th from i0 on. */
    method CleanSlot(i: nat, ghost b: seq<TxBuffer>, ghost d: seq<TxDesc>, ghost i0: nat, ghost done: nat)
      requires Released(bufferInfo[..], desc[..], b, d, i0, done) && done < |b| && i == Wrap(i0 + done, |b|)
      modifies this`unmapped, bufferInfo, desc
      ensures Released(bufferInfo[..], desc[..], b, d, i0, done + 1)
      ensures unmapped == old(unmapped) + Log(b[i].dma)
    {
      ReleaseStep(bufferInfo[..], desc[..], b, d, i0, done);
      UnmapAndFree(i);
      desc[i] := desc[i].(dd := false);
    }

    /** The inner loop of e1000_clean_tx_irq: release the slots up to `eop`. */
    method CleanPacket(i0: nat, eop: nat) returns (i: nat, count: nat, segs: nat, bytes: nat, compl: nat)
      requires RingOk(bufferInfo[..], desc[..], i0, nextToUse, inflight) && inflight != []
      requires i0 < bufferInfo.Length && eop == bufferInfo[i0].nextToWatch
      modifies this`unmapped, bufferInfo, desc
      ensures count == inflight[0].Slots() < bufferInfo.Length && i == Wrap(i0 + count, bufferInfo.Length)
      ensures Released(bufferInfo[..], desc[..], old(bufferInfo[..]), old(desc[..]), i0, count)
      ensures unmapped == old(unmapped) + inflight[0].Handles()
      ensures segs == GsoSegs(inflight[0].skb) && bytes == ByteCount(inflight[0].skb)
          && compl == SkbLen(inflight[0].skb)
    {
      hide RingOk, FlightOk, SlotOk, Released, Log, Laid, FreeFrom, DonePrefix, QueueSlots, GsoSegs, ByteCount, SkbLen,
          SlotHandles;
      ghost var b, d, f := bufferInfo[..], desc[..], inflight[0];
      WatchHead(b, d, i0, nextToUse, inflight);
      HeadFacts(b, d, i0, f);
      ReleaseNone(b, d, i0);
      i, count, segs, bytes, compl := i0, 0, 0, 0, 0;
      var cleaned := false;
      while !cleaned
        invariant count <= f.Slots() && (cleaned <==> count == f.Slots())
        invariant i == Wrap(i0 + count, bufferInfo.Length)
        invariant Released(bufferInfo[..], desc[..], b, d, i0, count)
        invariant unmapped == old(unmapped) + SlotHandles(b, i0, count)
        invariant cleaned ==> segs == GsoSegs(f.skb) && bytes == ByteCount(f.skb) && compl == SkbLen(f.skb)
        decreases f.Slots() - count
      {
        cleaned := i == eop;
        UntouchedAt(bufferInfo[..], desc[..], b, d, i0, count);
        SlotHandlesStep(b, i0, count);
        if cleaned {
          segs := bufferInfo[i].segs;
          bytes := bufferInfo[i].bytecount;
          if bufferInfo[i].skb.Some? {
            compl := SkbLen(bufferInfo[i].skb.value);
          }
        }
        CleanSlot(i, b, d, i0, count);
        i := Next(i, bufferInfo.Length);
        count := count + 1;
      }
    }

    /** One round of the outer loop of e1000_clean_tx_irq: the oldest packet goes. */
    method ReclaimHead(i0: nat, eop: nat, ghost tidy: bool)
        returns (i: nat, count: nat, segs: nat, bytes: nat, compl: nat)
      requires RingOk(bufferInfo[..], desc[..], i0, nextToUse, inflight)
      requires i0 < bufferInfo.Length && eop == bufferInfo[i0].nextToWatch < desc.Length && desc[eop].dd
      requires tidy ==> TidyRing(bufferInfo[..], i0, inflight, mapped, unmapped)
      modifies this`unmapped, this`inflight, this`freed, bufferInfo, desc
      ensures old(inflight) != [] && inflight == old(inflight)[1..] && count == old(inflight)[0].Slots() > 0
      ensures RingOk(bufferInfo[..], desc[..], i, nextToUse, inflight)
      ensures tidy ==> TidyRing(bufferInfo[..], i, inflight, mapped, unmapped)
      ensures i < bufferInfo.Length == desc.Length
      ensures old(DonePrefix(desc[..], i0, inflight)) == 1 + DonePrefix(desc[..], i, inflight)
      ensures freed == old(freed) + [old(inflight)[0].skb] && unmapped == old(unmapped) + old(inflight)[0].Handles()
      ensures segs == GsoSegs(old(inflight)[0].skb) && bytes == ByteCount(old(inflight)[0].skb)
      ensures compl == SkbLen(old(inflight)[0].skb)
    {
      hide RingOk, FlightOk, Released, DonePrefix, TidyRing, QueueSlots, FreeSlot;
      WatchHead(bufferInfo[..], desc[..], i0, nextToUse, inflight);
      RingBounds(bufferInfo[..], desc[..], i0, nextToUse, inflight);
      i, count, segs, bytes, compl := CleanPacket(i0, eop);
      ReleasedKeeps(bufferInfo[..], desc[..], old(bufferInfo[..]), old(desc[..]), i0, nextToUse, inflight);
      DoneStep(bufferInfo[..], desc[..], old(bufferInfo[..]), old(desc[..]), i0, nextToUse, inflight);
      if tidy {
        ReleasedTidy(bufferInfo[..], desc[..], old(bufferInfo[..]), old(desc[..]), i0, inflight, mapped, old(unmapped));
      }
      freed := freed + [inflight[0].skb];
      inflight := inflight[1..];
    }

    /** The outer loop of e1000_clean_tx_irq, from next_to_clean on. */
    method CleanLoop() returns (i: nat, count: nat, packets: nat, bytes: nat, compl: nat, ghost gone: seq<Flight>)
      requires Valid()
      modifies this`unmapped, this`inflight, this`freed, bufferInfo, desc
      ensures RingOk(bufferInfo[..], desc[..], i, nextToUse, inflight)
      ensures old(Tidy()) ==> TidyRing(bufferInfo[..], i, inflight, mapped, unmapped)
      ensures old(inflight) == gone + inflight && |gone| == old(DonePrefix(desc[..], nextToClean, inflight))
      ensures i < desc.Length && DonePrefix(desc[..], i, inflight) == 0
      ensures Accounts(gone, old(freed), freed, old(unmapped), unmapped, count, packets, bytes, compl)
          && count < bufferInfo.Length
    {
      hide RingOk, TidyRing, DonePrefix, Accounts, FlightOk, QueueSlots;
      RingBounds(bufferInfo[..], desc[..], nextToClean, nextToUse, inflight);
      WatchHead(bufferInfo[..], desc[..], nextToClean, nextToUse, inflight);
      AccountsNone(freed, unmapped);
      i, count, packets, bytes, compl, gone := nextToClean, 0, 0, 0, 0, [];
      var eop := bufferInfo[i].nextToWatch;
      while desc[eop].dd && count < bufferInfo.Length
        invariant i < bufferInfo.Length == desc.Length && eop < desc.Length
        invariant RingOk(bufferInfo[..], desc[..], i, nextToUse, inflight)
        invariant eop == bufferInfo[i].nextToWatch && (inflight == [] ==> !desc[eop].dd)
        invariant !desc[eop].dd ==> DonePrefix(desc[..], i, inflight) == 0
        invariant old(Tidy()) ==> TidyRing(bufferInfo[..], i, inflight, mapped, unmapped)
        invariant old(inflight) == gone + inflight && count + QueueSlots(inflight) < bufferInfo.Length
        invariant |gone| + DonePrefix(desc[..], i, inflight) == old(DonePrefix(desc[..], nextToClean, inflight))
        invariant Accounts(gone, old(freed), freed, old(unmapped), unmapped, count, packets, bytes, compl)
        decreases |inflight|
      {
        ghost var f := inflight[0];
        ghost var freed1, unmapped1 := freed, unmapped;
        QueueHead(inflight);
        var cnt, segs, bts, len;
        i, cnt, segs, bts, len := ReclaimHead(i, eop, old(Tidy()));
        AccountsStep(gone, old(freed), freed1, old(unmapped), unmapped1, count, packets, bytes, compl, f);
        count, packets, bytes, compl := count + cnt, packets + segs, bytes + bts, compl + len;
        gone := gone + [f];
        WatchHead(bufferInfo[..], desc[..], i, nextToUse, inflight);
        eop := bufferInfo[i].nextToWatch;
      }
    }

    /** e1000_clean_tx_irq: exactly the packets at the head of the queue that the
        hardware has finished are freed, in order, each whole. */
    method CleanTxIrq(carrierOk: bool, down: bool) returns (r: bool, totalPackets: nat, totalBytes: nat,
        bytesCompl: nat)
      requires Valid()
      modifies this, bufferInfo, desc
      ensures Valid() && (old(Tidy()) ==> Tidy())
      ensures var k := old(DonePrefix(desc[..], nextToClean, inflight));
              var gone := old(inflight)[..k];
              && inflight == old(inflight)[k..] && freed == old(freed) + QueueSkbs(gone)
              && unmapped == old(unmapped) + QueueHandles(gone) && mapped == old(mapped)
              && totalPackets == QueueSegs(gone) && totalBytes == QueueBytes(gone)
                  && bytesCompl == SkbBytes(QueueSkbs(gone))
              && DonePrefix(desc[..], nextToClean, inflight) == 0
              && stopped == (old(stopped) && !(k > 0 && carrierOk && !down && DescUnused() >= TX_WAKE_THRESHOLD))
      ensures nextToUse == old(nextToUse) && lastTxTso == old(lastTxTso) && accepted == old(accepted) && r
    {
      hide RingOk, TidyRing, DonePrefix, QueueSkbs, QueueHandles, QueueSegs, QueueBytes, QueueSlots, SkbBytes, FlightOk;
      RingBounds(bufferInfo[..], desc[..], nextToClean, nextToUse, inflight);
      var i, count;
      ghost var gone;
      i, count, totalPackets, totalBytes, bytesCompl, gone := CleanLoop();
      SkbsConcat(gone, inflight);
      assert old(inflight)[..|gone|] == gone && old(inflight)[|gone|..] == inflight;
      nextToClean := i;
      RingBounds(bufferInfo[..], desc[..], nextToClean, nextToUse, inflight);
      if count > 0 && carrierOk && DescUnused() >= TX_WAKE_THRESHOLD {
        if stopped && !down {
          stopped := false;
        }
      }
      r := count < bufferInfo.Length;
    }

    /** The hardware finishes the k-th queued packet, whose last slot is `end`,
        and answers its report-status command. */
    method HardwareDone(ghost k: nat, end: nat)
      requires Valid() && k < |inflight| && end == EndSlot(nextToClean, inflight, k, desc.Length)
      modifies desc
      ensures Valid() && desc[..] == old(desc[..])[end := old(desc[end]).(dd := true)]
    {
      hide FlightOk;
      LaidDone(bufferInfo[..], desc[..], nextToClean, inflight, k);
      desc[end] := desc[end].(dd := true);
    }
  }

  /** A run that loses a mapping: the second of two mapping calls fails. */
  method LeakingSend(skb: Skb, handle: nat) returns (r: TxRing, status: XmitStatus)
    requires skb.head.len == ETH_ZLEN && skb.frags == [] && skb.mss == 1024 && handle != 0
    ensures fresh(r) && status == Dropped && r.inflight == []
    ensures r.mapped == [handle] && r.unmapped == [] && !r.Tidy()
  {
    BudgetTight(skb);
    var bus := Bus(false, false);
    assert FirstZero([handle], 2) == 1;
    assert HandlesDown([handle], 1, 1) == [] && [handle][..1] == [handle];
    hide PacketChunks, Reserved, FirstZero, HandlesDown;
    r := new TxRing(64);
    status := r.XmitFrame(skb, bus, false, 17, false, false, [handle]);
  }
}
