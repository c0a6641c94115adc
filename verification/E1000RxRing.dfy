/** The e1000 receive ring with one buffer per frame: refilling, the 64 KiB
    errata, and dropping the frames that spill over several buffers. */
module E1000RxRing {
  import opened Ring
  import opened Wrappers
  import opened Words
  import opened Accounts
  import opened NetDev
  import opened E1000RxFrames

  // ------------------------------------------------------------ errata 23

  /** x ^ y */
  function Xor(x: nat, y: nat): nat {
    if x == 0 && y == 0 then 0 else 2 * Xor(x / 2, y / 2) + (x + y) % 2
  }

  /** x >> k */
  function Shr(x: nat, k: nat): nat {
    if k == 0 then x else Shr(x / 2, k - 1)
  }

  /** The test of e1000_check_64k_bound, on the first and the last byte. */
  predicate XorTest(begin: u64, last: u64) {
    Shr(Xor(begin, last), 16) == 0
  }

  /** e1000_check_64k_bound. `affected` says that the MAC is an 82545, an 82546 or a CE4100. */
  predicate Check64k(affected: bool, start: u64, len: nat) {
    affected ==> XorTest(start, (start + len - 1) % TWO_64)
  }

  lemma {:induction false} XorShr(x: nat, y: nat, k: nat)
    ensures Shr(Xor(x, y), k) == Xor(Shr(x, k), Shr(y, k))
    decreases k
  {
    if k > 0 {
      assert Xor(x, y) / 2 == Xor(x / 2, y / 2);
      XorShr(x / 2, y / 2, k - 1);
    }
  }

  lemma {:induction false} XorZero(x: nat, y: nat)
    ensures Xor(x, y) == 0 <==> x == y
  {
    if x != 0 || y != 0 {
      XorZero(x / 2, y / 2);
    }
  }

  lemma {:induction false} ShrOrder(x: nat, y: nat, k: nat)
    requires x <= y
    ensures Shr(x, k) <= Shr(y, k)
    decreases k
  {
    if k > 0 {
      ShrOrder(x / 2, y / 2, k - 1);
    }
  }

  /** The 64 KiB page of an address. */
  function Page(x: nat): nat {
    Shr(x, 16)
  }

  lemma PageIsQuotient(x: nat)
    ensures Page(x) == x / 0x10000
  {
    ShrDiv(x, 4);
    ShrDiv(x / 16, 4);
    ShrDiv(x / 256, 4);
    ShrDiv(x / 4096, 4);
    ShrAdd(x, 4, 12);
    ShrAdd(x / 16, 4, 8);
    ShrAdd(x / 256, 4, 4);
  }

  lemma {:induction false} ShrAdd(x: nat, j: nat, k: nat)
    ensures Shr(x, j + k) == Shr(Shr(x, j), k)
    decreases j
  {
    if j > 0 {
      ShrAdd(x / 2, j - 1, k);
    }
  }

  lemma ShrDiv(x: nat, k: nat)
    requires k == 4
    ensures Shr(x, k) == x / 16
  {
    assert Shr(x, 4) == Shr(x / 2, 3) == Shr(x / 2 / 2, 2) == Shr(x / 2 / 2 / 2, 1) == x / 2 / 2 / 2 / 2;
  }

  /** On the MACs with errata 23 the check passes exactly the buffers whose first and last
      byte share a 64 KiB page, and those are the buffers that lie within one. */
  lemma CheckIsOnePage(start: u64, len: nat)
    requires 0 < len && start + len <= TWO_64
    ensures Check64k(true, start, len) <==> start / 0x10000 == (start + len - 1) / 0x10000
    ensures Check64k(true, start, len) <==> forall x :: start <= x < start + len ==> Page(x) == Page(start)
  {
    hide Shr, Xor;
    var last := start + len - 1;
    XorShr(start, last, 16);
    XorZero(Page(start), Page(last));
    PageIsQuotient(start);
    PageIsQuotient(last);
    forall x | start <= x < start + len ensures Page(start) <= Page(x) <= Page(last) {
      ShrOrder(start, x, 16);
      ShrOrder(x, last, 16);
    }
  }

  // ----------------------------------------------------------------- frames

  /** With one buffer per frame, the frames that came in one piece and pass the
      filter; all others are dropped whole. */
  function LoneFrames(c: Config, gs: seq<seq<Piece>>): seq<Bytes> {
    if gs == [] then []
    else
      var g := gs[|gs| - 1];
      LoneFrames(c, gs[..|gs| - 1]) + (if |g| == 1 then Filter(c, g[0], g[0].bytes) else [])
  }

  /** What has been delivered after a stream, and that a frame is under way. */
  ghost predicate Refines(c: Config, consumed: seq<Piece>, delivered: seq<Bytes>, discarding: bool) {
    delivered == LoneFrames(c, Closed(consumed)) && (discarding <==> Open(consumed) != [])
  }

  lemma RefinesStep(c: Config, consumed: seq<Piece>, delivered: seq<Bytes>, discarding: bool, p: Piece)
    requires Refines(c, consumed, delivered, discarding)
    ensures Refines(c, consumed + [p], delivered + (if p.eop && !discarding then Filter(c, p, p.bytes) else []), !p.eop)
  {
    CutSnoc(consumed, p);
    if p.eop {
      var gs := Closed(consumed) + [Open(consumed) + [p]];
      assert gs[..|gs| - 1] == Closed(consumed);
    }
  }

  // ------------------------------------------------------------------- ring

  /** e1000_rx_buffer */
  datatype Buf = Buf(data: u64, dma: u64)

  datatype Desc = Desc(dd: bool, piece: Piece, addr: u64)

  const NO_BUF: Buf := Buf(0, 0)

  /** How the ring is filled: with fragments, subject to errata 23, or with pages. */
  datatype Kind = Lone(errata23: bool, bufLen: nat) | Jumbo

  /** What a slot may hold. */
  ghost predicate BufOk(m: Kind, b: Buf) {
    match m
    case Lone(errata23, bufLen) =>
      && (b.data == 0 <==> b.dma == 0)
      && (b.data != 0 ==> Check64k(errata23, b.data, bufLen) && Check64k(errata23, b.dma, bufLen))
    case Jumbo => b.data == 0 ==> b.dma == 0
  }

  /** Slot k places after the next one to clean: the first `window` slots are the
      hardware's, with a live, mapped and published buffer; the first of them are
      filled with the waiting pieces; no slot beyond is marked done. */
  ghost predicate SlotOk(m: Kind, b: Buf, d: Desc, k: nat, window: nat, waiting: seq<Piece>) {
    && BufOk(m, b)
    && (k < window ==> b.data != 0 && b.dma != 0 && d.addr == b.dma)
    && (if k < |waiting| then d.dd && d.piece == waiting[k] else !d.dd)
  }

  ghost predicate RingOk(m: Kind, bufs: seq<Buf>, descs: seq<Desc>, clean: nat, use: nat, waiting: seq<Piece>) {
    && |bufs| == |descs| && clean < |bufs| && use < |bufs| && |waiting| <= Dist(clean, use, |bufs|)
    && forall j :: 0 <= j < |bufs| ==>
         SlotOk(m, bufs[j], descs[j], Dist(clean, j, |bufs|), Dist(clean, use, |bufs|), waiting)
  }

  lemma RingSizes(m: Kind, bufs: seq<Buf>, descs: seq<Desc>, clean: nat, use: nat, waiting: seq<Piece>)
    requires RingOk(m, bufs, descs, clean, use, waiting)
    ensures |bufs| == |descs| && clean < |bufs| && use < |bufs| && |waiting| <= Dist(clean, use, |bufs|) < |bufs|
  {
  }

  lemma CleanSlot(m: Kind, bufs: seq<Buf>, descs: seq<Desc>, clean: nat, use: nat, waiting: seq<Piece>)
    requires RingOk(m, bufs, descs, clean, use, waiting)
    ensures clean < |bufs| == |descs| && SlotOk(m, bufs[clean], descs[clean], 0, Dist(clean, use, |bufs|), waiting)
  {
  }

  lemma UseSlot(m: Kind, bufs: seq<Buf>, descs: seq<Desc>, clean: nat, use: nat, waiting: seq<Piece>)
    requires RingOk(m, bufs, descs, clean, use, waiting)
    ensures use < |bufs| == |descs| && BufOk(m, bufs[use])
  {
    assert SlotOk(m, bufs[use], descs[use], Dist(clean, use, |bufs|), Dist(clean, use, |bufs|), waiting);
  }

  /** One more buffer handed to the hardware. */
  lemma Refilled(m: Kind, bufs: seq<Buf>, descs: seq<Desc>, clean: nat, use: nat, waiting: seq<Piece>, b: Buf)
    requires RingOk(m, bufs, descs, clean, use, waiting) && Unused(clean, use, |bufs|) > 0
    requires BufOk(m, b) && b.data != 0 && b.dma != 0
    ensures RingOk(m, bufs[use := b], descs[use := descs[use].(addr := b.dma)], clean, Next(use, |bufs|), waiting)
    ensures Unused(clean, Next(use, |bufs|), |bufs|) == Unused(clean, use, |bufs|) - 1
  {
    var bufs', descs', next := bufs[use := b], descs[use := descs[use].(addr := b.dma)], Next(use, |bufs|);
    forall j | 0 <= j < |bufs|
      ensures SlotOk(m, bufs'[j], descs'[j], Dist(clean, j, |bufs|), Dist(clean, next, |bufs|), waiting)
    {
      assert SlotOk(m, bufs[j], descs[j], Dist(clean, j, |bufs|), Dist(clean, use, |bufs|), waiting);
    }
  }

  /** A slot outside the window may be left with whatever it may hold. */
  lemma Replaced(m: Kind, bufs: seq<Buf>, descs: seq<Desc>, clean: nat, use: nat, waiting: seq<Piece>, b: Buf)
    requires RingOk(m, bufs, descs, clean, use, waiting) && use < |bufs| && BufOk(m, b)
    ensures RingOk(m, bufs[use := b], descs, clean, use, waiting)
  {
    forall j | 0 <= j < |bufs|
      ensures SlotOk(m, bufs[use := b][j], descs[j], Dist(clean, j, |bufs|), Dist(clean, use, |bufs|), waiting)
    {
      assert SlotOk(m, bufs[j], descs[j], Dist(clean, j, |bufs|), Dist(clean, use, |bufs|), waiting);
    }
  }

  /** The oldest buffer comes back from the hardware. */
  lemma Consumed(m: Kind, bufs: seq<Buf>, descs: seq<Desc>, clean: nat, use: nat, waiting: seq<Piece>, b: Buf)
    requires RingOk(m, bufs, descs, clean, use, waiting) && waiting != [] && clean < |bufs| == |descs|
    requires BufOk(m, b)
    ensures RingOk(m, bufs[clean := b], descs[clean := descs[clean].(dd := false)], Next(clean, |bufs|), use,
        waiting[1..])
    ensures Unused(Next(clean, |bufs|), use, |bufs|) == Unused(clean, use, |bufs|) + 1
  {
    var bufs', descs', next := bufs[clean := b], descs[clean := descs[clean].(dd := false)], Next(clean, |bufs|);
    forall j | 0 <= j < |bufs|
      ensures SlotOk(m, bufs'[j], descs'[j], Dist(next, j, |bufs|), Dist(next, use, |bufs|), waiting[1..])
    {
      assert SlotOk(m, bufs[j], descs[j], Dist(clean, j, |bufs|), Dist(clean, use, |bufs|), waiting);
    }
  }

  /** The hardware fills the next buffer of the window. */
  lemma Received(m: Kind, bufs: seq<Buf>, descs: seq<Desc>, clean: nat, use: nat, waiting: seq<Piece>, p: Piece)
    requires RingOk(m, bufs, descs, clean, use, waiting) && clean < |bufs| && use < |bufs|
        && |waiting| < Dist(clean, use, |bufs|)
    ensures var e := Wrap(clean + |waiting|, |bufs|);
            && e < |descs|
            && RingOk(m, bufs, descs[e := descs[e].(dd := true, piece := p)], clean, use, waiting + [p])
  {
    var e := Wrap(clean + |waiting|, |bufs|);
    var descs' := descs[e := descs[e].(dd := true, piece := p)];
    forall j | 0 <= j < |bufs|
      ensures SlotOk(m, bufs[j], descs'[j], Dist(clean, j, |bufs|), Dist(clean, use, |bufs|), waiting + [p])
    {
      assert SlotOk(m, bufs[j], descs[j], Dist(clean, j, |bufs|), Dist(clean, use, |bufs|), waiting);
    }
  }

  // ---------------------------------------------------------------- accounts

  /** The fragments in the ring. */
  function Frags(bufs: seq<Buf>): multiset<u64> {
    Held(seq(|bufs|, i requires 0 <= i < |bufs| => bufs[i].data))
  }

  /** The mappings in the ring. */
  function Dmas(bufs: seq<Buf>): multiset<u64> {
    Held(seq(|bufs|, i requires 0 <= i < |bufs| => bufs[i].dma))
  }

  lemma FragsUpdate(bufs: seq<Buf>, i: nat, b: Buf)
    requires i < |bufs|
    ensures Frags(bufs[i := b]) + One(bufs[i].data) == Frags(bufs) + One(b.data)
    ensures Dmas(bufs[i := b]) + One(bufs[i].dma) == Dmas(bufs) + One(b.dma)
  {
    hide One, Held;
    var ds, ms := seq(|bufs|, i requires 0 <= i < |bufs| => bufs[i].data),
        seq(|bufs|, i requires 0 <= i < |bufs| => bufs[i].dma);
    var bufs' := bufs[i := b];
    assert seq(|bufs'|, i requires 0 <= i < |bufs'| => bufs'[i].data) == ds[i := b.data];
    assert seq(|bufs'|, i requires 0 <= i < |bufs'| => bufs'[i].dma) == ms[i := b.dma];
    HeldUpdate(ds, i, b.data);
    HeldUpdate(ms, i, b.dma);
  }

  /** A new buffer in an empty slot is on the books. */
  lemma Mapped(mapped: seq<u64>, unmapped: seq<u64>, b: seq<Buf>, i: nat, x: Buf)
    requires i < |b| && b[i] == NO_BUF && x.dma != 0 && OwedMaps(mapped, unmapped, Dmas(b))
    ensures OwedMaps(mapped + [x.dma], unmapped, Dmas(b[i := x]))
  {
    hide Dmas, Frags;
    FragsUpdate(b, i, x);
    assert Dmas(b[i := x]) == Dmas(b) + multiset{x.dma};
    assert multiset(mapped + [x.dma]) == multiset(mapped) + multiset{x.dma};
  }

  lemma Stocked(got: seq<u64>, gone: seq<u64>, given: seq<u64>, b: seq<Buf>, i: nat, x: Buf)
    requires i < |b| && b[i] == NO_BUF && Owed(got, gone, given, Frags(b) + One(x.data))
    ensures Owed(got, gone, given, Frags(b[i := x]))
  {
    hide Dmas, Frags;
    FragsUpdate(b, i, x);
    assert One(0) == multiset{};
  }

  /** A buffer taken out of the ring for good. */
  lemma Removed(got: seq<u64>, gone: seq<u64>, given: seq<u64>, mapped: seq<u64>, unmapped: seq<u64>, b: seq<Buf>,
      i: nat)
    requires i < |b| && b[i].data != 0 && b[i].dma != 0
    requires Owed(got, gone, given, Frags(b)) && OwedMaps(mapped, unmapped, Dmas(b))
    ensures Owed(got, gone, given + [b[i].data], Frags(b[i := NO_BUF]))
    ensures OwedMaps(mapped, unmapped + [b[i].dma], Dmas(b[i := NO_BUF]))
  {
    hide Dmas, Frags;
    FragsUpdate(b, i, NO_BUF);
    assert Frags(b) == Frags(b[i := NO_BUF]) + multiset{b[i].data};
    assert Dmas(b) == Dmas(b[i := NO_BUF]) + multiset{b[i].dma};
    assert multiset(given + [b[i].data]) == multiset(given) + multiset{b[i].data};
    assert multiset(unmapped + [b[i].dma]) == multiset(unmapped) + multiset{b[i].dma};
  }

  /** A frame that arrives while none is open has its length on the wire. */
  lemma OpenIsDiscarding(c: Config, consumed: seq<Piece>, delivered: seq<Bytes>, discarding: bool, p: Piece)
    requires Refines(c, consumed, delivered, discarding)
    requires p.eop ==> Wired(Open(consumed) + [p])
    ensures p.eop && !discarding ==> |p.bytes| >= 5
  {
    if p.eop && !discarding {
      assert [] + [p] == [p] && [p][..0] == [];
      assert BytesOf([p]) == BytesOf([]) + p.bytes;
    }
  }

  /** Once written, RDT is the last slot of the window. */
  ghost predicate RdtOk(rdt: Option<nat>, use: nat, n: nat) {
    rdt.Some? ==> rdt.value < n && Next(rdt.value, n) == use
  }

  lemma LiveSlot(m: Kind, bufs: seq<Buf>, descs: seq<Desc>, clean: nat, use: nat, waiting: seq<Piece>)
    requires RingOk(m, bufs, descs, clean, use, waiting) && waiting != []
    ensures clean < |bufs| == |descs| && bufs[clean].data != 0 && bufs[clean].dma != 0
        && descs[clean].piece == waiting[0]
  {
    CleanSlot(m, bufs, descs, clean, use, waiting);
  }

  lemma EmptyRing(b: seq<Buf>)
    requires forall i :: 0 <= i < |b| ==> b[i] == NO_BUF
    ensures Frags(b) == multiset{} && Dmas(b) == multiset{}
  {
    NothingHeld(seq(|b|, i requires 0 <= i < |b| => b[i].data));
    NothingHeld(seq(|b|, i requires 0 <= i < |b| => b[i].dma));
  }

  class RxRing {
    const errata23: bool
    const bufLen: nat
    const config: Config
    const copybreak: nat
    const bufferWrite: nat           // E1000_RX_BUFFER_WRITE
    const frags: nat -> u64          // what each e1000_alloc_frag returns
    const maps: nat -> u64           // what each dma_map_single returns, 0 on error
    const copies: nat -> bool        // whether an skb for a copy can be had
    const builds: nat -> bool        // whether build_skb succeeds
    const bufs: array<Buf>
    const descs: array<Desc>
    var nextToUse: nat
    var nextToClean: nat
    var rdt: Option<nat>             // the last value written to RDT
    var discarding: bool
    var asked: nat
    var mapAsked: nat
    var tries: nat
    var allocFailed: nat             // alloc_rx_buff_failed

    ghost var waiting: seq<Piece>    // received, not looked at yet
    ghost var consumed: seq<Piece>   // every piece ever looked at
    ghost var delivered: seq<Bytes>  // every frame given to the stack
    ghost var got: seq<u64>
    ghost var gone: seq<u64>
    ghost var given: seq<u64>
    ghost var mapped: seq<u64>
    ghost var unmapped: seq<u64>

    ghost function Fill(): Kind {
      Lone(errata23, bufLen)
    }

    predicate Check(start: u64) {
      Check64k(errata23, start, bufLen)
    }

    /** e1000_alloc_frag */
    method AllocFrag(ghost live: multiset<u64>) returns (data: u64)
      requires Owed(got, gone, given, live)
      modifies this`asked, this`got
      ensures data == frags(old(asked)) && asked == old(asked) + 1
      ensures Owed(got, gone, given, live + One(data))
    {
      data := frags(asked);
      asked := asked + 1;
      Got(got, gone, given, live, data);
      got := if data == 0 then got else got + [data];
    }

    /** skb_free_frag */
    method FreeFrag(data: u64, ghost live: multiset<u64>)
      requires data != 0 && Owed(got, gone, given, live + One(data))
      modifies this`gone
      ensures Owed(got, gone, given, live)
    {
      Gone(got, gone, given, live, data);
      gone := gone + [data];
    }

    /** The fragment that passes, if one of the next two does and is needed. */
    function Chosen(a: nat): u64 {
      if frags(a) == 0 || Check(frags(a)) then frags(a)
      else if frags(a + 1) == 0 || Check(frags(a + 1)) then frags(a + 1)
      else 0
    }

    /** The choice of a fragment in e1000_alloc_rx_buffers: a second one if the first
        crosses a 64 KiB boundary, and none if that does too. 0 is failure. */
    method PickFrag(ghost live: multiset<u64>) returns (data: u64)
      requires Owed(got, gone, given, live)
      modifies this`asked, this`got, this`gone
      ensures data != 0 ==> Check64k(errata23, data, bufLen)
      ensures data == Chosen(old(asked))
      ensures Owed(got, gone, given, live + One(data))
    {
      hide Owed, Check64k, One;
      data := AllocFrag(live);
      if data != 0 && !Check(data) {
        var oldData := data;
        data := AllocFrag(live + One(oldData));
        MultisetSwap(live, One(oldData), One(data));
        if data == 0 {
          NoOne(live + One(oldData));
          FreeFrag(oldData, live);
          NoOne(live);
        } else {
          FreeFrag(oldData, live + One(data));
          if !Check(data) {
            FreeFrag(data, live);
            data := 0;
            NoOne(live);
          }
        }
      }
    }

    /** One slot of e1000_alloc_rx_buffers, up to `skip`: it keeps the buffer it has,
        gets one the hardware may use, or stays as it was. */
    method AllocBuffer(i: nat) returns (ok: bool)
      requires i < bufs.Length && BufOk(Fill(), bufs[i])
      requires Owed(got, gone, given, Frags(bufs[..])) && OwedMaps(mapped, unmapped, Dmas(bufs[..]))
      modifies bufs, this`asked, this`mapAsked, this`allocFailed, this`got, this`gone, this`mapped, this`unmapped
      ensures Owed(got, gone, given, Frags(bufs[..])) && OwedMaps(mapped, unmapped, Dmas(bufs[..]))
      ensures ok <==>
                || old(bufs[i]).data != 0
                || (Chosen(old(asked)) != 0 && maps(old(mapAsked)) != 0 && Check(maps(old(mapAsked))))
      ensures allocFailed == old(allocFailed) + if ok then 0 else 1
      ensures bufs[..] == old(bufs[..])[i := bufs[i]] && BufOk(Fill(), bufs[i]) && (ok <==> bufs[i].data != 0)
          && (ok <==> bufs[i].dma != 0)
      ensures !ok || old(bufs[i]).data != 0 ==> bufs[..] == old(bufs[..])
    {
      hide Owed, OwedMaps, Frags, Dmas, Check64k, One, Chosen;
      if bufs[i].data != 0 {
        return true;
      }
      ghost var b := bufs[..];
      var data := PickFrag(Frags(b));
      if data == 0 {
        NoOne(Frags(b));
        allocFailed := allocFailed + 1;
        return false;
      }
      var dma := maps(mapAsked);
      mapAsked := mapAsked + 1;
      bufs[i] := bufs[i].(dma := dma);
      if dma == 0 {
        FreeFrag(data, Frags(b));
        bufs[i] := bufs[i].(dma := 0);
        assert bufs[..] == b;
        allocFailed := allocFailed + 1;
        return false;
      }
      if !Check(dma) {
        MapAndUnmap(mapped, unmapped, Dmas(b), dma);
        mapped, unmapped := mapped + [dma], unmapped + [dma];
        FreeFrag(data, Frags(b));
        bufs[i] := NO_BUF;
        assert bufs[..] == b;
        allocFailed := allocFailed + 1;
        return false;
      }
      Mapped(mapped, unmapped, b, i, Buf(data, dma));
      Stocked(got, gone, given, b, i, Buf(data, dma));
      mapped := mapped + [dma];
      bufs[i] := bufs[i].(data := data);
      assert bufs[..] == b[i := Buf(data, dma)];
      return true;
    }

    /** The ring is in order, seen from slot `clean`, with `use` the next slot to refill. */
    ghost predicate Sound(clean: nat, use: nat)
      reads this`waiting, this`got, this`gone, this`given, this`mapped, this`unmapped, bufs, descs
    {
      && bufs.Length == descs.Length && RingOk(Fill(), bufs[..], descs[..], clean, use, waiting)
      && Owed(got, gone, given, Frags(bufs[..])) && OwedMaps(mapped, unmapped, Dmas(bufs[..]))
    }

    /** One turn of the loop of e1000_alloc_rx_buffers. */
    method RefillSlot(i: nat, ghost clean: nat) returns (ok: bool, next: nat)
      requires Sound(clean, i) && i < bufs.Length && clean < bufs.Length && Unused(clean, i, bufs.Length) > 0
      modifies bufs, descs, this`asked, this`mapAsked, this`allocFailed, this`got, this`gone, this`mapped, this`unmapped
      ensures next < bufs.Length && Sound(clean, next) && next == if ok then Next(i, bufs.Length) else i
      ensures allocFailed == old(allocFailed) + if ok then 0 else 1
      ensures ok ==> Unused(clean, next, bufs.Length) == Unused(clean, i, bufs.Length) - 1
    {
      hide RingOk, Owed, OwedMaps, Frags, Dmas, BufOk;
      ghost var b, d := bufs[..], descs[..];
      UseSlot(Fill(), b, d, clean, i, waiting);
      ok := AllocBuffer(i);
      if !ok {
        return false, i;
      }
      Refilled(Fill(), b, d, clean, i, waiting, bufs[i]);
      descs[i] := descs[i].(addr := bufs[i].dma);
      return true, Next(i, bufs.Length);
    }

    /** e1000_alloc_rx_buffers. The window grows by as many slots as could be given a
        buffer, and RDT then names the last of them. */
    method AllocRxBuffers(cleanedCount: nat, ghost clean: nat)
      requires Sound(clean, nextToUse) && nextToUse < bufs.Length && clean < bufs.Length
      requires cleanedCount <= Unused(clean, nextToUse, bufs.Length)
      modifies bufs, descs, this`nextToUse, this`rdt, this`asked, this`mapAsked, this`allocFailed, this`got, this`gone,
          this`mapped, this`unmapped
      ensures nextToUse < bufs.Length && Sound(clean, nextToUse)
      ensures old(Unused(clean, nextToUse, bufs.Length)) - cleanedCount <= Unused(clean, nextToUse, bufs.Length)
      ensures Unused(clean, nextToUse, bufs.Length) <= old(Unused(clean, nextToUse, bufs.Length))
      ensures allocFailed >= old(allocFailed)
      ensures allocFailed == old(allocFailed) <==>
                Unused(clean, nextToUse, bufs.Length) == old(Unused(clean, nextToUse, bufs.Length)) - cleanedCount
      ensures if nextToUse == old(nextToUse) then rdt == old(rdt)
              else rdt.Some? && rdt.value < bufs.Length && Next(rdt.value, bufs.Length) == nextToUse
    {
      hide Sound;
      var i: nat, left: nat := nextToUse, cleanedCount;
      while left > 0
        invariant i < bufs.Length && Sound(clean, i) && left <= Unused(clean, i, bufs.Length)
        invariant old(Unused(clean, nextToUse, bufs.Length)) - cleanedCount + left == Unused(clean, i, bufs.Length)
        invariant nextToUse == old(nextToUse) && rdt == old(rdt) && allocFailed == old(allocFailed)
      {
        var ok;
        ok, i := RefillSlot(i, clean);
        if !ok {
          break;
        }
        left := left - 1;
      }
      if nextToUse != i {
        nextToUse := i;
        rdt := Some(if i == 0 then bufs.Length - 1 else i - 1);
      }
    }

    /** An skb for the piece can be had at turn t: a copy of a short frame, or one around its buffer. */
    predicate Served(p: Piece, t: nat) {
      (|p.bytes| <= copybreak && copies(t)) || builds(t)
    }

    /** The skbs of the first n of the pieces w can be had, the first at turn t + 1. */
    ghost predicate AllServed(w: seq<Piece>, t: nat, n: nat) {
      n <= |w| && forall k :: 0 <= k < n ==> Served(w[k], t + k + 1)
    }

    lemma AllServedNone(w: seq<Piece>, t: nat)
      ensures AllServed(w, t, 0)
    {
    }

    lemma ServedNext(w: seq<Piece>, t: nat, n: nat, ok: bool)
      requires n < |w| && AllServed(w, t, n) && ok == Served(w[n..][0], t + n + 1)
      ensures ok ==> AllServed(w, t, n + 1)
      ensures ok == Served(w[n], t + n + 1)
    {
      hide Served;
    }

    /** The skb for the buffer in slot i: a copy of a short frame, or else one built
        around the buffer, which then leaves the ring. False if neither can be had. */
    method TakeSkb(i: nat, length: nat) returns (ok: bool)
      requires i < bufs.Length && bufs[i].data != 0 && bufs[i].dma != 0
      requires Owed(got, gone, given, Frags(bufs[..])) && OwedMaps(mapped, unmapped, Dmas(bufs[..]))
      modifies bufs, this`tries, this`allocFailed, this`given, this`unmapped
      ensures Owed(got, gone, given, Frags(bufs[..])) && OwedMaps(mapped, unmapped, Dmas(bufs[..]))
      ensures tries == old(tries) + 1 && (ok <==> (length <= copybreak && copies(tries)) || builds(tries))
      ensures if ok && !(length <= copybreak && copies(tries)) then
                && bufs[..] == old(bufs[..])[i := NO_BUF]
                && given == old(given) + [old(bufs[i].data)] && unmapped == old(unmapped) + [old(bufs[i].dma)]
              else bufs[..] == old(bufs[..]) && given == old(given) && unmapped == old(unmapped)
      ensures allocFailed >= old(allocFailed) && (!ok ==> allocFailed > old(allocFailed))
    {
      hide Owed, OwedMaps, Frags, Dmas;
      tries := tries + 1;
      if length <= copybreak {
        if copies(tries) {
          return true;
        }
        allocFailed := allocFailed + 1;
      }
      if !builds(tries) {
        allocFailed := allocFailed + 1;
        return false;
      }
      ghost var b := bufs[..];
      Removed(got, gone, given, mapped, unmapped, b, i);
      unmapped := unmapped + [bufs[i].dma];
      given := given + [bufs[i].data];
      bufs[i] := NO_BUF;
      assert bufs[..] == b[i := NO_BUF];
      return true;
    }

    /** What e1000_clean_rx_irq does with the frame, if it is one: drop it while a
        frame that spilled over is being discarded, filter it, or deliver it. */
    method Receive(p: Piece)
      requires Refines(config, consumed, delivered, discarding)
      requires p.eop ==> Wired(Open(consumed) + [p])
      modifies this`discarding, this`consumed, this`delivered
      ensures Refines(config, consumed, delivered, discarding) && consumed == old(consumed) + [p]
    {
      RefinesStep(config, consumed, delivered, discarding, p);
      OpenIsDiscarding(config, consumed, delivered, discarding, p);
      hide Refines, Open, Wired;
      assert delivered + [] == delivered;
      consumed := consumed + [p];
      if !p.eop {
        discarding := true;
      }
      if discarding {
        if p.eop {
          discarding := false;
        }
        return;
      }
      var length := |p.bytes|;
      assert p.bytes[..length] == p.bytes && p.bytes[..length - 1][..length - 5] == p.bytes[..length - 5];
      if p.error {
        if p.tbi {
          length := length - 1;
        } else if !config.rxAll {
          return;
        }
      }
      assert length >= 4;
      if !config.rxFcs {
        length := length - 4;
      }
      delivered := delivered + [p.bytes[..length]];
    }

    /** The state between polls. */
    ghost predicate Valid()
      reads this, bufs, descs
    {
      && Sound(nextToClean, nextToUse) && nextToUse < bufs.Length && nextToClean < bufs.Length
      && Refines(config, consumed, delivered, discarding) && OnTheWire(consumed + waiting)
      && RdtOk(rdt, nextToUse, bufs.Length)
    }

    /** One turn of the loop of e1000_clean_rx_irq, up to the end of `next_desc`'s first line. */
    method CleanOne(i: nat, ghost use: nat) returns (ok: bool, next: nat)
      requires Sound(i, use) && i < bufs.Length && use < bufs.Length && waiting != []
      requires Refines(config, consumed, delivered, discarding) && OnTheWire(consumed + waiting)
      modifies bufs, descs, this`tries, this`allocFailed, this`given, this`unmapped, this`discarding, this`consumed,
          this`delivered, this`waiting
      ensures Sound(next, use) && next < bufs.Length && next == if ok then Next(i, bufs.Length) else i
      ensures Refines(config, consumed, delivered, discarding)
      ensures tries == old(tries) + 1 && (ok <==> Served(old(waiting)[0], tries))
      ensures Unused(next, use, bufs.Length) == Unused(i, use, bufs.Length) + if ok then 1 else 0
      ensures allocFailed >= old(allocFailed)
      ensures consumed == old(consumed) + if ok then old(waiting)[..1] else []
      ensures waiting == (if ok then old(waiting)[1..] else old(waiting))
          && consumed + waiting == old(consumed + waiting)
    {
      hide RingOk, Owed, OwedMaps, Frags, Dmas, Refines, Wired, OnTheWire, Closed, BufOk;
      ghost var b, d, w := bufs[..], descs[..], waiting;
      CleanSlot(Fill(), b, d, i, use, w);
      RingSizes(Fill(), b, d, i, use, w);
      LiveSlot(Fill(), b, d, i, use, w);
      var p := descs[i].piece;
      ok := TakeSkb(i, |p.bytes|);
      if !ok {
        assert bufs[..] == b;
        return false, i;
      }
      assert bufs[..] == b[i := bufs[i]];
      Consumed(Fill(), b, d, i, use, w, bufs[i]);
      if p.eop {
        WireAt(consumed, w);
      }
      Receive(p);
      descs[i] := descs[i].(dd := false);
      waiting := waiting[1..];
      return true, Next(i, bufs.Length);
    }

    /** The state inside the loop of e1000_clean_rx_irq: of the slots up to i,
        cleanedCount have not been refilled yet. */
    ghost predicate Polling(i: nat, cleanedCount: nat)
      reads this, bufs, descs
    {
      && Sound(i, nextToUse) && nextToUse < bufs.Length && i < bufs.Length
          && cleanedCount <= Unused(i, nextToUse, bufs.Length)
      && Refines(config, consumed, delivered, discarding) && OnTheWire(consumed + waiting)
      && RdtOk(rdt, nextToUse, bufs.Length)
    }

    /** The loop test of e1000_clean_rx_irq. */
    lemma DoneIsWaiting(i: nat, cleanedCount: nat)
      requires Polling(i, cleanedCount)
      ensures i < bufs.Length == descs.Length && (descs[i].dd <==> waiting != [])
    {
      CleanSlot(Fill(), bufs[..], descs[..], i, nextToUse, waiting);
    }

    /** One turn of the loop of e1000_clean_rx_irq, with the refill in its midst. */
    method CleanTurn(i: nat, cleanedCount: nat) returns (ok: bool, next: nat, count: nat)
      requires Polling(i, cleanedCount) && waiting != []
      requires cleanedCount < bufferWrite || cleanedCount == 0
      modifies this, bufs, descs
      ensures Polling(next, count) && nextToClean == old(nextToClean) && tries == old(tries) + 1
          && (ok <==> Served(old(waiting)[0], tries)) && allocFailed >= old(allocFailed)
      ensures consumed == old(consumed) + if ok then old(waiting)[..1] else []
      ensures waiting == if ok then old(waiting)[1..] else old(waiting)
      ensures count < bufferWrite || count == 0
      ensures next < bufs.Length && nextToUse < bufs.Length
      ensures ok && allocFailed == old(allocFailed) ==>
                Unused(next, nextToUse, bufs.Length) - count == old(Unused(i, nextToUse, bufs.Length)) - cleanedCount
    {
      hide Sound, Refines, OnTheWire;
      count := cleanedCount;
      ok, next := CleanOne(i, nextToUse);
      if ok {
        count := count + 1;
        if count >= bufferWrite {
          AllocRxBuffers(count, next);
          count := 0;
        }
      }
    }

    /** e1000_clean_rx_irq: take the waiting pieces in order, until none is left, the
        budget is used up, or no skb can be had; that piece waits for the next poll. */
    method CleanRxIrq(workToDo: nat) returns (workDone: nat, cleaned: bool, ghost m: nat)
      requires Valid()
      modifies this, bufs, descs
      ensures Valid()
      ensures m <= |old(waiting)| && m <= workToDo && cleaned == (m > 0)
      ensures consumed == old(consumed) + old(waiting)[..m] && waiting == old(waiting)[m..]
      ensures AllServed(old(waiting), old(tries), m)
      ensures if m < |old(waiting)| && m < workToDo then
                !Served(old(waiting)[m], old(tries) + m + 1) && workDone == m + 1
              else workDone == m
      ensures nextToUse < bufs.Length && nextToClean < bufs.Length
      ensures allocFailed == old(allocFailed) ==> Unused(nextToClean, nextToUse, bufs.Length) == 0
    {
      hide Polling, Valid, Served, AllServed;
      var i: nat, cleanedCount: nat := nextToClean, 0;
      workDone, cleaned, m := 0, false, 0;
      StartPoll();
      DoneIsWaiting(i, cleanedCount);
      AllServedNone(waiting, tries);
      while descs[i].dd
        invariant cleanedCount < bufferWrite || cleanedCount == 0
        invariant Polling(i, cleanedCount) && i < descs.Length && (descs[i].dd <==> waiting != [])
        invariant m <= |old(waiting)| && workDone == m <= workToDo && cleaned == (m > 0)
            && allocFailed >= old(allocFailed)
        invariant consumed == old(consumed) + old(waiting)[..m] && waiting == old(waiting)[m..]
        invariant tries == old(tries) + m && AllServed(old(waiting), old(tries), m)
        decreases |waiting|
      {
        if workDone >= workToDo {
          break;
        }
        workDone := workDone + 1;
        var ok;
        ok, i, cleanedCount := CleanTurn(i, cleanedCount);
        ServedNext(old(waiting), old(tries), m, ok);
        if !ok {
          break;
        }
        m := m + 1;
        cleaned := true;
        DoneIsWaiting(i, cleanedCount);
      }
      EndPoll(i, cleanedCount);
    }

    /** The end of e1000_clean_rx_irq. */
    method EndPoll(i: nat, ghost cleanedCount0: nat)
      requires Polling(i, cleanedCount0)
      modifies bufs, descs, this`nextToClean, this`nextToUse, this`rdt, this`asked, this`mapAsked, this`allocFailed,
          this`got, this`gone, this`mapped, this`unmapped
      ensures Valid() && nextToClean == i && allocFailed >= old(allocFailed)
      ensures nextToUse < bufs.Length && i < bufs.Length
          && (allocFailed == old(allocFailed) ==> Unused(i, nextToUse, bufs.Length) == 0)
    {
      hide Sound, Refines, OnTheWire;
      nextToClean := i;
      var cleanedCount := Unused(nextToClean, nextToUse, bufs.Length);
      if cleanedCount > 0 {
        AllocRxBuffers(cleanedCount, i);
      }
    }

    lemma StartPoll()
      requires Valid()
      ensures Polling(nextToClean, 0)
    {
    }

    /** The hardware puts the next piece into the next buffer it owns. */
    method HwReceive(p: Piece, entry: nat)
      requires Valid() && |waiting| < Dist(nextToClean, nextToUse, bufs.Length)
          && entry == Wrap(nextToClean + |waiting|, bufs.Length)
      requires OnTheWire(consumed + waiting + [p])
      modifies descs, this`waiting
      ensures Valid() && waiting == old(waiting) + [p] && bufs[..] == old(bufs[..])
    {
      hide RingOk, Owed, OwedMaps, Refines, OnTheWire;
      Received(Fill(), bufs[..], descs[..], nextToClean, nextToUse, waiting, p);
      descs[entry] := descs[entry].(dd := true, piece := p);
      assert consumed + waiting + [p] == consumed + (waiting + [p]);
      waiting := waiting + [p];
    }

    /** A ring without buffers, as e1000_configure_rx finds it. */
    constructor (errata23: bool, bufLen: nat, config: Config, copybreak: nat, bufferWrite: nat, n: nat,
                 frags: nat -> u64, maps: nat -> u64, copies: nat -> bool, builds: nat -> bool)
      requires n > 0
      ensures Valid() && fresh(bufs) && fresh(descs) && waiting == [] && consumed == [] && delivered == []
    {
      this.errata23, this.bufLen, this.config, this.copybreak, this.bufferWrite := errata23, bufLen, config, copybreak,
          bufferWrite;
      this.frags, this.maps, this.copies, this.builds := frags, maps, copies, builds;
      bufs := new Buf[n](_ => NO_BUF);
      descs := new Desc[n](_ => Desc(false, Piece([], false, false, false), 0));
      nextToUse, nextToClean, rdt, discarding := 0, 0, None, false;
      asked, mapAsked, tries, allocFailed := 0, 0, 0, 0;
      waiting, consumed, delivered := [], [], [];
      got, gone, given, mapped, unmapped := [], [], [], [], [];
      new;
      EmptyRing(bufs[..]);
    }
  }
}
