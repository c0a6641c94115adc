/** The r8169 receive ring: filled as a whole or not at all, and polled in order. */
module R8169RxRing {
  import opened Ring
  import opened Words
  import opened Accounts
  import opened NetDev

  const NUM_RX_DESC: nat := 256

  /** What the NIC reports in opts1 of a descriptor it hands back, and the bytes it wrote. */
  datatype Status = Status(res: bool, rwt: bool, runt: bool, crc: bool, fovf: bool, firstFrag: bool, lastFrag: bool,
      bytes: Bytes)

  datatype RxDesc = RxDesc(own: bool, ringEnd: bool, status: Status, addr: u64)

  /** The address of a descriptor without a buffer. */
  const UNUSABLE: u64 := 0x0badbadbadbadbad

  /** rtl8169_fragmented_frame */
  predicate Fragmented(s: Status) {
    !(s.firstFrag && s.lastFrag)
  }

  /** An errored frame is passed on only under NETIF_F_RXALL, and only if all that is wrong is
      a runt or a bad checksum. */
  predicate Passes(c: Config, s: Status) {
    !s.res || ((s.runt || s.crc) && !(s.rwt || s.fovf) && c.rxAll)
  }

  /** A frame that has its checksum cut off carries one. */
  predicate Measured(c: Config, s: Status) {
    Passes(c, s) && !Fragmented(s) && !c.rxFcs ==> |s.bytes| >= 4
  }

  /** What the stack gets for one descriptor, if an skb can be had. */
  function FrameOf(c: Config, s: Status, skb: bool): seq<Bytes> {
    if Passes(c, s) && !Fragmented(s) && skb then
      [Trim(c, s.bytes)]
    else []
  }

  /** The frames of a stream of descriptors; skbs says where an skb can be had, from the n-th one on. */
  function FramesOf(c: Config, ss: seq<Status>, skbs: nat -> bool): seq<Bytes> {
    if ss == [] then []
    else FramesOf(c, ss[..|ss| - 1], skbs) + FrameOf(c, ss[|ss| - 1], skbs(|ss| - 1))
  }

  // ------------------------------------------------------------------- ring

  /** Slot j, k places after the next one to look at: the driver's if among the
      ready ones, otherwise the NIC's. */
  ghost predicate SlotOk(d: RxDesc, data: u64, j: nat, k: nat, ready: seq<Status>) {
    && data != 0 && d.addr != 0 && (d.ringEnd <==> j == NUM_RX_DESC - 1)
    && (if k < |ready| then !d.own && d.status == ready[k] else d.own)
  }

  ghost predicate RingOk(ds: seq<RxDesc>, datas: seq<u64>, base: nat, ready: seq<Status>) {
    && |ds| == |datas| == NUM_RX_DESC && base < NUM_RX_DESC && |ready| <= NUM_RX_DESC
    && forall j :: 0 <= j < NUM_RX_DESC ==> SlotOk(ds[j], datas[j], j, Dist(base, j, NUM_RX_DESC), ready)
  }

  lemma Oldest(ds: seq<RxDesc>, datas: seq<u64>, base: nat, ready: seq<Status>)
    requires RingOk(ds, datas, base, ready)
    ensures |ds| == |datas| == NUM_RX_DESC && base < NUM_RX_DESC && |ready| <= NUM_RX_DESC
    ensures SlotOk(ds[base], datas[base], base, 0, ready)
  {
  }

  /** Giving the oldest slot back. */
  lemma Released(ds: seq<RxDesc>, datas: seq<u64>, base: nat, ready: seq<Status>)
    requires RingOk(ds, datas, base, ready) && ready != [] && base < |ds|
    ensures RingOk(ds[base := ds[base].(own := true)], datas, Next(base, NUM_RX_DESC), ready[1..])
  {
    var ds', next := ds[base := ds[base].(own := true)], Next(base, NUM_RX_DESC);
    forall j | 0 <= j < NUM_RX_DESC ensures SlotOk(ds'[j], datas[j], j, Dist(next, j, NUM_RX_DESC), ready[1..]) {
      assert SlotOk(ds[j], datas[j], j, Dist(base, j, NUM_RX_DESC), ready);
    }
  }

  /** The NIC fills the next buffer it owns. */
  lemma Filled(ds: seq<RxDesc>, datas: seq<u64>, base: nat, ready: seq<Status>, s: Status)
    requires RingOk(ds, datas, base, ready) && |ready| < NUM_RX_DESC && base < NUM_RX_DESC
    ensures var e := Wrap(base + |ready|, NUM_RX_DESC);
            e < |ds| && RingOk(ds[e := ds[e].(own := false, status := s)], datas, base, ready + [s])
  {
    var e := Wrap(base + |ready|, NUM_RX_DESC);
    var ds' := ds[e := ds[e].(own := false, status := s)];
    forall j | 0 <= j < NUM_RX_DESC ensures SlotOk(ds'[j], datas[j], j, Dist(base, j, NUM_RX_DESC), ready + [s]) {
      assert SlotOk(ds[j], datas[j], j, Dist(base, j, NUM_RX_DESC), ready);
    }
  }

  // ------------------------------------------------------------------- fill

  /** A slot as rtl8169_rx_fill finds or leaves it: with a buffer and the NIC's, or neither. */
  ghost predicate FillOk(d: RxDesc, data: u64, j: nat) {
    && (if data == 0 then !d.own else d.own && d.addr != 0)
    && (d.ringEnd ==> j == NUM_RX_DESC - 1)
  }

  ghost predicate AllFillOk(ds: seq<RxDesc>, datas: seq<u64>) {
    |ds| == |datas| == NUM_RX_DESC && forall j :: 0 <= j < NUM_RX_DESC ==> FillOk(ds[j], datas[j], j)
  }

  /** The mappings of the slots that have a buffer. */
  function Addrs(ds: seq<RxDesc>, datas: seq<u64>): (s: seq<u64>)
    requires |ds| == |datas|
    ensures |s| == |ds|
  {
    seq(|ds|, j requires 0 <= j < |ds| => if datas[j] == 0 then 0 else ds[j].addr)
  }

  ghost predicate Books(got: seq<u64>, gone: seq<u64>, mapped: seq<u64>, unmapped: seq<u64>, ds: seq<RxDesc>,
      datas: seq<u64>) {
    && |ds| == |datas| && Owed(got, gone, [], Held(datas)) && OwedMaps(mapped, unmapped, Held(Addrs(ds, datas)))
  }

  lemma BooksIn(got: seq<u64>, gone: seq<u64>, mapped: seq<u64>, unmapped: seq<u64>, ds: seq<RxDesc>, datas: seq<u64>,
      i: nat, data: u64, d: RxDesc)
    requires Books(got, gone, mapped, unmapped, ds, datas) && i < |datas| && datas[i] == 0 && data != 0 && d.addr != 0
    ensures Books(got + [data], gone, mapped + [d.addr], unmapped, ds[i := d], datas[i := data])
  {
    hide Held, Addrs;
    AddrsUpdate(ds, datas, i, d, data);
    HeldUpdate(datas, i, data);
    HeldUpdate(Addrs(ds, datas), i, d.addr);
    assert Held(datas[i := data]) == Held(datas) + multiset{data};
    assert Held(Addrs(ds, datas)[i := d.addr]) == Held(Addrs(ds, datas)) + multiset{d.addr};
    assert multiset(got + [data]) == multiset(got) + multiset{data};
    assert multiset(mapped + [d.addr]) == multiset(mapped) + multiset{d.addr};
  }

  lemma BooksOut(got: seq<u64>, gone: seq<u64>, mapped: seq<u64>, unmapped: seq<u64>, ds: seq<RxDesc>, datas: seq<u64>,
      i: nat, d: RxDesc)
    requires Books(got, gone, mapped, unmapped, ds, datas) && i < |datas| && datas[i] != 0 && ds[i].addr != 0
    ensures Books(got, gone + [datas[i]], mapped, unmapped + [ds[i].addr], ds[i := d], datas[i := 0])
  {
    hide Held, Addrs;
    AddrsUpdate(ds, datas, i, d, 0);
    HeldUpdate(datas, i, 0);
    HeldUpdate(Addrs(ds, datas), i, 0);
    assert Held(datas) == Held(datas[i := 0]) + multiset{datas[i]};
    assert Held(Addrs(ds, datas)) == Held(Addrs(ds, datas)[i := 0]) + multiset{ds[i].addr};
    assert multiset(gone + [datas[i]]) == multiset(gone) + multiset{datas[i]};
    assert multiset(unmapped + [ds[i].addr]) == multiset(unmapped) + multiset{ds[i].addr};
  }

  lemma AddrsUpdate(ds: seq<RxDesc>, datas: seq<u64>, i: nat, d: RxDesc, data: u64)
    requires |ds| == |datas| && i < |ds|
    ensures Addrs(ds[i := d], datas[i := data]) == Addrs(ds, datas)[i := if data == 0 then 0 else d.addr]
    ensures Addrs(ds, datas)[i] == if datas[i] == 0 then 0 else ds[i].addr
  {
  }

  /** A slot without a buffer is made unusable. */
  lemma BooksIdle(got: seq<u64>, gone: seq<u64>, mapped: seq<u64>, unmapped: seq<u64>, ds: seq<RxDesc>,
      datas: seq<u64>, i: nat, d: RxDesc)
    requires Books(got, gone, mapped, unmapped, ds, datas) && i < |datas| && datas[i] == 0
    ensures Books(got, gone, mapped, unmapped, ds[i := d], datas)
  {
    hide Held, Addrs;
    AddrsUpdate(ds, datas, i, d, 0);
    assert datas[i := 0] == datas;
    assert Addrs(ds, datas)[i := 0] == Addrs(ds, datas);
  }

  /** A buffer taken and returned at once. */
  lemma BooksTried(got: seq<u64>, gone: seq<u64>, mapped: seq<u64>, unmapped: seq<u64>, ds: seq<RxDesc>,
      datas: seq<u64>, x: u64)
    requires Books(got, gone, mapped, unmapped, ds, datas)
    ensures Books(got + [x], gone + [x], mapped, unmapped, ds, datas)
  {
    GotAndGone(got, gone, [], Held(datas), x);
  }

  /** make_unusable_by_asic, as a value. */
  function Unusable(d: RxDesc): RxDesc {
    d.(addr := UNUSABLE, own := false)
  }

  lemma FillStep(ds: seq<RxDesc>, datas: seq<u64>, i: nat, d: RxDesc, data: u64)
    requires AllFillOk(ds, datas) && i < NUM_RX_DESC && FillOk(d, data, i)
    ensures AllFillOk(ds[i := d], datas[i := data])
  {
  }

  lemma FillAt(ds: seq<RxDesc>, datas: seq<u64>, i: nat)
    requires AllFillOk(ds, datas) && i < NUM_RX_DESC
    ensures |ds| == |datas| == NUM_RX_DESC && FillOk(ds[i], datas[i], i)
  {
  }

  /** The first n slots have buffers. */
  ghost predicate FullTo(datas: seq<u64>, n: nat) {
    forall j :: 0 <= j < n && j < |datas| ==> datas[j] != 0
  }

  /** The first n slots have none. */
  ghost predicate EmptyTo(datas: seq<u64>, n: nat) {
    forall j :: 0 <= j < n && j < |datas| ==> datas[j] == 0
  }

  /** A full ring, its last descriptor marked, is the NIC's from slot 0 on. */
  lemma FullRing(ds: seq<RxDesc>, datas: seq<u64>)
    requires AllFillOk(ds, datas) && FullTo(datas, NUM_RX_DESC)
    ensures |ds| == NUM_RX_DESC && RingOk(ds[NUM_RX_DESC - 1 := ds[NUM_RX_DESC - 1].(ringEnd := true)], datas, 0, [])
  {
    forall j | 0 <= j < NUM_RX_DESC ensures FillOk(ds[j], datas[j], j) && datas[j] != 0 {
    }
  }

  function SlotOf(x: u32): (j: nat)
    ensures j < NUM_RX_DESC
  {
    x % NUM_RX_DESC
  }

  /** Status words and ownership come and go without touching the books. */
  lemma BooksMarked(got: seq<u64>, gone: seq<u64>, mapped: seq<u64>, unmapped: seq<u64>, ds: seq<RxDesc>,
      datas: seq<u64>,
                    i: nat, ringEnd: bool, own: bool, status: Status)
    requires Books(got, gone, mapped, unmapped, ds, datas) && i < |ds|
    ensures Books(got, gone, mapped, unmapped, ds[i := ds[i].(ringEnd := ringEnd, own := own, status := status)], datas)
  {
    assert Addrs(ds[i := ds[i].(ringEnd := ringEnd, own := own, status := status)], datas) == Addrs(ds, datas);
  }

  /** The counter survives its wrap. */
  lemma CountStep(x: u32, m: nat)
    requires m < NUM_RX_DESC
    ensures SlotOf(Add32(x, 1)) == Next(SlotOf(x), NUM_RX_DESC)
    ensures Add32(Add32(x, m), 1) == Add32(x, m + 1)
  {
    assert Add32(x, 1) == if x + 1 == TWO_32 then 0 else x + 1;
    assert Add32(x, m) == if x + m < TWO_32 then x + m else x + m - TWO_32;
    assert Add32(x, m + 1) == if x + m + 1 < TWO_32 then x + m + 1 else x + m + 1 - TWO_32;
  }

  /** The difference of the counters is the number of descriptors gone by. */
  lemma CountIs(x: u32, m: nat)
    requires m <= NUM_RX_DESC
    ensures Add32(x, 0) == x && (Add32(x, m) - x) % TWO_32 == m
  {
  }

  lemma FramesSnoc(c: Config, ss: seq<Status>, s: Status, skbs: nat -> bool)
    ensures FramesOf(c, ss + [s], skbs) == FramesOf(c, ss, skbs) + FrameOf(c, s, skbs(|ss|))
  {
    assert (ss + [s])[..|ss|] == ss;
  }

  /** Same buffers at the same addresses. */
  ghost predicate SameBuffers(ds: seq<RxDesc>, datas: seq<u64>, ds0: seq<RxDesc>, datas0: seq<u64>) {
    datas == datas0 && |ds| == |ds0| && forall j :: 0 <= j < |ds| ==> ds[j].addr == ds0[j].addr
  }

  /** A buffer of rx_buf_sz + extra bytes at `data`, of which rx_buf_sz bytes from `start` on are the NIC's. */
  datatype Span = Span(data: nat, extra: nat, start: nat)

  /** The memory mapped for the NIC is aligned, and inside the buffer at `data`. */
  predicate SpanOk(s: Span, data: nat) {
    s.data == data && s.start % 16 == 0 && data <= s.start <= data + s.extra
  }

  /** rtl8169_align */
  function Align(data: nat): nat {
    (data + 15) / 16 * 16
  }

  lemma AlignIs(data: nat, extra: nat)
    requires data % 16 == 0 || extra == 15
    ensures SpanOk(Span(data, extra, Align(data)), data)
  {
  }

  class RxRing {
    const config: Config
    const mallocs: nat -> u64        // what each kmalloc_node returns
    const maps: nat -> u64           // what each dma_map_single returns, 0 on error
    const skbs: nat -> bool          // whether napi_alloc_skb succeeds
    const descs: array<RxDesc>
    const databuff: array<u64>
    var curRx: u32
    var asked: nat
    var mapAsked: nat
    var handled: nat

    ghost var ready: seq<Status>     // handed back by the NIC, not looked at yet
    ghost var seen: seq<Status>      // every descriptor ever looked at
    ghost var delivered: seq<Bytes>  // every frame given to the stack
    ghost var got: seq<u64>
    ghost var gone: seq<u64>
    ghost var spans: seq<Span>       // the memory mapped, in order
    ghost var mapped: seq<u64>
    ghost var unmapped: seq<u64>

    ghost predicate Filling()
      reads this`got, this`gone, this`mapped, this`unmapped, descs, databuff
    {
      && descs.Length == databuff.Length == NUM_RX_DESC
      && AllFillOk(descs[..], databuff[..]) && Books(got, gone, mapped, unmapped, descs[..], databuff[..])
    }

    /** rtl8169_alloc_rx_data succeeds from here: a buffer, or a second one if the first is
        not aligned, and a mapping. */
    predicate Obtainable(a: nat, m: nat) {
      Chosen(a) != 0 && maps(m) != 0
    }

    /** The buffer it settles for. */
    function Chosen(a: nat): u64 {
      if mallocs(a) == 0 || mallocs(a) % 16 == 0 then mallocs(a) else mallocs(a + 1)
    }

    /** How many buffers it asks for. */
    function Asked(a: nat): nat {
      if mallocs(a) == 0 || mallocs(a) % 16 == 0 then 1 else 2
    }

    /** Every slot from i on that has no buffer can be given one. */
    predicate AllObtainable(datas: seq<u64>, i: nat, a: nat, m: nat)
      decreases |datas| - i
    {
      if i >= |datas| then true
      else if datas[i] != 0 then AllObtainable(datas, i + 1, a, m)
      else Obtainable(a, m) && AllObtainable(datas, i + 1, a + Asked(a), m + 1)
    }

    method Malloc() returns (data: u64)
      modifies this`asked
      ensures data == mallocs(old(asked)) && asked == old(asked) + 1
    {
      data := mallocs(asked);
      asked := asked + 1;
    }

    /** rtl8169_mark_to_asic */
    method MarkToAsic(i: nat)
      requires i < descs.Length
      modifies descs
      ensures descs[..] == old(descs[..])[i := old(descs[i]).(own := true)]
    {
      var eor := descs[i].ringEnd;
      descs[i] := descs[i].(own := true, ringEnd := eor);
    }

    /** The two kmallocs of rtl8169_alloc_rx_data: a misaligned buffer is given back for a larger one. */
    method MallocAligned() returns (data: u64, ghost extra: nat)
      requires Filling()
      modifies this`asked, this`got, this`gone
      ensures Filling() && data == Chosen(old(asked)) && asked == old(asked) + Asked(old(asked))
      ensures extra == (if Asked(old(asked)) == 1 then 0 else 15) && (data != 0 ==> data % 16 == 0 || extra == 15)
    {
      hide Books, AllFillOk;
      extra := 0;
      data := Malloc();
      if data != 0 && data % 16 != 0 {
        BooksTried(got, gone, mapped, unmapped, descs[..], databuff[..], data);
        got, gone := got + [data], gone + [data];
        data := Malloc();
        extra := 15;
      }
    }

    /** rtl8169_alloc_rx_data for slot i, and the new buffer's entry in Rx_databuff. The
        memory mapped for the NIC is aligned, and inside the buffer. */
    method FillSlot(i: nat) returns (ok: bool)
      requires Filling() && i < NUM_RX_DESC && databuff[i] == 0
      modifies descs, databuff, this`asked, this`mapAsked, this`got, this`gone, this`mapped, this`spans
      ensures ok <==> Obtainable(old(asked), old(mapAsked))
      ensures ok ==> asked == old(asked) + Asked(old(asked)) && mapAsked == old(mapAsked) + 1
      ensures Filling() && (ok <==> databuff[i] != 0) && databuff[..] == old(databuff[..])[i := databuff[i]]
      ensures if ok then |spans| > 0 && spans[..|spans| - 1] == old(spans) && SpanOk(spans[|spans| - 1], databuff[i])
              else spans == old(spans)
    {
      hide Books, AllFillOk, Filling, Chosen, Asked;
      Sizes();
      var data, extra := MallocAligned();
      if data == 0 {
        return false;
      }
      var mapping := maps(mapAsked);
      mapAsked := mapAsked + 1;
      if mapping == 0 {
        GiveBack(data);
        return false;
      }
      AlignIs(data, extra);
      spans := spans + [Span(data, extra, Align(data))];
      MapToAsic(i, mapping, data);
      return true;
    }

    /** err_out of rtl8169_alloc_rx_data */
    method GiveBack(data: u64)
      requires Filling()
      modifies this`got, this`gone
      ensures Filling()
    {
      hide Books, AllFillOk;
      BooksTried(got, gone, mapped, unmapped, descs[..], databuff[..], data);
      got, gone := got + [data], gone + [data];
    }

    /** rtl8169_map_to_asic, and the bookkeeping of the new buffer. */
    method MapToAsic(i: nat, mapping: u64, data: u64)
      requires Filling() && i < NUM_RX_DESC && databuff[i] == 0 && mapping != 0 && data != 0
      modifies descs, databuff, this`got, this`mapped
      ensures Filling() && databuff[..] == old(databuff[..])[i := data]
    {
      hide Books, AllFillOk;
      ghost var ds, datas := descs[..], databuff[..];
      FillAt(ds, datas, i);
      ghost var d := ds[i].(addr := mapping, own := true);
      BooksIn(got, gone, mapped, unmapped, ds, datas, i, data, d);
      FillStep(ds, datas, i, d, data);
      got, mapped := got + [data], mapped + [mapping];
      descs[i] := descs[i].(addr := mapping);
      MarkToAsic(i);
      databuff[i] := data;
      assert descs[..] == ds[i := d];
    }

    /** rtl8169_make_unusable_by_asic, on a slot that has no buffer. */
    method MakeUnusable(i: nat)
      requires Filling() && i < NUM_RX_DESC && databuff[i] == 0
      modifies descs
      ensures Filling()
    {
      hide Books, AllFillOk;
      FillAt(descs[..], databuff[..], i);
      BooksIdle(got, gone, mapped, unmapped, descs[..], databuff[..], i, Unusable(descs[i]));
      FillStep(descs[..], databuff[..], i, Unusable(descs[i]), 0);
      assert databuff[..] == databuff[..][i := 0];
      descs[i] := descs[i].(addr := UNUSABLE, own := false);
    }

    /** rtl8169_free_rx_databuff */
    method FreeRxDatabuff(i: nat)
      requires Filling() && i < NUM_RX_DESC && databuff[i] != 0
      modifies descs, databuff, this`gone, this`unmapped
      ensures Filling() && databuff[..] == old(databuff[..])[i := 0]
    {
      hide Books, AllFillOk;
      FillAt(descs[..], databuff[..], i);
      BooksOut(got, gone, mapped, unmapped, descs[..], databuff[..], i, Unusable(descs[i]));
      FillStep(descs[..], databuff[..], i, Unusable(descs[i]), 0);
      unmapped := unmapped + [descs[i].addr];
      gone := gone + [databuff[i]];
      databuff[i] := 0;
      descs[i] := descs[i].(addr := UNUSABLE, own := false);
    }

    /** rtl8169_rx_clear */
    method RxClear()
      requires Filling()
      modifies descs, databuff, this`gone, this`unmapped
      ensures Filling() && EmptyTo(databuff[..], NUM_RX_DESC)
    {
      hide Filling;
      assert descs.Length == databuff.Length == NUM_RX_DESC by { Sizes(); }
      for i := 0 to NUM_RX_DESC
        invariant Filling() && EmptyTo(databuff[..], i)
      {
        if databuff[i] != 0 {
          FreeRxDatabuff(i);
        }
      }
    }

    lemma Sizes()
      requires Filling()
      ensures descs.Length == databuff.Length == NUM_RX_DESC
    {
    }

    /** The whole state is in order, with `cur` as the index of the next descriptor to look at. */
    ghost predicate ValidFrom(cur: u32)
      reads this, descs, databuff
    {
      && descs.Length == databuff.Length == NUM_RX_DESC
      && RingOk(descs[..], databuff[..], SlotOf(cur), ready)
      && Books(got, gone, mapped, unmapped, descs[..], databuff[..])
      && handled == |seen| && delivered == FramesOf(config, seen, skbs)
    }

    ghost predicate Valid()
      reads this, descs, databuff
    {
      ValidFrom(curRx)
    }

    /** rtl8169_rx_fill: all 256 buffers, exactly if each slot asked for can be given one, or none. */
    method RxFill() returns (rc: int)
      requires Filling() && curRx == 0 && handled == 0 && seen == [] && delivered == []
      modifies descs, databuff, this`asked, this`mapAsked, this`got, this`gone, this`mapped, this`unmapped, this`ready,
               this`spans
      ensures rc == 0 <==> AllObtainable(old(databuff[..]), 0, old(asked), old(mapAsked))
      ensures rc == 0 ==> Valid() && ready == []
      ensures rc != 0 ==>
                && Filling() && EmptyTo(databuff[..], NUM_RX_DESC)
                && multiset(got) == multiset(gone) && multiset(mapped) == multiset(unmapped)
    {
      hide Filling, AllObtainable, Obtainable;
      Sizes();
      ghost var datas := databuff[..];
      for i := 0 to NUM_RX_DESC
        invariant Filling() && FullTo(databuff[..], i)
        invariant forall j :: i <= j < NUM_RX_DESC ==> databuff[j] == datas[j]
        invariant AllObtainable(datas, 0, old(asked), old(mapAsked)) <==> AllObtainable(datas, i, asked, mapAsked)
      {
        Unfolded(datas, i, asked, mapAsked);
        if databuff[i] != 0 {
          continue;
        }
        var ok := FillSlot(i);
        if !ok {
          MakeUnusable(i);
          RxClear();
          NothingLeft();
          return -12;
        }
      }
      Unfolded(datas, NUM_RX_DESC, asked, mapAsked);
      MarkLast();
      return 0;
    }

    lemma Unfolded(datas: seq<u64>, i: nat, a: nat, m: nat)
      requires i <= |datas|
      ensures AllObtainable(datas, i, a, m) ==
                if i == |datas| then true
                else if datas[i] != 0 then AllObtainable(datas, i + 1, a, m)
                else Obtainable(a, m) && AllObtainable(datas, i + 1, a + Asked(a), m + 1)
    {
    }

    /** rtl8169_mark_as_last_descriptor */
    method MarkLast()
      requires Filling() && FullTo(databuff[..], NUM_RX_DESC) && curRx == 0 && handled == 0 && seen == []
          && delivered == []
      modifies descs, this`ready
      ensures Valid() && ready == []
    {
      hide AllFillOk, Books, RingOk;
      FullRing(descs[..], databuff[..]);
      FillAt(descs[..], databuff[..], NUM_RX_DESC - 1);
      BooksMarked(got, gone, mapped, unmapped, descs[..], databuff[..], NUM_RX_DESC - 1, true,
          descs[NUM_RX_DESC - 1].own, descs[NUM_RX_DESC - 1].status);
      descs[NUM_RX_DESC - 1] := descs[NUM_RX_DESC - 1].(ringEnd := true);
      ready := [];
    }

    lemma NothingLeft()
      requires Filling() && EmptyTo(databuff[..], NUM_RX_DESC)
      ensures multiset(got) == multiset(gone) && multiset(mapped) == multiset(unmapped)
    {
      NothingHeld(databuff[..]);
      NothingHeld(Addrs(descs[..], databuff[..]));
      assert multiset(gone) + multiset([]) + multiset{} == multiset(gone);
    }

    /** rtl_rx, from process_pkt to release_descriptor. */
    method Deliver(s: Status)
      requires Measured(config, s) && handled == |seen| && delivered == FramesOf(config, seen, skbs)
      modifies this`delivered, this`seen, this`handled
      ensures handled == |seen| && seen == old(seen) + [s] && delivered == FramesOf(config, seen, skbs)
    {
      hide FramesOf;
      FramesSnoc(config, seen, s, skbs);
      var skb := skbs(handled);
      handled := handled + 1;
      seen := seen + [s];
      assert delivered + [] == delivered;
      if s.res {
        if !((s.runt || s.crc) && !(s.rwt || s.fovf) && config.rxAll) {
          return;
        }
      }
      var pktSize: int := if config.rxFcs then |s.bytes| else |s.bytes| - 4;
      if Fragmented(s) {
        return;
      }
      if !skb {
        return;
      }
      assert s.bytes[..|s.bytes|] == s.bytes;
      delivered := delivered + [s.bytes[..pktSize]];
    }

    /** One turn of the loop of rtl_rx, for a descriptor the NIC has handed back. */
    method RxOne(cur: u32, entry: nat)
      requires ValidFrom(cur) && ready != [] && entry == SlotOf(cur) && Measured(config, ready[0])
      modifies descs, this`delivered, this`seen, this`handled, this`ready
      ensures ValidFrom(Add32(cur, 1)) && seen == old(seen) + old(ready)[..1] && ready == old(ready)[1..]
      ensures SameBuffers(descs[..], databuff[..], old(descs[..]), databuff[..])
    {
      hide RingOk, Books, SlotOf, Add32, FramesOf;
      ghost var ds, datas := descs[..], databuff[..];
      Oldest(ds, datas, entry, ready);
      CountStep(cur, 0);
      Released(ds, datas, entry, ready);
      BooksMarked(got, gone, mapped, unmapped, ds, datas, entry, ds[entry].ringEnd, true, ds[entry].status);
      Deliver(descs[entry].status);
      MarkToAsic(entry);
      assert descs[..] == ds[entry := ds[entry].(own := true)];
      ready := ready[1..];
    }

    /** rtl_rx: the longest run of the driver's descriptors, up to the budget and to one
        round of the ring, is looked at and handed back with the same buffers. */
    method RtlRx(budget: u32) returns (count: nat)
      requires Valid() && forall s <- ready :: Measured(config, s)
      modifies descs, this`delivered, this`seen, this`handled, this`ready, this`curRx
      ensures Valid() && count == Min(Min(budget, NUM_RX_DESC), |old(ready)|)
      ensures seen == old(seen) + old(ready)[..count] && ready == old(ready)[count..]
      ensures curRx == Add32(old(curRx), count)
      ensures SameBuffers(descs[..], databuff[..], old(descs[..]), databuff[..])
    {
      hide RingOk, Books, SlotOf, Add32, FramesOf;
      var cur: u32, rxLeft: nat := curRx, Min(budget, NUM_RX_DESC);
      ghost var m := 0;
      CountIs(curRx, 0);
      Oldest(descs[..], databuff[..], SlotOf(cur), ready);
      while rxLeft > 0
        invariant ValidFrom(cur) && m + rxLeft == Min(budget, NUM_RX_DESC) && m <= |old(ready)| <= NUM_RX_DESC
        invariant cur == Add32(curRx, m) && curRx == old(curRx)
        invariant seen == old(seen) + old(ready)[..m] && ready == old(ready)[m..]
        invariant SameBuffers(descs[..], databuff[..], old(descs[..]), databuff[..])
      {
        var entry := SlotOf(cur);
        Oldest(descs[..], databuff[..], entry, ready);
        if descs[entry].own {
          break;
        }
        assert ready[0] in old(ready);
        CountStep(curRx, m);
        RxOne(cur, entry);
        m := m + 1;
        cur := Add32(cur, 1);
        rxLeft := rxLeft - 1;
      }
      CountIs(curRx, m);
      count := (cur - curRx) % TWO_32;
      curRx := cur;
    }

    /** The NIC fills the next buffer it owns and hands it back. */
    method NicReceive(s: Status, entry: nat)
      requires Valid() && |ready| < NUM_RX_DESC && entry == Wrap(SlotOf(curRx) + |ready|, NUM_RX_DESC)
      modifies descs, this`ready
      ensures Valid() && ready == old(ready) + [s]
    {
      hide RingOk, Books, SlotOf, FramesOf;
      Filled(descs[..], databuff[..], SlotOf(curRx), ready, s);
      BooksMarked(got, gone, mapped, unmapped, descs[..], databuff[..], entry, descs[entry].ringEnd, false, s);
      descs[entry] := descs[entry].(own := false, status := s);
      ready := ready + [s];
    }

    /** The zeroed ring of rtl8169_init_ring, before rtl8169_rx_fill. */
    constructor (config: Config, mallocs: nat -> u64, maps: nat -> u64, skbs: nat -> bool)
      ensures Filling() && fresh(descs) && fresh(databuff) && curRx == 0 && handled == 0 && seen == []
          && delivered == []
    {
      this.config, this.mallocs, this.maps, this.skbs := config, mallocs, maps, skbs;
      var none := Status(false, false, false, false, false, false, false, []);
      descs := new RxDesc[NUM_RX_DESC](_ => RxDesc(false, false, none, 0));
      databuff := new u64[NUM_RX_DESC](_ => 0);
      curRx, asked, mapAsked, handled := 0, 0, 0, 0;
      ready, seen, delivered, got, gone, mapped, unmapped, spans := [], [], [], [], [], [], [], [];
      new;
      NothingHeld(databuff[..]);
      NothingHeld(Addrs(descs[..], databuff[..]));
    }
  }
}
