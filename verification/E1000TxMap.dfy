/** How e1000_tx_map cuts a packet into descriptors, and why the number of
    descriptors that e1000_xmit_frame reserves always covers the cutting. */
module E1000TxMap {
  import opened Words

  const MAX_TXD_PWR: nat := 12
  const MAX_DATA_PER_TXD: nat := 4096
  const PCIX_FIRST_MAX: nat := 2015
  const ETH_ZLEN: nat := 60

  /** The linear part of a packet: `addr` is the address of its first byte. */
  datatype Head = Head(addr: nat, len: nat)

  /** A paged fragment: `len` bytes at `page + pageOffset`. */
  datatype Frag = Frag(page: nat, pageOffset: nat, len: nat)

  datatype Skb = Skb(id: nat, head: Head, frags: seq<Frag>, mss: nat, csumPartial: bool, segs: nat)

  /** The hardware facts the cutting depends on. */
  datatype Bus = Bus(pcix: bool, pcix82544: bool)

  function FragBytes(frags: seq<Frag>): nat {
    if frags == [] then 0 else frags[0].len + FragBytes(frags[1..])
  }

  function SkbLen(skb: Skb): nat {
    skb.head.len + FragBytes(skb.frags)
  }

  /** What the network stack and eth_skb_pad guarantee of a packet handed to the cutting. */
  ghost predicate Sendable(skb: Skb) {
    && skb.head.len > 0
    && (forall f :: 0 <= f < |skb.frags| ==> skb.frags[f].len > 0)
    && SkbLen(skb) >= ETH_ZLEN
  }

  // ---------------------------------------------------------------- limits

  function Pow2(k: nat): (p: nat)
    ensures p >= 1
  {
    if k == 0 then 1 else 2 * Pow2(k - 1)
  }

  /** Position of the most significant bit, counted from 1; 0 for 0. */
  function Fls(x: nat): nat {
    if x == 0 then 0 else 1 + Fls(x / 2)
  }

  function MaxPerTxd(mss: nat): (m: nat) {
    if mss == 0 then MAX_DATA_PER_TXD else Min(mss * 4, MAX_DATA_PER_TXD)
  }

  function MaxTxdPwr(mss: nat): nat {
    if mss == 0 || MaxPerTxd(mss) == 0 then MAX_TXD_PWR else Fls(MaxPerTxd(mss)) - 1
  }

  /** TXD_USE_COUNT: descriptors for `s` bytes at 2^x bytes each. */
  function TxdUseCount(s: nat, x: nat): nat {
    (s + Pow2(x) - 1) / Pow2(x)
  }

  // --------------------------------------------------------------- cutting

  /** Bit 2 of an address: the byte lies in an odd dword. */
  predicate OddDword(a: nat) {
    a % 8 >= 4
  }

  /** Which workarounds are live for the buffer being cut. `sentinel` holds on
      the final buffer of a TSO packet. */
  datatype Cutter = Cutter(max: nat, bus: Bus, sentinel: bool)

  /** The size of the next chunk of a buffer with `len` bytes left at `addr`.
      `first`: nothing of the packet has been cut yet. `trim`: the packet is
      linear, not TSO, and follows a TSO packet. */
  function CutSize(c: Cutter, first: bool, trim: bool, addr: nat, len: nat): (size: nat)
    requires c.max >= 4 && len > 0
    requires trim ==> len >= ETH_ZLEN && c.max >= ETH_ZLEN
    ensures 0 < size <= len && size <= c.max
  {
    var s0 := Min(len, c.max);
    var s1 := if trim then s0 - 4 else s0;
    var s2 := if c.sentinel && s1 == len && s1 > 8 then s1 - 4 else s1;
    var s3 := if c.bus.pcix && s2 > PCIX_FIRST_MAX && first then PCIX_FIRST_MAX else s2;
    if c.bus.pcix82544 && !OddDword(addr + s3 - 1) && s3 > 4 then s3 - 4 else s3
  }

  /** A contiguous buffer of a packet: number 0 is the linear part, f + 1 is
      fragment f. `base` is the address the driver takes its first byte to be at. */
  datatype Buf = Buf(idx: nat, base: nat, len: nat)

  /** One descriptor's worth of a packet: `len` bytes of buffer `buf` from offset `off`. */
  datatype Chunk = Chunk(buf: nat, off: nat, len: nat)

  /** The chunks of a buffer from offset `off` on. */
  function Cuts(c: Cutter, first: bool, trim: bool, b: Buf, off: nat): (chunks: seq<Chunk>)
    requires c.max >= 4 && off <= b.len
    requires trim ==> b.len - off >= ETH_ZLEN && c.max >= ETH_ZLEN
    decreases b.len - off
  {
    if off == b.len then []
    else
      var s := CutSize(c, first, trim, b.base + off, b.len - off);
      [Chunk(b.idx, off, s)] + Cuts(c, false, false, b, off + s)
  }

  /** The driver's address for fragment f leaves out the offset inside the page. */
  function FragBuf(skb: Skb, f: nat): Buf
    requires f < |skb.frags|
  {
    Buf(f + 1, skb.frags[f].page, skb.frags[f].len)
  }

  function HeadBuf(skb: Skb): Buf {
    Buf(0, skb.head.addr, skb.head.len)
  }

  /** The sentinel workaround applies to the final buffer of a TSO packet. */
  function CutterFor(skb: Skb, bus: Bus, idx: nat): (c: Cutter)
    ensures c.max >= 4
  {
    Cutter(MaxPerTxd(skb.mss), bus, skb.mss > 0 && idx == |skb.frags|)
  }

  /** A linear packet without TSO that follows a TSO packet. */
  predicate NeedsTrim(skb: Skb, lastTxTso: bool) {
    skb.frags == [] && lastTxTso && skb.mss == 0
  }

  function HeadChunks(skb: Skb, bus: Bus, lastTxTso: bool): seq<Chunk>
    requires Sendable(skb)
  {
    Cuts(CutterFor(skb, bus, 0), true, NeedsTrim(skb, lastTxTso), HeadBuf(skb), 0)
  }

  /** The chunks of fragments f, f + 1, ... */
  function FragChunks(skb: Skb, bus: Bus, f: nat): seq<Chunk>
    requires f <= |skb.frags|
    decreases |skb.frags| - f
  {
    if f == |skb.frags| then []
    else Cuts(CutterFor(skb, bus, f + 1), false, false, FragBuf(skb, f), 0) + FragChunks(skb, bus, f + 1)
  }

  /** Everything e1000_tx_map maps for a packet, in ring order. */
  function PacketChunks(skb: Skb, bus: Bus, lastTxTso: bool): (chunks: seq<Chunk>)
    requires Sendable(skb)
  {
    HeadChunks(skb, bus, lastTxTso) + FragChunks(skb, bus, 0)
  }

  // ---------------------------------------------------------- upper bounds

  /** Number of units of `p` bytes needed for `s` bytes. */
  function Units(s: nat, p: nat): (n: nat)
    requires p > 0
    ensures s > 0 ==> n > 0
  {
    if s == 0 then 0 else if s <= p then 1 else 1 + Units(s - p, p)
  }

  lemma UnitsIsUseCount(s: nat, x: nat)
    ensures Units(s, Pow2(x)) == TxdUseCount(s, x)
  {
    UnitsIsCeiling(s, Pow2(x));
  }

  lemma {:induction false} UnitsIsCeiling(s: nat, p: nat)
    requires p > 0
    ensures Units(s, p) == (s + p - 1) / p
    decreases s
  {
    if s == 0 {
      DivStep(p - 1, p);
    } else {
      DivStep(s - 1, p);
      assert (s - 1) + p == s + p - 1;
      if s > p {
        UnitsIsCeiling(s - p, p);
        assert (s - p) + p - 1 == s - 1;
      }
    }
  }

  lemma DivStep(a: nat, p: nat)
    requires p > 0
    ensures (a + p) / p == a / p + 1
    ensures a < p ==> a / p == 0
  {
    var q, r, q' := a / p, a % p, (a + p) / p;
    assert a == p * q + r;
    assert a + p == p * q' + (a + p) % p;
    assert p * (q + 1) == p * q + p;
    QuotientUnique(p, q', q + 1, (a + p) % p, r);
    if a < p {
      QuotientUnique(p, q, 0, r, a);
    }
  }

  lemma QuotientUnique(p: nat, q: int, q': int, r: nat, r': nat)
    requires r < p && r' < p && p * q + r == p * q' + r'
    ensures q == q'
  {
    assert p * (q - q') == r' - r;
    assert p * (q' - q) == r - r';
    if q > q' {
      MulAtLeast(p, q - q');
      assert false;
    } else if q < q' {
      MulAtLeast(p, q' - q);
      assert false;
    }
  }

  lemma MulAtLeast(p: nat, k: nat)
    requires k >= 1
    ensures p * k >= p
  {
    assert p * k == p + p * (k - 1);
  }

  lemma {:induction false} UnitsMono(a: nat, b: nat, p: nat)
    requires p > 0 && a <= b
    ensures Units(a, p) <= Units(b, p)
    decreases b
  {
    if b > p {
      UnitsMono(if a > p then a - p else 0, b - p, p);
    }
  }

  /** Taking away at least one whole unit saves a unit. */
  lemma UnitsDrop(s: nat, d: nat, p: nat)
    requires p > 0 && p <= d < s
    ensures Units(s - d, p) + 1 <= Units(s, p)
  {
    UnitsMono(s - d, s - p, p);
  }

  /** The unit `p` (a power of two) and the chunk limit `m` as xmit_frame picks
      them: only when they coincide may a chunk not shrink by a dword. */
  ghost predicate Paired(m: nat, p: nat) {
    && 0 < p <= m && m >= 4 && m % 4 == 0
    && (m == 4 || m % 8 == 0 || p <= m - 4)
  }

  lemma {:induction false} FlsBounds(x: nat)
    requires x > 0
    ensures Fls(x) > 0 && Pow2(Fls(x) - 1) <= x < 2 * Pow2(Fls(x) - 1)
  {
    if x > 1 {
      FlsBounds(x / 2);
    }
  }

  lemma {:induction false} Pow2Eights(k: nat)
    requires k >= 3
    ensures Pow2(k) % 8 == 0
  {
    if k == 3 {
      assert Pow2(3) == 2 * Pow2(2) && Pow2(2) == 2 * Pow2(1) && Pow2(1) == 2 * Pow2(0);
    } else {
      Pow2Eights(k - 1);
    }
  }

  lemma LimitsPaired(mss: nat)
    ensures Paired(MaxPerTxd(mss), Pow2(MaxTxdPwr(mss)))
    ensures mss == 0 ==> MaxPerTxd(mss) == MAX_DATA_PER_TXD
  {
    Pow2Of12();
    if mss > 0 {
      FlsPaired(MaxPerTxd(mss));
    }
  }

  lemma FlsPaired(m: nat)
    requires m >= 4 && m % 4 == 0
    ensures Fls(m) > 0 && Paired(m, Pow2(Fls(m) - 1))
  {
    FlsBounds(m);
    var k := Fls(m) - 1;
    var p := Pow2(k);
    if k >= 3 {
      Pow2Eights(k);
      EightsPaired(m, p);
    } else {
      assert k == 0 || k == 1 || k == 2;
    }
  }

  lemma EightsPaired(m: nat, p: nat)
    requires 0 < p <= m && p % 8 == 0 && m % 4 == 0
    ensures m % 8 == 0 || p <= m - 4
  {
  }

  lemma Pow2Of12()
    ensures Pow2(12) == 4096
  {
    assert Pow2(4) == 16 by { assert Pow2(2) == 4; }
    assert Pow2(8) == 256 by { assert Pow2(6) == 64; }
    assert Pow2(10) == 1024;
  }

  // ------------------------------------------------- chunks of one buffer

  /** The price of the errata-10 cap on a packet's first descriptor. */
  function CapCost(c: Cutter, first: bool, len: nat): nat {
    if first && c.bus.pcix && len > PCIX_FIRST_MAX then 1 else 0
  }

  function One(b: bool): nat {
    if b then 1 else 0
  }

  lemma CutsUnfold(c: Cutter, first: bool, trim: bool, b: Buf, off: nat, s: nat)
    requires c.max >= 4 && off < b.len
    requires trim ==> b.len - off >= ETH_ZLEN && c.max >= ETH_ZLEN
    requires s == CutSize(c, first, trim, b.base + off, b.len - off)
    ensures Cuts(c, first, trim, b, off) == [Chunk(b.idx, off, s)] + Cuts(c, false, false, b, off + s)
    ensures s <= b.len - off
    ensures s == b.len - off ==> |Cuts(c, first, trim, b, off)| == 1
  {
  }

  // Off the 82544: a chunk that leaves something behind is a full one, or one
  // of the three other workarounds made it shorter.
  lemma PlainStep(c: Cutter, p: nat, first: bool, trim: bool, addr: nat, len: nat, s: nat)
    requires Paired(c.max, p) && !c.bus.pcix82544 && len > 0
    requires trim ==> len >= ETH_ZLEN && c.max == MAX_DATA_PER_TXD && !c.sentinel
    requires s == CutSize(c, first, trim, addr, len) && s < len
    ensures s >= p || trim || CapCost(c, first, len) == 1 || (c.sentinel && len - s == 4)
  {
  }

  // Off the 82544, a buffer costs its units plus one chunk for each live workaround.
  lemma {:induction false} PlainCount(c: Cutter, p: nat, first: bool, trim: bool, b: Buf, off: nat)
    requires Paired(c.max, p) && !c.bus.pcix82544 && off < b.len
    requires trim ==> b.len - off >= ETH_ZLEN && c.max == MAX_DATA_PER_TXD && !c.sentinel
    ensures |Cuts(c, first, trim, b, off)| <=
            Units(b.len - off, p) + One(c.sentinel) + One(trim) + CapCost(c, first, b.len - off)
    decreases b.len - off
  {
    hide CutSize, Cuts, Units, CapCost;
    var len := b.len - off;
    var s := CutSize(c, first, trim, b.base + off, len);
    CutsUnfold(c, first, trim, b, off, s);
    if s < len {
      PlainStep(c, p, first, trim, b.base + off, len, s);
      PlainCount(c, p, false, false, b, off + s);
      CapOnce(c, len - s);
      if s >= p {
        UnitsDrop(len, s, p);
      } else if trim || CapCost(c, first, len) == 1 {
        UnitsMono(len - s, len, p);
      } else {
        LastDword(c, b, off + s);
      }
    }
  }

  lemma CapOnce(c: Cutter, len: nat)
    ensures CapCost(c, false, len) == 0 && One(false) == 0 && One(true) == 1
  {
  }

  lemma LastDword(c: Cutter, b: Buf, off: nat)
    requires c.max >= 4 && off < b.len && b.len - off <= 4
    ensures |Cuts(c, false, false, b, off)| == 1
  {
    CutsUnfold(c, false, false, b, off, b.len - off);
  }

  // Four-byte chunks are never trimmed.
  lemma {:induction false} TinyCount(c: Cutter, p: nat, first: bool, b: Buf, off: nat)
    requires Paired(c.max, p) && c.max == 4 && off < b.len
    ensures |Cuts(c, first, false, b, off)| <= Units(b.len - off, p)
    decreases b.len - off
  {
    var len := b.len - off;
    var s := CutSize(c, first, false, b.base + off, len);
    if s < len {
      TinyCount(c, p, false, b, off + s);
      UnitsDrop(len, s, p);
    }
  }

  /** Bytes beyond a dword; a dword-sized rest is never cut again. */
  function Beyond(len: nat): nat {
    if len > 4 then len - 4 else 0
  }

  /** A rest that goes out in one chunk: a dword, or two dwords in phase. */
  ghost predicate SingleRest(b: Buf, off: nat) {
    0 < off < b.len && (b.len - off <= 4 || (b.len - off == 8 && OddDword(b.base + off - 1)))
  }

  lemma SingleRestCount(c: Cutter, b: Buf, off: nat)
    requires c.max > 4 && c.max % 4 == 0 && SingleRest(b, off)
    ensures |Cuts(c, false, false, b, off)| == 1
  {
    CutsUnfold(c, false, false, b, off, b.len - off);
  }

  // On the 82544, every chunk that leaves something behind ends in an odd
  // dword (or is a dword); once in phase it is full unless it is the tail's.
  lemma AlignedStep(c: Cutter, p: nat, b: Buf, off: nat, s: nat)
    requires Paired(c.max, p) && c.max > 4 && c.bus.pcix82544
    requires 0 < off < b.len && OddDword(b.base + off - 1)
    requires s == CutSize(c, false, false, b.base + off, b.len - off) && s < b.len - off
    ensures SingleRest(b, off + s) || (s >= p && OddDword(b.base + off + s - 1))
    ensures b.len - off > 4
  {
    hide CutSize, OddDword, SingleRest;
    if b.len - off > c.max {
      AlignedFull(c, p, b.base + off, b.len - off);
    } else {
      AlignedTail(c, b, off);
    }
  }

  lemma AlignedFull(c: Cutter, p: nat, addr: nat, len: nat)
    requires Paired(c.max, p) && c.max > 4 && c.bus.pcix82544 && addr > 0
    requires OddDword(addr - 1) && len > c.max
    ensures var s := CutSize(c, false, false, addr, len);
            s >= p && OddDword(addr + s - 1)
  {
    hide OddDword;
    if c.max % 8 == 0 {
      SamePhase(addr - 1, c.max);
    } else {
      OtherPhase(addr - 1, c.max);
      Retreat(addr + c.max - 1);
    }
  }

  lemma AlignedTail(c: Cutter, b: Buf, off: nat)
    requires c.max > 4 && c.bus.pcix82544 && 0 < off < b.len && b.len - off <= c.max
    requires var s := CutSize(c, false, false, b.base + off, b.len - off);
             s < b.len - off
    ensures var s := CutSize(c, false, false, b.base + off, b.len - off);
            SingleRest(b, off + s) && b.len - off > 4
  {
    hide OddDword;
    var addr, len := b.base + off, b.len - off;
    var s2 := if c.sentinel && len > 8 then len - 4 else len;
    if !OddDword(addr + s2 - 1) && s2 > 4 {
      Retreat(addr + s2 - 1);
    }
  }

  lemma SamePhase(a: nat, d: nat)
    requires d % 8 == 0
    ensures OddDword(a + d) == OddDword(a)
  {
  }

  lemma OtherPhase(a: nat, d: nat)
    requires d % 8 == 4
    ensures OddDword(a + d) != OddDword(a)
  {
  }

  lemma Retreat(a: nat)
    requires !OddDword(a) && a >= 4
    ensures OddDword(a - 4)
  {
  }

  // In phase, only the tail can be trimmed, and the dword it loses is paid for.
  lemma {:induction false} AlignedCount(c: Cutter, p: nat, b: Buf, off: nat)
    requires Paired(c.max, p) && c.max > 4 && c.bus.pcix82544
    requires 0 < off < b.len && OddDword(b.base + off - 1)
    ensures |Cuts(c, false, false, b, off)| <= 1 + Units(Beyond(b.len - off), p)
    decreases b.len - off
  {
    hide CutSize, OddDword, Cuts, Units;
    var len := b.len - off;
    var s := CutSize(c, false, false, b.base + off, len);
    CutsUnfold(c, false, false, b, off, s);
    if s < len {
      AlignedStep(c, p, b, off, s);
      if SingleRest(b, off + s) {
        SingleRestCount(c, b, off + s);
      } else {
        AlignedCount(c, p, b, off + s);
        FullChunkPays(len, s, p);
      }
    }
  }

  lemma FullChunkPays(len: nat, s: nat, p: nat)
    requires 0 < p <= s < len && len - s > 4
    ensures Units(Beyond(len - s), p) + 1 <= Units(Beyond(len), p)
  {
    UnitsDrop(len - 4, s, p);
  }

  // The first chunk of a buffer, whatever the phase it starts in.
  lemma FirstStep(c: Cutter, p: nat, first: bool, trim: bool, b: Buf, s: nat)
    requires Paired(c.max, p) && c.max > 4 && c.bus.pcix82544 && b.len > 0
    requires trim ==> b.len >= ETH_ZLEN && c.max == MAX_DATA_PER_TXD && !c.sentinel
    requires s == CutSize(c, first, trim, b.base, b.len) && s < b.len
    ensures OddDword(b.base + s - 1) || SingleRest(b, s)
    ensures SingleRest(b, s) || s + 4 >= p || trim || CapCost(c, first, b.len) == 1
  {
  }

  // On the 82544 a buffer costs its units, one chunk for the phase, and one
  // for each of the errata-10 cap and the TSO-then-linear trim.
  lemma Count82544(c: Cutter, p: nat, first: bool, trim: bool, b: Buf)
    requires Paired(c.max, p) && c.bus.pcix82544 && b.len > 0
    requires trim ==> b.len >= ETH_ZLEN && c.max == MAX_DATA_PER_TXD && !c.sentinel
    ensures |Cuts(c, first, trim, b, 0)| <= Units(b.len, p) + 1 + One(trim) + CapCost(c, first, b.len)
  {
    hide CutSize, OddDword, Cuts, Units, SingleRest, CapCost;
    if c.max == 4 {
      TinyCount(c, p, first, b, 0);
    } else {
      var s := CutSize(c, first, trim, b.base, b.len);
      CutsUnfold(c, first, trim, b, 0, s);
      if s < b.len {
        FirstStep(c, p, first, trim, b, s);
        if SingleRest(b, s) {
          SingleRestCount(c, b, s);
        } else {
          AlignedCount(c, p, b, s);
          FirstCutPays(b.len, s, p, One(trim) + CapCost(c, first, b.len));
        }
      }
    }
  }

  lemma FirstCutPays(len: nat, s: nat, p: nat, extra: nat)
    requires p > 0 && s < len && (s + 4 >= p || extra > 0)
    ensures Units(Beyond(len - s), p) + 1 <= Units(len, p) + extra
  {
    if s + 4 >= p && Beyond(len - s) > 0 {
      UnitsDrop(len, s + 4, p);
    } else {
      UnitsMono(Beyond(len - s), len, p);
    }
  }

  // ------------------------------------------------ the reservation suffices

  /** One context descriptor for TSO, else one for a partial checksum, else none. */
  function ContextDescs(skb: Skb): nat {
    One(skb.mss > 0 || skb.csumPartial)
  }

  function FragUse(skb: Skb, pwr: nat, f: nat): nat
    requires f <= |skb.frags|
    decreases |skb.frags| - f
  {
    if f == |skb.frags| then 0 else TxdUseCount(skb.frags[f].len, pwr) + FragUse(skb, pwr, f + 1)
  }

  /** The number of descriptors e1000_xmit_frame asks room for. */
  function Reserved(skb: Skb, bus: Bus, lastTxTso: bool): nat {
    var pwr := MaxTxdPwr(skb.mss);
    (if skb.mss > 0 || skb.csumPartial then 1 else 0)
    + 1
    + (if skb.frags == [] && lastTxTso && skb.mss == 0 then 1 else 0)
    + TxdUseCount(skb.head.len, pwr)
    + (if bus.pcix82544 then 1 else 0)
    + (if bus.pcix && skb.head.len > PCIX_FIRST_MAX then 1 else 0)
    + FragUse(skb, pwr, 0)
    + (if bus.pcix82544 then |skb.frags| else 0)
  }

  // A buffer in the middle or at the end of the packet.
  lemma FragCount(skb: Skb, bus: Bus, f: nat)
    requires f < |skb.frags| && skb.frags[f].len > 0
    ensures |Cuts(CutterFor(skb, bus, f + 1), false, false, FragBuf(skb, f), 0)| <=
            TxdUseCount(skb.frags[f].len, MaxTxdPwr(skb.mss))
            + (if bus.pcix82544 then 1 else One(skb.mss > 0 && f + 1 == |skb.frags|))
  {
    var pwr := MaxTxdPwr(skb.mss);
    LimitsPaired(skb.mss);
    UnitsIsUseCount(skb.frags[f].len, pwr);
    var c := CutterFor(skb, bus, f + 1);
    if bus.pcix82544 {
      Count82544(c, Pow2(pwr), false, false, FragBuf(skb, f));
    } else {
      PlainCount(c, Pow2(pwr), false, false, FragBuf(skb, f), 0);
    }
  }

  lemma {:induction false} FragsCount(skb: Skb, bus: Bus, f: nat)
    requires f <= |skb.frags|
    requires forall i :: 0 <= i < |skb.frags| ==> skb.frags[i].len > 0
    ensures |FragChunks(skb, bus, f)| <=
            FragUse(skb, MaxTxdPwr(skb.mss), f)
            + (if bus.pcix82544 then |skb.frags| - f else One(skb.mss > 0 && f < |skb.frags|))
    decreases |skb.frags| - f
  {
    if f < |skb.frags| {
      FragCount(skb, bus, f);
      FragsCount(skb, bus, f + 1);
    }
  }

  lemma HeadCount(skb: Skb, bus: Bus, lastTxTso: bool)
    requires Sendable(skb)
    ensures |HeadChunks(skb, bus, lastTxTso)| <=
            TxdUseCount(skb.head.len, MaxTxdPwr(skb.mss))
            + One(NeedsTrim(skb, lastTxTso))
            + One(bus.pcix && skb.head.len > PCIX_FIRST_MAX)
            + (if bus.pcix82544 then 1 else One(skb.mss > 0 && skb.frags == []))
  {
    hide Cuts, MaxTxdPwr, TxdUseCount, Units, Fls, Paired;
    var pwr := MaxTxdPwr(skb.mss);
    LimitsPaired(skb.mss);
    UnitsIsUseCount(skb.head.len, pwr);
    var c, trim := CutterFor(skb, bus, 0), NeedsTrim(skb, lastTxTso);
    if bus.pcix82544 {
      Count82544(c, Pow2(pwr), true, trim, HeadBuf(skb));
    } else {
      PlainCount(c, Pow2(pwr), true, trim, HeadBuf(skb), 0);
    }
  }

  /** For every packet and every mix of workarounds, the context descriptor and
      the chunks fit in what was reserved. */
  lemma BudgetCovers(skb: Skb, bus: Bus, lastTxTso: bool)
    requires Sendable(skb)
    ensures ContextDescs(skb) + |PacketChunks(skb, bus, lastTxTso)| <= Reserved(skb, bus, lastTxTso)
  {
    HeadCount(skb, bus, lastTxTso);
    FragsCount(skb, bus, 0);
  }

  /** Only TSO off the 82544 may use the reservation up: any other packet leaves a descriptor over. */
  lemma BudgetSlack(skb: Skb, bus: Bus, lastTxTso: bool)
    requires Sendable(skb) && (skb.mss == 0 || bus.pcix82544)
    ensures ContextDescs(skb) + |PacketChunks(skb, bus, lastTxTso)| + 1 <= Reserved(skb, bus, lastTxTso)
  {
    HeadCount(skb, bus, lastTxTso);
    FragsCount(skb, bus, 0);
  }

  /** There it cannot be lowered: a short linear TSO packet uses all of it. */
  lemma BudgetTight(skb: Skb)
    requires skb.head.len == ETH_ZLEN && skb.frags == [] && skb.mss == 1024
    ensures var bus := Bus(false, false);
            && Sendable(skb) && |PacketChunks(skb, bus, false)| == 2
            && ContextDescs(skb) + |PacketChunks(skb, bus, false)| == Reserved(skb, bus, false) == 3
  {
    var bus := Bus(false, false);
    var c, b := CutterFor(skb, bus, 0), HeadBuf(skb);
    CutsUnfold(c, true, false, b, 0, 56);
    LastDword(c, b, 56);
    assert FragChunks(skb, bus, 0) == [];
    LimitsPaired(skb.mss);
    UnitsIsUseCount(60, MaxTxdPwr(1024));
    FlsBounds(4096);
    assert Units(60, Pow2(MaxTxdPwr(1024))) == 1;
  }

  // ------------------------------------------------------------ exact cover

  /** Byte number `off` of buffer `buf` of a packet. */
  datatype Byte = Byte(buf: nat, off: nat)

  /** Bytes off, off + 1, ..., off + n - 1 of buffer b. */
  function Span(b: nat, off: nat, n: nat): (s: seq<Byte>)
    ensures |s| == n
    decreases n
  {
    if n == 0 then [] else [Byte(b, off)] + Span(b, off + 1, n - 1)
  }

  lemma {:induction false} SpanSplit(b: nat, off: nat, n: nat, k: nat)
    requires k <= n
    ensures Span(b, off, n) == Span(b, off, k) + Span(b, off + k, n - k)
    decreases k
  {
    if k > 0 {
      SpanSplit(b, off + 1, n - 1, k - 1);
    }
  }

  /** The bytes a list of chunks sends, in order. */
  function Bytes(chunks: seq<Chunk>): seq<Byte> {
    if chunks == [] then [] else Span(chunks[0].buf, chunks[0].off, chunks[0].len) + Bytes(chunks[1..])
  }

  function FragsBytes(skb: Skb, f: nat): seq<Byte>
    requires f <= |skb.frags|
    decreases |skb.frags| - f
  {
    if f == |skb.frags| then [] else Span(f + 1, 0, skb.frags[f].len) + FragsBytes(skb, f + 1)
  }

  /** The bytes of a packet, in order: the linear part, then each fragment. */
  function PacketBytes(skb: Skb): seq<Byte> {
    Span(0, 0, skb.head.len) + FragsBytes(skb, 0)
  }

  lemma {:induction false} BytesConcat(a: seq<Chunk>, b: seq<Chunk>)
    ensures Bytes(a + b) == Bytes(a) + Bytes(b)
  {
    hide Span, Bytes;
    if a == [] {
      assert a + b == b;
      BytesNone();
    } else {
      BytesConcat(a[1..], b);
      BytesCons(a[0], a[1..]);
      BytesCons(a[0], a[1..] + b);
      assert [a[0]] + a[1..] == a && [a[0]] + (a[1..] + b) == a + b;
      Associative(Span(a[0].buf, a[0].off, a[0].len), Bytes(a[1..]), Bytes(b));
    }
  }

  lemma BytesNone()
    ensures Bytes([]) == []
  {
  }

  ghost predicate AllWithin(chunks: seq<Chunk>, max: nat) {
    forall ch <- chunks :: 0 < ch.len <= max
  }

  lemma {:induction false} CutsWithin(c: Cutter, first: bool, trim: bool, b: Buf, off: nat)
    requires c.max >= 4 && off <= b.len
    requires trim ==> b.len - off >= ETH_ZLEN && c.max >= ETH_ZLEN
    ensures AllWithin(Cuts(c, first, trim, b, off), c.max)
    decreases b.len - off
  {
    hide CutSize;
    if off < b.len {
      var s := CutSize(c, first, trim, b.base + off, b.len - off);
      CutsWithin(c, false, false, b, off + s);
      hide Cuts;
      CutsUnfold(c, first, trim, b, off, s);
    }
  }

  lemma {:induction false} CutsCover(c: Cutter, first: bool, trim: bool, b: Buf, off: nat)
    requires c.max >= 4 && off <= b.len
    requires trim ==> b.len - off >= ETH_ZLEN && c.max >= ETH_ZLEN
    ensures Bytes(Cuts(c, first, trim, b, off)) == Span(b.idx, off, b.len - off)
    decreases b.len - off
  {
    hide CutSize, Cuts, Span, Bytes;
    if off == b.len {
      CutsNone(c, first, trim, b);
    } else {
      var s := CutSize(c, first, trim, b.base + off, b.len - off);
      CutsUnfold(c, first, trim, b, off, s);
      CutsCover(c, false, false, b, off + s);
      SpanSplit(b.idx, off, b.len - off, s);
      BytesCons(Chunk(b.idx, off, s), Cuts(c, false, false, b, off + s));
    }
  }

  lemma CutsNone(c: Cutter, first: bool, trim: bool, b: Buf)
    requires c.max >= 4 && !trim
    ensures Cuts(c, first, trim, b, b.len) == [] && Bytes([]) == [] && Span(b.idx, b.len, 0) == []
  {
  }

  lemma BytesCons(ch: Chunk, rest: seq<Chunk>)
    ensures Bytes([ch] + rest) == Span(ch.buf, ch.off, ch.len) + Bytes(rest)
  {
    assert ([ch] + rest)[1..] == rest;
  }

  lemma FragBufIs(skb: Skb, f: nat)
    requires f < |skb.frags|
    ensures FragBuf(skb, f).idx == f + 1 && FragBuf(skb, f).len == skb.frags[f].len
  {
  }

  lemma {:induction false} FragsCover(skb: Skb, bus: Bus, f: nat)
    requires f <= |skb.frags|
    ensures Bytes(FragChunks(skb, bus, f)) == FragsBytes(skb, f)
    decreases |skb.frags| - f
  {
    hide Cuts, Bytes, Span, CutterFor, FragBuf;
    if f == |skb.frags| {
      BytesNone();
    } else {
      FragBufIs(skb, f);
      CutsCover(CutterFor(skb, bus, f + 1), false, false, FragBuf(skb, f), 0);
      FragsCover(skb, bus, f + 1);
      BytesConcat(Cuts(CutterFor(skb, bus, f + 1), false, false, FragBuf(skb, f), 0), FragChunks(skb, bus, f + 1));
    }
  }

  lemma {:induction false} FragsWithin(skb: Skb, bus: Bus, f: nat)
    requires f <= |skb.frags|
    ensures AllWithin(FragChunks(skb, bus, f), MaxPerTxd(skb.mss))
    decreases |skb.frags| - f
  {
    if f < |skb.frags| {
      CutsWithin(CutterFor(skb, bus, f + 1), false, false, FragBuf(skb, f), 0);
      hide Cuts;
      FragsWithin(skb, bus, f + 1);
    }
  }

  /** The chunks are non-empty, within the limit, and send exactly the packet's bytes in order. */
  lemma ChunksCoverPacket(skb: Skb, bus: Bus, lastTxTso: bool)
    requires Sendable(skb)
    ensures var chunks := PacketChunks(skb, bus, lastTxTso);
            && Bytes(chunks) == PacketBytes(skb)
            && AllWithin(chunks, MaxPerTxd(skb.mss))
  {
    CutsCover(CutterFor(skb, bus, 0), true, NeedsTrim(skb, lastTxTso), HeadBuf(skb), 0);
    CutsWithin(CutterFor(skb, bus, 0), true, NeedsTrim(skb, lastTxTso), HeadBuf(skb), 0);
    FragsCover(skb, bus, 0);
    FragsWithin(skb, bus, 0);
    BytesConcat(HeadChunks(skb, bus, lastTxTso), FragChunks(skb, bus, 0));
  }

  // ---------------------------------------------------------------- errata

  /** Errata 10: on PCI-X the first descriptor of a packet stays below 2016 bytes. */
  lemma FirstChunkCapped(skb: Skb, bus: Bus, lastTxTso: bool)
    requires Sendable(skb) && bus.pcix
    ensures var chunks := PacketChunks(skb, bus, lastTxTso);
            |chunks| > 0 && chunks[0].buf == 0 && chunks[0].off == 0 && chunks[0].len <= PCIX_FIRST_MAX
  {
  }

  /** A linear non-TSO packet behind a TSO packet never goes out in one descriptor. */
  lemma TrimSplits(skb: Skb, bus: Bus)
    requires Sendable(skb) && NeedsTrim(skb, true)
    ensures |PacketChunks(skb, bus, true)| >= 2
  {
    var c, b := CutterFor(skb, bus, 0), HeadBuf(skb);
    var s := CutSize(c, true, true, b.base, b.len);
    CutsUnfold(c, true, true, b, 0, s);
    CutsUnfold(c, false, false, b, s, CutSize(c, false, false, b.base + s, b.len - s));
  }

  /** The TSO sentinel: the last `n <= 8` bytes of a buffer are a chunk of their own. */
  lemma {:induction false} SentinelLast(c: Cutter, first: bool, b: Buf, off: nat)
    requires c.max >= 4 && c.sentinel && off < b.len
    ensures var chunks := Cuts(c, first, false, b, off);
            |chunks| > 0 && chunks[|chunks| - 1].len <= 8
    decreases b.len - off
  {
    hide CutSize, Cuts, OddDword;
    var s := CutSize(c, first, false, b.base + off, b.len - off);
    CutsUnfold(c, first, false, b, off, s);
    if off + s < b.len {
      SentinelLast(c, false, b, off + s);
    } else {
      SentinelCut(c, first, b.base + off, b.len - off);
    }
  }

  lemma SentinelCut(c: Cutter, first: bool, addr: nat, len: nat)
    requires c.max >= 4 && c.sentinel && len > 0 && CutSize(c, first, false, addr, len) == len
    ensures len <= 8
  {
    hide OddDword;
  }

  lemma {:induction false} FragsSentinelLast(skb: Skb, bus: Bus, f: nat)
    requires f < |skb.frags| && skb.mss > 0
    requires forall i :: 0 <= i < |skb.frags| ==> skb.frags[i].len > 0
    ensures var chunks := FragChunks(skb, bus, f);
            |chunks| > 0 && chunks[|chunks| - 1].len <= 8
    decreases |skb.frags| - f
  {
    if f + 1 < |skb.frags| {
      FragsSentinelLast(skb, bus, f + 1);
    } else {
      SentinelLast(CutterFor(skb, bus, f + 1), false, FragBuf(skb, f), 0);
      assert FragChunks(skb, bus, f + 1) == [];
    }
  }

  lemma TsoEndsShort(skb: Skb, bus: Bus, lastTxTso: bool)
    requires Sendable(skb) && skb.mss > 0
    ensures var chunks := PacketChunks(skb, bus, lastTxTso);
            |chunks| > 0 && chunks[|chunks| - 1].len <= 8
  {
    if skb.frags == [] {
      SentinelLast(CutterFor(skb, bus, 0), true, HeadBuf(skb), 0);
      assert FragChunks(skb, bus, 0) == [];
    } else {
      FragsSentinelLast(skb, bus, 0);
    }
  }

  /** A chunk of a buffer at `base` that is a dword or less, or ends in an odd dword. */
  predicate EndsOdd(base: nat, chunk: Chunk) {
    chunk.len > 4 ==> OddDword(base + chunk.off + chunk.len - 1)
  }

  lemma CutEndsOdd(c: Cutter, first: bool, trim: bool, addr: nat, len: nat, s: nat)
    requires c.max >= 4 && len > 0 && c.bus.pcix82544
    requires trim ==> len >= ETH_ZLEN && c.max >= ETH_ZLEN
    requires s == CutSize(c, first, trim, addr, len)
    ensures s > 4 ==> OddDword(addr + s - 1)
  {
  }

  lemma {:induction false} CutsEndOdd(c: Cutter, first: bool, trim: bool, b: Buf, off: nat)
    requires c.max >= 4 && off <= b.len && c.bus.pcix82544
    requires trim ==> b.len - off >= ETH_ZLEN && c.max >= ETH_ZLEN
    ensures forall ch <- Cuts(c, first, trim, b, off) :: EndsOdd(b.base, ch) && ch.buf == b.idx
    decreases b.len - off
  {
    hide CutSize, Cuts, OddDword;
    if off == b.len {
      CutsNone(c, first, trim, b);
    } else {
      var s := CutSize(c, first, trim, b.base + off, b.len - off);
      CutEndsOdd(c, first, trim, b.base + off, b.len - off, s);
      CutsUnfold(c, first, trim, b, off, s);
      CutsEndOdd(c, false, false, b, off + s);
    }
  }

  /** The address the driver takes for byte 0 of a buffer, and the address the
      bus really sees: they differ by the fragment's offset inside its page. */
  function DriverBase(skb: Skb, buf: nat): nat
    requires buf <= |skb.frags|
  {
    if buf == 0 then skb.head.addr else skb.frags[buf - 1].page
  }

  function BusBase(skb: Skb, buf: nat): nat
    requires buf <= |skb.frags|
  {
    if buf == 0 then skb.head.addr else skb.frags[buf - 1].page + skb.frags[buf - 1].pageOffset
  }

  lemma {:induction false} FragsEndOdd(skb: Skb, bus: Bus, f: nat)
    requires f <= |skb.frags| && bus.pcix82544
    ensures forall ch <- FragChunks(skb, bus, f) ::
              0 < ch.buf <= |skb.frags| && EndsOdd(DriverBase(skb, ch.buf), ch)
    decreases |skb.frags| - f
  {
    if f < |skb.frags| {
      CutsEndOdd(CutterFor(skb, bus, f + 1), false, false, FragBuf(skb, f), 0);
      FragsEndOdd(skb, bus, f + 1);
    }
  }

  /** The 82544 workaround holds of every chunk, by the driver's own addresses. */
  lemma ChunksEndOdd(skb: Skb, bus: Bus, lastTxTso: bool)
    requires Sendable(skb) && bus.pcix82544
    ensures forall ch <- PacketChunks(skb, bus, lastTxTso) ::
              ch.buf <= |skb.frags| && EndsOdd(DriverBase(skb, ch.buf), ch)
  {
    CutsEndOdd(CutterFor(skb, bus, 0), true, NeedsTrim(skb, lastTxTso), HeadBuf(skb), 0);
    FragsEndOdd(skb, bus, 0);
  }

  /** A packet whose fragments all start at multiples of 8 is safe on the bus. */
  lemma ChunksEndOddOnBus(skb: Skb, bus: Bus, lastTxTso: bool)
    requires Sendable(skb) && bus.pcix82544
    requires forall f :: 0 <= f < |skb.frags| ==> skb.frags[f].pageOffset % 8 == 0
    ensures forall ch <- PacketChunks(skb, bus, lastTxTso) ::
              ch.buf <= |skb.frags| && EndsOdd(BusBase(skb, ch.buf), ch)
  {
    ChunksEndOdd(skb, bus, lastTxTso);
    forall ch <- PacketChunks(skb, bus, lastTxTso)
      ensures ch.buf <= |skb.frags| && EndsOdd(BusBase(skb, ch.buf), ch)
    {
      if ch.len > 4 && ch.buf > 0 {
        SamePhase(DriverBase(skb, ch.buf) + ch.off + ch.len - 1, skb.frags[ch.buf - 1].pageOffset);
      }
    }
  }

  /** On the bus the workaround holds of every chunk of every packet whose fragments
      lie at a given page offset ... */
  ghost predicate PageOffsetSafe(pageOffset: nat) {
    forall skb: Skb, lastTxTso: bool :: Sendable(skb) && AllAt(skb, pageOffset) ==> SafeOnBus(skb, lastTxTso)
  }

  ghost predicate AllAt(skb: Skb, pageOffset: nat) {
    forall f :: 0 <= f < |skb.frags| ==> skb.frags[f].pageOffset == pageOffset
  }

  ghost predicate SafeOnBus(skb: Skb, lastTxTso: bool)
    requires Sendable(skb)
  {
    forall ch <- PacketChunks(skb, Bus(true, true), lastTxTso) ::
      ch.buf <= |skb.frags| && EndsOdd(BusBase(skb, ch.buf), ch)
  }

  /** ... if and only if the page offset is a multiple of 8. */
  lemma PageOffsetSafeIff(pageOffset: nat)
    ensures PageOffsetSafe(pageOffset) <==> pageOffset % 8 == 0
  {
    hide PacketChunks, EndsOdd, Sendable;
    if pageOffset % 8 == 0 {
      forall skb: Skb, lastTxTso: bool | Sendable(skb) && AllAt(skb, pageOffset) ensures SafeOnBus(skb, lastTxTso) {
        ChunksEndOddOnBus(skb, Bus(true, true), lastTxTso);
      }
    } else {
      var skb, ch := UnsafePacket(pageOffset);
      assert !SafeOnBus(skb, false);
    }
  }

  /** At any other offset a small packet ends up unsafe: a 60-byte linear part and an
      eight- or five-byte fragment at the start of a page. */
  lemma UnsafePacket(pageOffset: nat) returns (skb: Skb, ch: Chunk)
    requires pageOffset % 8 != 0
    ensures Sendable(skb) && skb.mss == 0 && AllAt(skb, pageOffset) && |skb.frags| == 1
    ensures ch in PacketChunks(skb, Bus(true, true), false)
    ensures ch.buf == 1 && !EndsOdd(BusBase(skb, 1), ch)
  {
    var len := if pageOffset % 8 <= 4 then 8 else 5;
    skb := Skb(0, Head(0, ETH_ZLEN), [Frag(0, pageOffset, len)], 0, false, 0);
    ch := Chunk(1, 0, len);
    var bus := Bus(true, true);
    CutsUnfold(CutterFor(skb, bus, 1), false, false, FragBuf(skb, 0), 0, len);
    var cuts := Cuts(CutterFor(skb, bus, 1), false, false, FragBuf(skb, 0), 0);
    assert cuts[0] == ch;
    assert FragChunks(skb, bus, 0) == cuts + FragChunks(skb, bus, 1);
    assert PacketChunks(skb, bus, false)[|HeadChunks(skb, bus, false)|] == ch;
  }
}
