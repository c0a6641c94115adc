/** The e1000 receive ring of pages: frames of any length are chained together
    across buffers and polls. */
module E1000RxJumbo {
  import opened Ring
  import opened Wrappers
  import opened Words
  import opened Accounts
  import opened NetDev
  import opened E1000RxFrames
  import opened E1000RxRing

  /** A socket buffer: its bytes, and the pages it owns. */
  datatype Skb = Skb(bytes: Bytes, pages: seq<u64>)

  /** Reassembly: every frame of the stream, its pieces put together, that passes the
      filter on its last piece. */
  function JumboFrames(c: Config, gs: seq<seq<Piece>>): seq<Bytes> {
    if gs == [] then []
    else
      var g := gs[|gs| - 1];
      JumboFrames(c, gs[..|gs| - 1]) + (if g == [] then [] else Filter(c, g[|g| - 1], BytesOf(g)))
  }

  function Pages(top: Option<Skb>): multiset<u64> {
    if top.Some? then multiset(top.value.pages) else multiset{}
  }

  /** What has been delivered after a stream, and the chain under way. */
  ghost predicate Reassembles(c: Config, consumed: seq<Piece>, delivered: seq<Bytes>, top: Option<Skb>) {
    && delivered == JumboFrames(c, Closed(consumed))
    && (top.None? <==> Open(consumed) == [])
    && (top.Some? ==> top.value.bytes == BytesOf(Open(consumed)))
  }

  lemma TopIsOpen(c: Config, consumed: seq<Piece>, delivered: seq<Bytes>, top: Option<Skb>)
    requires Reassembles(c, consumed, delivered, top)
    ensures BytesOf(Open(consumed)) == TopBytes(top)
  {
  }

  lemma JumboSnoc(c: Config, gs: seq<seq<Piece>>, o: seq<Piece>, p: Piece)
    ensures JumboFrames(c, gs + [o + [p]]) == JumboFrames(c, gs) + Filter(c, p, BytesOf(o + [p]))
  {
    hide Filter, BytesOf;
    assert (gs + [o + [p]])[..|gs|] == gs;
  }

  /** A piece that goes on: the chain grows. */
  lemma {:induction false} Grows(c: Config, consumed: seq<Piece>, delivered: seq<Bytes>, top: Option<Skb>, p: Piece,
                                 pages: seq<u64>)
    requires Reassembles(c, consumed, delivered, top) && !p.eop
    ensures Reassembles(c, consumed + [p], delivered, Some(Skb(TopBytes(top) + p.bytes, pages)))
  {
    hide Open, Closed, BytesOf, JumboFrames;
    CutSnoc(consumed, p);
    TopIsOpen(c, consumed, delivered, top);
    BytesSnoc(Open(consumed), p);
  }

  /** A piece that ends a frame: the frame is filtered and the chain is gone. */
  lemma {:induction false} Ends(c: Config, consumed: seq<Piece>, delivered: seq<Bytes>, top: Option<Skb>, p: Piece)
    requires Reassembles(c, consumed, delivered, top) && p.eop
    ensures var b := TopBytes(top) + p.bytes;
            && Reassembles(c, consumed + [p], delivered + Filter(c, p, b), None)
            && BytesOf(Open(consumed) + [p]) == b
  {
    hide Filter, Open, Closed, BytesOf, JumboFrames;
    CutSnoc(consumed, p);
    TopIsOpen(c, consumed, delivered, top);
    BytesSnoc(Open(consumed), p);
    JumboSnoc(c, Closed(consumed), Open(consumed), p);
  }

  // Single changes to the books.
  lemma PageIn(got: seq<u64>, gone: seq<u64>, given: seq<u64>, b: seq<Buf>, i: nat, page: u64, chain: multiset<u64>)
    requires i < |b| && b[i].data == 0 && page != 0 && Owed(got, gone, given, Frags(b) + chain)
    ensures Owed(got + [page], gone, given, Frags(b[i := b[i].(data := page)]) + chain)
  {
    hide Frags, Dmas;
    FragsUpdate(b, i, b[i].(data := page));
    assert Frags(b[i := b[i].(data := page)]) == Frags(b) + multiset{page};
  }

  lemma PageOut(got: seq<u64>, gone: seq<u64>, given: seq<u64>, b: seq<Buf>, i: nat, chain: multiset<u64>)
    requires i < |b| && b[i].data != 0 && Owed(got, gone, given, Frags(b) + chain)
    ensures Owed(got, gone + [b[i].data], given, Frags(b[i := NO_BUF]) + chain)
  {
    hide Frags, Dmas;
    FragsUpdate(b, i, NO_BUF);
    assert Frags(b) == Frags(b[i := NO_BUF]) + multiset{b[i].data};
  }

  lemma MapIn(mapped: seq<u64>, unmapped: seq<u64>, b: seq<Buf>, i: nat, dma: u64)
    requires i < |b| && b[i].dma == 0 && dma != 0 && OwedMaps(mapped, unmapped, Dmas(b))
    ensures OwedMaps(mapped + [dma], unmapped, Dmas(b[i := b[i].(dma := dma)]))
  {
    hide Frags, Dmas;
    FragsUpdate(b, i, b[i].(dma := dma));
    assert Dmas(b[i := b[i].(dma := dma)]) == Dmas(b) + multiset{dma};
    assert multiset(mapped + [dma]) == multiset(mapped) + multiset{dma};
  }

  lemma FragsKept(b: seq<Buf>, i: nat, x: Buf)
    requires i < |b| && x.data == b[i].data
    ensures Frags(b[i := x]) == Frags(b)
  {
    hide Frags, Dmas;
    FragsUpdate(b, i, x);
    Cancel(Frags(b[i := x]), Frags(b), One(x.data));
  }

  lemma DmasKept(b: seq<Buf>, i: nat, x: Buf)
    requires i < |b| && x.dma == b[i].dma
    ensures Dmas(b[i := x]) == Dmas(b)
  {
    hide Frags, Dmas;
    FragsUpdate(b, i, x);
    Cancel(Dmas(b[i := x]), Dmas(b), One(x.dma));
  }

  /** A page moves from its slot to the chain, or through it to the stack. */
  lemma PageMoves(got: seq<u64>, gone: seq<u64>, given: seq<u64>, b: seq<Buf>, i: nat, chain: multiset<u64>)
    requires i < |b| && b[i].data != 0 && Owed(got, gone, given, Frags(b) + chain)
    ensures Owed(got, gone, given, Frags(b[i := NO_BUF]) + (chain + multiset{b[i].data}))
  {
    hide Frags, Dmas;
    FragsUpdate(b, i, NO_BUF);
    assert Frags(b) == Frags(b[i := NO_BUF]) + multiset{b[i].data};
    assert Frags(b[i := NO_BUF]) + (chain + multiset{b[i].data}) == Frags(b) + chain;
  }

  lemma Unmapped(mapped: seq<u64>, unmapped: seq<u64>, b: seq<Buf>, i: nat)
    requires i < |b| && b[i].dma != 0 && OwedMaps(mapped, unmapped, Dmas(b))
    ensures OwedMaps(mapped, unmapped + [b[i].dma], Dmas(b[i := b[i].(dma := 0)]))
  {
    hide Frags, Dmas;
    FragsUpdate(b, i, b[i].(dma := 0));
    assert Dmas(b) == Dmas(b[i := b[i].(dma := 0)]) + multiset{b[i].dma};
    assert multiset(unmapped + [b[i].dma]) == multiset(unmapped) + multiset{b[i].dma};
  }

  lemma ChainGiven(got: seq<u64>, gone: seq<u64>, given: seq<u64>, live: multiset<u64>, pages: seq<u64>)
    requires Owed(got, gone, given, live + multiset(pages))
    ensures Owed(got, gone, given + pages, live)
  {
    assert multiset(given + pages) == multiset(given) + multiset(pages);
  }

  lemma ChainFreed(got: seq<u64>, gone: seq<u64>, given: seq<u64>, live: multiset<u64>, pages: seq<u64>)
    requires Owed(got, gone, given, live + multiset(pages))
    ensures Owed(got, gone + pages, given, live)
  {
    assert multiset(gone + pages) == multiset(gone) + multiset(pages);
  }

  /** The bytes of a frame whose last piece may have lost its last byte. */
  function Shorten(p: Piece): (n: nat)
    ensures n <= |p.bytes|
  {
    if p.error && p.tbi && p.bytes != [] then |p.bytes| - 1 else |p.bytes|
  }

  lemma FilterIs(c: Config, p: Piece, a: Bytes)
    requires |a + p.bytes| >= 5 && p.bytes != []
    ensures |a + p.bytes[..Shorten(p)]| >= 4
    ensures Filter(c, p, a + p.bytes) == if p.error && !p.tbi && !c.rxAll then []
        else [Trim(c, a + p.bytes[..Shorten(p)])]
  {
    assert p.bytes[..|p.bytes|] == p.bytes;
    assert (a + p.bytes)[..|a + p.bytes| - 1] == a + p.bytes[..|p.bytes| - 1];
  }

  function TopBytes(top: Option<Skb>): Bytes {
    if top.None? then [] else top.value.bytes
  }

  /** Cleaned: the slot's buffer, once unmapped, is whatever is left of it. */
  lemma BufLeft(b: Buf)
    ensures BufOk(Jumbo, b.(dma := 0)) && BufOk(Jumbo, NO_BUF)
  {
  }

  /** The skb a piece needs, if it needs one, can be had: for the start of a chain, or
      for a frame of its own, from napi_get_frags or, if short, by allocation. */
  predicate Served(c: Config, copybreak: nat, chained: bool, p: Piece, frags: bool, copy: bool) {
    if chained || (p.eop && p.error && !p.tbi && !c.rxAll) then true
    else if p.eop && Shorten(p) <= copybreak then copy
    else frags
  }

  /** The pieces looked at, once the next one has been, if it could be served. */
  function Taken(c: seq<Piece>, w: seq<Piece>, ok: bool): seq<Piece>
    requires w != []
  {
    if ok then c + w[..1] else c
  }

  /** The descriptors but for the marks left on those that have been passed over. */
  function Unmarked(descs: seq<Desc>, stale: set<nat>): (u: seq<Desc>)
    ensures |u| == |descs|
  {
    seq(|descs|, j requires 0 <= j < |descs| => if j in stale then descs[j].(dd := false) else descs[j])
  }

  lemma UnmarkedAddr(descs: seq<Desc>, stale: set<nat>, i: nat, addr: u64)
    requires i < |descs|
    ensures Unmarked(descs[i := descs[i].(addr := addr)], stale)
         == Unmarked(descs, stale)[i := Unmarked(descs, stale)[i].(addr := addr)]
  {
  }

  lemma UnmarkedDone(descs: seq<Desc>, stale: set<nat>, i: nat)
    requires i < |descs| && i !in stale
    ensures Unmarked(descs, stale)[i] == descs[i]
    ensures Unmarked(descs[i := descs[i].(dd := false)], stale) == Unmarked(descs, stale)[i := descs[i].(dd := false)]
    ensures Unmarked(descs, stale + {i}) == Unmarked(descs, stale)[i := descs[i].(dd := false)]
  {
  }

  lemma UnmarkedReceived(descs: seq<Desc>, stale: set<nat>, e: nat, p: Piece)
    requires e < |descs|
    ensures var d := descs[e].(dd := true, piece := p);
            Unmarked(descs[e := d], stale - {e}) == Unmarked(descs, stale)[e := d]
    ensures Unmarked(descs, stale)[e].(dd := true, piece := p) == descs[e].(dd := true, piece := p)
  {
  }

  lemma UnmarkedNone(descs: seq<Desc>)
    ensures Unmarked(descs, {}) == descs
  {
  }

  /** With w pieces waiting from slot i on, the marks left behind are further on. */
  ghost predicate Beyond(stale: set<nat>, i: nat, w: nat, n: nat)
    requires i < n
  {
    forall s <- stale :: s < n && w < Dist(i, s, n)
  }

  lemma BeyondNext(stale: set<nat>, i: nat, w: nat, n: nat)
    requires i < n && 0 < w < n && Beyond(stale, i, w, n)
    ensures Beyond(stale, Next(i, n), w - 1, n) && Beyond(stale + {i}, Next(i, n), w - 1, n)
  {
  }

  /** No pieces could have left such marks. */
  lemma NoPieces(bufs: seq<Buf>, descs: seq<Desc>, clean: nat, use: nat, stale: set<nat>, waiting: seq<Piece>,
                 w: seq<Piece>, s: nat)
    requires RingOk(Jumbo, bufs, Unmarked(descs, stale), clean, use, waiting) && clean < |descs|
    requires Beyond(stale, clean, |waiting|, |descs|) && s in stale && s < |descs| && descs[s].dd
    ensures !RingOk(Jumbo, bufs, descs, clean, use, w)
  {
    var n := |descs|;
    var e := Wrap(clean + |waiting|, n);
    DistOf(clean, |waiting|, n);
    assert e !in stale;
    assert SlotOk(Jumbo, bufs[e], Unmarked(descs, stale)[e], Dist(clean, e, n), Dist(clean, use, n), waiting);
    if |waiting| < |w| {
      NotOk(bufs, descs, clean, use, w, e);
    } else {
      NotOk(bufs, descs, clean, use, w, s);
    }
  }

  lemma NotOk(bufs: seq<Buf>, descs: seq<Desc>, clean: nat, use: nat, w: seq<Piece>, j: nat)
    requires j < |descs| == |bufs| && clean < |bufs| && descs[j].dd != (Dist(clean, j, |bufs|) < |w|)
    ensures !RingOk(Jumbo, bufs, descs, clean, use, w)
  {
    if use < |bufs| {
      assert !SlotOk(Jumbo, bufs[j], descs[j], Dist(clean, j, |bufs|), Dist(clean, use, |bufs|), w);
    }
  }

  class JumboRing {
    const config: Config
    const copybreak: nat
    const bufferWrite: nat           // E1000_RX_BUFFER_WRITE
    const pages: nat -> u64          // what each alloc_page returns
    const maps: nat -> u64           // what each dma_map_page returns, 0 on error
    const frags: nat -> bool         // whether napi_get_frags has an skb, at each turn
    const copies: nat -> bool        // whether an skb for a copy can be had
    const bufs: array<Buf>
    const descs: array<Desc>
    var nextToUse: nat
    var nextToClean: nat
    var rdt: Option<nat>
    var rxSkbTop: Option<Skb>
    var asked: nat
    var mapAsked: nat
    var tries: nat                   // pieces looked at
    var allocFailed: nat             // alloc_rx_buff_failed

    ghost var stale: set<nat>        // descriptors passed over, still marked done
    ghost var waiting: seq<Piece>    // received, not looked at yet
    ghost var consumed: seq<Piece>   // every piece ever looked at
    ghost var delivered: seq<Bytes>  // every frame given to the stack
    ghost var got: seq<u64>          // pages allocated, freed, and given to the stack
    ghost var gone: seq<u64>
    ghost var given: seq<u64>
    ghost var mapped: seq<u64>
    ghost var unmapped: seq<u64>

    /** Every page is in the ring, in the chain, with the stack, or freed. */
    ghost predicate PagesOk()
      reads this`got, this`gone, this`given, this`rxSkbTop, bufs
    {
      Owed(got, gone, given, Frags(bufs[..]) + Pages(rxSkbTop))
    }

    ghost predicate Sound(clean: nat, use: nat)
      reads this`waiting, this`got, this`gone, this`given, this`mapped, this`unmapped, this`rxSkbTop, this`stale, bufs,
          descs
    {
      && bufs.Length == descs.Length && RingOk(Jumbo, bufs[..], Unmarked(descs[..], stale), clean, use, waiting)
      && (forall s <- stale :: s < descs.Length && descs[s].dd)
      && PagesOk() && OwedMaps(mapped, unmapped, Dmas(bufs[..]))
    }

    /** A page for a slot that has none. */
    method TakePage(i: nat) returns (ok: bool)
      requires i < bufs.Length && bufs[i] == NO_BUF && PagesOk() && OwedMaps(mapped, unmapped, Dmas(bufs[..]))
      modifies bufs, this`asked, this`got
      ensures PagesOk() && OwedMaps(mapped, unmapped, Dmas(bufs[..]))
      ensures bufs[..] == old(bufs[..])[i := Buf(pages(old(asked)), 0)] && ok == (pages(old(asked)) != 0)
    {
      hide Owed, OwedMaps, Frags, Dmas;
      ghost var b := bufs[..];
      var page := pages(asked);
      asked := asked + 1;
      assert b[i := NO_BUF] == b;
      if page == 0 {
        return false;
      }
      PageIn(got, gone, given, b, i, page, Pages(rxSkbTop));
      DmasKept(b, i, bufs[i].(data := page));
      got := got + [page];
      bufs[i] := bufs[i].(data := page);
      assert bufs[..] == b[i := bufs[i]];
      return true;
    }

    /** A mapping for a page that has none; without one the page is given up. */
    method MapPage(i: nat) returns (ok: bool)
      requires i < bufs.Length && bufs[i].data != 0 && bufs[i].dma == 0 && PagesOk()
          && OwedMaps(mapped, unmapped, Dmas(bufs[..]))
      modifies bufs, this`mapAsked, this`gone, this`mapped
      ensures PagesOk() && OwedMaps(mapped, unmapped, Dmas(bufs[..])) && ok == (maps(old(mapAsked)) != 0)
      ensures bufs[..] == old(bufs[..])[i := if ok then Buf(old(bufs[i]).data, maps(old(mapAsked))) else NO_BUF]
    {
      hide Owed, OwedMaps, Frags, Dmas;
      ghost var b := bufs[..];
      var dma := maps(mapAsked);
      mapAsked := mapAsked + 1;
      if dma == 0 {
        PageOut(got, gone, given, b, i, Pages(rxSkbTop));
        DmasKept(b, i, NO_BUF);
        gone := gone + [bufs[i].data];
        bufs[i] := NO_BUF;
        assert bufs[..] == b[i := NO_BUF];
        return false;
      }
      MapIn(mapped, unmapped, b, i, dma);
      FragsKept(b, i, bufs[i].(dma := dma));
      mapped := mapped + [dma];
      bufs[i] := bufs[i].(dma := dma);
      assert bufs[..] == b[i := bufs[i]];
      return true;
    }

    /** One slot of e1000_alloc_jumbo_rx_buffers: a page if it has none, and a mapping if it has none. */
    method AllocBuffer(i: nat) returns (ok: bool)
      requires i < bufs.Length && BufOk(Jumbo, bufs[i]) && PagesOk() && OwedMaps(mapped, unmapped, Dmas(bufs[..]))
      modifies bufs, this`asked, this`mapAsked, this`allocFailed, this`got, this`gone, this`mapped
      ensures PagesOk() && OwedMaps(mapped, unmapped, Dmas(bufs[..]))
      ensures bufs[..] == old(bufs[..])[i := bufs[i]] && BufOk(Jumbo, bufs[i])
      ensures ok <==>
                && (old(bufs[i]).data != 0 || pages(old(asked)) != 0)
                && (old(bufs[i]).dma != 0 || maps(old(mapAsked)) != 0)
      ensures allocFailed == old(allocFailed) + if ok then 0 else 1
      ensures if ok then bufs[i].data != 0 && bufs[i].dma != 0 else bufs[i] == NO_BUF
    {
      hide PagesOk, OwedMaps, Dmas;
      ok := true;
      if bufs[i].data == 0 {
        ok := TakePage(i);
      }
      if ok && bufs[i].dma == 0 {
        ok := MapPage(i);
      }
      if !ok {
        allocFailed := allocFailed + 1;
      }
    }

    ghost predicate PagesForAll() {
      (forall a :: pages(a) != 0) && forall m :: maps(m) != 0
    }

    /** One turn of the loop of e1000_alloc_jumbo_rx_buffers. */
    method RefillSlot(i: nat, ghost clean: nat) returns (ok: bool, next: nat)
      requires Sound(clean, i) && i < bufs.Length && clean < bufs.Length && Unused(clean, i, bufs.Length) > 0
      modifies bufs, descs, this`asked, this`mapAsked, this`allocFailed, this`got, this`gone, this`mapped
      ensures allocFailed == old(allocFailed) + if ok then 0 else 1
      ensures next < bufs.Length && Sound(clean, next) && next == if ok then Next(i, bufs.Length) else i
      ensures ok ==> Unused(clean, next, bufs.Length) == Unused(clean, i, bufs.Length) - 1
      ensures PagesForAll() ==> ok
    {
      hide RingOk, Owed, OwedMaps, Frags, Dmas, BufOk, PagesOk, Unmarked;
      ghost var b, d := bufs[..], Unmarked(descs[..], stale);
      UseSlot(Jumbo, b, d, clean, i, waiting);
      ok := AllocBuffer(i);
      if !ok {
        Replaced(Jumbo, b, d, clean, i, waiting, bufs[i]);
        return false, i;
      }
      Refilled(Jumbo, b, d, clean, i, waiting, bufs[i]);
      UnmarkedAddr(descs[..], stale, i, bufs[i].dma);
      descs[i] := descs[i].(addr := bufs[i].dma);
      return true, Next(i, bufs.Length);
    }

    /** e1000_alloc_jumbo_rx_buffers */
    method AllocRxBuffers(cleanedCount: nat, ghost clean: nat)
      requires Sound(clean, nextToUse) && nextToUse < bufs.Length && clean < bufs.Length
      requires cleanedCount <= Unused(clean, nextToUse, bufs.Length)
      modifies bufs, descs, this`nextToUse, this`rdt, this`asked, this`mapAsked, this`allocFailed, this`got, this`gone,
          this`mapped
      ensures nextToUse < bufs.Length && Sound(clean, nextToUse)
      ensures old(Unused(clean, nextToUse, bufs.Length)) - cleanedCount <= Unused(clean, nextToUse, bufs.Length)
      ensures Unused(clean, nextToUse, bufs.Length) <= old(Unused(clean, nextToUse, bufs.Length))
      ensures allocFailed >= old(allocFailed)
      ensures allocFailed == old(allocFailed) <==>
                Unused(clean, nextToUse, bufs.Length) == old(Unused(clean, nextToUse, bufs.Length)) - cleanedCount
      ensures if nextToUse == old(nextToUse) then rdt == old(rdt)
              else rdt.Some? && rdt.value < bufs.Length && Next(rdt.value, bufs.Length) == nextToUse
      ensures PagesForAll() ==> allocFailed == old(allocFailed)
    {
      hide Sound, PagesForAll;
      var i: nat, left: nat := nextToUse, cleanedCount;
      while left > 0
        invariant i < bufs.Length && Sound(clean, i) && left <= Unused(clean, i, bufs.Length)
        invariant old(Unused(clean, nextToUse, bufs.Length)) - cleanedCount + left == Unused(clean, i, bufs.Length)
        invariant nextToUse == old(nextToUse) && rdt == old(rdt) && allocFailed == old(allocFailed)
      {
        var ok;
        ok, i := RefillSlot(i, clean);
        if !ok {
          break;
        }
        left := left - 1;
      }
      if nextToUse != i {
        nextToUse := i;
        rdt := Some(if i == 0 then bufs.Length - 1 else i - 1);
      }
    }

    /** e1000_consume_page, in front of which the page has been put at the end of rx_skb_top. */
    method AddPage(i: nat, bytes: Bytes)
      requires i < bufs.Length && bufs[i].data != 0 && bufs[i].dma == 0 && PagesOk()
      modifies bufs, this`rxSkbTop
      ensures PagesOk() && bufs[..] == old(bufs[..])[i := NO_BUF]
      ensures rxSkbTop.Some? && rxSkbTop.value.bytes == TopBytes(old(rxSkbTop)) + bytes
    {
      hide Owed, Frags;
      ghost var b := bufs[..];
      PageMoves(got, gone, given, b, i, Pages(rxSkbTop));
      var top := if rxSkbTop.None? then Skb([], []) else rxSkbTop.value;
      rxSkbTop := Some(Skb(top.bytes + bytes, top.pages + [bufs[i].data]));
      bufs[i] := bufs[i].(data := 0);
      assert bufs[..] == b[i := NO_BUF];
    }

    /** The chain is dropped, with its pages. */
    method DropChain()
      requires PagesOk()
      modifies this`rxSkbTop, this`gone
      ensures PagesOk() && rxSkbTop.None?
    {
      hide Owed, Frags;
      if rxSkbTop.Some? {
        ChainFreed(got, gone, given, Frags(bufs[..]), rxSkbTop.value.pages);
        gone := gone + rxSkbTop.value.pages;
      }
      rxSkbTop := None;
      assert Frags(bufs[..]) + multiset{} == Frags(bufs[..]);
    }

    /** The chain, complete, goes to the stack, trimmed. */
    method DeliverChain()
      requires PagesOk() && rxSkbTop.Some? && |rxSkbTop.value.bytes| >= 4
      modifies this`rxSkbTop, this`given, this`delivered
      ensures PagesOk() && rxSkbTop.None? && delivered == old(delivered) + [Trim(config, old(rxSkbTop).value.bytes)]
    {
      hide Owed, Frags;
      var skb := rxSkbTop.value;
      ChainGiven(got, gone, given, Frags(bufs[..]), skb.pages);
      rxSkbTop := None;
      given := given + skb.pages;
      delivered := delivered + [if config.rxFcs then skb.bytes else skb.bytes[..|skb.bytes| - 4]];
      assert Frags(bufs[..]) + multiset{} == Frags(bufs[..]);
    }

    /** What e1000_clean_jumbo_rx_irq does with the page in slot i and the piece p in it;
        false if the skb it needs cannot be had. */
    method Assemble(i: nat, p: Piece) returns (ok: bool)
      requires i < bufs.Length && bufs[i].data != 0 && bufs[i].dma == 0 && PagesOk()
      requires Reassembles(config, consumed, delivered, rxSkbTop) && (p.eop ==> Wired(Open(consumed) + [p]))
      modifies bufs, this`rxSkbTop, this`gone, this`given, this`consumed, this`delivered, this`tries, this`allocFailed
      ensures tries == old(tries) + 1 && allocFailed >= old(allocFailed)
      ensures ok <==> Served(config, copybreak, old(rxSkbTop.Some?), p, frags(tries), copies(tries))
      ensures PagesOk() && bufs[..] == old(bufs[..])[i := bufs[i]] && (bufs[i] == old(bufs[i]) || bufs[i] == NO_BUF)
      ensures Reassembles(config, consumed, delivered, rxSkbTop)
      ensures consumed == old(consumed) + if ok then [p] else []
      ensures !ok ==> bufs[i] == old(bufs[i]) && rxSkbTop == old(rxSkbTop) && delivered == old(delivered)
    {
      hide PagesOk, Reassembles, Open, Closed, BytesOf, Filter, Trim;
      tries := tries + 1;
      assert consumed + [] == consumed;
      if !p.eop {
        if rxSkbTop.None? && !frags(tries) {
          return false;
        }
        AddPage(i, p.bytes);
        Grows(config, consumed, delivered, old(rxSkbTop), p, rxSkbTop.value.pages);
        consumed := consumed + [p];
        return true;
      }
      Ends(config, consumed, delivered, rxSkbTop, p);
      FilterIs(config, p, TopBytes(rxSkbTop));
      var length := |p.bytes|;
      if p.error {
        if p.tbi {
          length := length - 1;
        } else if !config.rxAll {
          DropChain();
          assert delivered + [] == delivered;
          consumed := consumed + [p];
          return true;
        }
      }
      if rxSkbTop.None? {
        if length <= copybreak {
          if !copies(tries) {
            allocFailed := allocFailed + 1;
            return false;
          }
          CopyPage(p.bytes[..length]);
          consumed := consumed + [p];
          return true;
        }
        if !frags(tries) {
          allocFailed := allocFailed + 1;
          return false;
        }
      }
      AddPage(i, p.bytes[..length]);
      DeliverChain();
      consumed := consumed + [p];
      return true;
    }

    /** A short frame is copied; its page stays in the ring. */
    method CopyPage(b: Bytes)
      requires |b| >= 4
      modifies this`delivered
      ensures delivered == old(delivered) + [Trim(config, [] + b)]
    {
      var length := |b|;
      if !config.rxFcs {
        length := length - 4;
      }
      assert [] + b == b && b[..|b|] == b;
      delivered := delivered + [b[..length]];
    }

    /** One turn of the loop of e1000_clean_jumbo_rx_irq, without the refill. The slot is
        left behind even if the piece in it could not be served; then the piece is lost,
        the page stays, and so does the mark on the descriptor. */
    method CleanOne(i: nat, ghost use: nat) returns (ok: bool, next: nat)
      requires Sound(i, use) && i !in stale && i < bufs.Length && use < bufs.Length && waiting != []
      requires Reassembles(config, consumed, delivered, rxSkbTop) && OnTheWire(consumed + waiting)
      modifies bufs, descs, this`unmapped, this`rxSkbTop, this`gone, this`given, this`consumed, this`delivered,
          this`waiting, this`stale, this`tries, this`allocFailed
      ensures next < bufs.Length && Sound(next, use) && next == Next(i, bufs.Length)
      ensures tries == old(tries) + 1 && allocFailed >= old(allocFailed)
      ensures ok <==> Served(config, copybreak, old(rxSkbTop.Some?), old(waiting)[0], frags(tries), copies(tries))
      ensures stale == old(stale) + if ok then {} else {i}
      ensures Reassembles(config, consumed, delivered, rxSkbTop)
      ensures Unused(next, use, bufs.Length) == Unused(i, use, bufs.Length) + 1
      ensures consumed == Taken(old(consumed), old(waiting), ok) && waiting == old(waiting)[1..]
      ensures ok ==> consumed + waiting == old(consumed + waiting)
    {
      hide RingOk, PagesOk, Owed, OwedMaps, Frags, Dmas, Reassembles, Wired, OnTheWire, Closed, Open, BufOk, Served;
      hide Next, Unused, Dist, Wrap, Unmarked;
      ghost var b, d, w := bufs[..], Unmarked(descs[..], stale), waiting;
      UnmarkedDone(descs[..], stale, i);
      CleanSlot(Jumbo, b, d, i, use, w);
      RingSizes(Jumbo, b, d, i, use, w);
      LiveSlot(Jumbo, b, d, i, use, w);
      var p := descs[i].piece;
      Unmap(i);
      if p.eop {
        WireAt(consumed, w);
      }
      BufLeft(b[i]);
      ghost var b1 := bufs[..];
      ok := Assemble(i, p);
      DmasKept(b1, i, bufs[i]);
      assert bufs[..] == b[i := bufs[i]];
      Consumed(Jumbo, b, d, i, use, w, bufs[i]);
      waiting := waiting[1..];
      next := Next(i, bufs.Length);
      if ok {
        descs[i] := descs[i].(dd := false);
      } else {
        stale := stale + {i};
      }
    }

    method Unmap(i: nat)
      requires i < bufs.Length && bufs[i].dma != 0 && PagesOk() && OwedMaps(mapped, unmapped, Dmas(bufs[..]))
      modifies bufs, this`unmapped
      ensures PagesOk() && OwedMaps(mapped, unmapped, Dmas(bufs[..]))
          && bufs[..] == old(bufs[..])[i := old(bufs[i]).(dma := 0)]
    {
      hide Owed, OwedMaps, Frags, Dmas;
      ghost var b := bufs[..];
      Unmapped(mapped, unmapped, b, i);
      FragsKept(b, i, b[i].(dma := 0));
      unmapped := unmapped + [bufs[i].dma];
      bufs[i] := bufs[i].(dma := 0);
      assert bufs[..] == b[i := b[i].(dma := 0)];
    }

    /** What holds of the ring whether or not polls have broken off, with slot i the next to clean. */
    ghost predicate Turning(i: nat)
      reads this, bufs, descs
    {
      && Sound(i, nextToUse) && nextToUse < bufs.Length && i < bufs.Length
      && Reassembles(config, consumed, delivered, rxSkbTop) && RdtOk(rdt, nextToUse, bufs.Length)
    }

    /** The driver will not come to a mark left behind before it has run out of pieces. */
    ghost predicate Ahead(i: nat)
      reads this
    {
      i < bufs.Length && Beyond(stale, i, |waiting|, bufs.Length)
    }

    /** The state inside the loop of e1000_clean_jumbo_rx_irq. */
    ghost predicate Polling(i: nat, cleanedCount: nat)
      reads this, bufs, descs
    {
      && Turning(i) && cleanedCount <= Unused(i, nextToUse, bufs.Length)
      && Ahead(i) && OnTheWire(consumed + waiting)
    }

    /** Ready for a poll: the chain may be open, and marks may be left behind further on. */
    ghost predicate Usable()
      reads this, bufs, descs
    {
      Polling(nextToClean, 0)
    }

    /** The state between polls that have not broken off. */
    ghost predicate Valid()
      reads this, bufs, descs
    {
      Usable() && stale == {}
    }

    /** The descriptors are as no pieces received could have left them. */
    ghost predicate Astray()
      reads this, bufs, descs
    {
      forall w :: !RingOk(Jumbo, bufs[..], descs[..], nextToClean, nextToUse, w)
    }

    lemma AstrayIff()
      requires Turning(nextToClean) && Ahead(nextToClean)
      ensures Astray() <==> stale != {}
    {
      if stale == {} {
        UnmarkedNone(descs[..]);
        assert RingOk(Jumbo, bufs[..], descs[..], nextToClean, nextToUse, waiting);
      } else {
        var s :| s in stale;
        forall w ensures !RingOk(Jumbo, bufs[..], descs[..], nextToClean, nextToUse, w) {
          NoPieces(bufs[..], descs[..], nextToClean, nextToUse, stale, waiting, w, s);
        }
      }
    }

    /** The loop test of e1000_clean_jumbo_rx_irq holds of a slot exactly if a piece waits
        in it, or it is one left marked. */
    lemma LooksDone(i: nat)
      requires Turning(i)
      ensures i < bufs.Length == descs.Length && (descs[i].dd <==> waiting != [] || i in stale)
    {
      CleanSlot(Jumbo, bufs[..], Unmarked(descs[..], stale), i, nextToUse, waiting);
    }

    lemma DoneIsWaiting(i: nat, cleanedCount: nat)
      requires Polling(i, cleanedCount)
      ensures i < bufs.Length == descs.Length && (descs[i].dd <==> waiting != [])
    {
      LooksDone(i);
    }

    /** Whether the skb that the k-th piece of w needs can be had, c before them and t turns ago. */
    ghost predicate ServedAt(c: seq<Piece>, w: seq<Piece>, t: nat, k: nat)
      requires k < |w|
    {
      Served(config, copybreak, Open(c + w[..k]) != [], w[k], frags(t + k + 1), copies(t + k + 1))
    }

    ghost predicate AllServed(c: seq<Piece>, w: seq<Piece>, t: nat, n: nat) {
      n <= |w| && forall k :: 0 <= k < n ==> ServedAt(c, w, t, k)
    }

    lemma AllServedNone(c: seq<Piece>, w: seq<Piece>, t: nat)
      ensures AllServed(c, w, t, 0)
    {
    }

    /** The turn after n that went well. */
    lemma TurnAt(c: seq<Piece>, w: seq<Piece>, t: nat, n: nat, m: nat, ok: bool)
      requires n < m <= |w| && AllServed(c, w, t, n) && ok == ServedAt(c + w[..n], w[n..], t + n, 0)
      ensures if ok then AllServed(c, w, t, n + 1) else !AllServed(c, w, t, m)
      ensures Taken(c + w[..n], w[n..], ok) == c + w[..if ok then n + 1 else n] && w[n..][1..] == w[n + 1..]
    {
      assert c + w[..n] + w[n..][..0] == c + w[..n];
      assert c + w[..n] + w[n..][..1] == c + w[..n + 1];
      assert ok == ServedAt(c, w, t, n);
    }

    /** One turn of the loop, up to the refill: one slot more has been cleaned. */
    method CleanNext(i: nat, ghost cleanedCount: nat) returns (ok: bool, next: nat)
      requires Polling(i, cleanedCount) && waiting != []
      modifies bufs, descs, this`unmapped, this`rxSkbTop, this`gone, this`given, this`consumed, this`delivered,
          this`waiting, this`stale, this`tries, this`allocFailed
      ensures tries == old(tries) + 1 && allocFailed >= old(allocFailed)
      ensures ok <==> ServedAt(old(consumed), old(waiting), old(tries), 0)
      ensures if ok then Polling(next, cleanedCount + 1) else Turning(next) && Ahead(next)
      ensures stale == old(stale) + (if ok then {} else {i}) && i < bufs.Length && next == Next(i, bufs.Length)
      ensures consumed == Taken(old(consumed), old(waiting), ok) && waiting == old(waiting)[1..]
      ensures ok ==> Room(next) == old(Room(i)) + 1
    {
      hide Sound, Reassembles, OnTheWire, Served, ServedAt, RdtOk, Unused, Next, Polling, Turning, Ahead, Beyond, Room;
      hide Taken;
      ServedHere(i, cleanedCount);
      AtTurn(i, cleanedCount);
      ok, next := CleanOne(i, nextToUse);
      StillAhead(i, next, old(stale), old(waiting));
      if ok {
        Turned(next, cleanedCount + 1);
      } else {
        Strayed(next);
      }
    }

    lemma StillAhead(i: nat, next: nat, stale0: set<nat>, w: seq<Piece>)
      requires i < bufs.Length && next == Next(i, bufs.Length) && 0 < |w| < bufs.Length && waiting == w[1..]
      requires Beyond(stale0, i, |w|, bufs.Length) && (stale == stale0 || stale == stale0 + {i})
      ensures Ahead(next)
    {
      BeyondNext(stale0, i, |w|, bufs.Length);
    }

    lemma ServedHere(i: nat, cleanedCount: nat)
      requires Polling(i, cleanedCount) && waiting != []
      ensures ServedAt(consumed, waiting, tries, 0) <==>
                Served(config, copybreak, rxSkbTop.Some?, waiting[0], frags(tries + 1), copies(tries + 1))
    {
      hide Served;
      assert consumed + waiting[..0] == consumed;
    }

    lemma AtTurn(i: nat, cleanedCount: nat)
      requires Polling(i, cleanedCount) && waiting != []
      ensures Sound(i, nextToUse) && i !in stale && i < bufs.Length && nextToUse < bufs.Length
      ensures Reassembles(config, consumed, delivered, rxSkbTop) && OnTheWire(consumed + waiting)
      ensures RdtOk(rdt, nextToUse, bufs.Length) && cleanedCount <= Room(i) == Unused(i, nextToUse, bufs.Length)
      ensures Beyond(stale, i, |waiting|, bufs.Length) && |waiting| < bufs.Length
    {
      RingSizes(Jumbo, bufs[..], Unmarked(descs[..], stale), i, nextToUse, waiting);
    }

    lemma Turned(i: nat, cleanedCount: nat)
      requires Sound(i, nextToUse) && i < bufs.Length && nextToUse < bufs.Length && Ahead(i)
      requires Reassembles(config, consumed, delivered, rxSkbTop) && OnTheWire(consumed + waiting)
      requires RdtOk(rdt, nextToUse, bufs.Length) && cleanedCount <= Unused(i, nextToUse, bufs.Length)
      ensures Polling(i, cleanedCount) && Room(i) == Unused(i, nextToUse, bufs.Length)
    {
    }

    lemma Strayed(i: nat)
      requires Sound(i, nextToUse) && i < bufs.Length && nextToUse < bufs.Length
      requires Reassembles(config, consumed, delivered, rxSkbTop) && RdtOk(rdt, nextToUse, bufs.Length)
      ensures Turning(i)
    {
    }

    /** The unused slots, seen from slot i. */
    function Room(i: nat): int
      reads this`nextToUse
    {
      if i < bufs.Length && nextToUse < bufs.Length then Unused(i, nextToUse, bufs.Length) else 0
    }

    /** Buffers go back to the hardware some at a time. */
    method TopUp(i: nat, cleanedCount: nat) returns (count: nat)
      requires Polling(i, cleanedCount)
      modifies bufs, descs, this`nextToUse, this`rdt, this`asked, this`mapAsked, this`allocFailed, this`got, this`gone,
          this`mapped
      ensures Polling(i, count) && allocFailed >= old(allocFailed) && (count < bufferWrite || count == 0)
      ensures allocFailed == old(allocFailed) ==> Room(i) - count == old(Room(i)) - cleanedCount
    {
      hide Sound, Reassembles, OnTheWire;
      if cleanedCount >= bufferWrite {
        AllocRxBuffers(cleanedCount, i);
        return 0;
      }
      return cleanedCount;
    }

    /** One turn of the loop of e1000_clean_jumbo_rx_irq. */
    method CleanTurn(i: nat, cleanedCount: nat) returns (ok: bool, next: nat, count: nat)
      requires Polling(i, cleanedCount) && waiting != []
      modifies this, bufs, descs
      ensures nextToClean == old(nextToClean) && allocFailed >= old(allocFailed) && tries == old(tries) + 1
      ensures ok <==> ServedAt(old(consumed), old(waiting), old(tries), 0)
      ensures if ok then Polling(next, count) else Turning(next) && Ahead(next)
      ensures stale == old(stale) + (if ok then {} else {i}) && i < bufs.Length && next == Next(i, bufs.Length)
      ensures consumed == Taken(old(consumed), old(waiting), ok) && waiting == old(waiting)[1..]
      ensures count < bufferWrite || count == 0
      ensures ok && allocFailed == old(allocFailed) ==> Room(next) - count == old(Room(i)) - cleanedCount
    {
      hide Polling, Turning, Ahead, ServedAt, Room, Taken;
      ok, next := CleanNext(i, cleanedCount);
      if !ok {
        return false, next, 0;
      }
      count := TopUp(next, cleanedCount + 1);
    }

    /** e1000_clean_jumbo_rx_irq: take as many of the waiting pieces, in order, as the
        budget allows. What has been delivered depends on the pieces alone. If an skb
        cannot be had, the poll ends there with the piece lost and its descriptor left
        marked, and the ring is astray. */
    method CleanJumboRxIrq(workToDo: nat) returns (workDone: nat, cleaned: bool, ghost failed: bool)
      requires Usable()
      modifies this, bufs, descs
      ensures Turning(nextToClean) && Ahead(nextToClean) && (!failed ==> Usable())
      ensures nextToClean < bufs.Length
          && stale == old(stale) + if failed then {Back(nextToClean, bufs.Length)} else {}
      ensures Valid() <==> old(Valid()) && !failed
      ensures Astray() <==> stale != {}
      ensures failed <==>
                !AllServed(old(consumed), old(waiting), old(tries), Min(|old(waiting)|, workToDo))
      ensures var served := if failed then workDone - 1 else workDone;
              && 0 <= served <= workDone <= Min(|old(waiting)|, workToDo) && cleaned == (workDone > 0)
              && (!failed ==> workDone == Min(|old(waiting)|, workToDo))
              && AllServed(old(consumed), old(waiting), old(tries), served)
              && consumed == old(consumed) + old(waiting)[..served] && waiting == old(waiting)[workDone..]
              && tries == old(tries) + workDone
      ensures nextToUse < bufs.Length
      ensures allocFailed == old(allocFailed) ==> Unused(nextToClean, nextToUse, bufs.Length) == 0
    {
      hide Polling, Turning, Ahead, Usable, ServedAt, Astray, AllServed, Unused, Taken, Room;
      AtPoll();
      AllServedNone(consumed, waiting, tries);
      var i: nat, cleanedCount: nat := nextToClean, 0;
      workDone, cleaned, failed := 0, false, false;
      ghost var c, w, t, st := consumed, waiting, tries, stale;
      DoneIsWaiting(i, cleanedCount);
      while descs[i].dd
        invariant cleanedCount < bufferWrite || cleanedCount == 0
        invariant Polling(i, cleanedCount) && i < descs.Length && (descs[i].dd <==> waiting != [])
        invariant workDone <= |w| && workDone <= workToDo && cleaned == (workDone > 0)
            && allocFailed >= old(allocFailed) && tries == t + workDone && !failed && stale == st
        invariant consumed == c + w[..workDone] && waiting == w[workDone..]
        invariant AllServed(c, w, t, workDone)
        decreases |waiting|
      {
        if workDone >= workToDo {
          break;
        }
        var ok;
        ok, i, cleanedCount := CleanTurn(i, cleanedCount);
        TurnAt(c, w, t, workDone, Min(|w|, workToDo), ok);
        workDone := workDone + 1;
        cleaned := true;
        if !ok {
          failed := true;
          break;
        }
        DoneIsWaiting(i, cleanedCount);
      }
      if !failed {
        PollEnds(i, cleanedCount);
      }
      EndPoll(i);
      AstrayIff();
    }

    lemma AtPoll()
      ensures Usable() <==> Polling(nextToClean, 0)
    {
    }

    lemma Delivers()
      requires Turning(nextToClean)
      ensures delivered == JumboFrames(config, Closed(consumed))
    {
    }

    lemma Ready()
      requires Turning(nextToClean) && Ahead(nextToClean) && OnTheWire(consumed + waiting)
      ensures Usable()
    {
    }

    lemma PollEnds(i: nat, cleanedCount: nat)
      requires Polling(i, cleanedCount)
      ensures Turning(i) && Ahead(i) && OnTheWire(consumed + waiting)
    {
    }

    /** The end of e1000_clean_jumbo_rx_irq. */
    method EndPoll(i: nat)
      requires Turning(i) && Ahead(i)
      modifies bufs, descs, this`nextToClean, this`nextToUse, this`rdt, this`asked, this`mapAsked, this`allocFailed,
          this`got, this`gone, this`mapped
      ensures nextToClean == i && allocFailed >= old(allocFailed)
      ensures Turning(i) && Ahead(i) && (OnTheWire(consumed + waiting) ==> Usable())
      ensures nextToUse < bufs.Length && i < bufs.Length
          && (allocFailed == old(allocFailed) ==> Unused(i, nextToUse, bufs.Length) == 0)
    {
      hide Sound, Reassembles, OnTheWire, Beyond;
      nextToClean := i;
      var cleanedCount := Unused(nextToClean, nextToUse, bufs.Length);
      if cleanedCount > 0 {
        AllocRxBuffers(cleanedCount, i);
      }
    }

    /** The fill of e1000_configure. */
    method Configure()
      requires Valid()
      modifies bufs, descs, this`nextToUse, this`rdt, this`asked, this`mapAsked, this`allocFailed, this`got, this`gone,
          this`mapped
      ensures Valid() && Turning(nextToClean) && nextToUse < bufs.Length && nextToClean < bufs.Length
      ensures PagesForAll() ==> Unused(nextToClean, nextToUse, bufs.Length) == 0
    {
      hide Sound, Reassembles, OnTheWire, PagesForAll;
      AllocRxBuffers(Unused(nextToClean, nextToUse, bufs.Length), nextToClean);
    }

    /** The hardware puts the next piece into the next page it owns. If the descriptor was
        left marked, the mark is right again. */
    method HwReceive(p: Piece, entry: nat)
      requires Turning(nextToClean) && |waiting| < Dist(nextToClean, nextToUse, bufs.Length)
          && entry == Wrap(nextToClean + |waiting|, bufs.Length)
      requires OnTheWire(consumed + waiting + [p])
      modifies descs, this`waiting, this`stale
      ensures Turning(nextToClean) && waiting == old(waiting) + [p] && bufs[..] == old(bufs[..])
      ensures stale == old(stale) - {entry} && OnTheWire(consumed + waiting)
      ensures Ahead(nextToClean) ==> Usable()
      ensures old(Valid()) ==> Valid()
    {
      hide RingOk, PagesOk, Owed, OwedMaps, Reassembles, OnTheWire, Unmarked;
      Received(Jumbo, bufs[..], Unmarked(descs[..], stale), nextToClean, nextToUse, waiting, p);
      UnmarkedReceived(descs[..], stale, entry, p);
      descs[entry] := descs[entry].(dd := true, piece := p);
      assert consumed + waiting + [p] == consumed + (waiting + [p]);
      waiting := waiting + [p];
      stale := stale - {entry};
    }

    /** A ring without pages, as e1000_configure_rx finds it. */
    constructor (config: Config, copybreak: nat, bufferWrite: nat, n: nat, pages: nat -> u64, maps: nat -> u64,
                 frags: nat -> bool, copies: nat -> bool)
      requires n > 0
      ensures Valid() && fresh(bufs) && fresh(descs) && waiting == [] && consumed == [] && delivered == []
      ensures bufs.Length == n && nextToClean == 0 && tries == 0 && this.config == config && this.copybreak == copybreak
      ensures this.pages == pages && this.maps == maps && this.frags == frags && this.copies == copies
    {
      this.config, this.copybreak, this.bufferWrite := config, copybreak, bufferWrite;
      this.pages, this.maps, this.frags, this.copies := pages, maps, frags, copies;
      bufs := new Buf[n](_ => NO_BUF);
      descs := new Desc[n](_ => Desc(false, Piece([], false, false, false), 0));
      nextToUse, nextToClean, rdt, rxSkbTop, asked, mapAsked, tries, allocFailed := 0, 0, None, None, 0, 0, 0, 0;
      stale, waiting, consumed, delivered := {}, [], [], [];
      got, gone, given, mapped, unmapped := [], [], [], [], [];
      new;
      EmptyRing(bufs[..]);
      UnmarkedNone(descs[..]);
    }
  }

  /** A ring of 48 pages that can have all the pages it wants, but no skb from
      napi_get_frags at the first turn. */
  method StarvedRing() returns (r: JumboRing)
    ensures fresh(r) && fresh(r.bufs) && fresh(r.descs) && r.Valid() && r.Turning(0) && r.tries == 0
    ensures r.waiting == r.consumed == []
    ensures r.bufs.Length == 48 && r.nextToClean == 0 && r.nextToUse == 47 && r.config == Config(false, false)
    ensures forall t :: r.copies(t) && (r.frags(t) <==> t != 1)
  {
    hide JumboRing.Valid, JumboRing.Turning;
    r := new JumboRing(Config(false, false), 256, 16, 48, a => if a + 1 < TWO_64 then a + 1 else 1,
        m => if m + 1 < TWO_64 then m + 1 else 1, t => t != 1, _ => true);
    r.Configure();
  }

  /** A run that goes astray: no skb for the first piece of a frame. */
  method LosePiece(p: Piece) returns (r: JumboRing)
    requires !p.eop
    ensures fresh(r) && r.Astray() && r.waiting == r.consumed == []
  {
    hide JumboRing.Usable, JumboRing.Astray, JumboRing.Turning, JumboRing.Ahead, OnTheWire, Closed, Open;
    r := StarvedRing();
    StartOnly(p);
    r.HwReceive(p, 0);
    assert r.waiting == [p] && [] + [p][..0] == [] && r.consumed == [];
    assert !r.ServedAt(r.consumed, r.waiting, r.tries, 0);
    var workDone, cleaned, failed := r.CleanJumboRxIrq(64);
    assert failed && workDone == 1;
  }

  lemma HeadWire(p: Piece, q: Piece)
    requires !p.eop && q.eop && |q.bytes| >= 5
    ensures OnTheWire([] + [] + [p]) && OnTheWire([] + [p] + [q]) && OnTheWire([] + [q])
    ensures Open([]) == [] && Closed([]) == []
  {
    StartOnly(p);
    CutSnoc([p], q);
    CutSnoc([], q);
    NoBytes();
    BytesSnoc([], p);
    BytesSnoc([], q);
    BytesSnoc([p], q);
    assert [] + [p] == [p] && [] + [q] == [q] && [] + [] + [p] == [p];
  }

  lemma NotServed(r: JumboRing, p: Piece, q: Piece)
    requires !p.eop && Open([]) == [] && !r.frags(1)
    ensures forall m | 0 < m <= 2 :: !r.AllServed([], [p, q], 0, m)
  {
    assert [] + [p, q][..0] == [];
    assert !r.ServedAt([], [p, q], 0, 0);
  }

  lemma TailServed(r: JumboRing, q: Piece)
    requires Open([]) == [] && r.frags(2) && r.copies(2)
    ensures r.AllServed([], [q], 1, 1)
  {
    assert [] + [q][..0] == [];
  }

  lemma StartOnly(p: Piece)
    requires !p.eop
    ensures OnTheWire([] + [] + [p]) && Open([]) == []
  {
    CutSnoc([], p);
    assert [] + [] + [p] == [] + [p];
  }

  /** On the ring of StarvedRing: the pieces p and q of one frame are received, a poll
      loses p, the next poll delivers q as if it were the frame. */
  method LoseHead(p: Piece, q: Piece) returns (r: JumboRing)
    requires !p.eop && p.bytes != [] && q.eop && !q.error && |q.bytes| >= 5
    ensures fresh(r) && r.Astray() && r.waiting == [] && r.delivered == [Trim(r.config, q.bytes)]
    ensures r.delivered != JumboFrames(r.config, Closed([p, q])) == [Trim(r.config, p.bytes + q.bytes)]
  {
    hide JumboRing.Usable, JumboRing.Astray, JumboRing.Turning, JumboRing.Ahead, OnTheWire, Closed, Open, JumboFrames;
    hide JumboRing.ServedAt;
    r := StarvedRing();
    HeadWire(p, q);
    r.HwReceive(p, 0);
    assert r.consumed + r.waiting + [q] == [] + [p] + [q];
    r.HwReceive(q, 1);
    assert r.waiting == [p, q] && r.consumed == [];
    NotServed(r, p, q);
    var workDone, cleaned, failed := r.CleanJumboRxIrq(64);
    assert failed && workDone == 1;
    assert [p, q][1..] == [q] && r.consumed + r.waiting == [] + [q];
    r.Ready();
    TailServed(r, q);
    workDone, cleaned, failed := r.CleanJumboRxIrq(64);
    assert !failed && r.consumed == [q];
    r.Delivers();
    OneFrame(r.config, p, q);
  }

  /** A frame whose first piece was lost is delivered without it. */
  lemma LostHead(c: Config, ps: seq<Piece>, p: Piece, q: Piece)
    requires Open(ps) == [] && !p.eop && p.bytes != [] && q.eop && !q.error && |q.bytes| >= 5
    ensures JumboFrames(c, Closed(ps + [q])) == JumboFrames(c, Closed(ps)) + [Trim(c, q.bytes)]
    ensures JumboFrames(c, Closed(ps + [p] + [q])) == JumboFrames(c, Closed(ps)) + [Trim(c, p.bytes + q.bytes)]
    ensures Trim(c, q.bytes) != Trim(c, p.bytes + q.bytes)
  {
    hide Open, Closed, JumboFrames, BytesOf;
    CutSnoc(ps, q);
    CutSnoc(ps, p);
    CutSnoc(ps + [p], q);
    JumboSnoc(c, Closed(ps), [], q);
    JumboSnoc(c, Closed(ps), [p], q);
    NoBytes();
    BytesSnoc([], p);
    BytesSnoc([], q);
    BytesSnoc([p], q);
    assert [] + [p] == [p] && [] + [q] == [q];
    assert [] + q.bytes == q.bytes && [] + p.bytes == p.bytes;
  }

  lemma OneFrame(c: Config, p: Piece, q: Piece)
    requires !p.eop && p.bytes != [] && q.eop && !q.error && |q.bytes| >= 5
    ensures JumboFrames(c, Closed([q])) == [Trim(c, q.bytes)]
    ensures JumboFrames(c, Closed([p, q])) == [Trim(c, p.bytes + q.bytes)] != [Trim(c, q.bytes)]
  {
    LostHead(c, [], p, q);
    hide Trim;
    assert [] + [q] == [q] && [] + [p] + [q] == [p, q];
    assert [] + [Trim(c, q.bytes)] == [Trim(c, q.bytes)];
    assert [] + [Trim(c, p.bytes + q.bytes)] == [Trim(c, p.bytes + q.bytes)];
  }

  lemma NoBytes()
    ensures BytesOf([]) == []
  {
  }
}
