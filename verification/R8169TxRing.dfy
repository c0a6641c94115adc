/** The r8169 transmit ring: free-running counters, publication, rollback and reclaim. */
module R8169TxRing {
  import opened Ring
  import opened Wrappers
  import opened Words
  import opened NetDev

  const NUM_TX_DESC: nat := 64
  // -------------------------------------------------------------- counters

  /** The slot a counter names. */
  function SlotOf(x: u32): (j: nat)
    ensures j < NUM_TX_DESC
  {
    x % NUM_TX_DESC
  }

  /** TX_SLOTS_AVAIL, in u32 arithmetic. */
  function SlotsAvail(dirty: u32, cur: u32): u32 {
    (dirty + NUM_TX_DESC - cur) % TWO_32
  }

  /** How many slots the counters say are outstanding. */
  function Outstanding(dirty: u32, cur: u32): u32 {
    (cur - dirty) % TWO_32
  }

  /** TX_FRAGS_READY_FOR */
  predicate ReadyFor(dirty: u32, cur: u32, nrFrags: nat) {
    SlotsAvail(dirty, cur) >= nrFrags + 1
  }

  /** The counters survive their wrap: with n slots outstanding, the u32 test
      yields 64 - n and the slot after the outstanding ones is the one `cur` names. */
  lemma CountersWrap(dirty: u32, n: nat)
    requires n <= NUM_TX_DESC
    ensures SlotsAvail(dirty, Add32(dirty, n)) == NUM_TX_DESC - n
    ensures Outstanding(dirty, Add32(dirty, n)) == n
    ensures (Add32(dirty, n) == dirty) == (n == 0)
    ensures SlotOf(Add32(dirty, n)) == Wrap(SlotOf(dirty) + n, NUM_TX_DESC)
  {
    Wraps32(dirty + n);
    Wraps32(Add32(dirty, n) - dirty);
    Wraps32(dirty + NUM_TX_DESC - Add32(dirty, n));
  }

  lemma Add32Twice(dirty: u32, n: nat, m: nat)
    requires n <= NUM_TX_DESC && m <= NUM_TX_DESC
    ensures Add32(Add32(dirty, n), m) == Add32(dirty, n + m)
  {
    Wraps32(dirty + n);
    Wraps32(Add32(dirty, n) + m);
    Wraps32(dirty + n + m);
  }

  lemma CountersStep(dirty: u32, n: nat)
    requires 0 < n <= NUM_TX_DESC
    ensures Add32(Add32(dirty, 1), n - 1) == Add32(dirty, n)
    ensures SlotOf(Add32(dirty, 1)) == Wrap(SlotOf(dirty) + 1, NUM_TX_DESC)
  {
    Add32Twice(dirty, 1, n - 1);
    Wraps32(dirty + 1);
  }

  // ------------------------------------------------------------------ slots

  /** A packet by the lengths of its linear part and of its fragments. */
  datatype Packet = Packet(id: nat, head: nat, frags: seq<nat>)

  predicate Sendable(p: Packet) {
    p.head > 0 && forall len <- p.frags :: len > 0
  }

  function Sum(s: seq<nat>): nat {
    if s == [] then 0 else s[0] + Sum(s[1..])
  }

  function PacketLen(p: Packet): nat {
    p.head + Sum(p.frags)
  }

  datatype Opts1 = Opts1(own: bool, ringEnd: bool, firstFrag: bool, lastFrag: bool, len: nat)

  datatype TxDesc = TxDesc(opts1: Opts1, opts2: nat, addr: nat)

  /** struct ring_info */
  datatype RingInfo = RingInfo(skb: Option<Packet>, len: nat)

  const CLEAR: TxDesc := TxDesc(Opts1(false, false, false, false, 0), 0, 0)
  const EMPTY: RingInfo := RingInfo(None, 0)

  /** What one outstanding slot stands for. */
  datatype Rec = Rec(addr: nat, len: nat, first: bool, last: bool, opts2: nat, skb: Option<Packet>)

  /** The descriptor of a record in slot j; RingEnd marks the last slot only. */
  function DescOf(r: Rec, own: bool, j: nat): TxDesc {
    TxDesc(Opts1(own, j == NUM_TX_DESC - 1, r.first, r.last, r.len), r.opts2, r.addr)
  }

  function InfoOf(r: Rec): RingInfo {
    RingInfo(r.skb, r.len)
  }

  /** The k-th record of a packet whose mappings came out as `dmas`. */
  function RecOf(p: Packet, dmas: seq<nat>, opts2: nat, k: nat): Rec
    requires k <= |p.frags|
  {
    var last := k == |p.frags|;
    Rec(if k < |dmas| then dmas[k] else 0, if k == 0 then p.head else p.frags[k - 1],
        k == 0, last, opts2, if last then Some(p) else None)
  }

  function Recs(p: Packet, dmas: seq<nat>, opts2: nat): (r: seq<Rec>)
    ensures |r| == |p.frags| + 1
  {
    seq(|p.frags| + 1, k requires 0 <= k <= |p.frags| => RecOf(p, dmas, opts2, k))
  }

  /** Slot j, `k` steps behind the oldest outstanding one: outstanding with its
      record, still the NIC's unless among the first `done`; or clean. */
  ghost predicate SlotOk(d: TxDesc, t: RingInfo, j: nat, k: nat, pending: seq<Rec>, done: nat) {
    if k < |pending| then d == DescOf(pending[k], k >= done, j) && t == InfoOf(pending[k])
    else d == CLEAR && t == EMPTY
  }

  predicate RecOk(r: Rec) {
    r.len > 0 && (r.last <==> r.skb.Some?)
  }

  ghost predicate RingOk(d: seq<TxDesc>, t: seq<RingInfo>, base: nat, pending: seq<Rec>, done: nat) {
    && |d| == |t| == NUM_TX_DESC && base < NUM_TX_DESC && done <= |pending| <= NUM_TX_DESC
    && (forall r <- pending :: RecOk(r))
    && forall j :: 0 <= j < NUM_TX_DESC ==> SlotOk(d[j], t[j], j, Dist(base, j, NUM_TX_DESC), pending, done)
  }

  // ---------------------------------------------------------------- the NIC

  /** How many descriptors a NIC standing at slot `pos` may consume: it stops at
      the first one it does not own. */
  ghost function OwnRun(d: seq<TxDesc>, pos: nat, limit: nat): (n: nat)
    requires |d| == NUM_TX_DESC && pos < NUM_TX_DESC
    ensures n <= limit
    decreases limit
  {
    if limit == 0 || !d[pos].opts1.own then 0 else 1 + OwnRun(d, Next(pos, NUM_TX_DESC), limit - 1)
  }

  lemma {:induction false} OwnRunIs(d: seq<TxDesc>, pos: nat, m: nat, limit: nat)
    requires |d| == NUM_TX_DESC && pos < NUM_TX_DESC && m <= limit <= NUM_TX_DESC
    requires forall j :: 0 <= j < NUM_TX_DESC && Dist(pos, j, NUM_TX_DESC) < m ==> d[j].opts1.own
    requires m == limit || (m < NUM_TX_DESC && !d[Wrap(pos + m, NUM_TX_DESC)].opts1.own)
    ensures OwnRun(d, pos, limit) == m
    decreases limit
  {
    hide Dist;
    if m > 0 {
      OwnsRest(d, pos, m);
      OwnRunIs(d, Next(pos, NUM_TX_DESC), m - 1, limit - 1);
    }
  }

  lemma OwnsRest(d: seq<TxDesc>, pos: nat, m: nat)
    requires |d| == NUM_TX_DESC && pos < NUM_TX_DESC && 0 < m <= NUM_TX_DESC
    requires forall j :: 0 <= j < NUM_TX_DESC && Dist(pos, j, NUM_TX_DESC) < m ==> d[j].opts1.own
    ensures d[pos].opts1.own
    ensures var next := Next(pos, NUM_TX_DESC);
            && (forall j :: 0 <= j < NUM_TX_DESC && Dist(next, j, NUM_TX_DESC) < m - 1 ==> d[j].opts1.own)
            && (m < NUM_TX_DESC ==> Wrap(next + (m - 1), NUM_TX_DESC) == Wrap(pos + m, NUM_TX_DESC))
  {
    var next := Next(pos, NUM_TX_DESC);
    forall j | 0 <= j < NUM_TX_DESC && Dist(next, j, NUM_TX_DESC) < m - 1 ensures d[j].opts1.own {
      DistShift(pos, 1, j, NUM_TX_DESC);
    }
    assert Dist(pos, pos, NUM_TX_DESC) == 0;
  }

  // ----------------------------------------------------- a packet under way

  /** A packet being put into the slots from e on; d0, t0 is the ring before. */
  datatype Job = Job(d0: seq<TxDesc>, t0: seq<RingInfo>, e: nat, recs: seq<Rec>)
  {
    ghost predicate Fits() {
      && |d0| == |t0| == NUM_TX_DESC && e < NUM_TX_DESC && 0 < |recs| <= NUM_TX_DESC
      && (forall j :: 0 <= j < NUM_TX_DESC && Dist(e, j, NUM_TX_DESC) < |recs| ==> d0[j] == CLEAR && t0[j] == EMPTY)
      && (forall k :: 0 <= k < |recs| ==> recs[k].first == (k == 0) && recs[k].last == (k == |recs| - 1))
      && (forall r <- recs :: RecOk(r))
    }

    /** The head is mapped but not published, and k fragments are written. */
    ghost predicate Partial(d: seq<TxDesc>, t: seq<RingInfo>, k: nat) {
      && |d| == |t| == NUM_TX_DESC && Fits() && k < |recs|
      && forall j :: 0 <= j < NUM_TX_DESC ==>
           var x := Dist(e, j, NUM_TX_DESC);
           if x == 0 then d[j] == CLEAR.(addr := recs[0].addr) && t[j] == RingInfo(None, recs[0].len)
           else if x <= k then d[j] == DescOf(recs[x].(last := false), true, j) && t[j] == RingInfo(None, recs[x].len)
           else d[j] == d0[j] && t[j] == t0[j]
    }

    /** All is written except the head's opts1 and opts2. */
    ghost predicate Ready(d: seq<TxDesc>, t: seq<RingInfo>) {
      && |d| == |t| == NUM_TX_DESC && Fits()
      && forall j :: 0 <= j < NUM_TX_DESC ==>
           var x := Dist(e, j, NUM_TX_DESC);
           if x == 0 then d[j] == CLEAR.(addr := recs[0].addr) && t[j] == InfoOf(recs[0])
           else if x < |recs| then d[j] == DescOf(recs[x], true, j) && t[j] == InfoOf(recs[x])
           else d[j] == d0[j] && t[j] == t0[j]
    }

    ghost predicate Published(d: seq<TxDesc>, t: seq<RingInfo>) {
      && |d| == |t| == NUM_TX_DESC && Fits()
      && forall j :: 0 <= j < NUM_TX_DESC ==>
           var x := Dist(e, j, NUM_TX_DESC);
           if x < |recs| then d[j] == DescOf(recs[x], true, j) && t[j] == InfoOf(recs[x])
           else d[j] == d0[j] && t[j] == t0[j]
    }

    /** A ring image in which the NIC cannot see any of the packet yet. */
    ghost predicate Hidden(d: seq<TxDesc>) {
      && |d| == NUM_TX_DESC && Fits() && !d[e].opts1.own
      && forall j :: 0 <= j < NUM_TX_DESC && Dist(e, j, NUM_TX_DESC) >= |recs| ==> d[j] == d0[j]
    }

    /** ... nor could it in any of the images before. */
    ghost predicate Unseen(d: seq<TxDesc>, trace: seq<seq<TxDesc>>) {
      Hidden(d) && forall v <- trace :: Hidden(v)
    }

    /** Writing anywhere in the packet's slots, without the head's ownership bit, reveals nothing. */
    lemma StaysHidden(d: seq<TxDesc>, j: nat, x: TxDesc)
      requires Hidden(d) && j < NUM_TX_DESC && Dist(e, j, NUM_TX_DESC) < |recs| && (j == e ==> !x.opts1.own)
      ensures Hidden(d[j := x])
    {
    }
  }

  // The steps of a send, as ring images.
  lemma HeadMapped(job: Job)
    requires job.Fits()
    ensures job.e < |job.d0| == |job.t0|
    ensures job.Partial(job.d0[job.e := job.d0[job.e].(addr := job.recs[0].addr)],
                        job.t0[job.e := job.t0[job.e].(len := job.recs[0].len)], 0)
    ensures job.Hidden(job.d0)
  {
  }

  lemma FragWritten(job: Job, d: seq<TxDesc>, t: seq<RingInfo>, k: nat)
    requires job.Partial(d, t, k) && k + 1 < |job.recs|
    ensures var j := Wrap(job.e + (k + 1), NUM_TX_DESC);
            && job.Partial(d[j := DescOf(job.recs[k + 1].(last := false), true, j)],
                t[j := t[j].(len := job.recs[k + 1].len)], k + 1)
            && j != job.e && Dist(job.e, j, NUM_TX_DESC) == k + 1
  {
    DistOf(job.e, k + 1, NUM_TX_DESC);
  }

  lemma FragsWritten(job: Job, d: seq<TxDesc>, t: seq<RingInfo>)
    requires |job.recs| > 0 && job.Partial(d, t, |job.recs| - 1)
    ensures var j := Wrap(job.e + (|job.recs| - 1), NUM_TX_DESC);
            && (|job.recs| > 1 ==>
                  && j != job.e && Dist(job.e, j, NUM_TX_DESC) == |job.recs| - 1
                  && job.Ready(d[j := d[j].(opts1 := d[j].opts1.(lastFrag := true))],
                      t[j := t[j].(skb := job.recs[|job.recs| - 1].skb)]))
            && (|job.recs| == 1 ==> j == job.e && job.Ready(d, t[j := t[j].(skb := job.recs[0].skb)]))
  {
    DistOf(job.e, |job.recs| - 1, NUM_TX_DESC);
    forall k | 0 <= k < |job.recs| - 1 ensures job.recs[k].skb == None {
      assert RecOk(job.recs[k]);
    }
  }

  /** Undoing k fragments and the head restores the ring bit for bit. */
  lemma Undone(job: Job, d: seq<TxDesc>, t: seq<RingInfo>, d': seq<TxDesc>, t': seq<RingInfo>, k: nat)
    requires job.Partial(d, t, k)
    requires ClearedTo(d', t', d, t, Wrap(job.e + 1, NUM_TX_DESC), k)
    ensures job.e < NUM_TX_DESC && d'[job.e := CLEAR] == job.d0 && t'[job.e := t'[job.e].(len := 0)] == job.t0
    ensures d'[job.e] == d[job.e] && t'[job.e] == t[job.e]
  {
    forall j | 0 <= j < NUM_TX_DESC
      ensures j != job.e ==> d'[j] == job.d0[j] && t'[j] == job.t0[j]
      ensures j == job.e ==> d'[j] == d[j] && t'[j] == t[j]
    {
      DistShift(job.e, 1, j, NUM_TX_DESC);
      var x := Dist(job.e, j, NUM_TX_DESC);
      if 0 < x <= k {
        assert RecOk(job.recs[x]);
      }
    }
  }

  lemma PartialAt(job: Job, d: seq<TxDesc>, t: seq<RingInfo>, k: nat, i: nat)
    requires job.Partial(d, t, k) && 0 < i <= k
    ensures |d| == |t| == NUM_TX_DESC && job.e < NUM_TX_DESC && i < |job.recs| <= NUM_TX_DESC && job.recs[i].len > 0
    ensures var j := Wrap(Wrap(job.e + 1, NUM_TX_DESC) + (i - 1), NUM_TX_DESC);
            d[j].addr == job.recs[i].addr && t[j] == RingInfo(None, job.recs[i].len)
  {
    assert Wrap(Wrap(job.e + 1, NUM_TX_DESC) + (i - 1), NUM_TX_DESC) == Wrap(job.e + i, NUM_TX_DESC);
    DistOf(job.e, i, NUM_TX_DESC);
    assert RecOk(job.recs[i]);
  }

  lemma MapsSnoc(q: seq<Rec>, r: Rec)
    ensures Maps(q + [r]) == Maps(q) + [Mapping(r.addr, r.len)]
  {
    MapsConcat(q, [r]);
    assert [r][1..] == [];
  }

  lemma MapsUpTo(m: seq<Mapping>, q: seq<Rec>, f: nat)
    requires f + 1 < |q|
    ensures m + Maps(q[1..f + 1]) + [Mapping(q[f + 1].addr, q[f + 1].len)] == m + Maps(q[1..f + 2])
  {
    assert q[1..f + 2] == q[1..f + 1] + [q[f + 1]];
    MapsSnoc(q[1..f + 1], q[f + 1]);
  }

  lemma ClearedNone(d: seq<TxDesc>, t: seq<RingInfo>, base: nat)
    requires |d| == |t| == NUM_TX_DESC && base < NUM_TX_DESC
    ensures ClearedMaps(d, t, base, 0) == [] && ClearedPackets(t, base, 0) == []
  {
  }

  lemma ClearedNext(d: seq<TxDesc>, t: seq<RingInfo>, base: nat, i: nat)
    requires |d| == |t| == NUM_TX_DESC && base < NUM_TX_DESC && 0 < i <= NUM_TX_DESC
    ensures var j := Wrap(base + (i - 1), NUM_TX_DESC);
            t[j].len != 0 && t[j].skb.None? ==>
              && ClearedMaps(d, t, base, i) == ClearedMaps(d, t, base, i - 1) + [Mapping(d[j].addr, t[j].len)]
              && ClearedPackets(t, base, i) == ClearedPackets(t, base, i - 1)
  {
  }

  lemma {:induction false} UndoneLogs(job: Job, d: seq<TxDesc>, t: seq<RingInfo>, k: nat, i: nat)
    requires |d| == |t| == NUM_TX_DESC && job.e < NUM_TX_DESC && i <= k < |job.recs| <= NUM_TX_DESC
    requires job.Partial(d, t, k)
    ensures ClearedMaps(d, t, Wrap(job.e + 1, NUM_TX_DESC), i) == Maps(job.recs[1..i + 1])
    ensures ClearedPackets(t, Wrap(job.e + 1, NUM_TX_DESC), i) == []
  {
    hide Job.Partial, Maps, ClearedMaps, ClearedPackets, Wrap;
    if i == 0 {
      MapsNone(job.recs[1..1]);
      ClearedNone(d, t, Wrap(job.e + 1, NUM_TX_DESC));
    } else {
      UndoneLogs(job, d, t, k, i - 1);
      PartialAt(job, d, t, k, i);
      ClearedNext(d, t, Wrap(job.e + 1, NUM_TX_DESC), i);
      assert job.recs[1..i + 1] == job.recs[1..i] + [job.recs[i]];
      MapsSnoc(job.recs[1..i], job.recs[i]);
    }
  }

  lemma HeadStays(job: Job, d: seq<TxDesc>, t: seq<RingInfo>)
    requires job.Partial(d, t, 0)
    ensures d[job.e] == CLEAR.(addr := job.recs[0].addr) && t[job.e] == RingInfo(None, job.recs[0].len)
  {
  }

  lemma HeadPublished(job: Job, d: seq<TxDesc>, t: seq<RingInfo>)
    requires job.Ready(d, t)
    ensures job.e < NUM_TX_DESC && job.Published(d[job.e := DescOf(job.recs[0], true, job.e)], t)
  {
  }

  /** A published packet joins the outstanding slots. */
  lemma Enqueued(job: Job, d: seq<TxDesc>, t: seq<RingInfo>, base: nat, pending: seq<Rec>, done: nat)
    requires RingOk(job.d0, job.t0, base, pending, done) && job.Published(d, t)
    requires job.e == Wrap(base + |pending|, NUM_TX_DESC) && |pending| + |job.recs| <= NUM_TX_DESC
    ensures RingOk(d, t, base, pending + job.recs, done)
  {
    forall j | 0 <= j < NUM_TX_DESC ensures SlotOk(d[j], t[j], j, Dist(base, j, NUM_TX_DESC), pending + job.recs,
        done) {
      DistShift(base, |pending|, j, NUM_TX_DESC);
      assert SlotOk(job.d0[j], job.t0[j], j, Dist(base, j, NUM_TX_DESC), pending, done);
    }
  }

  lemma JobFits(d: seq<TxDesc>, t: seq<RingInfo>, base: nat, pending: seq<Rec>, done: nat, p: Packet, dmas: seq<nat>,
      opts2: nat)
    requires RingOk(d, t, base, pending, done) && Sendable(p) && |pending| + |p.frags| + 1 <= NUM_TX_DESC
    ensures Job(d, t, Wrap(base + |pending|, NUM_TX_DESC), Recs(p, dmas, opts2)).Fits()
  {
    var e := Wrap(base + |pending|, NUM_TX_DESC);
    forall j | 0 <= j < NUM_TX_DESC && Dist(e, j, NUM_TX_DESC) < |p.frags| + 1 ensures d[j] == CLEAR && t[j] == EMPTY {
      DistShift(base, |pending|, j, NUM_TX_DESC);
      assert SlotOk(d[j], t[j], j, Dist(base, j, NUM_TX_DESC), pending, done);
    }
    forall r <- Recs(p, dmas, opts2) ensures RecOk(r) {
      var k :| 0 <= k <= |p.frags| && r == Recs(p, dmas, opts2)[k];
      assert k > 0 ==> p.frags[k - 1] in p.frags;
    }
  }

  /** From every position the NIC may have reached, a hidden packet is invisible ... */
  lemma HiddenRun(job: Job, v: seq<TxDesc>, base: nat, pending: seq<Rec>, done: nat, m: nat)
    requires RingOk(job.d0, job.t0, base, pending, done) && job.Hidden(v)
    requires job.e == Wrap(base + |pending|, NUM_TX_DESC) && |pending| + |job.recs| <= NUM_TX_DESC
        && done <= m <= |pending|
    ensures OwnRun(v, Wrap(base + m, NUM_TX_DESC), NUM_TX_DESC) == |pending| - m
  {
    var pos := Wrap(base + m, NUM_TX_DESC);
    forall j | 0 <= j < NUM_TX_DESC && Dist(pos, j, NUM_TX_DESC) < |pending| - m ensures v[j].opts1.own {
      DistShift(base, m, j, NUM_TX_DESC);
      DistShift(base, |pending|, j, NUM_TX_DESC);
      assert SlotOk(job.d0[j], job.t0[j], j, Dist(base, j, NUM_TX_DESC), pending, done);
    }
    assert Wrap(pos + (|pending| - m), NUM_TX_DESC) == job.e;
    OwnRunIs(v, pos, |pending| - m, NUM_TX_DESC);
  }

  /** ... and a published queue is visible as a whole. */
  lemma PublishedRun(d: seq<TxDesc>, t: seq<RingInfo>, base: nat, pending: seq<Rec>, done: nat)
    requires RingOk(d, t, base, pending, done)
    ensures OwnRun(d, Wrap(base + done, NUM_TX_DESC), NUM_TX_DESC) == |pending| - done
  {
    var pos, m := Wrap(base + done, NUM_TX_DESC), |pending| - done;
    forall j | 0 <= j < NUM_TX_DESC
      ensures Dist(pos, j, NUM_TX_DESC) < m ==> d[j].opts1.own
      ensures Dist(pos, j, NUM_TX_DESC) == m ==> !d[j].opts1.own
    {
      DistShift(base, if done == NUM_TX_DESC then 0 else done, j, NUM_TX_DESC);
      assert SlotOk(d[j], t[j], j, Dist(base, j, NUM_TX_DESC), pending, done);
    }
    if m < NUM_TX_DESC {
      DistOf(pos, m, NUM_TX_DESC);
    }
    OwnRunIs(d, pos, m, NUM_TX_DESC);
  }

  // --------------------------------------------------------- logs and packets

  datatype Mapping = Mapping(addr: nat, len: nat)

  function Maps(q: seq<Rec>): seq<Mapping> {
    if q == [] then [] else [Mapping(q[0].addr, q[0].len)] + Maps(q[1..])
  }

  /** The packets whose last slot is among q. */
  function Packets(q: seq<Rec>): seq<Packet> {
    if q == [] then []
    else (if q[0].skb.Some? then [q[0].skb.value] else []) + Packets(q[1..])
  }

  lemma MapsCons(r: Rec, q: seq<Rec>)
    ensures Maps([r] + q) == [Mapping(r.addr, r.len)] + Maps(q)
    ensures Packets([r] + q) == (if r.skb.Some? then [r.skb.value] else []) + Packets(q)
  {
    assert ([r] + q)[1..] == q;
  }

  lemma MapsNone(q: seq<Rec>)
    requires q == []
    ensures Maps(q) == [] && Packets(q) == []
  {
  }

  lemma {:induction false} MapsConcat(a: seq<Rec>, b: seq<Rec>)
    ensures Maps(a + b) == Maps(a) + Maps(b)
  {
    hide Maps, Packets;
    if a == [] {
      assert a + b == b;
      MapsNone(a);
    } else {
      MapsConcat(a[1..], b);
      MapsCons(a[0], a[1..]);
      MapsCons(a[0], a[1..] + b);
      assert [a[0]] + a[1..] == a && [a[0]] + (a[1..] + b) == a + b;
      Associative([Mapping(a[0].addr, a[0].len)], Maps(a[1..]), Maps(b));
    }
  }

  lemma {:induction false} PacketsConcat(a: seq<Rec>, b: seq<Rec>)
    ensures Packets(a + b) == Packets(a) + Packets(b)
  {
    hide Maps, Packets;
    if a == [] {
      assert a + b == b;
      MapsNone(a);
    } else {
      PacketsConcat(a[1..], b);
      MapsCons(a[0], a[1..]);
      MapsCons(a[0], a[1..] + b);
      assert [a[0]] + a[1..] == a && [a[0]] + (a[1..] + b) == a + b;
      Associative(if a[0].skb.Some? then [a[0].skb.value] else [], Packets(a[1..]), Packets(b));
    }
  }

  lemma {:induction false} RecsPackets(q: seq<Rec>, p: Packet)
    requires q != [] && q[|q| - 1].skb == Some(p) && forall k :: 0 <= k < |q| - 1 ==> q[k].skb == None
    ensures Packets(q) == [p]
  {
    if |q| == 1 {
      assert q[1..] == [];
    } else {
      RecsPackets(q[1..], p);
    }
  }

  function TotalLen(ps: seq<Packet>): nat {
    if ps == [] then 0 else PacketLen(ps[0]) + TotalLen(ps[1..])
  }

  /** What rtl8169_tx_clear_range releases over n slots from base on: the
      mappings, and the packets, of the slots in use. */
  function ClearedMaps(d: seq<TxDesc>, t: seq<RingInfo>, base: nat, n: nat): seq<Mapping>
    requires |d| == |t| == NUM_TX_DESC && base < NUM_TX_DESC && n <= NUM_TX_DESC
  {
    if n == 0 then []
    else
      var j := Wrap(base + (n - 1), NUM_TX_DESC);
      ClearedMaps(d, t, base, n - 1) + (if t[j].len != 0 then [Mapping(d[j].addr, t[j].len)] else [])
  }

  function ClearedPackets(t: seq<RingInfo>, base: nat, n: nat): seq<Packet>
    requires |t| == NUM_TX_DESC && base < NUM_TX_DESC && n <= NUM_TX_DESC
  {
    if n == 0 then []
    else
      var j := Wrap(base + (n - 1), NUM_TX_DESC);
      ClearedPackets(t, base, n - 1) + (if t[j].len != 0 && t[j].skb.Some? then [t[j].skb.value] else [])
  }

  /** The first n slots from base on are clear, the others as in d0, t0. */
  ghost predicate ClearedTo(d: seq<TxDesc>, t: seq<RingInfo>, d0: seq<TxDesc>, t0: seq<RingInfo>, base: nat, n: nat) {
    && |d| == |t| == |d0| == |t0| == NUM_TX_DESC && base < NUM_TX_DESC
    && forall j :: 0 <= j < NUM_TX_DESC ==>
         if Dist(base, j, NUM_TX_DESC) < n && t0[j].len != 0 then d[j] == CLEAR && t[j] == EMPTY
         else d[j] == d0[j] && t[j] == t0[j]
  }

  lemma ClearStep(d: seq<TxDesc>, t: seq<RingInfo>, d0: seq<TxDesc>, t0: seq<RingInfo>, base: nat, n: nat)
    requires ClearedTo(d, t, d0, t0, base, n) && n < NUM_TX_DESC
    ensures var j := Wrap(base + n, NUM_TX_DESC);
            && d[j] == d0[j] && t[j] == t0[j]
            && (t0[j].len != 0 ==> ClearedTo(d[j := CLEAR], t[j := EMPTY], d0, t0, base, n + 1))
            && (t0[j].len == 0 ==> ClearedTo(d, t, d0, t0, base, n + 1))
  {
    DistOf(base, n, NUM_TX_DESC);
  }

  /** v differs from d in slot j at most. */
  ghost predicate Touches(v: seq<TxDesc>, d: seq<TxDesc>, j: nat) {
    |v| == |d| && j < |d| && v == d[j := v[j]]
  }

  /** v differs from d in the n slots from base on at most. */
  ghost predicate Within(v: seq<TxDesc>, d: seq<TxDesc>, base: nat, n: nat) {
    && |v| == |d| == NUM_TX_DESC && base < NUM_TX_DESC
    && forall j :: 0 <= j < NUM_TX_DESC && Dist(base, j, NUM_TX_DESC) >= n ==> v[j] == d[j]
  }

  lemma WithinNone(d: seq<TxDesc>, base: nat)
    requires |d| == NUM_TX_DESC && base < NUM_TX_DESC
    ensures Within(d, d, base, 0)
  {
  }

  /** Touching the next slot, in the ring and in the images taken meanwhile. */
  lemma WithinStep(d: seq<TxDesc>, d': seq<TxDesc>, d0: seq<TxDesc>, base: nat, n: nat, before: seq<seq<TxDesc>>,
      trace: seq<seq<TxDesc>>, start: nat)
    requires Within(d, d0, base, n) && n < NUM_TX_DESC && Touches(d', d, Wrap(base + n, NUM_TX_DESC))
    requires start <= |before| && before <= trace
    requires forall v <- before[start..] :: Within(v, d0, base, n)
    requires forall v <- trace[|before|..] :: Touches(v, d, Wrap(base + n, NUM_TX_DESC))
    ensures Within(d', d0, base, n + 1) && forall v <- trace[start..] :: Within(v, d0, base, n + 1)
  {
    DistOf(base, n, NUM_TX_DESC);
    assert trace[start..] == before[start..] + trace[|before|..];
    forall v <- trace[start..] ensures Within(v, d0, base, n + 1) {
      assert v in before[start..] || v in trace[|before|..];
    }
  }

  /** A NIC at position m of n outstanding slots sees exactly the rest of them. */
  ghost predicate ShowsFrom(v: seq<TxDesc>, base: nat, n: nat, m: nat) {
    && |v| == NUM_TX_DESC && base < NUM_TX_DESC && m <= n && m < NUM_TX_DESC
    && OwnRun(v, Wrap(base + m, NUM_TX_DESC), NUM_TX_DESC) == n - m
  }

  /** A ring image in which a NIC anywhere past `done` sees just the first n slots. */
  ghost predicate Shows(v: seq<TxDesc>, base: nat, n: nat, done: nat) {
    forall m :: done <= m <= n ==> ShowsFrom(v, base, n, m)
  }

  lemma HiddenShows(job: Job, v: seq<TxDesc>, base: nat, pending: seq<Rec>, done: nat)
    requires RingOk(job.d0, job.t0, base, pending, done) && job.Hidden(v)
    requires job.e == Wrap(base + |pending|, NUM_TX_DESC) && |pending| + |job.recs| <= NUM_TX_DESC
    ensures Shows(v, base, |pending|, done)
  {
    forall m | done <= m <= |pending| ensures ShowsFrom(v, base, |pending|, m) {
      HiddenRun(job, v, base, pending, done, m);
    }
  }

  datatype XmitStatus = Busy | Ok

  lemma ClearNone(d: seq<TxDesc>, t: seq<RingInfo>, base: nat)
    requires |d| == |t| == NUM_TX_DESC && base < NUM_TX_DESC
    ensures ClearedTo(d, t, d, t, base, 0)
  {
  }

  lemma JobBounds(job: Job)
    requires job.Fits()
    ensures job.e < NUM_TX_DESC && 0 < |job.recs| <= NUM_TX_DESC
  {
  }

  lemma WrapMod(a: nat, b: nat)
    requires a < NUM_TX_DESC && b < NUM_TX_DESC
    ensures Wrap(a + b, NUM_TX_DESC) == (a + b) % NUM_TX_DESC
  {
  }

  lemma RecsAre(p: Packet, dmas: seq<nat>, opts2: nat)
    ensures forall k :: 0 <= k <= |p.frags| ==> Recs(p, dmas, opts2)[k] == RecOf(p, dmas, opts2, k)
  {
  }

  lemma UndoneFrags(job: Job, d: seq<TxDesc>, t: seq<RingInfo>, d': seq<TxDesc>, t': seq<RingInfo>, k: nat)
    requires job.Partial(d, t, k) && job.Hidden(d)
    requires ClearedTo(d', t', d, t, Wrap(job.e + 1, NUM_TX_DESC), k)
    ensures job.Partial(d', t', 0) && job.Hidden(d')
  {
    forall j | 0 <= j < NUM_TX_DESC
      ensures j != job.e ==> d'[j] == job.d0[j] && t'[j] == job.t0[j]
      ensures j == job.e ==> d'[j] == d[j] && t'[j] == t[j]
    {
      DistShift(job.e, 1, j, NUM_TX_DESC);
      var x := Dist(job.e, j, NUM_TX_DESC);
      if 0 < x <= k {
        assert RecOk(job.recs[x]);
      }
    }
  }

  lemma HiddenWithin(job: Job, d: seq<TxDesc>, v: seq<TxDesc>, k: nat)
    requires job.Hidden(d) && k < |job.recs| && Within(v, d, Wrap(job.e + 1, NUM_TX_DESC), k)
    ensures job.Hidden(v)
  {
    DistShift(job.e, 1, job.e, NUM_TX_DESC);
    forall j | 0 <= j < NUM_TX_DESC && Dist(job.e, j, NUM_TX_DESC) >= |job.recs| ensures v[j] == job.d0[j] {
      DistShift(job.e, 1, j, NUM_TX_DESC);
    }
  }

  /** The head's mapping goes before those of the fragments. */
  lemma MapsOfHead(q: seq<Rec>, k: nat)
    requires 0 < k <= |q|
    ensures Maps(q[..k]) == [Mapping(q[0].addr, q[0].len)] + Maps(q[1..k])
  {
    assert q[..k][1..] == q[1..k];
  }

  /** The oldest outstanding slot is where the counter says, free slots are clear. */
  lemma SlotAt(d: seq<TxDesc>, t: seq<RingInfo>, base: nat, pending: seq<Rec>, done: nat, k: nat)
    requires RingOk(d, t, base, pending, done) && k < NUM_TX_DESC
    ensures var j := Wrap(base + k, NUM_TX_DESC);
            SlotOk(d[j], t[j], j, k, pending, done)
  {
    DistOf(base, k, NUM_TX_DESC);
  }

  /** Reclaiming the oldest slot, once the NIC has handed it back. */
  lemma Reclaimed(d: seq<TxDesc>, t: seq<RingInfo>, base: nat, pending: seq<Rec>, done: nat)
    requires RingOk(d, t, base, pending, done) && done > 0
    ensures RingOk(d[base := CLEAR], t[base := EMPTY], Wrap(base + 1, NUM_TX_DESC), pending[1..], done - 1)
  {
    var next := Wrap(base + 1, NUM_TX_DESC);
    forall j | 0 <= j < NUM_TX_DESC
      ensures SlotOk(d[base := CLEAR][j], t[base := EMPTY][j], j, Dist(next, j, NUM_TX_DESC), pending[1..], done - 1)
    {
      DistShift(base, 1, j, NUM_TX_DESC);
      assert SlotOk(d[j], t[j], j, Dist(base, j, NUM_TX_DESC), pending, done);
    }
  }

  /** The NIC hands back the next slot it owns. */
  lemma HandedBack(d: seq<TxDesc>, t: seq<RingInfo>, base: nat, pending: seq<Rec>, done: nat)
    requires RingOk(d, t, base, pending, done) && done < |pending|
    ensures var j := Wrap(base + done, NUM_TX_DESC);
            RingOk(d[j := d[j].(opts1 := d[j].opts1.(own := false))], t, base, pending, done + 1)
  {
    var e := Wrap(base + done, NUM_TX_DESC);
    var d' := d[e := d[e].(opts1 := d[e].opts1.(own := false))];
    forall j | 0 <= j < NUM_TX_DESC
      ensures SlotOk(d'[j], t[j], j, Dist(base, j, NUM_TX_DESC), pending, done + 1)
    {
      DistShift(base, done, j, NUM_TX_DESC);
      assert SlotOk(d[j], t[j], j, Dist(base, j, NUM_TX_DESC), pending, done);
    }
  }

  /** Among the descriptors the NIC owns, RingEnd marks the last slot of the ring and no other. */
  lemma RingEndLast(d: seq<TxDesc>, t: seq<RingInfo>, base: nat, pending: seq<Rec>, done: nat, j: nat)
    requires RingOk(d, t, base, pending, done) && j < NUM_TX_DESC && d[j].opts1.own
    ensures d[j].opts1.ringEnd <==> j == NUM_TX_DESC - 1
    ensures done <= Dist(base, j, NUM_TX_DESC) < |pending|
  {
    assert SlotOk(d[j], t[j], j, Dist(base, j, NUM_TX_DESC), pending, done);
  }

  /** Every slot is as in a new ring. */
  ghost predicate AllClear(d: seq<TxDesc>, t: seq<RingInfo>) {
    (forall x <- d :: x == CLEAR) && (forall x <- t :: x == EMPTY)
  }

  lemma ClearedRing(d: seq<TxDesc>, t: seq<RingInfo>, d0: seq<TxDesc>, t0: seq<RingInfo>, base: nat, pending: seq<Rec>,
      done: nat)
    requires RingOk(d0, t0, base, pending, done) && ClearedTo(d, t, d0, t0, base, NUM_TX_DESC)
    ensures RingOk(d, t, 0, [], 0) && AllClear(d, t)
  {
    forall j | 0 <= j < NUM_TX_DESC ensures SlotOk(d[j], t[j], j, Dist(0, j, NUM_TX_DESC), [], 0) {
      assert SlotOk(d0[j], t0[j], j, Dist(base, j, NUM_TX_DESC), pending, done);
      if Dist(base, j, NUM_TX_DESC) < |pending| {
        assert RecOk(pending[Dist(base, j, NUM_TX_DESC)]);
      }
    }
  }

  /** Clearing n slots from the oldest on releases exactly the outstanding ones among them. */
  lemma {:induction false} ClearedLogs(d: seq<TxDesc>, t: seq<RingInfo>, base: nat, pending: seq<Rec>, done: nat,
      n: nat)
    requires RingOk(d, t, base, pending, done) && n <= NUM_TX_DESC
    ensures ClearedMaps(d, t, base, n) == Maps(pending[..Min(n, |pending|)])
    ensures ClearedPackets(t, base, n) == Packets(pending[..Min(n, |pending|)])
  {
    hide RingOk, Maps, Packets;
    RingBounds(d, t, base, pending, done);
    if n == 0 {
      MapsNone(pending[..0]);
    } else {
      ClearedLogs(d, t, base, pending, done, n - 1);
      SlotAt(d, t, base, pending, done, n - 1);
      if n <= |pending| {
        PendingOk(d, t, base, pending, done, n - 1);
        assert pending[..n] == pending[..n - 1] + [pending[n - 1]];
        MapsSnoc(pending[..n - 1], pending[n - 1]);
        PacketsSnoc(pending[..n - 1], pending[n - 1]);
      }
    }
  }

  lemma RingBounds(d: seq<TxDesc>, t: seq<RingInfo>, base: nat, pending: seq<Rec>, done: nat)
    requires RingOk(d, t, base, pending, done)
    ensures |d| == |t| == NUM_TX_DESC && base < NUM_TX_DESC && done <= |pending| <= NUM_TX_DESC
  {
  }

  lemma PendingOk(d: seq<TxDesc>, t: seq<RingInfo>, base: nat, pending: seq<Rec>, done: nat, k: nat)
    requires RingOk(d, t, base, pending, done) && k < |pending|
    ensures pending[k].len > 0 && (pending[k].last <==> pending[k].skb.Some?)
  {
    assert RecOk(pending[k]);
  }

  lemma PacketsSnoc(q: seq<Rec>, r: Rec)
    ensures Packets(q + [r]) == Packets(q) + (if r.skb.Some? then [r.skb.value] else [])
  {
    PacketsConcat(q, [r]);
    assert [r][1..] == [];
  }

  lemma {:induction false} TotalLenConcat(a: seq<Packet>, b: seq<Packet>)
    ensures TotalLen(a + b) == TotalLen(a) + TotalLen(b)
  {
    if a == [] {
      assert a + b == b;
    } else {
      TotalLenConcat(a[1..], b);
      assert (a + b)[0] == a[0] && (a + b)[1..] == a[1..] + b;
    }
  }

  /** The books of the ring: every accepted packet is freed or outstanding, and so is every mapping. */
  ghost predicate Balanced(accepted: seq<Packet>, freed: seq<Packet>, mapped: seq<Mapping>, unmapped: seq<Mapping>,
      pending: seq<Rec>) {
    && accepted == freed + Packets(pending)
    && multiset(mapped) == multiset(unmapped) + multiset(Maps(pending))
  }

  /** tx_stats counts the packets completed and their bytes. */
  ghost predicate Counted(packets: nat, bytes: nat, completed: seq<Packet>) {
    packets == |completed| && bytes == TotalLen(completed)
  }

  lemma CountOne(packets: nat, bytes: nat, completed: seq<Packet>, p: Packet)
    requires Counted(packets, bytes, completed)
    ensures Counted(packets + 1, bytes + PacketLen(p), completed + [p])
  {
    TotalLenConcat(completed, [p]);
    assert [p][1..] == [];
  }

  lemma BooksAfterSend(p: Packet, dmas: seq<nat>, opts2: nat,
                       accepted: seq<Packet>, freed: seq<Packet>, mapped: seq<Mapping>, unmapped: seq<Mapping>,
                           pending: seq<Rec>)
    requires Balanced(accepted, freed, mapped, unmapped, pending)
    ensures Balanced(accepted + [p], freed, mapped + Maps(Recs(p, dmas, opts2)), unmapped,
        pending + Recs(p, dmas, opts2))
  {
    var recs := Recs(p, dmas, opts2);
    RecsAre(p, dmas, opts2);
    RecsPackets(recs, p);
    PacketsConcat(pending, recs);
    MapsConcat(pending, recs);
  }

  lemma BooksAfterDrop(maps: seq<Mapping>, accepted: seq<Packet>, freed: seq<Packet>, mapped: seq<Mapping>,
      unmapped: seq<Mapping>,
                       unmapped': seq<Mapping>, pending: seq<Rec>)
    requires Balanced(accepted, freed, mapped, unmapped, pending)
    requires multiset(unmapped') == multiset(unmapped) + multiset(maps)
    ensures Balanced(accepted, freed, mapped + maps, unmapped', pending)
  {
  }

  lemma BooksAfterReclaim(accepted: seq<Packet>, freed: seq<Packet>, mapped: seq<Mapping>, unmapped: seq<Mapping>,
      pending: seq<Rec>)
    requires Balanced(accepted, freed, mapped, unmapped, pending) && pending != []
    ensures Balanced(accepted, freed + Packets(pending[..1]), mapped,
                     unmapped + [Mapping(pending[0].addr, pending[0].len)], pending[1..])
  {
    assert pending[..1][1..] == [];
  }

  /** What a send that mapped k slots and then gave up has unmapped, in whatever order. */
  lemma DroppedMaps(m: seq<Mapping>, m': seq<Mapping>, m'': seq<Mapping>, q: seq<Rec>, k: nat)
    requires 0 < k <= |q|
    requires m' == m + Maps(q[1..k]) && m'' == m' + [Mapping(q[0].addr, q[0].len)]
    ensures multiset(m'') == multiset(m) + multiset(Maps(q[..k]))
  {
    MapsOfHead(q, k);
  }

  lemma SentMaps(m: seq<Mapping>, q: seq<Rec>, k: nat)
    requires 0 < k <= |q|
    ensures m + [Mapping(q[0].addr, q[0].len)] + Maps(q[1..k]) == m + Maps(q[..k])
  {
    MapsOfHead(q, k);
  }

  /** A packet without fragments is ready once its head carries it. */
  lemma LoneHead(job: Job, d: seq<TxDesc>, t: seq<RingInfo>, p: Packet)
    requires job.Partial(d, t, 0) && |job.recs| == 1 && job.recs[0].skb == Some(p)
    ensures job.Ready(d, t[job.e := t[job.e].(skb := Some(p))])
  {
    FragsWritten(job, d, t);
  }

  ghost predicate AllShow(trace: seq<seq<TxDesc>>, base: nat, n: nat, done: nat) {
    forall v <- trace :: Shows(v, base, n, done)
  }

  lemma ShowsAll(job: Job, trace: seq<seq<TxDesc>>, base: nat, pending: seq<Rec>, done: nat)
    requires RingOk(job.d0, job.t0, base, pending, done) && forall v <- trace :: job.Hidden(v)
    requires job.e == Wrap(base + |pending|, NUM_TX_DESC) && |pending| + |job.recs| <= NUM_TX_DESC
    ensures AllShow(trace, base, |pending|, done)
  {
    forall v <- trace ensures Shows(v, base, |pending|, done) {
      HiddenShows(job, v, base, pending, done);
    }
  }

  /** An image of the ring, and how many slots of it have been published. */
  datatype Image = Image(ring: seq<TxDesc>, published: nat)

  /** Images in the order written: each shows the NIC just what has been published by
      then, from lo slots to hi, and never less than the one before. */
  ghost predicate InOrder(images: seq<Image>, base: nat, done: nat, lo: nat, hi: nat) {
    && (forall x <- images :: lo <= x.published <= hi && ShowsFrom(x.ring, base, x.published, done))
    && forall i, j :: 0 <= i < j < |images| ==> images[i].published <= images[j].published
  }

  /** The images of one send: up to the last write the packet is not published. */
  function Images(trace: seq<seq<TxDesc>>, n: nat, m: nat): seq<Image> {
    seq(|trace|, i requires 0 <= i < |trace| => Image(trace[i], if i == |trace| - 1 then m else n))
  }

  lemma InOrderJoin(a: seq<Image>, b: seq<Image>, base: nat, done: nat, lo: nat, mid: nat, hi: nat)
    requires lo <= mid <= hi && InOrder(a, base, done, lo, mid) && InOrder(b, base, done, mid, hi)
    ensures InOrder(a + b, base, done, lo, hi)
  {
    hide ShowsFrom;
    var c := a + b;
    forall x <- c ensures lo <= x.published <= hi && ShowsFrom(x.ring, base, x.published, done) {
      assert x in a || x in b;
    }
    forall i, j | 0 <= i < j < |c| ensures c[i].published <= c[j].published {
      assert i < |a| ==> c[i] in a;
      assert j >= |a| ==> c[j] in b && c[j] == b[j - |a|];
    }
  }

  lemma NoImages(base: nat, done: nat, n: nat)
    ensures InOrder([], base, done, n, n)
  {
  }

  lemma SentInOrder(trace: seq<seq<TxDesc>>, base: nat, n: nat, m: nat, done: nat)
    requires trace != [] && AllShow(trace[..|trace| - 1], base, n, done) && done <= n <= m
    requires ShowsFrom(trace[|trace| - 1], base, m, done)
    ensures InOrder(Images(trace, n, m), base, done, n, m)
  {
    hide ShowsFrom;
    forall i | 0 <= i < |trace| - 1 ensures ShowsFrom(trace[i], base, n, done) {
      assert trace[..|trace| - 1][i] == trace[i];
      assert Shows(trace[i], base, n, done);
    }
  }

  lemma UnsentInOrder(trace: seq<seq<TxDesc>>, base: nat, n: nat, done: nat)
    requires AllShow(trace, base, n, done) && done <= n
    ensures InOrder(Images(trace, n, n), base, done, n, n)
  {
    hide ShowsFrom;
    forall i | 0 <= i < |trace| ensures ShowsFrom(trace[i], base, n, done) {
      assert trace[i] in trace;
      assert Shows(trace[i], base, n, done);
    }
  }

  /** A queue just published, from where the NIC stands. */
  lemma PublishedShows(d: seq<TxDesc>, t: seq<RingInfo>, base: nat, pending: seq<Rec>, done: nat)
    requires RingOk(d, t, base, pending, done) && done < |pending|
    ensures ShowsFrom(d, base, |pending|, done)
  {
    PublishedRun(d, t, base, pending, done);
  }

  lemma SlotZero()
    ensures SlotOf(0) == 0 && Add32(0, 0) == 0
  {
  }

  /** Clearing n = 64 slots from the oldest on settles everything. */
  lemma Settled(d: seq<TxDesc>, t: seq<RingInfo>, d0: seq<TxDesc>, t0: seq<RingInfo>, base: nat, pending: seq<Rec>,
      done: nat, n: nat,
                accepted: seq<Packet>, freed: seq<Packet>, mapped: seq<Mapping>, unmapped: seq<Mapping>)
    requires RingOk(d0, t0, base, pending, done) && n == NUM_TX_DESC && ClearedTo(d, t, d0, t0, base, n)
    requires Balanced(accepted, freed, mapped, unmapped, pending)
    ensures |d0| == |t0| == NUM_TX_DESC && base < NUM_TX_DESC
    ensures RingOk(d, t, 0, [], 0) && AllClear(d, t)
    ensures Balanced(accepted, freed + ClearedPackets(t0, base, n), mapped, unmapped + ClearedMaps(d0, t0, base, n), [])
    ensures accepted == freed + ClearedPackets(t0, base, n)
        && multiset(mapped) == multiset(unmapped + ClearedMaps(d0, t0, base, n))
  {
    hide RingOk, ClearedTo, ClearedMaps, ClearedPackets, AllClear;
    RingBounds(d0, t0, base, pending, done);
    ClearedLogs(d0, t0, base, pending, done, n);
    ClearedRing(d, t, d0, t0, base, pending, done);
    assert pending[..|pending|] == pending;
  }

  /** What rtl_tx finds in the oldest slot. */
  lemma FirstSlot(d: seq<TxDesc>, t: seq<RingInfo>, base: nat, pending: seq<Rec>, done: nat)
    requires RingOk(d, t, base, pending, done) && pending != []
    ensures |d| == |t| == NUM_TX_DESC && base < NUM_TX_DESC
    ensures d[base] == DescOf(pending[0], done == 0, base) && t[base] == InfoOf(pending[0])
    ensures pending[0].len > 0 && (pending[0].last <==> pending[0].skb.Some?)
    ensures Packets(pending[..1]) == if pending[0].skb.Some? then [pending[0].skb.value] else []
    ensures done <= |pending| <= NUM_TX_DESC
  {
    SlotAt(d, t, base, pending, done, 0);
    assert RecOk(pending[0]);
    assert pending[..1][1..] == [];
  }

  lemma PacketsNext(f: seq<Packet>, q: seq<Rec>, m: nat)
    requires m < |q|
    ensures f + Packets(q[..m]) + Packets(q[m..][..1]) == f + Packets(q[..m + 1])
    ensures q[m..][1..] == q[m + 1..]
  {
    PacketsConcat(q[..m], q[m..][..1]);
    assert q[..m + 1] == q[..m] + q[m..][..1];
  }

  // ---------------------------------------------- packets tso_csum turns down

  /** A segment of such a packet, linear, and what mapping it returns. */
  datatype Segment = Segment(packet: Packet, dma: nat)

  /** What r8169_csum_workaround makes of the packet: its segments; the packet with its
      checksum computed, and what mapping it returns; or nothing. */
  datatype Fallback = Segments(segs: seq<Segment>) | Summed(dmas: seq<nat>) | Hopeless

  predicate FallbackOk(p: Packet, f: Fallback) {
    match f
    case Segments(segs) => forall s <- segs :: Sendable(s.packet) && s.packet.frags == []
    case Summed(dmas) => |dmas| == |p.frags| + 1
    case Hopeless => true
  }

  /** With n slots outstanding: the segments that get queued ... */
  function Queued(segs: seq<Segment>, n: nat): seq<Segment> {
    if segs == [] || n >= NUM_TX_DESC then []
    else if segs[0].dma == 0 then Queued(segs[1..], n)
    else [segs[0]] + Queued(segs[1..], n + 1)
  }

  /** ... and those refused, which nobody holds any more. */
  function Refused(segs: seq<Segment>, n: nat): seq<Segment> {
    if segs == [] || n >= NUM_TX_DESC then segs
    else Refused(segs[1..], if segs[0].dma == 0 then n else n + 1)
  }

  /** How many segments can be mapped. */
  function Mappable(segs: seq<Segment>): nat {
    if segs == [] then 0 else (if segs[0].dma == 0 then 0 else 1) + Mappable(segs[1..])
  }

  /** No segment is lost if and only if the ring still has a slot for the last one. */
  lemma {:induction false} RefusedIff(segs: seq<Segment>, n: nat)
    requires segs != []
    ensures Refused(segs, n) == [] <==> n + Mappable(segs[..|segs| - 1]) < NUM_TX_DESC
    decreases |segs|
  {
    if |segs| > 1 && n < NUM_TX_DESC {
      RefusedIff(segs[1..], if segs[0].dma == 0 then n else n + 1);
      assert segs[..|segs| - 1][1..] == segs[1..][..|segs[1..]| - 1];
    }
  }

  function PacketsOf(segs: seq<Segment>): seq<Packet> {
    seq(|segs|, k requires 0 <= k < |segs| => segs[k].packet)
  }

  function SegRecs(segs: seq<Segment>, opts2: nat): seq<Rec> {
    if segs == [] then []
    else
      var s := segs[|segs| - 1];
      SegRecs(segs[..|segs| - 1], opts2) + Recs(s.packet, [s.dma], opts2)
  }

  lemma SegSnoc(segs: seq<Segment>, s: Segment, opts2: nat)
    ensures SegRecs(segs + [s], opts2) == SegRecs(segs, opts2) + Recs(s.packet, [s.dma], opts2)
    ensures PacketsOf(segs + [s]) == PacketsOf(segs) + [s.packet]
  {
    assert (segs + [s])[..|segs|] == segs;
  }

  lemma NoSegments(segs: seq<Segment>, opts2: nat, n: nat)
    ensures segs == [] ==> Queued(segs, n) == Refused(segs, n) == []
    ensures segs[0..] == segs && SegRecs([], opts2) == [] && PacketsOf([]) == []
  {
  }

  lemma OneRec(p: Packet, dmas: seq<nat>, opts2: nat)
    requires p.frags == []
    ensures |Recs(p, dmas, opts2)| == 1
  {
  }

  lemma OneHandle(dma: nat)
    ensures FirstZero([dma], 1) == 1 <==> dma != 0
  {
  }

  /** The k-th segment, with n slots outstanding, after `sent` and `lost`. */
  lemma SegmentStep(segs: seq<Segment>, k: nat, n: nat, sent: seq<Segment>, lost: seq<Segment>)
    requires k < |segs|
    ensures n >= NUM_TX_DESC ==>
              && sent + Queued(segs[k..], n) == sent + Queued(segs[k + 1..], n)
              && lost + Refused(segs[k..], n) == lost + [segs[k]] + Refused(segs[k + 1..], n)
    ensures n < NUM_TX_DESC && segs[k].dma == 0 ==>
              && sent + Queued(segs[k..], n) == sent + Queued(segs[k + 1..], n)
              && lost + Refused(segs[k..], n) == lost + Refused(segs[k + 1..], n)
    ensures n < NUM_TX_DESC && segs[k].dma != 0 ==>
              && sent + Queued(segs[k..], n) == sent + [segs[k]] + Queued(segs[k + 1..], n + 1)
              && lost + Refused(segs[k..], n) == lost + Refused(segs[k + 1..], n + 1)
  {
    assert segs[k..][1..] == segs[k + 1..] && segs[k..][0] == segs[k];
    assert segs[k..] == [segs[k]] + segs[k + 1..];
  }

  class TxRing {
    const txDesc: array<TxDesc>
    const txSkb: array<RingInfo>
    var curTx: u32
    var dirtyTx: u32
    var stopped: bool
    var packets: nat
    var bytes: nat
    var dropped: nat

    ghost var pending: seq<Rec>       // outstanding slots, oldest first
    ghost var done: nat               // how many of them the NIC has handed back
    ghost var accepted: seq<Packet>   // every packet ever queued, in order
    ghost var freed: seq<Packet>      // every queued packet freed since, in order
    ghost var completed: seq<Packet>  // those of them freed by reclaim
    ghost var mapped: seq<Mapping>
    ghost var unmapped: seq<Mapping>
    ghost var trace: seq<seq<TxDesc>> // every descriptor-ring image of the current send

    /** rtl8169_unmap_tx_skb */
    method UnmapTxSkb(entry: nat)
      requires entry < NUM_TX_DESC == txDesc.Length == txSkb.Length
      modifies txDesc, txSkb, this`unmapped, this`trace
      ensures txDesc[..] == old(txDesc[..])[entry := CLEAR]
      ensures txSkb[..] == old(txSkb[..])[entry := old(txSkb[entry]).(len := 0)]
      ensures unmapped == old(unmapped) + [Mapping(old(txDesc[entry]).addr, old(txSkb[entry]).len)]
      ensures old(trace) <= trace
      ensures forall v: seq<TxDesc> <- trace[|old(trace)|..] ::
                Touches(v, old(txDesc[..]), entry) && !v[entry].opts1.own
    {
      unmapped := unmapped + [Mapping(txDesc[entry].addr, txSkb[entry].len)];
      txDesc[entry] := txDesc[entry].(opts1 := CLEAR.opts1);
      trace := trace + [txDesc[..]];
      txDesc[entry] := txDesc[entry].(opts2 := 0);
      trace := trace + [txDesc[..]];
      txDesc[entry] := txDesc[entry].(addr := 0);
      trace := trace + [txDesc[..]];
      txSkb[entry] := txSkb[entry].(len := 0);
    }

    /** rtl8169_tx_clear_range */
    method TxClearRange(start: u32, n: nat)
      requires NUM_TX_DESC == txDesc.Length == txSkb.Length && n <= NUM_TX_DESC
      modifies txDesc, txSkb, this`unmapped, this`freed, this`trace
      ensures ClearedTo(txDesc[..], txSkb[..], old(txDesc[..]), old(txSkb[..]), SlotOf(start), n)
      ensures unmapped == old(unmapped) + ClearedMaps(old(txDesc[..]), old(txSkb[..]), SlotOf(start), n)
      ensures freed == old(freed) + ClearedPackets(old(txSkb[..]), SlotOf(start), n)
      ensures old(trace) <= trace
      ensures forall v <- trace[|old(trace)|..] :: Within(v, old(txDesc[..]), SlotOf(start), n)
    {
      hide ClearedTo, Within;
      ghost var d0, t0, base := txDesc[..], txSkb[..], SlotOf(start);
      ClearNone(d0, t0, base);
      WithinNone(d0, base);
      for i := 0 to n
        invariant ClearedTo(txDesc[..], txSkb[..], d0, t0, base, i)
        invariant unmapped == old(unmapped) + ClearedMaps(d0, t0, base, i)
        invariant freed == old(freed) + ClearedPackets(t0, base, i)
        invariant Within(txDesc[..], d0, base, i)
        invariant old(trace) <= trace && forall v <- trace[|old(trace)|..] :: Within(v, d0, base, i)
      {
        ghost var d, t, before := txDesc[..], txSkb[..], trace;
        ClearStep(d, t, d0, t0, base, i);
        var entry := SlotOf(Add32(start, i));
        CountersWrap(start, i);
        ClearSlot(entry);
        WithinStep(d, txDesc[..], d0, base, i, before, trace, |old(trace)|);
      }
    }

    /** One slot of rtl8169_tx_clear_range. */
    method ClearSlot(entry: nat)
      requires entry < NUM_TX_DESC == txDesc.Length == txSkb.Length
      modifies txDesc, txSkb, this`unmapped, this`freed, this`trace
      ensures old(txSkb[entry]).len == 0 ==>
                txDesc[..] == old(txDesc[..]) && txSkb[..] == old(txSkb[..]) && unmapped == old(unmapped)
                    && freed == old(freed)
      ensures old(txSkb[entry]).len != 0 ==>
                && txDesc[..] == old(txDesc[..])[entry := CLEAR] && txSkb[..] == old(txSkb[..])[entry := EMPTY]
                && unmapped == old(unmapped) + [Mapping(old(txDesc[entry]).addr, old(txSkb[entry]).len)]
                && freed == old(freed) + (if old(txSkb[entry]).skb.Some? then [old(txSkb[entry]).skb.value] else [])
      ensures Touches(txDesc[..], old(txDesc[..]), entry)
      ensures old(trace) <= trace && forall v <- trace[|old(trace)|..] :: Touches(v, old(txDesc[..]), entry)
    {
      var skb := txSkb[entry].skb;
      if txSkb[entry].len != 0 {
        UnmapTxSkb(entry);
        if skb.Some? {
          freed := freed + [skb.value];
          txSkb[entry] := txSkb[entry].(skb := None);
        }
      }
    }

    /** The whole state is in order, with `dirty` as the index of the oldest outstanding slot. */
    ghost predicate ValidFrom(dirty: u32)
      reads this, txDesc, txSkb
    {
      && NUM_TX_DESC == txDesc.Length == txSkb.Length
      && RingOk(txDesc[..], txSkb[..], SlotOf(dirty), pending, done)
      && curTx == Add32(dirty, |pending|)
      && Balanced(accepted, freed, mapped, unmapped, pending)
      && Counted(packets, bytes, completed)
    }

    ghost predicate Valid()
      reads this, txDesc, txSkb
    {
      ValidFrom(dirtyTx)
    }

    /** A cleared ring. */
    constructor ()
      ensures Valid() && fresh(txDesc) && fresh(txSkb) && pending == [] && accepted == [] && curTx == dirtyTx == 0
    {
      txDesc := new TxDesc[NUM_TX_DESC](_ => CLEAR);
      txSkb := new RingInfo[NUM_TX_DESC](_ => EMPTY);
      curTx, dirtyTx, stopped, packets, bytes, dropped := 0, 0, false, 0, 0, 0;
      pending, done, accepted, freed, completed, mapped, unmapped, trace := [], 0, [], [], [], [], [], [];
    }

    /** Fill in a fragment's slot, field by field. */
    method WriteFrag(entry: nat, opts1: Opts1, opts2: nat, addr: nat, ghost job: Job, ghost k: nat)
      requires job.Fits() && NUM_TX_DESC == txDesc.Length == txSkb.Length
      requires job.Partial(txDesc[..], txSkb[..], k) && k + 1 < |job.recs|
          && entry == Wrap(job.e + (k + 1), NUM_TX_DESC)
      requires TxDesc(opts1, opts2, addr) == DescOf(job.recs[k + 1].(last := false), true, entry)
      requires job.Unseen(txDesc[..], trace)
      modifies txDesc, txSkb, this`trace, this`mapped
      ensures job.Partial(txDesc[..], txSkb[..], k + 1) && mapped == old(mapped) + [Mapping(addr, opts1.len)]
      ensures job.Unseen(txDesc[..], trace)
    {
      ghost var d, t := txDesc[..], txSkb[..];
      FragWritten(job, d, t, k);
      hide Job.Partial, Job.Hidden, Job.Fits;
      mapped := mapped + [Mapping(addr, opts1.len)];
      job.StaysHidden(txDesc[..], entry, txDesc[entry].(opts1 := opts1));
      txDesc[entry] := txDesc[entry].(opts1 := opts1);
      assert txDesc[..] == d[entry := d[entry].(opts1 := opts1)];
      trace := trace + [txDesc[..]];
      job.StaysHidden(txDesc[..], entry, txDesc[entry].(opts2 := opts2));
      txDesc[entry] := txDesc[entry].(opts2 := opts2);
      assert txDesc[..] == d[entry := d[entry].(opts1 := opts1, opts2 := opts2)];
      trace := trace + [txDesc[..]];
      job.StaysHidden(txDesc[..], entry, txDesc[entry].(addr := addr));
      txDesc[entry] := txDesc[entry].(addr := addr);
      assert txDesc[..] == d[entry := TxDesc(opts1, opts2, addr)];
      trace := trace + [txDesc[..]];
      txSkb[entry] := txSkb[entry].(len := opts1.len);
    }

    /** Packet p is on its way into the ring and f of its fragments are written. */
    ghost predicate Filling(p: Packet, dmas: seq<nat>, opts2: nat, job: Job, f: nat)
      reads this, txDesc, txSkb
    {
      && job.Fits() && NUM_TX_DESC == txDesc.Length == txSkb.Length && |dmas| == |p.frags| + 1
      && job.recs == Recs(p, dmas, opts2) && job.e == SlotOf(curTx) && |job.recs| <= NUM_TX_DESC
      && f <= |p.frags| && job.Partial(txDesc[..], txSkb[..], f) && job.Unseen(txDesc[..], trace)
    }

    /** `entry` after f turns of the loop of rtl8169_xmit_frags: not yet reduced before the first. */
    ghost predicate EntryAt(entry: nat, job: Job, f: nat)
      reads this
    {
      && job.e < NUM_TX_DESC && f < NUM_TX_DESC
      && entry == if f == 0 then curTx as nat else Wrap(job.e + f, NUM_TX_DESC)
    }

    /** One turn of the loop of rtl8169_xmit_frags, up to its error path. */
    method MapFrag(p: Packet, dmas: seq<nat>, opts2: nat, f: nat, previous: nat, ghost job: Job)
        returns (entry: nat, ok: bool)
      requires Filling(p, dmas, opts2, job, f) && f < |p.frags| && EntryAt(previous, job, f)
      modifies txDesc, txSkb, this`trace, this`mapped, this`unmapped, this`freed
      ensures ok == (dmas[f + 1] != 0) && EntryAt(entry, job, f + 1)
      ensures Filling(p, dmas, opts2, job, if ok then f + 1 else 0)
      ensures mapped == old(mapped) + if ok then [Mapping(job.recs[f + 1].addr, job.recs[f + 1].len)] else []
      ensures unmapped == old(unmapped) + if ok then [] else Maps(job.recs[1..f + 1])
      ensures freed == old(freed)
    {
      hide Job.Partial, Job.Unseen, Job.Fits, Job.Ready, Maps, Recs;
      entry := (previous + 1) % NUM_TX_DESC;
      assert job.e < NUM_TX_DESC;
      WrapMod(job.e, f);
      WrapMod(job.e, f + 1);
      RecsAre(p, dmas, opts2);
      var mapping := dmas[f + 1];
      if mapping == 0 {
        Rollback(f, job);
        return entry, false;
      }
      var opts1 := Opts1(true, (entry + 1) % NUM_TX_DESC == 0, false, false, p.frags[f]);
      WriteFrag(entry, opts1, opts2, mapping, job, f);
      return entry, true;
    }

    /** rtl8169_xmit_frags. The k-th mapping call of the packet returns dmas[k], 0 for a mapping error. */
    method XmitFrags(p: Packet, dmas: seq<nat>, opts2: nat, ghost job: Job) returns (frags: int)
      requires Filling(p, dmas, opts2, job, 0) && dmas[0] != 0
      modifies txDesc, txSkb, this`trace, this`mapped, this`unmapped, this`freed
      ensures frags == if FirstZero(dmas, |dmas|) == |dmas| then |p.frags| else -1
      ensures 0 < FirstZero(dmas, |dmas|) && mapped == old(mapped) + Maps(job.recs[1..FirstZero(dmas, |dmas|)])
      ensures unmapped == old(unmapped) + if frags < 0 then Maps(job.recs[1..FirstZero(dmas, |dmas|)]) else []
      ensures if frags > 0 then job.Ready(txDesc[..], txSkb[..]) && job.Unseen(txDesc[..], trace)
          else Filling(p, dmas, opts2, job, 0)
      ensures freed == old(freed)
    {
      assert FirstZero(dmas, |dmas|) > 0;
      assert |job.recs| == |dmas| == |p.frags| + 1;
      assert EntryAt(curTx, job, 0);
      hide Filling, FirstZero, EntryAt, Job.Ready, Job.Unseen, Maps;
      var entry: nat := curTx;
      var f := 0;
      MapsNone(job.recs[1..1]);
      ghost var k := FirstZero(dmas, |dmas|);
      while f < |p.frags|
        invariant f <= |p.frags| && f < k && EntryAt(entry, job, f)
        invariant Filling(p, dmas, opts2, job, f)
        invariant mapped == old(mapped) + Maps(job.recs[1..f + 1]) && unmapped == old(unmapped) && freed == old(freed)
      {
        var ok;
        entry, ok := MapFrag(p, dmas, opts2, f, entry, job);
        if !ok {
          return -1;
        }
        MapsUpTo(old(mapped), job.recs, f);
        f := f + 1;
      }
      if f > 0 {
        FinishFrags(p, dmas, opts2, entry, job);
      }
      return f;
    }

    /** The end of rtl8169_xmit_frags: the last fragment carries the packet. */
    method FinishFrags(p: Packet, dmas: seq<nat>, opts2: nat, entry: nat, ghost job: Job)
      requires Filling(p, dmas, opts2, job, |p.frags|) && 0 < |p.frags| && EntryAt(entry, job, |p.frags|)
      modifies txDesc, txSkb, this`trace
      ensures job.Ready(txDesc[..], txSkb[..]) && job.Unseen(txDesc[..], trace)
    {
      assert job.recs == Recs(p, dmas, opts2) && job.Partial(txDesc[..], txSkb[..], |p.frags|);
      assert txDesc.Length == txSkb.Length == NUM_TX_DESC && job.Unseen(txDesc[..], trace);
      JobBounds(job);
      hide Job.Partial, Job.Hidden, Job.Fits, Job.Ready, Filling;
      RecsAre(p, dmas, opts2);
      FragsWritten(job, txDesc[..], txSkb[..]);
      job.StaysHidden(txDesc[..], entry, txDesc[entry].(opts1 := txDesc[entry].opts1.(lastFrag := true)));
      txSkb[entry] := txSkb[entry].(skb := Some(p));
      txDesc[entry] := txDesc[entry].(opts1 := txDesc[entry].opts1.(lastFrag := true));
      trace := trace + [txDesc[..]];
    }

    /** The error path of rtl8169_xmit_frags: undo the f fragments written so far. */
    method Rollback(f: nat, ghost job: Job)
      requires job.Fits() && NUM_TX_DESC == txDesc.Length == txSkb.Length && f < |job.recs|
      requires job.e == SlotOf(curTx) && job.Partial(txDesc[..], txSkb[..], f)
      requires job.Unseen(txDesc[..], trace)
      modifies txDesc, txSkb, this`trace, this`unmapped, this`freed
      ensures job.Partial(txDesc[..], txSkb[..], 0) && freed == old(freed)
      ensures unmapped == old(unmapped) + Maps(job.recs[1..f + 1])
      ensures job.Unseen(txDesc[..], trace)
    {
      ghost var d, t, before := txDesc[..], txSkb[..], trace;
      JobBounds(job);
      hide Job.Partial, Job.Hidden, Job.Fits, ClearedTo, Within;
      CountersWrap(curTx, 1);
      TxClearRange(Add32(curTx, 1), f);
      UndoneLogs(job, d, t, f, f);
      UndoneFrags(job, d, t, txDesc[..], txSkb[..], f);
      forall v <- trace ensures job.Hidden(v) {
        assert v in before || v in trace[|before|..];
        if v in trace[|before|..] {
          HiddenWithin(job, d, v, f);
        }
      }
    }

    /** The head of rtl8169_start_xmit: its slot holds the mapping and the length, but stays the driver's. */
    method MapHead(p: Packet, dmas: seq<nat>, opts2: nat, entry: nat, ghost job: Job)
      requires job.Fits() && NUM_TX_DESC == txDesc.Length == txSkb.Length && |dmas| == |p.frags| + 1
      requires job.d0 == txDesc[..] && job.t0 == txSkb[..] && job.recs == Recs(p, dmas, opts2)
      requires job.e == entry == SlotOf(curTx) && trace == []
      modifies txDesc, txSkb, this`trace, this`mapped
      ensures Filling(p, dmas, opts2, job, 0)
      ensures mapped == old(mapped) + [Mapping(job.recs[0].addr, job.recs[0].len)]
    {
      RecsAre(p, dmas, opts2);
      JobBounds(job);
      HeadMapped(job);
      hide Job.Partial, Job.Hidden, Job.Fits, Recs;
      mapped := mapped + [Mapping(dmas[0], p.head)];
      txSkb[entry] := txSkb[entry].(len := p.head);
      ghost var d := txDesc[..];
      job.StaysHidden(d, entry, d[entry].(addr := dmas[0]));
      txDesc[entry] := txDesc[entry].(addr := dmas[0]);
      assert txDesc[..] == d[entry := d[entry].(addr := dmas[0])];
      trace := trace + [txDesc[..]];
    }

    /** err_dma_1: undo the head as well. */
    method UnmapHead(p: Packet, dmas: seq<nat>, opts2: nat, entry: nat, ghost job: Job)
      requires Filling(p, dmas, opts2, job, 0) && entry == job.e
      modifies txDesc, txSkb, this`trace, this`unmapped
      ensures txDesc[..] == job.d0 && txSkb[..] == job.t0 && job.Unseen(txDesc[..], trace)
      ensures unmapped == old(unmapped) + [Mapping(job.recs[0].addr, job.recs[0].len)]
    {
      ghost var d, t, before := txDesc[..], txSkb[..], trace;
      ClearNone(d, t, Wrap(job.e + 1, NUM_TX_DESC));
      Undone(job, d, t, d, t, 0);
      HeadStays(job, d, t);
      hide Job.Partial, Job.Hidden;
      UnmapTxSkb(entry);
      forall v <- trace ensures job.Hidden(v) {
        assert v in before || v in trace[|before|..];
        if v in trace[|before|..] {
          job.StaysHidden(d, entry, v[entry]);
        }
      }
    }

    /** The end of rtl8169_start_xmit: opts2 of the head, and with its opts1 the whole packet, go out. */
    method PublishHead(p: Packet, dmas: seq<nat>, opts2: nat, entry: nat, ghost job: Job)
      requires NUM_TX_DESC == txDesc.Length == txSkb.Length && job.recs == Recs(p, dmas, opts2) && entry == job.e
      requires job.Ready(txDesc[..], txSkb[..]) && job.Unseen(txDesc[..], trace)
      modifies txDesc, this`trace
      ensures job.Published(txDesc[..], txSkb[..])
      ensures |trace| > 0 && trace[|trace| - 1] == txDesc[..] && forall v <- trace[..|trace| - 1] :: job.Hidden(v)
    {
      RecsAre(p, dmas, opts2);
      JobBounds(job);
      HeadPublished(job, txDesc[..], txSkb[..]);
      ghost var d, t := txDesc[..], txSkb[..];
      assert !d[entry].opts1.own;
      hide Job.Partial, Job.Hidden, Job.Fits, Job.Ready, Job.Published, Recs;
      job.StaysHidden(d, entry, d[entry].(opts2 := opts2));
      txDesc[entry] := txDesc[entry].(opts2 := opts2);
      assert txDesc[..] == d[entry := d[entry].(opts2 := opts2)];
      trace := trace + [txDesc[..]];
      var opts1 := Opts1(true, entry + 1 == NUM_TX_DESC, true, p.frags == [], p.head);
      txDesc[entry] := txDesc[entry].(opts1 := opts1);
      assert txDesc[..] == d[entry := DescOf(job.recs[0], true, entry)];
      trace := trace + [txDesc[..]];
      assert trace[..|trace| - 1] == old(trace) + [d[entry := d[entry].(opts2 := opts2)]];
    }

    /** rtl8169_start_xmit without fragments: the head itself carries the packet. */
    method FinishHead(p: Packet, dmas: seq<nat>, opts2: nat, entry: nat, ghost job: Job)
      requires Filling(p, dmas, opts2, job, 0) && p.frags == [] && entry == job.e
      modifies txSkb
      ensures job.Ready(txDesc[..], txSkb[..]) && job.Unseen(txDesc[..], trace)
    {
      RecsAre(p, dmas, opts2);
      JobBounds(job);
      LoneHead(job, txDesc[..], txSkb[..], p);
      hide Job.Partial, Job.Hidden, Job.Fits, Job.Ready, Recs;
      txSkb[entry] := txSkb[entry].(skb := Some(p));
    }

    /** The part of rtl8169_start_xmit that may touch the ring, once the head is mapped. */
    method Fill(p: Packet, dmas: seq<nat>, opts2: nat, entry: nat, ghost job: Job) returns (sent: bool)
      requires job.Fits() && NUM_TX_DESC == txDesc.Length == txSkb.Length && |dmas| == |p.frags| + 1
      requires job.d0 == txDesc[..] && job.t0 == txSkb[..] && job.recs == Recs(p, dmas, opts2)
      requires job.e == entry == SlotOf(curTx) && trace == [] && dmas[0] != 0
      modifies txDesc, txSkb, this`trace, this`mapped, this`unmapped, this`freed
      ensures sent == (FirstZero(dmas, |dmas|) == |dmas|) && freed == old(freed)
      ensures mapped == old(mapped) + Maps(job.recs[..FirstZero(dmas, |dmas|)])
      ensures !sent ==>
                && txDesc[..] == job.d0 && txSkb[..] == job.t0 && job.Unseen(txDesc[..], trace)
                && multiset(unmapped) == multiset(old(unmapped)) + multiset(Maps(job.recs[..FirstZero(dmas, |dmas|)]))
      ensures sent ==>
                && job.Published(txDesc[..], txSkb[..]) && unmapped == old(unmapped)
                && |trace| > 0 && trace[|trace| - 1] == txDesc[..] && forall v <- trace[..|trace| - 1] :: job.Hidden(v)
    {
      assert |job.recs| == |dmas| == |p.frags| + 1;
      hide Filling, FirstZero, Job.Ready, Job.Unseen, Job.Fits, Job.Published, Job.Hidden, Maps, Recs;
      MapHead(p, dmas, opts2, entry, job);
      var frags := XmitFrags(p, dmas, opts2, job);
      ghost var k := FirstZero(dmas, |dmas|);
      SentMaps(old(mapped), job.recs, k);
      if frags < 0 {
        ghost var u := unmapped;
        UnmapHead(p, dmas, opts2, entry, job);
        DroppedMaps(old(unmapped), u, unmapped, job.recs, k);
        return false;
      }
      if frags == 0 {
        FinishHead(p, dmas, opts2, entry, job);
      }
      PublishHead(p, dmas, opts2, entry, job);
      return true;
    }

    /** The end of rtl8169_start_xmit: stop the queue unless the next packet is sure to fit, and look again. */
    method StopIfFull(maxFrags: nat)
      modifies this`stopped
      ensures stopped == (old(stopped) || !ReadyFor(dirtyTx, curTx, maxFrags))
    {
      if !ReadyFor(dirtyTx, curTx, maxFrags) {
        stopped := true;
        stopped := !ReadyFor(dirtyTx, curTx, maxFrags);
      }
    }

    /** The bookkeeping of a published packet, and the stop test. */
    method Commit(p: Packet, dmas: seq<nat>, opts2: nat, maxFrags: nat, ghost job: Job, ghost mapped0: seq<Mapping>)
      requires NUM_TX_DESC == txDesc.Length == txSkb.Length && job.recs == Recs(p, dmas, opts2)
      requires RingOk(job.d0, job.t0, SlotOf(dirtyTx), pending, done) && job.Published(txDesc[..], txSkb[..])
      requires |pending| + |job.recs| <= NUM_TX_DESC && job.e == Wrap(SlotOf(dirtyTx) + |pending|, NUM_TX_DESC)
      requires curTx == Add32(dirtyTx, |pending|) && Counted(packets, bytes, completed)
      requires mapped == mapped0 + Maps(job.recs) && Balanced(accepted, freed, mapped0, unmapped, pending)
      modifies this`curTx, this`stopped, this`pending, this`accepted
      ensures Valid() && pending == old(pending) + Recs(p, dmas, opts2) && accepted == old(accepted) + [p]
      ensures stopped == (old(stopped) || |pending| + maxFrags + 1 > NUM_TX_DESC)
    {
      hide RingOk, Balanced, Counted, Job.Published, Recs, Maps, Add32, SlotOf, SlotsAvail;
      Enqueued(job, txDesc[..], txSkb[..], SlotOf(dirtyTx), pending, done);
      BooksAfterSend(p, dmas, opts2, accepted, freed, mapped0, unmapped, pending);
      Add32Twice(dirtyTx, |pending|, |p.frags| + 1);
      CountersWrap(dirtyTx, |pending| + |p.frags| + 1);
      curTx := Add32(curTx, |p.frags| + 1);
      pending := pending + Recs(p, dmas, opts2);
      accepted := accepted + [p];
      StopIfFull(maxFrags);
    }

    /** rtl8169_start_xmit for a packet that fits and whose head is mapped. */
    method Send(p: Packet, dmas: seq<nat>, opts2: nat, maxFrags: nat, entry: nat) returns (sent: bool)
      requires Valid() && Sendable(p) && |dmas| == |p.frags| + 1 && dmas[0] != 0
      requires |pending| + |p.frags| + 1 <= NUM_TX_DESC && entry == SlotOf(curTx) && trace == []
      modifies txDesc, txSkb, this`trace, this`mapped, this`unmapped, this`freed, this`curTx, this`stopped,
          this`pending, this`accepted
      ensures Valid() && freed == old(freed)
      ensures sent == (FirstZero(dmas, |dmas|) == |dmas|)
      ensures pending == old(pending) + (if sent then Recs(p, dmas, opts2) else [])
      ensures accepted == old(accepted) + (if sent then [p] else [])
      ensures !sent ==> txDesc[..] == old(txDesc[..]) && txSkb[..] == old(txSkb[..]) && curTx == old(curTx)
      ensures stopped == (old(stopped) || (sent && |pending| + maxFrags + 1 > NUM_TX_DESC))
      ensures AllShow(if sent && |trace| > 0 then trace[..|trace| - 1] else trace, SlotOf(dirtyTx), old(|pending|),
          done)
      ensures sent ==> |trace| > 0 && trace[|trace| - 1] == txDesc[..]
    {
      hide RingOk, Balanced, Job.Published, Job.Fits, Job.Hidden, Recs, Counted, Maps, Add32, SlotOf, FirstZero,
          AllShow;
      ghost var base, m, u := SlotOf(dirtyTx), mapped, unmapped;
      CountersWrap(dirtyTx, |pending|);
      ghost var job := Job(txDesc[..], txSkb[..], entry, Recs(p, dmas, opts2));
      JobFits(txDesc[..], txSkb[..], base, pending, done, p, dmas, opts2);
      sent := Fill(p, dmas, opts2, entry, job);
      if !sent {
        ShowsAll(job, trace, base, pending, done);
        BooksAfterDrop(Maps(job.recs[..FirstZero(dmas, |dmas|)]), accepted, freed, m, u, unmapped, pending);
        return;
      }
      ShowsAll(job, trace[..|trace| - 1], base, pending, done);
      assert job.recs[..FirstZero(dmas, |dmas|)] == job.recs;
      Commit(p, dmas, opts2, maxFrags, job, m);
    }

    /** rtl8169_start_xmit. A packet is refused when it does not fit, dropped
        without a trace when a mapping fails, and otherwise queued; until its last
        write the NIC sees exactly what was queued before. */
    method StartXmit(p: Packet, dmas: seq<nat>, opts2: nat, maxFrags: nat) returns (status: XmitStatus)
      requires Valid() && Sendable(p) && |dmas| == |p.frags| + 1
      modifies this, txDesc, txSkb
      ensures Valid() && dirtyTx == old(dirtyTx) && done == old(done) && freed == old(freed)
          && completed == old(completed)
      ensures (status == Busy) == (old(|pending|) + |p.frags| + 1 > NUM_TX_DESC)
      ensures var sent := status == Ok && FirstZero(dmas, |dmas|) == |dmas|;
              && pending == old(pending) + (if sent then Recs(p, dmas, opts2) else [])
              && accepted == old(accepted) + (if sent then [p] else [])
              && dropped == old(dropped) + (if sent then 0 else 1)
              && (!sent ==> txDesc[..] == old(txDesc[..]) && txSkb[..] == old(txSkb[..]) && curTx == old(curTx))
              && stopped == (old(stopped) || status == Busy || (sent && |pending| + maxFrags + 1 > NUM_TX_DESC))
              && AllShow(if sent && |trace| > 0 then trace[..|trace| - 1] else trace, SlotOf(dirtyTx), old(|pending|),
                  done)
              && (sent ==> |trace| > 0 && trace[|trace| - 1] == txDesc[..])
    {
      hide RingOk, Balanced, Recs, Counted, Maps, Add32, SlotOf, FirstZero, SlotsAvail;
      trace := [];
      var entry := SlotOf(curTx);
      RingBounds(txDesc[..], txSkb[..], SlotOf(dirtyTx), pending, done);
      CountersWrap(dirtyTx, |pending|);
      if |pending| < NUM_TX_DESC {
        SlotAt(txDesc[..], txSkb[..], SlotOf(dirtyTx), pending, done, |pending|);
      }
      if !ReadyFor(dirtyTx, curTx, |p.frags|) || txDesc[entry].opts1.own {
        stopped, dropped := true, dropped + 1;
        return Busy;
      }
      if dmas[0] == 0 {
        dropped := dropped + 1;
        return Ok;
      }
      var sent := Send(p, dmas, opts2, maxFrags, entry);
      if !sent {
        dropped := dropped + 1;
      }
      return Ok;
    }

    lemma DoneBound()
      requires Valid()
      ensures done <= |pending|
    {
    }

    /** The images of the send that has just ended, with n slots outstanding before it. */
    lemma SendImages(n: nat) returns (images: seq<Image>)
      requires Valid() && done <= n <= |pending|
      requires if n < |pending| then
                 && trace != [] && trace[|trace| - 1] == txDesc[..]
                 && AllShow(trace[..|trace| - 1], SlotOf(dirtyTx), n, done)
               else AllShow(trace, SlotOf(dirtyTx), n, done)
      ensures InOrder(images, SlotOf(dirtyTx), done, n, |pending|)
    {
      hide RingOk, AllShow, InOrder, Images, SlotOf, Balanced, Counted, ShowsFrom;
      images := Images(trace, n, |pending|);
      if n < |pending| {
        PublishedShows(txDesc[..], txSkb[..], SlotOf(dirtyTx), pending, done);
        SentInOrder(trace, SlotOf(dirtyTx), n, |pending|, done);
      } else {
        UnsentInOrder(trace, SlotOf(dirtyTx), n, done);
      }
    }

    /** One segment: queued if there is a slot for it and it can be mapped. */
    method SendSegment(s: Segment, opts2: nat, maxFrags: nat) returns (status: XmitStatus, ghost images: seq<Image>)
      requires Valid() && Sendable(s.packet) && s.packet.frags == []
      modifies this, txDesc, txSkb
      ensures Valid() && dirtyTx == old(dirtyTx) && freed == old(freed) && done == old(done)
      ensures status == Busy <==> old(|pending|) >= NUM_TX_DESC
      ensures var sent := status == Ok && s.dma != 0;
              && pending == old(pending) + (if sent then Recs(s.packet, [s.dma], opts2) else [])
              && |pending| == old(|pending|) + (if sent then 1 else 0)
              && accepted == old(accepted) + (if sent then [s.packet] else [])
              && dropped == old(dropped) + (if sent then 0 else 1)
      ensures InOrder(images, SlotOf(dirtyTx), done, old(|pending|), |pending|)
    {
      hide RingOk, Balanced, Recs, Counted, FirstZero, TxRing.Valid, AllShow, InOrder, Images, SlotOf;
      OneHandle(s.dma);
      OneRec(s.packet, [s.dma], opts2);
      DoneBound();
      status := StartXmit(s.packet, [s.dma], opts2, maxFrags);
      images := SendImages(old(|pending|));
    }

    /** The loop of r8169_csum_workaround over the segments of a packet. */
    method SendSegments(segs: seq<Segment>, opts2: nat, maxFrags: nat)
      returns (ghost sent: seq<Segment>, ghost lost: seq<Segment>, ghost images: seq<Image>)
      requires Valid() && forall s <- segs :: Sendable(s.packet) && s.packet.frags == []
      modifies this, txDesc, txSkb
      ensures Valid() && dirtyTx == old(dirtyTx) && freed == old(freed) && done == old(done)
      ensures InOrder(images, SlotOf(dirtyTx), done, old(|pending|), |pending|)
      ensures sent == Queued(segs, old(|pending|)) && lost == Refused(segs, old(|pending|))
      ensures pending == old(pending) + SegRecs(sent, opts2) && accepted == old(accepted) + PacketsOf(sent)
      ensures |sent| <= |segs| && dropped == old(dropped) + |segs| - |sent|
    {
      hide RingOk, Balanced, Recs, Counted, Queued, Refused, SegRecs, FirstZero, PacketsOf, TxRing.Valid;
      hide AllShow, InOrder, Images, SlotOf;
      sent, lost, images := [], [], [];
      NoImages(SlotOf(dirtyTx), done, |pending|);
      NoSegments(segs, opts2, old(|pending|));
      assert pending + [] == pending && accepted + [] == accepted;
      for k := 0 to |segs|
        invariant Valid() && dirtyTx == old(dirtyTx) && freed == old(freed) && done == old(done)
        invariant old(|pending|) <= |pending| && InOrder(images, SlotOf(dirtyTx), done, old(|pending|), |pending|)
        invariant sent + Queued(segs[k..], |pending|) == Queued(segs, old(|pending|))
        invariant lost + Refused(segs[k..], |pending|) == Refused(segs, old(|pending|))
        invariant pending == old(pending) + SegRecs(sent, opts2) && accepted == old(accepted) + PacketsOf(sent)
        invariant |sent| <= k && dropped == old(dropped) + k - |sent|
      {
        var s := segs[k];
        SegmentStep(segs, k, |pending|, sent, lost);
        SegSnoc(sent, s, opts2);
        ghost var n := |pending|;
        var status;
        ghost var more;
        status, more := SendSegment(s, opts2, maxFrags);
        InOrderJoin(images, more, SlotOf(dirtyTx), done, old(|pending|), n, |pending|);
        images := images + more;
        if status == Busy {
          lost := lost + [s];
        } else if s.dma != 0 {
          sent := sent + [s];
        }
      }
      NoSegments(segs[|segs|..], opts2, |pending|);
    }

    /** rtl8169_start_xmit for a packet that tso_csum turns down, through
        r8169_csum_workaround. The outcome of sending is ignored there: a segment that is
        refused is lost, whereas the packet itself, sent again, is not refused. */
    method StartXmitUnaided(p: Packet, fallback: Fallback, opts2: nat, maxFrags: nat)
      returns (status: XmitStatus, ghost lost: seq<Segment>, ghost images: seq<Image>)
      requires Valid() && Sendable(p) && FallbackOk(p, fallback)
      modifies this, txDesc, txSkb
      ensures Valid() && dirtyTx == old(dirtyTx) && freed == old(freed) && done == old(done)
      ensures InOrder(images, SlotOf(dirtyTx), done, old(|pending|), |pending|)
      ensures (status == Busy) == (old(|pending|) + |p.frags| + 1 > NUM_TX_DESC)
      ensures status == Ok && fallback.Segments? ==>
                && var sent := Queued(fallback.segs, old(|pending|));
                && lost == Refused(fallback.segs, old(|pending|)) && |sent| <= |fallback.segs|
                && pending == old(pending) + SegRecs(sent, opts2) && accepted == old(accepted) + PacketsOf(sent)
                && dropped == old(dropped) + |fallback.segs| - |sent|
      ensures status == Busy || !fallback.Segments? ==>
                && var sent := status == Ok && fallback.Summed?
                       && FirstZero(fallback.dmas, |fallback.dmas|) == |p.frags| + 1;
                && lost == [] && pending == old(pending) + (if sent then Recs(p, fallback.dmas, opts2) else [])
                && accepted == old(accepted) + (if sent then [p] else [])
                && dropped == old(dropped) + (if sent then 0 else 1)
    {
      hide RingOk, Balanced, Recs, Counted, Queued, Refused, SegRecs, FirstZero, PacketsOf, Add32, SlotOf, SlotsAvail;
      hide AllShow, InOrder, Images;
      lost, images := [], [];
      NoImages(SlotOf(dirtyTx), done, |pending|);
      var entry := SlotOf(curTx);
      RingBounds(txDesc[..], txSkb[..], SlotOf(dirtyTx), pending, done);
      CountersWrap(dirtyTx, |pending|);
      if |pending| < NUM_TX_DESC {
        SlotAt(txDesc[..], txSkb[..], SlotOf(dirtyTx), pending, done, |pending|);
      }
      if !ReadyFor(dirtyTx, curTx, |p.frags|) || txDesc[entry].opts1.own {
        stopped, dropped := true, dropped + 1;
        return Busy, [], [];
      }
      status := Ok;
      match fallback
      case Segments(segs) =>
        ghost var sent;
        sent, lost, images := SendSegments(segs, opts2, maxFrags);
      case Summed(dmas) =>
        ghost var n := |pending|;
        DoneBound();
        var again := StartXmit(p, dmas, opts2, maxFrags);
        images := SendImages(n);
      case Hopeless =>
        dropped := dropped + 1;
    }

    /** The NIC, standing at slot `entry`, finishes with its descriptor and hands it back. */
    method NicDone(entry: nat)
      requires Valid() && done < |pending| && entry == Wrap(SlotOf(dirtyTx) + done, NUM_TX_DESC)
      modifies txDesc, this`done
      ensures Valid() && done == old(done) + 1 && pending == old(pending)
    {
      HandedBack(txDesc[..], txSkb[..], SlotOf(dirtyTx), pending, done);
      RingBounds(txDesc[..], txSkb[..], SlotOf(dirtyTx), pending, done);
      hide RingOk, Balanced, Counted, SlotOf;
      txDesc[entry] := txDesc[entry].(opts1 := txDesc[entry].opts1.(own := false));
      done := done + 1;
    }

    /** The LastFrag branch of rtl_tx. */
    method Complete(entry: nat)
      requires entry < NUM_TX_DESC == txSkb.Length && txSkb[entry].skb.Some? && Counted(packets, bytes, completed)
      modifies txSkb, this`packets, this`bytes, this`freed, this`completed
      ensures txSkb[..] == old(txSkb[..])[entry := old(txSkb[entry]).(skb := None)]
      ensures freed == old(freed) + [old(txSkb[entry]).skb.value]
      ensures completed == old(completed) + [old(txSkb[entry]).skb.value]
      ensures Counted(packets, bytes, completed)
    {
      var skb := txSkb[entry].skb.value;
      CountOne(packets, bytes, completed, skb);
      packets := packets + 1;
      bytes := bytes + PacketLen(skb);
      freed := freed + [skb];
      completed := completed + [skb];
      txSkb[entry] := txSkb[entry].(skb := None);
    }

    /** One turn of the loop of rtl_tx, for a slot the NIC has handed back. */
    method ReclaimSlot(dirty: u32, entry: nat)
      requires ValidFrom(dirty) && pending != [] && done > 0 && entry == SlotOf(dirty)
      modifies txDesc, txSkb, this`trace, this`unmapped, this`packets, this`bytes, this`freed, this`completed,
          this`pending, this`done
      ensures ValidFrom(Add32(dirty, 1)) && pending == old(pending)[1..] && done == old(done) - 1
      ensures freed == old(freed) + Packets(old(pending)[..1])
          && completed == old(completed) + Packets(old(pending)[..1])
    {
      hide RingOk, Balanced, Counted, Packets, PacketLen, Add32, SlotOf;
      FirstSlot(txDesc[..], txSkb[..], entry, pending, done);
      Reclaimed(txDesc[..], txSkb[..], entry, pending, done);
      BooksAfterReclaim(accepted, freed, mapped, unmapped, pending);
      CountersStep(dirty, |pending|);
      ghost var t := txSkb[..];
      var status := txDesc[entry].opts1;
      UnmapTxSkb(entry);
      if status.lastFrag {
        Complete(entry);
      }
      assert txSkb[..] == t[entry := EMPTY] && freed == old(freed) + Packets(pending[..1]);
      pending := pending[1..];
      done := done - 1;
    }

    /** rtl_tx: reclaim what the NIC has handed back, no more and no less, and
        wake a stopped queue if the next packet is sure to fit. */
    method RtlTx(maxFrags: nat)
      requires Valid()
      modifies txDesc, txSkb, this`trace, this`unmapped, this`packets, this`bytes, this`freed, this`completed,
               this`pending, this`done, this`dirtyTx, this`stopped
      ensures Valid() && pending == old(pending)[old(done)..] && done == 0
      ensures freed == old(freed) + Packets(old(pending)[..old(done)])
      ensures completed == old(completed) + Packets(old(pending)[..old(done)])
      ensures dirtyTx == Add32(old(dirtyTx), old(done))
      ensures stopped == (old(stopped) && (old(done) == 0 || |pending| + maxFrags + 1 > NUM_TX_DESC))
    {
      hide RingOk, Balanced, Counted, Packets, Add32, SlotOf, SlotsAvail;
      RingBounds(txDesc[..], txSkb[..], SlotOf(dirtyTx), pending, done);
      CountersWrap(dirtyTx, |pending|);
      CountersWrap(dirtyTx, done);
      CountersWrap(dirtyTx, 0);
      var dirty := dirtyTx;
      var txLeft := Outstanding(dirty, curTx);
      ghost var q, n := pending, done;
      MapsNone(q[..0]);
      while txLeft > 0
        invariant ValidFrom(dirty) && txLeft == |pending| && done <= |pending| && done <= n <= |q| <= NUM_TX_DESC
        invariant dirtyTx == old(dirtyTx) && stopped == old(stopped)
        invariant pending == q[n - done..] && dirty == Add32(dirtyTx, n - done)
        invariant freed == old(freed) + Packets(q[..n - done]) && completed == old(completed) + Packets(q[..n - done])
      {
        var entry := SlotOf(dirty);
        FirstSlot(txDesc[..], txSkb[..], entry, pending, done);
        if txDesc[entry].opts1.own {
          break;
        }
        PacketsNext(old(freed), q, n - done);
        PacketsNext(old(completed), q, n - done);
        Add32Twice(dirtyTx, n - done, 1);
        ReclaimSlot(dirty, entry);
        dirty := Add32(dirty, 1);
        txLeft := txLeft - 1;
      }
      PublishDirty(dirty, maxFrags);
    }

    /** The end of rtl_tx. */
    method PublishDirty(dirty: u32, maxFrags: nat)
      requires ValidFrom(dirty)
      modifies this`dirtyTx, this`stopped
      ensures Valid() && dirtyTx == dirty
      ensures stopped == (old(stopped) && (dirty == old(dirtyTx) || |pending| + maxFrags + 1 > NUM_TX_DESC))
    {
      hide RingOk, Balanced, Counted, Add32, SlotOf, SlotsAvail;
      if dirtyTx != dirty {
        RingBounds(txDesc[..], txSkb[..], SlotOf(dirty), pending, done);
        CountersWrap(dirty, |pending|);
        dirtyTx := dirty;
        if stopped && ReadyFor(dirtyTx, curTx, maxFrags) {
          stopped := false;
        }
      }
    }

    /** rtl8169_tx_clear: whatever is outstanding is unmapped and freed, and the ring is as new. */
    method TxClear()
      requires Valid()
      modifies txDesc, txSkb, this`unmapped, this`freed, this`trace, this`curTx, this`dirtyTx, this`pending, this`done
      ensures Valid() && pending == [] && done == 0 && curTx == dirtyTx == 0
      ensures accepted == freed
      ensures multiset(unmapped) == multiset(mapped)
      ensures AllClear(txDesc[..], txSkb[..])
    {
      hide RingOk, Balanced, Counted, SlotOf, ClearedTo, ClearedMaps, ClearedPackets, AllClear, Add32;
      ghost var d, t, f, u, base := txDesc[..], txSkb[..], freed, unmapped, SlotOf(dirtyTx);
      TxClearRange(dirtyTx, NUM_TX_DESC);
      Settled(txDesc[..], txSkb[..], d, t, base, pending, done, NUM_TX_DESC, accepted, f, mapped, u);
      SlotZero();
      curTx, dirtyTx := 0, 0;
      pending, done := [], 0;
    }
  }

  /** A run that loses a segment: one more of them than the ring has slots. */
  method LoseSegment(p: Packet, segs: seq<Segment>) returns (r: TxRing, ghost lost: seq<Segment>)
    requires Sendable(p) && |p.frags| < NUM_TX_DESC && FallbackOk(p, Segments(segs))
    requires |segs| == NUM_TX_DESC + 1 && forall s <- segs :: s.dma != 0
    ensures fresh(r) && lost != [] && lost == Refused(segs, 0) && r.accepted == PacketsOf(Queued(segs, 0))
  {
    hide Queued, Refused, PacketsOf, SegRecs, Recs, TxRing.Valid, FirstZero;
    r := new TxRing();
    AllMappable(segs[..NUM_TX_DESC]);
    RefusedIff(segs, 0);
    var status;
    ghost var images;
    status, lost, images := r.StartXmitUnaided(p, Segments(segs), 0, 17);
    assert [] + PacketsOf(Queued(segs, 0)) == PacketsOf(Queued(segs, 0));
  }

  lemma {:induction false} AllMappable(segs: seq<Segment>)
    requires forall s <- segs :: s.dma != 0
    ensures Mappable(segs) == |segs|
  {
    if segs != [] {
      AllMappable(segs[1..]);
    }
  }
}
