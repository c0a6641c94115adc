/** Received frames, and the pieces in which the e1000 hardware reports them. */
module E1000RxFrames {
  import opened NetDev
  import opened Words

  /** What one descriptor reports: the bytes written to its buffer, whether they end a
      frame, whether the frame is in error, and whether TBI_ACCEPT holds of it. */
  datatype Piece = Piece(bytes: Bytes, eop: bool, error: bool, tbi: bool)

  /** The pieces after the last end of a frame. */
  function Open(ps: seq<Piece>): (o: seq<Piece>)
    ensures |o| <= |ps|
  {
    if ps == [] || ps[|ps| - 1].eop then [] else Open(ps[..|ps| - 1]) + [ps[|ps| - 1]]
  }

  /** The complete frames of a stream, each as its pieces. */
  function Closed(ps: seq<Piece>): seq<seq<Piece>> {
    if ps == [] then []
    else
      var rest, p := ps[..|ps| - 1], ps[|ps| - 1];
      if p.eop then Closed(rest) + [Open(rest) + [p]] else Closed(rest)
  }

  function Flatten(gs: seq<seq<Piece>>): seq<Piece> {
    if gs == [] then [] else Flatten(gs[..|gs| - 1]) + gs[|gs| - 1]
  }

  ghost predicate NoEnd(g: seq<Piece>) {
    forall p <- g :: !p.eop
  }

  /** The pieces of one frame: the last one ends it, no other does. */
  ghost predicate OneFrame(g: seq<Piece>) {
    g != [] && g[|g| - 1].eop && NoEnd(g[..|g| - 1])
  }

  lemma {:induction false} OpenHasNoEnd(ps: seq<Piece>)
    ensures NoEnd(Open(ps))
  {
    if ps != [] && !ps[|ps| - 1].eop {
      OpenHasNoEnd(ps[..|ps| - 1]);
    }
  }

  /** One more piece. */
  lemma CutSnoc(ps: seq<Piece>, p: Piece)
    ensures Open(ps + [p]) == if p.eop then [] else Open(ps) + [p]
    ensures Closed(ps + [p]) == if p.eop then Closed(ps) + [Open(ps) + [p]] else Closed(ps)
  {
    assert (ps + [p])[..|ps|] == ps;
  }

  lemma FlattenSnoc(gs: seq<seq<Piece>>, g: seq<Piece>)
    ensures Flatten(gs + [g]) == Flatten(gs) + g
  {
    assert (gs + [g])[..|gs|] == gs;
  }

  /** Closed and Open cut a stream where its frames end: nothing is lost or reordered ... */
  lemma {:induction false} CutLosesNothing(ps: seq<Piece>)
    ensures Flatten(Closed(ps)) + Open(ps) == ps
  {
    hide Flatten, Closed, Open;
    if ps == [] {
      CutNone();
    } else {
      var rest, p := ps[..|ps| - 1], ps[|ps| - 1];
      assert ps == rest + [p];
      CutLosesNothing(rest);
      CutSnoc(rest, p);
      var f, o := Flatten(Closed(rest)), Open(rest);
      Associative(f, o, [p]);
      if p.eop {
        FlattenSnoc(Closed(rest), o + [p]);
        assert Flatten(Closed(ps)) == f + (o + [p]) && Open(ps) == [];
      } else {
        assert Flatten(Closed(ps)) == f && Open(ps) == o + [p];
      }
    }
  }

  lemma CutNone()
    ensures Closed([]) == [] && Flatten([]) == [] && Open([]) == []
  {
  }

  /** ... and every group but the open one is one whole frame. */
  lemma {:induction false} CutAtEnds(ps: seq<Piece>)
    ensures NoEnd(Open(ps)) && forall g <- Closed(ps) :: OneFrame(g)
  {
    hide NoEnd;
    OpenHasNoEnd(ps);
    if ps != [] {
      var rest, p := ps[..|ps| - 1], ps[|ps| - 1];
      CutAtEnds(rest);
      if p.eop {
        assert (Open(rest) + [p])[..|Open(rest)|] == Open(rest);
      }
    }
  }

  /** There is no other way to do so. */
  lemma {:induction false} CutIsUnique(gs: seq<seq<Piece>>, o: seq<Piece>, ps: seq<Piece>)
    requires Flatten(gs) + o == ps && NoEnd(o) && forall g <- gs :: OneFrame(g)
    ensures gs == Closed(ps) && o == Open(ps)
    decreases |ps|
  {
    hide Flatten, Closed, Open;
    if o != [] {
      var tail, p := o[..|o| - 1], o[|o| - 1];
      assert p in o && o == tail + [p];
      var rest := Flatten(gs) + tail;
      Associative(Flatten(gs), tail, [p]);
      CutIsUnique(gs, tail, rest);
      CutSnoc(rest, p);
    } else if gs != [] {
      var init, g := gs[..|gs| - 1], gs[|gs| - 1];
      assert g in gs && gs == init + [g] && ps == Flatten(gs);
      FlattenSnoc(init, g);
      var tail, p := g[..|g| - 1], g[|g| - 1];
      assert g == tail + [p];
      var rest := Flatten(init) + tail;
      Associative(Flatten(init), tail, [p]);
      CutIsUnique(init, tail, rest);
      CutSnoc(rest, p);
    } else {
      CutNone();
    }
  }

  function BytesOf(g: seq<Piece>): Bytes {
    if g == [] then [] else BytesOf(g[..|g| - 1]) + g[|g| - 1].bytes
  }

  /** A frame on the wire has its checksum and something before it; its last piece is not empty. */
  ghost predicate Wired(g: seq<Piece>) {
    g != [] && |BytesOf(g)| >= 5 && |g[|g| - 1].bytes| >= 1
  }

  ghost predicate OnTheWire(ps: seq<Piece>) {
    forall g <- Closed(ps) :: Wired(g)
  }

  lemma BytesSnoc(g: seq<Piece>, p: Piece)
    ensures BytesOf(g + [p]) == BytesOf(g) + p.bytes
  {
    assert (g + [p])[..|g|] == g;
  }

  lemma {:induction false} ClosedPrefix(a: seq<Piece>, b: seq<Piece>)
    ensures Closed(a) <= Closed(a + b)
    decreases |b|
  {
    if b == [] {
      assert a + b == a;
    } else {
      ClosedPrefix(a, b[..|b| - 1]);
      assert (a + b)[..|a + b| - 1] == a + b[..|b| - 1];
    }
  }

  /** The next piece completes a frame that meets the wire's minimum. */
  lemma WireAt(consumed: seq<Piece>, waiting: seq<Piece>)
    requires waiting != [] && waiting[0].eop && OnTheWire(consumed + waiting)
    ensures Wired(Open(consumed) + [waiting[0]])
  {
    hide Open, Closed, Wired, BytesOf;
    var p := waiting[0];
    CutSnoc(consumed, p);
    assert consumed + waiting == (consumed + [p]) + waiting[1..];
    ClosedPrefix(consumed + [p], waiting[1..]);
    var gs, all := Closed(consumed + [p]), Closed(consumed + waiting);
    assert all[|gs| - 1] == gs[|gs| - 1] == Open(consumed) + [p];
    assert all[|gs| - 1] in all;
  }

  /** What the stack gets for the bytes b of a frame whose last piece is p: the frame
      if it is not in error; its bytes but the last under the TBI workaround; the frame
      as it is under NETIF_F_RXALL; otherwise nothing. */
  function Filter(c: Config, p: Piece, b: Bytes): seq<Bytes> {
    if !p.error then [Trim(c, b)]
    else if p.tbi then [Trim(c, if b == [] then b else b[..|b| - 1])]
    else if c.rxAll then [Trim(c, b)]
    else []
  }
}
