/** What both drivers share with the network stack and the DMA layer. */
module NetDev {

  type Bytes = seq<bv8>

  /** Interface features. */
  datatype Config = Config(rxAll: bool, rxFcs: bool)

  /** The frame checksum goes unless NETIF_F_RXFCS is on. */
  function Trim(c: Config, b: Bytes): Bytes {
    if c.rxFcs || |b| < 4 then b else b[..|b| - 4]
  }

  /** What the k-th mapping call of a packet returns: a handle, or 0 for a mapping error. */
  function Handle(dmas: seq<nat>, k: nat): nat {
    if k < |dmas| then dmas[k] else 0
  }

  /** The first mapping call among n that fails; n when none does. */
  ghost function FirstZero(dmas: seq<nat>, n: nat): (k: nat)
    ensures k <= n && k <= |dmas| && (k < n ==> Handle(dmas, k) == 0)
    ensures forall i :: 0 <= i < k ==> dmas[i] != 0
  {
    if n == 0 then 0
    else
      var k := FirstZero(dmas, n - 1);
      if k < n - 1 || Handle(dmas, n - 1) == 0 then k else n
  }

  lemma FirstZeroAt(dmas: seq<nat>, k: nat, n: nat)
    requires k < n && FirstZero(dmas, k) == k && Handle(dmas, k) == 0
    ensures FirstZero(dmas, n) == k
  {
    if FirstZero(dmas, n) < k {
      assert false;
    }
  }
}
