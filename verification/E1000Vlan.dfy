/** The e1000 VLAN filter table and the set of active VLANs. */
module E1000Vlan {
  import opened Bits

  const VLAN_N_VID: nat := 4096
  const NUM_VFTA: nat := 128
  const E1000_MNG_VLAN_NONE: nat := 0xffff

  type Vid = v: nat | v < VLAN_N_VID

  class VlanTable {
    const support: bool      // E1000_MNG_DHCP_COOKIE_STATUS_VLAN_SUPPORT in the cookie
    const cookieVid: Vid     // the VLAN of the management cookie
    const promisc: bool
    const vfta: array<nat>   // the hardware table
    var active: set<Vid>     // active_vlans
    var mngVlanId: nat
    var vfe: bool            // E1000_RCTL_VFE

    ghost predicate Shape()
      reads this
    {
      vfta.Length == NUM_VFTA && (mngVlanId < VLAN_N_VID || mngVlanId == E1000_MNG_VLAN_NONE)
    }

    /** The hardware passes exactly the active VLANs. */
    ghost predicate Agree()
      reads this, vfta
    {
      forall v: Vid :: TableBit(vfta[..], v) <==> v in active
    }

    /** The filter is on exactly while there is a VLAN, unless the interface is promiscuous. */
    ghost predicate Filtering()
      reads this
    {
      promisc || (vfe <==> active != {})
    }

    /** The hardware passes exactly the VLANs in s. */
    ghost predicate Decodes(s: set<Vid>)
      reads vfta
    {
      forall v: Vid :: TableBit(vfta[..], v) <==> v in s
    }

    /** A set of VLANs as the hardware has it. */
    ghost function Decoded(): (s: set<Vid>)
      reads vfta
      ensures Decodes(s)
    {
      set v: Vid | 0 <= v < VLAN_N_VID && TableBit(vfta[..], v)
    }

    /** e1000_vlan_filter_on_off */
    method FilterOnOff(on: bool)
      requires Shape()
      modifies this, vfta
      ensures Shape()
      ensures !on || old(active) == {} ==>
                active == old(active) && mngVlanId == old(mngVlanId) && vfta[..] == old(vfta[..])
      ensures on && old(active) != {} ==> MngUpdated(old(active), old(mngVlanId), old(Decoded()), active, mngVlanId,
          Decoded())
      ensures old(Agree()) ==> Agree()
      ensures vfe == if !on then false else if promisc then old(vfe) else true
      decreases if !on then 0 else if active == {} then 2 else 4
    {
      if on {
        if !promisc {
          vfe := true;
        }
        UpdateMngVlan();
      } else {
        vfe := false;
      }
    }

    /** What e1000_update_mng_vlan makes of the active VLANs, the manageability VLAN and the table. */
    ghost predicate MngUpdated(a: set<Vid>, m: nat, t: set<Vid>, a': set<Vid>, m': nat, t': set<Vid>) {
      if cookieVid in a then a' == a && m' == cookieVid && t' == t
      else if !support then a' == a && m' == E1000_MNG_VLAN_NONE && t' == t - Stale(a, m)
      else if m == cookieVid then a' == a && m' == m && t' == t
      else a' == a + {cookieVid} && m' == cookieVid && t' == t + {cookieVid} - Stale(a, m)
    }

    /** The former manageability VLAN, unless it is another's too. */
    ghost function Stale(a: set<Vid>, m: nat): set<Vid> {
      set v: Vid | 0 <= v < VLAN_N_VID && v == m && v != cookieVid && v !in a
    }

    /** e1000_update_mng_vlan */
    method UpdateMngVlan()
      requires Shape()
      modifies this, vfta
      ensures Shape()
      ensures old(active) == {} ==> active == {} && mngVlanId == old(mngVlanId) && vfta[..] == old(vfta[..])
      ensures old(active) != {} ==> MngUpdated(old(active), old(mngVlanId), old(Decoded()), active, mngVlanId,
          Decoded())
      ensures old(Agree()) ==> Agree()
      ensures vfe == old(vfe)
      decreases if active == {} then 1 else 3
    {
      var vid, oldVid := cookieVid, mngVlanId;
      if active == {} {
        return;
      }
      if vid !in active {
        if support {
          AddVid(vid);
          mngVlanId := vid;
        } else {
          mngVlanId := E1000_MNG_VLAN_NONE;
        }
        if oldVid != E1000_MNG_VLAN_NONE && vid != oldVid && oldVid !in active {
          KillVid(oldVid);
        }
      } else {
        mngVlanId := vid;
      }
    }

    /** e1000_vlan_rx_add_vid. The manageability VLAN is taken to be in place already. */
    method AddVid(vid: Vid)
      requires Shape()
      modifies this, vfta
      ensures Shape() && mngVlanId == old(mngVlanId)
      ensures if support && vid == mngVlanId then active == old(active) && vfta[..] == old(vfta[..])
              else active == old(active) + {vid} && Decodes(old(Decoded()) + {vid})
      ensures old(Agree()) ==> Agree()
      ensures old(Filtering()) ==> Filtering()
      ensures old(active) != {} ==> vfe == old(vfe)
      decreases if active == {} then 3 else 0
    {
      if support && vid == mngVlanId {
        return;
      }
      if active == {} {
        FilterOnOff(true);
      }
      SetVid(vid);
      active := active + {vid};
    }

    method SetVid(vid: Vid)
      requires Shape()
      modifies vfta
      ensures Decodes(old(Decoded()) + {vid})
    {
      ghost var t := vfta[..];
      var index := vid / 32 % 128;
      vfta[index] := SetBit(vfta[index], vid % 32);
      assert vfta[..] == t[vid / 32 := SetBit(t[vid / 32], vid % 32)];
      forall v: Vid ensures TableBit(vfta[..], v) <==> v in old(Decoded()) + {vid} {
        TableSet(t, vid, v);
      }
    }

    method ClearVid(vid: Vid)
      requires Shape()
      modifies vfta
      ensures Decodes(old(Decoded()) - {vid})
    {
      ghost var t := vfta[..];
      var index := vid / 32 % 128;
      vfta[index] := ClearBit(vfta[index], vid % 32);
      assert vfta[..] == t[vid / 32 := ClearBit(t[vid / 32], vid % 32)];
      forall v: Vid ensures TableBit(vfta[..], v) <==> v in old(Decoded()) - {vid} {
        TableSet(t, vid, v);
      }
    }

    /** e1000_vlan_rx_kill_vid */
    method KillVid(vid: Vid)
      requires Shape()
      modifies this, vfta
      ensures Shape() && mngVlanId == old(mngVlanId)
      ensures active == old(active) - {vid} && Decodes(old(Decoded()) - {vid})
      ensures old(Agree()) ==> Agree()
      ensures old(Filtering()) ==> Filtering()
      ensures active != {} ==> vfe == old(vfe)
      decreases 2
    {
      ClearVid(vid);
      active := active - {vid};
      if active == {} {
        FilterOnOff(false);
      }
    }

    /** The active VLANs below n that e1000_vlan_rx_add_vid does not skip. */
    ghost function Added(a: set<Vid>, m: nat, n: nat): set<Vid> {
      set v: Vid | v in a && v < n && !(support && v == m)
    }

    /** e1000_restore_vlan, on a table that a reset has cleared: afterwards the table and
        the active VLANs agree, unless the VLAN of the management cookie is one of
        them and manageability VLANs are on. Then just that one is missing. */
    method RestoreVlan()
      requires Shape() && Decoded() == {}
      modifies this, vfta
      ensures Shape() && active >= old(active) && (cookieVid in old(active) ==> active == old(active))
      ensures Agree() <==> !(support && cookieVid in old(active))
      ensures old(Filtering()) ==> Filtering()
      ensures support && cookieVid in old(active) ==> Decodes(active - {cookieVid})
    {
      if active == {} {
        return;
      }
      FilterOnOff(true);
      ghost var t, a, m := Decoded(), active, mngVlanId;
      AddAll();
      assert Added(a, m, VLAN_N_VID) == set v: Vid | v in a && !(support && v == m);
    }

    /** The loop of e1000_restore_vlan. */
    method AddAll()
      requires Shape() && active != {}
      modifies this, vfta
      ensures Shape() && active == old(active) && mngVlanId == old(mngVlanId)
      ensures old(Filtering()) ==> Filtering()
      ensures Decodes(old(Decoded()) + Added(active, mngVlanId, VLAN_N_VID))
    {
      hide Added;
      AddedMore(active, mngVlanId, 0);
      for v := 0 to VLAN_N_VID
        invariant Shape() && active == old(active) && mngVlanId == old(mngVlanId) && (old(Filtering()) ==> Filtering())
        invariant Decoded() == old(Decoded()) + Added(active, mngVlanId, v)
      {
        AddedMore(active, mngVlanId, v);
        if v in active {
          AddVid(v);
        }
      }
    }

    lemma AddedMore(a: set<Vid>, m: nat, n: nat)
      requires n < VLAN_N_VID
      ensures Added(a, m, 0) == {}
      ensures Added(a, m, n + 1) == Added(a, m, n) + if n in a && !(support && n == m) then {n} else {}
    {
    }

    constructor (support: bool, cookieVid: Vid, promisc: bool)
      ensures Shape() && Agree() && Filtering() && active == {} && fresh(vfta)
      ensures mngVlanId == E1000_MNG_VLAN_NONE && this.support == support && this.cookieVid == cookieVid
    {
      this.support, this.cookieVid, this.promisc := support, cookieVid, promisc;
      vfta := new nat[NUM_VFTA](_ => 0);
      active, mngVlanId, vfe := {}, E1000_MNG_VLAN_NONE, false;
      new;
      forall v: Vid ensures !TableBit(vfta[..], v) {
        BitOfZero(v % 32);
      }
    }

    /** A reset of the device clears the table and nothing else. */
    method Reset()
      requires Shape()
      modifies vfta
      ensures Shape() && Decoded() == {}
    {
      for i := 0 to NUM_VFTA
        invariant forall k :: 0 <= k < i ==> vfta[k] == 0
      {
        vfta[i] := 0;
      }
      forall v: Vid ensures !TableBit(vfta[..], v) {
        BitOfZero(v % 32);
      }
    }
  }

  /** A run in which a reset loses a VLAN for good: it is the one of the management cookie. */
  method LostVlan() returns (t: VlanTable)
    ensures fresh(t) && t.active == {5} && !t.Agree() && t.Decodes({})
  {
    t := new VlanTable(true, 5, false);
    t.AddVid(5);
    t.Reset();
    t.RestoreVlan();
    assert t.active - {5} == {};
  }
}
