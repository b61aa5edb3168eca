/**
 * The driver's TC-offload state: the counters it keeps per MAE counter, the
 * match fields it collects from a flower rule, the action set it builds,
 * the numbering of its default switching rules and the two priorities it
 * installs rules at.
 */
module Tc {
  import opened Bytes
  import opened Wrappers
  import VarLen
  import Counters
  import ActionSet
  import Capabilities

  // ----- counters -----

  /** One 4kB page of MAE_COUNTER_VALUE rows is used for the counter DMA. */
  const EFX_TC_MAX_COUNTER: nat := 256
  const COUNTER_BUFFER_LEN: nat := 4096

  lemma CounterBufferIsOnePage()
    ensures Counters.MAE_COUNTER_VALUE_LEN * EFX_TC_MAX_COUNTER == COUNTER_BUFFER_LEN
  {
  }

  /** The driver's copy of one counter: the latest hardware counts, the
      counts last passed to userspace, and when (in jiffies) the packet count
      was last seen to go up.  The counts are 64-bit unsigned. */
  datatype TcCounter = TcCounter(packets: nat, bytes: nat,
                                 oldPackets: nat, oldBytes: nat, touched: nat)

  const U64: nat := 0x1_0000_0000_0000_0000

  /** A 64-bit count from the NIC as a number. */
  function Count(x: bv64): (n: nat)
    ensures n < U64
  {
    x as nat
  }

  predicate CounterValid(c: TcCounter)
  {
    c.packets < U64 && c.bytes < U64 && c.oldPackets < U64 && c.oldBytes < U64
  }

  /** Taking in a reading from the NIC at time now. */
  function UpdateCounter(c: TcCounter, hw: Counters.CounterValue, now: nat): (r: TcCounter)
    requires CounterValid(c)
    ensures CounterValid(r)
    ensures r.packets == Count(hw.packets) && r.bytes == Count(hw.bytes)
    ensures r.oldPackets == c.oldPackets && r.oldBytes == c.oldBytes
    ensures r.touched != c.touched ==> r.packets > c.packets
    ensures r.packets > c.packets ==> r.touched == now
  {
    var packets, bytes := Count(hw.packets), Count(hw.bytes);
    var touched := if packets > c.packets then now else c.touched;
    TcCounter(packets, bytes, c.oldPackets, c.oldBytes, touched)
  }

  /** Counts gained since the last report. */
  datatype Gained = Gained(packets: nat, bytes: nat)

  /** cur - prev in 64-bit unsigned arithmetic. */
  function Gain(cur: nat, prev: nat): (d: nat)
    requires cur < U64 && prev < U64
    ensures d < U64
    ensures prev + d == cur || prev + d == cur + U64
  {
    if cur >= prev then cur - prev else cur + U64 - prev
  }

  /** Passing a counter to userspace: the counts gained since the last
      report (modulo 2^64, so a counter that wrapped still reports what it
      gained), after which the current counts become the reported ones. */
  function ReportCounter(c: TcCounter): (r: (TcCounter, Gained))
    requires CounterValid(c)
    ensures CounterValid(r.0)
    ensures r.0.oldPackets == c.packets && r.0.oldBytes == c.bytes
    ensures r.0.packets == c.packets && r.0.bytes == c.bytes && r.0.touched == c.touched
    ensures r.1.packets < U64 && r.1.bytes < U64
    ensures c.oldPackets + r.1.packets == c.packets || c.oldPackets + r.1.packets == c.packets + U64
    ensures c.oldBytes + r.1.bytes == c.bytes || c.oldBytes + r.1.bytes == c.bytes + U64
  {
    (c.(oldPackets := c.packets, oldBytes := c.bytes),
     Gained(Gain(c.packets, c.oldPackets), Gain(c.bytes, c.oldBytes)))
  }

  /** A second report with no reading in between reports nothing new. */
  lemma ReportTwiceReportsNothing(c: TcCounter)
    requires CounterValid(c)
    ensures ReportCounter(ReportCounter(c).0).1 == Gained(0, 0)
  {
  }

  /** Reports over two readings add up (modulo 2^64) to what the counter
      gained over both. */
  lemma ReportsAddUp(c: TcCounter, hw1: Counters.CounterValue, hw2: Counters.CounterValue,
                     t1: nat, t2: nat)
    requires CounterValid(c)
    ensures var r1 := ReportCounter(UpdateCounter(c, hw1, t1));
            var r2 := ReportCounter(UpdateCounter(r1.0, hw2, t2));
            (c.oldPackets + r1.1.packets + r2.1.packets) % U64 == Count(hw2.packets)
            && (c.oldBytes + r1.1.bytes + r2.1.bytes) % U64 == Count(hw2.bytes)
  {
    var u1 := UpdateCounter(c, hw1, t1);
    var r1 := ReportCounter(u1);
    var u2 := UpdateCounter(r1.0, hw2, t2);
    ReportsAddUpPackets(c.oldPackets, r1.1.packets, u1.packets, u2);
    ReportsAddUpBytes(c.oldBytes, r1.1.bytes, u1.bytes, u2);
  }

  /** The packet half of ReportsAddUp, after the first report: c2 is the
      counter updated by the second reading. */
  lemma ReportsAddUpPackets(old0: nat, d1: nat, p1: nat, c2: TcCounter)
    requires CounterValid(c2) && c2.oldPackets == p1
    requires old0 + d1 == p1 || old0 + d1 == p1 + U64
    ensures (old0 + d1 + ReportCounter(c2).1.packets) % U64 == c2.packets
  {
    WrapTwice(old0, d1, ReportCounter(c2).1.packets, p1, c2.packets);
  }

  lemma ReportsAddUpBytes(old0: nat, d1: nat, b1: nat, c2: TcCounter)
    requires CounterValid(c2) && c2.oldBytes == b1
    requires old0 + d1 == b1 || old0 + d1 == b1 + U64
    ensures (old0 + d1 + ReportCounter(c2).1.bytes) % U64 == c2.bytes
  {
    WrapTwice(old0, d1, ReportCounter(c2).1.bytes, b1, c2.bytes);
  }

  lemma WrapTwice(a: nat, d1: nat, d2: nat, b: nat, c: nat)
    requires b < U64 && c < U64
    requires a + d1 == b || a + d1 == b + U64
    requires b + d2 == c || b + d2 == c + U64
    ensures (a + d1 + d2) % U64 == c
  {
    var s := a + d1 + d2;
    if s != c && s != c + U64 {
      assert s == c + 2 * U64;
    }
  }

  predicate CountersValid(counters: seq<TcCounter>)
  {
    forall id :: 0 <= id < |counters| ==> CounterValid(counters[id])
  }

  /** Taking in the whole DMA table: counter id is updated from row id. */
  function RefreshCounters(counters: seq<TcCounter>, table: seq<byte>, now: nat)
    : (r: seq<TcCounter>)
    requires |counters| == EFX_TC_MAX_COUNTER && |table| >= COUNTER_BUFFER_LEN
    requires CountersValid(counters)
    ensures |r| == EFX_TC_MAX_COUNTER && CountersValid(r)
    ensures forall id :: 0 <= id < EFX_TC_MAX_COUNTER ==>
              var row := Counters.LookupCounter(table, EFX_TC_MAX_COUNTER, id);
              row.Some? && r[id].packets == Count(row.value.packets)
              && r[id].bytes == Count(row.value.bytes)
    ensures forall id :: 0 <= id < EFX_TC_MAX_COUNTER ==>
              r[id].oldPackets == counters[id].oldPackets && r[id].oldBytes == counters[id].oldBytes
    ensures forall id :: 0 <= id < EFX_TC_MAX_COUNTER ==>
              (r[id].touched != counters[id].touched ==> r[id].packets > counters[id].packets)
  {
    seq(EFX_TC_MAX_COUNTER, id requires 0 <= id < EFX_TC_MAX_COUNTER =>
      UpdateCounter(counters[id], Counters.RowValue(Counters.Row(table, id)), now))
  }

  /** One poll: MC_CMD_MAE_COUNTERS_READ for all 256 counters into the
      buffer, then the driver's copies refreshed from it.  Allocated counters
      take their NIC values; nothing already reported is disturbed. */
  method PollCounters(counters: seq<TcCounter>, live: map<nat, Counters.CounterValue>,
                      buffer: seq<byte>, now: nat)
    returns (r: seq<TcCounter>)
    requires |counters| == EFX_TC_MAX_COUNTER && CountersValid(counters)
    requires |buffer| == COUNTER_BUFFER_LEN
    ensures |r| == EFX_TC_MAX_COUNTER && CountersValid(r)
    ensures forall id :: 0 <= id < EFX_TC_MAX_COUNTER && id in live ==>
              r[id].packets == Count(live[id].packets) && r[id].bytes == Count(live[id].bytes)
    ensures forall id :: 0 <= id < EFX_TC_MAX_COUNTER ==>
              r[id].oldPackets == counters[id].oldPackets && r[id].oldBytes == counters[id].oldBytes
    ensures forall id :: 0 <= id < EFX_TC_MAX_COUNTER ==>
              (r[id].touched != counters[id].touched ==> r[id].packets > counters[id].packets)
  {
    CounterBufferIsOnePage();
    var table := Counters.CountersRead(live, EFX_TC_MAX_COUNTER, buffer);
    r := RefreshCounters(counters, table, now);
    forall id | 0 <= id < EFX_TC_MAX_COUNTER && id in live
      ensures r[id].packets == Count(live[id].packets) && r[id].bytes == Count(live[id].bytes)
    {
      Counters.LookupAfterRead(live, EFX_TC_MAX_COUNTER, buffer, table, id);
    }
  }

  // ----- encapsulation headers -----

  /** The largest encapsulation header the driver builds. */
  const EFX_TC_MAX_ENCAP_HDR: nat := 128

  /** Any header the driver builds fits one MC_CMD_MAE_ENCAP_HEADER_ALLOC
      request, on either MCDI version. */
  lemma EncapHeaderFits(v: VarLen.Version, encapType: bv32, hdr: seq<byte>)
    requires |hdr| <= EFX_TC_MAX_ENCAP_HDR
    ensures VarLen.EncodeEncapHeaderAlloc(v, VarLen.EncapHeaderAlloc(encapType, hdr)).Success?
  {
  }

  // ----- vports -----

  const EFX_VPORT_PF: nat := 0
  const EFX_VPORT_VF_OFFSET: nat := 1

  /** The driver's vport number for VF vf; no VF shares the PF's number. */
  function VfVport(vf: nat): (p: nat)
    ensures p != EFX_VPORT_PF
    ensures VportVf(p) == Some(vf)
  {
    vf + EFX_VPORT_VF_OFFSET
  }

  function VportVf(p: nat): (r: Option<nat>)
    ensures r.None? <==> p == EFX_VPORT_PF
  {
    if p < EFX_VPORT_VF_OFFSET then None else Some(p - EFX_VPORT_VF_OFFSET)
  }

  // ----- the action set -----

  /** The driver's action set.  vlan_push and vlan_pop are two-bit fields;
      the TCIs and ethertypes of the pushed tags are held in two-entry
      arrays (network byte order).  count, encap_md and pedit_md are
      pointers to shared entries, modelled as the firmware ids they hold. */
  datatype TcActionSet = TcActionSet(vlanPush: bv2, vlanPop: bv2, decap: bool, deliver: bool,
                                     vlanTci: seq<bv16>, vlanProto: seq<bv16>,
                                     count: Option<bv32>, destMport: bv32,
                                     encap: Option<bv32>, pedit: Option<bv32>, fwId: bv32)

  predicate ActionShaped(a: TcActionSet)
  {
    |a.vlanTci| == 2 && |a.vlanProto| == 2
  }

  /** The (TCI, ethertype) pairs the action pushes, outermost first.  The
      arrays have room for two, so a push count of 3, which the 2-bit field
      can hold, names no tags (None). */
  function TcPushedTags(a: TcActionSet): (r: Option<seq<(bv16, bv16)>>)
    requires ActionShaped(a)
    ensures r.None? <==> a.vlanPush == 3
    ensures r.Some? ==> |r.value| == a.vlanPush as nat
    ensures r.Some? ==> forall k :: 0 <= k < |r.value| ==> r.value[k] == (a.vlanTci[k], a.vlanProto[k])
  {
    if a.vlanPush == 3 then None
    else
      var n := a.vlanPush as nat;
      Some(seq(n, k requires 0 <= k < n => (a.vlanTci[k], a.vlanProto[k])))
  }

  /** An MAE action set whose VLAN fields are taken from the driver's
      action set pushes exactly the driver's tags: the driver's widths and
      array sizes match what ACTION_SET_ALLOC carries. */
  lemma PushedTagsAgree(a: TcActionSet, m: ActionSet.ActionSetAlloc)
    requires ActionShaped(a)
    requires m.flags.vlanPush == a.vlanPush && m.flags.vlanPop == a.vlanPop
    requires m.vlan0TciBe == a.vlanTci[0] && m.vlan0ProtoBe == a.vlanProto[0]
    requires m.vlan1TciBe == a.vlanTci[1] && m.vlan1ProtoBe == a.vlanProto[1]
    ensures ActionSet.PushedTags(m) == TcPushedTags(a)
  {
    var t, u := ActionSet.PushedTags(m), TcPushedTags(a);
    if t.Some? {
      assert |t.value| == |u.value|;
      forall k | 0 <= k < |t.value| ensures t.value[k] == u.value[k] {
      }
      assert t.value == u.value;
    }
  }

  // ----- match fields -----

  const ETH_ALEN: nat := 6
  const IPV6_ADDR_LEN: nat := 16

  /** The fields of a flower match, used both for values and for masks.
      The enc_* fields are the outer headers of an encapsulated packet; TC
      has no outer L2 fields. */
  datatype MatchFields = MatchFields(
    ingressPort: bv32,
    ethProto: bv16, vlanTci: seq<bv16>, vlanProto: seq<bv16>,
    ethSaddr: seq<byte>, ethDaddr: seq<byte>,
    ipProto: byte, ipTos: byte, ipTtl: byte,
    srcIp: bv32, dstIp: bv32, srcIp6: seq<byte>, dstIp6: seq<byte>,
    l4Sport: bv16, l4Dport: bv16, tcpFlags: bv16,
    encSrcIp: bv32, encDstIp: bv32, encSrcIp6: seq<byte>, encDstIp6: seq<byte>,
    encIpTos: byte, encIpTtl: byte, encSport: bv16, encDport: bv16,
    encKeyid: bv32)

  /** The array sizes of the C structure. */
  predicate MatchShaped(m: MatchFields)
  {
    |m.vlanTci| == 2 && |m.vlanProto| == 2
    && |m.ethSaddr| == ETH_ALEN && |m.ethDaddr| == ETH_ALEN
    && |m.srcIp6| == IPV6_ADDR_LEN && |m.dstIp6| == IPV6_ADDR_LEN
    && |m.encSrcIp6| == IPV6_ADDR_LEN && |m.encDstIp6| == IPV6_ADDR_LEN
  }

  /** The unspecified address, ::. */
  predicate Ipv6AddrAny(a: seq<byte>)
  {
    forall i :: 0 <= i < |a| ==> a[i] == 0
  }

  /** A rule needs an outer (encapsulation) match when its mask covers any
      outer address, TOS, TTL or port.  The key id alone does not count. */
  predicate MatchIsEncap(mask: MatchFields)
  {
    mask.encSrcIp != 0 || mask.encDstIp != 0
    || !Ipv6AddrAny(mask.encSrcIp6) || !Ipv6AddrAny(mask.encDstIp6)
    || mask.encIpTos != 0 || mask.encIpTtl != 0
    || mask.encSport != 0 || mask.encDport != 0
  }

  /** The mask with its outer addresses, TOS, TTL and ports cleared. */
  function WithoutOuter(m: MatchFields): (r: MatchFields)
    requires MatchShaped(m)
    ensures MatchShaped(r)
  {
    m.(encSrcIp := 0, encDstIp := 0,
       encSrcIp6 := Zeros(IPV6_ADDR_LEN), encDstIp6 := Zeros(IPV6_ADDR_LEN),
       encIpTos := 0, encIpTtl := 0, encSport := 0, encDport := 0)
  }

  lemma AnyIsZeros(a: seq<byte>)
    requires |a| == IPV6_ADDR_LEN
    ensures Ipv6AddrAny(a) <==> a == Zeros(IPV6_ADDR_LEN)
  {
    if Ipv6AddrAny(a) {
      assert forall i :: 0 <= i < |a| ==> a[i] == Zeros(IPV6_ADDR_LEN)[i];
    }
  }

  /** A mask is an encap match exactly when clearing its outer fields
      changes it. */
  lemma EncapIffOuterFields(m: MatchFields)
    requires MatchShaped(m)
    ensures MatchIsEncap(m) <==> WithoutOuter(m) != m
  {
    AnyIsZeros(m.encSrcIp6);
    AnyIsZeros(m.encDstIp6);
  }

  /** Inner fields and the key id never make a match an encap match. */
  lemma InnerFieldsAreNotEncap(m: MatchFields, keyid: bv32)
    requires MatchShaped(m)
    ensures !MatchIsEncap(WithoutOuter(m))
    ensures MatchIsEncap(m.(encKeyid := keyid)) == MatchIsEncap(m)
  {
    assert Ipv6AddrAny(Zeros(IPV6_ADDR_LEN));
  }

  // ----- default rules -----

  /** The default switching rules, named by ingress port. */
  datatype DefaultRule = DfltPf | DfltWire | DfltVf(vf: nat) | DfltVfRep(vfRep: nat)

  const EFX_TC_DFLT_VF_BASE: nat := 2
  const EFX_TC_DFLT_VF_REP_BASE: nat := 3
  /** One past the last index: the slot VF 255 would take. */
  const EFX_TC_DFLT__MAX: nat := 512

  /** The index of a default rule in dflt_rules: PF and wire first, then
      each VF's rule followed by its representor's. */
  function DefaultRuleIndex(d: DefaultRule): (i: nat)
    ensures DefaultRuleOf(i) == d
  {
    match d
    case DfltPf => 0
    case DfltWire => 1
    case DfltVf(vf) => EFX_TC_DFLT_VF_BASE + vf * 2
    case DfltVfRep(vf) => EFX_TC_DFLT_VF_REP_BASE + vf * 2
  }

  function DefaultRuleOf(i: nat): DefaultRule
  {
    if i == 0 then DfltPf
    else if i == 1 then DfltWire
    else if i % 2 == 0 then DfltVf((i - EFX_TC_DFLT_VF_BASE) / 2)
    else DfltVfRep((i - EFX_TC_DFLT_VF_REP_BASE) / 2)
  }

  /** Every index names exactly one rule: no two rules share a slot. */
  lemma DefaultRuleIndexOf(i: nat)
    ensures DefaultRuleIndex(DefaultRuleOf(i)) == i
  {
  }

  lemma DefaultRuleIndexInjective(d1: DefaultRule, d2: DefaultRule)
    requires DefaultRuleIndex(d1) == DefaultRuleIndex(d2)
    ensures d1 == d2
  {
    assert DefaultRuleOf(DefaultRuleIndex(d1)) == d1;
  }

  /** The VF a default rule belongs to, if any. */
  function DefaultRuleVf(d: DefaultRule): Option<nat>
  {
    match d
    case DfltVf(vf) => Some(vf)
    case DfltVfRep(vf) => Some(vf)
    case _ => None
  }

  /** The table has a slot for every rule of VFs 0 to 254, and for no rule
      of a later VF. */
  lemma DefaultRuleInBounds(d: DefaultRule)
    ensures (DefaultRuleIndex(d) < EFX_TC_DFLT__MAX)
              <==> (DefaultRuleVf(d).None? || DefaultRuleVf(d).value <= 254)
    ensures DefaultRuleIndex(DfltVf(255)) == EFX_TC_DFLT__MAX
  {
  }

  // ----- rule priorities -----

  /** The two priorities the driver installs action rules at. */
  datatype RulePrio = PrioTc | PrioDflt

  const EFX_TC_PRIO__NUM: nat := 2

  function PrioValue(p: RulePrio): (n: bv32)
    ensures (n as nat) < EFX_TC_PRIO__NUM
  {
    match p
    case PrioTc => 0
    case PrioDflt => 1
  }

  /** A rule installed in the MAE: its priority and its id. */
  datatype InstalledRule = InstalledRule(prio: nat, id: bv32)

  /** Of the installed rules whose match the packet satisfies, the one that
      acts on it: one with the lowest priority value (lower values take priority).  Among rules of
      equal priority the MAE's choice is unspecified; this picks the first. */
  function Chosen(matching: seq<InstalledRule>): (r: Option<InstalledRule>)
    ensures r.None? <==> matching == []
    ensures r.Some? ==> r.value in matching
    ensures r.Some? ==> forall k :: 0 <= k < |matching| ==> r.value.prio <= matching[k].prio
  {
    if matching == [] then None
    else
      var rest := Chosen(matching[1..]);
      if rest.None? || matching[0].prio <= rest.value.prio then Some(matching[0])
      else rest
  }

  /** When a TC rule and a default rule both match, a TC rule acts. */
  lemma TcRulesOverrideDefaults(matching: seq<InstalledRule>)
    requires forall k :: 0 <= k < |matching| ==>
               matching[k].prio == PrioValue(PrioTc) as nat || matching[k].prio == PrioValue(PrioDflt) as nat
    requires exists k :: 0 <= k < |matching| && matching[k].prio == PrioValue(PrioTc) as nat
    ensures Chosen(matching).Some? && Chosen(matching).value.prio == PrioValue(PrioTc) as nat
  {
    var k :| 0 <= k < |matching| && matching[k].prio == PrioValue(PrioTc) as nat;
    assert Chosen(matching).value.prio <= matching[k].prio;
  }

  /** A NIC offering at least EFX_TC_PRIO__NUM action priorities accepts
      both of the driver's. */
  lemma DriverPriosAllowed(c: Capabilities.Capabilities, p: RulePrio)
    requires c.actionPrios as nat >= EFX_TC_PRIO__NUM
    ensures Capabilities.ActionPrioAllowed(c, PrioValue(p))
  {
  }
}
