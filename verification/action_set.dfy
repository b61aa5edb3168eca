/**
 * MC_CMD_MAE_ACTION_SET_ALLOC: the request that describes one action set —
 * VLAN pops and pushes, decapsulation, mark and flag, NAT, an optional pedit,
 * an optional encap header, the m-port to deliver to, and the counter the
 * packets count against.
 */
module ActionSet {
  import opened Bytes
  import opened Wrappers
  import Mport
  import Pool

  const MC_CMD_MAE_ACTION_SET_ALLOC_IN_LEN: nat := 36
  const MC_CMD_MAE_ACTION_SET_ALLOC_OUT_LEN: nat := 4

  /** Bits of the FLAGS word the header defines: VLAN_PUSH (0-1), VLAN_POP
      (4-5), DECAP (8), MARK (9), FLAG (10) and DO_NAT (11). */
  const ACTION_FLAGS_DEFINED: bv32 := 0xf33

  datatype ActionFlags = ActionFlags(vlanPush: bv2, vlanPop: bv2, decap: bool,
                                     mark: bool, flag: bool, doNat: bool)

  function DecodeActionFlags(w: bv32): ActionFlags
  {
    ActionFlags((w & 0x3) as bv2, ((w >> 4) & 0x3) as bv2, w & 0x100 != 0,
                w & 0x200 != 0, w & 0x400 != 0, w & 0x800 != 0)
  }

  function BoolBit(b: bool, bit: bv32): bv32
  {
    if b then bit else 0
  }

  function EncodeActionFlags(f: ActionFlags): (w: bv32)
    ensures w & !ACTION_FLAGS_DEFINED == 0
    ensures DecodeActionFlags(w) == f
  {
    (f.vlanPush as bv32) | ((f.vlanPop as bv32) << 4)
    | BoolBit(f.decap, 0x100) | BoolBit(f.mark, 0x200)
    | BoolBit(f.flag, 0x400) | BoolBit(f.doNat, 0x800)
  }

  /** A flags word with no undefined bit set is exactly what its decoding
      encodes to. */
  lemma ActionFlagsReencode(w: bv32)
    requires w & !ACTION_FLAGS_DEFINED == 0
    ensures EncodeActionFlags(DecodeActionFlags(w)) == w
  {
  }

  // ----- the request -----

  datatype ActionSetAlloc = ActionSetAlloc(
    flags: ActionFlags,
    vlan0TciBe: bv16, vlan0ProtoBe: bv16, vlan1TciBe: bv16, vlan1ProtoBe: bv16,
    peditId: bv32, encapHeaderId: bv32, deliver: bv32,
    counterListId: bv32, counterId: bv32, markValue: bv32)

  /** At most one of COUNTER_LIST_ID and COUNTER_ID names a counter. */
  predicate CountersExclusive(m: ActionSetAlloc)
  {
    m.counterListId == Pool.MAE_ID_NULL || m.counterId == Pool.MAE_ID_NULL
  }

  /** The request as nine words: FLAGS at 0, the VLAN0 TCI/PROTO pair at 4,
      the VLAN1 pair at 8, PEDIT_ID at 12, ENCAP_HEADER_ID at 16, DELIVER at
      20, COUNTER_LIST_ID at 24, COUNTER_ID at 28 and MARK_VALUE at 32. */
  function ActionSetWords(m: ActionSetAlloc): (ws: seq<bv32>)
    ensures 4 * |ws| == MC_CMD_MAE_ACTION_SET_ALLOC_IN_LEN
  {
    [EncodeActionFlags(m.flags),
     PackBe16Pair(m.vlan0TciBe, m.vlan0ProtoBe), PackBe16Pair(m.vlan1TciBe, m.vlan1ProtoBe),
     m.peditId, m.encapHeaderId, m.deliver, m.counterListId, m.counterId, m.markValue]
  }

  function ActionSetFromWords(ws: seq<bv32>): ActionSetAlloc
    requires 4 * |ws| == MC_CMD_MAE_ACTION_SET_ALLOC_IN_LEN
  {
    var (tci0, proto0) := UnpackBe16Pair(ws[1]);
    var (tci1, proto1) := UnpackBe16Pair(ws[2]);
    ActionSetAlloc(DecodeActionFlags(ws[0]), tci0, proto0, tci1, proto1,
                   ws[3], ws[4], ws[5], ws[6], ws[7], ws[8])
  }

  lemma ActionSetWordsRoundTrip(m: ActionSetAlloc)
    ensures ActionSetFromWords(ActionSetWords(m)) == m
  {
    Be16PairRoundTrip(m.vlan0TciBe, m.vlan0ProtoBe);
    Be16PairRoundTrip(m.vlan1TciBe, m.vlan1ProtoBe);
  }

  /** The request; supplying both a counter list and a single counter is
      refused. */
  function EncodeActionSetAlloc(m: ActionSetAlloc): (r: Result<seq<byte>>)
    ensures r.Success? <==> CountersExclusive(m)
    ensures r.Failure? ==> r.error == InvalidArgument
    ensures r.Success? ==>
              |r.value| == MC_CMD_MAE_ACTION_SET_ALLOC_IN_LEN
              && DecodeActionSetAlloc(r.value) == Success(m)
  {
    if !CountersExclusive(m) then Failure(InvalidArgument)
    else
      var ws := ActionSetWords(m);
      WordsRoundTrip(ws);
      ActionSetWordsRoundTrip(m);
      Success(EncodeWords(ws))
  }

  /** The firmware's reading of the request: each field from the offset the
      header gives it, refusing a request that names two counters. */
  function DecodeActionSetAlloc(s: seq<byte>): (r: Result<ActionSetAlloc>)
    ensures |s| != MC_CMD_MAE_ACTION_SET_ALLOC_IN_LEN ==> r == Failure(MalformedMessage)
    ensures |s| == MC_CMD_MAE_ACTION_SET_ALLOC_IN_LEN && r.Failure? ==> r.error == InvalidArgument
    ensures r.Success? ==> CountersExclusive(r.value)
    ensures r.Success? ==>
              r.value.flags == DecodeActionFlags(DecodeLe32(s[0..4]))
              && r.value.vlan0TciBe == DecodeBe16(s[4..6])
              && r.value.vlan0ProtoBe == DecodeBe16(s[6..8])
              && r.value.vlan1TciBe == DecodeBe16(s[8..10])
              && r.value.vlan1ProtoBe == DecodeBe16(s[10..12])
              && r.value.peditId == DecodeLe32(s[12..16])
              && r.value.encapHeaderId == DecodeLe32(s[16..20])
              && r.value.deliver == DecodeLe32(s[20..24])
              && r.value.counterListId == DecodeLe32(s[24..28])
              && r.value.counterId == DecodeLe32(s[28..32])
              && r.value.markValue == DecodeLe32(s[32..36])
  {
    if |s| != MC_CMD_MAE_ACTION_SET_ALLOC_IN_LEN then Failure(MalformedMessage)
    else
      ActionSetFieldsAt(s);
      var m := ActionSetFromWords(DecodeWords(s));
      if !CountersExclusive(m) then Failure(InvalidArgument) else Success(m)
  }

  lemma ActionSetFieldsAt(s: seq<byte>)
    requires |s| == MC_CMD_MAE_ACTION_SET_ALLOC_IN_LEN
    ensures var m := ActionSetFromWords(DecodeWords(s));
            m.flags == DecodeActionFlags(DecodeLe32(s[0..4]))
            && m.vlan0TciBe == DecodeBe16(s[4..6]) && m.vlan0ProtoBe == DecodeBe16(s[6..8])
            && m.vlan1TciBe == DecodeBe16(s[8..10]) && m.vlan1ProtoBe == DecodeBe16(s[10..12])
            && m.peditId == DecodeLe32(s[12..16]) && m.encapHeaderId == DecodeLe32(s[16..20])
            && m.deliver == DecodeLe32(s[20..24]) && m.counterListId == DecodeLe32(s[24..28])
            && m.counterId == DecodeLe32(s[28..32]) && m.markValue == DecodeLe32(s[32..36])
  {
    ActionSetWordsAt(s);
    VlanPairsAt(s);
  }

  lemma ActionSetWordsAt(s: seq<byte>)
    requires |s| == MC_CMD_MAE_ACTION_SET_ALLOC_IN_LEN
    ensures var ws := DecodeWords(s);
            ws[0] == DecodeLe32(s[0..4]) && ws[1] == DecodeLe32(s[4..8])
            && ws[2] == DecodeLe32(s[8..12]) && ws[3] == DecodeLe32(s[12..16])
            && ws[4] == DecodeLe32(s[16..20]) && ws[5] == DecodeLe32(s[20..24])
            && ws[6] == DecodeLe32(s[24..28]) && ws[7] == DecodeLe32(s[28..32])
            && ws[8] == DecodeLe32(s[32..36])
  {
    WordAt(s, 0);
    WordAt(s, 1);
    WordAt(s, 2);
    WordAt(s, 3);
    WordAt(s, 4);
    WordAt(s, 5);
    WordAt(s, 6);
    WordAt(s, 7);
    WordAt(s, 8);
  }

  lemma VlanPairsAt(s: seq<byte>)
    requires |s| == MC_CMD_MAE_ACTION_SET_ALLOC_IN_LEN
    ensures UnpackBe16Pair(DecodeLe32(s[4..8])) == (DecodeBe16(s[4..6]), DecodeBe16(s[6..8]))
    ensures UnpackBe16Pair(DecodeLe32(s[8..12])) == (DecodeBe16(s[8..10]), DecodeBe16(s[10..12]))
  {
    Be16PairAt(s[4..8]);
    assert s[4..8][0..2] == s[4..6] && s[4..8][2..4] == s[6..8];
    Be16PairAt(s[8..12]);
    assert s[8..12][0..2] == s[8..10] && s[8..12][2..4] == s[10..12];
  }

  /** A request the firmware accepts, with no undefined flag bit set,
      re-encodes to itself. */
  lemma ActionSetReencode(s: seq<byte>)
    requires DecodeActionSetAlloc(s).Success?
    requires DecodeLe32(s[0..4]) & !ACTION_FLAGS_DEFINED == 0
    ensures EncodeActionSetAlloc(DecodeActionSetAlloc(s).value) == Success(s)
  {
    var ws := DecodeWords(s);
    var m := DecodeActionSetAlloc(s).value;
    WordAt(s, 0);
    ActionFlagsReencode(ws[0]);
    Be16PairReencode(ws[1]);
    Be16PairReencode(ws[2]);
    assert ActionSetWords(m) == ws;
    WordsReencode(s);
  }

  // ----- what the request asks for -----

  /** The VLAN tags the action pushes, outermost first: VLAN0 when
      VLAN_PUSH is at least 1 and VLAN1 as well when it is exactly 2.  The
      header gives VLAN_PUSH 3 no meaning, so that request pushes no defined
      tags (None). */
  function PushedTags(m: ActionSetAlloc): (r: Option<seq<(bv16, bv16)>>)
    ensures r.None? <==> m.flags.vlanPush == 3
    ensures r.Some? ==> |r.value| == m.flags.vlanPush as nat
    ensures r.Some? && |r.value| >= 1 ==> r.value[0] == (m.vlan0TciBe, m.vlan0ProtoBe)
    ensures r.Some? && |r.value| == 2 ==> r.value[1] == (m.vlan1TciBe, m.vlan1ProtoBe)
  {
    if m.flags.vlanPush == 0 then Some([])
    else if m.flags.vlanPush == 1 then Some([(m.vlan0TciBe, m.vlan0ProtoBe)])
    else if m.flags.vlanPush == 2 then
      Some([(m.vlan0TciBe, m.vlan0ProtoBe), (m.vlan1TciBe, m.vlan1ProtoBe)])
    else None
  }

  /** The m-port the packet goes to, or None for no delivery. */
  function DeliverTo(m: ActionSetAlloc): (r: Option<Mport.Selector>)
    ensures r.None? <==> m.deliver == Mport.MAE_MPORT_SELECTOR_NULL
    ensures r.Some? ==> Mport.EncodeSelector(r.value) == m.deliver
  {
    if m.deliver == Mport.MAE_MPORT_SELECTOR_NULL then None
    else
      Mport.SelectorEncodeDecode(m.deliver);
      Some(Mport.DecodeSelector(m.deliver))
  }

  /** The counter the action counts against: a counter list, a single
      counter, or none. */
  datatype CounterRef = NoCounter | CounterList(listId: bv32) | SingleCounter(counterId: bv32)

  function CounterOf(m: ActionSetAlloc): (c: CounterRef)
    requires CountersExclusive(m)
    ensures c.NoCounter? <==> m.counterListId == Pool.MAE_ID_NULL && m.counterId == Pool.MAE_ID_NULL
    ensures c.CounterList? ==> c.listId == m.counterListId && m.counterId == Pool.MAE_ID_NULL
    ensures c.SingleCounter? ==> c.counterId == m.counterId && m.counterListId == Pool.MAE_ID_NULL
  {
    if m.counterListId != Pool.MAE_ID_NULL then CounterList(m.counterListId)
    else if m.counterId != Pool.MAE_ID_NULL then SingleCounter(m.counterId)
    else NoCounter
  }

  /** Every decoded request names at most one counter. */
  lemma DecodedCountersExclusive(s: seq<byte>)
    requires DecodeActionSetAlloc(s).Success?
    ensures var m := DecodeActionSetAlloc(s).value;
            !(m.counterListId != Pool.MAE_ID_NULL && m.counterId != Pool.MAE_ID_NULL)
  {
  }
}
