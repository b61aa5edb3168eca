/**
 * The mask/value-pair blocks that carry match criteria.
 *
 * Every match field occupies a value region followed by a mask region of the
 * same width.  MAE_ENC_FIELD_MASK_VALUE_PAIRS (156 bytes) carries the outer
 * header fields an outer rule matches on; MAE_FIELD_MASK_VALUE_PAIRS (344
 * bytes) carries an action rule's criteria; MAE_FIELD_MASK_VALUE_PAIRS_V2
 * (372 bytes) keeps the first 344 bytes unchanged and appends the
 * connection-tracking fields.  A block is modelled as one FieldPair per slot
 * of its layout table, the tables holding the header's offsets verbatim.
 */
module MatchPairs {
  import opened Bytes
  import opened Layout
  import opened Wrappers
  import opened FieldSupport

  // ----- MAE_FIELD identifiers -----

  const MAE_FIELD_INGRESS_PORT: nat := 0x0
  const MAE_FIELD_MARK: nat := 0x1
  const MAE_FIELD_RECIRC_ID: nat := 0x2
  const MAE_FIELD_IS_IP_FRAG: nat := 0x3
  const MAE_FIELD_DO_CT: nat := 0x4
  const MAE_FIELD_CT_HIT: nat := 0x5
  const MAE_FIELD_CT_MARK: nat := 0x6
  const MAE_FIELD_CT_DOMAIN: nat := 0x7
  const MAE_FIELD_CT_PRIVATE_FLAGS: nat := 0x8
  const MAE_FIELD_ETHER_TYPE: nat := 0x21
  const MAE_FIELD_VLAN0_TCI: nat := 0x22
  const MAE_FIELD_VLAN0_PROTO: nat := 0x23
  const MAE_FIELD_VLAN1_TCI: nat := 0x24
  const MAE_FIELD_VLAN1_PROTO: nat := 0x25
  const MAE_FIELD_ETH_SADDR: nat := 0x28
  const MAE_FIELD_ETH_DADDR: nat := 0x29
  const MAE_FIELD_SRC_IP4: nat := 0x2a
  const MAE_FIELD_SRC_IP6: nat := 0x2b
  const MAE_FIELD_DST_IP4: nat := 0x2c
  const MAE_FIELD_DST_IP6: nat := 0x2d
  const MAE_FIELD_IP_PROTO: nat := 0x2e
  const MAE_FIELD_IP_TOS: nat := 0x2f
  const MAE_FIELD_IP_TTL: nat := 0x30
  const MAE_FIELD_IP_FLAGS: nat := 0x31
  const MAE_FIELD_L4_SPORT: nat := 0x32
  const MAE_FIELD_L4_DPORT: nat := 0x33
  const MAE_FIELD_TCP_FLAGS: nat := 0x34
  const MAE_FIELD_ENCAP_TYPE: nat := 0x3f
  const MAE_FIELD_ENCAP_RULE_ID: nat := 0x40
  const MAE_FIELD_OUTER_RULE_ID: nat := 0x40
  const MAE_FIELD_ENC_ETHER_TYPE: nat := 0x41
  const MAE_FIELD_ENC_VLAN0_TCI: nat := 0x42
  const MAE_FIELD_ENC_VLAN0_PROTO: nat := 0x43
  const MAE_FIELD_ENC_VLAN1_TCI: nat := 0x44
  const MAE_FIELD_ENC_VLAN1_PROTO: nat := 0x45
  const MAE_FIELD_ENC_ETH_SADDR: nat := 0x48
  const MAE_FIELD_ENC_ETH_DADDR: nat := 0x49
  const MAE_FIELD_ENC_SRC_IP4: nat := 0x4a
  const MAE_FIELD_ENC_SRC_IP6: nat := 0x4b
  const MAE_FIELD_ENC_DST_IP4: nat := 0x4c
  const MAE_FIELD_ENC_DST_IP6: nat := 0x4d
  const MAE_FIELD_ENC_IP_PROTO: nat := 0x4e
  const MAE_FIELD_ENC_IP_TOS: nat := 0x4f
  const MAE_FIELD_ENC_IP_TTL: nat := 0x50
  const MAE_FIELD_ENC_IP_FLAGS: nat := 0x51
  const MAE_FIELD_ENC_L4_SPORT: nat := 0x52
  const MAE_FIELD_ENC_L4_DPORT: nat := 0x53
  const MAE_FIELD_ENC_VNET_ID: nat := 0x54

  /** What a slot holds: one match field, or the V2 FLAGS word whose bits 0,
      1 and 2 are the one-bit fields IS_IP_FRAG, DO_CT and CT_HIT. */
  datatype SlotField = Field(id: nat) | FlagWord

  /** A field's place in a block: value at ofst, mask at maskOfst, both
      width bytes; bigEndian for the network-order _BE fields. */
  datatype Slot = Slot(field: SlotField, ofst: nat, maskOfst: nat, width: nat, bigEndian: bool)

  datatype FieldPair = FieldPair(value: seq<byte>, mask: seq<byte>)

  const ENC_FIELD_MASK_VALUE_PAIRS_LEN: nat := 156
  const FIELD_MASK_VALUE_PAIRS_LEN: nat := 344
  const FIELD_MASK_VALUE_PAIRS_V2_LEN: nat := 372

  /** MAE_ENC_FIELD_MASK_VALUE_PAIRS, in wire order. */
  function EncSlot(k: int): Slot
  {
    match k
    case 0 => Slot(Field(MAE_FIELD_INGRESS_PORT), 0, 4, 4, false)  // INGRESS_MPORT_SELECTOR
    case 1 => Slot(Field(MAE_FIELD_ENC_ETHER_TYPE), 8, 10, 2, true)  // ENC_ETHER_TYPE_BE
    case 2 => Slot(Field(MAE_FIELD_ENC_VLAN0_TCI), 12, 14, 2, true)  // ENC_VLAN0_TCI_BE
    case 3 => Slot(Field(MAE_FIELD_ENC_VLAN0_PROTO), 16, 18, 2, true)  // ENC_VLAN0_PROTO_BE
    case 4 => Slot(Field(MAE_FIELD_ENC_VLAN1_TCI), 20, 22, 2, true)  // ENC_VLAN1_TCI_BE
    case 5 => Slot(Field(MAE_FIELD_ENC_VLAN1_PROTO), 24, 26, 2, true)  // ENC_VLAN1_PROTO_BE
    case 6 => Slot(Field(MAE_FIELD_ENC_ETH_SADDR), 28, 34, 6, true)  // ENC_ETH_SADDR_BE
    case 7 => Slot(Field(MAE_FIELD_ENC_ETH_DADDR), 40, 46, 6, true)  // ENC_ETH_DADDR_BE
    case 8 => Slot(Field(MAE_FIELD_ENC_SRC_IP4), 52, 56, 4, true)  // ENC_SRC_IP4_BE
    case 9 => Slot(Field(MAE_FIELD_ENC_SRC_IP6), 60, 76, 16, true)  // ENC_SRC_IP6_BE
    case 10 => Slot(Field(MAE_FIELD_ENC_DST_IP4), 92, 96, 4, true)  // ENC_DST_IP4_BE
    case 11 => Slot(Field(MAE_FIELD_ENC_DST_IP6), 100, 116, 16, true)  // ENC_DST_IP6_BE
    case 12 => Slot(Field(MAE_FIELD_ENC_IP_PROTO), 132, 133, 1, false)  // ENC_IP_PROTO
    case 13 => Slot(Field(MAE_FIELD_ENC_IP_TOS), 134, 135, 1, false)  // ENC_IP_TOS
    case 14 => Slot(Field(MAE_FIELD_ENC_IP_TTL), 136, 137, 1, false)  // ENC_IP_TTL
    case 15 => Slot(Field(MAE_FIELD_ENC_IP_FLAGS), 140, 144, 4, true)  // ENC_IP_FLAGS_BE
    case 16 => Slot(Field(MAE_FIELD_ENC_L4_SPORT), 148, 150, 2, true)  // ENC_L4_SPORT_BE
    case 17 => Slot(Field(MAE_FIELD_ENC_L4_DPORT), 152, 154, 2, true)  // ENC_L4_DPORT_BE
    case _ => Slot(Field(MAE_FIELD_INGRESS_PORT), 0, 0, 0, false)
  }

  /** MAE_FIELD_MASK_VALUE_PAIRS, in wire order.  ENCAP_RULE_ID and OUTER_RULE_ID are two names for the slot at 176. */
  function BaseSlot(k: int): Slot
  {
    match k
    case 0 => Slot(Field(MAE_FIELD_INGRESS_PORT), 0, 4, 4, false)  // INGRESS_MPORT_SELECTOR
    case 1 => Slot(Field(MAE_FIELD_MARK), 8, 12, 4, false)  // MARK
    case 2 => Slot(Field(MAE_FIELD_ETHER_TYPE), 16, 18, 2, true)  // ETHER_TYPE_BE
    case 3 => Slot(Field(MAE_FIELD_VLAN0_TCI), 20, 22, 2, true)  // VLAN0_TCI_BE
    case 4 => Slot(Field(MAE_FIELD_VLAN0_PROTO), 24, 26, 2, true)  // VLAN0_PROTO_BE
    case 5 => Slot(Field(MAE_FIELD_VLAN1_TCI), 28, 30, 2, true)  // VLAN1_TCI_BE
    case 6 => Slot(Field(MAE_FIELD_VLAN1_PROTO), 32, 34, 2, true)  // VLAN1_PROTO_BE
    case 7 => Slot(Field(MAE_FIELD_ETH_SADDR), 36, 42, 6, true)  // ETH_SADDR_BE
    case 8 => Slot(Field(MAE_FIELD_ETH_DADDR), 48, 54, 6, true)  // ETH_DADDR_BE
    case 9 => Slot(Field(MAE_FIELD_SRC_IP4), 60, 64, 4, true)  // SRC_IP4_BE
    case 10 => Slot(Field(MAE_FIELD_SRC_IP6), 68, 84, 16, true)  // SRC_IP6_BE
    case 11 => Slot(Field(MAE_FIELD_DST_IP4), 100, 104, 4, true)  // DST_IP4_BE
    case 12 => Slot(Field(MAE_FIELD_DST_IP6), 108, 124, 16, true)  // DST_IP6_BE
    case 13 => Slot(Field(MAE_FIELD_IP_PROTO), 140, 141, 1, false)  // IP_PROTO
    case 14 => Slot(Field(MAE_FIELD_IP_TOS), 142, 143, 1, false)  // IP_TOS
    case 15 => Slot(Field(MAE_FIELD_IP_TTL), 144, 145, 1, false)  // IP_TTL
    case 16 => Slot(Field(MAE_FIELD_IP_FLAGS), 148, 152, 4, true)  // IP_FLAGS_BE
    case 17 => Slot(Field(MAE_FIELD_L4_SPORT), 156, 158, 2, true)  // L4_SPORT_BE
    case 18 => Slot(Field(MAE_FIELD_L4_DPORT), 160, 162, 2, true)  // L4_DPORT_BE
    case 19 => Slot(Field(MAE_FIELD_TCP_FLAGS), 164, 166, 2, true)  // TCP_FLAGS_BE
    case 20 => Slot(Field(MAE_FIELD_ENCAP_TYPE), 168, 172, 4, false)  // ENCAP_TYPE_ID
    case 21 => Slot(Field(MAE_FIELD_OUTER_RULE_ID), 176, 180, 4, false)  // OUTER_RULE_ID (alias ENCAP_RULE_ID)
    case 22 => Slot(Field(MAE_FIELD_ENC_ETHER_TYPE), 184, 188, 4, true)  // ENC_ETHER_TYPE_BE
    case 23 => Slot(Field(MAE_FIELD_ENC_VLAN0_TCI), 192, 194, 2, true)  // ENC_VLAN0_TCI_BE
    case 24 => Slot(Field(MAE_FIELD_ENC_VLAN0_PROTO), 196, 198, 2, true)  // ENC_VLAN0_PROTO_BE
    case 25 => Slot(Field(MAE_FIELD_ENC_VLAN1_TCI), 200, 202, 2, true)  // ENC_VLAN1_TCI_BE
    case 26 => Slot(Field(MAE_FIELD_ENC_VLAN1_PROTO), 204, 206, 2, true)  // ENC_VLAN1_PROTO_BE
    case 27 => Slot(Field(MAE_FIELD_ENC_ETH_SADDR), 208, 214, 6, true)  // ENC_ETH_SADDR_BE
    case 28 => Slot(Field(MAE_FIELD_ENC_ETH_DADDR), 220, 226, 6, true)  // ENC_ETH_DADDR_BE
    case 29 => Slot(Field(MAE_FIELD_ENC_SRC_IP4), 232, 236, 4, true)  // ENC_SRC_IP4_BE
    case 30 => Slot(Field(MAE_FIELD_ENC_SRC_IP6), 240, 256, 16, true)  // ENC_SRC_IP6_BE
    case 31 => Slot(Field(MAE_FIELD_ENC_DST_IP4), 272, 276, 4, true)  // ENC_DST_IP4_BE
    case 32 => Slot(Field(MAE_FIELD_ENC_DST_IP6), 280, 296, 16, true)  // ENC_DST_IP6_BE
    case 33 => Slot(Field(MAE_FIELD_ENC_IP_PROTO), 312, 313, 1, false)  // ENC_IP_PROTO
    case 34 => Slot(Field(MAE_FIELD_ENC_IP_TOS), 314, 315, 1, false)  // ENC_IP_TOS
    case 35 => Slot(Field(MAE_FIELD_ENC_IP_TTL), 316, 317, 1, false)  // ENC_IP_TTL
    case 36 => Slot(Field(MAE_FIELD_ENC_IP_FLAGS), 320, 324, 4, true)  // ENC_IP_FLAGS_BE
    case 37 => Slot(Field(MAE_FIELD_ENC_L4_SPORT), 328, 330, 2, true)  // ENC_L4_SPORT_BE
    case 38 => Slot(Field(MAE_FIELD_ENC_L4_DPORT), 332, 334, 2, true)  // ENC_L4_DPORT_BE
    case 39 => Slot(Field(MAE_FIELD_ENC_VNET_ID), 336, 340, 4, true)  // ENC_VNET_ID_BE
    case _ => Slot(Field(MAE_FIELD_INGRESS_PORT), 0, 0, 0, false)
  }

  /** The slots MAE_FIELD_MASK_VALUE_PAIRS_V2 appends after byte 344. */
  function V2ExtraSlot(k: int): Slot
  {
    match k
    case 0 => Slot(FlagWord, 344, 348, 4, false)  // FLAGS (IS_IP_FRAG, DO_CT, CT_HIT)
    case 1 => Slot(Field(MAE_FIELD_CT_DOMAIN), 352, 354, 2, false)  // CT_DOMAIN
    case 2 => Slot(Field(MAE_FIELD_CT_MARK), 356, 360, 4, false)  // CT_MARK
    case 3 => Slot(Field(MAE_FIELD_CT_PRIVATE_FLAGS), 364, 366, 1, false)  // CT_PRIVATE_FLAGS (RSVD2 at 365, RSVD3 at 367)
    case 4 => Slot(Field(MAE_FIELD_RECIRC_ID), 368, 370, 2, false)  // RECIRC_ID
    case _ => Slot(Field(MAE_FIELD_INGRESS_PORT), 0, 0, 0, false)
  }

  function Table(n: nat, slotAt: int -> Slot): (t: seq<Slot>)
    ensures |t| == n && forall k :: 0 <= k < n ==> t[k] == slotAt(k)
  {
    seq(n, k => slotAt(k))
  }

  const ENC_SLOTS: seq<Slot> := Table(18, EncSlot)
  const BASE_SLOTS: seq<Slot> := Table(40, BaseSlot)
  const V2_EXTRA_SLOTS: seq<Slot> := Table(5, V2ExtraSlot)
  const V2_SLOTS: seq<Slot> := BASE_SLOTS + V2_EXTRA_SLOTS

  /** Index of the OUTER_RULE_ID (= ENCAP_RULE_ID) slot in the base layout. */
  const OUTER_RULE_ID_SLOT: nat := 21

  // ----- from slots to regions -----

  function ValueRegions(slots: seq<Slot>): (rs: seq<Region>)
    ensures |rs| == |slots|
  {
    seq(|slots|, k requires 0 <= k < |slots| => Region(slots[k].ofst, slots[k].width))
  }

  function MaskRegions(slots: seq<Slot>): (rs: seq<Region>)
    ensures |rs| == |slots|
  {
    seq(|slots|, k requires 0 <= k < |slots| => Region(slots[k].maskOfst, slots[k].width))
  }

  /** Every slot's value region, then every slot's mask region. */
  function Regions(slots: seq<Slot>): (rs: seq<Region>)
    ensures |rs| == 2 * |slots|
  {
    ValueRegions(slots) + MaskRegions(slots)
  }

  /** Value before mask, and each slot before the next; all inside total. */
  predicate SlotsInOrder(slots: seq<Slot>, total: nat)
  {
    (forall k :: 0 <= k < |slots| ==>
       slots[k].ofst + slots[k].width <= slots[k].maskOfst
       && slots[k].maskOfst + slots[k].width <= total)
    && (forall k :: 0 <= k < |slots| - 1 ==>
          slots[k].maskOfst + slots[k].width <= slots[k + 1].ofst)
  }

  /** In an ordered layout an earlier slot ends before a later one starts. */
  lemma {:induction false} EarlierSlotEndsFirst(slots: seq<Slot>, total: nat, a: nat, b: nat)
    requires SlotsInOrder(slots, total) && a < b < |slots|
    ensures slots[a].maskOfst + slots[a].width <= slots[b].ofst
    decreases b - a
  {
    if a + 1 < b {
      EarlierSlotEndsFirst(slots, total, a + 1, b);
    }
  }

  lemma SlotsInOrderRegions(slots: seq<Slot>, total: nat)
    requires SlotsInOrder(slots, total)
    ensures Disjoint(Regions(slots)) && Within(Regions(slots), total)
  {
    var rs, n := Regions(slots), |slots|;
    forall x, y | 0 <= x < y < |rs|
      ensures rs[x].End() <= rs[y].ofst || rs[y].End() <= rs[x].ofst
    {
      var a := if x < n then x else x - n;
      var b := if y < n then y else y - n;
      if a < b {
        EarlierSlotEndsFirst(slots, total, a, b);
      } else if b < a {
        EarlierSlotEndsFirst(slots, total, b, a);
      }
    }
  }

  /** Each pair has the width of its slot. */
  predicate PairsFit(slots: seq<Slot>, pairs: seq<FieldPair>)
  {
    |pairs| == |slots|
    && forall k :: 0 <= k < |slots| ==>
         |pairs[k].value| == slots[k].width && |pairs[k].mask| == slots[k].width
  }

  function Values(pairs: seq<FieldPair>): (vs: seq<seq<byte>>)
    ensures |vs| == |pairs|
  {
    seq(|pairs|, k requires 0 <= k < |pairs| => pairs[k].value)
  }

  function Masks(pairs: seq<FieldPair>): (ms: seq<seq<byte>>)
    ensures |ms| == |pairs|
  {
    seq(|pairs|, k requires 0 <= k < |pairs| => pairs[k].mask)
  }

  /** The images written into Regions: every value, then every mask. */
  function Parts(pairs: seq<FieldPair>): (parts: seq<seq<byte>>)
    ensures |parts| == 2 * |pairs|
  {
    Values(pairs) + Masks(pairs)
  }

  function PairsOf(parts: seq<seq<byte>>): (pairs: seq<FieldPair>)
    requires |parts| % 2 == 0
    ensures |pairs| == |parts| / 2
  {
    var n := |parts| / 2;
    seq(n, k requires 0 <= k < n => FieldPair(parts[k], parts[n + k]))
  }

  lemma PartsFit(slots: seq<Slot>, pairs: seq<FieldPair>)
    requires PairsFit(slots, pairs)
    ensures Fits(Regions(slots), Parts(pairs))
  {
    var rs, ps, n := Regions(slots), Parts(pairs), |slots|;
    forall j | 0 <= j < |rs| ensures |ps[j]| == rs[j].width {
      if j >= n {
        assert ps[j] == pairs[j - n].mask && rs[j].width == slots[j - n].width;
      }
    }
  }

  lemma PairsOfFit(slots: seq<Slot>, parts: seq<seq<byte>>)
    requires Fits(Regions(slots), parts)
    ensures PairsFit(slots, PairsOf(parts))
  {
    var rs, n := Regions(slots), |slots|;
    forall k | 0 <= k < n
      ensures |parts[k]| == slots[k].width && |parts[n + k]| == slots[k].width
    {
      assert rs[k].width == slots[k].width && rs[n + k].width == slots[k].width;
    }
  }

  lemma PairsOfParts(pairs: seq<FieldPair>)
    ensures PairsOf(Parts(pairs)) == pairs
  {
  }

  lemma PartsOfPairs(parts: seq<seq<byte>>)
    requires |parts| % 2 == 0
    ensures Parts(PairsOf(parts)) == parts
  {
  }

  // ----- encoding and decoding a block -----

  function EncodeBlock(slots: seq<Slot>, total: nat, pairs: seq<FieldPair>): (buf: seq<byte>)
    requires SlotsInOrder(slots, total) && PairsFit(slots, pairs)
    ensures |buf| == total
    ensures PaddingZero(Regions(slots), buf)
    ensures DecodeBlock(slots, total, buf) == Success(pairs)
  {
    PartsFit(slots, pairs);
    SlotsInOrderRegions(slots, total);
    var buf := Assemble(Regions(slots), Parts(pairs), total);
    AssemblePaddingZero(Regions(slots), Parts(pairs), total);
    DisassembleAssemble(Regions(slots), Parts(pairs), total);
    PairsOfParts(pairs);
    buf
  }

  /** A buffer of the wrong length is malformed; otherwise every slot's
      value and mask are read from their regions and padding is ignored. */
  function DecodeBlock(slots: seq<Slot>, total: nat, buf: seq<byte>): (r: Result<seq<FieldPair>>)
    requires SlotsInOrder(slots, total)
    ensures r.Success? <==> |buf| == total
    ensures r.Success? ==> PairsFit(slots, r.value)
  {
    if |buf| != total then Failure(MalformedMessage)
    else
      SlotsInOrderRegions(slots, total);
      var parts := Disassemble(Regions(slots), buf);
      PairsOfFit(slots, parts);
      Success(PairsOf(parts))
  }

  /** Decoding then encoding gives back the buffer exactly when its padding
      is zero. */
  lemma EncodeDecodeBlock(slots: seq<Slot>, total: nat, buf: seq<byte>)
    requires SlotsInOrder(slots, total) && |buf| == total
    ensures DecodeBlock(slots, total, buf).Success?
    ensures (EncodeBlock(slots, total, DecodeBlock(slots, total, buf).value) == buf)
            <==> PaddingZero(Regions(slots), buf)
  {
    SlotsInOrderRegions(slots, total);
    var parts := Disassemble(Regions(slots), buf);
    if PaddingZero(Regions(slots), buf) {
      AssembleDisassemble(Regions(slots), buf);
      PartsOfPairs(parts);
    }
  }

  // ----- the three concrete layouts -----

  lemma EncLayoutInOrder()
    ensures SlotsInOrder(ENC_SLOTS, ENC_FIELD_MASK_VALUE_PAIRS_LEN)
  {
  }

  lemma BaseLayoutInOrder()
    ensures SlotsInOrder(BASE_SLOTS, FIELD_MASK_VALUE_PAIRS_LEN)
  {
    BaseSlotsLow();
    BaseSlotsHigh();
    assert BaseSlot(20).maskOfst + BaseSlot(20).width <= BaseSlot(21).ofst;
  }

  /** A slot's value comes before its mask, and both end within total. */
  predicate SlotPlaced(slot: Slot, total: nat)
  {
    slot.ofst + slot.width <= slot.maskOfst && slot.maskOfst + slot.width <= total
  }

  /** The base layout checked slot by slot, in two halves. */
  lemma BaseSlotsLow()
    ensures forall k :: 0 <= k < 21 ==> SlotPlaced(BaseSlot(k), FIELD_MASK_VALUE_PAIRS_LEN)
    ensures forall k :: 0 <= k < 20 ==> BaseSlot(k).maskOfst + BaseSlot(k).width <= BaseSlot(k + 1).ofst
  {
  }

  lemma BaseSlotsHigh()
    ensures forall k :: 21 <= k < 40 ==> SlotPlaced(BaseSlot(k), FIELD_MASK_VALUE_PAIRS_LEN)
    ensures forall k :: 21 <= k < 39 ==> BaseSlot(k).maskOfst + BaseSlot(k).width <= BaseSlot(k + 1).ofst
  {
  }

  lemma V2ExtraAfterBase()
    ensures forall k :: 0 <= k < |V2_EXTRA_SLOTS| ==> FIELD_MASK_VALUE_PAIRS_LEN <= V2_EXTRA_SLOTS[k].ofst
    ensures SlotsInOrder(V2_EXTRA_SLOTS, FIELD_MASK_VALUE_PAIRS_V2_LEN)
  {
  }

  lemma V2LayoutInOrder()
    ensures SlotsInOrder(V2_SLOTS, FIELD_MASK_VALUE_PAIRS_V2_LEN)
  {
    BaseLayoutInOrder();
    V2ExtraAfterBase();
    var s := V2_SLOTS;
    assert s[39] == BASE_SLOTS[39] && s[40] == V2_EXTRA_SLOTS[0];
  }

  // ----- match criteria as carried by rule insertion requests -----

  /** Match criteria in the base layout or in the V2 layout; which one a
      request carries is told by its length. */
  datatype Criteria = BaseCriteria(pairs: seq<FieldPair>) | V2Criteria(pairs: seq<FieldPair>)

  function CriteriaSlots(c: Criteria): seq<Slot>
  {
    if c.BaseCriteria? then BASE_SLOTS else V2_SLOTS
  }

  function CriteriaLen(c: Criteria): nat
  {
    if c.BaseCriteria? then FIELD_MASK_VALUE_PAIRS_LEN else FIELD_MASK_VALUE_PAIRS_V2_LEN
  }

  predicate CriteriaFit(c: Criteria)
  {
    PairsFit(CriteriaSlots(c), c.pairs)
  }

  function EncodeCriteria(c: Criteria): (buf: seq<byte>)
    requires CriteriaFit(c)
    ensures |buf| == CriteriaLen(c)
    ensures DecodeCriteria(buf) == Success(c)
  {
    BaseLayoutInOrder();
    V2LayoutInOrder();
    EncodeBlock(CriteriaSlots(c), CriteriaLen(c), c.pairs)
  }

  /** A 344-byte block is read with the base layout, a 372-byte block with
      the V2 layout; any other length is malformed. */
  function DecodeCriteria(buf: seq<byte>): (r: Result<Criteria>)
    ensures r.Success? <==> |buf| == FIELD_MASK_VALUE_PAIRS_LEN || |buf| == FIELD_MASK_VALUE_PAIRS_V2_LEN
    ensures r.Success? ==> CriteriaFit(r.value) && CriteriaLen(r.value) == |buf|
  {
    BaseLayoutInOrder();
    V2LayoutInOrder();
    if |buf| == FIELD_MASK_VALUE_PAIRS_LEN then
      Success(BaseCriteria(DecodeBlock(BASE_SLOTS, FIELD_MASK_VALUE_PAIRS_LEN, buf).value))
    else if |buf| == FIELD_MASK_VALUE_PAIRS_V2_LEN then
      Success(V2Criteria(DecodeBlock(V2_SLOTS, FIELD_MASK_VALUE_PAIRS_V2_LEN, buf).value))
    else
      Failure(MalformedMessage)
  }

  /** The V2 layout extends the base one: the first 344 bytes of a V2 block
      decode, with the base layout, to the V2 block's first 40 fields. */
  lemma V2ExtendsBase(buf: seq<byte>)
    requires |buf| == FIELD_MASK_VALUE_PAIRS_V2_LEN
    ensures DecodeCriteria(buf).Success? && DecodeCriteria(buf[..FIELD_MASK_VALUE_PAIRS_LEN]).Success?
    ensures DecodeCriteria(buf[..FIELD_MASK_VALUE_PAIRS_LEN]).value
              == BaseCriteria(DecodeCriteria(buf).value.pairs[..|BASE_SLOTS|])
  {
    BaseLayoutInOrder();
    V2LayoutInOrder();
    var front := buf[..FIELD_MASK_VALUE_PAIRS_LEN];
    var v2 := DecodeBlock(V2_SLOTS, FIELD_MASK_VALUE_PAIRS_V2_LEN, buf).value;
    var base := DecodeBlock(BASE_SLOTS, FIELD_MASK_VALUE_PAIRS_LEN, front).value;
    forall k | 0 <= k < |BASE_SLOTS| ensures base[k] == v2[k] {
      V2PairIsBasePair(buf, k);
    }
    assert base == v2[..|BASE_SLOTS|];
  }

  /** Pair k < 40 reads the same bytes in both layouts. */
  lemma V2PairIsBasePair(buf: seq<byte>, k: nat)
    requires SlotsInOrder(BASE_SLOTS, FIELD_MASK_VALUE_PAIRS_LEN)
    requires SlotsInOrder(V2_SLOTS, FIELD_MASK_VALUE_PAIRS_V2_LEN)
    requires |buf| == FIELD_MASK_VALUE_PAIRS_V2_LEN && k < |BASE_SLOTS|
    ensures DecodeBlock(BASE_SLOTS, FIELD_MASK_VALUE_PAIRS_LEN, buf[..FIELD_MASK_VALUE_PAIRS_LEN]).value[k]
              == DecodeBlock(V2_SLOTS, FIELD_MASK_VALUE_PAIRS_V2_LEN, buf).value[k]
  {
    var sl := BASE_SLOTS[k];
    assert V2_SLOTS[k] == sl;
    DecodedPairAt(BASE_SLOTS, FIELD_MASK_VALUE_PAIRS_LEN, buf[..FIELD_MASK_VALUE_PAIRS_LEN], k);
    DecodedPairAt(V2_SLOTS, FIELD_MASK_VALUE_PAIRS_V2_LEN, buf, k);
    PrefixSlice(buf, FIELD_MASK_VALUE_PAIRS_LEN, sl.ofst, sl.ofst + sl.width);
    PrefixSlice(buf, FIELD_MASK_VALUE_PAIRS_LEN, sl.maskOfst, sl.maskOfst + sl.width);
  }

  lemma PrefixSlice(buf: seq<byte>, p: nat, a: nat, b: nat)
    requires a <= b <= p <= |buf|
    ensures buf[..p][a..b] == buf[a..b]
  {
  }

  /** Pair k of a decoded block is the value and mask bytes at slot k. */
  lemma DecodedPairAt(slots: seq<Slot>, total: nat, buf: seq<byte>, k: nat)
    requires SlotsInOrder(slots, total) && |buf| == total && k < |slots|
    ensures slots[k].maskOfst + slots[k].width <= total
    ensures DecodeBlock(slots, total, buf).value[k]
              == FieldPair(buf[slots[k].ofst..slots[k].ofst + slots[k].width],
                           buf[slots[k].maskOfst..slots[k].maskOfst + slots[k].width])
  {
    var n, rs := |slots|, Regions(slots);
    SlotsInOrderRegions(slots, total);
    var parts := Disassemble(rs, buf);
    assert DecodeBlock(slots, total, buf).value == PairsOf(parts);
    assert PairsOf(parts)[k] == FieldPair(parts[k], parts[n + k]);
    assert rs[k] == ValueRegions(slots)[k];
    assert rs[n + k] == MaskRegions(slots)[k];
    assert parts[k] == buf[rs[k].ofst..rs[k].End()];
    assert parts[n + k] == buf[rs[n + k].ofst..rs[n + k].End()];
  }

  /** Encoding a V2 block writes the base encoding of its first 40 fields
      into its first 344 bytes. */
  lemma V2EncodingKeepsBasePrefix(base: seq<FieldPair>, ext: seq<FieldPair>)
    requires PairsFit(BASE_SLOTS, base) && PairsFit(V2_EXTRA_SLOTS, ext)
    ensures CriteriaFit(V2Criteria(base + ext))
    ensures EncodeCriteria(V2Criteria(base + ext))[..FIELD_MASK_VALUE_PAIRS_LEN]
              == EncodeCriteria(BaseCriteria(base))
  {
    var full := EncodeCriteria(V2Criteria(base + ext));
    V2ExtendsBase(full);
    var front := full[..FIELD_MASK_VALUE_PAIRS_LEN];
    assert DecodeCriteria(front) == Success(BaseCriteria(base)) by {
      assert (base + ext)[..|BASE_SLOTS|] == base;
    }
    BaseLayoutInOrder();
    V2LayoutInOrder();
    assert PaddingZero(Regions(BASE_SLOTS), front) by {
      forall i | 0 <= i < |front| && !Covered(Regions(BASE_SLOTS), i) ensures front[i] == 0 {
        assert !Covered(Regions(V2_SLOTS), i) by {
          V2ExtraAfterBase();
          forall m | 0 <= m < |Regions(V2_SLOTS)| ensures !Regions(V2_SLOTS)[m].Contains(i) {
            if m < 40 {
              assert Regions(V2_SLOTS)[m] == Regions(BASE_SLOTS)[m];
            } else if m < 45 {
              assert Regions(V2_SLOTS)[m].ofst == V2_EXTRA_SLOTS[m - 40].ofst;
            } else if m < 85 {
              assert Regions(V2_SLOTS)[m] == Regions(BASE_SLOTS)[m - 5];
            } else {
              assert Regions(V2_SLOTS)[m].ofst == V2_EXTRA_SLOTS[m - 85].maskOfst;
            }
          }
        }
      }
    }
    EncodeDecodeBlock(BASE_SLOTS, FIELD_MASK_VALUE_PAIRS_LEN, front);
  }

  /** Outer-rule criteria: an MAE_ENC_FIELD_MASK_VALUE_PAIRS block. */
  function EncodeEncCriteria(pairs: seq<FieldPair>): (buf: seq<byte>)
    requires PairsFit(ENC_SLOTS, pairs)
    ensures |buf| == ENC_FIELD_MASK_VALUE_PAIRS_LEN
    ensures DecodeEncCriteria(buf) == Success(pairs)
  {
    EncLayoutInOrder();
    EncodeBlock(ENC_SLOTS, ENC_FIELD_MASK_VALUE_PAIRS_LEN, pairs)
  }

  function DecodeEncCriteria(buf: seq<byte>): (r: Result<seq<FieldPair>>)
    ensures r.Success? <==> |buf| == ENC_FIELD_MASK_VALUE_PAIRS_LEN
    ensures r.Success? ==> PairsFit(ENC_SLOTS, r.value)
  {
    EncLayoutInOrder();
    DecodeBlock(ENC_SLOTS, ENC_FIELD_MASK_VALUE_PAIRS_LEN, buf)
  }

  /** Criteria blocks whose padding is zero: the only ones an encoder
      produces. */
  ghost predicate EncPaddingZero(buf: seq<byte>)
  {
    PaddingZero(Regions(ENC_SLOTS), buf)
  }

  ghost predicate CriteriaPaddingZero(buf: seq<byte>)
  {
    (|buf| == FIELD_MASK_VALUE_PAIRS_LEN && PaddingZero(Regions(BASE_SLOTS), buf))
    || (|buf| == FIELD_MASK_VALUE_PAIRS_V2_LEN && PaddingZero(Regions(V2_SLOTS), buf))
  }

  /** A 156-byte block with zero padding re-encodes to itself. */
  lemma EncCriteriaReencode(buf: seq<byte>)
    requires |buf| == ENC_FIELD_MASK_VALUE_PAIRS_LEN && EncPaddingZero(buf)
    ensures EncodeEncCriteria(DecodeEncCriteria(buf).value) == buf
  {
    EncLayoutInOrder();
    EncodeDecodeBlock(ENC_SLOTS, ENC_FIELD_MASK_VALUE_PAIRS_LEN, buf);
  }

  /** A base or V2 block with zero padding re-encodes to itself. */
  lemma CriteriaReencode(buf: seq<byte>)
    requires CriteriaPaddingZero(buf)
    ensures DecodeCriteria(buf).Success?
    ensures EncodeCriteria(DecodeCriteria(buf).value) == buf
  {
    BaseLayoutInOrder();
    V2LayoutInOrder();
    if |buf| == FIELD_MASK_VALUE_PAIRS_LEN {
      EncodeDecodeBlock(BASE_SLOTS, FIELD_MASK_VALUE_PAIRS_LEN, buf);
    } else {
      EncodeDecodeBlock(V2_SLOTS, FIELD_MASK_VALUE_PAIRS_V2_LEN, buf);
    }
  }

  // ----- checking criteria against the reported field support -----

  function FlagFieldId(b: nat): nat
    requires b < 3
  {
    if b == 0 then MAE_FIELD_IS_IP_FRAG else if b == 1 then MAE_FIELD_DO_CT else MAE_FIELD_CT_HIT
  }

  /** Bit b of the little-endian FLAGS mask word (bits 0-2 live in byte 0). */
  function FlagMaskBit(mask: seq<byte>, b: nat): bool
    requires |mask| > 0 && b < 3
  {
    mask[0] & (1 << (b as bv8)) != 0
  }

  /** The mask of one slot is one the field's support status allows. */
  predicate PairPermitted(caps: FieldCaps, slot: Slot, pair: FieldPair)
  {
    match slot.field
    case Field(id) => MaskPermitted(StatusOf(caps, id), MaskBits(pair.mask, slot.bigEndian))
    case FlagWord =>
      |pair.mask| > 0
      && forall b: nat :: b < 3 ==> MaskPermitted(StatusOf(caps, FlagFieldId(b)), [FlagMaskBit(pair.mask, b)])
  }

  predicate BlockPermitted(caps: FieldCaps, slots: seq<Slot>, pairs: seq<FieldPair>)
    requires |pairs| == |slots|
  {
    forall k :: 0 <= k < |slots| ==> PairPermitted(caps, slots[k], pairs[k])
  }

  method CheckPair(caps: FieldCaps, slot: Slot, pair: FieldPair) returns (ok: bool)
    ensures ok <==> PairPermitted(caps, slot, pair)
  {
    match slot.field {
      case Field(id) =>
        ok := CheckMask(StatusOf(caps, id), MaskBits(pair.mask, slot.bigEndian));
      case FlagWord =>
        if |pair.mask| == 0 {
          return false;
        }
        var b: nat := 0;
        ok := true;
        while b < 3 && ok
          invariant b <= 3
          invariant ok <==> forall c: nat :: c < b ==> MaskPermitted(StatusOf(caps, FlagFieldId(c)), [FlagMaskBit(pair.mask, c)])
        {
          ok := CheckMask(StatusOf(caps, FlagFieldId(b)), [FlagMaskBit(pair.mask, b)]);
          if !ok {
            assert !MaskPermitted(StatusOf(caps, FlagFieldId(b)), [FlagMaskBit(pair.mask, b)]);
          }
          b := b + 1;
        }
    }
  }

  /**
   * Check every slot of a block; the request is refused with
   * UnsupportedMatchField exactly when some mask breaks its field's rule.
   */
  method ValidateBlock(caps: FieldCaps, slots: seq<Slot>, pairs: seq<FieldPair>) returns (r: Result<()>)
    requires |pairs| == |slots|
    ensures r.Success? <==> BlockPermitted(caps, slots, pairs)
    ensures r.Failure? ==> r.error == UnsupportedMatchField
  {
    var k := 0;
    while k < |slots|
      invariant 0 <= k <= |slots|
      invariant forall j :: 0 <= j < k ==> PairPermitted(caps, slots[j], pairs[j])
    {
      var ok := CheckPair(caps, slots[k], pairs[k]);
      if !ok {
        RefusedPairRefusesBlock(caps, slots, pairs, k);
        return Failure(UnsupportedMatchField);
      }
      PermittedPrefixGrows(caps, slots, pairs, k);
      k := k + 1;
    }
    return Success(());
  }

  /** Loop step of ValidateBlock: one more pair checked. */
  lemma PermittedPrefixGrows(caps: FieldCaps, slots: seq<Slot>, pairs: seq<FieldPair>, k: nat)
    requires |pairs| == |slots| && k < |slots|
    requires forall j :: 0 <= j < k ==> PairPermitted(caps, slots[j], pairs[j])
    requires PairPermitted(caps, slots[k], pairs[k])
    ensures forall j :: 0 <= j < k + 1 ==> PairPermitted(caps, slots[j], pairs[j])
  {
  }

  /** One refused pair refuses the whole block. */
  lemma RefusedPairRefusesBlock(caps: FieldCaps, slots: seq<Slot>, pairs: seq<FieldPair>, k: nat)
    requires |pairs| == |slots| && k < |slots|
    requires !PairPermitted(caps, slots[k], pairs[k])
    ensures !BlockPermitted(caps, slots, pairs)
  {
  }

  /** A permitted block has a zero mask for every field the NIC reports as
      unknown (beyond MATCH_FIELD_COUNT, or with a status it does not define). */
  lemma PermittedUnknownFieldIsZero(caps: FieldCaps, slots: seq<Slot>, pairs: seq<FieldPair>, k: nat)
    requires |pairs| == |slots| && BlockPermitted(caps, slots, pairs)
    requires k < |slots| && slots[k].field.Field?
    requires var id := slots[k].field.id;
             id >= caps.matchFieldCount || id >= |caps.fieldFlags|
             || caps.fieldFlags[id].supportStatus > MAE_FIELD_SUPPORTED_MATCH_MASK
    ensures forall i :: 0 <= i < |pairs[k].mask| ==> pairs[k].mask[i] == 0
  {
    var sl := slots[k];
    assert PairPermitted(caps, sl, pairs[k]);
    UnknownFieldNeedsZeroMask(caps, sl.field.id, MaskBits(pairs[k].mask, sl.bigEndian));
    MaskBitsZero(pairs[k].mask, sl.bigEndian);
  }

  /** A block that matches on nothing (every mask zero) is permitted as long
      as no field in it must always be matched. */
  lemma WildcardPermitted(caps: FieldCaps, slots: seq<Slot>, pairs: seq<FieldPair>)
    requires |pairs| == |slots|
    requires forall k :: 0 <= k < |slots| ==> |pairs[k].mask| > 0
    requires forall k, i :: 0 <= k < |slots| && 0 <= i < |pairs[k].mask| ==> pairs[k].mask[i] == 0
    requires forall k :: 0 <= k < |slots| && slots[k].field.Field? ==>
               StatusOf(caps, slots[k].field.id) != MatchAlways
    requires forall b: nat :: b < 3 ==> StatusOf(caps, FlagFieldId(b)) != MatchAlways
    ensures BlockPermitted(caps, slots, pairs)
  {
    forall k | 0 <= k < |slots| ensures PairPermitted(caps, slots[k], pairs[k]) {
      var sl, p := slots[k], pairs[k];
      match sl.field {
        case Field(id) =>
          MaskBitsZero(p.mask, sl.bigEndian);
          ZeroMaskPermitted(StatusOf(caps, id), MaskBits(p.mask, sl.bigEndian));
        case FlagWord =>
          forall b: nat | b < 3
            ensures MaskPermitted(StatusOf(caps, FlagFieldId(b)), [FlagMaskBit(p.mask, b)])
          {
            assert p.mask[0] == 0;
            ZeroMaskPermitted(StatusOf(caps, FlagFieldId(b)), [FlagMaskBit(p.mask, b)]);
          }
      }
    }
  }
}
