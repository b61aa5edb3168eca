/**
 * Outer rules: MC_CMD_MAE_OUTER_RULE_INSERT, which matches the outer
 * headers of an encapsulated packet (MAE_ENC_FIELD_MASK_VALUE_PAIRS), names
 * the encapsulation the packet is parsed with, and controls the conntrack
 * lookup that follows.
 */
module OuterRule {
  import opened Bytes
  import opened Wrappers
  import opened VarLen
  import ActionRule
  import MatchPairs

  const MC_CMD_MAE_OUTER_RULE_INSERT_OUT_LEN: nat := 4

  // ----- MAE_MCDI_ENCAP_TYPE -----

  const MAE_MCDI_ENCAP_TYPE_NONE: bv32 := 0x0
  const MAE_MCDI_ENCAP_TYPE_VXLAN: bv32 := 0x1
  const MAE_MCDI_ENCAP_TYPE_NVGRE: bv32 := 0x2
  const MAE_MCDI_ENCAP_TYPE_GENEVE: bv32 := 0x3
  const MAE_MCDI_ENCAP_TYPE_TODO_OTHERS: bv32 := 0x3e7

  datatype EncapType = NoEncap | Vxlan | Nvgre | Geneve | OtherEncap

  function EncapTypeCode(t: EncapType): (c: bv32)
    ensures EncapTypeOf(c) == Some(t)
  {
    match t
    case NoEncap => MAE_MCDI_ENCAP_TYPE_NONE
    case Vxlan => MAE_MCDI_ENCAP_TYPE_VXLAN
    case Nvgre => MAE_MCDI_ENCAP_TYPE_NVGRE
    case Geneve => MAE_MCDI_ENCAP_TYPE_GENEVE
    case OtherEncap => MAE_MCDI_ENCAP_TYPE_TODO_OTHERS
  }

  /** The encapsulation a code names; None for a code the enum lacks. */
  function EncapTypeOf(c: bv32): Option<EncapType>
  {
    if c == MAE_MCDI_ENCAP_TYPE_NONE then Some(NoEncap)
    else if c == MAE_MCDI_ENCAP_TYPE_VXLAN then Some(Vxlan)
    else if c == MAE_MCDI_ENCAP_TYPE_NVGRE then Some(Nvgre)
    else if c == MAE_MCDI_ENCAP_TYPE_GENEVE then Some(Geneve)
    else if c == MAE_MCDI_ENCAP_TYPE_TODO_OTHERS then Some(OtherEncap)
    else None
  }

  lemma EncapTypeCodeOf(c: bv32)
    ensures EncapTypeOf(c).Some? ==> EncapTypeCode(EncapTypeOf(c).value) == c
  {
  }

  // ----- LOOKUP_CONTROL -----

  /** DO_CT (bit 0), CT_VNI_MODE (bits 1-2), RECIRC_ID (bits 8-15) and
      CT_DOMAIN (bits 16-31).  Unlike the action-rule response there is no
      DO_RECIRC bit. */
  datatype OuterLookupControl = OuterLookupControl(doCt: bool, ctVniMode: ActionRule.CtVniMode,
                                                   recircId: bv8, ctDomain: bv16)

  const OUTER_LOOKUP_CONTROL_DEFINED: bv32 := 0xffff_ff07

  function DecodeOuterLookupControl(w: bv32): OuterLookupControl
  {
    OuterLookupControl(w & 0x1 != 0, ActionRule.CtVniModeOf(((w >> 1) & 0x3) as bv2),
                       ((w >> 8) & 0xff) as bv8, (w >> 16) as bv16)
  }

  function EncodeOuterLookupControl(c: OuterLookupControl): (w: bv32)
    ensures w & !OUTER_LOOKUP_CONTROL_DEFINED == 0
    ensures DecodeOuterLookupControl(w) == c
  {
    (if c.doCt then 0x1 else 0)
    | ((ActionRule.CtVniModeCode(c.ctVniMode) as bv32) << 1)
    | ((c.recircId as bv32) << 8) | ((c.ctDomain as bv32) << 16)
  }

  lemma OuterLookupControlReencode(w: bv32)
    requires w & !OUTER_LOOKUP_CONTROL_DEFINED == 0
    ensures EncodeOuterLookupControl(DecodeOuterLookupControl(w)) == w
  {
    ActionRule.CtVniModeCodeOf(((w >> 1) & 0x3) as bv2);
  }

  // ----- MC_CMD_MAE_OUTER_RULE_INSERT_IN -----

  /** ENCAP_TYPE at 0, PRIO at 4, LOOKUP_CONTROL at 8, RSVD at 12 (zero),
      FIELD_MATCH_CRITERIA from 16. */
  datatype OuterRuleInsert = OuterRuleInsert(encapType: bv32, prio: bv32,
                                             lookup: OuterLookupControl,
                                             criteria: seq<MatchPairs.FieldPair>)

  predicate InsertFits(m: OuterRuleInsert)
  {
    MatchPairs.PairsFit(MatchPairs.ENC_SLOTS, m.criteria)
  }

  function InsertHeaderWords(m: OuterRuleInsert): (ws: seq<bv32>)
    ensures 4 * |ws| == OUTER_RULE_INSERT_IN.fixed
  {
    [m.encapType, m.prio, EncodeOuterLookupControl(m.lookup), 0]
  }

  /** Outer match criteria always fit, on either MCDI version. */
  function EncodeOuterRuleInsert(v: Version, m: OuterRuleInsert): (s: seq<byte>)
    requires InsertFits(m)
    ensures |s| == OUTER_RULE_INSERT_IN.fixed + MatchPairs.ENC_FIELD_MASK_VALUE_PAIRS_LEN
    ensures DecodeOuterRuleInsert(v, s) == Success(m)
  {
    LayoutsWellFormed();
    var ws := InsertHeaderWords(m);
    var header := EncodeWords(ws);
    var body := MatchPairs.EncodeEncCriteria(m.criteria);
    var r := EncodeVar(OUTER_RULE_INSERT_IN, v, VarMessage(header, body));
    assert r.Success?;
    WordsRoundTrip(ws);
    OuterLookupControlReencode(EncodeOuterLookupControl(m.lookup));
    r.value
  }

  /** The firmware's reading of the request: a wrong length, a non-zero
      RSVD word or criteria that are not one MAE_ENC_FIELD_MASK_VALUE_PAIRS
      block are malformed. */
  function DecodeOuterRuleInsert(v: Version, s: seq<byte>): (r: Result<OuterRuleInsert>)
    ensures r.Success? ==>
              |s| == OUTER_RULE_INSERT_IN.fixed + MatchPairs.ENC_FIELD_MASK_VALUE_PAIRS_LEN
    ensures r.Success? ==>
              r.value.encapType == DecodeLe32(s[0..4]) && r.value.prio == DecodeLe32(s[4..8])
              && r.value.lookup == DecodeOuterLookupControl(DecodeLe32(s[8..12]))
              && DecodeLe32(s[12..16]) == 0
    ensures r.Success? ==> MatchPairs.DecodeEncCriteria(s[16..]) == Success(r.value.criteria)
    ensures r.Failure? ==> r.error == MalformedMessage
    ensures r.Success? <==>
              |s| == OUTER_RULE_INSERT_IN.fixed + MatchPairs.ENC_FIELD_MASK_VALUE_PAIRS_LEN
              && DecodeLe32(s[12..16]) == 0
  {
    LayoutsWellFormed();
    var msg :- DecodeVar(OUTER_RULE_INSERT_IN, v, s);
    var ws := DecodeWords(msg.header);
    InsertHeaderAt(s, msg.header);
    if ws[3] != 0 then Failure(MalformedMessage)
    else
      var criteria :- MatchPairs.DecodeEncCriteria(msg.body);
      Success(OuterRuleInsert(ws[0], ws[1], DecodeOuterLookupControl(ws[2]), criteria))
  }

  lemma InsertHeaderAt(s: seq<byte>, header: seq<byte>)
    requires |header| == 16 && header <= s
    ensures var ws := DecodeWords(header);
            ws[0] == DecodeLe32(s[0..4]) && ws[1] == DecodeLe32(s[4..8])
            && ws[2] == DecodeLe32(s[8..12]) && ws[3] == DecodeLe32(s[12..16])
  {
    WordAt(header, 0);
    WordAt(header, 1);
    WordAt(header, 2);
    WordAt(header, 3);
    assert header[0..4] == s[0..4] && header[4..8] == s[4..8];
    assert header[8..12] == s[8..12] && header[12..16] == s[12..16];
  }

  /** A request the firmware accepts, with no undefined LOOKUP_CONTROL bit
      and zero criteria padding, re-encodes to itself. */
  lemma OuterRuleInsertReencode(v: Version, s: seq<byte>)
    requires DecodeOuterRuleInsert(v, s).Success?
    requires DecodeLe32(s[8..12]) & !OUTER_LOOKUP_CONTROL_DEFINED == 0
    requires MatchPairs.EncPaddingZero(s[16..])
    ensures EncodeOuterRuleInsert(v, DecodeOuterRuleInsert(v, s).value) == s
  {
    LayoutsWellFormed();
    var m := DecodeOuterRuleInsert(v, s).value;
    var header := s[..16];
    var ws := DecodeWords(header);
    InsertHeaderAt(s, header);
    OuterLookupControlReencode(DecodeLe32(s[8..12]));
    assert InsertHeaderWords(m) == ws;
    WordsReencode(header);
    MatchPairs.EncCriteriaReencode(s[16..]);
    assert s == header + s[16..];
  }

  /** Unlike action rules, an outer rule fits an MCDI v1 request. */
  lemma OuterRuleFitsMcdi1()
    ensures OUTER_RULE_INSERT_IN.fixed + MatchPairs.ENC_FIELD_MASK_VALUE_PAIRS_LEN
              <= OUTER_RULE_INSERT_IN.LenMax(Mcdi1)
  {
  }
}
