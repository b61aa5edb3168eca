/**
 * MC_CMD_MAE_GET_CAPABILITIES: the sizes of the NIC's MAE tables and the
 * number of rule priorities it offers.  As the header lays the response out,
 * ENCAP_PRIOS shares offset 36 with ACTION_RULES, so the two counts cannot
 * both be carried; the as-written layout is modelled next to the layout with
 * ENCAP_PRIOS and ACTION_PRIOS each in a word of its own, which the rest of
 * the model uses.
 */
module Capabilities {
  import opened Bytes
  import opened Wrappers
  import OuterRule
  import FieldSupport

  datatype Capabilities = Capabilities(
    matchFieldCount: bv32, encapTypesSupported: bv32, counters: bv32,
    counterLists: bv32, encapHeaderLimit: bv32, pedits: bv32, actionSets: bv32,
    actionSetLists: bv32, outerRules: bv32, actionRules: bv32,
    encapPrios: bv32, actionPrios: bv32)

  /** Leading words, in header order, shared by both layouts.  ENCAP_RULES
      and OUTER_RULES are two names for the word at offset 32. */
  function TableWords(c: Capabilities): (ws: seq<bv32>)
    ensures |ws| == 9
  {
    [c.matchFieldCount, c.encapTypesSupported, c.counters, c.counterLists,
     c.encapHeaderLimit, c.pedits, c.actionSets, c.actionSetLists, c.outerRules]
  }

  // ----- the layout as the header writes it -----

  const MC_CMD_MAE_GET_CAPABILITIES_OUT_LEN: nat := 44
  const ACTION_RULES_OFST: nat := 36
  const ENCAP_PRIOS_OFST: nat := 36
  const ACTION_PRIOS_OFST: nat := 40

  /** The firmware filling the response field by field at the header's
      offsets: ENCAP_PRIOS, written after ACTION_RULES, overwrites it. */
  function EncodeCapabilitiesAsWritten(c: Capabilities): (s: seq<byte>)
    ensures |s| == MC_CMD_MAE_GET_CAPABILITIES_OUT_LEN
    ensures DecodeLe32(s[36..40]) == c.encapPrios && DecodeLe32(s[40..44]) == c.actionPrios
  {
    var ws := TableWords(c) + [c.encapPrios, c.actionPrios];
    var s := EncodeWords(ws);
    WordsRoundTrip(ws);
    WordAt(s, 9);
    WordAt(s, 10);
    s
  }

  /** The driver reading each field at the header's offset. */
  function DecodeCapabilitiesAsWritten(s: seq<byte>): (r: Result<Capabilities>)
    ensures r.Success? <==> |s| >= MC_CMD_MAE_GET_CAPABILITIES_OUT_LEN
    ensures r.Failure? ==> r.error == MalformedMessage
    ensures r.Success? ==>
              r.value.actionRules == DecodeLe32(s[36..40])
              && r.value.encapPrios == DecodeLe32(s[36..40])
              && r.value.actionPrios == DecodeLe32(s[40..44])
  {
    if |s| < MC_CMD_MAE_GET_CAPABILITIES_OUT_LEN then Failure(MalformedMessage)
    else
      var w := DecodeWords(s[..MC_CMD_MAE_GET_CAPABILITIES_OUT_LEN]);
      AsWrittenWordsAt(s);
      Success(Capabilities(w[0], w[1], w[2], w[3], w[4], w[5], w[6], w[7], w[8],
                           w[ACTION_RULES_OFST / 4], w[ENCAP_PRIOS_OFST / 4],
                           w[ACTION_PRIOS_OFST / 4]))
  }

  lemma AsWrittenWordsAt(s: seq<byte>)
    requires |s| >= MC_CMD_MAE_GET_CAPABILITIES_OUT_LEN
    ensures var w := DecodeWords(s[..MC_CMD_MAE_GET_CAPABILITIES_OUT_LEN]);
            w[9] == DecodeLe32(s[36..40]) && w[10] == DecodeLe32(s[40..44])
  {
    PrefixWordAt(s, 44, 9);
    PrefixWordAt(s, 44, 10);
  }

  /** Whatever the NIC sends, the driver sees as many outer-rule priorities
      as there are action rules. */
  lemma AsWrittenEncapPriosIsActionRules(s: seq<byte>)
    requires DecodeCapabilitiesAsWritten(s).Success?
    ensures var c := DecodeCapabilitiesAsWritten(s).value;
            c.encapPrios == c.actionRules
  {
  }

  /** A NIC with 4096 action rules and 4 outer-rule priorities cannot report
      both. */
  lemma AsWrittenLosesActionRules()
    ensures var c := Capabilities(0, 0, 0, 0, 0, 0, 0, 0, 0, 4096, 4, 8);
            DecodeCapabilitiesAsWritten(EncodeCapabilitiesAsWritten(c)) != Success(c)
  {
    var c := Capabilities(0, 0, 0, 0, 0, 0, 0, 0, 0, 4096, 4, 8);
    var s := EncodeCapabilitiesAsWritten(c);
    AsWrittenEncapPriosIsActionRules(s);
  }

  // ----- the layout with every count in a word of its own -----

  /** ACTION_RULES at 36, ENCAP_PRIOS at 40, ACTION_PRIOS at 44. */
  const CAPABILITIES_LEN: nat := 48

  function CapabilitiesWords(c: Capabilities): (ws: seq<bv32>)
    ensures |ws| == 12
  {
    TableWords(c) + [c.actionRules, c.encapPrios, c.actionPrios]
  }

  function CapabilitiesFromWords(w: seq<bv32>): Capabilities
    requires |w| == 12
  {
    Capabilities(w[0], w[1], w[2], w[3], w[4], w[5], w[6], w[7], w[8], w[9], w[10], w[11])
  }

  function EncodeCapabilities(c: Capabilities): (s: seq<byte>)
    ensures |s| == CAPABILITIES_LEN
    ensures DecodeCapabilities(s) == Success(c)
  {
    var ws := CapabilitiesWords(c);
    WordsRoundTrip(ws);
    assert EncodeWords(ws)[..CAPABILITIES_LEN] == EncodeWords(ws);
    EncodeWords(ws)
  }

  /** A response shorter than the layout is malformed; bytes past it (from
      a newer NIC) are ignored. */
  function DecodeCapabilities(s: seq<byte>): (r: Result<Capabilities>)
    ensures r.Success? <==> |s| >= CAPABILITIES_LEN
    ensures r.Success? ==>
              r.value.actionRules == DecodeLe32(s[36..40])
              && r.value.encapPrios == DecodeLe32(s[40..44])
              && r.value.actionPrios == DecodeLe32(s[44..48])
    ensures r.Failure? ==> r.error == MalformedMessage
  {
    if |s| < CAPABILITIES_LEN then Failure(MalformedMessage)
    else
      var prefix := s[..CAPABILITIES_LEN];
      PriosAt(s, prefix);
      Success(CapabilitiesFromWords(DecodeWords(prefix)))
  }

  lemma PriosAt(s: seq<byte>, prefix: seq<byte>)
    requires |prefix| == 48 && prefix <= s
    ensures var ws := DecodeWords(prefix);
            ws[9] == DecodeLe32(s[36..40]) && ws[10] == DecodeLe32(s[40..44])
            && ws[11] == DecodeLe32(s[44..48])
  {
    WordAt(prefix, 9);
    WordAt(prefix, 10);
    WordAt(prefix, 11);
    assert prefix[36..40] == s[36..40] && prefix[40..44] == s[40..44];
    assert prefix[44..48] == s[44..48];
  }

  /** Re-encoding a decoded response reproduces the bytes the layout covers. */
  lemma CapabilitiesReencode(s: seq<byte>)
    requires |s| >= CAPABILITIES_LEN
    ensures EncodeCapabilities(DecodeCapabilities(s).value) == s[..CAPABILITIES_LEN]
  {
    var prefix := s[..CAPABILITIES_LEN];
    var ws := DecodeWords(prefix);
    WordsReencode(prefix);
    assert CapabilitiesWords(CapabilitiesFromWords(ws)) == ws;
  }

  // ----- using the capabilities -----

  /** An outer rule's PRIO must be below ENCAP_PRIOS. */
  predicate OuterPrioAllowed(c: Capabilities, prio: bv32)
  {
    prio < c.encapPrios
  }

  /** An action rule's PRIO must be below ACTION_PRIOS. */
  predicate ActionPrioAllowed(c: Capabilities, prio: bv32)
  {
    prio < c.actionPrios
  }

  const ENCAP_TYPE_VXLAN_BIT: bv32 := 0x1
  const ENCAP_TYPE_TODO_OTHERS_BIT: bv32 := 0x2

  /** Whether ENCAP_TYPES_SUPPORTED reports an encapsulation; the bitmask
      does not follow the enum's numbering and only VXLAN and TODO_OTHERS
      have a bit, so for any other type the response says nothing. */
  function EncapTypeSupported(c: Capabilities, t: OuterRule.EncapType): (r: Option<bool>)
    ensures r.Some? <==> t == OuterRule.Vxlan || t == OuterRule.OtherEncap
    ensures t == OuterRule.Vxlan ==> r == Some(c.encapTypesSupported & 0x1 != 0)
    ensures t == OuterRule.OtherEncap ==> r == Some((c.encapTypesSupported >> 1) & 0x1 != 0)
  {
    match t
    case Vxlan => Some(c.encapTypesSupported & ENCAP_TYPE_VXLAN_BIT != 0)
    case OtherEncap => Some(c.encapTypesSupported & ENCAP_TYPE_TODO_OTHERS_BIT != 0)
    case _ => None
  }

  /** The field capabilities a rule's mask is checked against: the match
      field count from here and the FIELD_FLAGS array of a rule-caps query. */
  function FieldCapsOf(c: Capabilities, fieldFlags: seq<FieldSupport.FieldFlags>)
    : (caps: FieldSupport.FieldCaps)
    ensures forall id: nat :: id >= c.matchFieldCount as nat ==>
              FieldSupport.StatusOf(caps, id) == FieldSupport.Unsupported
    ensures forall id: nat :: id < c.matchFieldCount as nat && id < |fieldFlags| ==>
              FieldSupport.StatusOf(caps, id)
                == FieldSupport.StatusFromCode(fieldFlags[id].supportStatus)
  {
    FieldSupport.FieldCaps(c.matchFieldCount as nat, fieldFlags)
  }
}
