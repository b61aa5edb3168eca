/**
 * Action rules: MAE_ACTION_RULE_RESPONSE (what a matching packet gets — an
 * action set or action-set list, and the lookup control that can send it on
 * to conntrack or recirculation), and the MC_CMD_MAE_ACTION_RULE_INSERT and
 * MC_CMD_MAE_ACTION_RULE_UPDATE requests that carry it.
 */
module ActionRule {
  import opened Bytes
  import opened Wrappers
  import opened VarLen
  import Pool
  import MatchPairs

  const MAE_ACTION_RULE_RESPONSE_LEN: nat := 16
  /** The RESPONSE region of the INSERT and UPDATE requests is wider than the
      structure it holds. */
  const MC_CMD_MAE_ACTION_RULE_INSERT_IN_RESPONSE_LEN: nat := 20
  const MC_CMD_MAE_ACTION_RULE_UPDATE_IN_LEN: nat := 24
  const MC_CMD_MAE_ACTION_RULE_INSERT_OUT_LEN: nat := 4

  /** MAE_CT_VNI_MODE: what the conntrack lookup uses as its VNI input. */
  datatype CtVniMode = VniZero | VniFromPacket | VniOuterVlan | VniBothVlans

  function CtVniModeCode(m: CtVniMode): (c: bv2)
    ensures CtVniModeOf(c) == m
  {
    match m
    case VniZero => 0
    case VniFromPacket => 1
    case VniOuterVlan => 2
    case VniBothVlans => 3
  }

  function CtVniModeOf(c: bv2): CtVniMode
  {
    if c == 0 then VniZero else if c == 1 then VniFromPacket
    else if c == 2 then VniOuterVlan else VniBothVlans
  }

  /** Every two-bit code names a mode, and a different one for each code. */
  lemma CtVniModeCodeOf(c: bv2)
    ensures CtVniModeCode(CtVniModeOf(c)) == c
  {
  }

  // ----- LOOKUP_CONTROL -----

  /** DO_CT (bit 0), DO_RECIRC (bit 1), CT_VNI_MODE (bits 2-3), RECIRC_ID
      (bits 8-15) and CT_DOMAIN (bits 16-31). */
  datatype LookupControl = LookupControl(doCt: bool, doRecirc: bool, ctVniMode: CtVniMode,
                                         recircId: bv8, ctDomain: bv16)

  const LOOKUP_CONTROL_DEFINED: bv32 := 0xffff_ff0f

  function DecodeLookupControl(w: bv32): LookupControl
  {
    LookupControl(w & 0x1 != 0, w & 0x2 != 0, CtVniModeOf(((w >> 2) & 0x3) as bv2),
                  ((w >> 8) & 0xff) as bv8, (w >> 16) as bv16)
  }

  function EncodeLookupControl(c: LookupControl): (w: bv32)
    ensures w & !LOOKUP_CONTROL_DEFINED == 0
    ensures DecodeLookupControl(w) == c
  {
    (if c.doCt then 0x1 else 0) | (if c.doRecirc then 0x2 else 0)
    | ((CtVniModeCode(c.ctVniMode) as bv32) << 2)
    | ((c.recircId as bv32) << 8) | ((c.ctDomain as bv32) << 16)
  }

  lemma LookupControlReencode(w: bv32)
    requires w & !LOOKUP_CONTROL_DEFINED == 0
    ensures EncodeLookupControl(DecodeLookupControl(w)) == w
  {
    CtVniModeCodeOf(((w >> 2) & 0x3) as bv2);
  }

  // ----- MAE_ACTION_RULE_RESPONSE -----

  datatype Response = Response(aslId: bv32, asId: bv32, lookup: LookupControl, counterId: bv32)

  /**
   * The rules the header sets for a response: DO_CT and DO_RECIRC are not
   * both set, COUNTER_ID is NULL unless one of them is, and (as for a
   * counter list and a counter) at most one of ASL_ID and AS_ID is non-NULL.
   */
  predicate ResponseValid(r: Response)
  {
    !(r.lookup.doCt && r.lookup.doRecirc)
    && (r.lookup.doCt || r.lookup.doRecirc || r.counterId == Pool.MAE_ID_NULL)
    && (r.aslId == Pool.MAE_ID_NULL || r.asId == Pool.MAE_ID_NULL)
  }

  function CheckResponse(r: Response): (res: Result<()>)
    ensures res.Success? <==> ResponseValid(r)
    ensures res.Failure? ==> res.error == InvalidArgument
  {
    if r.lookup.doCt && r.lookup.doRecirc then Failure(InvalidArgument)
    else if !r.lookup.doCt && !r.lookup.doRecirc && r.counterId != Pool.MAE_ID_NULL then
      Failure(InvalidArgument)
    else if r.aslId != Pool.MAE_ID_NULL && r.asId != Pool.MAE_ID_NULL then
      Failure(InvalidArgument)
    else Success(())
  }

  /** ASL_ID at 0, AS_ID at 4, LOOKUP_CONTROL at 8, COUNTER_ID at 12. */
  function ResponseWords(r: Response): (ws: seq<bv32>)
    ensures 4 * |ws| == MAE_ACTION_RULE_RESPONSE_LEN
  {
    [r.aslId, r.asId, EncodeLookupControl(r.lookup), r.counterId]
  }

  function ResponseFromWords(ws: seq<bv32>): (r: Response)
    requires |ws| == 4
    ensures ResponseWords(r) == ws <==> ws[2] & !LOOKUP_CONTROL_DEFINED == 0
  {
    var r := Response(ws[0], ws[1], DecodeLookupControl(ws[2]), ws[3]);
    if ws[2] & !LOOKUP_CONTROL_DEFINED == 0 then
      LookupControlReencode(ws[2]);
      r
    else
      r
  }

  function EncodeResponse(r: Response): (s: seq<byte>)
    ensures |s| == MAE_ACTION_RULE_RESPONSE_LEN
    ensures DecodeResponse(s) == Success(r)
  {
    WordsRoundTrip(ResponseWords(r));
    EncodeWords(ResponseWords(r))
  }

  function DecodeResponse(s: seq<byte>): (r: Result<Response>)
    ensures r.Success? <==> |s| == MAE_ACTION_RULE_RESPONSE_LEN
    ensures r.Success? ==>
              r.value.aslId == DecodeLe32(s[0..4]) && r.value.asId == DecodeLe32(s[4..8])
              && r.value.lookup == DecodeLookupControl(DecodeLe32(s[8..12]))
              && r.value.counterId == DecodeLe32(s[12..16])
  {
    if |s| != MAE_ACTION_RULE_RESPONSE_LEN then Failure(MalformedMessage)
    else
      WordAt(s, 0);
      WordAt(s, 1);
      WordAt(s, 2);
      WordAt(s, 3);
      Success(ResponseFromWords(DecodeWords(s)))
  }

  /** A 16-byte response whose LOOKUP_CONTROL word has no undefined bit
      re-encodes to itself. */
  lemma ResponseReencode(s: seq<byte>)
    requires |s| == MAE_ACTION_RULE_RESPONSE_LEN
    requires DecodeLe32(s[8..12]) & !LOOKUP_CONTROL_DEFINED == 0
    ensures EncodeResponse(DecodeResponse(s).value) == s
  {
    WordAt(s, 2);
    WordsReencode(s);
  }

  // ----- MC_CMD_MAE_ACTION_RULE_INSERT_IN -----

  /** PRIO at 0, RESPONSE at 4 (its 16 bytes then 4 zero bytes), RSVD at 24
      (zero), MATCH_CRITERIA from 28. */
  datatype ActionRuleInsert = ActionRuleInsert(prio: bv32, response: Response,
                                               criteria: MatchPairs.Criteria)

  function InsertHeaderWords(m: ActionRuleInsert): (ws: seq<bv32>)
    ensures 4 * |ws| == ACTION_RULE_INSERT_IN.fixed
  {
    [m.prio] + ResponseWords(m.response) + [0, 0]
  }

  function EncodeActionRuleInsert(v: Version, m: ActionRuleInsert): (r: Result<seq<byte>>)
    requires MatchPairs.CriteriaFit(m.criteria)
    ensures r.Success? <==>
              ResponseValid(m.response)
              && MatchPairs.CriteriaLen(m.criteria) <= ACTION_RULE_INSERT_IN.MaxNum(v)
    ensures r.Failure? ==> r.error == InvalidArgument
    ensures r.Success? ==> DecodeActionRuleInsert(v, r.value) == Success(m)
    ensures r.Success? ==> r.value[4..20] == EncodeResponse(m.response)
  {
    LayoutsWellFormed();
    var _ :- CheckResponse(m.response);
    var ws := InsertHeaderWords(m);
    var header := EncodeWords(ws);
    var body := MatchPairs.EncodeCriteria(m.criteria);
    var s :- EncodeVar(ACTION_RULE_INSERT_IN, v, VarMessage(header, body));
    InsertRoundTrip(v, m, header, body, s);
    InsertResponseAt(m, header, s);
    Success(s)
  }

  /** A request that starts with the insert header carries the response at
      bytes 4 to 20. */
  lemma InsertResponseAt(m: ActionRuleInsert, header: seq<byte>, s: seq<byte>)
    requires header == EncodeWords(InsertHeaderWords(m)) && header <= s
    ensures s[4..20] == EncodeResponse(m.response)
  {
    ResponseAfterFirstWord(m.prio, m.response, [0, 0]);
    assert s[4..20] == header[4..20];
  }

  lemma InsertRoundTrip(v: Version, m: ActionRuleInsert, header: seq<byte>, body: seq<byte>,
                        s: seq<byte>)
    requires WellFormed(ACTION_RULE_INSERT_IN) && ResponseValid(m.response)
    requires MatchPairs.CriteriaFit(m.criteria)
    requires header == EncodeWords(InsertHeaderWords(m))
    requires body == MatchPairs.EncodeCriteria(m.criteria)
    requires EncodeVar(ACTION_RULE_INSERT_IN, v, VarMessage(header, body)) == Success(s)
    ensures DecodeActionRuleInsert(v, s) == Success(m)
  {
    var ws := InsertHeaderWords(m);
    WordsRoundTrip(ws);
    assert ws[1..5] == ResponseWords(m.response);
    LookupControlReencode(EncodeLookupControl(m.response.lookup));
  }

  /** The firmware's reading of the request.  A wrong length or a non-zero
      RSVD word is malformed; a response that breaks ResponseValid is
      refused. */
  function DecodeActionRuleInsert(v: Version, s: seq<byte>): (r: Result<ActionRuleInsert>)
    ensures r.Success? ==> ValidLength(ACTION_RULE_INSERT_IN, v, |s|)
    ensures r.Success? ==> ResponseValid(r.value.response)
    ensures r.Success? ==> r.value.prio == DecodeLe32(s[0..4]) && DecodeLe32(s[24..28]) == 0
    ensures r.Success? ==> MatchPairs.DecodeCriteria(s[28..]) == Success(r.value.criteria)
    ensures r.Success? ==> DecodeResponse(s[4..20]) == Success(r.value.response)
    ensures r.Success? <==>
              ValidLength(ACTION_RULE_INSERT_IN, v, |s|) && DecodeLe32(s[24..28]) == 0
              && ResponseValid(DecodeResponse(s[4..20]).value)
              && MatchPairs.DecodeCriteria(s[28..]).Success?
  {
    LayoutsWellFormed();
    var msg :- DecodeVar(ACTION_RULE_INSERT_IN, v, s);
    var ws := DecodeWords(msg.header);
    InsertHeaderAt(s, msg.header);
    if ws[6] != 0 then Failure(MalformedMessage)
    else
      var response := ResponseFromWords(ws[1..5]);
      var _ :- CheckResponse(response);
      var criteria :- MatchPairs.DecodeCriteria(msg.body);
      Success(ActionRuleInsert(ws[0], response, criteria))
  }

  lemma InsertHeaderAt(s: seq<byte>, header: seq<byte>)
    requires |header| == 28 && header <= s
    ensures DecodeWords(header)[0] == DecodeLe32(s[0..4])
    ensures DecodeWords(header)[6] == DecodeLe32(s[24..28])
    ensures DecodeResponse(s[4..20]) == Success(ResponseFromWords(DecodeWords(header)[1..5]))
  {
    assert header == s[..28];
    PrefixWordAt(s, 28, 0);
    PrefixWordAt(s, 28, 6);
    HeaderResponseAt(s, 28);
  }

  /** The response of a request is read from words 1 to 5 of its first n
      bytes. */
  lemma HeaderResponseAt(s: seq<byte>, n: nat)
    requires n % 4 == 0 && 20 <= n <= |s|
    ensures DecodeResponse(s[4..20]) == Success(ResponseFromWords(DecodeWords(s[..n])[1..5]))
  {
    PrefixWordAt(s, n, 1);
    PrefixWordAt(s, n, 2);
    PrefixWordAt(s, n, 3);
    PrefixWordAt(s, n, 4);
    ResponseFields(s);
  }

  /** Each field of the response at bytes 4 to 20 of s. */
  lemma ResponseFields(s: seq<byte>)
    requires |s| >= 20
    ensures var r := DecodeResponse(s[4..20]).value;
            r.aslId == DecodeLe32(s[4..8]) && r.asId == DecodeLe32(s[8..12])
            && r.lookup == DecodeLookupControl(DecodeLe32(s[12..16]))
            && r.counterId == DecodeLe32(s[16..20])
  {
    WordInSlice(s, 4, 20, 0);
    WordInSlice(s, 4, 20, 4);
    WordInSlice(s, 4, 20, 8);
    WordInSlice(s, 4, 20, 12);
  }

  /** The encoder's header for a decoded request is the request's header. */
  lemma InsertHeaderRestored(s: seq<byte>, m: ActionRuleInsert)
    requires |s| >= 28 && m.prio == DecodeLe32(s[0..4]) && DecodeLe32(s[24..28]) == 0
    requires DecodeResponse(s[4..20]) == Success(m.response)
    requires DecodeLe32(s[12..16]) & !LOOKUP_CONTROL_DEFINED == 0
    requires DecodeLe32(s[20..24]) == 0
    ensures EncodeWords(InsertHeaderWords(m)) == s[..28]
  {
    var ws := DecodeWords(s[..28]);
    PrefixWordAt(s, 28, 0);
    PrefixWordAt(s, 28, 1);
    PrefixWordAt(s, 28, 2);
    PrefixWordAt(s, 28, 3);
    PrefixWordAt(s, 28, 4);
    PrefixWordAt(s, 28, 5);
    PrefixWordAt(s, 28, 6);
    ResponseFields(s);
    LookupControlReencode(DecodeLe32(s[12..16]));
    assert InsertHeaderWords(m) == ws;
    WordsReencode(s[..28]);
  }

  /** What the encoder sends for an insert it accepts. */
  lemma EncodedInsert(v: Version, m: ActionRuleInsert)
    requires MatchPairs.CriteriaFit(m.criteria)
    requires EncodeActionRuleInsert(v, m).Success?
    ensures EncodeActionRuleInsert(v, m).value
              == EncodeWords(InsertHeaderWords(m)) + MatchPairs.EncodeCriteria(m.criteria)
  {
    LayoutsWellFormed();
  }

  /** A request the firmware accepts re-encodes to itself when its
      LOOKUP_CONTROL word has no undefined bit, the four bytes after the
      16-byte response are zero and the criteria padding is zero. */
  lemma ActionRuleInsertReencode(v: Version, s: seq<byte>)
    requires |s| >= 28
    requires DecodeLe32(s[12..16]) & !LOOKUP_CONTROL_DEFINED == 0
    requires DecodeLe32(s[20..24]) == 0
    requires MatchPairs.CriteriaPaddingZero(s[28..])
    requires DecodeActionRuleInsert(v, s).Success?
    ensures MatchPairs.CriteriaFit(DecodeActionRuleInsert(v, s).value.criteria)
    ensures EncodeActionRuleInsert(v, DecodeActionRuleInsert(v, s).value) == Success(s)
  {
    LayoutsWellFormed();
    var m := DecodeActionRuleInsert(v, s).value;
    InsertHeaderRestored(s, m);
    MatchPairs.CriteriaReencode(s[28..]);
    assert MatchPairs.CriteriaLen(m.criteria) <= ACTION_RULE_INSERT_IN.MaxNum(v);
    EncodedInsert(v, m);
    assert s == s[..28] + s[28..];
  }

  /** Full match criteria (344 or 372 bytes) do not fit the 224 bytes an
      MCDI v1 request leaves for them: action rules need MCDI v2. */
  lemma InsertNeedsMcdi2(m: ActionRuleInsert)
    requires MatchPairs.CriteriaFit(m.criteria)
    ensures EncodeActionRuleInsert(Mcdi1, m).Failure?
  {
    LayoutsWellFormed();
  }

  // ----- MC_CMD_MAE_ACTION_RULE_UPDATE_IN -----

  /** AR_ID at 0, RESPONSE at 4 (16 bytes then 4 zero bytes). */
  datatype ActionRuleUpdate = ActionRuleUpdate(arId: bv32, response: Response)

  function EncodeActionRuleUpdate(m: ActionRuleUpdate): (r: Result<seq<byte>>)
    ensures r.Success? <==> ResponseValid(m.response)
    ensures r.Success? ==>
              |r.value| == MC_CMD_MAE_ACTION_RULE_UPDATE_IN_LEN
              && DecodeActionRuleUpdate(r.value) == Success(m)
    ensures r.Success? ==> r.value[4..20] == EncodeResponse(m.response)
  {
    var _ :- CheckResponse(m.response);
    var ws := [m.arId] + ResponseWords(m.response) + [0];
    WordsRoundTrip(ws);
    assert ws[1..5] == ResponseWords(m.response);
    LookupControlReencode(EncodeLookupControl(m.response.lookup));
    ResponseAfterFirstWord(m.arId, m.response, [0]);
    Success(EncodeWords(ws))
  }

  function DecodeActionRuleUpdate(s: seq<byte>): (r: Result<ActionRuleUpdate>)
    ensures |s| != MC_CMD_MAE_ACTION_RULE_UPDATE_IN_LEN ==> r == Failure(MalformedMessage)
    ensures r.Success? ==> ResponseValid(r.value.response) && r.value.arId == DecodeLe32(s[0..4])
    ensures r.Success? ==> DecodeResponse(s[4..20]) == Success(r.value.response)
    ensures r.Success? <==>
              |s| == MC_CMD_MAE_ACTION_RULE_UPDATE_IN_LEN
              && ResponseValid(DecodeResponse(s[4..20]).value)
  {
    if |s| != MC_CMD_MAE_ACTION_RULE_UPDATE_IN_LEN then Failure(MalformedMessage)
    else
      var ws := DecodeWords(s);
      WordAt(s, 0);
      assert s[..24] == s;
      HeaderResponseAt(s, 24);
      var response := ResponseFromWords(ws[1..5]);
      var _ :- CheckResponse(response);
      Success(ActionRuleUpdate(ws[0], response))
  }

  /** An update the firmware accepts re-encodes to itself when its
      LOOKUP_CONTROL word has no undefined bit and its last four bytes are
      zero. */
  lemma ActionRuleUpdateReencode(s: seq<byte>)
    requires DecodeActionRuleUpdate(s).Success?
    requires DecodeLe32(s[12..16]) & !LOOKUP_CONTROL_DEFINED == 0
    requires DecodeLe32(s[20..24]) == 0
    ensures EncodeActionRuleUpdate(DecodeActionRuleUpdate(s).value) == Success(s)
  {
    var m := DecodeActionRuleUpdate(s).value;
    var ws := DecodeWords(s);
    WordAt(s, 0);
    WordAt(s, 1);
    WordAt(s, 2);
    WordAt(s, 3);
    WordAt(s, 4);
    WordAt(s, 5);
    ResponseFields(s);
    LookupControlReencode(DecodeLe32(s[12..16]));
    assert [m.arId] + ResponseWords(m.response) + [0] == ws;
    WordsReencode(s);
  }

  /** The response encoded after one leading word sits at bytes 4 to 20. */
  lemma ResponseAfterFirstWord(first: bv32, r: Response, tail: seq<bv32>)
    ensures EncodeWords([first] + ResponseWords(r) + tail)[4..20] == EncodeResponse(r)
  {
    var rs := ResponseWords(r);
    EncodeWordsAppend([first] + rs, tail);
    EncodeWordsAppend([first], rs);
    assert |EncodeWords([first])| == 4;
  }
}
