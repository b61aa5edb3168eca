/**
 * Variable-length MCDI messages.  A message of this kind is a fixed header of
 * `fixed` bytes followed by an array of `num` elements of one byte or of four
 * bytes each, so the header's LEN(num) macro is fixed + size * num and its
 * NUM(len) macro is (len - fixed) / size.  LENMIN and LENMAX bound the whole message; MINNUM and
 * MAXNUM bound the array.  Transports speaking MCDI v2 allow the longer
 * LENMAX_MCDI2 / MAXNUM_MCDI2 bounds.
 */
module VarLen {
  import opened Bytes
  import opened Wrappers

  datatype Version = Mcdi1 | Mcdi2

  /** Every MAE array holds either bytes or 32-bit words. */
  datatype ElemSize = Byte | Dword

  /** The constants the header defines for one variable-length message. */
  datatype VarLayout = VarLayout(fixed: nat, elem: ElemSize,
                                 lenMin: nat, lenMax: nat, lenMaxMcdi2: nat,
                                 minNum: nat, maxNum: nat, maxNumMcdi2: nat)
  {
    function LenMax(v: Version): nat
    {
      if v == Mcdi1 then lenMax else lenMaxMcdi2
    }

    function MaxNum(v: Version): nat
    {
      if v == Mcdi1 then maxNum else maxNumMcdi2
    }
  }

  // ----- the layouts of every variable-length MAE message -----

  /** MC_CMD_MAE_GET_ACTION_RULE_CAPS_OUT: mcdi_pcol_mae.h lines 1332-1345. */
  const GET_ACTION_RULE_CAPS_OUT: VarLayout := VarLayout(0, Dword, 0, 252, 1020, 0, 63, 255)
  /** MC_CMD_MAE_GET_OUTER_RULE_CAPS_OUT: mcdi_pcol_mae.h lines 1361-1371. */
  const GET_OUTER_RULE_CAPS_OUT: VarLayout := VarLayout(0, Dword, 0, 252, 1020, 0, 63, 255)
  /** MC_CMD_MAE_COUNTER_ALLOC_OUT: mcdi_pcol_mae.h lines 1390-1405. */
  const COUNTER_ALLOC_OUT: VarLayout := VarLayout(0, Dword, 4, 252, 1020, 1, 63, 255)
  /** MC_CMD_MAE_COUNTER_FREE_IN: mcdi_pcol_mae.h lines 1420-1432. */
  const COUNTER_FREE_IN: VarLayout := VarLayout(0, Dword, 4, 128, 128, 1, 32, 32)
  /** MC_CMD_MAE_COUNTER_FREE_OUT: mcdi_pcol_mae.h lines 1435-1454. */
  const COUNTER_FREE_OUT: VarLayout := VarLayout(0, Dword, 4, 128, 128, 1, 32, 32)
  /** MC_CMD_MAE_COUNTER_LIST_ALLOC_IN: mcdi_pcol_mae.h lines 1467-1479. */
  const COUNTER_LIST_ALLOC_IN: VarLayout := VarLayout(0, Dword, 4, 252, 1020, 1, 63, 255)
  /** MC_CMD_MAE_COUNTER_LIST_FREE_IN: mcdi_pcol_mae.h lines 1499-1509. */
  const COUNTER_LIST_FREE_IN: VarLayout := VarLayout(0, Dword, 4, 128, 128, 1, 32, 32)
  /** MC_CMD_MAE_COUNTER_LIST_FREE_OUT: mcdi_pcol_mae.h lines 1512-1522. */
  const COUNTER_LIST_FREE_OUT: VarLayout := VarLayout(0, Dword, 4, 128, 128, 1, 32, 32)
  /** MC_CMD_MAE_ENCAP_HEADER_ALLOC_IN: mcdi_pcol_mae.h lines 1570-1581. */
  const ENCAP_HEADER_ALLOC_IN: VarLayout := VarLayout(4, Byte, 4, 252, 1020, 0, 248, 1016)
  /** MC_CMD_MAE_ENCAP_HEADER_UPDATE_IN: mcdi_pcol_mae.h lines 1603-1616. */
  const ENCAP_HEADER_UPDATE_IN: VarLayout := VarLayout(8, Byte, 8, 252, 1020, 0, 244, 1012)
  /** MC_CMD_MAE_ENCAP_HEADER_FREE_IN: mcdi_pcol_mae.h lines 1632-1642. */
  const ENCAP_HEADER_FREE_IN: VarLayout := VarLayout(0, Dword, 4, 128, 128, 1, 32, 32)
  /** MC_CMD_MAE_ENCAP_HEADER_FREE_OUT: mcdi_pcol_mae.h lines 1645-1655. */
  const ENCAP_HEADER_FREE_OUT: VarLayout := VarLayout(0, Dword, 4, 128, 128, 1, 32, 32)
  /** MC_CMD_MAE_PEDIT_FREE_IN: mcdi_pcol_mae.h lines 1688-1698. */
  const PEDIT_FREE_IN: VarLayout := VarLayout(0, Dword, 4, 128, 128, 1, 32, 32)
  /** MC_CMD_MAE_PEDIT_FREE_OUT: mcdi_pcol_mae.h lines 1701-1711. */
  const PEDIT_FREE_OUT: VarLayout := VarLayout(0, Dword, 4, 128, 128, 1, 32, 32)
  /** MC_CMD_MAE_ACTION_SET_FREE_IN: mcdi_pcol_mae.h lines 1826-1836. */
  const ACTION_SET_FREE_IN: VarLayout := VarLayout(0, Dword, 4, 128, 128, 1, 32, 32)
  /** MC_CMD_MAE_ACTION_SET_FREE_OUT: mcdi_pcol_mae.h lines 1839-1849. */
  const ACTION_SET_FREE_OUT: VarLayout := VarLayout(0, Dword, 4, 128, 128, 1, 32, 32)
  /** MC_CMD_MAE_ACTION_SET_LIST_ALLOC_IN: mcdi_pcol_mae.h lines 1862-1871. */
  const ACTION_SET_LIST_ALLOC_IN: VarLayout := VarLayout(0, Dword, 4, 252, 1020, 1, 63, 255)
  /** MC_CMD_MAE_ACTION_SET_LIST_FREE_IN: mcdi_pcol_mae.h lines 1893-1903. */
  const ACTION_SET_LIST_FREE_IN: VarLayout := VarLayout(0, Dword, 4, 128, 128, 1, 32, 32)
  /** MC_CMD_MAE_ACTION_SET_LIST_FREE_OUT: mcdi_pcol_mae.h lines 1906-1916. */
  const ACTION_SET_LIST_FREE_OUT: VarLayout := VarLayout(0, Dword, 4, 128, 128, 1, 32, 32)
  /** MC_CMD_MAE_OUTER_RULE_CLASS_REGISTER_IN: mcdi_pcol_mae.h lines 1940-1952. */
  const OUTER_RULE_CLASS_REGISTER_IN: VarLayout := VarLayout(4, Byte, 4, 252, 1020, 0, 248, 1016)
  /** MC_CMD_MAE_OUTER_RULE_CLASS_UNREGISTER_IN: mcdi_pcol_mae.h lines 1973-1983. */
  const OUTER_RULE_CLASS_UNREGISTER_IN: VarLayout := VarLayout(0, Dword, 4, 128, 128, 1, 32, 32)
  /** MC_CMD_MAE_OUTER_RULE_CLASS_UNREGISTER_OUT: mcdi_pcol_mae.h lines 1986-1996. */
  const OUTER_RULE_CLASS_UNREGISTER_OUT: VarLayout := VarLayout(0, Dword, 4, 128, 128, 1, 32, 32)
  /** MC_CMD_MAE_OUTER_RULE_INSERT_IN: mcdi_pcol_mae.h lines 2008-2050. */
  const OUTER_RULE_INSERT_IN: VarLayout := VarLayout(16, Byte, 16, 252, 1020, 0, 236, 1004)
  /** MC_CMD_MAE_OUTER_RULE_REMOVE_IN: mcdi_pcol_mae.h lines 2070-2080. */
  const OUTER_RULE_REMOVE_IN: VarLayout := VarLayout(0, Dword, 4, 128, 128, 1, 32, 32)
  /** MC_CMD_MAE_OUTER_RULE_REMOVE_OUT: mcdi_pcol_mae.h lines 2083-2093. */
  const OUTER_RULE_REMOVE_OUT: VarLayout := VarLayout(0, Dword, 4, 128, 128, 1, 32, 32)
  /** MC_CMD_MAE_ACTION_RULE_CLASS_REGISTER_IN: mcdi_pcol_mae.h lines 2106-2118. */
  const ACTION_RULE_CLASS_REGISTER_IN: VarLayout := VarLayout(4, Byte, 4, 252, 1020, 0, 248, 1016)
  /** MC_CMD_MAE_ACTION_RULE_CLASS_UNREGISTER_IN: mcdi_pcol_mae.h lines 2139-2149. */
  const ACTION_RULE_CLASS_UNREGISTER_IN: VarLayout := VarLayout(0, Dword, 4, 128, 128, 1, 32, 32)
  /** MC_CMD_MAE_ACTION_RULE_CLASS_UNREGISTER_OUT: mcdi_pcol_mae.h lines 2152-2162. */
  const ACTION_RULE_CLASS_UNREGISTER_OUT: VarLayout := VarLayout(0, Dword, 4, 128, 128, 1, 32, 32)
  /** MC_CMD_MAE_ACTION_RULE_INSERT_IN: mcdi_pcol_mae.h lines 2223-2242. */
  const ACTION_RULE_INSERT_IN: VarLayout := VarLayout(28, Byte, 28, 252, 1020, 0, 224, 992)
  /** MC_CMD_MAE_ACTION_RULE_DELETE_IN: mcdi_pcol_mae.h lines 2285-2295. */
  const ACTION_RULE_DELETE_IN: VarLayout := VarLayout(0, Dword, 4, 128, 128, 1, 32, 32)
  /** MC_CMD_MAE_ACTION_RULE_DELETE_OUT: mcdi_pcol_mae.h lines 2298-2308. */
  const ACTION_RULE_DELETE_OUT: VarLayout := VarLayout(0, Dword, 4, 128, 128, 1, 32, 32)
  /** MC_CMD_MAE_FORGET_CONNECTION_IN: mcdi_pcol_mae.h lines 2557-2567. */
  const FORGET_CONNECTION_IN: VarLayout := VarLayout(0, Dword, 4, 128, 128, 1, 32, 32)
  /** MC_CMD_MAE_FORGET_CONNECTION_OUT: mcdi_pcol_mae.h lines 2570-2580. */
  const FORGET_CONNECTION_OUT: VarLayout := VarLayout(0, Dword, 4, 128, 128, 1, 32, 32)
  /** The LEN(num) macro. */
  function LenOf(l: VarLayout, num: nat): nat
  {
    l.fixed + if l.elem == Byte then num else 4 * num
  }

  /** The NUM(len) macro, for a length that covers the fixed header. */
  function NumOf(l: VarLayout, len: nat): nat
    requires l.fixed <= len
  {
    if l.elem == Byte then len - l.fixed else (len - l.fixed) / 4
  }

  /** The length bounds are the LEN of the count bounds. */
  predicate WellFormed(l: VarLayout)
  {
    l.minNum <= l.maxNum <= l.maxNumMcdi2
    && l.lenMin == LenOf(l, l.minNum)
    && l.lenMax == LenOf(l, l.maxNum)
    && l.lenMaxMcdi2 == LenOf(l, l.maxNumMcdi2)
  }

  /** The header's LENMIN, LENMAX and LENMAX_MCDI2 of every message agree
      with its LEN macro at MINNUM, MAXNUM and MAXNUM_MCDI2. */
  lemma LayoutsWellFormed()
    ensures WellFormed(GET_ACTION_RULE_CAPS_OUT)
    ensures WellFormed(GET_OUTER_RULE_CAPS_OUT)
    ensures WellFormed(COUNTER_ALLOC_OUT)
    ensures WellFormed(COUNTER_FREE_IN)
    ensures WellFormed(COUNTER_FREE_OUT)
    ensures WellFormed(COUNTER_LIST_ALLOC_IN)
    ensures WellFormed(COUNTER_LIST_FREE_IN)
    ensures WellFormed(COUNTER_LIST_FREE_OUT)
    ensures WellFormed(ENCAP_HEADER_ALLOC_IN)
    ensures WellFormed(ENCAP_HEADER_UPDATE_IN)
    ensures WellFormed(ENCAP_HEADER_FREE_IN)
    ensures WellFormed(ENCAP_HEADER_FREE_OUT)
    ensures WellFormed(PEDIT_FREE_IN)
    ensures WellFormed(PEDIT_FREE_OUT)
    ensures WellFormed(ACTION_SET_FREE_IN)
    ensures WellFormed(ACTION_SET_FREE_OUT)
    ensures WellFormed(ACTION_SET_LIST_ALLOC_IN)
    ensures WellFormed(ACTION_SET_LIST_FREE_IN)
    ensures WellFormed(ACTION_SET_LIST_FREE_OUT)
    ensures WellFormed(OUTER_RULE_CLASS_REGISTER_IN)
    ensures WellFormed(OUTER_RULE_CLASS_UNREGISTER_IN)
    ensures WellFormed(OUTER_RULE_CLASS_UNREGISTER_OUT)
    ensures WellFormed(OUTER_RULE_INSERT_IN)
    ensures WellFormed(OUTER_RULE_REMOVE_IN)
    ensures WellFormed(OUTER_RULE_REMOVE_OUT)
    ensures WellFormed(ACTION_RULE_CLASS_REGISTER_IN)
    ensures WellFormed(ACTION_RULE_CLASS_UNREGISTER_IN)
    ensures WellFormed(ACTION_RULE_CLASS_UNREGISTER_OUT)
    ensures WellFormed(ACTION_RULE_INSERT_IN)
    ensures WellFormed(ACTION_RULE_DELETE_IN)
    ensures WellFormed(ACTION_RULE_DELETE_OUT)
    ensures WellFormed(FORGET_CONNECTION_IN)
    ensures WellFormed(FORGET_CONNECTION_OUT)
  {
  }

  /** NUM undoes LEN. */
  lemma NumOfLenOf(l: VarLayout, num: nat)
    ensures NumOf(l, LenOf(l, num)) == num
  {
  }

  /** A message length lies between LENMIN and LENMAX exactly when its count
      lies between MINNUM and MAXNUM. */
  lemma LenRangeIsNumRange(l: VarLayout, v: Version, num: nat)
    requires WellFormed(l)
    ensures l.lenMin <= LenOf(l, num) <= l.LenMax(v) <==> l.minNum <= num <= l.MaxNum(v)
  {
  }

  /** A length a receiver accepts: within the bounds and a whole number of
      elements after the fixed header. */
  predicate ValidLength(l: VarLayout, v: Version, len: nat)
    requires WellFormed(l)
  {
    l.lenMin <= len <= l.LenMax(v) && (l.elem == Byte || (len - l.fixed) % 4 == 0)
  }

  /** The element count of a received message of length len. */
  function ParseCount(l: VarLayout, v: Version, len: nat): (r: Result<nat>)
    requires WellFormed(l)
    ensures r.Success? <==> ValidLength(l, v, len)
    ensures r.Failure? ==> r.error == MalformedMessage
    ensures r.Success? ==> LenOf(l, r.value) == len && l.minNum <= r.value <= l.MaxNum(v)
  {
    if len < l.lenMin || len > l.LenMax(v) || (l.elem == Dword && (len - l.fixed) % 4 != 0) then
      Failure(MalformedMessage)
    else
      Success(NumOf(l, len))
  }

  /** Every count within bounds, and only those, gives a length the receiver
      accepts, and it reads back the same count. */
  lemma ParseCountOfLen(l: VarLayout, v: Version, num: nat)
    requires WellFormed(l)
    ensures ParseCount(l, v, LenOf(l, num))
              == if l.minNum <= num <= l.MaxNum(v) then Success(num) else Failure(MalformedMessage)
  {
  }

  // ----- framing: fixed header followed by the array -----

  datatype VarMessage = VarMessage(header: seq<byte>, body: seq<byte>)

  function EncodeVar(l: VarLayout, v: Version, m: VarMessage): (r: Result<seq<byte>>)
    requires WellFormed(l)
    ensures r.Success? <==> |m.header| == l.fixed && ValidLength(l, v, l.fixed + |m.body|)
    ensures r.Failure? ==> r.error == InvalidArgument
    ensures r.Success? ==> DecodeVar(l, v, r.value) == Success(m)
  {
    if |m.header| != l.fixed || !ValidLength(l, v, l.fixed + |m.body|) then
      Failure(InvalidArgument)
    else
      var s := m.header + m.body;
      assert s[..l.fixed] == m.header && s[l.fixed..] == m.body;
      Success(s)
  }

  function DecodeVar(l: VarLayout, v: Version, s: seq<byte>): (r: Result<VarMessage>)
    requires WellFormed(l)
    ensures r.Success? <==> ValidLength(l, v, |s|)
    ensures r.Failure? ==> r.error == MalformedMessage
    ensures r.Success? ==>
              |r.value.header| == l.fixed && r.value.header + r.value.body == s
              && LenOf(l, NumOf(l, |s|)) == |s|
  {
    var num :- ParseCount(l, v, |s|);
    Success(VarMessage(s[..l.fixed], s[l.fixed..]))
  }

  lemma VarReencode(l: VarLayout, v: Version, s: seq<byte>)
    requires WellFormed(l) && ValidLength(l, v, |s|)
    ensures EncodeVar(l, v, DecodeVar(l, v, s).value) == Success(s)
  {
  }

  /** A message that is only an array of identifiers: the alloc responses,
      the free requests and their responses. */
  predicate IdArrayLayout(l: VarLayout)
  {
    WellFormed(l) && l.fixed == 0 && l.elem == Dword
  }

  function EncodeIdList(l: VarLayout, v: Version, ids: seq<bv32>): (r: Result<seq<byte>>)
    requires IdArrayLayout(l)
    ensures r.Success? <==> l.minNum <= |ids| <= l.MaxNum(v)
    ensures r.Failure? ==> r.error == InvalidArgument
    ensures r.Success? ==> DecodeIdList(l, v, r.value) == Success(ids)
  {
    if |ids| < l.minNum || |ids| > l.MaxNum(v) then Failure(InvalidArgument)
    else
      var s := EncodeWords(ids);
      ParseCountOfLen(l, v, |ids|);
      WordsRoundTrip(ids);
      Success(s)
  }

  function DecodeIdList(l: VarLayout, v: Version, s: seq<byte>): (r: Result<seq<bv32>>)
    requires IdArrayLayout(l)
    ensures r.Success? <==> ValidLength(l, v, |s|)
    ensures r.Failure? ==> r.error == MalformedMessage
    ensures r.Success? ==> |r.value| == NumOf(l, |s|) && l.minNum <= |r.value| <= l.MaxNum(v)
  {
    var num :- ParseCount(l, v, |s|);
    Success(DecodeWords(s))
  }

  lemma IdListReencode(l: VarLayout, v: Version, s: seq<byte>)
    requires IdArrayLayout(l) && ValidLength(l, v, |s|)
    ensures EncodeIdList(l, v, DecodeIdList(l, v, s).value) == Success(s)
  {
    WordsReencode(s);
  }

  // ----- requests with a byte array after a fixed header -----

  /** MC_CMD_MAE_ENCAP_HEADER_ALLOC_IN: ENCAP_TYPE at 0, HDR_DATA from 4. */
  datatype EncapHeaderAlloc = EncapHeaderAlloc(encapType: bv32, hdrData: seq<byte>)

  function EncodeEncapHeaderAlloc(v: Version, m: EncapHeaderAlloc): (r: Result<seq<byte>>)
    ensures r.Success? <==> |m.hdrData| <= ENCAP_HEADER_ALLOC_IN.MaxNum(v)
    ensures r.Success? ==> DecodeEncapHeaderAlloc(v, r.value) == Success(m)
  {
    var s :- EncodeVar(ENCAP_HEADER_ALLOC_IN, v, VarMessage(EncodeLe32(m.encapType), m.hdrData));
    Success(s)
  }

  function DecodeEncapHeaderAlloc(v: Version, s: seq<byte>): (r: Result<EncapHeaderAlloc>)
    ensures r.Success? <==> ValidLength(ENCAP_HEADER_ALLOC_IN, v, |s|)
    ensures r.Success? ==> |r.value.hdrData| == NumOf(ENCAP_HEADER_ALLOC_IN, |s|)
    ensures r.Success? ==>
              |s| >= 4 && r.value.encapType == DecodeLe32(s[..4]) && r.value.hdrData == s[4..]
  {
    var m :- DecodeVar(ENCAP_HEADER_ALLOC_IN, v, s);
    Success(EncapHeaderAlloc(DecodeLe32(m.header), m.body))
  }

  lemma EncapHeaderAllocReencode(v: Version, s: seq<byte>)
    requires DecodeEncapHeaderAlloc(v, s).Success?
    ensures EncodeEncapHeaderAlloc(v, DecodeEncapHeaderAlloc(v, s).value) == Success(s)
  {
    Le32EncodeDecode(s[..4]);
    assert s == s[..4] + s[4..];
  }

  /** MC_CMD_MAE_ENCAP_HEADER_UPDATE_IN: EH_ID at 0, ENCAP_TYPE at 4,
      HDR_DATA from 8. */
  datatype EncapHeaderUpdate = EncapHeaderUpdate(ehId: bv32, encapType: bv32, hdrData: seq<byte>)

  function EncodeEncapHeaderUpdate(v: Version, m: EncapHeaderUpdate): (r: Result<seq<byte>>)
    ensures r.Success? <==> |m.hdrData| <= ENCAP_HEADER_UPDATE_IN.MaxNum(v)
    ensures r.Success? ==> DecodeEncapHeaderUpdate(v, r.value) == Success(m)
  {
    var header := EncodeUpdateHeader(m.ehId, m.encapType);
    var s :- EncodeVar(ENCAP_HEADER_UPDATE_IN, v, VarMessage(header, m.hdrData));
    Success(s)
  }

  function DecodeEncapHeaderUpdate(v: Version, s: seq<byte>): (r: Result<EncapHeaderUpdate>)
    ensures r.Success? <==> ValidLength(ENCAP_HEADER_UPDATE_IN, v, |s|)
    ensures r.Success? ==> |r.value.hdrData| == NumOf(ENCAP_HEADER_UPDATE_IN, |s|)
    ensures r.Success? ==>
              |s| >= 8 && r.value.ehId == DecodeLe32(s[..4])
              && r.value.encapType == DecodeLe32(s[4..8]) && r.value.hdrData == s[8..]
  {
    var m :- DecodeVar(ENCAP_HEADER_UPDATE_IN, v, s);
    var h := m.header;
    assert h[..4] == s[..4] && h[4..] == s[4..8];
    Success(EncapHeaderUpdate(DecodeLe32(h[..4]), DecodeLe32(h[4..]), m.body))
  }

  lemma EncapHeaderUpdateReencode(v: Version, s: seq<byte>)
    requires DecodeEncapHeaderUpdate(v, s).Success?
    ensures EncodeEncapHeaderUpdate(v, DecodeEncapHeaderUpdate(v, s).value) == Success(s)
  {
    var m := DecodeEncapHeaderUpdate(v, s).value;
    var h := EncodeUpdateHeader(m.ehId, m.encapType);
    Le32EncodeDecode(s[..4]);
    Le32EncodeDecode(s[4..8]);
    assert h == s[..4] + s[4..8];
    assert s == s[..4] + s[4..8] + s[8..];
  }

  function EncodeUpdateHeader(ehId: bv32, encapType: bv32): (h: seq<byte>)
    ensures |h| == 8 && DecodeLe32(h[..4]) == ehId && DecodeLe32(h[4..]) == encapType
  {
    var h := EncodeLe32(ehId) + EncodeLe32(encapType);
    assert h[..4] == EncodeLe32(ehId) && h[4..] == EncodeLe32(encapType);
    h
  }

  /** MC_CMD_MAE_OUTER_RULE_CLASS_REGISTER_IN and
      MC_CMD_MAE_ACTION_RULE_CLASS_REGISTER_IN: PRIO at 0, then the
      class-defining fields as bytes from 4. */
  datatype ClassRegister = ClassRegister(prio: bv32, fields: seq<byte>)

  /** The two class-register requests share one layout. */
  lemma ClassRegisterLayoutsAgree()
    ensures OUTER_RULE_CLASS_REGISTER_IN == ACTION_RULE_CLASS_REGISTER_IN
  {
  }

  function EncodeClassRegister(v: Version, m: ClassRegister): (r: Result<seq<byte>>)
    ensures r.Success? <==> |m.fields| <= OUTER_RULE_CLASS_REGISTER_IN.MaxNum(v)
    ensures r.Success? ==> DecodeClassRegister(v, r.value) == Success(m)
  {
    var s :- EncodeVar(OUTER_RULE_CLASS_REGISTER_IN, v, VarMessage(EncodeLe32(m.prio), m.fields));
    Success(s)
  }

  function DecodeClassRegister(v: Version, s: seq<byte>): (r: Result<ClassRegister>)
    ensures r.Success? <==> ValidLength(OUTER_RULE_CLASS_REGISTER_IN, v, |s|)
    ensures r.Success? ==> |r.value.fields| == NumOf(OUTER_RULE_CLASS_REGISTER_IN, |s|)
    ensures r.Success? ==>
              |s| >= 4 && r.value.prio == DecodeLe32(s[..4]) && r.value.fields == s[4..]
  {
    var m :- DecodeVar(OUTER_RULE_CLASS_REGISTER_IN, v, s);
    Success(ClassRegister(DecodeLe32(m.header), m.body))
  }

  lemma ClassRegisterReencode(v: Version, s: seq<byte>)
    requires DecodeClassRegister(v, s).Success?
    ensures EncodeClassRegister(v, DecodeClassRegister(v, s).value) == Success(s)
  {
    Le32EncodeDecode(s[..4]);
    assert s == s[..4] + s[4..];
  }
}
