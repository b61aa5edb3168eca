/**
 * MAE_MPORT_SELECTOR: the 32-bit value by which MAE requests name an
 * m-port.  The TYPE byte (bits 24-31) says how the low 24 bits are read:
 * a physical port number, a PCIe function (PF in bits 16-23, VF in bits
 * 0-15), or an mport_id.  Two values are fixed: NULL (0), which never names
 * a real m-port, and ASSIGNED (0x1000000), the caller's own m-port.
 */
module Mport {
  import opened Wrappers

  const MAE_MPORT_SELECTOR_LEN: nat := 4
  const MAE_MPORT_SELECTOR_NULL: bv32 := 0x0
  const MAE_MPORT_SELECTOR_ASSIGNED: bv32 := 0x100_0000
  const MAE_MPORT_SELECTOR_TYPE_PPORT: bv8 := 0x2
  const MAE_MPORT_SELECTOR_TYPE_FUNC: bv8 := 0x3
  const MAE_MPORT_SELECTOR_TYPE_MPORT_ID: bv8 := 0x4
  const MAE_MPORT_SELECTOR_FUNC_VF_ID_NULL: bv16 := 0xffff

  /**
   * A selector.  A function selector with vf == None names the PF itself
   * (VF_ID_NULL on the wire); pf == 0xff (PF_ID_CALLER) names the caller's PF.
   * Other holds every value whose type or index bits fit none of the named
   * forms.
   */
  datatype Selector =
    | Null
    | Assigned
    | PhysicalPort(pport: bv4)
    | Function(pf: bv8, vf: Option<bv16>)
    | MportId(id: bv24)
    | Other(word: bv32)
  {
    /** Selectors that name an m-port. */
    predicate NamesPort()
    {
      Assigned? || PhysicalPort? || Function? || MportId?
    }
  }

  function TypeOf(w: bv32): bv8
  {
    (w >> 24) as bv8
  }

  function IndexOf(w: bv32): bv24
  {
    (w & 0xff_ffff) as bv24
  }

  function Compose(kind: bv8, index: bv24): (w: bv32)
    ensures TypeOf(w) == kind && IndexOf(w) == index
  {
    (kind as bv32 << 24) | (index as bv32)
  }

  lemma ComposeSplit(w: bv32)
    ensures Compose(TypeOf(w), IndexOf(w)) == w
  {
  }

  lemma ComposeInjective(k1: bv8, i1: bv24, k2: bv8, i2: bv24)
    ensures Compose(k1, i1) == Compose(k2, i2) <==> k1 == k2 && i1 == i2
  {
  }

  /** The selector with the given TYPE and index bits. */
  function FromParts(kind: bv8, index: bv24): Selector
  {
    if kind == 0 && index == 0 then Null
    else if kind == 1 && index == 0 then Assigned
    else if kind == MAE_MPORT_SELECTOR_TYPE_PPORT && index < 16 then PhysicalPort(index as bv4)
    else if kind == MAE_MPORT_SELECTOR_TYPE_FUNC then
      var vf := (index & 0xffff) as bv16;
      Function((index >> 16) as bv8, if vf == MAE_MPORT_SELECTOR_FUNC_VF_ID_NULL then None else Some(vf))
    else if kind == MAE_MPORT_SELECTOR_TYPE_MPORT_ID then MportId(index)
    else Other(Compose(kind, index))
  }

  function DecodeSelector(w: bv32): (s: Selector)
    ensures s.Null? <==> w == MAE_MPORT_SELECTOR_NULL
    ensures s.Assigned? <==> w == MAE_MPORT_SELECTOR_ASSIGNED
    ensures s.MportId? <==> TypeOf(w) == MAE_MPORT_SELECTOR_TYPE_MPORT_ID
    ensures s.Function? <==> TypeOf(w) == MAE_MPORT_SELECTOR_TYPE_FUNC
  {
    ComposeSplit(w);
    ComposeInjective(TypeOf(w), IndexOf(w), 0, 0);
    ComposeInjective(TypeOf(w), IndexOf(w), 1, 0);
    FromParts(TypeOf(w), IndexOf(w))
  }

  /** TYPE byte and index bits of a named selector. */
  function PartsOf(s: Selector): (bv8, bv24)
    requires !s.Other?
  {
    match s
    case Null => (0, 0)
    case Assigned => (1, 0)
    case PhysicalPort(p) => (MAE_MPORT_SELECTOR_TYPE_PPORT, p as bv24)
    case Function(pf, vf) =>
      var v := if vf.Some? then vf.value else MAE_MPORT_SELECTOR_FUNC_VF_ID_NULL;
      (MAE_MPORT_SELECTOR_TYPE_FUNC, (pf as bv24 << 16) | (v as bv24))
    case MportId(id) => (MAE_MPORT_SELECTOR_TYPE_MPORT_ID, id)
  }

  function EncodeSelector(s: Selector): (w: bv32)
    ensures s.NamesPort() ==> w != MAE_MPORT_SELECTOR_NULL
  {
    if s.Other? then s.word
    else
      var (kind, index) := PartsOf(s);
      Compose(kind, index)
  }

  /** The one way of writing each selector: VF_ID_NULL is spelled None, and
      Other only holds values no named form covers. */
  predicate Canonical(s: Selector)
  {
    match s
    case Function(_, vf) => vf != Some(MAE_MPORT_SELECTOR_FUNC_VF_ID_NULL)
    case Other(w) => DecodeSelector(w).Other?
    case _ => true
  }

  lemma FunctionIndexSplit(pf: bv8, vf: bv16)
    ensures var index := (pf as bv24 << 16) | (vf as bv24);
            (index >> 16) as bv8 == pf && (index & 0xffff) as bv16 == vf
  {
  }

  lemma FunctionIndexJoin(index: bv24)
    ensures ((index >> 16) as bv8 as bv24 << 16) | ((index & 0xffff) as bv16 as bv24) == index
  {
  }

  lemma AssignedIsCallerType()
    ensures MAE_MPORT_SELECTOR_ASSIGNED == Compose(1, 0)
    ensures MAE_MPORT_SELECTOR_NULL == Compose(0, 0)
  {
  }

  lemma FromPartsOf(s: Selector)
    requires Canonical(s) && !s.Other?
    ensures FromParts(PartsOf(s).0, PartsOf(s).1) == s
  {
    match s {
      case PhysicalPort(p) =>
        assert (p as bv24) < 16 && (p as bv24) as bv4 == p;
      case Function(pf, vf) =>
        var v := if vf.Some? then vf.value else MAE_MPORT_SELECTOR_FUNC_VF_ID_NULL;
        FunctionIndexSplit(pf, v);
      case _ =>
    }
  }

  /** Decoding an encoded canonical selector gives it back. */
  lemma SelectorDecodeEncode(s: Selector)
    requires Canonical(s)
    ensures DecodeSelector(EncodeSelector(s)) == s
  {
    if !s.Other? {
      var (kind, index) := PartsOf(s);
      var w := Compose(kind, index);
      assert TypeOf(w) == kind && IndexOf(w) == index;
      FromPartsOf(s);
    }
  }

  lemma PartsOfFromParts(kind: bv8, index: bv24)
    requires !FromParts(kind, index).Other?
    ensures PartsOf(FromParts(kind, index)) == (kind, index)
  {
    if kind == MAE_MPORT_SELECTOR_TYPE_FUNC && !(kind == 1 && index == 0) {
      FunctionIndexJoin(index);
    } else if kind == MAE_MPORT_SELECTOR_TYPE_PPORT && index < 16 {
      assert (index as bv4) as bv24 == index;
    }
  }

  /** Every 32-bit value is the encoding of the selector it decodes to. */
  lemma SelectorEncodeDecode(w: bv32)
    ensures Canonical(DecodeSelector(w))
    ensures EncodeSelector(DecodeSelector(w)) == w
  {
    var kind, index := TypeOf(w), IndexOf(w);
    ComposeSplit(w);
    var s := FromParts(kind, index);
    if !s.Other? {
      PartsOfFromParts(kind, index);
    } else {
      assert DecodeSelector(Compose(kind, index)) == s;
    }
  }
}
