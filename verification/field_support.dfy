/**
 * Match-field support: the MAE_FIELD_SUPPORT_STATUS enumeration, the
 * MAE_FIELD_FLAGS word the capability queries return for every field, and
 * the rule that a field's support status puts on the mask a match rule may
 * carry for it.
 */
module FieldSupport {
  import opened Bytes

  datatype SupportStatus =
    | Unsupported
    | MatchNever
    | MatchAlways
    | MatchOptional
    | MatchPrefix
    | MatchMask

  const MAE_FIELD_UNSUPPORTED: bv6 := 0x0
  const MAE_FIELD_SUPPORTED_MATCH_NEVER: bv6 := 0x1
  const MAE_FIELD_SUPPORTED_MATCH_ALWAYS: bv6 := 0x2
  const MAE_FIELD_SUPPORTED_MATCH_OPTIONAL: bv6 := 0x3
  const MAE_FIELD_SUPPORTED_MATCH_PREFIX: bv6 := 0x4
  const MAE_FIELD_SUPPORTED_MATCH_MASK: bv6 := 0x5

  function StatusCode(s: SupportStatus): (code: bv6)
    ensures code <= MAE_FIELD_SUPPORTED_MATCH_MASK
    ensures StatusFromCode(code) == s
  {
    match s
    case Unsupported => MAE_FIELD_UNSUPPORTED
    case MatchNever => MAE_FIELD_SUPPORTED_MATCH_NEVER
    case MatchAlways => MAE_FIELD_SUPPORTED_MATCH_ALWAYS
    case MatchOptional => MAE_FIELD_SUPPORTED_MATCH_OPTIONAL
    case MatchPrefix => MAE_FIELD_SUPPORTED_MATCH_PREFIX
    case MatchMask => MAE_FIELD_SUPPORTED_MATCH_MASK
  }

  /** A status code the driver does not recognise counts as MATCH_NEVER. */
  function StatusFromCode(code: bv6): (s: SupportStatus)
    ensures code > MAE_FIELD_SUPPORTED_MATCH_MASK ==> s == MatchNever
  {
    if code == MAE_FIELD_UNSUPPORTED then Unsupported
    else if code == MAE_FIELD_SUPPORTED_MATCH_NEVER then MatchNever
    else if code == MAE_FIELD_SUPPORTED_MATCH_ALWAYS then MatchAlways
    else if code == MAE_FIELD_SUPPORTED_MATCH_OPTIONAL then MatchOptional
    else if code == MAE_FIELD_SUPPORTED_MATCH_PREFIX then MatchPrefix
    else if code == MAE_FIELD_SUPPORTED_MATCH_MASK then MatchMask
    else MatchNever
  }

  lemma StatusCodeInverse(code: bv6)
    requires code <= MAE_FIELD_SUPPORTED_MATCH_MASK
    ensures StatusCode(StatusFromCode(code)) == code
  {
  }

  // ----- MAE_FIELD_FLAGS: one 32-bit word per match field -----

  const MAE_FIELD_FLAGS_LEN: nat := 4

  datatype FieldFlags = FieldFlags(supportStatus: bv6, maskAffectsClass: bool, matchAffectsClass: bool)

  /** SUPPORT_STATUS in bits 0-5, MASK_AFFECTS_CLASS in bit 6, MATCH_AFFECTS_CLASS in bit 7. */
  function DecodeFieldFlags(w: bv32): (f: FieldFlags)
    ensures f.supportStatus as bv32 == w & 0x3f
    ensures f.maskAffectsClass <==> w & 0x40 != 0
    ensures f.matchAffectsClass <==> w & 0x80 != 0
  {
    FieldFlags((w & 0x3f) as bv6, w & 0x40 != 0, w & 0x80 != 0)
  }

  function EncodeFieldFlags(f: FieldFlags): (w: bv32)
    ensures w >> 8 == 0
    ensures DecodeFieldFlags(w) == f
  {
    (f.supportStatus as bv32)
      | (if f.maskAffectsClass then 0x40 else 0)
      | (if f.matchAffectsClass then 0x80 else 0)
  }

  /** Bits 8-31 of the word are not defined; on a word that leaves them clear
      decoding loses nothing. */
  lemma FieldFlagsEncodeDecode(w: bv32)
    requires w >> 8 == 0
    ensures EncodeFieldFlags(DecodeFieldFlags(w)) == w
  {
  }

  // ----- masks as bit strings, most significant bit first -----

  predicate AllZero(bits: seq<bool>)
  {
    forall i :: 0 <= i < |bits| ==> !bits[i]
  }

  predicate AllOnes(bits: seq<bool>)
  {
    forall i :: 0 <= i < |bits| ==> bits[i]
  }

  /** No one bit follows a zero bit: a run of ones from the MSB, then zeros. */
  predicate IsPrefixMask(bits: seq<bool>)
  {
    forall i, j :: 0 <= i < j < |bits| && !bits[i] ==> !bits[j]
  }

  /** The width-bit mask whose first n bits are set. */
  function PrefixOfLength(n: nat, width: nat): (bits: seq<bool>)
    ensures |bits| == width
  {
    seq(width, i => i < n)
  }

  /** A prefix mask is exactly a mask of the form 1...10...0 (zero and all
      ones included). */
  lemma PrefixMaskShape(bits: seq<bool>)
    ensures IsPrefixMask(bits) <==> exists n :: 0 <= n <= |bits| && bits == PrefixOfLength(n, |bits|)
  {
    if IsPrefixMask(bits) {
      var n := CountLeadingOnes(bits);
      assert bits == PrefixOfLength(n, |bits|);
    }
  }

  function CountLeadingOnes(bits: seq<bool>): (n: nat)
    ensures n <= |bits|
    ensures forall i :: 0 <= i < n ==> bits[i]
    ensures n < |bits| ==> !bits[n]
  {
    if |bits| == 0 || !bits[0] then 0 else 1 + CountLeadingOnes(bits[1..])
  }

  /** The masks a field with support status s may carry in a match rule. */
  predicate MaskPermitted(s: SupportStatus, bits: seq<bool>)
  {
    match s
    case Unsupported => AllZero(bits)
    case MatchNever => AllZero(bits)
    case MatchAlways => AllOnes(bits)
    case MatchOptional => AllZero(bits) || AllOnes(bits)
    case MatchPrefix => IsPrefixMask(bits)
    case MatchMask => true
  }

  /** One pass over the mask that decides MaskPermitted. */
  method CheckMask(s: SupportStatus, bits: seq<bool>) returns (ok: bool)
    ensures ok <==> MaskPermitted(s, bits)
  {
    var anyOne, anyZero, prefix := false, false, true;
    var i := 0;
    while i < |bits|
      invariant 0 <= i <= |bits|
      invariant anyOne <==> exists k :: 0 <= k < i && bits[k]
      invariant anyZero <==> exists k :: 0 <= k < i && !bits[k]
      invariant prefix <==> IsPrefixMask(bits[..i])
    {
      if bits[i] && anyZero {
        prefix := false;
      }
      if bits[i] {
        anyOne := true;
      } else {
        anyZero := true;
      }
      i := i + 1;
    }
    assert bits[..i] == bits;
    match s {
      case Unsupported => ok := !anyOne;
      case MatchNever => ok := !anyOne;
      case MatchAlways => ok := !anyZero;
      case MatchOptional => ok := !anyOne || !anyZero;
      case MatchPrefix => ok := prefix;
      case MatchMask => ok := true;
    }
  }

  /** An all-zero mask (the field is ignored) suits every status except
      MATCH_ALWAYS; on an empty mask every status is satisfied. */
  lemma ZeroMaskPermitted(s: SupportStatus, bits: seq<bool>)
    requires AllZero(bits)
    ensures MaskPermitted(s, bits) <==> (s != MatchAlways || |bits| == 0)
  {
    if s == MatchAlways && |bits| > 0 {
      assert !bits[0];
    }
  }

  /** The status orders from strictest to loosest: a mask allowed under
      OPTIONAL is allowed under PREFIX, and anything is allowed under MASK. */
  lemma OptionalImpliesPrefix(bits: seq<bool>)
    requires MaskPermitted(MatchOptional, bits)
    ensures MaskPermitted(MatchPrefix, bits)
  {
  }

  // ----- what the capability queries report -----

  /**
   * MATCH_FIELD_COUNT from MAE_GET_CAPABILITIES together with the
   * FIELD_FLAGS array of MAE_GET_ACTION_RULE_CAPS or MAE_GET_OUTER_RULE_CAPS,
   * which is indexed by MAE_FIELD identifier.
   */
  datatype FieldCaps = FieldCaps(matchFieldCount: nat, fieldFlags: seq<FieldFlags>)

  /**
   * The support status of field id.  Identifiers at or above
   * MATCH_FIELD_COUNT are UNSUPPORTED, and so is an identifier the
   * FIELD_FLAGS array does not reach.
   */
  function StatusOf(caps: FieldCaps, id: nat): (s: SupportStatus)
    ensures id >= caps.matchFieldCount || id >= |caps.fieldFlags| ==> s == Unsupported
  {
    if id < caps.matchFieldCount && id < |caps.fieldFlags| then
      StatusFromCode(caps.fieldFlags[id].supportStatus)
    else
      Unsupported
  }

  /** A field the NIC does not know, or reports with an unrecognised status,
      can only appear in a rule with a zero mask. */
  lemma UnknownFieldNeedsZeroMask(caps: FieldCaps, id: nat, bits: seq<bool>)
    requires id >= caps.matchFieldCount || id >= |caps.fieldFlags|
             || caps.fieldFlags[id].supportStatus > MAE_FIELD_SUPPORTED_MATCH_MASK
    requires MaskPermitted(StatusOf(caps, id), bits)
    ensures AllZero(bits)
  {
  }

  // ----- the bits of a mask held in bytes -----

  /** Bit k of b counting from the most significant bit (k = 0). */
  function BitOf(b: byte, k: nat): bool
    requires k < 8
  {
    b & (0x80 >> (k as bv8)) != 0
  }

  function BitsMsbFirst(bytes: seq<byte>): (bits: seq<bool>)
    ensures |bits| == 8 * |bytes|
  {
    seq(8 * |bytes|, i requires 0 <= i < 8 * |bytes| => BitOf(bytes[i / 8], i % 8))
  }

  function Reverse(s: seq<byte>): (r: seq<byte>)
    ensures |r| == |s|
    ensures forall i :: 0 <= i < |s| ==> r[i] == s[|s| - 1 - i]
  {
    seq(|s|, i requires 0 <= i < |s| => s[|s| - 1 - i])
  }

  /**
   * The mask bits of a field, most significant first.  A _BE field is in
   * network order, so its first byte is the most significant; any other
   * field is a little-endian MCDI integer, whose last byte is.
   */
  function MaskBits(mask: seq<byte>, bigEndian: bool): (bits: seq<bool>)
    ensures |bits| == 8 * |mask|
  {
    if bigEndian then BitsMsbFirst(mask) else BitsMsbFirst(Reverse(mask))
  }

  lemma ByteBitsZero(b: byte)
    ensures (forall k: nat :: k < 8 ==> !BitOf(b, k)) <==> b == 0
  {
    if b != 0 {
      if b & 0x80 != 0 { assert BitOf(b, 0); }
      else if b & 0x40 != 0 { assert BitOf(b, 1); }
      else if b & 0x20 != 0 { assert BitOf(b, 2); }
      else if b & 0x10 != 0 { assert BitOf(b, 3); }
      else if b & 0x08 != 0 { assert BitOf(b, 4); }
      else if b & 0x04 != 0 { assert BitOf(b, 5); }
      else if b & 0x02 != 0 { assert BitOf(b, 6); }
      else { assert BitOf(b, 7); }
    }
  }

  lemma BitsMsbFirstZero(bytes: seq<byte>)
    ensures AllZero(BitsMsbFirst(bytes)) <==> forall i :: 0 <= i < |bytes| ==> bytes[i] == 0
  {
    var bits := BitsMsbFirst(bytes);
    if AllZero(bits) {
      forall i | 0 <= i < |bytes| ensures bytes[i] == 0 {
        forall k: nat | k < 8 ensures !BitOf(bytes[i], k) {
          assert (8 * i + k) / 8 == i && (8 * i + k) % 8 == k;
          assert !bits[8 * i + k];
        }
        ByteBitsZero(bytes[i]);
      }
    } else {
      var j :| 0 <= j < |bits| && bits[j];
      assert BitOf(bytes[j / 8], j % 8);
    }
  }

  /** A mask's bits are all clear exactly when its bytes are all zero. */
  lemma MaskBitsZero(mask: seq<byte>, bigEndian: bool)
    ensures AllZero(MaskBits(mask, bigEndian)) <==> forall i :: 0 <= i < |mask| ==> mask[i] == 0
  {
    var bytes := if bigEndian then mask else Reverse(mask);
    BitsMsbFirstZero(bytes);
    if !bigEndian {
      assert (forall i :: 0 <= i < |mask| ==> mask[i] == 0)
             <==> (forall i :: 0 <= i < |bytes| ==> bytes[i] == 0) by {
        if forall i :: 0 <= i < |bytes| ==> bytes[i] == 0 {
          forall i | 0 <= i < |mask| ensures mask[i] == 0 {
            assert mask[i] == bytes[|mask| - 1 - i];
          }
        }
      }
    }
  }
}
