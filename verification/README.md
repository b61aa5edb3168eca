# MAE MCDI codec, match-mask rules and TC offload helpers

A Dafny model of the part of the sfc Linux net driver that talks to the
NIC's Match-Action Engine (MAE):

- the MCDI wire formats of `mcdi_pcol_mae.h`: the field-flags word, m-port
  selectors, counter rows, the action-rule response, the `ACTION_SET_ALLOC`
  flags word, the two `LOOKUP_CONTROL` words, the base, V2 and outer
  mask/value-pair blocks, `GET_CAPABILITIES`, and every variable-length
  request or response whose element count is `(len - fixed) / elemsize`.
  Each is an encode/decode pair over `seq<bv8>`. Every encoder has a decode
  round trip, in its own contract or in a lemma (for m-port selectors,
  `SelectorDecodeEncode`, which covers the canonical ones). Each decoder
  has a re-encode fact, in its own contract or in a lemma: a buffer it
  accepts re-encodes to itself whenever the bits and bytes the decoder ignores (undefined flag bits, reserved words,
  padding between pairs) are zero. `GET_CAPABILITIES` is the exception:
  the header's layout loses a field (see Findings), and the model decodes
  the corrected 48-byte layout;
- the mask validation rules that each `MAE_FIELD_SUPPORT_STATUS` level
  imposes, including the rules for statuses the driver does not recognise
  and for field ids at or above `MATCH_FIELD_COUNT`;
- the firmware's allocate/free contract, as an abstract pool of 32-bit
  identifiers (`Pool`);
- the pure helpers and sizing constants of `tc.h`:
  - `efx_tc_match_is_encap`;
  - the default-rule index arithmetic;
  - rule priorities;
  - the counter table, its DMA page and the counter read-back update;
  - the VLAN bit-fields of `efx_tc_action_set`.

Modules follow the header's structure:

| module | file | contents |
|---|---|---|
| `Wrappers` | wrappers.dfy | `Option`, `Result`, `Error` |
| `Bytes` | bytes.dfy | LE16/32/64 and BE16 codecs, word arrays |
| `Layout` | layout.dfy | regions of a fixed-size buffer |
| `FieldSupport` | field_support.dfy | support statuses, `MAE_FIELD_FLAGS`, mask rules |
| `MatchPairs` | match_pairs.dfy | mask/value-pair blocks, block validation |
| `Mport` | mport.dfy | `MAE_MPORT_SELECTOR` |
| `Counters` | counters.dfy | `MAE_COUNTER_VALUE`, `COUNTERS_READ` |
| `VarLen` | varlen.dfy | `LEN(num)` / `NUM(len)` layouts and their messages |
| `Pool` | pool.dfy | alloc/free contract |
| `ActionSet` | action_set.dfy | `ACTION_SET_ALLOC` |
| `ActionRule` | action_rule.dfy | `MAE_ACTION_RULE_RESPONSE`, `ACTION_RULE_INSERT`/`UPDATE` |
| `OuterRule` | outer_rule.dfy | `OUTER_RULE_INSERT`, encap types |
| `Capabilities` | capabilities.dfy | `GET_CAPABILITIES` |
| `Tc` | tc.dfy | the `tc.h` helpers |

Modelling choices:

- A message is a byte sequence. MCDI transport, DMA addresses and the
  functions that send commands are not modelled. `COUNTERS_READ` takes the
  host buffer and the NIC's live counter values as parameters.
- Every decoder returns a `Result`. A wrong length is `MalformedMessage`.
  A request the firmware must refuse is `InvalidArgument`, for example two
  counters in one action set.
- The pool stands in for the firmware's allocator. The identifiers the
  firmware would choose are passed in as an `offer` (or a `candidate`).

## Model

| member | source | states |
|---|---|---|
| FieldSupport.StatusCode | src/driver/linux_net/mcdi_pcol_mae.h:39-77 | each of the six support statuses has a code at most MATCH_MASK (5), and decoding that code gives the status back |
| FieldSupport.StatusFromCode | src/driver/linux_net/mcdi_pcol_mae.h:46-49 | a status code the driver does not recognise (above 5) is read as MATCH_NEVER |
| FieldSupport.StatusCodeInverse | src/driver/linux_net/mcdi_pcol_mae.h:39-77 | every recognised code survives decode then encode |
| FieldSupport.DecodeFieldFlags | src/driver/linux_net/mcdi_pcol_mae.h:258-272 | SUPPORT_STATUS is bits 0-5, MASK_AFFECTS_CLASS is bit 6, MATCH_AFFECTS_CLASS is bit 7 |
| FieldSupport.EncodeFieldFlags | src/driver/linux_net/mcdi_pcol_mae.h:258-272 | the encoding sets no bit above 7, and decoding it returns the same three fields |
| FieldSupport.FieldFlagsEncodeDecode | src/driver/linux_net/mcdi_pcol_mae.h:258-272 | a word with no bit above 7 is re-encoded unchanged |
| FieldSupport.PrefixMaskShape | src/driver/linux_net/mcdi_pcol_mae.h:68-73 | a mask is a prefix mask iff it is n ones from the MSB followed by zeros, for some n |
| FieldSupport.CheckMask | src/driver/linux_net/mcdi_pcol_mae.h:39-77 | a loop over the mask's bits accepts exactly the masks the status permits: zero for UNSUPPORTED and MATCH_NEVER, all ones for MATCH_ALWAYS, zero or all ones for MATCH_OPTIONAL, zero or a prefix for MATCH_PREFIX, anything for MATCH_MASK |
| FieldSupport.ZeroMaskPermitted | src/driver/linux_net/mcdi_pcol_mae.h:39-77 | an all-zero mask is permitted under every status except MATCH_ALWAYS (for a field of non-zero width) |
| FieldSupport.OptionalImpliesPrefix | src/driver/linux_net/mcdi_pcol_mae.h:62-73 | every mask MATCH_OPTIONAL accepts, MATCH_PREFIX accepts too |
| FieldSupport.StatusOf | src/driver/linux_net/mcdi_pcol_mae.h:1263-1266 | a field id at or above MATCH_FIELD_COUNT, or beyond the reported flags, is UNSUPPORTED |
| FieldSupport.UnknownFieldNeedsZeroMask | src/driver/linux_net/mcdi_pcol_mae.h:1263-1266 | for an out-of-range field id, a permitted mask is all zero |
| MatchPairs.EncLayoutInOrder | src/driver/linux_net/mcdi_pcol_mae.h:274-428 | the outer-rule pair offsets are increasing and end within 156 bytes |
| MatchPairs.BaseLayoutInOrder | src/driver/linux_net/mcdi_pcol_mae.h:429-761 | the base pair offsets, with ENCAP_RULE_ID and OUTER_RULE_ID as one slot at 176, are increasing and end within 344 bytes |
| MatchPairs.V2ExtraAfterBase | src/driver/linux_net/mcdi_pcol_mae.h:1092-1154 | the V2-only slots all start at or after offset 344 and end within 372 bytes |
| MatchPairs.V2LayoutInOrder | src/driver/linux_net/mcdi_pcol_mae.h:762-1154 | the V2 offsets are increasing and end within 372 bytes |
| MatchPairs.EncodeBlock | src/driver/linux_net/mcdi_pcol_mae.h:429-761 | the block is total bytes long, its padding is zero, and decoding it returns the pairs |
| MatchPairs.DecodeBlock | src/driver/linux_net/mcdi_pcol_mae.h:429-761 | succeeds iff the buffer has the block's length, and every value and mask has its field's width |
| MatchPairs.EncodeDecodeBlock | src/driver/linux_net/mcdi_pcol_mae.h:429-761 | re-encoding a decoded block gives back the buffer |
| MatchPairs.EncodeCriteria | src/driver/linux_net/mcdi_pcol_mae.h:429-1154 | base criteria encode to 344 bytes and V2 criteria to 372, and decoding returns them |
| MatchPairs.DecodeCriteria | src/driver/linux_net/mcdi_pcol_mae.h:429-1154 | exactly the 344-byte and 372-byte buffers decode, to criteria of the matching length |
| MatchPairs.V2ExtendsBase | src/driver/linux_net/mcdi_pcol_mae.h:762-1092 | the first 344 bytes of a V2 block decode as the base pairs of the V2 decoding |
| MatchPairs.V2EncodingKeepsBasePrefix | src/driver/linux_net/mcdi_pcol_mae.h:762-1092 | a V2 encoding starts with the base encoding of its base pairs |
| MatchPairs.EncodeEncCriteria | src/driver/linux_net/mcdi_pcol_mae.h:274-428 | outer-rule pairs encode to 156 bytes, and decoding returns them |
| MatchPairs.DecodeEncCriteria | src/driver/linux_net/mcdi_pcol_mae.h:274-428 | succeeds iff the buffer is 156 bytes long |
| MatchPairs.EncCriteriaReencode | src/driver/linux_net/mcdi_pcol_mae.h:274-428 | a 156-byte outer block whose padding is zero re-encodes to itself |
| MatchPairs.CriteriaReencode | src/driver/linux_net/mcdi_pcol_mae.h:429-1154 | a 344-byte base or 372-byte V2 block whose padding is zero decodes and re-encodes to itself |
| MatchPairs.CheckPair | src/driver/linux_net/mcdi_pcol_mae.h:39-77 | one pair is accepted iff its mask is permitted by the status of its field; for the V2 FLAGS word, each of bits 0-2 is checked against its own field's status |
| MatchPairs.ValidateBlock | src/driver/linux_net/mcdi_pcol_mae.h:39-77 | a block succeeds iff every pair is permitted, and otherwise fails with UnsupportedMatchField |
| MatchPairs.PermittedUnknownFieldIsZero | src/driver/linux_net/mcdi_pcol_mae.h:1263-1266 | in a permitted block, the mask of a field the NIC does not report is all zero |
| MatchPairs.WildcardPermitted | src/driver/linux_net/mcdi_pcol_mae.h:39-77 | an all-zero block is permitted when no field, and no flag bit, is MATCH_ALWAYS |
| Mport.Compose | src/driver/linux_net/mcdi_pcol_mae.h:1193-1204 | the type is bits 24-31 and the index bits 0-23 |
| Mport.ComposeSplit | src/driver/linux_net/mcdi_pcol_mae.h:1193-1204 | a selector word is the composition of its type and index |
| Mport.ComposeInjective | src/driver/linux_net/mcdi_pcol_mae.h:1193-1204 | two selectors are equal iff they have the same type and index |
| Mport.DecodeSelector | src/driver/linux_net/mcdi_pcol_mae.h:1182-1229 | exactly the word 0 is NULL and exactly 0x1000000 is ASSIGNED; a type byte of 4 gives an mport_id and 3 a PCIe function |
| Mport.EncodeSelector | src/driver/linux_net/mcdi_pcol_mae.h:1189-1190 | a selector that names a port never encodes as NULL |
| Mport.FunctionIndexSplit | src/driver/linux_net/mcdi_pcol_mae.h:1208-1213 | a FUNC index holds PF_ID in bits 16-23 and VF_ID in bits 0-15 |
| Mport.AssignedIsCallerType | src/driver/linux_net/mcdi_pcol_mae.h:1189-1192 | ASSIGNED is type 1 with index 0, and NULL is type 0 with index 0 |
| Mport.SelectorDecodeEncode | src/driver/linux_net/mcdi_pcol_mae.h:1182-1229 | decoding the encoding of a canonical selector returns it, including a FUNC with VF_ID 0xffff for the PF itself |
| Mport.SelectorEncodeDecode | src/driver/linux_net/mcdi_pcol_mae.h:1182-1229 | every 32-bit word decodes to a canonical selector that re-encodes to the same word |
| Counters.EncodeCounterValue | src/driver/linux_net/mcdi_pcol_mae.h:1231-1245 | a row is 16 bytes: packets as a u64 at offset 0, bytes as a u64 at offset 8 |
| Counters.DecodeCounterValue | src/driver/linux_net/mcdi_pcol_mae.h:1231-1245 | succeeds iff the row is 16 bytes, and re-encoding gives back the row |
| Counters.CounterValueRoundTrip | src/driver/linux_net/mcdi_pcol_mae.h:1231-1245 | decoding an encoded row gives the same values |
| Counters.EncodeCountersReadIn | src/driver/linux_net/mcdi_pcol_mae.h:1536-1552 | the request is 12 bytes and decodes back to MAX_COUNTERS and the DMA address |
| Counters.DecodeCountersReadIn | src/driver/linux_net/mcdi_pcol_mae.h:1536-1552 | decodes exactly the 12-byte requests, with MAX_COUNTERS the word at 0 and DMA_ADDR the u64 at 4 |
| Counters.CountersReadInReencode | src/driver/linux_net/mcdi_pcol_mae.h:1536-1552 | any 12-byte request re-encodes unchanged |
| Counters.CountersRead | src/driver/linux_net/mcdi_pcol_mae.h:1536-1552 | the table keeps the host buffer's length; row id holds the live counter's value for each live id below MAX_COUNTERS; other rows below MAX_COUNTERS are assumed unchanged (see Left out); nothing past MAX_COUNTERS rows is written |
| Counters.RowAfterWrite | src/driver/linux_net/mcdi_pcol_mae.h:1231-1245 | writing row id sets that row and leaves every other byte unchanged |
| Counters.LookupCounter | src/driver/linux_net/mcdi_pcol_mae.h:1538-1545 | the driver finds a row for exactly the ids below MAX_COUNTERS, and that row's values |
| Counters.LookupAfterRead | src/driver/linux_net/mcdi_pcol_mae.h:1536-1552 | after COUNTERS_READ, a live id below MAX_COUNTERS reads back the NIC's value, another id below it reads the buffer's old row (under the same assumption as CountersRead), and an id at or above it reads nothing |
| VarLen.LayoutsWellFormed | src/driver/linux_net/mcdi_pcol_mae.h:1331-2578 | every variable-length layout of the header has LENMIN = LEN(MINNUM) and LENMAX = LEN(MAXNUM), for MCDI v1 and v2 |
| VarLen.NumOfLenOf | src/driver/linux_net/mcdi_pcol_mae.h:1389-1405 | NUM(LEN(n)) == n |
| VarLen.LenRangeIsNumRange | src/driver/linux_net/mcdi_pcol_mae.h:1389-1405 | LEN(n) lies in LENMIN..LENMAX iff n lies in MINNUM..MAXNUM |
| VarLen.ParseCount | src/driver/linux_net/mcdi_pcol_mae.h:1389-1405 | a length parses iff it is in range and a whole number of elements past the fixed part, and the count's LEN is that length |
| VarLen.EncodeVar | src/driver/linux_net/mcdi_pcol_mae.h:2222-2242 | a message encodes iff its header is the fixed part and its length is valid, and decoding gives the message back |
| VarLen.DecodeVar | src/driver/linux_net/mcdi_pcol_mae.h:2222-2242 | decodes exactly the buffers of valid length, splitting at the fixed part |
| VarLen.VarReencode | src/driver/linux_net/mcdi_pcol_mae.h:2222-2242 | re-encoding a decoded message gives back the buffer |
| VarLen.EncodeIdList | src/driver/linux_net/mcdi_pcol_mae.h:1419-1454 | an id array encodes iff its count is in MINNUM..MAXNUM, and decodes back |
| VarLen.DecodeIdList | src/driver/linux_net/mcdi_pcol_mae.h:1419-1454 | decodes exactly the valid lengths, to NUM(len) ids |
| VarLen.IdListReencode | src/driver/linux_net/mcdi_pcol_mae.h:1419-1454 | re-encoding a decoded id array gives back the buffer |
| VarLen.EncodeEncapHeaderAlloc | src/driver/linux_net/mcdi_pcol_mae.h:1569-1581 | encodes iff the header data has at most MAXNUM (248, or 1016 for MCDI v2) bytes, and decodes back |
| VarLen.DecodeEncapHeaderAlloc | src/driver/linux_net/mcdi_pcol_mae.h:1569-1581 | decodes exactly the lengths 4+n with n in range; ENCAP_TYPE is the word at 0 and HDR_DATA is every byte from 4 |
| VarLen.EncapHeaderAllocReencode | src/driver/linux_net/mcdi_pcol_mae.h:1569-1581 | re-encoding a decoded ENCAP_HEADER_ALLOC request gives back the buffer |
| VarLen.EncodeEncapHeaderUpdate | src/driver/linux_net/mcdi_pcol_mae.h:1602-1617 | encodes iff the header data has at most MAXNUM (244, or 1012) bytes, and decodes back |
| VarLen.DecodeEncapHeaderUpdate | src/driver/linux_net/mcdi_pcol_mae.h:1602-1617 | decodes exactly the lengths 8+n with n in range; EH_ID is the word at 0, ENCAP_TYPE the word at 4 and HDR_DATA every byte from 8 |
| VarLen.EncapHeaderUpdateReencode | src/driver/linux_net/mcdi_pcol_mae.h:1602-1617 | re-encoding a decoded ENCAP_HEADER_UPDATE request gives back the buffer |
| VarLen.EncodeUpdateHeader | src/driver/linux_net/mcdi_pcol_mae.h:1608-1611 | EH_ID is at offset 0 and ENCAP_TYPE at offset 4 |
| VarLen.ClassRegisterLayoutsAgree | src/driver/linux_net/mcdi_pcol_mae.h:2105-2116 | the outer-rule and action-rule class-register requests have the same layout |
| VarLen.EncodeClassRegister | src/driver/linux_net/mcdi_pcol_mae.h:1939-1950 | encodes iff the field bytes fit MAXNUM, and decodes back |
| VarLen.DecodeClassRegister | src/driver/linux_net/mcdi_pcol_mae.h:1939-1950 | decodes exactly the valid lengths; PRIO is the word at 0 and the NUM(len) field bytes are every byte from 4 |
| VarLen.ClassRegisterReencode | src/driver/linux_net/mcdi_pcol_mae.h:1939-1950 | re-encoding a decoded class-register request gives back the buffer |
| Pool.Alloc | src/driver/linux_net/mcdi_pcol_mae.h:1383-1405 | an allocation yields between 1 and REQUESTED_COUNT distinct, previously free, non-NULL ids, never more than one response carries; it fails only when no such id exists |
| Pool.FreeAll | src/driver/linux_net/mcdi_pcol_mae.h:1440-1449 | the freed ids are the requested ids that were allocated, each freed once, and, when all are freed, exactly the request |
| Pool.Free | src/driver/linux_net/mcdi_pcol_mae.h:1419-1454 | between 1 and the number requested are freed; all are freed iff the driver asked only for ids it owns, without repeats; freeing nothing is an error |
| Pool.CheckFreed | src/driver/linux_net/mcdi_pcol_mae.h:1440-1449 | the driver reports PartialFree exactly when fewer ids came back than it asked to free |
| Pool.CorrectFreeIsComplete | src/driver/linux_net/mcdi_pcol_mae.h:1440-1449 | for a correct driver, checking that every requested id was freed never fails |
| Pool.AllocThenFree | src/driver/linux_net/mcdi_pcol_mae.h:1383-1454 | freeing the ids just allocated restores the pool and frees them all |
| Pool.Create | src/driver/linux_net/mcdi_pcol_mae.h:1808-1814 | a single-object command makes its id live unless it is NULL or already in use |
| Pool.DecodeIdReply | src/driver/linux_net/mcdi_pcol_mae.h:2052-2058 | a single-id reply decodes iff it is 4 bytes holding a non-NULL id |
| Pool.CreateReplyRoundTrip | src/driver/linux_net/mcdi_pcol_mae.h:1808-1814 | the id the firmware creates is the id the driver reads back |
| Pool.CreateThenFree | src/driver/linux_net/mcdi_pcol_mae.h:1825-1850 | freeing the object just created restores the pool |
| Pool.ServeCounterAlloc | src/driver/linux_net/mcdi_pcol_mae.h:1383-1405 | a request that is not 4 bytes is refused; a reply carries between 1 and REQUESTED_COUNT new ids |
| Pool.ServeFree | src/driver/linux_net/mcdi_pcol_mae.h:1419-1454 | a request of invalid length is refused; the reply lists no more ids than asked, all of them iff the driver was correct |
| Pool.FreeLayoutsFit | src/driver/linux_net/mcdi_pcol_mae.h:1419-2578 | every free response can carry as many ids as its request |
| ActionSet.EncodeActionFlags | src/driver/linux_net/mcdi_pcol_mae.h:1724-1746 | VLAN_PUSH sits in bits 0-1, VLAN_POP in 4-5, DECAP in 8, MARK in 9, FLAG in 10 and DO_NAT in 11; no other bit is set, and decoding returns the flags |
| ActionSet.ActionFlagsReencode | src/driver/linux_net/mcdi_pcol_mae.h:1724-1746 | a flags word with only defined bits re-encodes unchanged |
| ActionSet.EncodeActionSetAlloc | src/driver/linux_net/mcdi_pcol_mae.h:1722-1806 | encodes to 36 bytes iff the action set does not name both a counter list and a counter, and decodes back |
| ActionSet.DecodeActionSetAlloc | src/driver/linux_net/mcdi_pcol_mae.h:1722-1806 | a request that is not 36 bytes is malformed; one naming two counters is refused; otherwise each field is read at its offset, the VLAN fields in network order |
| ActionSet.ActionSetReencode | src/driver/linux_net/mcdi_pcol_mae.h:1722-1806 | an accepted request with only defined flag bits re-encodes unchanged |
| ActionSet.PushedTags | src/driver/linux_net/mcdi_pcol_mae.h:1724-1757 | VLAN_PUSH 0, 1 or 2 pushes that many tags, VLAN0 first and VLAN1 only for 2; VLAN_PUSH 3 has no defined tags |
| ActionSet.DeliverTo | src/driver/linux_net/mcdi_pcol_mae.h:1762-1766 | delivery is suppressed exactly when DELIVER is MPORT_SELECTOR_NULL |
| ActionSet.CounterOf | src/driver/linux_net/mcdi_pcol_mae.h:1778-1804 | an action set counts through no counter, a counter list or a single counter, exactly as the two ids say |
| ActionSet.DecodedCountersExclusive | src/driver/linux_net/mcdi_pcol_mae.h:1778-1782 | an accepted request never names both a counter list and a counter |
| ActionRule.CtVniModeCode | src/driver/linux_net/mcdi_pcol_mae.h:79-92 | the four conntrack VNI modes have codes 0-3 that decode back |
| ActionRule.CtVniModeCodeOf | src/driver/linux_net/mcdi_pcol_mae.h:79-92 | every 2-bit code re-encodes unchanged |
| ActionRule.EncodeLookupControl | src/driver/linux_net/mcdi_pcol_mae.h:2180-2200 | LOOKUP_CONTROL sets only its defined bits and decodes back |
| ActionRule.LookupControlReencode | src/driver/linux_net/mcdi_pcol_mae.h:2180-2200 | a word with only defined bits re-encodes unchanged |
| ActionRule.CheckResponse | src/driver/linux_net/mcdi_pcol_mae.h:2164-2207 | a response is refused iff DO_CT and DO_RECIRC are both set, or a counter is named without either, or both ASL_ID and AS_ID are non-NULL (the same rule as COUNTER_LIST_ID against COUNTER_ID) |
| ActionRule.EncodeResponse | src/driver/linux_net/mcdi_pcol_mae.h:2164-2207 | a response is 16 bytes and decodes back |
| ActionRule.DecodeResponse | src/driver/linux_net/mcdi_pcol_mae.h:2164-2207 | decodes exactly the 16-byte buffers, each field at its offset |
| ActionRule.ResponseReencode | src/driver/linux_net/mcdi_pcol_mae.h:2164-2207 | a 16-byte response whose LOOKUP_CONTROL has only defined bits re-encodes to itself |
| ActionRule.EncodeActionRuleInsert | src/driver/linux_net/mcdi_pcol_mae.h:2222-2242 | an insert encodes iff its response is valid and 28 + criteria bytes fit the MCDI version; it carries the response at bytes 4-20 and decodes back |
| ActionRule.InsertRoundTrip | src/driver/linux_net/mcdi_pcol_mae.h:2222-2242 | the header and criteria the encoder writes are read back as the same insert |
| ActionRule.DecodeActionRuleInsert | src/driver/linux_net/mcdi_pcol_mae.h:2222-2242 | an insert is accepted iff its length is valid, RSVD at 24 is zero, the response read from bytes 4-20 is valid and the criteria at 28 decode; PRIO is the word at 0 |
| ActionRule.ActionRuleInsertReencode | src/driver/linux_net/mcdi_pcol_mae.h:2222-2242 | an accepted insert whose LOOKUP_CONTROL has only defined bits, whose bytes 20-24 are zero and whose criteria padding is zero re-encodes to itself |
| ActionRule.InsertNeedsMcdi2 | src/driver/linux_net/mcdi_pcol_mae.h:2223-2226 | no insert fits MCDI v1, since 28 + 344 exceeds 252 |
| ActionRule.EncodeActionRuleUpdate | src/driver/linux_net/mcdi_pcol_mae.h:2263-2273 | an update encodes iff its response is valid, to 24 bytes that carry the response at bytes 4-20 and decode back |
| ActionRule.DecodeActionRuleUpdate | src/driver/linux_net/mcdi_pcol_mae.h:2263-2273 | an update is accepted iff it is 24 bytes and the response read from bytes 4-20 is valid; AR_ID is the word at 0 |
| ActionRule.ActionRuleUpdateReencode | src/driver/linux_net/mcdi_pcol_mae.h:2263-2273 | an accepted update whose LOOKUP_CONTROL has only defined bits and whose bytes 20-24 are zero re-encodes to itself |
| OuterRule.EncapTypeCode | src/driver/linux_net/mcdi_pcol_mae.h:250-256 | the encap types have codes NONE 0, VXLAN 1, NVGRE 2, GENEVE 3, others 0x3e7, which decode back |
| OuterRule.EncapTypeCodeOf | src/driver/linux_net/mcdi_pcol_mae.h:250-256 | every recognised code re-encodes unchanged |
| OuterRule.EncodeOuterLookupControl | src/driver/linux_net/mcdi_pcol_mae.h:2026-2041 | the outer LOOKUP_CONTROL sets only its defined bits and decodes back |
| OuterRule.OuterLookupControlReencode | src/driver/linux_net/mcdi_pcol_mae.h:2026-2041 | a word with only defined bits re-encodes unchanged |
| OuterRule.EncodeOuterRuleInsert | src/driver/linux_net/mcdi_pcol_mae.h:2007-2050 | an insert is 16 + 156 bytes and decodes back |
| OuterRule.DecodeOuterRuleInsert | src/driver/linux_net/mcdi_pcol_mae.h:2007-2050 | an insert is accepted iff it is 172 bytes and RSVD at 12 is zero; ENCAP_TYPE is at 0, PRIO at 4, LOOKUP_CONTROL at 8 and the outer pairs at 16 |
| OuterRule.OuterRuleInsertReencode | src/driver/linux_net/mcdi_pcol_mae.h:2007-2050 | an accepted insert whose LOOKUP_CONTROL has only defined bits and whose pair padding is zero re-encodes to itself |
| OuterRule.OuterRuleFitsMcdi1 | src/driver/linux_net/mcdi_pcol_mae.h:2008-2011 | an outer-rule insert fits an MCDI v1 request |
| Capabilities.EncodeCapabilitiesAsWritten | src/driver/linux_net/mcdi_pcol_mae.h:1261-1316 | at the header's offsets the response is 44 bytes, with ENCAP_PRIOS in the word at 36 (over ACTION_RULES) and ACTION_PRIOS at 40 |
| Capabilities.DecodeCapabilitiesAsWritten | src/driver/linux_net/mcdi_pcol_mae.h:1261-1316 | at the header's offsets a response decodes iff it has at least 44 bytes; ACTION_RULES and ENCAP_PRIOS both read the word at 36, and ACTION_PRIOS the word at 40 |
| Capabilities.AsWrittenEncapPriosIsActionRules | src/driver/linux_net/mcdi_pcol_mae.h:1305-1311 | at the header's offsets, ENCAP_PRIOS always reads the same as ACTION_RULES |
| Capabilities.AsWrittenLosesActionRules | src/driver/linux_net/mcdi_pcol_mae.h:1305-1316 | 4096 action rules with 4 encap priorities do not survive the as-written round trip |
| Capabilities.EncodeCapabilities | src/driver/linux_net/mcdi_pcol_mae.h:1261-1316 | the corrected response is 48 bytes and decodes back to every count |
| Capabilities.DecodeCapabilities | src/driver/linux_net/mcdi_pcol_mae.h:1261-1316 | decodes iff at least 48 bytes; ACTION_RULES, ENCAP_PRIOS and ACTION_PRIOS are words at 36, 40 and 44 |
| Capabilities.CapabilitiesReencode | src/driver/linux_net/mcdi_pcol_mae.h:1261-1316 | re-encoding a decoded response gives back its first 48 bytes |
| Capabilities.EncapTypeSupported | src/driver/linux_net/mcdi_pcol_mae.h:1269-1276 | VXLAN support is bit 0 and other encaps bit 1 of ENCAP_TYPES_SUPPORTED; other types have no bit |
| Capabilities.FieldCapsOf | src/driver/linux_net/mcdi_pcol_mae.h:1263-1266 | fields at or above MATCH_FIELD_COUNT are UNSUPPORTED, and the rest take the status their flags word reports |
| Tc.CounterBufferIsOnePage | src/driver/linux_net/tc.h:22-25 | 256 counter rows of 16 bytes fill exactly one 4 kB page |
| Tc.UpdateCounter | src/driver/linux_net/tc.h:26-30 | a read-back stores the new counts, leaves old_packets and old_bytes alone, and moves touched to now exactly when the packet count grew |
| Tc.Gain | src/driver/linux_net/tc.h:26-30 | the gain since the previous report is the difference modulo 2^64 |
| Tc.ReportCounter | src/driver/linux_net/tc.h:26-30 | reporting to userspace moves the current counts into old_* and returns the gain modulo 2^64 |
| Tc.ReportTwiceReportsNothing | src/driver/linux_net/tc.h:26-30 | a second report with no read-back in between reports no gain |
| Tc.ReportsAddUp | src/driver/linux_net/tc.h:26-30 | two successive gains add up, modulo 2^64, to the hardware count |
| Tc.RefreshCounters | src/driver/linux_net/tc.h:201-216 | slot id of the 256-entry table takes the counts of row id of the buffer, keeps old_packets and old_bytes, and moves touched only where the packet count grew |
| Tc.PollCounters | src/driver/linux_net/tc.h:201-216 | a COUNTERS_READ into the page followed by a refresh gives each live counter the NIC's counts, leaves old_packets and old_bytes alone, and moves touched only where the packet count grew |
| Tc.EncapHeaderFits | src/driver/linux_net/tc.h:37-44 | any encap header of at most 128 bytes fits ENCAP_HEADER_ALLOC |
| Tc.VfVport | src/driver/linux_net/tc.h:81-83 | VF v is vport v + 1, never the PF's vport 0, and maps back to v |
| Tc.VportVf | src/driver/linux_net/tc.h:81-83 | only vport 0 is not a VF |
| Tc.TcPushedTags | src/driver/linux_net/tc.h:85-91 | a 2-bit push count n of 0, 1 or 2 pushes n tags, tag k from entry k of the two-entry arrays; a count of 3 has no defined tags |
| Tc.PushedTagsAgree | src/driver/linux_net/tc.h:85-91 | the driver's action set and the ACTION_SET_ALLOC request push the same tags |
| Tc.AnyIsZeros | src/driver/linux_net/tc.h:131-137 | ipv6_addr_any holds iff the address is 16 zero bytes |
| Tc.EncapIffOuterFields | src/driver/linux_net/tc.h:131-137 | a mask is encap iff clearing its outer fields (other than enc_keyid) changes it |
| Tc.InnerFieldsAreNotEncap | src/driver/linux_net/tc.h:131-137 | a mask without outer fields is not encap, and enc_keyid never affects the answer |
| Tc.DefaultRuleIndex | src/driver/linux_net/tc.h:160-168 | PF is 0, WIRE 1, VF(v) 2+2v and VF_REP(v) 3+2v; each index decodes back |
| Tc.DefaultRuleIndexOf | src/driver/linux_net/tc.h:160-168 | every index names a default rule, and names it back |
| Tc.DefaultRuleIndexInjective | src/driver/linux_net/tc.h:160-168 | no two default rules share an index |
| Tc.DefaultRuleInBounds | src/driver/linux_net/tc.h:167-170 | an index is below EFX_TC_DFLT__MAX iff the VF number is at most 254, and the bound is VF(255) = 512 |
| Tc.PrioValue | src/driver/linux_net/tc.h:181-185 | each priority is below EFX_TC_PRIO__NUM |
| Tc.Chosen | src/driver/linux_net/tc.h:181-185 | the rule picked from those that match has the lowest priority number, and there is one iff some rule matches |
| Tc.TcRulesOverrideDefaults | src/driver/linux_net/tc.h:181-185 | when a TC rule matches, the rule picked is at PRIO_TC, never a default rule |
| Tc.DriverPriosAllowed | src/driver/linux_net/tc.h:181-185 | with at least two action priorities reported, both driver priorities are allowed |

## Left out

- MPORT_ALLOC, MPORT_REUUID, MPORT_LOOKUP and TRACK_CONNECTION: their UUIDs and extra fields are opaque bytes.
- Privilege categories, the MCDI transport, and DMA addresses (kept as opaque 64-bit values).
- The mutex, hashtables, list linkage, neighbour binding and the DMA buffer of `tc.h`.
- Functions whose bodies are not shown (`efx_tc_flower`, block setup, stats start/stop): no flow-rule install or roll-back algorithm is modelled.
- The `#else` stub branch of `tc.h` taken without TC offload.
- `nic_notifier.c`, `linux_onload.h` and `mmap_id.h` are not part of this model: they hold kernel plumbing and constants, with no pure logic.
- `PEDIT_ALLOC`: the header leaves its layout to be decided, so only `PEDIT_FREE` is modelled.
- GET_ACTION_RULE_CAPS and GET_OUTER_RULE_CAPS are decoded as id arrays; their words go through `FieldSupport.DecodeFieldFlags`.
- Class-register field lists are kept as opaque bytes.
- Counters.CountersRead: a row below MAX_COUNTERS whose id is not allocated is assumed to keep the host buffer's old bytes. The header says only that allocated counters with an ID below MAX_COUNTERS are read, and is silent on the other rows, which the NIC might zero. Counters.LookupAfterRead's second ensures rests on this assumption too; Tc.PollCounters's ensures concern only live counters and do not.
- Tc.UpdateCounter: `touched` is an unbounded number, so jiffies wrap-around is not modelled.
- Tc.UpdateCounter: "packets increase" is read as a numeric `>` on the 64-bit counts, so a hardware counter that wraps does not advance `touched`.
- Tc.Chosen: the NIC's choice among rules of equal priority is not documented; the model takes the first.
- ActionRule.DecodeActionRuleInsert: the 4 bytes after the 16-byte response (the field is 20 bytes long) are ignored.
- ActionRule.DecodeActionRuleUpdate: likewise, bytes 20-24 (the last 4 of the 20-byte RESPONSE field) are ignored.
- ActionRule.DecodeActionRuleInsert: the criteria must be one whole base (344-byte) or V2 (372-byte) block, although the header's MATCH_CRITERIA MINNUM is 0; a shorter or longer MCDI v2 request is refused as MalformedMessage.
- OuterRule.DecodeOuterRuleInsert: the criteria must be exactly one 156-byte outer block, although the header allows 0 to 236 criteria bytes (LENMIN 16); any other length is refused as MalformedMessage.
- Capabilities.DecodeCapabilities: reads the corrected 48-byte layout (ACTION_RULES at 36, ENCAP_PRIOS at 40, ACTION_PRIOS at 44), so it refuses a 44-byte response laid out as the header writes it. FieldCapsOf and Tc.DriverPriosAllowed build on this corrected decoder; the as-written layout is modelled separately by the AsWritten members.
- ActionSet.PushedTags: VLAN_PUSH 3 is given no tags (None), since the header defines tags only for 1 and 2.
- ActionSet.DecodeActionSetAlloc: undefined flag bits are accepted, not rejected; the header does not say they must be zero.
- MatchPairs.ValidateBlock: reserved bits of the V2 FLAGS word are not checked; the header gives them no support status.
- Pool.Alloc: a REQUESTED_COUNT of 0 is treated as a failed allocation, since the header only promises at least one id.

## Findings

| source | as written | input that shows it | evidently intended | confidence | as-written member | corrected member |
|---|---|---|---|---|---|---|
| src/driver/linux_net/mcdi_pcol_mae.h:1305-1316 | `GET_CAPABILITIES_OUT_ENCAP_PRIOS_OFST` is 36, the offset of `ACTION_RULES`; `ACTION_PRIOS` is at 40 and the response is 44 bytes | a NIC with 4096 action rules and 4 encap priorities: the driver reads 4096 for both | `ENCAP_PRIOS` in its own word at 40, `ACTION_PRIOS` at 44, a 48-byte response | medium; not executed | Capabilities.AsWrittenLosesActionRules | Capabilities.CapabilitiesReencode |
