/**
 * The identifier pools behind the MAE alloc and free commands.  The NIC hands
 * out 32-bit identifiers for counters, counter lists, encap headers, pedits,
 * action sets, action-set lists and rules; each kind has a NULL value,
 * 0xffffffff, that never names a real object.  The firmware's own choice of
 * identifiers cannot be seen from the driver, so an allocation is given the
 * firmware's candidate identifiers as a parameter.
 */
module Pool {
  import opened Bytes
  import opened Wrappers
  import opened VarLen

  /** The NULL value of every MAE object identifier. */
  const MAE_ID_NULL: bv32 := 0xffff_ffff
  const MC_CMD_MAE_COUNTER_ALLOC_IN_LEN: nat := 4

  /** The identifiers of one object kind that are currently allocated. */
  datatype Pool = Pool(live: set<bv32>)
  {
    predicate Valid()
    {
      MAE_ID_NULL !in live
    }
  }

  predicate Distinct(ids: seq<bv32>)
  {
    forall i, j :: 0 <= i < j < |ids| ==> ids[i] != ids[j]
  }

  function Elements(ids: seq<bv32>): set<bv32>
  {
    set id | id in ids
  }

  // ----- allocation -----

  /** Up to limit distinct candidates that are neither NULL nor in use, taken
      in the order offered. */
  function Pick(offer: seq<bv32>, used: set<bv32>, limit: nat): (r: seq<bv32>)
    ensures |r| <= limit
    ensures Distinct(r)
    ensures forall id :: id in r ==> id in offer && id !in used && id != MAE_ID_NULL
    ensures |r| < limit ==>
              forall id :: id in offer && id != MAE_ID_NULL ==> id in used || id in r
    decreases |offer|
  {
    if offer == [] || limit == 0 then []
    else
      var id := offer[0];
      if id == MAE_ID_NULL || id in used then
        Pick(offer[1..], used, limit)
      else
        var rest := Pick(offer[1..], used + {id}, limit - 1);
        [id] + rest
  }

  function Min(a: nat, b: nat): nat
  {
    if a < b then a else b
  }

  /**
   * MC_CMD_MAE_COUNTER_ALLOC: the NIC allocates at least one and at most
   * requested identifiers, never more than one response can carry, all of
   * them previously free.  An allocation that cannot yield a single
   * identifier is an error.
   */
  function Alloc(p: Pool, v: Version, requested: nat, offer: seq<bv32>): (r: Result<(Pool, seq<bv32>)>)
    requires p.Valid()
    ensures r.Success? ==>
              var (q, ids) := r.value;
              1 <= |ids| <= requested && |ids| <= COUNTER_ALLOC_OUT.MaxNum(v)
              && Distinct(ids)
              && (forall id :: id in ids ==> id !in p.live && id != MAE_ID_NULL)
              && q.live == p.live + Elements(ids)
              && q.Valid()
    ensures r.Failure? <==>
              requested == 0 || forall id :: id in offer && id != MAE_ID_NULL ==> id in p.live
    ensures r.Failure? ==> r.error == ResourceExhausted
  {
    LayoutsWellFormed();
    var ids := Pick(offer, p.live, Min(requested, COUNTER_ALLOC_OUT.MaxNum(v)));
    if ids == [] then
      Failure(ResourceExhausted)
    else
      assert ids[0] in ids;
      Success((Pool(p.live + Elements(ids)), ids))
  }

  // ----- freeing -----

  /** Free ids in order; an identifier that is not allocated (or was already
      freed earlier in the same request) is skipped.  Returns the remaining
      allocated set and the identifiers actually freed. */
  function FreeAll(live: set<bv32>, ids: seq<bv32>): (r: (set<bv32>, seq<bv32>))
    ensures r.0 == live - Elements(ids)
    ensures forall id :: id in r.1 <==> id in ids && id in live
    ensures Distinct(r.1)
    ensures |r.1| <= |ids|
    ensures |r.1| == |ids| <==> Distinct(ids) && forall k :: 0 <= k < |ids| ==> ids[k] in live
    ensures |r.1| == |ids| ==> r.1 == ids
    decreases |ids|
  {
    if ids == [] then (live, [])
    else
      var id := ids[0];
      if id in live then
        var (rest, freed) := FreeAll(live - {id}, ids[1..]);
        FreeLiveStep(live, ids, rest, freed);
        (rest, [id] + freed)
      else
        var (rest, freed) := FreeAll(live, ids[1..]);
        FreeDeadStep(live, ids, rest, freed);
        (rest, freed)
  }

  /** The contract of FreeAll, for one outcome. */
  ghost predicate FreeOutcome(live: set<bv32>, ids: seq<bv32>, rest: set<bv32>, freed: seq<bv32>)
  {
    rest == live - Elements(ids)
    && (forall id :: id in freed <==> id in ids && id in live)
    && Distinct(freed)
    && |freed| <= |ids|
    && (|freed| == |ids| <==> Distinct(ids) && forall k :: 0 <= k < |ids| ==> ids[k] in live)
    && (|freed| == |ids| ==> freed == ids)
  }

  /** Freeing an allocated first identifier, then the rest. */
  lemma FreeLiveStep(live: set<bv32>, ids: seq<bv32>, rest: set<bv32>, freed: seq<bv32>)
    requires ids != [] && ids[0] in live
    requires FreeOutcome(live - {ids[0]}, ids[1..], rest, freed)
    ensures FreeOutcome(live, ids, rest, [ids[0]] + freed)
  {
    var id := ids[0];
    assert Elements(ids) == {id} + Elements(ids[1..]);
    assert ids == [id] + ids[1..];
    if Distinct(ids) && forall k :: 0 <= k < |ids| ==> ids[k] in live {
      forall k | 0 <= k < |ids[1..]| ensures ids[1..][k] in live - {id} {
        assert ids[1..][k] == ids[k + 1];
      }
    }
    if |[id] + freed| == |ids| {
      forall k | 0 <= k < |ids| ensures ids[k] in live {
        if k > 0 {
          assert ids[k] == ids[1..][k - 1];
        }
      }
    }
  }

  /** Skipping an identifier that is not allocated. */
  lemma FreeDeadStep(live: set<bv32>, ids: seq<bv32>, rest: set<bv32>, freed: seq<bv32>)
    requires ids != [] && ids[0] !in live
    requires FreeOutcome(live, ids[1..], rest, freed)
    ensures FreeOutcome(live, ids, rest, freed)
  {
    assert Elements(ids) == {ids[0]} + Elements(ids[1..]);
  }

  /** What a free request asks of the firmware that only a faulty driver
      would break: every identifier allocated, none repeated. */
  predicate DriverCorrect(p: Pool, ids: seq<bv32>)
  {
    Distinct(ids) && forall k :: 0 <= k < |ids| ==> ids[k] in p.live
  }

  /**
   * The free commands (MC_CMD_MAE_COUNTER_FREE and the other *_FREE,
   * *_REMOVE, *_UNREGISTER and *_DELETE commands): the identifiers freed are
   * a subset of those requested, fewer only when the driver asked for
   * something it does not own, and a request that frees nothing is an error.
   */
  function Free(p: Pool, ids: seq<bv32>): (r: Result<(Pool, seq<bv32>)>)
    requires p.Valid()
    ensures r.Success? ==>
              var (q, freed) := r.value;
              1 <= |freed| <= |ids|
              && (forall id :: id in freed <==> id in ids && id in p.live)
              && q.live == p.live - Elements(ids)
              && q.Valid()
              && (|freed| == |ids| <==> DriverCorrect(p, ids))
    ensures r.Failure? <==> forall id :: id in ids ==> id !in p.live
    ensures r.Failure? ==> r.error == InvalidArgument
  {
    var (rest, freed) := FreeAll(p.live, ids);
    if freed == [] then
      Failure(InvalidArgument)
    else
      assert freed[0] in freed;
      Success((Pool(rest), freed))
  }

  /** Driver side: the free went as intended only when every identifier
      came back. */
  function CheckFreed(requested: seq<bv32>, freed: seq<bv32>): (r: Result<()>)
    ensures r.Success? <==> |freed| == |requested|
    ensures r.Failure? ==> r.error == PartialFree
  {
    if |freed| == |requested| then Success(()) else Failure(PartialFree)
  }

  /** A correct driver's free is reported as complete. */
  lemma CorrectFreeIsComplete(p: Pool, ids: seq<bv32>)
    requires p.Valid() && DriverCorrect(p, ids) && ids != []
    ensures Free(p, ids).Success?
    ensures CheckFreed(ids, Free(p, ids).value.1).Success?
  {
    assert ids[0] in p.live;
  }

  /** Freeing what an allocation handed out restores the pool and frees
      every identifier. */
  lemma AllocThenFree(p: Pool, v: Version, requested: nat, offer: seq<bv32>)
    requires p.Valid() && Alloc(p, v, requested, offer).Success?
    ensures var (q, ids) := Alloc(p, v, requested, offer).value;
            Free(q, ids) == Success((p, ids))
  {
    var (q, ids) := Alloc(p, v, requested, offer).value;
    assert DriverCorrect(q, ids);
    assert ids[0] in q.live;
    assert q.live - Elements(ids) == p.live;
  }

  // ----- single-object creation -----

  /** Creating one object (an action set, an encap header, an outer or an
      action rule): the firmware's candidate identifier becomes live unless
      it is NULL or already in use, which the driver sees as a full table. */
  function Create(p: Pool, candidate: bv32): (r: Result<(Pool, bv32)>)
    requires p.Valid()
    ensures r.Success? <==> candidate != MAE_ID_NULL && candidate !in p.live
    ensures r.Success? ==>
              r.value.1 == candidate && r.value.1 !in p.live
              && r.value.0.live == p.live + {r.value.1} && r.value.0.Valid()
    ensures r.Failure? ==> r.error == ResourceExhausted
  {
    if candidate == MAE_ID_NULL || candidate in p.live then Failure(ResourceExhausted)
    else Success((Pool(p.live + {candidate}), candidate))
  }

  /** The reply to a single-object command (ACTION_SET_ALLOC_OUT,
      OUTER_RULE_INSERT_OUT, ACTION_RULE_INSERT_OUT, ...): four bytes holding
      an identifier that is never NULL. */
  function DecodeIdReply(s: seq<byte>): (r: Result<bv32>)
    ensures r.Success? <==> |s| == 4 && DecodeLe32(s) != MAE_ID_NULL
    ensures r.Success? ==> EncodeLe32(r.value) == s
    ensures r.Failure? ==> r.error == MalformedMessage
  {
    if |s| != 4 then Failure(MalformedMessage)
    else
      var id := DecodeLe32(s);
      Le32EncodeDecode(s);
      if id == MAE_ID_NULL then Failure(MalformedMessage) else Success(id)
  }

  /** What Create hands out, the driver reads back from the reply. */
  lemma CreateReplyRoundTrip(p: Pool, candidate: bv32)
    requires p.Valid() && Create(p, candidate).Success?
    ensures DecodeIdReply(EncodeLe32(Create(p, candidate).value.1)) == Success(candidate)
  {
  }

  /** Deleting the object just created gives back the pool before it. */
  lemma CreateThenFree(p: Pool, candidate: bv32)
    requires p.Valid() && Create(p, candidate).Success?
    ensures var (q, id) := Create(p, candidate).value;
            Free(q, [id]) == Success((p, [id]))
  {
    var (q, id) := Create(p, candidate).value;
    assert [id][0] in q.live;
    assert q.live - Elements([id]) == p.live;
  }

  // ----- the messages -----

  /** MC_CMD_MAE_COUNTER_ALLOC end to end: REQUESTED_COUNT in, the array of
      new identifiers out. */
  function ServeCounterAlloc(p: Pool, v: Version, req: seq<byte>, offer: seq<bv32>)
    : (r: Result<(Pool, seq<byte>)>)
    requires p.Valid()
    ensures |req| != MC_CMD_MAE_COUNTER_ALLOC_IN_LEN ==> r == Failure(MalformedMessage)
    ensures r.Success? ==>
              var ids := DecodeIdList(COUNTER_ALLOC_OUT, v, r.value.1);
              ids.Success? && 1 <= |ids.value| <= DecodeLe32(req) as nat
              && r.value.0.live == p.live + Elements(ids.value)
  {
    LayoutsWellFormed();
    if |req| != MC_CMD_MAE_COUNTER_ALLOC_IN_LEN then Failure(MalformedMessage)
    else
      var (q, ids) :- Alloc(p, v, DecodeLe32(req) as nat, offer);
      Success((q, EncodeIdList(COUNTER_ALLOC_OUT, v, ids).value))
  }

  /** A free command end to end, for any of the free request and response
      layouts (they all carry one to MAXNUM identifiers). */
  function ServeFree(p: Pool, v: Version, inLayout: VarLayout, outLayout: VarLayout, req: seq<byte>)
    : (r: Result<(Pool, seq<byte>)>)
    requires p.Valid()
    requires IdArrayLayout(inLayout) && IdArrayLayout(outLayout)
    requires inLayout.MaxNum(v) <= outLayout.MaxNum(v) && outLayout.minNum <= 1
    ensures !ValidLength(inLayout, v, |req|) ==> r == Failure(MalformedMessage)
    ensures r.Success? ==>
              var ids := DecodeIdList(inLayout, v, req).value;
              var freed := DecodeIdList(outLayout, v, r.value.1);
              freed.Success? && |freed.value| <= |ids|
              && (|freed.value| == |ids| <==> DriverCorrect(p, ids))
              && r.value.0.live == p.live - Elements(ids)
  {
    var ids :- DecodeIdList(inLayout, v, req);
    var (q, freed) :- Free(p, ids);
    Success((q, EncodeIdList(outLayout, v, freed).value))
  }

  /** Every free request/response pair of the header fits ServeFree. */
  lemma FreeLayoutsFit(v: Version)
    ensures IdArrayLayout(COUNTER_FREE_IN) && IdArrayLayout(COUNTER_FREE_OUT)
    ensures COUNTER_FREE_IN.MaxNum(v) <= COUNTER_FREE_OUT.MaxNum(v)
    ensures COUNTER_LIST_FREE_IN.MaxNum(v) <= COUNTER_LIST_FREE_OUT.MaxNum(v)
    ensures ENCAP_HEADER_FREE_IN.MaxNum(v) <= ENCAP_HEADER_FREE_OUT.MaxNum(v)
    ensures PEDIT_FREE_IN.MaxNum(v) <= PEDIT_FREE_OUT.MaxNum(v)
    ensures ACTION_SET_FREE_IN.MaxNum(v) <= ACTION_SET_FREE_OUT.MaxNum(v)
    ensures ACTION_SET_LIST_FREE_IN.MaxNum(v) <= ACTION_SET_LIST_FREE_OUT.MaxNum(v)
    ensures OUTER_RULE_CLASS_UNREGISTER_IN.MaxNum(v) <= OUTER_RULE_CLASS_UNREGISTER_OUT.MaxNum(v)
    ensures OUTER_RULE_REMOVE_IN.MaxNum(v) <= OUTER_RULE_REMOVE_OUT.MaxNum(v)
    ensures ACTION_RULE_CLASS_UNREGISTER_IN.MaxNum(v) <= ACTION_RULE_CLASS_UNREGISTER_OUT.MaxNum(v)
    ensures ACTION_RULE_DELETE_IN.MaxNum(v) <= ACTION_RULE_DELETE_OUT.MaxNum(v)
    ensures FORGET_CONNECTION_IN.MaxNum(v) <= FORGET_CONNECTION_OUT.MaxNum(v)
  {
    LayoutsWellFormed();
  }
}
