/**
 * Counters: the MAE_COUNTER_VALUE row the NIC writes for every counter, the
 * MAE_COUNTERS_READ request, and the table of rows that request makes the
 * NIC DMA into host memory.
 */
module Counters {
  import opened Bytes
  import opened Wrappers

  const MAE_COUNTER_VALUE_LEN: nat := 16
  const MC_CMD_MAE_COUNTERS_READ_IN_LEN: nat := 12
  const MC_CMD_MAE_COUNTERS_READ_OUT_LEN: nat := 0

  /** Packet and byte counts, each a 64-bit little-endian value. */
  datatype CounterValue = CounterValue(packets: bv64, bytes: bv64)

  /** PACKETS at offset 0 (LO 0, HI 4), BYTES at offset 8 (LO 8, HI 12). */
  function EncodeCounterValue(v: CounterValue): (s: seq<byte>)
    ensures |s| == MAE_COUNTER_VALUE_LEN
    ensures DecodeLe64(s[0..8]) == v.packets && DecodeLe64(s[8..16]) == v.bytes
  {
    var lo, hi := EncodeLe64(v.packets), EncodeLe64(v.bytes);
    assert (lo + hi)[0..8] == lo;
    assert (lo + hi)[8..16] == hi;
    lo + hi
  }

  /** The counter value held in a 16-byte row. */
  function RowValue(s: seq<byte>): CounterValue
    requires |s| == MAE_COUNTER_VALUE_LEN
  {
    CounterValue(DecodeLe64(s[0..8]), DecodeLe64(s[8..16]))
  }

  function DecodeCounterValue(s: seq<byte>): (r: Result<CounterValue>)
    ensures r.Success? <==> |s| == MAE_COUNTER_VALUE_LEN
    ensures r.Success? ==> EncodeCounterValue(r.value) == s
  {
    if |s| != MAE_COUNTER_VALUE_LEN then Failure(MalformedMessage)
    else
      Le64EncodeDecode(s[0..8]);
      Le64EncodeDecode(s[8..16]);
      assert s == s[0..8] + s[8..16];
      Success(RowValue(s))
  }

  lemma CounterValueRoundTrip(v: CounterValue)
    ensures DecodeCounterValue(EncodeCounterValue(v)) == Success(v)
  {
  }

  // ----- MC_CMD_MAE_COUNTERS_READ_IN -----

  /** Read the counters whose ID is below maxCounters into the host buffer at
      dmaAddr. */
  datatype CountersReadIn = CountersReadIn(maxCounters: bv32, dmaAddr: bv64)

  /** MAX_COUNTERS at offset 0, DMA_ADDR at offset 4 (LO 4, HI 8). */
  function EncodeCountersReadIn(m: CountersReadIn): (s: seq<byte>)
    ensures |s| == MC_CMD_MAE_COUNTERS_READ_IN_LEN
    ensures DecodeCountersReadIn(s) == Success(m)
  {
    var s := EncodeLe32(m.maxCounters) + EncodeLe64(m.dmaAddr);
    assert s[0..4] == EncodeLe32(m.maxCounters) && s[4..12] == EncodeLe64(m.dmaAddr);
    s
  }

  function DecodeCountersReadIn(s: seq<byte>): (r: Result<CountersReadIn>)
    ensures r.Success? <==> |s| == MC_CMD_MAE_COUNTERS_READ_IN_LEN
    ensures r.Success? ==>
              r.value.maxCounters == DecodeLe32(s[0..4]) && r.value.dmaAddr == DecodeLe64(s[4..12])
  {
    if |s| != MC_CMD_MAE_COUNTERS_READ_IN_LEN then Failure(MalformedMessage)
    else Success(CountersReadIn(DecodeLe32(s[0..4]), DecodeLe64(s[4..12])))
  }

  lemma CountersReadInReencode(s: seq<byte>)
    requires |s| == MC_CMD_MAE_COUNTERS_READ_IN_LEN
    ensures EncodeCountersReadIn(DecodeCountersReadIn(s).value) == s
  {
    Le32EncodeDecode(s[0..4]);
    Le64EncodeDecode(s[4..12]);
    assert s == s[0..4] + s[4..12];
  }

  // ----- the DMA table -----

  /** The row of table that holds counter id: MAE_COUNTER_VALUE_LEN (16)
      bytes from offset 16 * id. */
  function Row(table: seq<byte>, id: nat): (row: seq<byte>)
    requires 16 * id + 16 <= |table|
    ensures |row| == MAE_COUNTER_VALUE_LEN
  {
    table[16 * id..16 * id + 16]
  }

  function WriteRow(table: seq<byte>, id: nat, v: CounterValue): (t: seq<byte>)
    requires 16 * id + 16 <= |table|
    ensures |t| == |table|
  {
    var at := 16 * id;
    table[..at] + EncodeCounterValue(v) + table[at + 16..]
  }

  /** Rows below id hold their counters (or the old contents, for IDs not
      allocated) and every byte from row id on is untouched. */
  predicate ReadUpTo(live: map<nat, CounterValue>, host: seq<byte>, table: seq<byte>, id: nat)
  {
    |table| == |host| && 16 * id <= |host|
    && (forall j :: 0 <= j < id && j in live ==> RowValue(Row(table, j)) == live[j])
    && (forall j :: 0 <= j < id && j !in live ==> Row(table, j) == Row(host, j))
    && table[16 * id..] == host[16 * id..]
  }

  /**
   * What the NIC does for MC_CMD_MAE_COUNTERS_READ: for every allocated
   * counter whose ID is below maxCounters it writes that counter's row of the
   * host table; every other byte of the buffer is left as it was.  The
   * header is silent on the rows of unallocated IDs below maxCounters: the
   * model assumes they are untouched.  The host buffer must hold
   * maxCounters rows.
   */
  method CountersRead(live: map<nat, CounterValue>, maxCounters: nat, host: seq<byte>)
    returns (table: seq<byte>)
    requires 16 * maxCounters <= |host|
    ensures |table| == |host|
    ensures forall id :: 0 <= id < maxCounters && id in live ==>
              RowValue(Row(table, id)) == live[id]
    ensures forall id :: 0 <= id < maxCounters && id !in live ==>
              Row(table, id) == Row(host, id)
    ensures table[16 * maxCounters..] == host[16 * maxCounters..]
    ensures ReadUpTo(live, host, table, maxCounters)
  {
    table := host;
    var id := 0;
    while id < maxCounters
      invariant id <= maxCounters
      invariant ReadUpTo(live, host, table, id)
    {
      table := ReadOneRow(live, host, table, id);
      id := id + 1;
    }
  }

  /** One step of the read: handle counter id. */
  function ReadOneRow(live: map<nat, CounterValue>, host: seq<byte>, table: seq<byte>, id: nat): (t: seq<byte>)
    requires ReadUpTo(live, host, table, id)
    requires 16 * id + 16 <= |host|
    ensures ReadUpTo(live, host, t, id + 1)
  {
    if id in live then
      WriteRowStep(live, host, table, id);
      WriteRow(table, id, live[id])
    else
      SkipRowStep(live, host, table, id);
      table
  }

  /** Rows from id on are still the host's. */
  lemma UntouchedFrom(host: seq<byte>, table: seq<byte>, id: nat)
    requires |table| == |host| && 16 * id + 16 <= |host|
    requires table[16 * id..] == host[16 * id..]
    ensures Row(table, id) == Row(host, id)
    ensures table[16 * id + 16..]
              == host[16 * id + 16..]
  {
    var at := 16 * id;
    assert Row(table, id) == table[at..][..16];
    assert Row(host, id) == host[at..][..16];
    assert table[at + 16..] == table[at..][16..];
    assert host[at + 16..] == host[at..][16..];
  }

  lemma SkipRowStep(live: map<nat, CounterValue>, host: seq<byte>, table: seq<byte>, id: nat)
    requires ReadUpTo(live, host, table, id) && id !in live
    requires 16 * id + 16 <= |host|
    ensures ReadUpTo(live, host, table, id + 1)
  {
    UntouchedFrom(host, table, id);
  }

  lemma WriteRowStep(live: map<nat, CounterValue>, host: seq<byte>, table: seq<byte>, id: nat)
    requires ReadUpTo(live, host, table, id) && id in live
    requires 16 * id + 16 <= |host|
    ensures ReadUpTo(live, host, WriteRow(table, id, live[id]), id + 1)
  {
    var t := WriteRow(table, id, live[id]);
    UntouchedFrom(host, table, id);
    RowAfterWrite(table, id, live[id]);
    forall j | 0 <= j < id + 1 && j in live ensures RowValue(Row(t, j)) == live[j] {
      if j < id {
        assert Row(t, j) == Row(table, j);
      }
    }
    forall j | 0 <= j < id + 1 && j !in live ensures Row(t, j) == Row(host, j) {
      assert Row(t, j) == Row(table, j);
    }
    assert t[16 * (id + 1)..] == host[16 * (id + 1)..];
  }

  /** Writing row id sets that row and leaves every other row alone. */
  lemma RowAfterWrite(table: seq<byte>, id: nat, v: CounterValue)
    requires 16 * id + 16 <= |table|
    ensures RowValue(Row(WriteRow(table, id, v), id)) == v
    ensures forall j :: 0 <= j < id ==> Row(WriteRow(table, id, v), j) == Row(table, j)
    ensures WriteRow(table, id, v)[16 * id + 16..]
              == table[16 * id + 16..]
  {
    var t := WriteRow(table, id, v);
    assert Row(t, id) == EncodeCounterValue(v);
    forall j | 0 <= j < id ensures Row(t, j) == Row(table, j) {
      assert 16 * j + 16 <= 16 * id;
    }
  }

  /** The host's view of the table after the read: one value per counter ID
      below maxCounters, and nothing for any other ID. */
  function LookupCounter(table: seq<byte>, maxCounters: nat, id: nat): (r: Option<CounterValue>)
    requires 16 * maxCounters <= |table|
    ensures r.Some? <==> id < maxCounters
    ensures r.Some? ==> r.value == RowValue(Row(table, id))
  {
    if id < maxCounters then Some(RowValue(Row(table, id))) else None
  }

  /** After MAE_COUNTERS_READ the host finds every allocated counter below
      maxCounters at its value, every other ID below it with the buffer's
      old contents, and nothing at or above it. */
  lemma LookupAfterRead(live: map<nat, CounterValue>, maxCounters: nat, host: seq<byte>,
                        table: seq<byte>, id: nat)
    requires ReadUpTo(live, host, table, maxCounters)
    ensures id < maxCounters && id in live ==> LookupCounter(table, maxCounters, id) == Some(live[id])
    ensures id < maxCounters && id !in live ==>
              LookupCounter(table, maxCounters, id) == Some(RowValue(Row(host, id)))
    ensures id >= maxCounters ==> LookupCounter(table, maxCounters, id) == None
  {
  }
}
