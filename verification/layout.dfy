/**
 * Fixed-offset message layouts.  An MCDI structure is a buffer of a fixed
 * length in which every field occupies a region given by its _OFST and _LEN
 * constants; bytes outside every region are padding and are sent as zero.
 * Assemble writes a sequence of field images into their regions and
 * Disassemble reads them back; the two are inverse on layouts whose
 * regions do not overlap.
 */
module Layout {
  import opened Bytes

  datatype Region = Region(ofst: nat, width: nat)
  {
    function End(): nat { ofst + width }
    predicate Contains(i: int) { ofst <= i < ofst + width }
  }

  /** No two regions overlap. */
  predicate Disjoint(rs: seq<Region>)
  {
    forall a, b :: 0 <= a < b < |rs| ==> rs[a].End() <= rs[b].ofst || rs[b].End() <= rs[a].ofst
  }

  /** Every region lies inside a buffer of length total. */
  predicate Within(rs: seq<Region>, total: nat)
  {
    forall k :: 0 <= k < |rs| ==> rs[k].End() <= total
  }

  /** The field images have the widths their regions give. */
  predicate Fits(rs: seq<Region>, parts: seq<seq<byte>>)
  {
    |parts| == |rs| && forall k :: 0 <= k < |rs| ==> |parts[k]| == rs[k].width
  }

  predicate Covered(rs: seq<Region>, i: int)
  {
    exists k :: 0 <= k < |rs| && rs[k].Contains(i)
  }

  /** Bytes outside every region are zero. */
  predicate PaddingZero(rs: seq<Region>, buf: seq<byte>)
  {
    forall i :: 0 <= i < |buf| && !Covered(rs, i) ==> buf[i] == 0
  }

  /** The byte at position i once every image is written to its region. */
  function ByteAt(rs: seq<Region>, parts: seq<seq<byte>>, i: int): byte
    requires Fits(rs, parts)
    decreases |rs|
  {
    if |rs| == 0 then 0
    else if rs[0].Contains(i) then parts[0][i - rs[0].ofst]
    else ByteAt(rs[1..], parts[1..], i)
  }

  function Assemble(rs: seq<Region>, parts: seq<seq<byte>>, total: nat): (buf: seq<byte>)
    requires Fits(rs, parts)
    ensures |buf| == total
  {
    seq(total, i => ByteAt(rs, parts, i))
  }

  function Disassemble(rs: seq<Region>, buf: seq<byte>): (parts: seq<seq<byte>>)
    requires Within(rs, |buf|)
    ensures Fits(rs, parts)
  {
    seq(|rs|, k requires 0 <= k < |rs| => buf[rs[k].ofst..rs[k].End()])
  }

  /** Inside region k the assembled buffer holds image k. */
  lemma {:induction false} ByteAtInRegion(rs: seq<Region>, parts: seq<seq<byte>>, k: nat, i: int)
    requires Disjoint(rs) && Fits(rs, parts)
    requires k < |rs| && rs[k].Contains(i)
    ensures ByteAt(rs, parts, i) == parts[k][i - rs[k].ofst]
    decreases k
  {
    if k > 0 {
      assert !rs[0].Contains(i);
      assert Disjoint(rs[1..]) by {
        forall a, b | 0 <= a < b < |rs[1..]|
          ensures rs[1..][a].End() <= rs[1..][b].ofst || rs[1..][b].End() <= rs[1..][a].ofst
        {
          assert rs[1..][a] == rs[a + 1] && rs[1..][b] == rs[b + 1];
        }
      }
      assert rs[1..][k - 1] == rs[k];
      ByteAtInRegion(rs[1..], parts[1..], k - 1, i);
    }
  }

  /** Outside every region the assembled buffer is zero. */
  lemma {:induction false} ByteAtPadding(rs: seq<Region>, parts: seq<seq<byte>>, i: int)
    requires Fits(rs, parts) && !Covered(rs, i)
    ensures ByteAt(rs, parts, i) == 0
    decreases |rs|
  {
    if |rs| > 0 {
      assert !rs[0].Contains(i);
      assert !Covered(rs[1..], i) by {
        forall k | 0 <= k < |rs[1..]| ensures !rs[1..][k].Contains(i) {
          assert rs[1..][k] == rs[k + 1];
        }
      }
      ByteAtPadding(rs[1..], parts[1..], i);
    }
  }

  /** Reading the regions back yields the images that were written. */
  lemma DisassembleAssemble(rs: seq<Region>, parts: seq<seq<byte>>, total: nat)
    requires Disjoint(rs) && Within(rs, total) && Fits(rs, parts)
    ensures Disassemble(rs, Assemble(rs, parts, total)) == parts
  {
    var buf := Assemble(rs, parts, total);
    var back := Disassemble(rs, buf);
    forall k | 0 <= k < |rs| ensures back[k] == parts[k] {
      forall j | 0 <= j < rs[k].width ensures back[k][j] == parts[k][j] {
        ByteAtInRegion(rs, parts, k, rs[k].ofst + j);
      }
    }
  }

  /** A buffer whose padding is zero is rebuilt exactly from its regions. */
  lemma AssembleDisassemble(rs: seq<Region>, buf: seq<byte>)
    requires Disjoint(rs) && Within(rs, |buf|) && PaddingZero(rs, buf)
    ensures Assemble(rs, Disassemble(rs, buf), |buf|) == buf
  {
    var parts := Disassemble(rs, buf);
    var again := Assemble(rs, parts, |buf|);
    forall i | 0 <= i < |buf| ensures again[i] == buf[i] {
      if k :| 0 <= k < |rs| && rs[k].Contains(i) {
        ByteAtInRegion(rs, parts, k, i);
      } else {
        ByteAtPadding(rs, parts, i);
      }
    }
  }

  /** Assembled buffers always have zero padding. */
  lemma AssemblePaddingZero(rs: seq<Region>, parts: seq<seq<byte>>, total: nat)
    requires Fits(rs, parts)
    ensures PaddingZero(rs, Assemble(rs, parts, total))
  {
    forall i | 0 <= i < total && !Covered(rs, i)
      ensures Assemble(rs, parts, total)[i] == 0
    {
      ByteAtPadding(rs, parts, i);
    }
  }

  /**
   * Appending regions that all start at or after position p does not change
   * the assembled bytes below p: a layout extended at its end keeps the
   * encoding of its prefix.
   */
  lemma {:induction false} ByteAtPrefix(rs: seq<Region>, more: seq<Region>, parts: seq<seq<byte>>,
                                        extra: seq<seq<byte>>, p: nat, i: int)
    requires Fits(rs, parts) && Fits(more, extra)
    requires forall k :: 0 <= k < |more| ==> p <= more[k].ofst
    requires i < p
    ensures ByteAt(rs + more, parts + extra, i) == ByteAt(rs, parts, i)
    decreases |rs|
  {
    if |rs| == 0 {
      assert rs + more == more && parts + extra == extra;
      ByteAtPadding(more, extra, i);
    } else {
      assert (rs + more)[0] == rs[0] && (parts + extra)[0] == parts[0];
      assert (rs + more)[1..] == rs[1..] + more;
      assert (parts + extra)[1..] == parts[1..] + extra;
      if !rs[0].Contains(i) {
        ByteAtPrefix(rs[1..], more, parts[1..], extra, p, i);
      }
    }
  }

  lemma AssemblePrefix(rs: seq<Region>, more: seq<Region>, parts: seq<seq<byte>>,
                       extra: seq<seq<byte>>, p: nat, total: nat)
    requires Fits(rs, parts) && Fits(more, extra)
    requires forall k :: 0 <= k < |more| ==> p <= more[k].ofst
    requires p <= total
    ensures Assemble(rs + more, parts + extra, total)[..p] == Assemble(rs, parts, p)
  {
    forall i | 0 <= i < p
      ensures Assemble(rs + more, parts + extra, total)[i] == Assemble(rs, parts, p)[i]
    {
      ByteAtPrefix(rs, more, parts, extra, p, i);
    }
  }
}
