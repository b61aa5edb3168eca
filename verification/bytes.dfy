/**
 * Byte strings and the fixed-width integer encodings MCDI uses.  MCDI words
 * are little-endian; fields whose name ends in _BE carry network-order
 * (big-endian) data.  64-bit quantities are sent as a LO word followed by a
 * HI word.
 */
module Bytes {

  type byte = bv8

  function Zeros(n: nat): (r: seq<byte>)
    ensures |r| == n
    ensures forall i :: 0 <= i < n ==> r[i] == 0
  {
    seq(n, _ => 0)
  }

  // ----- little-endian -----

  function DecodeLe16(s: seq<byte>): bv16
    requires |s| == 2
  {
    (s[0] as bv16) | (s[1] as bv16 << 8)
  }

  function EncodeLe16(x: bv16): (r: seq<byte>)
    ensures |r| == 2
    ensures DecodeLe16(r) == x
    ensures r[0] == (x & 0xff) as byte
  {
    [(x & 0xff) as byte, (x >> 8) as byte]
  }

  /** The word whose bytes, least significant first, are a, b, c, d. */
  function Pack32(a: byte, b: byte, c: byte, d: byte): bv32
  {
    (a as bv32) | (b as bv32 << 8) | (c as bv32 << 16) | (d as bv32 << 24)
  }

  function DecodeLe32(s: seq<byte>): bv32
    requires |s| == 4
  {
    Pack32(s[0], s[1], s[2], s[3])
  }

  function EncodeLe32(x: bv32): (r: seq<byte>)
    ensures |r| == 4
    ensures DecodeLe32(r) == x
  {
    [(x & 0xff) as byte, ((x >> 8) & 0xff) as byte,
     ((x >> 16) & 0xff) as byte, (x >> 24) as byte]
  }

  lemma Le32EncodeDecode(s: seq<byte>)
    requires |s| == 4
    ensures EncodeLe32(DecodeLe32(s)) == s
  {
    var a, b, c, d := s[0], s[1], s[2], s[3];
    Unpack0(a, b, c, d);
    Unpack1(a, b, c, d);
    Unpack2(a, b, c, d);
    Unpack3(a, b, c, d);
    assert s == [a, b, c, d];
  }

  lemma Unpack0(a: byte, b: byte, c: byte, d: byte)
    ensures (Pack32(a, b, c, d) & 0xff) as byte == a
  {
  }

  lemma Unpack1(a: byte, b: byte, c: byte, d: byte)
    ensures ((Pack32(a, b, c, d) >> 8) & 0xff) as byte == b
  {
  }

  lemma Unpack2(a: byte, b: byte, c: byte, d: byte)
    ensures ((Pack32(a, b, c, d) >> 16) & 0xff) as byte == c
  {
  }

  lemma Unpack3(a: byte, b: byte, c: byte, d: byte)
    ensures (Pack32(a, b, c, d) >> 24) as byte == d
  {
  }

  /** A 64-bit value as the LO word at offset 0 and the HI word at offset 4. */
  function DecodeLe64(s: seq<byte>): bv64
    requires |s| == 8
  {
    (DecodeLe32(s[..4]) as bv64) | (DecodeLe32(s[4..]) as bv64 << 32)
  }

  function EncodeLe64(x: bv64): (r: seq<byte>)
    ensures |r| == 8
    ensures DecodeLe64(r) == x
  {
    var lo := EncodeLe32((x & 0xffff_ffff) as bv32);
    var hi := EncodeLe32((x >> 32) as bv32);
    assert (lo + hi)[..4] == lo && (lo + hi)[4..] == hi;
    lo + hi
  }

  lemma Le64EncodeDecode(s: seq<byte>)
    requires |s| == 8
    ensures EncodeLe64(DecodeLe64(s)) == s
  {
    var a, b := s[..4], s[4..];
    Le64Halves(s);
    assert EncodeLe64(DecodeLe64(s)) == EncodeLe32(DecodeLe32(a)) + EncodeLe32(DecodeLe32(b));
    Le32EncodeDecode(a);
    Le32EncodeDecode(b);
    assert s == a + b;
  }

  /** The LO and HI words of a decoded 64-bit value are the two halves of
      its bytes. */
  lemma Le64Halves(s: seq<byte>)
    requires |s| == 8
    ensures (DecodeLe64(s) & 0xffff_ffff) as bv32 == DecodeLe32(s[..4])
    ensures (DecodeLe64(s) >> 32) as bv32 == DecodeLe32(s[4..])
  {
    Split64(DecodeLe32(s[..4]), DecodeLe32(s[4..]));
  }

  lemma Split64(lo: bv32, hi: bv32)
    ensures var x := (lo as bv64) | (hi as bv64 << 32);
            (x & 0xffff_ffff) as bv32 == lo && (x >> 32) as bv32 == hi
  {
  }

  // ----- big-endian (network order) -----

  function DecodeBe16(s: seq<byte>): bv16
    requires |s| == 2
  {
    (s[0] as bv16 << 8) | (s[1] as bv16)
  }

  function EncodeBe16(x: bv16): (r: seq<byte>)
    ensures |r| == 2
    ensures DecodeBe16(r) == x
    ensures r == [EncodeLe16(x)[1], EncodeLe16(x)[0]]
  {
    [(x >> 8) as byte, (x & 0xff) as byte]
  }

  lemma Be16EncodeDecode(s: seq<byte>)
    requires |s| == 2
    ensures EncodeBe16(DecodeBe16(s)) == s
  {
  }

  lemma Le16EncodeDecode(s: seq<byte>)
    requires |s| == 2
    ensures EncodeLe16(DecodeLe16(s)) == s
  {
  }

  // ----- arrays of 32-bit words -----

  function EncodeWords(ws: seq<bv32>): (s: seq<byte>)
    ensures |s| == 4 * |ws|
  {
    if ws == [] then [] else EncodeLe32(ws[0]) + EncodeWords(ws[1..])
  }

  function DecodeWords(s: seq<byte>): (ws: seq<bv32>)
    requires |s| % 4 == 0
    ensures 4 * |ws| == |s|
  {
    if s == [] then [] else [DecodeLe32(s[..4])] + DecodeWords(s[4..])
  }

  /** Element k of the array is the word at offset 4 * k. */
  lemma {:induction false} WordAt(s: seq<byte>, k: nat)
    requires |s| % 4 == 0 && 4 * k + 4 <= |s|
    ensures DecodeWords(s)[k] == DecodeLe32(s[4 * k..4 * k + 4])
  {
    if k > 0 {
      WordAt(s[4..], k - 1);
      assert s[4..][4 * (k - 1)..4 * (k - 1) + 4] == s[4 * k..4 * k + 4];
    }
  }

  /** A word read from a slice is the word at the matching offset. */
  lemma WordInSlice(s: seq<byte>, i: nat, j: nat, k: nat)
    requires i <= j <= |s| && k + 4 <= j - i
    ensures DecodeLe32(s[i..j][k..k + 4]) == DecodeLe32(s[i + k..i + k + 4])
  {
    var u, w := s[i..j][k..k + 4], s[i + k..i + k + 4];
    assert u[0] == w[0] && u[1] == w[1] && u[2] == w[2] && u[3] == w[3];
  }

  /** Element k of the array read from a prefix of s is the word of s at
      offset 4 * k. */
  lemma PrefixWordAt(s: seq<byte>, n: nat, k: nat)
    requires n % 4 == 0 && 4 * k + 4 <= n <= |s|
    ensures DecodeWords(s[..n])[k] == DecodeLe32(s[4 * k..4 * k + 4])
  {
    WordAt(s[..n], k);
    assert s[..n][4 * k..4 * k + 4] == s[4 * k..4 * k + 4];
  }

  lemma {:induction false} WordsRoundTrip(ws: seq<bv32>)
    ensures DecodeWords(EncodeWords(ws)) == ws
  {
    if ws != [] {
      var s := EncodeWords(ws);
      assert s[..4] == EncodeLe32(ws[0]);
      assert s[4..] == EncodeWords(ws[1..]);
      WordsRoundTrip(ws[1..]);
    }
  }

  lemma {:induction false} WordsReencode(s: seq<byte>)
    requires |s| % 4 == 0
    ensures EncodeWords(DecodeWords(s)) == s
  {
    if s != [] {
      var ws := DecodeWords(s);
      Le32EncodeDecode(s[..4]);
      assert ws[1..] == DecodeWords(s[4..]);
      WordsReencode(s[4..]);
      assert s == s[..4] + s[4..];
    }
  }

  lemma {:induction false} EncodeWordsAppend(a: seq<bv32>, b: seq<bv32>)
    ensures EncodeWords(a + b) == EncodeWords(a) + EncodeWords(b)
  {
    if a != [] {
      assert (a + b)[0] == a[0] && (a + b)[1..] == a[1..] + b;
      EncodeWordsAppend(a[1..], b);
      calc {
        EncodeWords(a + b);
        EncodeLe32(a[0]) + EncodeWords(a[1..] + b);
        EncodeLe32(a[0]) + (EncodeWords(a[1..]) + EncodeWords(b));
        (EncodeLe32(a[0]) + EncodeWords(a[1..])) + EncodeWords(b);
      }
    } else {
      assert a + b == b;
    }
  }

  // ----- two big-endian halves of one word -----

  /** The word whose four bytes are the network-order images of a and then
      b, as two adjacent _BE fields of a message sit in one word. */
  function PackBe16Pair(a: bv16, b: bv16): bv32
  {
    DecodeLe32(EncodeBe16(a) + EncodeBe16(b))
  }

  function UnpackBe16Pair(w: bv32): (bv16, bv16)
  {
    var s := EncodeLe32(w);
    (DecodeBe16(s[0..2]), DecodeBe16(s[2..4]))
  }

  lemma Be16PairRoundTrip(a: bv16, b: bv16)
    ensures UnpackBe16Pair(PackBe16Pair(a, b)) == (a, b)
  {
    var s := EncodeBe16(a) + EncodeBe16(b);
    Le32EncodeDecode(s);
    assert s[0..2] == EncodeBe16(a) && s[2..4] == EncodeBe16(b);
  }

  lemma Be16PairReencode(w: bv32)
    ensures PackBe16Pair(UnpackBe16Pair(w).0, UnpackBe16Pair(w).1) == w
  {
    var s := EncodeLe32(w);
    Be16EncodeDecode(s[0..2]);
    Be16EncodeDecode(s[2..4]);
    assert s[0..2] + s[2..4] == s;
  }

  /** Reading the pair from a word of a buffer reads the two _BE fields at
      the word's first and third bytes. */
  lemma Be16PairAt(s: seq<byte>)
    requires |s| == 4
    ensures UnpackBe16Pair(DecodeLe32(s)) == (DecodeBe16(s[0..2]), DecodeBe16(s[2..4]))
  {
    Le32EncodeDecode(s);
  }
}
