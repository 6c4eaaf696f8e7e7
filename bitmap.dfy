/** The block presence bitmap: one bit per block, eight blocks per byte, most significant
    bit first, so block `b` lives in byte `b / 8` under the mask `1 << (7 - b % 8)`. */
module Bitmap {
  import opened Types

  /** The mask that selects block `b` inside its storage byte. */
  function Mask(b: nat): (m: bv8)
  {
    1 << (7 - b % 8)
  }

  /** Bit `j` of `x`, counted from the least significant bit, read by shifting. */
  predicate BitOf(x: bv8, j: nat)
    requires j < 8
  {
    (x >> j) & 1 == 1
  }

  /** The reference reading of a bitmap: one presence flag per block, in block order,
      eight per byte, the most significant bit of each byte first. */
  function Unpack(bits: seq<bv8>): (u: seq<bool>)
    ensures |u| == 8 * |bits|
  {
    if bits == [] then []
    else seq(8, k requires 0 <= k < 8 => BitOf(bits[0], 7 - k)) + Unpack(bits[1..])
  }

  /** The flag of block `b` in the reference reading is bit `7 - b % 8` of byte `b / 8`. */
  lemma {:induction false} UnpackAt(bits: seq<bv8>, b: nat)
    requires b < 8 * |bits|
    ensures Unpack(bits)[b] == BitOf(bits[b / 8], 7 - b % 8)
  {
    if b >= 8 {
      UnpackAt(bits[1..], b - 8);
      assert (b - 8) / 8 == b / 8 - 1 && (b - 8) % 8 == b % 8;
    }
  }

  lemma MaskSelects(x: bv8, b: nat)
    ensures (x & Mask(b) != 0) == BitOf(x, 7 - b % 8)
  {
  }

  lemma OrMaskBit(x: bv8, b: nat, j: nat)
    requires j < 8
    ensures BitOf(x | Mask(b), j) == (BitOf(x, j) || j == 7 - b % 8)
  {
  }

  lemma OrTwice(bits: seq<bv8>, byt: nat, m: bv8)
    requires byt < |bits|
    ensures var once := bits[byt := bits[byt] | m]; once[byt := once[byt] | m] == once
  {
    var once := bits[byt := bits[byt] | m];
    assert (bits[byt] | m) | m == bits[byt] | m;
  }

  /** `hasBlock`: the presence bit of block `b`. The guard only rejects a byte index
      greater than the bitmap length, so index `|bits|` itself reaches the array access
      and panics. */
  function Probe(bits: seq<bv8>, b: nat): (r: Guarded<bool>)
    ensures r.IndexOutOfRange? <==> b / 8 == |bits|
    ensures b / 8 > |bits| ==> r == Value(false)
  {
    var byt := b / 8;
    if |bits| < byt then Value(false)
    else if byt < |bits| then Value(bits[byt] & Mask(b) != 0)
    else IndexOutOfRange
  }

  /** Inside the bitmap the probe answers with the reference reading. */
  lemma ProbeReads(bits: seq<bv8>, b: nat)
    requires b / 8 < |bits|
    ensures Probe(bits, b) == Value(Unpack(bits)[b])
  {
    UnpackAt(bits, b);
    MaskSelects(bits[b / 8], b);
  }

  /** Block `b` reports present (a panicking probe does not). */
  predicate Present(bits: seq<bv8>, b: nat)
  {
    Probe(bits, b) == Value(true)
  }

  /** Presence is exactly the reference reading, and no block beyond it is present. */
  lemma PresentUnpacked(bits: seq<bv8>, b: nat)
    ensures Present(bits, b) <==> b < 8 * |bits| && Unpack(bits)[b]
  {
    if b < 8 * |bits| {
      ProbeReads(bits, b);
    }
  }

  lemma MarkUnpackedAt(bits: seq<bv8>, b: nat, c: nat)
    requires b / 8 < |bits| && c < 8 * |bits|
    ensures Unpack(bits[b / 8 := bits[b / 8] | Mask(b)])[c] == (Unpack(bits)[c] || c == b)
  {
    var marked := bits[b / 8 := bits[b / 8] | Mask(b)];
    UnpackAt(marked, c);
    UnpackAt(bits, c);
    if c / 8 == b / 8 {
      OrMaskBit(bits[b / 8], b, 7 - c % 8);
      assert c == b <==> c % 8 == b % 8;
    } else {
      assert marked[c / 8] == bits[c / 8];
      assert c != b;
    }
  }

  lemma MarkUnpacked(bits: seq<bv8>, b: nat)
    requires b / 8 < |bits|
    ensures Unpack(bits[b / 8 := bits[b / 8] | Mask(b)]) == Unpack(bits)[b := true]
  {
    var marked := bits[b / 8 := bits[b / 8] | Mask(b)];
    forall c | 0 <= c < 8 * |bits|
      ensures Unpack(marked)[c] == Unpack(bits)[b := true][c]
    {
      MarkUnpackedAt(bits, b, c);
    }
  }

  /** `setBlock`: OR the mask of block `b` into its byte. A byte index beyond the bitmap
      leaves it unchanged; the byte index `|bits|` passes the guard and panics. */
  function Mark(bits: seq<bv8>, b: nat): (r: Guarded<seq<bv8>>)
    ensures r.IndexOutOfRange? <==> b / 8 == |bits|
    ensures r.Value? ==> |r.v| == |bits|
    ensures b / 8 > |bits| ==> r == Value(bits)
  {
    var byt := b / 8;
    if |bits| < byt then Value(bits)
    else if byt < |bits| then Value(bits[byt := bits[byt] | Mask(b)])
    else IndexOutOfRange
  }

  /** Inside the bitmap, marking sets the flag of block `b` in the reference reading and
      no other. */
  lemma MarkReads(bits: seq<bv8>, b: nat)
    requires b / 8 < |bits|
    ensures Unpack(Mark(bits, b).v) == Unpack(bits)[b := true]
  {
    MarkUnpacked(bits, b);
  }

  /** After marking, block `b` reports present whenever the bitmap covers it. */
  lemma MarkSets(bits: seq<bv8>, b: nat)
    requires b / 8 < |bits|
    ensures Present(Mark(bits, b).v, b)
  {
    MarkReads(bits, b);
    ProbeReads(Mark(bits, b).v, b);
  }

  /** Marking block `b` changes the answer for no other block, in range or not. */
  lemma MarkKeepsOthers(bits: seq<bv8>, b: nat, c: nat)
    requires b / 8 != |bits| && c != b
    ensures Probe(Mark(bits, b).v, c) == Probe(bits, c)
  {
    if b / 8 < |bits| && c / 8 < |bits| {
      MarkReads(bits, b);
      ProbeReads(bits, c);
      ProbeReads(Mark(bits, b).v, c);
    }
  }

  /** Marking never clears a bit. */
  lemma MarkMonotone(bits: seq<bv8>, b: nat, c: nat)
    requires b / 8 != |bits|
    ensures Present(bits, c) ==> Present(Mark(bits, b).v, c)
  {
    MarkPresence(bits, b, c);
  }

  /** Marking the same block twice is the same as marking it once. */
  lemma MarkIdempotent(bits: seq<bv8>, b: nat)
    requires b / 8 != |bits|
    ensures Mark(Mark(bits, b).v, b) == Mark(bits, b)
  {
    if b / 8 < |bits| {
      var byt, m := b / 8, Mask(b);
      var once := bits[byt := bits[byt] | m];
      assert Mark(bits, b) == Value(once);
      OrTwice(bits, byt, m);
      assert Mark(once, b) == Value(once[byt := once[byt] | m]);
    }
  }

  /** The presence of every block after marking `b`: what it was, or `b` itself when the
      bitmap covers it. */
  lemma MarkPresence(bits: seq<bv8>, b: nat, c: nat)
    requires b / 8 != |bits|
    ensures Present(Mark(bits, b).v, c) <==> Present(bits, c) || (c == b && b < 8 * |bits|)
  {
    PresentUnpacked(bits, c);
    PresentUnpacked(Mark(bits, b).v, c);
    if b / 8 < |bits| {
      MarkReads(bits, b);
    }
  }
}
