/** Concrete runs of the block cache on a 1000-byte resource cut into 256-byte blocks. */
module Scenarios {
  import opened Types
  import opened Bitmap
  import opened Resolver
  import opened Guarantees

  /** Every fetch of a non-negative length delivers that many zero bytes and every write
      succeeds. */
  function Reliable(): (env: Env)
    ensures env.sizeReply == SizeKnown
  {
    Env(SizeKnown,
      (pos: int, n: int) => if n < 0 then Refused(Other("negative length")) else Filled(seq(n, _ => 0)),
      (at: int, n: int) => Written)
  }

  /** As `Reliable`, except that the fetch at byte 512 ends early with EOF. */
  function EndsAt512(): (env: Env)
    ensures env.sizeReply == SizeKnown
  {
    Env(SizeKnown,
      (pos: int, n: int) =>
        if pos == 512 then Refused(EOF)
        else if n < 0 then Refused(Other("negative length")) else Filled(seq(n, _ => 0)),
      (at: int, n: int) => Written)
  }

  function Thousand(): (lay: Layout)
    ensures lay.Valid()
  {
    Layout(256, 1000)
  }

  lemma OffsetsOfThousand()
    ensures Offset(Thousand(), 0) == 0 && Offset(Thousand(), 1) == 256
    ensures Offset(Thousand(), 2) == 512 && Offset(Thousand(), 3) == 768
  {
  }

  /** Blocks of 256 bytes over 1000 bytes are 256, 256, 256 and 232 bytes long, at offsets
      0, 256, 512 and 768. */
  lemma ThousandBlockLengths()
    ensures Requests(Thousand(), 0, 4)
      == [Request(0, 0, 256), Request(1, 256, 256), Request(2, 512, 256), Request(3, 768, 232)]
  {
    OffsetsOfThousand();
  }

  lemma ReliableIsHonest()
    ensures Honest(Reliable()) && Honest(EndsAt512())
  {
  }

  /** Every block of the thousand-byte resource goes through under `Reliable`. */
  lemma ReliableNeverFails()
    ensures FirstFailure(Thousand(), Reliable(), 0, 3) == 4
  {
    OffsetsOfThousand();
    assert Attempt(Thousand(), Reliable(), 0) == Done;
    assert Attempt(Thousand(), Reliable(), 1) == Done;
    assert Attempt(Thousand(), Reliable(), 2) == Done;
    assert Attempt(Thousand(), Reliable(), 3) == Done;
  }

  /** No block of the empty one-byte bitmap is present. */
  lemma NothingPresent(b: nat)
    ensures !Present([0], b)
  {
    if b < 8 {
      MaskSelects(0, b);
    }
  }

  /** With no block present, the range [0, 3] fetches all four blocks in order, returns
      nil, and afterwards exactly blocks 0 to 3 report present. */
  lemma FetchAllFour(store: seq<bv8>)
    ensures var r := Resolve(Cache([0], store, 0), Thousand(), 0, 3, Reliable());
      && r.outcome == Done
      && r.trace == [Request(0, 0, 256), Request(1, 256, 256), Request(2, 512, 256), Request(3, 768, 232)]
      && FirstFourOnly(r.state.bits)
  {
    var st, lay, env := Cache([0], store, 0), Thousand(), Reliable();
    var r := Resolve(st, lay, 0, 3, env);
    NothingPresent(0);
    NothingPresent(3);
    assert TrimStart([0], 0, 3) == 0 && TrimEnd([0], 0, 3) == 3;
    ReliableIsHonest();
    ResolveLoopPath(st, lay, 0, 3, env);
    assert Seek(st, lay, 0) == st;
    ReliableNeverFails();
    ThousandBlockLengths();
    FourMarked(st, r);
  }

  /** Exactly blocks 0 to 3 report present. */
  ghost predicate FirstFourOnly(bits: seq<bv8>)
  {
    forall b: nat :: Present(bits, b) <==> b <= 3
  }

  lemma FourMarked(st: Cache, r: Run)
    requires st.bits == [0] && SettlesBits(st, 0, 4, r)
    ensures FirstFourOnly(r.state.bits)
  {
    forall b: nat
      ensures Present(r.state.bits, b) <==> b <= 3
    {
      NothingPresent(b);
    }
  }

  /** Blocks 1 and 2 present: trimming stops at the absent ends, so the interior blocks
      are fetched again. */
  lemma InteriorGapRefetched(store: seq<bv8>)
    ensures Resolve(Cache([0x60], store, 0), Thousand(), 0, 3, Reliable()).trace
      == [Request(0, 0, 256), Request(1, 256, 256), Request(2, 512, 256), Request(3, 768, 232)]
  {
    var st, lay, env := Cache([0x60], store, 0), Thousand(), Reliable();
    assert !Present([0x60], 0) && !Present([0x60], 3);
    assert TrimStart([0x60], 0, 3) == 0 && TrimEnd([0x60], 0, 3) == 3;
    ReliableIsHonest();
    ResolveLoopPath(st, lay, 0, 3, env);
    assert Seek(st, lay, 0) == st;
    ReliableNeverFails();
    ThousandBlockLengths();
  }

  /** A three-block resource with every block present: nothing is fetched and nothing
      changes. */
  lemma AllPresentNoFetch()
    ensures var st := Cache([0xE0], [], 0);
      Resolve(st, Layout(256, 700), 0, 2, Reliable()) == Run(Done, st, [])
  {
    assert Present([0xE0], 0) && Present([0xE0], 1) && Present([0xE0], 2);
  }

  /** The fetch of block 2 ends early with EOF: the call reports an unexpected end of
      data, blocks 0 and 1 stay present, blocks 2 and 3 stay absent. */
  lemma FailureMidRange()
    ensures var r := Resolve(Cache([0], [], 0), Thousand(), 0, 3, EndsAt512());
      && r.outcome == Failed(UnexpectedEOF)
      && |r.trace| == 3
      && Present(r.state.bits, 0) && Present(r.state.bits, 1)
      && !Present(r.state.bits, 2) && !Present(r.state.bits, 3)
  {
    OffsetsOfThousand();
    assert !Present([0], 0) && !Present([0], 3);
  }

  /** With a one-byte bitmap, blocks 8 to 15 fall on the byte the guard lets through:
      probing and marking them panic, while block 16 lies beyond and reads as absent. */
  lemma GuardByteOfOneByteBitmap()
    ensures forall b: nat :: 8 <= b < 16 ==> Probe([0], b) == IndexOutOfRange && Mark([0], b) == IndexOutOfRange
    ensures Probe([0], 16) == Value(false) && Mark([0], 16) == Value([0])
  {
  }

  /** With a one-byte bitmap and one-byte blocks, the range [0, 16] straddles the byte the
      guard lets through, so it is not admissible, although a first fetch that fails would
      return before reaching that byte. */
  lemma StraddlingRangeNotAdmissible()
    ensures !Admissible([0], Layout(1, 100), 0, 16, Reliable())
  {
  }
}
