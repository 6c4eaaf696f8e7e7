/** A remote file cached block by block: the presence bitmap `status`, the local backing
    store with its write cursor, and the three block-cache operations on them. */
module SmartRemote {
  import opened Types
  import opened Bitmap
  import opened Backing
  import opened Resolver

  class File {
    /** Bytes per block. */
    const blkSize: int
    /** Length of the remote resource in bytes. */
    const size: int
    /** The presence bitmap, one bit per block. */
    const status: array<bv8>
    /** The contents of the local backing store. */
    var local: seq<bv8>
    /** The position of the next write on the local backing store. */
    var cursor: nat

    predicate Valid()
    {
      blkSize > 0 && size >= 0
    }

    /** The block geometry of this file. */
    function Geometry(): (lay: Layout)
      ensures Valid() ==> lay.Valid()
    {
      Layout(blkSize, size)
    }

    /** The state the block cache changes. */
    function State(): (c: Cache)
      reads this, status
      ensures c.bits == status[..] && c.store == local && c.cursor == cursor
    {
      Cache(status[..], local, cursor)
    }

    /** A file with a bitmap of `statusLen` bytes, no block present, and an empty backing
        store. */
    constructor (blkSize: int, size: int, statusLen: nat)
      requires blkSize > 0 && size >= 0
      ensures Valid() && this.blkSize == blkSize && this.size == size
      ensures fresh(status) && status[..] == seq(statusLen, _ => 0)
      ensures local == [] && cursor == 0
    {
      this.blkSize := blkSize;
      this.size := size;
      status := new bv8[statusLen](_ => 0);
      local := [];
      cursor := 0;
    }

    /** `hasBlock`: the presence bit of block `b`, or the panic of the one byte index the
        guard lets through. */
    function HasBlock(b: nat): (r: Guarded<bool>)
      reads status
      ensures r.IndexOutOfRange? <==> b / 8 == status.Length
      ensures b / 8 > status.Length ==> r == Value(false)
      ensures b / 8 < status.Length ==> r == Value(Unpack(status[..])[b])
    {
      if b / 8 < status.Length then
        ProbeReads(status[..], b);
        Probe(status[..], b)
      else Probe(status[..], b)
    }

    /** `setBlock`: OR the mask of block `b` into its byte. `ok` is false when the byte
        index is the one the guard lets through and the access panics; the bitmap is then
        unchanged. */
    method SetBlock(b: nat) returns (ok: bool)
      modifies status
      ensures ok <==> b / 8 != status.Length
      ensures ok ==> Value(status[..]) == Mark(old(status[..]), b)
      ensures !ok ==> status[..] == old(status[..])
    {
      var byt := b / 8;
      if status.Length < byt {
        return true;
      }
      var mask := Mask(b);
      if byt == status.Length {
        return false;
      }
      status[byt] := status[byt] | mask;
      ok := true;
    }

    /** `needBlocks`: make blocks `start0` to `end0` present, fetching, writing and marking
        the ones the two-ended trim leaves; `trace` records the fetches issued. The caller
        holds the file's lock. */
    method NeedBlocks(start0: nat, end0: int, env: Env) returns (outcome: Outcome, ghost trace: seq<Request>)
      requires Valid() && Admissible(status[..], Geometry(), start0, end0, env)
      modifies this, status
      ensures Run(outcome, State(), trace) == Resolve(old(State()), Geometry(), start0, end0, env)
    {
      if env.sizeReply.SizeError? {
        return Failed(env.sizeReply.err), [];
      }
      if end0 < start0 {
        return Failed(InvalidRange), [];
      }
      var start := SkipPresentFront(start0, end0);
      var end := SkipPresentBack(start, end0);
      if start == end && HasBlock(start) == Value(true) {
        return Done, [];
      }
      DivMonotone(start0, start);
      DivMonotone(end, end0);
      OffsetIsProduct(Geometry(), start);
      var posByte := start * blkSize;
      cursor := posByte;
      outcome, trace := Download(start, end, posByte, env);
    }

    /** The first trimming loop of `needBlocks`: advance past present blocks, stopping at
        `end`. */
    method SkipPresentFront(start0: nat, end: int) returns (start: nat)
      requires start0 <= end
      ensures start == TrimStart(status[..], start0, end)
    {
      start := start0;
      while HasBlock(start) == Value(true) && start < end
        invariant start0 <= start <= end
        invariant TrimStart(status[..], start, end) == TrimStart(status[..], start0, end)
        decreases end - start
      {
        start := start + 1;
      }
    }

    /** The second trimming loop of `needBlocks`: retreat past present blocks, stopping at
        `start`. */
    method SkipPresentBack(start: nat, end0: int) returns (end: nat)
      requires start <= end0
      ensures end == TrimEnd(status[..], start, end0)
    {
      end := end0;
      while HasBlock(end) == Value(true) && end > start
        invariant start <= end <= end0
        invariant TrimEnd(status[..], start, end) == TrimEnd(status[..], start, end0)
        decreases end - start
      {
        end := end - 1;
      }
    }

    /** The download loop of `needBlocks`: fetch, write and mark each block from `start0`,
        whose first byte is `posByte0`, up to `end`, stopping at the first failure. */
    method Download(start0: nat, end: int, posByte0: int, env: Env) returns (outcome: Outcome, ghost trace: seq<Request>)
      requires Valid() && AvoidsGuardByte(status[..], start0, end)
      requires posByte0 == Offset(Geometry(), start0)
      modifies this, status
      ensures Run(outcome, State(), trace) == Fetching(old(State()), start0, end, Geometry(), env)
    {
      var lay := Geometry();
      var posByte := posByte0;
      ghost var whole := Fetching(State(), start0, end, lay, env);
      LoopEnter(State(), start0, end, lay, env);
      var start := start0;
      trace := [];
      while start <= end
        invariant posByte == Offset(lay, start)
        invariant Midway(whole, trace, State(), start, end, lay, env)
        decreases end + 1 - start
      {
        ghost var req := Request(start, posByte, BlockLength(lay, posByte));
        LoopTurn(whole, trace, State(), start, end, lay, env);
        outcome := LoadBlock(start, posByte, env);
        if outcome.Failed? {
          return outcome, trace + [req];
        }
        trace := trace + [req];
        start := start + 1;
        posByte := posByte + blkSize;
      }
      LoopExit(whole, trace, State(), start, end, lay, env);
      return Done, trace;
    }

    /** One turn of the download loop: fetch block `b`, which starts at byte `posByte`,
        write what came back at the cursor and mark the block. A fetch that ends early
        with EOF is reported as an unexpected end of data; on any failure nothing has been
        written or marked. */
    method LoadBlock(b: nat, posByte: int, env: Env) returns (outcome: Outcome)
      requires Valid() && posByte == Offset(Geometry(), b) && b / 8 != status.Length
      modifies this, status
      ensures var n := BlockLength(Geometry(), posByte); var reply := env.fetch(posByte, n);
        && (reply.Refused? ==> outcome == Failed(FetchError(reply.err)) && State() == old(State()))
        && (reply.Filled? && env.write(old(cursor), |reply.data|).WriteFailed? ==>
              outcome == Failed(env.write(old(cursor), |reply.data|).err) && State() == old(State()))
        && (reply.Filled? && env.write(old(cursor), |reply.data|).Written? ==>
              outcome == Done && State() == Advance(old(State()), b, reply.data))
    {
      var n := blkSize;
      if posByte + n > size {
        n := size - posByte;
      }
      var reply := env.fetch(posByte, n);
      if reply.Refused? {
        var err := reply.err;
        if err == EOF {
          err := UnexpectedEOF;
        }
        return Failed(err);
      }
      var data := reply.data;
      var written := env.write(cursor, |data|);
      if written.WriteFailed? {
        return Failed(written.err);
      }
      local := WriteAt(local, cursor, data);
      cursor := cursor + |data|;
      var marked := SetBlock(b);
      assert marked;
      outcome := Done;
    }
  }
}
