/** What a call of the range resolver guarantees, stated on `Resolver.Resolve`. */
module Guarantees {
  import opened Types
  import opened Bitmap
  import opened Backing
  import opened Resolver

  lemma ResolveEntersLoop(st: Cache, lay: Layout, start: nat, end: int, env: Env)
    requires lay.Valid() && Admissible(st.bits, lay, start, end, env)
    requires env.sizeReply.SizeKnown? && start <= end && !AllPresent(st.bits, start, end)
    ensures var s := TrimStart(st.bits, start, end); var e := TrimEnd(st.bits, s, end);
      && AvoidsGuardByte(st.bits, s, e)
      && Offset(lay, e) < lay.size
      && Resolve(st, lay, start, end, env) == Fetching(Seek(st, lay, s), s, e, lay, env)
  {
    TrimmedToPresent(st.bits, start, end);
    var s := TrimStart(st.bits, start, end);
    var e := TrimEnd(st.bits, s, end);
    DivMonotone(start, s);
    DivMonotone(e, end);
    OffsetMonotone(lay, e, end);
  }

  /** On the loop path the call behaves as the loop in closed form, run from the trimmed
      start to the trimmed end after seeking to the trimmed start. */
  lemma ResolveLoopPath(st: Cache, lay: Layout, start: nat, end: int, env: Env)
    requires lay.Valid() && Honest(env) && Admissible(st.bits, lay, start, end, env)
    requires env.sizeReply.SizeKnown? && start <= end && !AllPresent(st.bits, start, end)
    ensures var s := TrimStart(st.bits, start, end); var e := TrimEnd(st.bits, s, end);
      Settles(Seek(st, lay, s), s, e, lay, env, Resolve(st, lay, start, end, env))
  {
    var s := TrimStart(st.bits, start, end);
    var e := TrimEnd(st.bits, s, end);
    ResolveEntersLoop(st, lay, start, end, env);
    FetchingClosedForm(Seek(st, lay, s), s, e, lay, env);
  }

  /** A call that fetched anything took the loop path. */
  lemma ResolveFetchedLoop(st: Cache, lay: Layout, start: nat, end: int, env: Env)
    requires lay.Valid() && Honest(env) && Admissible(st.bits, lay, start, end, env)
    requires Resolve(st, lay, start, end, env).trace != []
    ensures env.sizeReply.SizeKnown? && start <= end
    ensures var s := TrimStart(st.bits, start, end); var e := TrimEnd(st.bits, s, end);
      Settles(Seek(st, lay, s), s, e, lay, env, Resolve(st, lay, start, end, env))
  {
    ResolveNoFetchIff(st, lay, start, end, env);
    ResolveLoopPath(st, lay, start, end, env);
  }

  /** A size-discovery error is returned unchanged and an inverted range is rejected;
      either way nothing is fetched, written or marked. */
  lemma ResolveRejects(st: Cache, lay: Layout, start: nat, end: int, env: Env)
    requires lay.Valid() && Admissible(st.bits, lay, start, end, env)
    ensures env.sizeReply.SizeError? ==>
      Resolve(st, lay, start, end, env) == Run(Failed(env.sizeReply.err), st, [])
    ensures env.sizeReply.SizeKnown? && end < start ==>
      Resolve(st, lay, start, end, env) == Run(Failed(InvalidRange), st, [])
  {
  }

  /** A call fetches nothing exactly when it is rejected or every block of the range is
      already present; in the latter case it returns nil and changes nothing. */
  lemma ResolveNoFetchIff(st: Cache, lay: Layout, start: nat, end: int, env: Env)
    requires lay.Valid() && Admissible(st.bits, lay, start, end, env)
    ensures Resolve(st, lay, start, end, env).trace == [] <==>
      env.sizeReply.SizeError? || end < start || AllPresent(st.bits, start, end)
    ensures env.sizeReply.SizeKnown? && start <= end && AllPresent(st.bits, start, end) ==>
      Resolve(st, lay, start, end, env) == Run(Done, st, [])
  {
    if env.sizeReply.SizeKnown? && start <= end {
      TrimmedToPresent(st.bits, start, end);
    }
  }

  /** The fetches of a run that starts at block `s` and ends by block `e`: the blocks from
      `s` upwards, in ascending order, each at its byte offset with the length
      `BlockLength` gives; on a nil return they run up to `e`. */
  ghost predicate FetchesFrom(lay: Layout, s: nat, e: int, r: Run)
    requires lay.Valid() && r.trace != []
  {
    var last := r.trace[|r.trace| - 1].block;
    && s <= last <= e
    && r.trace == Requests(lay, s, last + 1)
    && (r.outcome == Done ==> last == e)
  }

  /** The fetches of a call are those of a run from the trimmed start to the trimmed end:
      present interior blocks are fetched again. */
  lemma ResolveFetchesTrimmedSpan(st: Cache, lay: Layout, start: nat, end: int, env: Env)
    requires lay.Valid() && Honest(env) && Admissible(st.bits, lay, start, end, env)
    ensures var r := Resolve(st, lay, start, end, env);
      r.trace != [] ==>
        && start <= end
        && var s := TrimStart(st.bits, start, end);
           FetchesFrom(lay, s, TrimEnd(st.bits, s, end), r)
  {
    var r := Resolve(st, lay, start, end, env);
    if r.trace != [] {
      ResolveFetchedLoop(st, lay, start, end, env);
      var s := TrimStart(st.bits, start, end);
      FetchesOfSettled(st, s, TrimEnd(st.bits, s, end), lay, env, r);
    }
  }

  lemma FetchesOfSettled(st: Cache, i: nat, e: int, lay: Layout, env: Env, r: Run)
    requires lay.Valid() && i <= e && Settles(Seek(st, lay, i), i, e, lay, env, r)
    ensures r.trace != [] && FetchesFrom(lay, i, e, r)
  {
    SettlesTraceEnds(Seek(st, lay, i), i, e, lay, env, r);
  }

  /** On a nil return every block of the requested range reports present, provided the
      bitmap covers the range (blocks beyond it are fetched but can never be marked). */
  lemma ResolveDoneCoversRange(st: Cache, lay: Layout, start: nat, end: int, env: Env)
    requires lay.Valid() && Honest(env) && Admissible(st.bits, lay, start, end, env)
    requires start <= end && end / 8 < |st.bits|
    ensures Resolve(st, lay, start, end, env).outcome == Done ==>
      AllPresent(Resolve(st, lay, start, end, env).state.bits, start, end)
  {
    var r := Resolve(st, lay, start, end, env);
    ResolveNoFetchIff(st, lay, start, end, env);
    if r.outcome == Done && !AllPresent(st.bits, start, end) {
      ResolveLoopPath(st, lay, start, end, env);
      var s := TrimStart(st.bits, start, end);
      CoversOfSettled(st, start, end, s, TrimEnd(st.bits, s, end), lay, env, r);
    }
  }

  lemma CoversOfSettled(st: Cache, start: nat, end: int, i: nat, e: int, lay: Layout, env: Env, r: Run)
    requires lay.Valid() && start <= i <= e <= end && end / 8 < |st.bits|
    requires Settles(Seek(st, lay, i), i, e, lay, env, r) && r.outcome == Done
    requires forall b: nat :: start <= b < i ==> Present(st.bits, b)
    requires forall b: nat :: e < b <= end ==> Present(st.bits, b)
    ensures AllPresent(r.state.bits, start, end)
  {
    var st0 := Seek(st, lay, i);
    SettlesTraceEnds(st0, i, e, lay, env, r);
    assert FirstFailure(lay, env, i, e) == e + 1;
    assert SettlesBits(st0, i, e + 1, r) && st0.bits == st.bits;
    forall b: nat | start <= b <= end
      ensures Present(r.state.bits, b)
    {
      DivMonotone(b, end);
    }
  }

  /** After a failed run whose last request was block `k`: the error is that of block `k`;
      block `k` and every later block keep their old answer; every block from `start`
      up to `k` that the bitmap covers reports present. */
  ghost predicate KeepsPrefix(st: Cache, lay: Layout, env: Env, start: nat, r: Run)
    requires lay.Valid() && r.trace != []
  {
    var k := r.trace[|r.trace| - 1].block;
    && r.outcome == Attempt(lay, env, k)
    && (forall b: nat :: k <= b ==> Present(r.state.bits, b) == Present(st.bits, b))
    && (forall b: nat :: start <= b < k && b < 8 * |st.bits| ==> Present(r.state.bits, b))
  }

  /** When a fetch or write fails, nothing is rolled back: the blocks that went through
      stay marked, the failing block and the rest keep their answer. */
  lemma ResolveFailureKeepsPrefix(st: Cache, lay: Layout, start: nat, end: int, env: Env)
    requires lay.Valid() && Honest(env) && Admissible(st.bits, lay, start, end, env)
    ensures var r := Resolve(st, lay, start, end, env);
      r.outcome.Failed? && r.trace != [] ==> KeepsPrefix(st, lay, env, start, r)
  {
    var r := Resolve(st, lay, start, end, env);
    if r.outcome.Failed? && r.trace != [] {
      ResolveFetchedLoop(st, lay, start, end, env);
      var s := TrimStart(st.bits, start, end);
      PrefixOfSettled(st, start, s, TrimEnd(st.bits, s, end), lay, env, r);
    }
  }

  lemma PrefixOfSettled(st: Cache, start: nat, i: nat, e: int, lay: Layout, env: Env, r: Run)
    requires lay.Valid() && start <= i <= e && Settles(Seek(st, lay, i), i, e, lay, env, r)
    requires r.outcome.Failed?
    requires forall b: nat :: start <= b < i ==> Present(st.bits, b)
    ensures r.trace != [] && KeepsPrefix(st, lay, env, start, r)
  {
    var st0 := Seek(st, lay, i);
    var k := FirstFailure(lay, env, i, e);
    SettlesTraceEnds(st0, i, e, lay, env, r);
    assert k <= e && r.trace[|r.trace| - 1].block == k;
    assert SettlesBits(st0, i, k, r) && st0.bits == st.bits;
  }

  /** The writes of a run land back to back from byte `s * blkSize`, `s` the first block
      fetched, and hold exactly the bytes fetched for the blocks that went through. */
  ghost predicate StoreSequential(st: Cache, lay: Layout, env: Env, r: Run)
    requires lay.Valid() && r.trace != []
  {
    var s := r.trace[0].block;
    var last := r.trace[|r.trace| - 1].block;
    var k := if r.outcome == Done then last + 1 else last;
    && s <= k
    && r.state.store == WriteAt(st.store, Offset(lay, s), Span(lay, env, s, k))
    && r.state.cursor == Offset(lay, s) + |Span(lay, env, s, k)|
  }

  lemma ResolveStoreSequential(st: Cache, lay: Layout, start: nat, end: int, env: Env)
    requires lay.Valid() && Honest(env) && Admissible(st.bits, lay, start, end, env)
    ensures var r := Resolve(st, lay, start, end, env);
      r.trace != [] ==> StoreSequential(st, lay, env, r)
  {
    var r := Resolve(st, lay, start, end, env);
    if r.trace != [] {
      ResolveFetchedLoop(st, lay, start, end, env);
      var s := TrimStart(st.bits, start, end);
      StoreOfSettled(st, s, TrimEnd(st.bits, s, end), lay, env, r);
    }
  }

  lemma StoreOfSettled(st: Cache, i: nat, e: int, lay: Layout, env: Env, r: Run)
    requires lay.Valid() && i <= e && Settles(Seek(st, lay, i), i, e, lay, env, r)
    ensures r.trace != [] && StoreSequential(st, lay, env, r)
  {
    SettlesStoreByTrace(Seek(st, lay, i), i, e, lay, env, r);
  }

  /** Without an intervening failure a second identical call fetches nothing: once a call
      returned nil over a range the bitmap covers, the same call returns nil again and
      changes nothing. */
  lemma ResolveIdempotent(st: Cache, lay: Layout, start: nat, end: int, env: Env, env2: Env)
    requires lay.Valid() && Honest(env) && Admissible(st.bits, lay, start, end, env)
    requires start <= end && end / 8 < |st.bits|
    requires Resolve(st, lay, start, end, env).outcome == Done
    requires env2.sizeReply.SizeKnown?
    ensures var again := Resolve(st, lay, start, end, env).state;
      Admissible(again.bits, lay, start, end, env2)
      && Resolve(again, lay, start, end, env2) == Run(Done, again, [])
  {
    var again := Resolve(st, lay, start, end, env).state;
    ResolveDoneCoversRange(st, lay, start, end, env);
    ResolveNoFetchIff(again, lay, start, end, env2);
  }

  /** A retry after a failure resumes at the failing block: the second call requests no
      block below the block whose fetch or write failed. */
  lemma ResolveResumes(st: Cache, lay: Layout, start: nat, end: int, env: Env, env2: Env)
    requires lay.Valid() && Honest(env) && Admissible(st.bits, lay, start, end, env)
    requires start <= end && end / 8 < |st.bits|
    requires Resolve(st, lay, start, end, env).outcome.Failed?
    requires Resolve(st, lay, start, end, env).trace != []
    ensures var r := Resolve(st, lay, start, end, env);
      var k := r.trace[|r.trace| - 1].block;
      Admissible(r.state.bits, lay, start, end, env2)
      && forall j :: 0 <= j < |Resolve(r.state, lay, start, end, env2).trace| ==>
           Resolve(r.state, lay, start, end, env2).trace[j].block >= k
  {
    var r := Resolve(st, lay, start, end, env);
    var k := r.trace[|r.trace| - 1].block;
    ResolveFailureKeepsPrefix(st, lay, start, end, env);
    ResolveFetchesTrimmedSpan(st, lay, start, end, env);
    assert KeepsPrefix(st, lay, env, start, r);
    var s := TrimStart(st.bits, start, end);
    assert FetchesFrom(lay, s, TrimEnd(st.bits, s, end), r);
    assert k <= end;
    forall b: nat | start <= b < k
      ensures Present(r.state.bits, b)
    {
      DivMonotone(b, end);
    }
    assert Admissible(r.state.bits, lay, start, end, env2);
    TrimStartPast(r.state.bits, start, end, k);
    ResolveStartsAtTrim(r.state, lay, start, end, env2);
  }

  /** Trimming passes every block of a present prefix; it follows from `TrimStart`
      stopping only at `end` or on an absent block. */
  lemma TrimStartPast(bits: seq<bv8>, start: nat, end: int, k: nat)
    requires start <= k <= end
    requires forall b: nat :: start <= b < k ==> Present(bits, b)
    ensures TrimStart(bits, start, end) >= k
  {
  }

  /** No call requests a block below the trimmed start. */
  lemma ResolveStartsAtTrim(st: Cache, lay: Layout, start: nat, end: int, env: Env)
    requires lay.Valid() && Admissible(st.bits, lay, start, end, env)
    ensures var r := Resolve(st, lay, start, end, env);
      r.trace != [] ==>
        start <= end
        && forall j :: 0 <= j < |r.trace| ==> r.trace[j].block >= TrimStart(st.bits, start, end)
  {
    var r := Resolve(st, lay, start, end, env);
    ResolveNoFetchIff(st, lay, start, end, env);
    if r.trace != [] {
      ResolveEntersLoop(st, lay, start, end, env);
    }
  }

  lemma DivModUnique(a: int, z: int, q: int, r: int)
    requires z > 0 && 0 <= r < z && a == q * z + r
    ensures a / z == q && a % z == r
  {
    var q', r' := a / z, a % z;
    assert (q - q') * z == r' - r;
    if q' < q {
      MulMonotone(1, q - q', z);
    } else if q < q' {
      assert (q' - q) * z == r - r';
      MulMonotone(1, q' - q, z);
    }
  }

  /** The final block of a non-empty resource is `size % blkSize` bytes long, or a whole
      block when the size is a multiple of the block size. */
  lemma LastBlockLength(lay: Layout)
    requires lay.Valid() && lay.size > 0
    ensures var last := (lay.size - 1) / lay.blkSize;
      BlockLength(lay, last * lay.blkSize)
        == if lay.size % lay.blkSize == 0 then lay.blkSize else lay.size % lay.blkSize
  {
    var z := lay.blkSize;
    var last := (lay.size - 1) / z;
    var t := (lay.size - 1) % z;
    assert lay.size - 1 == last * z + t;
    if t == z - 1 {
      assert lay.size == (last + 1) * z + 0;
      DivModUnique(lay.size, z, last + 1, 0);
    } else {
      DivModUnique(lay.size, z, last, t + 1);
    }
  }
}
