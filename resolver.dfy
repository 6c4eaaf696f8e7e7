/** The range resolver `needBlocks`, stated on values: given an inclusive block range it
    trims present blocks off both ends, then fetches, writes and marks every block from
    the trimmed start to the trimmed end. */
module Resolver {
  import opened Types
  import opened Bitmap
  import opened Backing

  /** Block geometry of one remote file: bytes per block and the resource length. */
  datatype Layout = Layout(blkSize: int, size: int)
  {
    predicate Valid()
    {
      blkSize > 0 && size >= 0
    }
  }

  /** The state the resolver changes: bitmap bytes, backing store, its write cursor. */
  datatype Cache = Cache(bits: seq<bv8>, store: seq<bv8>, cursor: nat)

  /** One resolver call: what it returns, the state it leaves, the fetches it issued. */
  datatype Run = Run(outcome: Outcome, state: Cache, trace: seq<Request>)

  /** The number of bytes fetched for the block starting at byte `pos`: a whole block,
      or what is left of the resource when fewer than `blkSize` bytes remain. */
  function BlockLength(lay: Layout, pos: int): (n: int)
    requires lay.Valid()
    ensures n <= lay.blkSize
    ensures pos + n <= lay.size
    ensures n == lay.blkSize || pos + n == lay.size
    ensures pos < lay.size ==> n > 0
  {
    if pos + lay.blkSize > lay.size then lay.size - pos else lay.blkSize
  }

  /** The byte offset of block `b`: `blkSize` bytes past the offset of block `b - 1`, as
      the loop advances its running offset. */
  function Offset(lay: Layout, b: nat): (pos: nat)
    requires lay.Valid()
  {
    if b == 0 then 0 else Offset(lay, b - 1) + lay.blkSize
  }

  /** The running offset is the product the resolver starts from. */
  lemma {:induction false} OffsetIsProduct(lay: Layout, b: nat)
    requires lay.Valid()
    ensures Offset(lay, b) == b * lay.blkSize
  {
    if b > 0 {
      OffsetIsProduct(lay, b - 1);
      assert b * lay.blkSize == (b - 1) * lay.blkSize + lay.blkSize;
    }
  }

  /** Later blocks start further on. */
  lemma {:induction false} OffsetMonotone(lay: Layout, a: nat, b: nat)
    requires lay.Valid() && a <= b
    ensures Offset(lay, a) <= Offset(lay, b)
    decreases b - a
  {
    if a < b {
      OffsetMonotone(lay, a, b - 1);
    }
  }

  /** No block of `[start, end]` lives in byte `|bits|`, the one index the bitmap guard
      lets through to the array access. */
  predicate AvoidsGuardByte(bits: seq<bv8>, start: nat, end: int)
  {
    start <= end ==> end / 8 < |bits| || |bits| < start / 8
  }

  lemma DivMonotone(a: nat, b: nat)
    requires a <= b
    ensures a / 8 <= b / 8
  {
  }

  lemma MulMonotone(a: nat, b: nat, z: int)
    requires a <= b && z > 0
    ensures a * z <= b * z
  {
    assert b * z == a * z + (b - a) * z;
  }

  lemma GuardFree(bits: seq<bv8>, start: nat, end: int, b: nat)
    requires AvoidsGuardByte(bits, start, end) && start <= b <= end
    ensures b / 8 != |bits|
  {
    DivMonotone(start, b);
    DivMonotone(b, end);
  }

  /** What the caller must guarantee once the size is known and the range is not
      rejected: the last block starts inside the resource, and no block touches the byte
      index the guard lets through. */
  predicate Admissible(bits: seq<bv8>, lay: Layout, start: nat, end: int, env: Env)
    requires lay.Valid()
  {
    env.sizeReply.SizeKnown? && start <= end ==>
      Offset(lay, end) < lay.size && AvoidsGuardByte(bits, start, end)
  }

  /** Every block of `[start, end]` reports present. */
  ghost predicate AllPresent(bits: seq<bv8>, start: nat, end: int)
  {
    forall b: nat :: start <= b <= end ==> Present(bits, b)
  }

  /** The first trimming loop: advance past present blocks, never beyond `end`. */
  function TrimStart(bits: seq<bv8>, start: nat, end: int): (s: nat)
    requires start <= end
    ensures start <= s <= end
    ensures forall b: nat :: start <= b < s ==> Present(bits, b)
    ensures s == end || !Present(bits, s)
    decreases end - start
  {
    if Present(bits, start) && start < end then TrimStart(bits, start + 1, end) else start
  }

  /** The second trimming loop: retreat past present blocks, never below `start`. */
  function TrimEnd(bits: seq<bv8>, start: nat, end: int): (e: nat)
    requires start <= end
    ensures start <= e <= end
    ensures forall b: nat :: e < b <= end ==> Present(bits, b)
    ensures e == start || !Present(bits, e)
    decreases end - start
  {
    if Present(bits, end) && end > start then TrimEnd(bits, start, end - 1) else end
  }

  /** The two trimmed ends meet on a present block exactly when the whole range is
      present. */
  lemma TrimmedToPresent(bits: seq<bv8>, start: nat, end: int)
    requires start <= end
    ensures var s := TrimStart(bits, start, end); var e := TrimEnd(bits, s, end);
      (s == e && Present(bits, s)) <==> AllPresent(bits, start, end)
  {
    var s := TrimStart(bits, start, end);
    var e := TrimEnd(bits, s, end);
    if AllPresent(bits, start, end) {
      assert s == end;
    }
  }

  /** The fetch, write and mark loop, from block `i` to block `e`; the byte offset of
      block `i` is `i * blkSize`. */
  function Fetching(st: Cache, i: nat, e: int, lay: Layout, env: Env): (r: Run)
    requires lay.Valid()
    requires AvoidsGuardByte(st.bits, i, e)
    ensures |r.state.bits| == |st.bits|
    ensures forall j :: 0 <= j < |r.trace| ==> i <= r.trace[j].block <= e
    decreases e + 1 - i
  {
    if e < i then Run(Done, st, [])
    else
      var pos := Offset(lay, i);
      var n := BlockLength(lay, pos);
      var req := Request(i, pos, n);
      match env.fetch(pos, n)
      case Refused(err) => Run(Failed(FetchError(err)), st, [req])
      case Filled(data) =>
        match env.write(st.cursor, |data|)
        case WriteFailed(err) => Run(Failed(err), st, [req])
        case Written =>
          GuardFree(st.bits, i, e, i);
          DivMonotone(i, i + 1);
          var rest := Fetching(Advance(st, i, data), i + 1, e, lay, env);
          Run(rest.outcome, rest.state, [req] + rest.trace)
  }

  /** The state after block `i` went through: its bit set, the fetched bytes written at
      the cursor, the cursor past them. */
  function Advance(st: Cache, i: nat, data: seq<bv8>): (next: Cache)
    requires i / 8 != |st.bits|
  {
    Cache(Mark(st.bits, i).v, WriteAt(st.store, st.cursor, data), st.cursor + |data|)
  }

  /** The state after seeking the backing store to the first byte of block `b`. */
  function Seek(st: Cache, lay: Layout, b: nat): (next: Cache)
    requires lay.Valid()
  {
    st.(cursor := Offset(lay, b))
  }

  /** The range resolver: consult the size, reject an inverted range, trim, return early
      when the trimmed range is one present block, else seek to the first trimmed block
      and run the loop. */
  function Resolve(st: Cache, lay: Layout, start: nat, end: int, env: Env): (r: Run)
    requires lay.Valid()
    requires Admissible(st.bits, lay, start, end, env)
    ensures |r.state.bits| == |st.bits|
    ensures forall j :: 0 <= j < |r.trace| ==> start <= r.trace[j].block <= end
  {
    match env.sizeReply
    case SizeError(err) => Run(Failed(err), st, [])
    case SizeKnown =>
      if end < start then Run(Failed(InvalidRange), st, [])
      else
        var s := TrimStart(st.bits, start, end);
        var e := TrimEnd(st.bits, s, end);
        if s == e && Present(st.bits, s) then Run(Done, st, [])
        else
          DivMonotone(start, s);
          DivMonotone(e, end);
          Fetching(Seek(st, lay, s), s, e, lay, env)
  }

  // ---------------------------------------------------------------------------------
  // The loop one turn at a time

  /** Midway through the loop that yields `whole`: the requests `done` are issued and
      what remains is the loop from block `i` to block `e` in state `st`. */
  ghost predicate Midway(whole: Run, done: seq<Request>, st: Cache, i: nat, e: int, lay: Layout, env: Env)
  {
    && lay.Valid()
    && AvoidsGuardByte(st.bits, i, e)
    && var r := Fetching(st, i, e, lay, env);
       whole == Run(r.outcome, r.state, done + r.trace)
  }

  /** At the start of the loop nothing has been issued. */
  lemma LoopEnter(st: Cache, i: nat, e: int, lay: Layout, env: Env)
    requires lay.Valid() && AvoidsGuardByte(st.bits, i, e)
    ensures Midway(Fetching(st, i, e, lay, env), [], st, i, e, lay, env)
  {
    assert [] + Fetching(st, i, e, lay, env).trace == Fetching(st, i, e, lay, env).trace;
  }

  /** The loop has nothing left to do once `i` passes `e`. */
  lemma LoopExit(whole: Run, done: seq<Request>, st: Cache, i: nat, e: int, lay: Layout, env: Env)
    requires Midway(whole, done, st, i, e, lay, env) && e < i
    ensures whole == Run(Done, st, done)
  {
    assert done + [] == done;
  }

  /** One turn of the loop at block `i`: a refused fetch ends it with the mapped error, a
      failed write with the write error, both with the state untouched; a block that goes
      through lets it continue from block `i + 1` in the advanced state. Either way block
      `i`'s request has been issued. */
  lemma LoopTurn(whole: Run, done: seq<Request>, st: Cache, i: nat, e: int, lay: Layout, env: Env)
    requires Midway(whole, done, st, i, e, lay, env) && i <= e
    ensures i / 8 != |st.bits|
    ensures var pos := Offset(lay, i);
      var n := BlockLength(lay, pos);
      var reply := env.fetch(pos, n);
      var issued := done + [Request(i, pos, n)];
      && (reply.Refused? ==> whole == Run(Failed(FetchError(reply.err)), st, issued))
      && (reply.Filled? && env.write(st.cursor, |reply.data|).WriteFailed? ==>
            whole == Run(Failed(env.write(st.cursor, |reply.data|).err), st, issued))
      && (reply.Filled? && env.write(st.cursor, |reply.data|).Written? ==>
            Midway(whole, issued, Advance(st, i, reply.data), i + 1, e, lay, env))
  {
    GuardFree(st.bits, i, e, i);
    DivMonotone(i, i + 1);
    var pos := Offset(lay, i);
    var n := BlockLength(lay, pos);
    var reply := env.fetch(pos, n);
    if reply.Filled? && env.write(st.cursor, |reply.data|).Written? {
      var req := Request(i, pos, n);
      var rest := Fetching(Advance(st, i, reply.data), i + 1, e, lay, env);
      assert Fetching(st, i, e, lay, env) == Run(rest.outcome, rest.state, [req] + rest.trace);
      assert done + ([req] + rest.trace) == (done + [req]) + rest.trace;
    }
  }

  // ---------------------------------------------------------------------------------
  // The loop in closed form

  /** Whether block `b` goes through: its fetch succeeds and so does the write of what
      came back, at the block's own byte offset. */
  function Attempt(lay: Layout, env: Env, b: nat): (o: Outcome)
    requires lay.Valid()
  {
    var pos := Offset(lay, b);
    match env.fetch(pos, BlockLength(lay, pos))
    case Refused(err) => Failed(FetchError(err))
    case Filled(data) =>
      match env.write(pos, |data|)
      case WriteFailed(err) => Failed(err)
      case Written => Done
  }

  /** The first block of `[i, e]` that does not go through, or `e + 1` when all do. */
  function FirstFailure(lay: Layout, env: Env, i: nat, e: int): (k: nat)
    requires lay.Valid() && i <= e + 1
    ensures i <= k <= e + 1
    ensures forall b: nat :: i <= b < k ==> Attempt(lay, env, b) == Done
    ensures k <= e ==> Attempt(lay, env, k).Failed?
    decreases e + 1 - i
  {
    if e < i then i
    else if Attempt(lay, env, i).Failed? then i
    else FirstFailure(lay, env, i + 1, e)
  }

  /** The bytes fetched for block `b` (none when its fetch failed). */
  function Fetched(lay: Layout, env: Env, b: nat): (data: seq<bv8>)
    requires lay.Valid()
  {
    var pos := Offset(lay, b);
    match env.fetch(pos, BlockLength(lay, pos))
    case Filled(data) => data
    case Refused(_) => []
  }

  /** The bytes fetched for blocks `i` to `k - 1`, joined in block order. */
  function Span(lay: Layout, env: Env, i: nat, k: nat): (bytes: seq<bv8>)
    requires lay.Valid()
    decreases k - i
  {
    if k <= i then [] else Fetched(lay, env, i) + Span(lay, env, i + 1, k)
  }

  /** The fetch requests of blocks `i` to `j - 1`, in ascending order, each at its block's
      byte offset and with its block's length. */
  function Requests(lay: Layout, i: nat, j: nat): (q: seq<Request>)
    requires lay.Valid() && i <= j
  {
    seq(j - i, t requires 0 <= t < j - i =>
      Request(i + t, Offset(lay, i + t), BlockLength(lay, Offset(lay, i + t))))
  }

  lemma RequestsCons(lay: Layout, i: nat, j: nat)
    requires lay.Valid() && i < j
    ensures Requests(lay, i, j)
      == [Request(i, Offset(lay, i), BlockLength(lay, Offset(lay, i)))] + Requests(lay, i + 1, j)
  {
    var lhs := Requests(lay, i, j);
    var rhs := [Request(i, Offset(lay, i), BlockLength(lay, Offset(lay, i)))] + Requests(lay, i + 1, j);
    assert |lhs| == |rhs|;
    forall t | 0 <= t < |lhs|
      ensures lhs[t] == rhs[t]
    {
      if t > 0 {
        assert rhs[t] == Requests(lay, i + 1, j)[t - 1];
        assert i + 1 + (t - 1) == i + t;
      }
    }
  }

  /** The outcome part of the closed form: the error of block `k`, or nil. */
  ghost predicate SettlesOutcome(lay: Layout, env: Env, e: int, k: nat, r: Run)
    requires lay.Valid()
  {
    r.outcome == (if k <= e then Attempt(lay, env, k) else Done)
  }

  /** The bitmap part: exactly the blocks `i` to `k - 1` that the bitmap covers become
      present; no other answer changes. */
  ghost predicate SettlesBits(st: Cache, i: nat, k: nat, r: Run)
  {
    && |r.state.bits| == |st.bits|
    && forall b: nat :: Present(r.state.bits, b) <==>
         Present(st.bits, b) || (i <= b < k && b < 8 * |st.bits|)
  }

  /** The store part: the fetched bytes of blocks `i` to `k - 1`, back to back from byte
      `i * blkSize`, with the cursor just past them. */
  ghost predicate SettlesStore(st: Cache, i: nat, k: nat, lay: Layout, env: Env, r: Run)
    requires lay.Valid()
  {
    && r.state.store == WriteAt(st.store, Offset(lay, i), Span(lay, env, i, k))
    && r.state.cursor == st.cursor + |Span(lay, env, i, k)|
  }

  /** The request part: blocks `i` to `k` are fetched, or `i` to `e` when none fails. */
  ghost predicate SettlesTrace(lay: Layout, i: nat, e: int, k: nat, r: Run)
    requires lay.Valid() && i <= k <= e + 1
  {
    r.trace == Requests(lay, i, if k <= e then k + 1 else e + 1)
  }

  /** The effect of the loop from block `i` to block `e` in closed form, with `k` the
      first block that does not go through. */
  ghost predicate Settles(st: Cache, i: nat, e: int, lay: Layout, env: Env, r: Run)
    requires lay.Valid() && i <= e + 1
  {
    var k := FirstFailure(lay, env, i, e);
    && SettlesOutcome(lay, env, e, k, r)
    && SettlesBits(st, i, k, r)
    && SettlesStore(st, i, k, lay, env, r)
    && SettlesTrace(lay, i, e, k, r)
  }

  /** The loop stops at block `i` when block `i` does not go through. */
  lemma SettlesAtFailure(st: Cache, i: nat, e: int, lay: Layout, env: Env)
    requires lay.Valid() && Honest(env) && i <= e
    requires Offset(lay, e) < lay.size && st.cursor == Offset(lay, i)
    requires AvoidsGuardByte(st.bits, i, e)
    requires Attempt(lay, env, i).Failed?
    ensures Settles(st, i, e, lay, env, Fetching(st, i, e, lay, env))
  {
    var pos := Offset(lay, i);
    var n := BlockLength(lay, pos);
    assert FirstFailure(lay, env, i, e) == i;
    assert Span(lay, env, i, i) == [];
    RequestsCons(lay, i, i + 1);
    assert Requests(lay, i + 1, i + 1) == [];
    var r := Fetching(st, i, e, lay, env);
    assert r.trace == [Request(i, pos, n)];
    assert r.state == st;
    assert r.outcome == Attempt(lay, env, i);
  }

  /** One turn of the loop when block `i` goes through. */
  lemma FetchingUnfolds(st: Cache, i: nat, e: int, lay: Layout, env: Env)
    requires lay.Valid() && i <= e && st.cursor == Offset(lay, i)
    requires AvoidsGuardByte(st.bits, i, e) && i / 8 != |st.bits|
    requires Attempt(lay, env, i) == Done
    ensures var rest := Fetching(Advance(st, i, Fetched(lay, env, i)), i + 1, e, lay, env);
      Fetching(st, i, e, lay, env) == Run(rest.outcome, rest.state,
        [Request(i, Offset(lay, i), BlockLength(lay, Offset(lay, i)))] + rest.trace)
  {
    DivMonotone(i, i + 1);
  }

  lemma StepPresence(st: Cache, i: nat, k: nat, data: seq<bv8>, rest: Run, r: Run)
    requires i / 8 != |st.bits| && i < k && r.state == rest.state
    requires SettlesBits(Advance(st, i, data), i + 1, k, rest)
    ensures SettlesBits(st, i, k, r)
  {
    forall b: nat
      ensures Present(r.state.bits, b) <==> Present(st.bits, b) || (i <= b < k && b < 8 * |st.bits|)
    {
      MarkPresence(st.bits, i, b);
    }
  }

  lemma StepStore(st: Cache, i: nat, k: nat, lay: Layout, env: Env, rest: Run, r: Run)
    requires lay.Valid() && i / 8 != |st.bits| && i < k && r.state == rest.state
    requires st.cursor == Offset(lay, i)
    requires k == i + 1 || Offset(lay, i + 1) == st.cursor + |Fetched(lay, env, i)|
    requires SettlesStore(Advance(st, i, Fetched(lay, env, i)), i + 1, k, lay, env, rest)
    ensures SettlesStore(st, i, k, lay, env, r)
  {
    var data := Fetched(lay, env, i);
    var tail := Span(lay, env, i + 1, k);
    assert Span(lay, env, i, k) == data + tail;
    if k == i + 1 {
      assert tail == [];
    }
    assert rest.state.store == WriteAt(WriteAt(st.store, st.cursor, data), st.cursor + |data|, tail);
    WriteAtConcat(st.store, st.cursor, data, tail);
  }

  lemma StepTrace(lay: Layout, i: nat, e: int, k: nat, rest: Run, r: Run)
    requires lay.Valid() && i < k <= e + 1
    requires r.trace == [Request(i, Offset(lay, i), BlockLength(lay, Offset(lay, i)))] + rest.trace
    requires SettlesTrace(lay, i + 1, e, k, rest)
    ensures SettlesTrace(lay, i, e, k, r)
  {
    RequestsCons(lay, i, if k <= e then k + 1 else e + 1);
  }

  /** The loop passes block `i` when block `i` goes through, and then settles as the
      loop from block `i + 1` does. */
  lemma SettlesAfterSuccess(st: Cache, i: nat, e: int, lay: Layout, env: Env)
    requires lay.Valid() && i <= e && st.cursor == Offset(lay, i)
    requires AvoidsGuardByte(st.bits, i, e) && i / 8 != |st.bits|
    requires Attempt(lay, env, i) == Done
    requires i + 1 <= e ==> Offset(lay, i + 1) == st.cursor + |Fetched(lay, env, i)|
    requires var next := Advance(st, i, Fetched(lay, env, i));
      AvoidsGuardByte(next.bits, i + 1, e) && Settles(next, i + 1, e, lay, env, Fetching(next, i + 1, e, lay, env))
    ensures Settles(st, i, e, lay, env, Fetching(st, i, e, lay, env))
  {
    var next := Advance(st, i, Fetched(lay, env, i));
    var k := FirstFailure(lay, env, i, e);
    assert k == FirstFailure(lay, env, i + 1, e);
    var rest := Fetching(next, i + 1, e, lay, env);
    var r := Fetching(st, i, e, lay, env);
    FetchingUnfolds(st, i, e, lay, env);
    StepPresence(st, i, k, Fetched(lay, env, i), rest, r);
    StepStore(st, i, k, lay, env, rest, r);
    StepTrace(lay, i, e, k, rest, r);
  }

  /** The loop satisfies its closed form. */
  lemma {:induction false} FetchingClosedForm(st: Cache, i: nat, e: int, lay: Layout, env: Env)
    requires lay.Valid() && Honest(env) && i <= e + 1
    requires i <= e ==> Offset(lay, e) < lay.size && st.cursor == Offset(lay, i)
    requires AvoidsGuardByte(st.bits, i, e)
    ensures Settles(st, i, e, lay, env, Fetching(st, i, e, lay, env))
    decreases e + 1 - i
  {
    if e < i {
      assert Requests(lay, i, i) == [];
    } else if Attempt(lay, env, i).Failed? {
      SettlesAtFailure(st, i, e, lay, env);
    } else {
      OffsetMonotone(lay, i, e);
      GuardFree(st.bits, i, e, i);
      DivMonotone(i, i + 1);
      var data := Fetched(lay, env, i);
      var next := Advance(st, i, data);
      if i + 1 <= e {
        OffsetMonotone(lay, i + 1, e);
        assert |data| == lay.blkSize;
      }
      FetchingClosedForm(next, i + 1, e, lay, env);
      SettlesAfterSuccess(st, i, e, lay, env);
    }
  }

  lemma RequestsEnds(lay: Layout, i: nat, j: nat)
    requires lay.Valid() && i < j
    ensures |Requests(lay, i, j)| == j - i
    ensures Requests(lay, i, j)[0].block == i
    ensures Requests(lay, i, j)[j - i - 1].block == j - 1
  {
  }

  /** In the closed form of a non-empty loop, the first request is block `i`, the last is
      the failing block or `e`, and the outcome is nil exactly when no block failed. */
  lemma SettlesTraceEnds(st: Cache, i: nat, e: int, lay: Layout, env: Env, r: Run)
    requires lay.Valid() && i <= e && Settles(st, i, e, lay, env, r)
    ensures var k := FirstFailure(lay, env, i, e);
      && r.trace != []
      && r.trace[0].block == i
      && r.trace[|r.trace| - 1].block == (if k <= e then k else e)
      && (r.outcome == Done <==> k == e + 1)
  {
    var k := FirstFailure(lay, env, i, e);
    RequestsEnds(lay, i, if k <= e then k + 1 else e + 1);
  }

  /** The closed-form store, stated through the trace: from the first requested block up
      to the failing block, or past the last requested one on a nil return. */
  lemma SettlesStoreByTrace(st: Cache, i: nat, e: int, lay: Layout, env: Env, r: Run)
    requires lay.Valid() && i <= e && Settles(st, i, e, lay, env, r)
    ensures r.trace != []
    ensures var last := r.trace[|r.trace| - 1].block;
      var k := if r.outcome == Done then last + 1 else last;
      && r.trace[0].block == i && i <= k
      && r.state.store == WriteAt(st.store, Offset(lay, i), Span(lay, env, i, k))
      && r.state.cursor == st.cursor + |Span(lay, env, i, k)|
  {
    SettlesTraceEnds(st, i, e, lay, env, r);
  }
}
