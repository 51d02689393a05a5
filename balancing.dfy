/**
 * Value-level specification of gbalancer's backend selection and retry policy.
 *
 * A pool is described by its ordered backends `bs` (object identities, in
 * registration order), the set `up` of backends whose liveness flag is set,
 * and the round-robin cursor. Describing liveness as a set of identities rather
 * than one flag per slot keeps the model exact when the same backend is
 * registered twice: disabling it clears every slot that holds it.
 *
 * The classes in LoadBalancer and Prototype are proved against these functions.
 */
module Balancing {

  datatype Option<+T> = None | Some(value: T)

  /** Go's `uint64`: the round-robin cursor wraps at 2^64. */
  const TWO_TO_THE_64: int := 0x1_0000_0000_0000_0000
  type uint64 = x: int | 0 <= x < TWO_TO_THE_64

  /** Go's `int` is 64 bits wide, so no slice holds more than this many elements. */
  const MAX_INT: int := 0x7fff_ffff_ffff_ffff

  /** The retry limit hard-coded in the proxy error handler. */
  const RETRY_LIMIT: int := 3

  // ---------------------------------------------------------------------------
  // Cursor arithmetic
  // ---------------------------------------------------------------------------

  /** `atomic.AddUint64(&current, 1)`: an unsigned 64-bit increment. */
  function Advance(c: uint64): (r: uint64)
    ensures c < TWO_TO_THE_64 - 1 ==> r == c + 1
    ensures c == TWO_TO_THE_64 - 1 ==> r == 0
  {
    (c + 1) % TWO_TO_THE_64
  }

  /** The index at which a selection starts scanning: `nextIndex()`. */
  function StartIndex(c: uint64, n: nat): (i: nat)
    requires n > 0
    ensures i < n
  {
    Advance(c) % n
  }

  /** The slot `j` steps after `start`, wrapping around the ring. */
  function At<T>(bs: seq<T>, start: nat, j: nat): T
    requires |bs| > 0
  {
    bs[(start + j) % |bs|]
  }

  /** How many steps around a ring of `n` slots lead from `start` to `idx`. */
  function Offset(start: nat, idx: nat, n: nat): (d: nat)
    requires start < n && idx < n
    ensures d < n
  {
    if start <= idx then idx - start else idx + n - start
  }

  lemma ModAfterOneLap(x: int, n: int)
    requires 0 < n && 0 <= x < 2 * n
    ensures x % n == if x < n then x else x - n
  {
    if x >= n {
      assert x == 1 * n + (x - n);
    }
  }

  /** Stepping `Offset(start, idx, n)` slots from `start` lands on `idx`. */
  lemma AtOffset<T>(bs: seq<T>, start: nat, idx: nat)
    requires start < |bs| && idx < |bs|
    ensures At(bs, start, Offset(start, idx, |bs|)) == bs[idx]
  {
    ModAfterOneLap(start + Offset(start, idx, |bs|), |bs|);
  }

  /** The offset of the slot reached after `e` steps is `e` again. */
  lemma OffsetOfStep(start: nat, e: nat, n: nat)
    requires start < n && e < n
    ensures (start + e) % n < n && Offset(start, (start + e) % n, n) == e
  {
    ModAfterOneLap(start + e, n);
  }

  // ---------------------------------------------------------------------------
  // Round-robin selection with skip-ahead
  // ---------------------------------------------------------------------------

  /**
   * The first offset at or after `d` whose slot, counted from `start`, holds a
   * live backend; `|bs|` when there is none.
   */
  function FirstLive<T>(bs: seq<T>, up: set<T>, start: nat, d: nat): (e: nat)
    requires d <= |bs|
    ensures d <= e <= |bs|
    ensures e < |bs| ==> At(bs, start, e) in up
    ensures forall j :: d <= j < e ==> At(bs, start, j) !in up
    decreases |bs| - d
  {
    if d == |bs| then d
    else if At(bs, start, d) in up then d
    else FirstLive(bs, up, start, d + 1)
  }

  /** The result of one selection: the chosen slot, if any, and the new cursor. */
  datatype Selection = Selection(pick: Option<nat>, cursor: uint64)

  /**
   * `FindBackend` followed by `findRoundRobin`: an empty pool fails without
   * touching the cursor; otherwise the cursor is advanced once, the ring is
   * scanned from the start index for the first live backend, and, when the
   * scan had to skip, the cursor is overwritten with the chosen index.
   */
  function Select<T>(bs: seq<T>, up: set<T>, c: uint64): (s: Selection)
    requires |bs| <= MAX_INT
    ensures |bs| == 0 ==> s == Selection(None, c)
    ensures s.pick.None? <==> forall i :: 0 <= i < |bs| ==> bs[i] !in up
    ensures |bs| > 0 && s.pick.None? ==> s.cursor == Advance(c)
    ensures s.pick.Some? ==>
      var start, idx := StartIndex(c, |bs|), s.pick.value;
      && idx < |bs|
      && bs[idx] in up
      && (forall j :: 0 <= j < Offset(start, idx, |bs|) ==> At(bs, start, j) !in up)
      && s.cursor == if idx == start then Advance(c) else idx
  {
    if |bs| == 0 then Selection(None, c)
    else
      var start := StartIndex(c, |bs|);
      var e := FirstLive(bs, up, start, 0);
      if e == |bs| then
        assert forall i :: 0 <= i < |bs| ==> bs[i] !in up by {
          forall i | 0 <= i < |bs| ensures bs[i] !in up {
            AtOffset(bs, start, i);
          }
        }
        Selection(None, Advance(c))
      else
        OffsetOfStep(start, e, |bs|);
        var idx := (start + e) % |bs|;
        Selection(Some(idx), if e == 0 then Advance(c) else idx)
  }

  /** A scan that found its first live slot `e` steps from the start decides `Select`. */
  lemma SelectFromScan<T>(bs: seq<T>, up: set<T>, c: uint64, e: nat)
    requires 0 < |bs| <= MAX_INT && e < |bs|
    requires At(bs, StartIndex(c, |bs|), e) in up
    requires forall j :: 0 <= j < e ==> At(bs, StartIndex(c, |bs|), j) !in up
    ensures var idx := (StartIndex(c, |bs|) + e) % |bs|;
      Select(bs, up, c) == Selection(Some(idx), if e == 0 then Advance(c) else idx)
  {
    assert FirstLive(bs, up, StartIndex(c, |bs|), 0) == e;
  }

  /** A scan that found every slot of the lap dead decides `Select`. */
  lemma SelectAfterFullLap<T>(bs: seq<T>, up: set<T>, c: uint64)
    requires 0 < |bs| <= MAX_INT
    requires forall j :: 0 <= j < |bs| ==> At(bs, StartIndex(c, |bs|), j) !in up
    ensures Select(bs, up, c) == Selection(None, Advance(c))
  {
    assert FirstLive(bs, up, StartIndex(c, |bs|), 0) == |bs|;
  }

  /** The picks of `k` successive selections against unchanging liveness. */
  function Rounds<T>(bs: seq<T>, up: set<T>, c: uint64, k: nat): (picks: seq<Option<nat>>)
    requires |bs| <= MAX_INT
    ensures |picks| == k
    decreases k
  {
    if k == 0 then []
    else
      var s := Select(bs, up, c);
      [s.pick] + Rounds(bs, up, s.cursor, k - 1)
  }

  /**
   * With every backend alive, successive selections visit the slots in
   * registration order, one step per call, as long as the cursor does not
   * wrap at 2^64.
   */
  lemma {:induction false} RoundRobinOrder<T>(bs: seq<T>, up: set<T>, c: uint64, k: nat)
    requires 0 < |bs| <= MAX_INT
    requires forall i :: 0 <= i < |bs| ==> bs[i] in up
    requires c + k < TWO_TO_THE_64
    ensures forall j :: 0 <= j < k ==> Rounds(bs, up, c, k)[j] == Some((c + j + 1) % |bs|)
    decreases k
  {
    if k > 0 {
      SelectAllAlive(bs, up, c);
      var rest := Rounds(bs, up, c + 1, k - 1);
      RoundRobinOrder(bs, up, c + 1, k - 1);
      assert Rounds(bs, up, c, k) == [Some((c + 1) % |bs|)] + rest;
      forall j | 0 < j < k
        ensures Rounds(bs, up, c, k)[j] == Some((c + j + 1) % |bs|)
      {
        assert rest[j - 1] == Some((c + 1 + (j - 1) + 1) % |bs|);
      }
    }
  }

  /** With every backend alive, a selection takes the start slot and does not skip. */
  lemma SelectAllAlive<T>(bs: seq<T>, up: set<T>, c: uint64)
    requires 0 < |bs| <= MAX_INT
    requires forall i :: 0 <= i < |bs| ==> bs[i] in up
    requires c + 1 < TWO_TO_THE_64
    ensures Select(bs, up, c) == Selection(Some((c + 1) % |bs|), c + 1)
  {
    var start := StartIndex(c, |bs|);
    assert At(bs, start, 0) in up;
  }

  /**
   * After a successful selection the following selection starts at the slot
   * just after the chosen one: by the plain increment when nothing was
   * skipped, and by the overwritten cursor otherwise. The plain-increment case
   * holds only while the cursor does not wrap at 2^64.
   */
  lemma NextSelectionStartsAfterPick<T>(bs: seq<T>, up: set<T>, c: uint64)
    requires |bs| <= MAX_INT
    requires Select(bs, up, c).pick.Some?
    requires c + 2 < TWO_TO_THE_64
    ensures StartIndex(Select(bs, up, c).cursor, |bs|) == (Select(bs, up, c).pick.value + 1) % |bs|
  {
    var s := Select(bs, up, c);
    StartAfterPick(c, |bs|, s.pick.value, s.cursor);
  }

  /** The cursor arithmetic behind `NextSelectionStartsAfterPick`. */
  lemma StartAfterPick(c: uint64, n: nat, idx: nat, cursor: uint64)
    requires idx < n <= MAX_INT && c + 2 < TWO_TO_THE_64
    requires cursor == if idx == StartIndex(c, n) then Advance(c) else idx
    ensures StartIndex(cursor, n) == (idx + 1) % n
  {
    if idx == StartIndex(c, n) {
      ModSucc(c + 1, n);
    }
  }

  lemma ModSucc(x: nat, n: nat)
    requires n > 0
    ensures (x + 1) % n == (x % n + 1) % n
  {
    var q, r := x / n, x % n;
    assert x == q * n + r;
    ModAfterOneLap(r + 1, n);
    if r + 1 < n {
      DivModUnique(x + 1, n, q, r + 1);
    } else {
      assert x + 1 == (q + 1) * n + 0;
      DivModUnique(x + 1, n, q + 1, 0);
    }
  }

  /**
   * Three backends, the middle one dead, and the cursor on the first one,
   * which was just returned: the next selection skips the dead backend,
   * returns the third, and leaves the cursor on the third's index.
   */
  lemma SkipOverDeadBackend<T>(bs: seq<T>, up: set<T>, c: uint64)
    requires |bs| == 3 && bs[1] !in up && bs[2] in up
    requires c % 3 == 0 && c + 1 < TWO_TO_THE_64
    ensures Select(bs, up, c) == Selection(Some(2), 2)
  {
    assert StartIndex(c, 3) == 1;
    assert At(bs, 1, 1) == bs[2];
  }

  lemma DivModUnique(x: int, n: int, q: int, r: int)
    requires 0 < n && 0 <= r < n && x == q * n + r
    ensures x % n == r
  {
    var q', r' := x / n, x % n;
    var d := q - q';
    assert d * n == r' - r by {
      assert x == q' * n + r';
      assert q * n - q' * n == (q - q') * n;
    }
    if d >= 1 {
      MulAtLeast(d, n);
    }
  }

  lemma {:induction false} MulAtLeast(d: int, n: int)
    requires d >= 1 && n > 0
    ensures d * n >= n
    decreases d
  {
    if d > 1 {
      MulAtLeast(d - 1, n);
      assert d * n == (d - 1) * n + n;
    }
  }

  // ---------------------------------------------------------------------------
  // Retry counter and error policy
  // ---------------------------------------------------------------------------

  /** `getContextRetries`: the request's retry counter, `None` when absent. */
  function GetContextRetries(ctx: Option<int>): (r: int)
    ensures ctx.None? ==> r == 0
    ensures ctx.Some? ==> r == ctx.value
  {
    match ctx
    case None => 0
    case Some(n) => n
  }

  /** What the proxy error handler does after a failed forward. */
  datatype Decision = Retry(retries: int) | Failover

  /**
   * Below the hard-coded limit of 3 the same backend is retried with the
   * counter raised by one; otherwise the backend is given up. The
   * `maxRetries` the handler was built with plays no part.
   */
  function ErrorPolicy(retries: int, maxRetries: int): (d: Decision)
    ensures d.Retry? <==> retries < RETRY_LIMIT
    ensures d.Retry? ==> d.retries == retries + 1
  {
    if retries < RETRY_LIMIT then Retry(retries + 1) else Failover
  }

  lemma ErrorPolicyIgnoresMaxRetries(retries: int, m1: int, m2: int)
    ensures ErrorPolicy(retries, m1) == ErrorPolicy(retries, m2)
  {
  }

  // ---------------------------------------------------------------------------
  // The retry / failover chain of one request
  // ---------------------------------------------------------------------------

  /**
   * How one request ends: served by a backend's reverse proxy, or answered
   * with 503 because selection found no live backend.
   */
  datatype Response<T> = Served(peer: T) | Unavailable

  /** Where a request is in its chain: about to select, or forwarding to a peer. */
  datatype Stage<T> = Balance | Forward(peer: T)

  /**
   * The end of a request's chain: the response, the liveness and cursor it
   * leaves behind, and the backends it forwarded to, in order.
   */
  datatype Outcome<T> = Outcome(resp: Response<T>, up: set<T>, cursor: uint64, trace: seq<T>)

  function Prepend<T>(p: seq<T>, o: Outcome<T>): Outcome<T>
  {
    o.(trace := p + o.trace)
  }

  /** Prepending in two pieces is prepending their concatenation. */
  lemma PrependTwice<T>(p: seq<T>, q: seq<T>, o: Outcome<T>)
    ensures Prepend(p, Prepend(q, o)) == Prepend(p + q, o)
  {
    assert p + (q + o.trace) == (p + q) + o.trace;
  }

  function Elems<T>(bs: seq<T>): set<T>
  {
    set x | x in bs
  }

  /** The number of distinct registered backends that are alive. */
  function AliveCount<T>(bs: seq<T>, up: set<T>): nat
  {
    |Elems(bs) * up|
  }

  /** Same-backend retries a counter still allows before failover. */
  function RetriesLeft(ctx: Option<int>): nat
  {
    var r := GetContextRetries(ctx);
    if r < RETRY_LIMIT then RETRY_LIMIT - r else 0
  }

  /**
   * A bound on the remaining steps of a chain: each selection and each
   * forward lowers it. Failover happens only once no retries are left, so
   * disabling a backend and going back to selection lowers it by one.
   */
  function Potential<T>(bs: seq<T>, up: set<T>, stage: Stage<T>, ctx: Option<int>): nat
  {
    2 * (RetriesLeft(ctx) + AliveCount(bs, up)) + if stage.Balance? then 1 else 0
  }

  lemma AliveCountDrop<T>(bs: seq<T>, up: set<T>, p: T)
    requires p in bs && p in up
    ensures AliveCount(bs, up - {p}) == AliveCount(bs, up) - 1
  {
    assert Elems(bs) * (up - {p}) == (Elems(bs) * up) - {p};
  }

  lemma AliveCountPositive<T>(bs: seq<T>, up: set<T>)
    ensures AliveCount(bs, up) > 0 <==> exists i :: 0 <= i < |bs| && bs[i] in up
  {
    if i :| 0 <= i < |bs| && bs[i] in up {
      assert bs[i] in Elems(bs) * up;
    }
  }

  /** No more backends can be alive than are registered. */
  lemma {:induction false} AliveCountBound<T>(bs: seq<T>, up: set<T>)
    ensures AliveCount(bs, up) <= |bs|
  {
    if bs != [] {
      var last := |bs| - 1;
      var pre := bs[..last];
      assert Elems(bs) == Elems(pre) + {bs[last]};
      AliveCountBound(pre, up);
      if bs[last] in up && bs[last] !in Elems(pre) {
        assert Elems(bs) * up == (Elems(pre) * up) + {bs[last]};
      } else {
        assert Elems(bs) * up == Elems(pre) * up;
      }
    }
  }

  /**
   * The chain of one request, with forward outcomes supplied by the oracle
   * `ok` (the `k`-th forward succeeds exactly when `k in ok`). `Balance` is
   * `Loadbalance`: select, answer 503 when nothing is alive, otherwise forward.
   * A failed forward runs the error handler: below the limit it forwards to
   * the same peer again with the counter raised; at the limit it disables the
   * peer and selects again, passing the same counter along.
   */
  function Chain<T>(bs: seq<T>, up: set<T>, c: uint64, stage: Stage<T>, ctx: Option<int>,
                    k: nat, ok: set<nat>, maxRetries: int): (o: Outcome<T>)
    requires |bs| <= MAX_INT
    requires stage.Forward? ==> stage.peer in bs && stage.peer in up
    decreases Potential(bs, up, stage, ctx)
  {
    match stage
    case Balance =>
      var s := Select(bs, up, c);
      if s.pick.None? then Outcome(Unavailable, up, s.cursor, [])
      else Chain(bs, up, s.cursor, Forward(bs[s.pick.value]), ctx, k, ok, maxRetries)
    case Forward(peer) =>
      if k in ok then Outcome(Served(peer), up, c, [peer])
      else
        match ErrorPolicy(GetContextRetries(ctx), maxRetries)
        case Retry(next) =>
          Prepend([peer], Chain(bs, up, c, stage, Some(next), k + 1, ok, maxRetries))
        case Failover =>
          AliveCountDrop(bs, up, peer);
          Prepend([peer], Chain(bs, up - {peer}, c, Balance, ctx, k + 1, ok, maxRetries))
  }

  /** Unfolding `Chain` at a selection that finds a live backend. */
  lemma ChainSelects<T>(bs: seq<T>, up: set<T>, c: uint64, ctx: Option<int>,
                        k: nat, ok: set<nat>, m: int)
    requires |bs| <= MAX_INT
    requires Select(bs, up, c).pick.Some?
    ensures var s := Select(bs, up, c);
      && Potential(bs, up, Forward(bs[s.pick.value]), ctx) < Potential(bs, up, Balance, ctx)
      && Chain(bs, up, c, Balance, ctx, k, ok, m) == Chain(bs, up, s.cursor, Forward(bs[s.pick.value]), ctx, k, ok, m)
  {
  }

  /** Unfolding `Chain` at a failed forward below the retry limit. */
  lemma ChainRetries<T>(bs: seq<T>, up: set<T>, c: uint64, peer: T, ctx: Option<int>,
                        k: nat, ok: set<nat>, m: int)
    requires |bs| <= MAX_INT
    requires peer in bs && peer in up
    requires k !in ok && GetContextRetries(ctx) < RETRY_LIMIT
    ensures Potential(bs, up, Forward(peer), Some(GetContextRetries(ctx) + 1)) < Potential(bs, up, Forward(peer), ctx)
    ensures Chain(bs, up, c, Forward(peer), ctx, k, ok, m)
         == Prepend([peer], Chain(bs, up, c, Forward(peer), Some(GetContextRetries(ctx) + 1), k + 1, ok, m))
  {
  }

  /** Unfolding `Chain` at a failed forward at the retry limit. */
  lemma ChainFailsOver<T>(bs: seq<T>, up: set<T>, c: uint64, peer: T, ctx: Option<int>,
                          k: nat, ok: set<nat>, m: int)
    requires |bs| <= MAX_INT
    requires peer in bs && peer in up
    requires k !in ok && GetContextRetries(ctx) >= RETRY_LIMIT
    ensures Potential(bs, up - {peer}, Balance, ctx) < Potential(bs, up, Forward(peer), ctx)
    ensures Chain(bs, up, c, Forward(peer), ctx, k, ok, m)
         == Prepend([peer], Chain(bs, up - {peer}, c, Balance, ctx, k + 1, ok, m))
  {
    AliveCountDrop(bs, up, peer);
  }

  /**
   * A request makes at most (retries its counter still allows) + (distinct
   * live backends) forwards.
   */
  lemma {:induction false} ChainBound<T>(bs: seq<T>, up: set<T>, c: uint64, stage: Stage<T>,
                                         ctx: Option<int>, k: nat, ok: set<nat>, m: int)
    requires |bs| <= MAX_INT
    requires stage.Forward? ==> stage.peer in bs && stage.peer in up
    ensures |Chain(bs, up, c, stage, ctx, k, ok, m).trace| <= RetriesLeft(ctx) + AliveCount(bs, up)
    decreases Potential(bs, up, stage, ctx)
  {
    match stage
    case Balance =>
      var s := Select(bs, up, c);
      if s.pick.Some? {
        ChainBound(bs, up, s.cursor, Forward(bs[s.pick.value]), ctx, k, ok, m);
      }
    case Forward(peer) =>
      AliveCountDrop(bs, up, peer);
      if k !in ok {
        match ErrorPolicy(GetContextRetries(ctx), m)
        case Retry(next) =>
          ChainBound(bs, up, c, stage, Some(next), k + 1, ok, m);
        case Failover =>
          ChainBound(bs, up - {peer}, c, Balance, ctx, k + 1, ok, m);
      }
  }

  /** A fresh request ends, one way or another, after at most 3 + n forwards. */
  lemma FreshRequestBound<T>(bs: seq<T>, up: set<T>, c: uint64, ok: set<nat>, m: int)
    requires |bs| <= MAX_INT
    ensures |Chain(bs, up, c, Balance, None, 0, ok, m).trace| <= RETRY_LIMIT + |bs|
  {
    ChainBound(bs, up, c, Balance, None, 0, ok, m);
    AliveCountBound(bs, up);
  }

  /**
   * When every forward fails, the request ends in 503, every registered
   * backend that was alive is disabled, and the number of forwards is exactly
   * the retry allowance plus one forward per live backend.
   */
  lemma {:induction false} ChainAllFail<T>(bs: seq<T>, up: set<T>, c: uint64, stage: Stage<T>,
                                           ctx: Option<int>, k: nat, ok: set<nat>, m: int)
    requires |bs| <= MAX_INT
    requires stage.Forward? ==> stage.peer in bs && stage.peer in up
    requires forall j :: k <= j ==> j !in ok
    ensures var o := Chain(bs, up, c, stage, ctx, k, ok, m);
      && o.resp == Unavailable
      && o.up == up - Elems(bs)
      && |o.trace| == if stage.Balance? && AliveCount(bs, up) == 0 then 0
                      else RetriesLeft(ctx) + AliveCount(bs, up)
    decreases Potential(bs, up, stage, ctx)
  {
    match stage
    case Balance =>
      var s := Select(bs, up, c);
      AliveCountPositive(bs, up);
      if s.pick.Some? {
        ChainAllFail(bs, up, s.cursor, Forward(bs[s.pick.value]), ctx, k, ok, m);
      } else {
        assert Elems(bs) * up == {} by {
          forall x | x in Elems(bs) ensures x !in up {
            var i :| 0 <= i < |bs| && bs[i] == x;
          }
        }
      }
    case Forward(peer) =>
      assert k !in ok;
      match ErrorPolicy(GetContextRetries(ctx), m)
      case Retry(next) =>
        ChainAllFail(bs, up, c, stage, Some(next), k + 1, ok, m);
      case Failover =>
        AliveCountDrop(bs, up, peer);
        ChainAllFail(bs, up - {peer}, c, Balance, ctx, k + 1, ok, m);
        assert (up - {peer}) - Elems(bs) == up - Elems(bs);
  }

  /**
   * Safety of the chain: liveness only ever goes down, every forward goes to
   * a registered backend that was alive when the request arrived, and a
   * served request was served by the last backend it was forwarded to, which
   * is still alive.
   */
  lemma {:induction false} ChainSafety<T>(bs: seq<T>, up: set<T>, c: uint64, stage: Stage<T>,
                                          ctx: Option<int>, k: nat, ok: set<nat>, m: int)
    requires |bs| <= MAX_INT
    requires stage.Forward? ==> stage.peer in bs && stage.peer in up
    ensures var o := Chain(bs, up, c, stage, ctx, k, ok, m);
      && o.up <= up
      && (forall i :: 0 <= i < |o.trace| ==> o.trace[i] in bs && o.trace[i] in up)
      && (o.resp.Served? ==>
            |o.trace| > 0 && o.trace[|o.trace| - 1] == o.resp.peer && o.resp.peer in o.up)
    decreases Potential(bs, up, stage, ctx)
  {
    match stage
    case Balance =>
      var s := Select(bs, up, c);
      if s.pick.Some? {
        ChainSafety(bs, up, s.cursor, Forward(bs[s.pick.value]), ctx, k, ok, m);
      }
    case Forward(peer) =>
      if k !in ok {
        match ErrorPolicy(GetContextRetries(ctx), m)
        case Retry(next) =>
          ChainSafety(bs, up, c, stage, Some(next), k + 1, ok, m);
        case Failover =>
          AliveCountDrop(bs, up, peer);
          ChainSafety(bs, up - {peer}, c, Balance, ctx, k + 1, ok, m);
      }
  }

  /**
   * Retries stay on the peer: the first forwards, one plus the retries the
   * counter still allows, all go to the same backend, and the request only
   * moves to another backend once that peer has been disabled.
   */
  lemma {:induction false} RetriesStayOnPeer<T>(bs: seq<T>, up: set<T>, c: uint64, peer: T,
                                                ctx: Option<int>, k: nat, ok: set<nat>, m: int)
    requires |bs| <= MAX_INT
    requires peer in bs && peer in up
    ensures var o := Chain(bs, up, c, Forward(peer), ctx, k, ok, m);
      && (forall i :: 0 <= i < |o.trace| && i <= RetriesLeft(ctx) ==> o.trace[i] == peer)
      && ((exists i :: 0 <= i < |o.trace| && o.trace[i] != peer) ==> peer !in o.up)
    decreases RetriesLeft(ctx)
  {
    var o := Chain(bs, up, c, Forward(peer), ctx, k, ok, m);
    if k !in ok {
      match ErrorPolicy(GetContextRetries(ctx), m)
      case Retry(next) =>
        RetriesStayOnPeer(bs, up, c, peer, Some(next), k + 1, ok, m);
        var rest := Chain(bs, up, c, Forward(peer), Some(next), k + 1, ok, m);
        assert o.trace == [peer] + rest.trace;
        forall i | 0 <= i < |o.trace| && i <= RetriesLeft(ctx) ensures o.trace[i] == peer {
          if i > 0 {
            assert o.trace[i] == rest.trace[i - 1];
          }
        }
        if i :| 0 <= i < |o.trace| && o.trace[i] != peer {
          assert rest.trace[i - 1] != peer;
        }
      case Failover =>
        AliveCountDrop(bs, up, peer);
        ChainSafety(bs, up - {peer}, c, Balance, ctx, k + 1, ok, m);
    }
  }

  /**
   * The counter is not reset on failover: once it has reached the limit, a
   * single failed forward disables the peer at once, and no later forward of
   * the request goes back to it.
   */
  lemma FailoverLeavesNoRetries<T>(bs: seq<T>, up: set<T>, c: uint64, peer: T,
                                   ctx: Option<int>, k: nat, ok: set<nat>, m: int)
    requires |bs| <= MAX_INT
    requires peer in bs && peer in up
    requires GetContextRetries(ctx) >= RETRY_LIMIT
    requires k !in ok
    ensures var o := Chain(bs, up, c, Forward(peer), ctx, k, ok, m);
      && peer !in o.up
      && o.trace[0] == peer
      && forall i :: 1 <= i < |o.trace| ==> o.trace[i] != peer
  {
    AliveCountDrop(bs, up, peer);
    ChainSafety(bs, up - {peer}, c, Balance, ctx, k + 1, ok, m);
    var rest := Chain(bs, up - {peer}, c, Balance, ctx, k + 1, ok, m);
    var o := Chain(bs, up, c, Forward(peer), ctx, k, ok, m);
    assert o.trace == [peer] + rest.trace;
    forall i | 1 <= i < |o.trace| ensures o.trace[i] != peer {
      assert o.trace[i] == rest.trace[i - 1];
    }
  }
}
