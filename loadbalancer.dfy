/**
 * The backend registry of package loadbalancer: backends with a liveness flag,
 * the server pool with its round-robin cursor, one pass of the health check,
 * and the per-request retry / failover chain.
 *
 * Each lock-protected or atomic operation of the package is one step here;
 * the forwarder and the TCP probe are abstract inputs.
 */
module LoadBalancer {
  import opened Balancing

  /** An upstream peer: its address (host:port) and its liveness flag. */
  class Backend {
    const address: string
    var alive: bool

    constructor (address: string, alive: bool)
      ensures this.address == address && this.alive == alive
    {
      this.address := address;
      this.alive := alive;
    }

    /** `enable`: set the flag; idempotent, touches nothing else. */
    method Enable()
      modifies this`alive
      ensures alive
    {
      alive := true;
    }

    /** `disable`: clear the flag; idempotent, touches nothing else. */
    method Disable()
      modifies this`alive
      ensures !alive
    {
      alive := false;
    }

    /** `isAlive`: read the flag. */
    method IsAlive() returns (r: bool)
      ensures r == alive
    {
      r := alive;
    }
  }

  /** The registry: backends in registration order and the round-robin cursor. */
  class ServerPool {
    var backends: seq<Backend>
    var current: uint64

    /** A Go slice never holds more than MAX_INT elements. */
    ghost predicate Valid()
      reads this`backends
    {
      |backends| <= MAX_INT
    }

    /** The registered backends whose flag is set. */
    ghost function Up(): set<Backend>
      reads this`backends, backends
    {
      set b | b in backends && b.alive
    }

    /** The zero value of `ServerPool`: no backends, cursor 0. */
    constructor ()
      ensures Valid() && backends == [] && current == 0
    {
      backends := [];
      current := 0;
    }

    /** `AddBackend`: append one backend; earlier entries and the cursor stay. */
    method AddBackend(b: Backend)
      requires Valid() && |backends| < MAX_INT
      modifies this`backends
      ensures Valid()
      ensures backends == old(backends) + [b]
      ensures current == old(current)
    {
      backends := backends + [b];
    }

    /**
     * `nextIndex`: advance the cursor by one, wrapping at 2^64, and reduce it
     * modulo the pool size. On an empty pool the Go code divides by zero, so
     * only a non-empty pool may ask.
     */
    method NextIndex() returns (i: nat)
      requires |backends| > 0
      modifies this`current
      ensures current == Advance(old(current))
      ensures i == StartIndex(old(current), |backends|) && i < |backends|
    {
      current := (current + 1) % TWO_TO_THE_64;
      i := current % |backends|;
    }

    /**
     * `FindBackend`: an empty pool fails without touching the cursor;
     * otherwise `findRoundRobin` decides.
     */
    method FindBackend() returns (r: Option<Backend>)
      requires Valid()
      modifies this`current
      ensures Up() == old(Up())
      ensures var s := Select(backends, Up(), old(current));
        && current == s.cursor
        && (r.Some? <==> s.pick.Some?)
        && (r.Some? ==> r.value == backends[s.pick.value])
    {
      if |backends| == 0 {
        return None;
      }
      r := FindRoundRobin();
    }

    /**
     * `findRoundRobin`: advance the cursor, scan the ring from the start index
     * for the first live backend, and, when the scan had to skip, overwrite
     * the cursor with the index chosen. Fails after a full lap with no live
     * backend, leaving the single increment in place.
     */
    method FindRoundRobin() returns (r: Option<Backend>)
      requires Valid() && |backends| > 0
      modifies this`current
      ensures Up() == old(Up())
      ensures var s := Select(backends, Up(), old(current));
        && current == s.cursor
        && (r.Some? <==> s.pick.Some?)
        && (r.Some? ==> r.value == backends[s.pick.value])
    {
      ghost var c0, up := current, Up();
      var next := NextIndex();
      var n := |backends|;
      var l := n + next;
      var i := next;
      while i < l
        invariant next <= i <= l
        invariant current == Advance(c0) && Up() == up
        invariant forall j :: 0 <= j < i - next ==> At(backends, next, j) !in up
      {
        var idx := i % n;
        var alive := backends[idx].IsAlive();
        if alive {
          if i != next {
            current := idx;
          }
          SelectFromScan(backends, up, c0, i - next);
          return Some(backends[idx]);
        }
        i := i + 1;
      }
      SelectAfterFullLap(backends, up, c0);
      return None;
    }

    /**
     * One tick of `HealthCheck`: every registered backend is probed in
     * registration order and its flag set to the result. The TCP probe of a
     * backend succeeds exactly when its address is in `reachable`.
     */
    method HealthCheckPass(reachable: set<string>)
      requires Valid()
      modifies backends
      ensures Valid()
      ensures forall i :: 0 <= i < |backends| ==> backends[i].alive == (backends[i].address in reachable)
      ensures Up() == Probed(backends, reachable)
    {
      for i := 0 to |backends|
        invariant forall j :: 0 <= j < i ==> backends[j].alive == (backends[j].address in reachable)
      {
        var b := backends[i];
        var status := b.address in reachable;
        if status {
          b.Enable();
        } else {
          b.Disable();
        }
      }
    }

    /**
     * The handler `ProxyErrorHandlerWithRetries` installs, run after a failed
     * forward to `peer` of a request whose retry counter is `ctx`. Below the
     * limit the request goes back to `peer` with the counter raised and no
     * liveness changes; at the limit `peer` is disabled and the request goes
     * back to selection with its counter as it was.
     */
    method OnProxyError(peer: Backend, ctx: Option<int>, maxRetries: int)
      returns (stage: Stage<Backend>, ctx': Option<int>)
      requires peer in backends
      modifies peer`alive
      ensures var r := GetContextRetries(ctx);
        if r < RETRY_LIMIT then
          stage == Forward(peer) && ctx' == Some(r + 1) && Up() == old(Up()) && peer.alive == old(peer.alive)
        else
          stage == Balance && ctx' == ctx && Up() == old(Up()) - {peer} && !peer.alive
    {
      var retries := GetContextRetries(ctx);
      match ErrorPolicy(retries, maxRetries) {
        case Retry(next) =>
          return Forward(peer), Some(next);
        case Failover =>
          peer.Disable();
          return Balance, ctx;
      }
    }

    /**
     * One forward to `peer` through its reverse proxy, which runs the error
     * handler when the forward fails (`k !in ok`). Returns whether the
     * request was served and, if not, where the chain goes next; that is one
     * step of `Chain`.
     */
    method ProxyServe(peer: Backend, ctx: Option<int>, k: nat, ok: set<nat>, maxRetries: int)
      returns (served: bool, stage: Stage<Backend>, ctx': Option<int>)
      requires Valid() && peer in backends && peer in Up()
      modifies peer`alive
      ensures served == (k in ok)
      ensures served ==> Up() == old(Up())
      ensures !served ==>
        && (stage.Forward? ==> stage.peer in backends && stage.peer in Up())
        && Potential(backends, Up(), stage, ctx') < Potential(backends, old(Up()), Forward(peer), ctx)
        && Chain(backends, old(Up()), current, Forward(peer), ctx, k, ok, maxRetries)
           == Prepend([peer], Chain(backends, Up(), current, stage, ctx', k + 1, ok, maxRetries))
    {
      if k in ok {
        return true, Forward(peer), ctx;
      }
      if GetContextRetries(ctx) < RETRY_LIMIT {
        ChainRetries(backends, Up(), current, peer, ctx, k, ok, maxRetries);
      } else {
        ChainFailsOver(backends, Up(), current, peer, ctx, k, ok, maxRetries);
      }
      served := false;
      stage, ctx' := OnProxyError(peer, ctx, maxRetries);
    }

    /**
     * One step of a request: at `Balance`, select a peer (answering 503 when
     * none is alive); at `Forward(peer)`, forward to it and run the error
     * handler on failure. `emitted` is the forward made, if any. The step is
     * exactly one unfolding of `Chain`, and it makes the chain's measure go
     * down.
     */
    method Step(stage: Stage<Backend>, ctx: Option<int>, k: nat, ok: set<nat>, maxRetries: int)
      returns (done: bool, resp: Response<Backend>, emitted: seq<Backend>,
               stage': Stage<Backend>, ctx': Option<int>, k': nat)
      requires Valid() && (stage.Forward? ==> stage.peer in backends && stage.peer in Up())
      modifies this`current, backends
      ensures Valid() && backends == old(backends)
      ensures var o := Chain(backends, old(Up()), old(current), stage, ctx, k, ok, maxRetries);
        if done then o == Outcome(resp, Up(), current, emitted)
        else
          && (stage'.Forward? ==> stage'.peer in backends && stage'.peer in Up())
          && o == Prepend(emitted, Chain(backends, Up(), current, stage', ctx', k', ok, maxRetries))
          && Potential(backends, Up(), stage', ctx') < Potential(backends, old(Up()), stage, ctx)
    {
      match stage
      case Balance =>
        ghost var c := current;
        var peer := FindBackend();
        if peer.None? {
          return true, Unavailable, [], stage, ctx, k;
        }
        ChainSelects(backends, Up(), c, ctx, k, ok, maxRetries);
        return false, Unavailable, [], Forward(peer.value), ctx, k;
      case Forward(peer) =>
        var served;
        served, stage', ctx' := ProxyServe(peer, ctx, k, ok, maxRetries);
        if served {
          return true, Served(peer), [peer], stage, ctx, k;
        }
        done, resp, emitted, k' := false, Unavailable, [peer], k + 1;
    }

    /**
     * `Loadbalance` with the reverse proxies' error handler
     * (`ProxyErrorHandlerWithRetries`) installed: the whole chain of one
     * request whose retry counter is `ctx` on arrival. The `k`-th forward
     * succeeds exactly when `k in ok`. Returns the response and the backends
     * forwarded to, in order; the new liveness and cursor are those of
     * `Chain`.
     */
    method Loadbalance(ctx: Option<int>, ok: set<nat>, maxRetries: int)
      returns (resp: Response<Backend>, trace: seq<Backend>)
      requires Valid()
      modifies this`current, backends
      ensures Valid() && backends == old(backends)
      ensures var o := Chain(backends, old(Up()), old(current), Balance, ctx, 0, ok, maxRetries);
        && resp == o.resp
        && trace == o.trace
        && Up() == o.up
        && current == o.cursor
    {
      ghost var bs := backends;
      ghost var goal := Chain(bs, Up(), current, Balance, ctx, 0, ok, maxRetries);
      var stage: Stage<Backend> := Balance;
      var retries := ctx;
      var k := 0;
      trace := [];
      ghost var potential := Potential(bs, Up(), stage, retries);
      while true
        invariant Valid() && backends == bs
        invariant stage.Forward? ==> stage.peer in bs && stage.peer in Up()
        invariant goal == Prepend(trace, Chain(bs, Up(), current, stage, retries, k, ok, maxRetries))
        invariant potential == Potential(bs, Up(), stage, retries)
        decreases potential
      {
        ghost var done := trace;
        var finished, emitted;
        finished, resp, emitted, stage, retries, k := Step(stage, retries, k, ok, maxRetries);
        trace := trace + emitted;
        if finished {
          return;
        }
        PrependTwice(done, emitted, Chain(bs, Up(), current, stage, retries, k, ok, maxRetries));
        potential := Potential(bs, Up(), stage, retries);
      }
    }
  }

  /** The liveness a health pass leaves behind, as a set of backends. */
  function Probed(bs: seq<Backend>, reachable: set<string>): set<Backend>
  {
    set b | b in bs && b.address in reachable
  }

  /**
   * After a health pass, selection fails exactly when no registered backend
   * answered its probe, and otherwise returns one that did.
   */
  lemma SelectAfterProbe(bs: seq<Backend>, reachable: set<string>, c: uint64)
    requires |bs| <= MAX_INT
    ensures var s := Select(bs, Probed(bs, reachable), c);
      && (s.pick.None? <==> forall i :: 0 <= i < |bs| ==> bs[i].address !in reachable)
      && (s.pick.Some? ==> bs[s.pick.value].address in reachable)
  {
  }
}
