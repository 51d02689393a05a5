/**
 * The earlier copy of the registry kept in package main: the same selection
 * algorithm, a single `SetAlive` setter, and a `Loadbalance` without any
 * retry handler.
 */
module Prototype {
  import opened Balancing

  /** An upstream peer of the prototype: its address and its liveness flag. */
  class Backend {
    const address: string
    var alive: bool

    constructor (address: string, alive: bool)
      ensures this.address == address && this.alive == alive
    {
      this.address := address;
      this.alive := alive;
    }

    /** `SetAlive`: store the flag; nothing else changes. */
    method SetAlive(a: bool)
      modifies this`alive
      ensures alive == a
    {
      alive := a;
    }

    /** `IsAlive`: read the flag. */
    method IsAlive() returns (r: bool)
      ensures r == alive
    {
      r := alive;
    }
  }

  /** The prototype registry: backends in registration order and the cursor. */
  class ServerPool {
    var backends: seq<Backend>
    var current: uint64

    /** A Go slice never holds more than MAX_INT elements. */
    ghost predicate Valid()
      reads this`backends
    {
      |backends| <= MAX_INT
    }

    /** The registered backends whose flag is set. */
    ghost function Up(): set<Backend>
      reads this`backends, backends
    {
      set b | b in backends && b.alive
    }

    /** `var serverPool serverPool`: no backends, cursor 0. */
    constructor ()
      ensures Valid() && backends == [] && current == 0
    {
      backends := [];
      current := 0;
    }

    /** `AddBackend`: append one backend; earlier entries and the cursor stay. */
    method AddBackend(b: Backend)
      requires Valid() && |backends| < MAX_INT
      modifies this`backends
      ensures Valid()
      ensures backends == old(backends) + [b]
      ensures current == old(current)
    {
      backends := backends + [b];
    }

    /** `NextIndex`: advance the cursor by one, wrapping at 2^64, modulo the pool size. */
    method NextIndex() returns (i: nat)
      requires |backends| > 0
      modifies this`current
      ensures current == Advance(old(current))
      ensures i == StartIndex(old(current), |backends|) && i < |backends|
    {
      current := (current + 1) % TWO_TO_THE_64;
      i := current % |backends|;
    }

    /** `FindBackend`: an empty pool fails without touching the cursor. */
    method FindBackend() returns (r: Option<Backend>)
      requires Valid()
      modifies this`current
      ensures Up() == old(Up())
      ensures var s := Select(backends, Up(), old(current));
        && current == s.cursor
        && (r.Some? <==> s.pick.Some?)
        && (r.Some? ==> r.value == backends[s.pick.value])
    {
      if |backends| == 0 {
        return None;
      }
      r := FindRoundRobin();
    }

    /**
     * `FindRoundRobin`: advance the cursor, return the first live backend in
     * ring order from the start index, overwriting the cursor with its index
     * when the scan had to skip; fail after a full lap with none alive.
     */
    method FindRoundRobin() returns (r: Option<Backend>)
      requires Valid() && |backends| > 0
      modifies this`current
      ensures Up() == old(Up())
      ensures var s := Select(backends, Up(), old(current));
        && current == s.cursor
        && (r.Some? <==> s.pick.Some?)
        && (r.Some? ==> r.value == backends[s.pick.value])
    {
      ghost var c0, up := current, Up();
      var next := NextIndex();
      var n := |backends|;
      var l := n + next;
      var i := next;
      while i < l
        invariant next <= i <= l
        invariant current == Advance(c0) && Up() == up
        invariant forall j :: 0 <= j < i - next ==> At(backends, next, j) !in up
      {
        var idx := i % n;
        var alive := backends[idx].IsAlive();
        if alive {
          if i != next {
            current := idx;
          }
          SelectFromScan(backends, up, c0, i - next);
          return Some(backends[idx]);
        }
        i := i + 1;
      }
      SelectAfterFullLap(backends, up, c0);
      return None;
    }

    /**
     * `Loadbalance`: hand the request to the selected backend's reverse
     * proxy, or answer 503 without forwarding when selection fails. The
     * prototype installs no error handler, so a failed forward changes
     * nothing here. `Served(peer)` therefore means only that the request was
     * handed to `peer`'s reverse proxy, not that the forward succeeded.
     */
    method Loadbalance() returns (resp: Response<Backend>)
      requires Valid()
      modifies this`current
      ensures Up() == old(Up())
      ensures resp.Served? <==> exists i :: 0 <= i < |backends| && backends[i].alive
      ensures var s := Select(backends, Up(), old(current));
        && current == s.cursor
        && resp == if s.pick.Some? then Served(backends[s.pick.value]) else Unavailable
    {
      var peer := FindBackend();
      if peer.None? {
        return Unavailable;
      }
      return Served(peer.value);
    }
  }
}
