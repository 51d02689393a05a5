# gbalancer selection and failover core, in Dafny

gbalancer is a small HTTP load balancer. This project models the part of it
that decides where a request goes:

- the **backend** liveness flag (`enable`, `disable`, `isAlive`; `SetAlive` and
  `IsAlive` in the earlier copy in `main.go`);
- the **server pool**: backends in registration order plus a `uint64` cursor,
  with round-robin selection that skips dead backends and, after a skip,
  moves the cursor to the backend it chose;
- one pass of the **health check**, which sets each backend's flag to the
  result of its probe;
- the **retry / failover chain** of one request. A failed forward is retried
  on the same backend while the request's retry counter is below 3. Once it is
  not, the backend is disabled and selection runs again.

Files:

- `balancing.dfy`, module `Balancing`: the value-level specification. A pool
  is described by its backends `bs`, the set `up` of backends whose flag is
  set, and the cursor. `Select` specifies `FindBackend`/`findRoundRobin`.
  `ErrorPolicy` is the handler's decision. `Chain` is the whole chain of one
  request. Its measure `Potential` is twice the sum of the retries the
  counter still allows and the live backends, plus one while a selection is
  pending. It goes down at every step. Lemmas about these functions are here.
- `loadbalancer.dfy`, module `LoadBalancer`: classes `Backend` and
  `ServerPool` for `loadbalancer/loadbalancer.go`. Their methods are proved
  against the functions of `Balancing`.
- `prototype.dfy`, module `Prototype`: the same for the earlier copy in
  `main.go`.

Liveness is the set of backend objects whose flag is set, not one flag per
slot. So the model stays exact when one `*Backend` is registered twice:
disabling it clears every slot that holds it.

Inputs the code gets from outside become parameters:

- The TCP probe of `checkHealth` is the set `reachable` of addresses that
  answer during the pass.
- The reverse proxy's forward is an oracle: the set `ok` of attempt numbers
  that succeed. The `k`-th forward of the request (counting from 0) succeeds
  exactly when `k in ok`.
- The request context is reduced to its retry counter, `Option<int>`, where
  `None` means the key is absent.

Behaviours of the code worth noting:

- The retry limit is the literal `3` at loadbalancer/loadbalancer.go:160. The
  handler's `maxRetries` parameter is never read
  (`ErrorPolicyIgnoresMaxRetries`).
- On failover the handler passes the request's own context along
  (loadbalancer/loadbalancer.go:173), so the retry counter is carried over to
  the next backend. A failure on the backend chosen by failover disables it
  after one forward, with no retries (`FailoverLeavesNoRetries`).
- A backend is disabled after its fourth failed forward: the first forward
  plus three retries (`ChainAllFail`, `RetriesStayOnPeer`).
- The number of failover hops is bounded only because each hop disables one
  live backend. A fresh request makes at most 3 + n forwards
  (`FreshRequestBound`).

## Model

| member | source | states |
|---|---|---|
| `Balancing.Advance` | loadbalancer/loadbalancer.go:36 | the cursor increment is +1 below 2^64 - 1 and wraps to 0 from 2^64 - 1 |
| `Balancing.StartIndex` | loadbalancer/loadbalancer.go:35-37 | the index `nextIndex` returns always lies in `[0, len)` |
| `Balancing.FirstLive` | loadbalancer/loadbalancer.go:108-111 | the scan stops at the first offset whose slot is alive; every slot it passes over is dead; it returns `len` only after a full lap of dead slots |
| `Balancing.Select` | loadbalancer/loadbalancer.go:99-118 | an empty pool fails and keeps the cursor. Otherwise selection fails exactly when no backend is alive, and then the cursor keeps its single increment. On success: the chosen backend is alive; every slot cyclically between the start index and it is dead; the cursor is the plain increment if nothing was skipped, else the chosen index |
| `Balancing.SelectFromScan` | loadbalancer/loadbalancer.go:107-115 | a scan whose first live slot is `e` steps from the start index picks that slot, and moves the cursor to it exactly when `e > 0` |
| `Balancing.SelectAfterFullLap` | loadbalancer/loadbalancer.go:107-118 | a scan that finds all `len` slots of the lap dead fails, leaving the single increment of the cursor |
| `Balancing.SelectAllAlive` | loadbalancer/loadbalancer.go:107-115 | with every backend alive, selection returns `(c+1) mod n` and the cursor is `c+1` |
| `Balancing.RoundRobinOrder` | loadbalancer/loadbalancer.go:107-115 | with every backend alive, `k` successive selections from cursor `c` return `(c+1) mod n, …, (c+k) mod n`, i.e. registration order, while the cursor does not wrap |
| `Balancing.NextSelectionStartsAfterPick` | loadbalancer/loadbalancer.go:112-114 | after a successful selection, the next one starts at the slot just after the chosen backend, whether or not the cursor was overwritten (while the cursor does not wrap) |
| `Balancing.SkipOverDeadBackend` | loadbalancer/loadbalancer.go:107-115 | three backends with the middle one dead, and the first just returned: the next selection returns the third and the cursor becomes 2 |
| `Balancing.GetContextRetries` | loadbalancer/loadbalancer.go:140-145 | a missing retry counter reads as 0; a present one reads as its value |
| `Balancing.ErrorPolicy` | loadbalancer/loadbalancer.go:159-173 | a failed forward is retried exactly when the counter is below 3, with the counter raised by one; otherwise the handler fails over |
| `Balancing.ErrorPolicyIgnoresMaxRetries` | loadbalancer/loadbalancer.go:152-160 | the decision is the same whatever `maxRetries` the handler was built with |
| `Balancing.Chain` | loadbalancer/loadbalancer.go:122-130 | the whole chain of one request: selection, forward, and the error handler of lines 157-173 run on each failure, ending in a served forward or a 503. It has no ensures of its own; its properties are those of `ChainSelects`, `ChainRetries`, `ChainFailsOver`, `ChainBound`, `FreshRequestBound`, `ChainAllFail`, `ChainSafety`, `RetriesStayOnPeer` and `FailoverLeavesNoRetries` |
| `Balancing.ChainSelects` | loadbalancer/loadbalancer.go:124-129 | when selection finds a backend, the request is forwarded to it with the new cursor |
| `Balancing.ChainRetries` | loadbalancer/loadbalancer.go:159-166 | a failure below the limit forwards again to the same backend with counter + 1, liveness and cursor unchanged |
| `Balancing.ChainFailsOver` | loadbalancer/loadbalancer.go:169-173 | a failure at the limit disables the backend, which lowers the number of live backends, and reselects with the counter unchanged |
| `Balancing.ChainBound` | loadbalancer/loadbalancer.go:157-173 | a request makes at most (retries its counter still allows) + (distinct live backends) forwards |
| `Balancing.FreshRequestBound` | loadbalancer/loadbalancer.go:157-173 | a request arriving without a counter ends after at most 3 + n forwards |
| `Balancing.ChainAllFail` | loadbalancer/loadbalancer.go:124-128 | when every forward fails, the request ends in 503, every registered live backend is disabled and nothing else changes, and the number of forwards is exactly the retry allowance plus one per live backend (0 when none is alive) |
| `Balancing.ChainSafety` | loadbalancer/loadbalancer.go:157-173 | liveness only goes down during a request; every forward goes to a registered backend that was alive on arrival; a served request was served by its last forward's backend, which is still alive |
| `Balancing.RetriesStayOnPeer` | loadbalancer/loadbalancer.go:160-166 | the first forwards (one plus the retries left) all go to the same backend; the request moves to another backend only after that one is disabled |
| `Balancing.FailoverLeavesNoRetries` | loadbalancer/loadbalancer.go:170-173 | once the counter has reached 3, one failed forward disables the backend, and no later forward of the request goes back to it |
| `LoadBalancer.Backend.Enable` | loadbalancer/loadbalancer.go:39-43 | the flag is set, whatever it was; nothing else changes |
| `LoadBalancer.Backend.Disable` | loadbalancer/loadbalancer.go:45-49 | the flag is cleared, whatever it was; nothing else changes |
| `LoadBalancer.Backend.IsAlive` | loadbalancer/loadbalancer.go:51-55 | returns the current flag |
| `LoadBalancer.ServerPool.constructor` | loadbalancer/loadbalancer.go:25-28 | the zero value of `ServerPool`: no backends and cursor 0 |
| `LoadBalancer.ServerPool.AddBackend` | loadbalancer/loadbalancer.go:31-33 | appends exactly one backend at the end; earlier entries and the cursor are unchanged |
| `LoadBalancer.ServerPool.NextIndex` | loadbalancer/loadbalancer.go:35-37 | the cursor goes up by one modulo 2^64; the result is the new cursor modulo the pool size, in `[0, len)` |
| `LoadBalancer.ServerPool.FindBackend` | loadbalancer/loadbalancer.go:99-104 | the pool's result and new cursor are those of `Select`; an empty pool fails with the cursor untouched; liveness is unchanged |
| `LoadBalancer.ServerPool.FindRoundRobin` | loadbalancer/loadbalancer.go:106-119 | the loop returns the backend `Select` picks and leaves the cursor `Select` gives |
| `LoadBalancer.ServerPool.HealthCheckPass` | loadbalancer/loadbalancer.go:80-91 | after one pass every registered backend's flag equals its probe result; the backend sequence and the cursor are unchanged |
| `LoadBalancer.ServerPool.OnProxyError` | loadbalancer/loadbalancer.go:157-173 | below 3 the request goes back to the same backend with the counter raised by one and no liveness change; otherwise that backend alone is disabled and the request goes back to selection with the counter as it was |
| `LoadBalancer.ServerPool.ProxyServe` | loadbalancer/loadbalancer.go:129 | the forward is served exactly when attempt `k` succeeds, and then liveness is unchanged; a failure runs the error handler, which is one step of `Chain` and lowers its measure |
| `LoadBalancer.ServerPool.Step` | loadbalancer/loadbalancer.go:122-130 | one selection or one forward of a request: a 503 or a served forward ends the request with the outcome `Chain` gives; any other step leaves the rest of the chain equal to `Chain` from the new state, with a smaller measure |
| `LoadBalancer.ServerPool.Loadbalance` | loadbalancer/loadbalancer.go:122-130 | with the retry handler installed, the response, the backends forwarded to, the new liveness and the new cursor are exactly those of `Chain` |
| `LoadBalancer.SelectAfterProbe` | loadbalancer/loadbalancer.go:80-91 | after a health pass, selection fails exactly when no registered backend answered its probe, and otherwise returns one that did |
| `Prototype.Backend.SetAlive` | main.go:36-40 | `SetAlive(a)` makes the flag `a`; nothing else changes |
| `Prototype.Backend.IsAlive` | main.go:42-46 | returns the current flag |
| `Prototype.ServerPool.constructor` | main.go:81 | `var serverPool serverPool`: no backends and cursor 0 |
| `Prototype.ServerPool.AddBackend` | main.go:28-30 | appends exactly one backend at the end; earlier entries and the cursor are unchanged |
| `Prototype.ServerPool.NextIndex` | main.go:32-34 | the cursor goes up by one modulo 2^64; the result lies in `[0, len)` |
| `Prototype.ServerPool.FindBackend` | main.go:48-53 | an empty pool fails with the cursor untouched; otherwise the result and cursor are those of `Select` |
| `Prototype.ServerPool.FindRoundRobin` | main.go:55-68 | returns the first live backend cyclically from the start index and overwrites the cursor only when it skipped; fails exactly when no backend is alive |
| `Prototype.ServerPool.Loadbalance` | main.go:71-78 | hands the request to a proxy exactly when some backend is alive, to the backend `Select` picks; otherwise answers 503 without forwarding. Here `Served(peer)` means only that the request was handed to `peer`'s proxy |

## Left out

- `checkHealth` (loadbalancer/loadbalancer.go:61-72) is a TCP dial. It becomes the set of reachable addresses. A pass probes each address once, so two slots with the same address always get the same result.
- The health-check ticker loop and the 10 ms backoff before a retry (loadbalancer/loadbalancer.go:76-79, 162) are timing. One pass and one retry step are modelled.
- The reverse proxy's `ServeHTTP`, `http.Error` and response writing are network I/O. They become the forward oracle `ok` and the results `Served` / `Unavailable` (503).
- `sync.Mutex` and `sync/atomic`: each locked or atomic operation is one sequential step. The health check running alongside requests is not modelled, so `Chain` assumes no backend is re-enabled during a request.
- `context.WithValue`: only the integer retry counter is kept. A value of another type under the key, which the Go type assertion would read as 0, does not arise.
- Logging, `main` and `runBackend` in main.go, and server/server.go: process bootstrap and HTTP server I/O.
- The backend's `URL` and `ReverseProxy` fields are reduced to an address string.
- `Balancing.RoundRobinOrder`: stated only while the cursor does not wrap at 2^64. At the wrap, the start index jumps to 0 unless n divides 2^64.
- `Balancing.NextSelectionStartsAfterPick`: stated only while the cursor does not wrap at 2^64, for the same reason.
- The wiring of the error handler is not part of the source: no file shows where `ProxyErrorHandlerWithRetries` is installed. `Chain` and `LoadBalancer.ServerPool.Loadbalance` assume that each registered backend `b`'s proxy has `ProxyErrorHandlerWithRetries(b.ReverseProxy, b, pool, maxRetries)` as its error handler. So a retry reaches the same backend, and a disable hits the backend that was forwarded to.
- `Prototype.ServerPool.Loadbalance`: main.go installs no error handler, so a failed forward gets the reverse proxy's own error response. The model does not tell that apart from a served request: `Served(peer)` there only means the request was handed to `peer`'s proxy.
- The loop bound `l`, the pool length plus the start index, in `findRoundRobin` (loadbalancer/loadbalancer.go:108, main.go:57) is Go `int` arithmetic, which overflows once the pool holds more than MAX_INT / 2 backends. The model computes it unbounded, because a slice of that many pointers cannot fit in memory.
