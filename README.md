# Round-robin load balancer with eviction of dead workers

This project models `MyLoadBalancer` from the Go program `src/main.go`, a load
balancer in front of a pool of time-service workers. The balancer holds an
ordered pool of worker handles (`timerInstances`, each handle being the
worker's request channel) and a cursor (`selectedTimerIdx`).

- `getNextTimer` makes one selection attempt. It advances the cursor with
  wrap-around and sends the request to the handle at the cursor. If the send
  panics because the worker closed its channel, the deferred `recover`
  removes that handle by index, and the call returns nil with no error.
- `Request` calls `getNextTimer` again and again until a send is accepted or
  the pool is empty.
- `RegisterInstance` appends a handle.

The project has two modules:

- `RoundRobin` (`round_robin.dfy`) models the balancer as values.
  `Balancer(cursor, pool)` is the state. `SelectNext`, `Dispatch` and
  `Register` model the three operations. `DispatchMany` runs several
  requests in a row. The lemmas next to them state the properties.
- `LoadBalancer` (`load_balancer.dfy`) declares the class `MyLoadBalancer<H>`.
  It has the Go struct's two fields and one method per Go method, and
  updates the fields in place. Each method is proved equal to its
  `RoundRobin` function. Each method also states that function's proved
  properties directly in its own `ensures` clauses.

Handles are opaque: the type parameter `H`. Whether a worker is dead is an
oracle, the set `dead`, passed to each call. A send to a handle in `dead`
has the outcome `Closed` (in Go, the panic on a closed channel). Any other
send has the outcome `Accepted`. The reply channel returned to the caller is
`Reply(worker)`, tagged with the handle whose inbox took the request. Go's
nil is `None`.

### Where the code differs from a textbook round-robin dispatcher

A textbook round-robin dispatcher would start at the first handle, evict the
failed handle by identity, and re-base the cursor after an eviction so that
the next handle in turn is tried. This code does none of these, and the model
follows the code:

- The cursor starts at 0 and is advanced before it is used. So on a fresh
  balancer with two or more handles, the first request goes to the second
  registered handle (`FirstPickFromFresh`, `ThreeHandlesScenario`). It does
  not go to the first.
- Eviction removes whatever handle is at the cursor index. It does not
  search for the failed handle.
- The cursor is not re-based after an eviction. It can therefore point one
  past the end of the pool (`StaleCursorAfterEviction`). The invariant the
  code keeps is `cursor <= |pool|` (`CursorInRange`), not `cursor < |pool|`.
  The next advance still wraps it to 0, so every read is in bounds.
- Because the cursor is not re-based, a retry after an eviction can skip the
  handle that slid into the evicted slot. Suppose the evicted slot was not
  among the last two of the old pool, so at least two handles remain. Then
  the retry tries the handle after the slid-in one. If that handle is live,
  it serves the request, and the slid-in handle is neither tried nor
  evicted (`RetrySkipsSuccessor`). If the evicted slot was among the last
  two, the advance wraps to 0 and the handle at slot 0 is tried. In a pool
  of two whose first handle is evicted, that is exactly the slid-in handle
  (`DeadFirstHandleScenario`).
- Blocking on a full inbox does not exist in the model. A send is either
  accepted or closed.

## Model

| member | source | states |
|---|---|---|
| `RoundRobin.Advance` | src/main.go:49-53 | the advanced cursor is a valid index; it is `(cursor + 1) mod n` for an in-range cursor and 0 for a stale cursor past the end |
| `RoundRobin.RemoveAt` | src/main.go:45 | removing by index drops exactly one element, the one at the index; the elements before it stay in place and the ones after it shift down by one |
| `RoundRobin.SelectNext` | src/main.go:34-62 | empty pool: error, state unchanged; otherwise no error and the cursor is the advanced one; a live handle at the cursor gets the request, the pool is unchanged and the reply names that handle; a dead handle is removed by index and the result is nil, nil; the send is modelled by `Send`, which gives `Closed` for a handle in `dead` (the recovered panic, src/main.go:42-47, 56) and `Accepted` otherwise |
| `RoundRobin.Dispatch` | src/main.go:64-81 | the retry loop terminates; an empty pool gives nil and no change; the pool never grows; a reply names a live handle, and that handle sits at the final cursor |
| `RoundRobin.EvictedFromRemoveAt` | src/main.go:45 | removing one dead handle by index is an eviction: the remaining handles keep their relative order |
| `RoundRobin.SelectNextEvictsOnlyDead` | src/main.go:42-47 | one attempt evicts only a dead handle |
| `RoundRobin.SelectNextKeepsCursorInRange` | src/main.go:42-55 | one attempt keeps the cursor at most one past the end |
| `RoundRobin.DispatchEvictsOnlyDead` | src/main.go:68-78 | the pool after `Request` is the old pool with some dead handles removed, in order; every live handle survives |
| `RoundRobin.DispatchNilEmptiesPool` | src/main.go:68-78 | when `Request` returns nil, the pool is empty |
| `RoundRobin.DispatchAllDeadIsNil` | src/main.go:68-78 | when every handle is dead, `Request` returns nil |
| `RoundRobin.DispatchNilIffAllDead` | src/main.go:64-81 | `Request` returns nil if and only if every handle of the old pool was dead, and the pool is then empty |
| `RoundRobin.DispatchKeepsCursorInRange` | src/main.go:64-81 | `Request` keeps the cursor at most one past the end |
| `RoundRobin.RetrySkipsSuccessor` | src/main.go:45-55 | after an eviction at cursor `c` with `c + 2` still inside the old pool, the retry is served by the old pool's handle at `c + 2`; the request ends with the cursor at `c + 1` and the pool equal to the old pool minus slot `c`, so the old handle at `c + 1` is neither tried nor evicted, even when it is dead |
| `RoundRobin.RegisterKeepsCursorInRange` | src/main.go:84-86 | registering keeps the cursor at most one past the end |
| `RoundRobin.RegisterLiveServes` | src/main.go:84-86 | after registering a live handle, the next `Request` is served, and by a live handle |
| `RoundRobin.Rotation` | src/main.go:49-55 | with no dead handles, the i-th of k requests is served by the handle at `(advanced cursor + i) mod n`; the pool does not change; the final cursor is `(advanced cursor + k - 1) mod n` |
| `RoundRobin.RotationFair` | src/main.go:49-55 | with no dead handles, n requests on a pool of n handles are served by the pool rotated to start at the advanced cursor |
| `RoundRobin.RotationFairCounts` | src/main.go:49-55 | with no dead handles, n requests serve each handle as many times as it occurs in the pool |
| `RoundRobin.FirstPickFromFresh` | src/main.go:28-55 | on a fresh balancer with at least two live handles, the first request goes to index 1 |
| `RoundRobin.ThreeHandlesScenario` | src/main.go:49-86 | registering x, y, z on a fresh balancer with all three live: four requests are served by y, z, x, y |
| `RoundRobin.StaleCursorAfterEviction` | src/main.go:45-53 | evicting the last handle leaves the cursor equal to the pool size; the next attempt wraps to 0 |
| `RoundRobin.DeadFirstHandleScenario` | src/main.go:34-86 | registering x, y with x dead: the first request is served by y; the second request evicts x and is served by y; only y remains |
| `RoundRobin.SingleDeadHandleScenario` | src/main.go:64-81 | a single dead handle is evicted, and the request returns nil |
| `LoadBalancer.MyLoadBalancer.constructor` | src/main.go:28-31 | the zero value `Fresh()`: no handles, cursor 0 |
| `LoadBalancer.MyLoadBalancer.GetNextTimer` | src/main.go:34-62 | the method's new state and results equal `SelectNext`; its `ensures` give the error case, the advanced cursor, the accepted case and the eviction by index; it keeps the cursor invariant |
| `LoadBalancer.MyLoadBalancer.Request` | src/main.go:64-81 | the method's loop terminates, and its new state and result equal `Dispatch`; only dead handles are evicted, in order; it returns nil if and only if all handles were dead, and then the pool is empty; a reply names the live handle at the cursor |
| `LoadBalancer.MyLoadBalancer.RegisterInstance` | src/main.go:84-86 | the new state is `Register` of the old one: the handle is appended at the end; the cursor is unchanged; the cursor invariant is kept |

## Left out

- The worker `TimeService.Run` (src/main.go:100-112) is left out. It is a goroutine with a `select`, sleeps and a random float latency. All the balancer sees of it is whether the worker's channel is closed: the `dead` oracle.
- The command loop `main` (src/main.go:120-154) is left out. It is stdin I/O, plus a select with a timeout that waits on the reply channel.
- `TimeServiceManager.Kill` and `Spawn` (src/main.go:157-180) are left out. They use random choice and random latency. Their only effect on the core is that some handle becomes dead (a larger `dead` set) or a new handle is registered.
- Timing is left out. In Go, a killed worker closes its channel asynchronously, so a send that lands before the close is accepted and may never be answered (the worker's `select` chooses at random between the kill signal and a buffered request). The model fixes `dead` for the whole of one call, so it cannot show a worker that dies partway through a `Request`.
- A blocked send on a full inbox (capacity 10) is left out. Each send is either accepted or closed.
- Concurrent use of the pool is left out, because the code has no locking. The model is sequential, as `main` uses it from one goroutine.
- The request payload and the response value are opaque and left out. The reply channel is modelled only by the handle that accepted the request.
