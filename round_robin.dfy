/**
 * Value-level model of the round-robin load balancer `MyLoadBalancer`.
 *
 * The balancer's state is an ordered pool of worker handles (the request
 * channels of the workers, in registration order) and a cursor that names
 * the last selected position.  Handles are opaque: a type parameter `H`.
 * Whether a handle is dead -- its worker has closed its request channel --
 * is not known to the balancer in advance; it is an oracle `dead` given to
 * each operation, and the balancer only observes it through the outcome of
 * a send.
 */
module RoundRobin {

  datatype Option<T> = None | Some(value: T)

  /** The fresh reply channel handed back to the caller, tagged with the
      handle whose inbox accepted the request (the only worker that will
      write to it). */
  datatype Reply<H> = Reply(worker: H)

  /** The single error `getNextTimer` reports: the pool is empty. */
  datatype Error = NoTimers

  /** What a send on a worker's request channel does: the request is taken,
      or the channel is closed (in Go, a panic that the deferred `recover`
      catches). */
  datatype SendOutcome = Accepted | Closed

  /** Balancer state: `selectedTimerIdx` and `timerInstances`. */
  datatype Balancer<H> = Balancer(cursor: nat, pool: seq<H>)

  /** One selection attempt: the new state and the pair `getNextTimer`
      returns (`None` stands for Go's nil). */
  datatype Attempt<H> = Attempt(after: Balancer<H>, respChan: Option<Reply<H>>, err: Option<Error>)

  /** One `Request` call: the new state and the reply channel returned. */
  datatype Outcome<H> = Outcome(after: Balancer<H>, respChan: Option<Reply<H>>)

  /** Several successive `Request` calls: the final state and the reply
      channel of each call, in order. */
  datatype Run<H> = Run(after: Balancer<H>, replies: seq<Option<Reply<H>>>)

  /** The zero value `&MyLoadBalancer{}`. */
  function Fresh<H>(): Balancer<H>
  {
    Balancer(0, [])
  }

  /** A send on handle `h`'s request channel. */
  function Send<H(==)>(h: H, dead: set<H>): SendOutcome
  {
    if h in dead then Closed else Accepted
  }

  ghost predicate AllDead<H>(pool: seq<H>, dead: set<H>)
  {
    forall i :: 0 <= i < |pool| ==> pool[i] in dead
  }

  ghost predicate AllLive<H>(pool: seq<H>, dead: set<H>)
  {
    forall i :: 0 <= i < |pool| ==> pool[i] !in dead
  }

  /** The weak cursor invariant the code keeps: the cursor may point one past
      the end (after the last handle was evicted), never further. */
  ghost predicate CursorInRange<H>(s: Balancer<H>)
  {
    s.cursor <= |s.pool|
  }

  /** The cursor advance of `getNextTimer` over a pool of `n` handles: wrap to
      0 once the cursor is at or past the last index, else step by one. */
  function Advance(cursor: nat, n: nat): (r: nat)
    requires n > 0
    ensures r < n
    ensures cursor < n ==> r == (cursor + 1) % n
    ensures cursor >= n ==> r == 0
  {
    if cursor >= n - 1 then 0 else cursor + 1
  }

  /** Removal of the element at index `i`, Go's
      `append(s[:i], s[i+1:]...)`. */
  function RemoveAt<H>(s: seq<H>, i: nat): (r: seq<H>)
    requires i < |s|
    ensures |r| == |s| - 1
    ensures forall j :: 0 <= j < i ==> r[j] == s[j]
    ensures forall j :: i <= j < |r| ==> r[j] == s[j + 1]
    ensures multiset(r) + multiset{s[i]} == multiset(s)
  {
    assert s == s[..i] + [s[i]] + s[i + 1..];
    s[..i] + s[i + 1..]
  }

  /** `b` is `a` with some dead handles removed, the rest kept in order. */
  ghost predicate EvictedFrom<H>(a: seq<H>, b: seq<H>, dead: set<H>)
    decreases |a|
  {
    if |a| == 0 then |b| == 0
    else
      (|b| > 0 && b[0] == a[0] && EvictedFrom(a[1..], b[1..], dead))
      || (a[0] in dead && EvictedFrom(a[1..], b, dead))
  }

  /** One selection attempt, `getNextTimer`. */
  function SelectNext<H(==)>(s: Balancer<H>, dead: set<H>): (a: Attempt<H>)
    ensures a.err.Some? <==> |s.pool| == 0
    ensures |s.pool| == 0 ==> a.after == s && a.respChan.None?
    ensures |s.pool| > 0 ==> a.after.cursor == Advance(s.cursor, |s.pool|)
    ensures a.respChan.Some? ==>
              a.after.pool == s.pool
              && a.after.cursor < |s.pool|
              && a.respChan.value.worker == s.pool[a.after.cursor]
              && a.respChan.value.worker !in dead
    ensures |s.pool| > 0 && a.respChan.None? ==>
              s.pool[a.after.cursor] in dead
              && a.after.pool == RemoveAt(s.pool, a.after.cursor)
    ensures |s.pool| > 0 && s.pool[Advance(s.cursor, |s.pool|)] !in dead ==> a.respChan.Some?
  {
    if |s.pool| == 0 then
      Attempt(s, None, Some(NoTimers))
    else
      var c := Advance(s.cursor, |s.pool|);
      match Send(s.pool[c], dead)
      case Accepted => Attempt(Balancer(c, s.pool), Some(Reply(s.pool[c])), None)
      case Closed => Attempt(Balancer(c, RemoveAt(s.pool, c)), None, None)
  }

  /** One `Request` call: retry `SelectNext` until a send is accepted or the
      pool is empty. */
  function Dispatch<H(==)>(s: Balancer<H>, dead: set<H>): (o: Outcome<H>)
    ensures |s.pool| == 0 ==> o == Outcome(s, None)
    ensures |o.after.pool| <= |s.pool|
    ensures o.respChan.Some? ==>
              o.after.cursor < |o.after.pool|
              && o.after.pool[o.after.cursor] == o.respChan.value.worker
              && o.respChan.value.worker !in dead
    decreases |s.pool|
  {
    if |s.pool| == 0 then
      Outcome(s, None)
    else
      var a := SelectNext(s, dead);
      if a.respChan.Some? then Outcome(a.after, a.respChan)
      else Dispatch(a.after, dead)
  }

  /** `RegisterInstance`: append the handle, leave the cursor alone. */
  function Register<H>(s: Balancer<H>, h: H): Balancer<H>
  {
    Balancer(s.cursor, s.pool + [h])
  }

  /** `k` successive `Request` calls. */
  function DispatchMany<H(==)>(s: Balancer<H>, dead: set<H>, k: nat): (r: Run<H>)
    ensures |r.replies| == k
    decreases k
  {
    if k == 0 then
      Run(s, [])
    else
      var o := Dispatch(s, dead);
      var rest := DispatchMany(o.after, dead, k - 1);
      Run(rest.after, [o.respChan] + rest.replies)
  }

  /** The workers that accepted each request, in order. */
  function Served<H>(replies: seq<Option<Reply<H>>>): seq<H>
  {
    if replies == [] then []
    else
      (match replies[0] case Some(r) => [r.worker] case None => [])
      + Served(replies[1..])
  }

  // ---------------------------------------------------------------------
  // Eviction keeps order and removes only dead handles

  lemma {:induction false} EvictedFromSelf<H>(a: seq<H>, dead: set<H>)
    ensures EvictedFrom(a, a, dead)
    decreases |a|
  {
    if |a| > 0 {
      EvictedFromSelf(a[1..], dead);
    }
  }

  /** Removing one dead handle by index is an eviction. */
  lemma {:induction false} EvictedFromRemoveAt<H>(a: seq<H>, i: nat, dead: set<H>)
    requires i < |a| && a[i] in dead
    ensures EvictedFrom(a, RemoveAt(a, i), dead)
    decreases i
  {
    var b := RemoveAt(a, i);
    if i == 0 {
      assert b == a[1..];
      EvictedFromSelf(a[1..], dead);
    } else {
      assert b[1..] == RemoveAt(a[1..], i - 1);
      EvictedFromRemoveAt(a[1..], i - 1, dead);
    }
  }

  lemma {:induction false} EvictedFromTrans<H>(a: seq<H>, b: seq<H>, c: seq<H>, dead: set<H>)
    requires EvictedFrom(a, b, dead) && EvictedFrom(b, c, dead)
    ensures EvictedFrom(a, c, dead)
    decreases |a|
  {
    if |a| == 0 {
    } else if |b| > 0 && b[0] == a[0] && EvictedFrom(a[1..], b[1..], dead) {
      if |c| > 0 && c[0] == b[0] && EvictedFrom(b[1..], c[1..], dead) {
        EvictedFromTrans(a[1..], b[1..], c[1..], dead);
      } else {
        EvictedFromTrans(a[1..], b[1..], c, dead);
      }
    } else {
      EvictedFromTrans(a[1..], b, c, dead);
    }
  }

  /** Every handle can be evicted exactly when every handle is dead. */
  lemma {:induction false} EvictedFromEmpty<H>(a: seq<H>, dead: set<H>)
    ensures EvictedFrom(a, [], dead) <==> AllDead(a, dead)
    decreases |a|
  {
    if |a| > 0 {
      EvictedFromEmpty(a[1..], dead);
      assert AllDead(a, dead) <==> a[0] in dead && AllDead(a[1..], dead) by {
        if a[0] in dead && AllDead(a[1..], dead) {
          forall i | 0 <= i < |a| ensures a[i] in dead {
            if i > 0 { assert a[i] == a[1..][i - 1]; }
          }
        }
      }
    }
  }

  /** An eviction keeps every live handle and adds none. */
  lemma {:induction false} EvictedFromKeepsLive<H>(a: seq<H>, b: seq<H>, dead: set<H>)
    requires EvictedFrom(a, b, dead)
    ensures forall x :: x in a && x !in dead ==> x in b
    ensures forall x :: x in b ==> x in a
    ensures |b| <= |a|
    decreases |a|
  {
    if |a| == 0 {
    } else if |b| > 0 && b[0] == a[0] && EvictedFrom(a[1..], b[1..], dead) {
      EvictedFromKeepsLive(a[1..], b[1..], dead);
      assert a == [a[0]] + a[1..];
      assert b == [b[0]] + b[1..];
    } else {
      EvictedFromKeepsLive(a[1..], b, dead);
      assert a == [a[0]] + a[1..];
    }
  }

  // ---------------------------------------------------------------------
  // Properties of one selection attempt

  /** The cursor invariant survives a selection attempt. */
  lemma SelectNextKeepsCursorInRange<H>(s: Balancer<H>, dead: set<H>)
    requires CursorInRange(s)
    ensures CursorInRange(SelectNext(s, dead).after)
  {
  }

  /** A failed send evicts a dead handle. */
  lemma SelectNextEvictsOnlyDead<H>(s: Balancer<H>, dead: set<H>)
    ensures EvictedFrom(s.pool, SelectNext(s, dead).after.pool, dead)
  {
    var a := SelectNext(s, dead);
    if |s.pool| > 0 && a.respChan.None? {
      EvictedFromRemoveAt(s.pool, a.after.cursor, dead);
    } else {
      EvictedFromSelf(s.pool, dead);
    }
  }

  // ---------------------------------------------------------------------
  // Properties of one Request call

  /** `Request` evicts only dead handles: the survivors are the old pool
      with some dead handles removed, in order, and every live handle
      survives. */
  lemma {:induction false} DispatchEvictsOnlyDead<H>(s: Balancer<H>, dead: set<H>)
    ensures EvictedFrom(s.pool, Dispatch(s, dead).after.pool, dead)
    ensures forall x :: x in s.pool && x !in dead ==> x in Dispatch(s, dead).after.pool
    decreases |s.pool|
  {
    var o := Dispatch(s, dead);
    if |s.pool| == 0 {
      EvictedFromSelf(s.pool, dead);
    } else {
      var a := SelectNext(s, dead);
      SelectNextEvictsOnlyDead(s, dead);
      if a.respChan.None? {
        DispatchEvictsOnlyDead(a.after, dead);
        EvictedFromTrans(s.pool, a.after.pool, o.after.pool, dead);
      }
    }
    EvictedFromKeepsLive(s.pool, o.after.pool, dead);
  }

  /** When `Request` returns nil, it has evicted the whole pool. */
  lemma {:induction false} DispatchNilEmptiesPool<H>(s: Balancer<H>, dead: set<H>)
    ensures Dispatch(s, dead).respChan.None? ==> Dispatch(s, dead).after.pool == []
    decreases |s.pool|
  {
    if |s.pool| > 0 {
      var a := SelectNext(s, dead);
      if a.respChan.None? {
        DispatchNilEmptiesPool(a.after, dead);
      }
    }
  }

  /** When every handle is dead, `Request` returns nil. */
  lemma {:induction false} DispatchAllDeadIsNil<H>(s: Balancer<H>, dead: set<H>)
    requires AllDead(s.pool, dead)
    ensures Dispatch(s, dead).respChan.None?
    decreases |s.pool|
  {
    if |s.pool| > 0 {
      var a := SelectNext(s, dead);
      var c := a.after.cursor;
      assert s.pool[c] in dead;
      forall i | 0 <= i < |a.after.pool| ensures a.after.pool[i] in dead {
        if i < c { assert a.after.pool[i] == s.pool[i]; }
        else { assert a.after.pool[i] == s.pool[i + 1]; }
      }
      DispatchAllDeadIsNil(a.after, dead);
    }
  }

  /** `Request` returns nil exactly when every handle of the pool was dead,
      and the pool is then empty. */
  lemma DispatchNilIffAllDead<H>(s: Balancer<H>, dead: set<H>)
    ensures Dispatch(s, dead).respChan.None? <==> AllDead(s.pool, dead)
    ensures Dispatch(s, dead).respChan.None? ==> Dispatch(s, dead).after.pool == []
  {
    var o := Dispatch(s, dead);
    DispatchNilEmptiesPool(s, dead);
    if o.respChan.None? {
      DispatchEvictsOnlyDead(s, dead);
      EvictedFromEmpty(s.pool, dead);
    }
    if AllDead(s.pool, dead) {
      DispatchAllDeadIsNil(s, dead);
    }
  }

  /** The cursor invariant survives a `Request` call. */
  lemma {:induction false} DispatchKeepsCursorInRange<H>(s: Balancer<H>, dead: set<H>)
    requires CursorInRange(s)
    ensures CursorInRange(Dispatch(s, dead).after)
    decreases |s.pool|
  {
    if |s.pool| > 0 {
      var a := SelectNext(s, dead);
      SelectNextKeepsCursorInRange(s, dead);
      if a.respChan.None? {
        DispatchKeepsCursorInRange(a.after, dead);
      }
    }
  }

  /** After evicting the handle at the advanced cursor, the retry advances
      again from the same numeric index: the handle that slid into the
      evicted slot is skipped and the one after it is tried. */
  lemma RetrySkipsSuccessor<H>(s: Balancer<H>, dead: set<H>)
    requires |s.pool| >= 3
    requires Advance(s.cursor, |s.pool|) + 2 < |s.pool|
    requires s.pool[Advance(s.cursor, |s.pool|)] in dead
    requires s.pool[Advance(s.cursor, |s.pool|) + 2] !in dead
    ensures Dispatch(s, dead).respChan
              == Some(Reply(s.pool[Advance(s.cursor, |s.pool|) + 2]))
    ensures var c := Advance(s.cursor, |s.pool|);
            Dispatch(s, dead).after == Balancer(c + 1, RemoveAt(s.pool, c))
  {
  }

  // ---------------------------------------------------------------------
  // Registration

  /** Registering keeps the cursor invariant. */
  lemma RegisterKeepsCursorInRange<H>(s: Balancer<H>, h: H)
    requires CursorInRange(s)
    ensures CursorInRange(Register(s, h))
  {
  }

  /** Once a live handle is registered, the next `Request` is served, and
      by a live handle. */
  lemma RegisterLiveServes<H>(s: Balancer<H>, h: H, dead: set<H>)
    requires h !in dead
    ensures Dispatch(Register(s, h), dead).respChan.Some?
    ensures Dispatch(Register(s, h), dead).respChan.value.worker !in dead
  {
    var t := Register(s, h);
    assert t.pool[|s.pool|] == h;
    DispatchNilIffAllDead(t, dead);
  }

  // ---------------------------------------------------------------------
  // Rotation when nothing fails

  lemma MulAtLeast(m: int, d: int)
    requires m >= 1 && d > 0
    ensures m * d >= d
  {
  }

  /** Euclidean remainder is determined by any quotient/remainder split. */
  lemma ModUnique(x: int, d: int, q: int, r: int)
    requires d > 0 && 0 <= r < d && x == q * d + r
    ensures x % d == r
  {
    var q', r' := x / d, x % d;
    assert x == q' * d + r';
    var m := q - q';
    assert m * d == r' - r by { assert q * d - q' * d == (q - q') * d; }
    if m >= 1 {
      MulAtLeast(m, d);
    } else if m <= -1 {
      MulAtLeast(-m, d);
    }
  }

  lemma AdvanceRotates(c: nat, i: nat, n: nat)
    requires 0 < n && c < n
    ensures (Advance(c, n) + i) % n == (c + 1 + i) % n
  {
    if c + 1 == n {
      var q, r := i / n, i % n;
      assert i == q * n + r;
      assert n + i == (q + 1) * n + r;
      ModUnique(n + i, n, q + 1, r);
    }
  }

  /** With every handle live, successive requests pick the positions after
      the advanced cursor in turn, modulo the pool size, and the pool does
      not change. */
  lemma {:induction false} Rotation<H>(s: Balancer<H>, dead: set<H>, k: nat)
    requires |s.pool| > 0 && AllLive(s.pool, dead)
    ensures DispatchMany(s, dead, k).after.pool == s.pool
    ensures k > 0 ==> DispatchMany(s, dead, k).after.cursor
                        == (Advance(s.cursor, |s.pool|) + k - 1) % |s.pool|
    ensures forall i :: 0 <= i < k ==>
              DispatchMany(s, dead, k).replies[i]
                == Some(Reply(s.pool[(Advance(s.cursor, |s.pool|) + i) % |s.pool|]))
    decreases k
  {
    if k > 0 {
      var n := |s.pool|;
      var c := Advance(s.cursor, n);
      var o := Dispatch(s, dead);
      assert o == Outcome(Balancer(c, s.pool), Some(Reply(s.pool[c])));
      Rotation(o.after, dead, k - 1);
      var r := DispatchMany(s, dead, k);
      var rest := DispatchMany(o.after, dead, k - 1);
      assert r.replies == [o.respChan] + rest.replies;
      forall i | 0 <= i < k
        ensures r.replies[i] == Some(Reply(s.pool[(c + i) % n]))
      {
        if i == 0 {
          ModUnique(c, n, 0, c);
        } else {
          assert r.replies[i] == rest.replies[i - 1];
          AdvanceRotates(c, i - 1, n);
        }
      }
      if k > 1 {
        AdvanceRotates(c, k - 2, n);
      } else {
        ModUnique(c, n, 0, c);
      }
    }
  }

  lemma {:induction false} ServedAll<H>(replies: seq<Option<Reply<H>>>, t: seq<H>)
    requires |replies| == |t|
    requires forall i :: 0 <= i < |t| ==> replies[i] == Some(Reply(t[i]))
    ensures Served(replies) == t
    decreases |t|
  {
    if |t| > 0 {
      ServedAll(replies[1..], t[1..]);
    }
  }

  /** Position `i` of the pool rotated to start at `c`. */
  lemma RotatedAt<H>(pool: seq<H>, c: nat, i: nat)
    requires c < |pool| && i < |pool|
    ensures (pool[c..] + pool[..c])[i] == pool[(c + i) % |pool|]
  {
    var n := |pool|;
    if c + i < n {
      ModUnique(c + i, n, 0, c + i);
    } else {
      ModUnique(c + i, n, 1, c + i - n);
    }
  }

  /** Rotation fairness: with every handle live, `n` successive requests on
      a pool of `n` handles are served by the pool rotated to start at the
      advanced cursor, so every handle is picked exactly once. */
  lemma RotationFair<H>(s: Balancer<H>, dead: set<H>)
    requires |s.pool| > 0 && AllLive(s.pool, dead)
    ensures var c := Advance(s.cursor, |s.pool|);
            Served(DispatchMany(s, dead, |s.pool|).replies) == s.pool[c..] + s.pool[..c]
  {
    var n := |s.pool|;
    var c := Advance(s.cursor, n);
    var t := s.pool[c..] + s.pool[..c];
    var replies := DispatchMany(s, dead, n).replies;
    Rotation(s, dead, n);
    forall i | 0 <= i < n ensures replies[i] == Some(Reply(t[i])) {
      RotatedAt(s.pool, c, i);
    }
    ServedAll(replies, t);
  }

  /** Each handle is picked exactly as often as it occurs in the pool. */
  lemma RotationFairCounts<H>(s: Balancer<H>, dead: set<H>)
    requires |s.pool| > 0 && AllLive(s.pool, dead)
    ensures multiset(Served(DispatchMany(s, dead, |s.pool|).replies)) == multiset(s.pool)
  {
    var c := Advance(s.cursor, |s.pool|);
    RotationFair(s, dead);
    calc {
      multiset(s.pool[c..] + s.pool[..c]);
      multiset(s.pool[c..]) + multiset(s.pool[..c]);
      { assert s.pool == s.pool[..c] + s.pool[c..]; }
      multiset(s.pool);
    }
  }

  /** On a fresh balancer the cursor starts at 0 and is advanced before use,
      so with two or more live handles the first request goes to the second
      registered handle. */
  lemma FirstPickFromFresh<H>(pool: seq<H>, dead: set<H>)
    requires |pool| >= 2 && AllLive(pool, dead)
    ensures Dispatch(Balancer(0, pool), dead).respChan == Some(Reply(pool[1]))
  {
  }

  /** Three live handles registered on a fresh balancer: four requests are
      served by the second, third, first and second. */
  lemma ThreeHandlesScenario<H>(x: H, y: H, z: H)
    ensures var s := Register(Register(Register(Fresh(), x), y), z);
            DispatchMany(s, {}, 4).replies
              == [Some(Reply(y)), Some(Reply(z)), Some(Reply(x)), Some(Reply(y))]
  {
  }

  /** A stale cursor: evicting the last handle leaves the cursor equal to
      the pool size; the next attempt wraps to index 0. */
  lemma StaleCursorAfterEviction<H>(x: H, y: H, dead: set<H>)
    requires y in dead
    ensures SelectNext(Balancer(0, [x, y]), dead).after == Balancer(1, [x])
    ensures SelectNext(Balancer(1, [x]), dead).after.cursor == 0
  {
  }

  /** Handles `x`, `y` registered on a fresh balancer, `x` dead: the first
      request is served by `y` without touching `x` (index 1 first); the
      second tries `x`, evicts it and is served by `y` on the retry; from
      then on only `y` is left. */
  lemma DeadFirstHandleScenario<H>(x: H, y: H)
    requires x != y
    ensures var s := Register(Register(Fresh(), x), y);
            var r := DispatchMany(s, {x}, 2);
            r.replies == [Some(Reply(y)), Some(Reply(y))] && r.after.pool == [y]
  {
    var dead := {x};
    var s := Register(Register(Fresh(), x), y);
    assert s == Balancer(0, [x, y]);
    assert Advance(0, 2) == 1;
    var o1 := Dispatch(s, dead);
    assert o1 == Outcome(Balancer(1, [x, y]), Some(Reply(y)));
    assert Advance(1, 2) == 0;
    assert RemoveAt([x, y], 0) == [y];
    var a := SelectNext(o1.after, dead);
    assert a == Attempt(Balancer(0, [y]), None, None);
    assert Advance(0, 1) == 0;
    var a2 := SelectNext(a.after, dead);
    assert a2 == Attempt(Balancer(0, [y]), Some(Reply(y)), None);
    assert Dispatch(a.after, dead) == Outcome(a2.after, a2.respChan);
    var o2 := Dispatch(o1.after, dead);
    assert o2 == Outcome(Balancer(0, [y]), Some(Reply(y)));
    var r1 := DispatchMany(o1.after, dead, 1);
    assert r1 == Run(Balancer(0, [y]), [Some(Reply(y))]) by {
      assert DispatchMany(o2.after, dead, 0) == Run(o2.after, []);
    }
  }

  /** A single dead handle: the request evicts it and returns nil. */
  lemma SingleDeadHandleScenario<H>(x: H)
    ensures Dispatch(Register(Fresh(), x), {x}) == Outcome(Balancer(0, []), None)
  {
  }
}
