/**
  The shared counters of my_pthread.h under every interleaving of any number of threads.

  A read-modify-write such as `V += C` is two steps, a load and a store.  The guarded forms
  run them between taking and releasing the mutex; the unguarded ones do not.
 */
module Counters {
  import opened Wrappers

  type Tid = nat

  datatype Op = Increment | Decrement | Add(c: int) | Sub(c: int) {
    /** What it adds to a counter. */
    function Delta(): int {
      match this
      case Increment => 1
      case Decrement => -1
      case Add(c) => c
      case Sub(c) => -c
    }

    /** What the operation makes of the value it loaded. */
    function Apply(v: int): (r: int)
      ensures r == v + Delta()
    {
      match this
      case Increment => v + 1
      case Decrement => v - 1
      case Add(c) => v + c
      case Sub(c) => v - c
    }
  }

  function Sum(ops: seq<Op>): int {
    if ops == [] then 0 else Sum(ops[..|ops| - 1]) + ops[|ops| - 1].Delta()
  }

  /** What the operations put on a counter, and what they take off it. */
  function Credits(ops: seq<Op>): int {
    if ops == [] then 0
    else
      var op := ops[|ops| - 1];
      Credits(ops[..|ops| - 1]) + (if op == Increment then 1 else if op.Add? then op.c else 0)
  }

  function Debits(ops: seq<Op>): int {
    if ops == [] then 0
    else
      var op := ops[|ops| - 1];
      Debits(ops[..|ops| - 1]) + (if op == Decrement then 1 else if op.Sub? then op.c else 0)
  }

  lemma {:induction false} SumBalances(ops: seq<Op>)
    ensures Sum(ops) == Credits(ops) - Debits(ops)
  {
    if ops != [] { SumBalances(ops[..|ops| - 1]); }
  }

  // ---------- thread_safe_increment, _decrement, _add, _sub ----------

  datatype Pc = Idle | Locked(op: Op) | Loaded(op: Op, v: int) | Stored(op: Op)

  datatype World = World(value: int, lock: Option<Tid>, pcs: map<Tid, Pc>, completed: seq<Op>) {
    function At(t: Tid): Pc {
      if t in pcs then pcs[t] else Idle
    }
  }

  datatype Move = Acquire(t: Tid, op: Op) | Load(t: Tid) | Store(t: Tid) | Release(t: Tid)

  predicate Enabled(w: World, m: Move) {
    match m
    case Acquire(t, _) => w.lock == None && w.At(t).Idle?
    case Load(t) => w.At(t).Locked?
    case Store(t) => w.At(t).Loaded?
    case Release(t) => w.At(t).Stored? && w.lock == Some(t)
  }

  function Next(w: World, m: Move): World
    requires Enabled(w, m)
  {
    match m
    case Acquire(t, op) => w.(lock := Some(t), pcs := w.pcs[t := Locked(op)])
    case Load(t) => w.(pcs := w.pcs[t := Loaded(w.At(t).op, w.value)])
    case Store(t) => w.(value := w.At(t).op.Apply(w.At(t).v), pcs := w.pcs[t := Stored(w.At(t).op)])
    case Release(t) => w.(lock := None, pcs := w.pcs[t := Idle], completed := w.completed + [w.At(t).op])
  }

  /** The state after a sequence of moves, if each is enabled in its turn. */
  function Run(start: int, moves: seq<Move>): Option<World> {
    if moves == [] then Some(World(start, None, map[], []))
    else
      var before := Run(start, moves[..|moves| - 1]);
      var m := moves[|moves| - 1];
      if before.Some? && Enabled(before.value, m) then Some(Next(before.value, m)) else None
  }

  /** Only the lock's holder is inside, and the counter misses nothing but the holder's pending change. */
  ghost predicate Consistent(start: int, w: World) {
    && (forall t: Tid :: w.At(t).Idle? <==> w.lock != Some(t))
    && (match w.lock
        case None => w.value == start + Sum(w.completed)
        case Some(t) =>
          match w.At(t)
          case Stored(op) => w.value == start + Sum(w.completed) + op.Delta()
          case Loaded(_, v) => w.value == start + Sum(w.completed) == v
          case _ => w.value == start + Sum(w.completed))
  }

  lemma {:induction false} AlwaysConsistent(start: int, moves: seq<Move>)
    requires Run(start, moves).Some?
    ensures Consistent(start, Run(start, moves).value)
  {
    if moves != [] {
      AlwaysConsistent(start, moves[..|moves| - 1]);
      var before, m := Run(start, moves[..|moves| - 1]).value, moves[|moves| - 1];
      assert before.At(m.t).Idle? <==> before.lock != Some(m.t);
      var after := Next(before, m);
      if m.Store? { assert after.value == before.At(m.t).v + before.At(m.t).op.Delta(); }
      assert forall t: Tid :: t != m.t ==> after.At(t) == before.At(t);
      if m.Release? {
        assert after.completed[..|before.completed|] == before.completed;
      }
    }
  }

  /** Whenever no thread holds the lock, the counter is its start value plus every completed
      operation; and no two threads are ever inside at once. */
  lemma GuardedCounterIsExact(start: int, moves: seq<Move>)
    requires Run(start, moves).Some?
    ensures var w := Run(start, moves).value;
            && (w.lock == None ==> w.value == start + Sum(w.completed))
            && (w.lock == None ==> w.value == start + Credits(w.completed) - Debits(w.completed))
            && (forall t: Tid, u: Tid :: !w.At(t).Idle? && !w.At(u).Idle? ==> t == u)
  {
    AlwaysConsistent(start, moves);
    SumBalances(Run(start, moves).value.completed);
  }

  /** Who may move: with the lock free any thread may take it and nothing else can happen; while it
      is held its holder alone moves, in the order load, store, release.  So no run is stuck. */
  lemma WhoMayMove(start: int, moves: seq<Move>, m: Move)
    requires Run(start, moves).Some?
    ensures var w := Run(start, moves).value;
            Run(start, moves + [m]).Some? <==>
              if w.lock == None then m.Acquire?
              else m.t == w.lock.value && (match w.At(m.t)
                                           case Locked(_) => m.Load?
                                           case Loaded(_, _) => m.Store?
                                           case Stored(_) => m.Release?
                                           case Idle => false)
  {
    AlwaysConsistent(start, moves);
    var w := Run(start, moves).value;
    assert (moves + [m])[..|moves|] == moves;
    assert w.At(m.t).Idle? <==> w.lock != Some(m.t);
  }

  /** One thread's way through an operation. */
  function Pass(t: Tid, op: Op): seq<Move> {
    [Acquire(t, op), Load(t), Store(t), Release(t)]
  }

  /** Wherever the lock is free, any thread can get any operation done, and the lock is free again. */
  lemma OneMoreCompletes(start: int, moves: seq<Move>, t: Tid, op: Op)
    requires Run(start, moves).Some? && Run(start, moves).value.lock == None
    ensures var w := Run(start, moves).value;
            var after := Run(start, moves + Pass(t, op));
            after.Some? && after.value.lock == None && after.value.completed == w.completed + [op]
            && after.value.value == w.value + op.Delta()
  {
    AlwaysConsistent(start, moves);
    var w := Run(start, moves).value;
    assert w.At(t).Idle?;
    var s1, s2, s3 := moves + [Acquire(t, op)], moves + [Acquire(t, op), Load(t)],
                      moves + [Acquire(t, op), Load(t), Store(t)];
    var s4 := moves + Pass(t, op);
    assert s1[..|moves|] == moves && s2[..|s1|] == s1 && s3[..|s2|] == s2 && s4[..|s3|] == s3;
    assert Run(start, s1) == Some(Next(w, Acquire(t, op)));
    assert Run(start, s2) == Some(Next(Run(start, s1).value, Load(t)));
    assert Run(start, s3) == Some(Next(Run(start, s2).value, Store(t)));
    assert Run(start, s4) == Some(Next(Run(start, s3).value, Release(t)));
  }

  // ---------- statistic_increment without SAFE_STATISTICS ----------

  /** A thread between its load and its store remembers the value it read; `at` is a history
      variable, the number of stores made before that load. */
  datatype Pending = Pending(v: int, at: nat)

  /** `isolated` is a history variable: no store so far fell between another's load and store. */
  datatype Racy = Racy(value: int, pending: map<Tid, Pending>, stores: nat, isolated: bool)

  datatype RacyMove = RacyLoad(t: Tid) | RacyStore(t: Tid)

  function RacyRun(start: int, moves: seq<RacyMove>): Option<Racy> {
    if moves == [] then Some(Racy(start, map[], 0, true))
    else
      var before := RacyRun(start, moves[..|moves| - 1]);
      if before.None? then None else
      var r := before.value;
      match moves[|moves| - 1]
      case RacyLoad(t) =>
        if t in r.pending then None else Some(r.(pending := r.pending[t := Pending(r.value, r.stores)]))
      case RacyStore(t) =>
        if t !in r.pending then None
        else Some(Racy(r.pending[t].v + 1, r.pending - {t}, r.stores + 1, r.isolated && r.pending[t].at == r.stores))
  }

  ghost predicate RacyInvariant(start: int, r: Racy) {
    && (r.isolated <==> r.value == start + r.stores)
    && r.value <= start + r.stores
    && (r.stores > 0 ==> start < r.value)
    && (r.stores == 0 ==> r.value == start)
    && forall t :: t in r.pending ==>
         var p := r.pending[t];
         start <= p.v <= start + p.at && p.at <= r.stores && (p.at == r.stores ==> p.v == r.value)
  }

  lemma {:induction false} RacyAlways(start: int, moves: seq<RacyMove>)
    requires RacyRun(start, moves).Some?
    ensures RacyInvariant(start, RacyRun(start, moves).value)
  {
    if moves != [] {
      RacyAlways(start, moves[..|moves| - 1]);
    }
  }

  /** The unguarded increment never counts more than its stores nor, after one, less than one;
      it counts exactly if and only if no store fell between another thread's load and store. */
  lemma UnguardedCounterBounds(start: int, moves: seq<RacyMove>)
    requires RacyRun(start, moves).Some?
    ensures var r := RacyRun(start, moves).value;
            && r.value <= start + r.stores
            && (r.stores > 0 ==> start + 1 <= r.value)
            && (r.value == start + r.stores <==> r.isolated)
  {
    RacyAlways(start, moves);
  }

  /** All n threads load before any stores: the worst case. */
  function AllLoad(n: nat): seq<RacyMove> {
    if n == 0 then [] else AllLoad(n - 1) + [RacyLoad(n - 1)]
  }

  function ThenStore(n: nat, k: nat): seq<RacyMove>
    requires k <= n
  {
    if k == 0 then AllLoad(n) else ThenStore(n, k - 1) + [RacyStore(k - 1)]
  }

  lemma {:induction false} AllLoaded(start: int, n: nat)
    ensures var r := RacyRun(start, AllLoad(n));
            r.Some? && r.value.stores == 0 && r.value.value == start
            && (forall t :: t in r.value.pending <==> 0 <= t < n)
            && (forall t :: 0 <= t < n ==> r.value.pending[t].v == start)
  {
    if n > 0 {
      AllLoaded(start, n - 1);
      assert AllLoad(n)[..|AllLoad(n)| - 1] == AllLoad(n - 1);
    }
  }

  /** The lower bound is reached for every number of threads: n increments can count as one. */
  lemma {:induction false} UpdatesCanBeLost(start: int, n: nat, k: nat)
    requires k <= n
    ensures var r := RacyRun(start, ThenStore(n, k));
            r.Some? && r.value.stores == k && r.value.value == (if k == 0 then start else start + 1)
            && (forall t :: k <= t < n ==> t in r.value.pending && r.value.pending[t].v == start)
  {
    if k == 0 {
      AllLoaded(start, n);
    } else {
      UpdatesCanBeLost(start, n, k - 1);
      assert ThenStore(n, k)[..|ThenStore(n, k)| - 1] == ThenStore(n, k - 1);
    }
  }

  // ---------- Deadlines ----------

  const NANOS_PER_SECOND := 1_000_000_000
  const TICKS_PER_SECOND := 10_000_000

  class Timespec {
    var sec: int
    var nsec: int

    predicate Normalized()
      reads this
    {
      0 <= nsec < NANOS_PER_SECOND
    }

    function Nanos(): int
      reads this
    {
      sec * NANOS_PER_SECOND + nsec
    }

    /** set_timespec_nsec: `now` counts units of 100 nanoseconds. */
    method SetNsec(now: nat, delay: nat)
      modifies this
      ensures Normalized() && Nanos() == now * 100 + delay
      ensures 0 <= nsec < 1000000000 && sec * 1000000000 + nsec == now * 100 + delay
    {
      var ticks := now + delay / 100;
      sec := ticks / TICKS_PER_SECOND;
      nsec := ticks % TICKS_PER_SECOND * 100 + delay % 100;
    }

    /** cmp_timespec: for normalized times, the sign of the difference. */
    method Compare(other: Timespec) returns (c: int)
      requires Normalized() && other.Normalized()
      ensures c == if Nanos() > other.Nanos() then 1 else if Nanos() < other.Nanos() then -1 else 0
    {
      c := if sec > other.sec || (sec == other.sec && nsec > other.nsec) then 1
           else if sec < other.sec || (sec == other.sec && nsec < other.nsec) then -1
           else 0;
    }
  }
}
