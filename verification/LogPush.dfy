/** The shared buffer of internal/agent/log_push.go and every interleaving of appends and
    flushes over it. A log entry is any value that can be compared. */
module LogPush {
  import opened Basics

  /** The buffer, the batches in flight in the order in which they were taken, what the server
      has acknowledged, and everything ever appended. */
  datatype Pusher<T> = Pusher(buffer: seq<T>, flying: seq<seq<T>>, acked: seq<T>, appended: seq<T>)

  datatype Event<T> = Append(entry: T) | Start | Ack(i: nat) | Fail(i: nat)

  function Fresh<T>(): Pusher<T> {
    Pusher([], [], [], [])
  }

  predicate Enabled<T>(p: Pusher<T>, e: Event<T>) {
    (e.Ack? || e.Fail?) ==> e.i < |p.flying|
  }

  function Without<T>(q: seq<T>, i: nat): seq<T>
    requires i < |q|
  {
    q[..i] + q[i+1..]
  }

  function Step<T>(p: Pusher<T>, e: Event<T>): Pusher<T>
    requires Enabled(p, e)
  {
    match e
    case Append(x) => p.(buffer := p.buffer + [x], appended := p.appended + [x])
    case Start => if p.buffer == [] then p else p.(buffer := [], flying := p.flying + [p.buffer])
    case Ack(i) => p.(flying := Without(p.flying, i), acked := p.acked + p.flying[i])
    case Fail(i) => p.(flying := Without(p.flying, i), buffer := p.flying[i] + p.buffer)
  }

  /** The code's share of a step: the buffer under its lock. */
  class LogPusher<T(==)> {
    var buffer: seq<T>
    const batchSize: int

    constructor (batchSize: int)
      ensures buffer == [] && this.batchSize == batchSize
    {
      this.buffer := [];
      this.batchSize := batchSize;
    }

    /** Appends, and tells the caller whether a batch is full. */
    method AppendEntry(entry: T) returns (needFlush: bool)
      modifies this
      ensures forall flying, acked, appended ::
                Pusher(buffer, flying, acked, appended + [entry])
                == Step(Pusher(old(buffer), flying, acked, appended), Append(entry))
      ensures needFlush <==> |buffer| >= batchSize
    {
      buffer := buffer + [entry];
      needFlush := |buffer| >= batchSize;
    }

    /** The beginning of a flush: takes the whole buffer, if there is anything in it. */
    method TakeBatch() returns (taken: bool, batch: seq<T>)
      modifies this
      ensures taken <==> batch != []
      ensures batch == old(buffer) && buffer == []
      ensures forall flying, acked, appended ::
                Pusher(buffer, if taken then flying + [batch] else flying, acked, appended)
                == Step(Pusher(old(buffer), flying, acked, appended), Start)
    {
      if |buffer| == 0 {
        return false, [];
      }
      batch := buffer;
      buffer := [];
      taken := true;
    }

    /** The end of a failed flush: the batch goes back to the front. */
    method Requeue(batch: seq<T>)
      modifies this
      ensures forall flying: seq<seq<T>>, i: nat, acked, appended | i < |flying| && flying[i] == batch ::
                Pusher(buffer, Without(flying, i), acked, appended)
                == Step(Pusher(old(buffer), flying, acked, appended), Fail(i))
    {
      buffer := batch + buffer;
    }
  }

  /** A flush takes everything that is buffered, as one batch, and nothing else moves; without
      anything buffered there is no flush. A failure gives back the whole batch. */
  lemma FlushTakesAll<T>(p: Pusher<T>, i: nat)
    ensures var q := Step(p, Start);
            && q.buffer == [] && q.acked == p.acked && q.appended == p.appended
            && (p.buffer == [] ==> q == p)
            && (p.buffer != [] ==> |q.flying| == |p.flying| + 1 && q.flying[..|p.flying|] == p.flying
                                   && q.flying[|p.flying|] == p.buffer)
    ensures i < |p.flying| ==>
              var q := Step(p, Fail(i));
              && |q.buffer| == |p.flying[i]| + |p.buffer| && p.flying[i] <= q.buffer
              && |q.flying| + 1 == |p.flying| && q.acked == p.acked && q.appended == p.appended
    ensures i < |p.flying| ==>
              var q := Step(p, Ack(i));
              && q.buffer == p.buffer && |q.flying| + 1 == |p.flying| && q.appended == p.appended
              && |q.acked| == |p.acked| + |p.flying[i]| && p.acked <= q.acked
  {
  }

  // ----------------------------------------------------------- conservation

  function Flat<T>(bs: seq<seq<T>>): seq<T> {
    if bs == [] then [] else bs[0] + Flat(bs[1..])
  }

  lemma {:induction false} FlatConcat<T>(a: seq<seq<T>>, b: seq<seq<T>>)
    ensures Flat(a + b) == Flat(a) + Flat(b)
  {
    if a == [] {
      assert a + b == b;
    } else {
      assert (a + b)[1..] == a[1..] + b && (a + b)[0] == a[0];
      FlatConcat(a[1..], b);
    }
  }

  lemma FlatAround<T>(bs: seq<seq<T>>, i: nat)
    requires i < |bs|
    ensures Flat(bs) == Flat(bs[..i]) + bs[i] + Flat(bs[i+1..])
    ensures Flat(Without(bs, i)) == Flat(bs[..i]) + Flat(bs[i+1..])
  {
    var a, b := bs[..i], bs[i+1..];
    FlatConcat(a, b);
    FlatConcat(a, [bs[i]]);
    FlatConcat(a + [bs[i]], b);
    FlatOne(bs[i]);
    assert bs == a + [bs[i]] + b;
  }

  lemma FlatOne<T>(b: seq<T>)
    ensures Flat([b]) == b
  {
    assert [b][1..] == [];
  }

  /** Nothing is lost or doubled: what was appended is what was acknowledged, is in flight, or
      is in the buffer. A batch in flight is never empty. */
  ghost predicate Conserved<T>(p: Pusher<T>) {
    && multiset(p.appended) == multiset(p.acked) + multiset(Flat(p.flying)) + multiset(p.buffer)
    && forall i | 0 <= i < |p.flying| :: p.flying[i] != []
  }

  lemma StartConserves<T>(p: Pusher<T>)
    requires Conserved(p)
    ensures Conserved(Step(p, Start))
  {
    FlatConcat(p.flying, [p.buffer]);
    FlatOne(p.buffer);
  }

  lemma AckConserves<T>(p: Pusher<T>, i: nat)
    requires Conserved(p) && i < |p.flying|
    ensures Conserved(Step(p, Ack(i)))
  {
    FlatAround(p.flying, i);
    CountPieces(Flat(p.flying[..i]), p.flying[i], Flat(p.flying[i+1..]));
    OthersNotEmpty(p.flying, i);
  }

  lemma CountPieces<T>(a: seq<T>, b: seq<T>, c: seq<T>)
    ensures multiset(a + b + c) == multiset(a) + multiset(b) + multiset(c)
    ensures multiset(a + c) == multiset(a) + multiset(c)
  {
  }

  lemma OthersNotEmpty<T>(bs: seq<seq<T>>, i: nat)
    requires i < |bs| && forall k | 0 <= k < |bs| :: bs[k] != []
    ensures forall k | 0 <= k < |Without(bs, i)| :: Without(bs, i)[k] != []
  {
  }

  lemma FailConserves<T>(p: Pusher<T>, i: nat)
    requires Conserved(p) && i < |p.flying|
    ensures Conserved(Step(p, Fail(i)))
  {
    FlatAround(p.flying, i);
    CountPieces(Flat(p.flying[..i]), p.flying[i], Flat(p.flying[i+1..]));
    OthersNotEmpty(p.flying, i);
    assert multiset(p.flying[i] + p.buffer) == multiset(p.flying[i]) + multiset(p.buffer);
  }

  lemma StepConserves<T>(p: Pusher<T>, e: Event<T>)
    requires Conserved(p) && Enabled(p, e)
    ensures Conserved(Step(p, e))
  {
    match e {
      case Append(x) =>
      case Start => StartConserves(p);
      case Ack(i) => AckConserves(p, i);
      case Fail(i) => FailConserves(p, i);
    }
  }

  ghost predicate Moves<T>(run: seq<Event<T>>, states: seq<Pusher<T>>, i: nat) {
    && i < |run| && i + 1 < |states|
    && Enabled(states[i], run[i]) && states[i+1] == Step(states[i], run[i])
  }

  ghost predicate IsRun<T>(run: seq<Event<T>>, states: seq<Pusher<T>>) {
    && |states| == |run| + 1 && states[0] == Fresh()
    && forall i: nat | i < |run| :: Moves(run, states, i)
  }

  /** In every interleaving, any number of flushes at once included. */
  lemma {:induction false} RunConserves<T>(run: seq<Event<T>>, states: seq<Pusher<T>>, n: nat)
    requires IsRun(run, states) && n <= |run|
    ensures Conserved(states[n])
  {
    if n > 0 {
      RunConserves(run, states, n - 1);
      assert Moves(run, states, n - 1);
      StepConserves(states[n-1], run[n-1]);
    }
  }

  // ------------------------------------------------------------------ order

  /** Acknowledged, in flight, buffered: one after the other the order of appending. */
  ghost predicate Ordered<T>(p: Pusher<T>) {
    p.acked + Flat(p.flying) + p.buffer == p.appended
  }

  lemma OrderedStart<T>(p: Pusher<T>)
    requires Ordered(p)
    ensures Ordered(Step(p, Start))
  {
    FlatConcat(p.flying, [p.buffer]);
    FlatOne(p.buffer);
    assert Flat(p.flying) + p.buffer + [] == Flat(p.flying) + p.buffer;
  }

  lemma OrderedAppend<T>(p: Pusher<T>, x: T)
    requires Ordered(p)
    ensures Ordered(Step(p, Append(x)))
  {
    assert p.acked + Flat(p.flying) + (p.buffer + [x]) == p.acked + Flat(p.flying) + p.buffer + [x];
  }

  lemma OrderedAck<T>(p: Pusher<T>)
    requires Ordered(p) && p.flying != []
    ensures Ordered(Step(p, Ack(0)))
  {
    assert Without(p.flying, 0) == p.flying[1..];
    assert p.acked + p.flying[0] + Flat(p.flying[1..]) == p.acked + (p.flying[0] + Flat(p.flying[1..]));
  }

  lemma OrderedFail<T>(p: Pusher<T>)
    requires Ordered(p) && p.flying != []
    ensures Ordered(Step(p, Fail(|p.flying| - 1)))
  {
    var n := |p.flying| - 1;
    assert Without(p.flying, n) == p.flying[..n];
    assert p.flying == p.flying[..n] + [p.flying[n]];
    FlatConcat(p.flying[..n], [p.flying[n]]);
    FlatOne(p.flying[n]);
    var a, b := Flat(p.flying[..n]), p.flying[n];
    assert p.acked + a + (b + p.buffer) == p.acked + (a + b) + p.buffer;
  }

  /** Acknowledging the oldest flight and failing the newest one keep the order. */
  lemma OrderedEnds<T>(p: Pusher<T>, e: Event<T>)
    requires Ordered(p) && Enabled(p, e)
    requires (e.Ack? ==> e.i == 0) && (e.Fail? ==> e.i == |p.flying| - 1)
    ensures Ordered(Step(p, e))
  {
    match e {
      case Append(x) => OrderedAppend(p, x);
      case Start => OrderedStart(p);
      case Ack(_) => OrderedAck(p);
      case Fail(_) => OrderedFail(p);
    }
  }

  /** With at most one flush in flight at any time, the order of appending is kept exactly. */
  lemma {:induction false} OneFlightKeepsOrder<T>(run: seq<Event<T>>, states: seq<Pusher<T>>, n: nat)
    requires IsRun(run, states) && n <= |run|
    requires forall i | 0 <= i < |states| :: |states[i].flying| <= 1
    ensures Ordered(states[n])
  {
    if n > 0 {
      OneFlightKeepsOrder(run, states, n - 1);
      assert Moves(run, states, n - 1);
      OrderedEnds(states[n-1], run[n-1]);
    }
  }

  /** Putting a failed batch back at the front is said to keep the order. When entries are
      distinct it does so exactly when no later batch is in flight. */
  lemma FailKeepsOrderIff<T>(p: Pusher<T>, i: nat)
    requires Ordered(p) && Conserved(p) && Distinct(p.appended) && i < |p.flying|
    ensures Ordered(Step(p, Fail(i))) <==> i == |p.flying| - 1
  {
    if i == |p.flying| - 1 {
      OrderedFail(p);
    } else {
      FailOutOfTurn(p, i);
    }
  }

  lemma FailOutOfTurn<T>(p: Pusher<T>, i: nat)
    requires Ordered(p) && Conserved(p) && Distinct(p.appended) && i + 1 < |p.flying|
    ensures !Ordered(Step(p, Fail(i)))
  {
    FlatAround(p.flying, i);
    FlatNotEmpty(p.flying[i+1..]);
    var earlier, batch, later := Flat(p.flying[..i]), p.flying[i], Flat(p.flying[i+1..]);
    Swapped(p.acked, earlier, batch, later, p.buffer);
    SwapShows(p.acked + earlier, batch, later, p.buffer);
  }

  lemma Swapped<T>(acked: seq<T>, earlier: seq<T>, batch: seq<T>, later: seq<T>, buffer: seq<T>)
    ensures acked + (earlier + batch + later) + buffer == (acked + earlier) + batch + later + buffer
    ensures acked + (earlier + later) + (batch + buffer) == (acked + earlier) + later + (batch + buffer)
  {
  }

  lemma FlatNotEmpty<T>(bs: seq<seq<T>>)
    requires bs != [] && bs[0] != []
    ensures Flat(bs) != []
  {
  }

  /** Two neighbouring pieces in the wrong order are visible when no element repeats. */
  lemma SwapShows<T>(before: seq<T>, x: seq<T>, y: seq<T>, rest: seq<T>)
    requires x != [] && y != [] && Distinct(before + x + y + rest)
    ensures before + y + (x + rest) != before + x + y + rest
  {
    var whole, moved := before + x + y + rest, before + y + (x + rest);
    var k := |before|;
    assert whole[k] == x[0] && moved[k] == y[0];
    assert whole[k + |x|] == y[0];
  }

  /** Likewise the server sees the order of appending only when the oldest flight is
      acknowledged first. */
  lemma AckKeepsOrderIff<T>(p: Pusher<T>, i: nat)
    requires Ordered(p) && Conserved(p) && Distinct(p.appended) && i < |p.flying|
    ensures Ordered(Step(p, Ack(i))) <==> i == 0
  {
    if i == 0 {
      OrderedAck(p);
    } else {
      AckOutOfTurn(p, i);
    }
  }

  lemma AckOutOfTurn<T>(p: Pusher<T>, i: nat)
    requires Ordered(p) && Conserved(p) && Distinct(p.appended) && 0 < i < |p.flying|
    ensures !Ordered(Step(p, Ack(i)))
  {
    FlatAround(p.flying, i);
    FlatNotEmpty(p.flying[..i]);
    var earlier, batch, rest := Flat(p.flying[..i]), p.flying[i], Flat(p.flying[i+1..]) + p.buffer;
    assert p.appended == p.acked + earlier + batch + rest;
    SwapShows(p.acked, earlier, batch, rest);
    assert p.acked + batch + Flat(Without(p.flying, i)) + p.buffer == p.acked + batch + (earlier + rest);
  }
}
