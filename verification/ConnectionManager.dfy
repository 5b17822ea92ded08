/** The connection manager both stores run: it trims idle connections down to the configured minimum. */
module ConnectionManager {

  const MAGIC := 2

  /** How many connections a trimming cycle closes: two fifths of the excess, or all of a small one. */
  function ToClose(excess: nat): nat {
    var share := (excess as real * 0.4).Floor;
    if share < 1 then excess else share
  }

  /** Excess left after a trimming cycle. */
  function Trimmed(excess: nat): (left: nat)
    ensures excess > 0 ==> left < excess
  {
    TwoFifths(excess);
    excess - ToClose(excess)
  }

  lemma TwoFifths(excess: nat)
    ensures (excess as real * 0.4).Floor == 2 * excess / 5
    ensures ToClose(excess) == if excess <= 2 then excess else 2 * excess / 5
    ensures ToClose(excess) <= excess && (excess > 0 ==> ToClose(excess) > 0)
  {
    var q, r := 2 * excess / 5, 2 * excess % 5;
    assert excess as real * 0.4 == (2 * excess) as real / 5.0;
    assert (2 * excess) as real / 5.0 == q as real + r as real / 5.0;
  }

  /** More than a fifth of the connections is in use. */
  predicate Busy(idle: nat, current: int) {
    (current - idle) as real > 0.2 * current as real
  }

  /** Enough idle connections for a long enough time: this cycle trims. */
  predicate Trims(idle: nat, current: int, min: nat, counter: nat) {
    current > min && !Busy(idle, current) && counter + 1 >= MAGIC
  }

  /** How many connections a cycle closes. */
  function Closing(idle: nat, current: int, min: nat, counter: nat): (n: nat)
    ensures n <= idle && (n > 0 ==> n <= current - min)
    ensures n > 0 <==> Trims(idle, current, min, counter)
  {
    if Trims(idle, current, min, counter) then
      EnoughIdle(current, min, idle);
      TwoFifths(current - min);
      ToClose(current - min)
    else 0
  }

  /** Consecutive quiet cycles after a cycle. */
  function Counted(idle: nat, current: int, min: nat, counter: nat): nat {
    if current < min then counter
    else if current == min || Busy(idle, current) || Trims(idle, current, min, counter) then 0
    else counter + 1
  }

  /** The same in whole numbers: when a cycle closes connections and how many, and which quiet cycles are counted. */
  lemma ClosingExact(idle: nat, current: int, min: nat, counter: nat)
    ensures Closing(idle, current, min, counter)
         == if current > min && 5 * (current - idle) <= current && counter >= 1
            then if current - min <= 2 then current - min else 2 * (current - min) / 5
            else 0
    ensures Counted(idle, current, min, counter)
         == if current < min then counter
            else if current > min && 5 * (current - idle) <= current && counter == 0 then 1
            else 0
  {
    BusyExact(idle, current);
    if current > min {
      TwoFifths(current - min);
    }
  }

  lemma BusyExact(idle: nat, current: int)
    ensures Busy(idle, current) <==> 5 * (current - idle) > current
  {
    assert 5.0 * (current - idle) as real == (5 * (current - idle)) as real;
  }

  class Manager<Conn> {
    var connections: seq<Conn>
    var currentConnections: int
    const minConn: nat
    /** Consecutive quiet cycles. */
    var counter: nat

    constructor (connections: seq<Conn>, currentConnections: int, minConn: nat)
      ensures this.connections == connections && this.currentConnections == currentConnections
      ensures this.minConn == minConn && counter == 0
    {
      this.connections, this.currentConnections, this.minConn, counter := connections, currentConnections, minConn, 0;
    }

    /** The last idle connections leave the pool and are counted off. */
    method CloseIdle(n: nat) returns (closed: seq<Conn>)
      requires n <= |connections|
      modifies this`connections, this`currentConnections
      ensures |closed| == n && currentConnections == old(currentConnections) - n
      ensures connections == old(connections)[..|old(connections)| - n]
      ensures multiset(connections) + multiset(closed) == multiset(old(connections))
    {
      closed := [];
      for i := 0 to n
        invariant |closed| == i && currentConnections == old(currentConnections) - i
        invariant connections == old(connections)[..|old(connections)| - i]
        invariant multiset(connections) + multiset(closed) == multiset(old(connections))
      {
        var last := |connections| - 1;
        assert connections == connections[..last] + [connections[last]];
        closed := closed + [connections[last]];
        connections := connections[..last];
        currentConnections := currentConnections - 1;
      }
    }

    /**
     * One cycle. It never takes from an empty pool and never goes below the minimum, whatever drift the
     * count has accumulated: only the count and the idle connections are consulted, and as many leave the
     * pool as are counted off.
     */
    method Cycle() returns (closed: seq<Conn>)
      modifies this
      ensures |closed| == Closing(|old(connections)|, old(currentConnections), minConn, old(counter))
      ensures counter == Counted(|old(connections)|, old(currentConnections), minConn, old(counter))
      ensures closed != [] <==> old(currentConnections) > minConn && old(counter) >= 1
                                && 5 * (old(currentConnections) - |old(connections)|) <= old(currentConnections)
      ensures closed != [] ==>
                |closed| == if old(currentConnections) - minConn <= 2 then old(currentConnections) - minConn
                            else 2 * (old(currentConnections) - minConn) / 5
      ensures closed == [] ==> connections == old(connections) && currentConnections == old(currentConnections)
      ensures connections == old(connections)[..|old(connections)| - |closed|]
      ensures currentConnections == old(currentConnections) - |closed|
      ensures closed != [] ==> currentConnections - minConn == Trimmed(old(currentConnections) - minConn)
      ensures multiset(connections) + multiset(closed) == multiset(old(connections))
    {
      closed := [];
      var curr := currentConnections;
      ClosingExact(|connections|, curr, minConn, counter);
      if curr < minConn {
        // The handlers open connections when they need them.
      } else if curr == minConn || Busy(|connections|, curr) {
        counter := 0;
      } else {
        counter := counter + 1;
        if counter >= MAGIC {
          TwoFifths(curr - minConn);
          var toClose := ((curr - minConn) as real * 0.4).Floor;
          if toClose < 1 {
            toClose := curr - minConn;
          }
          EnoughIdle(curr, minConn, |connections|);
          closed := CloseIdle(toClose);
        }
      }
      if |closed| > 0 {
        counter := 0;
      }
    }
  }

  /** With at most a fifth in use, the idle connections suffice for what is closed. */
  lemma EnoughIdle(curr: int, min: nat, idle: nat)
    requires curr > min && (curr - idle) as real <= 0.2 * curr as real
    ensures ToClose(curr - min) <= idle
  {
    TwoFifths(curr - min);
    assert 5 * (curr - idle) <= curr;
  }

  // ---- Speed ----

  lemma TrimmedQuickly(excess: nat)
    ensures excess <= 2 ==> Trimmed(excess) == 0
    ensures excess > 2 ==> 0 < 4 * Trimmed(excess) <= 3 * excess
  {
    TwoFifths(excess);
  }

  /** Trimming cycles until the minimum is reached. */
  function Rounds(excess: nat): nat
    decreases excess
  {
    if excess == 0 then 0 else 1 + Rounds(Trimmed(excess))
  }

  function Pow(b: nat, e: nat): nat {
    if e == 0 then 1 else b * Pow(b, e - 1)
  }

  /** Logarithmically many rounds: all but one of them leave at most three quarters of the excess. */
  lemma {:induction false} RoundsLogarithmic(excess: nat)
    requires excess > 0
    ensures Rounds(excess) > 0
    ensures Pow(4, Rounds(excess) - 1) <= excess * Pow(3, Rounds(excess) - 1)
    decreases excess
  {
    TrimmedQuickly(excess);
    if excess > 2 {
      var left := Trimmed(excess);
      RoundsLogarithmic(left);
      var r := Rounds(left) - 1;
      RoundStep(left, excess, Pow(4, r), Pow(3, r));
      assert Pow(4, r + 1) == 4 * Pow(4, r) && Pow(3, r + 1) == 3 * Pow(3, r);
    } else {
      assert Rounds(0) == 0;
    }
  }

  lemma RoundStep(left: nat, excess: nat, p: nat, q: nat)
    requires 4 * left <= 3 * excess && p <= left * q
    ensures 4 * p <= excess * (3 * q)
  {
    var gap := 3 * excess - 4 * left;
    assert gap * q >= 0;
    assert excess * (3 * q) == 4 * (left * q) + gap * q;
  }

  /** An idle pool reaches its minimum in exactly `Rounds` trimmings, two cycles each. */
  method RunIdle<Conn>(m: Manager<Conn>) returns (cycles: nat)
    requires m.counter == 0 && m.currentConnections == |m.connections| >= m.minConn
    modifies m
    ensures m.currentConnections == |m.connections| == m.minConn
    ensures cycles == 2 * Rounds(old(|m.connections|) - m.minConn)
  {
    cycles := 0;
    while m.currentConnections != m.minConn
      invariant m.counter == 0 && m.currentConnections == |m.connections| >= m.minConn
      invariant cycles + 2 * Rounds(|m.connections| - m.minConn) == 2 * Rounds(old(|m.connections|) - m.minConn)
      decreases m.currentConnections
    {
      var none := m.Cycle();
      var some := m.Cycle();
      cycles := cycles + 2;
    }
  }

  // ---- A pool whose use does not change ----

  /** The pool and the count of quiet cycles. */
  datatype Held = Held(idle: nat, current: int, counter: nat)

  /** After `n` cycles during which as many connections stay in use. */
  function After(n: nat, h: Held, min: nat): Held {
    if n == 0 then h
    else
      var closed := Closing(h.idle, h.current, min, h.counter);
      After(n - 1, Held(h.idle - closed, h.current - closed, Counted(h.idle, h.current, min, h.counter)), min)
  }

  method HoldFor<Conn>(m: Manager<Conn>, n: nat)
    modifies m
    ensures Held(|m.connections|, m.currentConnections, m.counter)
         == After(n, old(Held(|m.connections|, m.currentConnections, m.counter)), m.minConn)
    ensures m.currentConnections - |m.connections| == old(m.currentConnections) - |old(m.connections)|
  {
    for i := 0 to n
      invariant After(n - i, Held(|m.connections|, m.currentConnections, m.counter), m.minConn)
             == After(n, old(Held(|m.connections|, m.currentConnections, m.counter)), m.minConn)
      invariant m.currentConnections - |m.connections| == old(m.currentConnections) - |old(m.connections)|
    {
      var closed := m.Cycle();
    }
  }

  /** The excess before the trimming that leaves none: one or two. */
  function Last(excess: nat): (last: nat)
    requires excess > 0
    ensures 1 <= last <= 2 && last <= excess
    decreases excess
  {
    TrimmedQuickly(excess);
    if excess <= 2 then excess else Last(Trimmed(excess))
  }

  /** The first cycle is quiet, and so is the one after it, which trims. */
  predicate AboutToTrim(h: Held, min: nat) {
    h.counter == 0 && h.current > min && 5 * (h.current - h.idle) <= h.current
  }

  /** After that. */
  function TrimmedOnce(h: Held, min: nat): Held
    requires AboutToTrim(h, min)
  {
    TwoFifths(h.current - min);
    Held(h.idle - ToClose(h.current - min), h.current - ToClose(h.current - min), 0)
  }

  lemma LastStays(excess: nat)
    requires excess > 2
    ensures 0 < Trimmed(excess) < excess && Last(Trimmed(excess)) == Last(excess)
  {
    TrimmedQuickly(excess);
  }

  lemma TrimmedOnceLeaves(h: Held, min: nat)
    requires AboutToTrim(h, min)
    ensures var t := TrimmedOnce(h, min);
            && t.current - t.idle == h.current - h.idle && min <= t.current < h.current && t.counter == 0
            && (t.current == min <==> Last(h.current - min) == h.current - min)
            && (t.current > min ==> Last(t.current - min) == Last(h.current - min))
  {
    TwoFifths(h.current - min);
    if h.current - min > 2 {
      LastStays(h.current - min);
    }
  }

  lemma TwoCycles(n: nat, h: Held, min: nat)
    requires AboutToTrim(h, min)
    ensures After(1, h, min).current == h.current && After(n + 2, h, min) == After(n, TrimmedOnce(h, min), min)
  {
    ClosingExact(h.idle, h.current, min, 0);
    ClosingExact(h.idle, h.current, min, 1);
    TwoFifths(h.current - min);
    assert After(n + 2, h, min) == After(n + 1, h.(counter := 1), min);
  }

  lemma {:induction false} GetsThere(h: Held, min: nat)
    requires h.counter == 0 && h.current > min && 5 * (h.current - h.idle) <= min + Last(h.current - min)
    ensures exists n: nat :: After(n, h, min).current == min
    decreases h.current
  {
    var t := TrimmedOnce(h, min);
    TrimmedOnceLeaves(h, min);
    if t.current == min {
      TwoCycles(0, h, min);
    } else {
      GetsThere(t, min);
      var n: nat :| After(n, t, min).current == min;
      TwoCycles(n, h, min);
    }
  }

  /** More is in use than the minimum allows, before the next cycle or some later one. */
  predicate TooBusy(h: Held, min: nat) {
    h.counter == 0 && h.current > min && 5 * (h.current - h.idle) > min + Last(h.current - min)
  }

  lemma BusyStays(n: nat, h: Held, min: nat)
    requires h.counter == 0 && h.current > min && 5 * (h.current - h.idle) > h.current
    ensures After(n + 1, h, min) == After(n, h, min)
  {
    ClosingExact(h.idle, h.current, min, 0);
  }

  lemma {:induction false} NeverThere(n: nat, h: Held, min: nat)
    requires TooBusy(h, min)
    ensures After(n, h, min).current > min
    decreases n
  {
    if n == 0 {
    } else if 5 * (h.current - h.idle) > h.current {
      BusyStays(n - 1, h, min);
      NeverThere(n - 1, h, min);
    } else if n == 1 {
      TwoCycles(0, h, min);
    } else {
      TrimmedOnceLeaves(h, min);
      TwoCycles(n - 2, h, min);
      NeverThere(n - 2, TrimmedOnce(h, min), min);
    }
  }

  /**
   * While the number of connections in use stays the same, a pool reaches its minimum if and only if it is
   * there, or five times that number is no more than the count before the last trimming: one or two above
   * the minimum.
   */
  lemma ReachesMinimumIff(idle: nat, current: int, min: nat)
    requires current >= min
    ensures (exists n: nat :: After(n, Held(idle, current, 0), min).current == min)
            <==> current == min || 5 * (current - idle) <= min + Last(current - min)
  {
    var h := Held(idle, current, 0);
    if current == min {
      assert After(0, h, min).current == min;
    } else if 5 * (current - idle) <= min + Last(current - min) {
      GetsThere(h, min);
    } else {
      forall n: nat ensures After(n, h, min).current > min {
        NeverThere(n, h, min);
      }
    }
  }
}
