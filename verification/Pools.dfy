/** What the two stores' connection pools have in common: the changes made under the pool's lock. */
module Pools {

  /** Idle connections, the count of connections, and its configured maximum. */
  datatype Pool<C> = Pool(idle: seq<C>, current: int, max: int)

  /** A new connection may be opened. */
  predicate MayGrow<C>(p: Pool<C>) {
    p.idle == [] && p.current < p.max
  }

  /** The connection given out next: the one returned last. */
  function LastIdle<C>(p: Pool<C>): C
    requires p.idle != []
  {
    p.idle[|p.idle| - 1]
  }

  function Popped<C>(p: Pool<C>): Pool<C>
    requires p.idle != []
  {
    p.(idle := p.idle[..|p.idle| - 1])
  }

  function Grown<C>(p: Pool<C>): Pool<C> {
    p.(current := p.current + 1)
  }

  function CountedOff<C>(p: Pool<C>): Pool<C> {
    p.(current := p.current - 1)
  }

  function Returned<C>(p: Pool<C>, c: C): Pool<C> {
    p.(idle := p.idle + [c])
  }

  /** The last `n` idle connections are closed and counted off. */
  function Trimmed<C>(p: Pool<C>, n: nat): Pool<C>
    requires n <= |p.idle|
  {
    p.(idle := p.idle[..|p.idle| - n], current := p.current - n)
  }

  /** The connection given back last is given out next, and the pool is then as before. */
  lemma ReturnedIsNext<C>(p: Pool<C>, c: C)
    ensures var q := Returned(p, c); q.idle != [] && LastIdle(q) == c && Popped(q) == p && !MayGrow(q)
  {
    assert (p.idle + [c])[..|p.idle|] == p.idle;
  }
}
