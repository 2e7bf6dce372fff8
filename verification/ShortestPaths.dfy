/** Distances to a target over any relation between switches, and the levels by which a breadth-first
    search finds them. */
module ShortestPaths {
  import opened Prelude

  /** `adj(a, b)`: a packet at `a` can go to `b` next. */
  type Adj = (Dpid, Dpid) -> bool

  /** `d` can reach `target` in `n` hops. */
  ghost predicate Hops(adj: Adj, target: Dpid, d: Dpid, n: nat)
    decreases n
  {
    if n == 0 then d == target else exists m :: adj(d, m) && Hops(adj, target, m, n - 1)
  }

  ghost predicate Reaches(adj: Adj, target: Dpid, d: Dpid) {
    exists n: nat :: Hops(adj, target, d, n)
  }

  /** ... and in no fewer. */
  ghost predicate Nearest(adj: Adj, target: Dpid, d: Dpid, n: nat) {
    Hops(adj, target, d, n) && forall m: nat | Hops(adj, target, d, m) :: n <= m
  }

  lemma NearestToItself(adj: Adj, d: Dpid)
    ensures Nearest(adj, d, d, 0)
  {
  }

  type Levels = map<Dpid, nat>

  /** Everything but the target has a next hop one level down. */
  ghost predicate Descend(adj: Adj, target: Dpid, level: Levels) {
    && target in level && level[target] == 0
    && forall d | d in level && d != target :: HasStepDown(adj, level, d)
  }

  ghost predicate HasStepDown(adj: Adj, level: Levels, d: Dpid)
    requires d in level
  {
    exists m :: m in level && adj(d, m) && level[d] == level[m] + 1
  }

  /** Whoever can go to a levelled switch is levelled itself, at most one higher. */
  ghost predicate AreClosed(adj: Adj, level: Levels) {
    forall d, m | m in level && adj(d, m) :: d in level && level[d] <= level[m] + 1
  }

  lemma {:induction false} LevelIsReached(adj: Adj, target: Dpid, level: Levels, d: Dpid)
    requires Descend(adj, target, level) && d in level
    ensures Hops(adj, target, d, level[d])
    decreases level[d]
  {
    if d != target {
      assert HasStepDown(adj, level, d);
      var m :| m in level && adj(d, m) && level[d] == level[m] + 1;
      LevelIsReached(adj, target, level, m);
    }
  }

  lemma {:induction false} LevelIsLeast(adj: Adj, target: Dpid, level: Levels, d: Dpid, n: nat)
    requires Descend(adj, target, level) && AreClosed(adj, level) && Hops(adj, target, d, n)
    ensures d in level && level[d] <= n
    decreases n
  {
    if n > 0 {
      var m :| adj(d, m) && Hops(adj, target, m, n - 1);
      LevelIsLeast(adj, target, level, m, n - 1);
    }
  }

  /** Levels that descend and are closed are the distances, and exist exactly where there is a way. */
  lemma LevelsAreDistances(adj: Adj, target: Dpid, level: Levels)
    requires Descend(adj, target, level) && AreClosed(adj, level)
    ensures forall d :: d in level <==> Reaches(adj, target, d)
    ensures forall d | d in level :: Nearest(adj, target, d, level[d])
  {
    forall d, n: nat | Hops(adj, target, d, n) ensures d in level && level[d] <= n {
      LevelIsLeast(adj, target, level, d, n);
    }
    forall d | d in level ensures Hops(adj, target, d, level[d]) {
      LevelIsReached(adj, target, level, d);
    }
  }
}
