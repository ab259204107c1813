/**
 * What the election of leach.java guarantees about the grid it produces,
 * proved about the functions of module Election.
 *
 * The central fact is ElectionAt: it describes every record of the finished
 * grid in terms of the counters of the round before, node by node, and makes
 * explicit that within a round the threshold a node is compared with depends
 * on the nodes before it.
 */
module ElectionProperties {
  import opened Election

  /** Threshold left by the first `n` nodes of a round that started with `theta`:
      0 as soon as one of them carried a mid-cooldown counter. */
  ghost function ThetaBefore(prev: seq<NodeDetails>, theta: real, period: int, n: nat): real
    requires n <= |prev|
  {
    if exists j :: 0 <= j < n && MidCooldown(prev[j].counter, period) then 0.0 else theta
  }

  /** The threshold a round carries from node to node is the round's own until a
      node in mid-cooldown is met, and 0 from then on. */
  lemma {:induction false} ScanRowTheta(row: seq<NodeDetails>, prev: seq<NodeDetails>, theta: real, period: int, n: nat)
    requires n <= |row| <= |prev|
    ensures ScanRow(row, prev, theta, period, n).1 == ThetaBefore(prev, theta, period, n)
    decreases n
  {
    if n > 0 {
      ScanRowTheta(row, prev, theta, period, n - 1);
      if MidCooldown(prev[n - 1].counter, period) {
        assert exists j :: 0 <= j < n && MidCooldown(prev[j].counter, period);
      } else if exists j :: 0 <= j < n && MidCooldown(prev[j].counter, period) {
        var j :| 0 <= j < n && MidCooldown(prev[j].counter, period);
        assert j < n - 1;
      }
    }
  }

  /** Once a node has had its turn, its record is the result of its own step, taken
      with the threshold the nodes before it left. */
  lemma {:induction false} ScanRowAt(row: seq<NodeDetails>, prev: seq<NodeDetails>, theta: real, period: int, n: nat, k: nat)
    requires k < n <= |row| <= |prev|
    ensures ScanRow(row, prev, theta, period, n).0[k]
         == Step(row[k], prev[k].counter, ScanRow(row, prev, theta, period, k).1, period).0
    decreases n
  {
    if k < n - 1 {
      ScanRowAt(row, prev, theta, period, n - 1, k);
    }
  }

  /** Rows a round has not reached yet are untouched; a round's row is final once
      that round has run. */
  lemma {:induction false} Frozen(grid: seq<seq<NodeDetails>>, thetas: seq<real>, period: int, nodes: nat, rounds: nat, r: nat)
    requires rounds <= |grid| && rounds <= |thetas| && Rectangular(grid, nodes) && r < |grid|
    ensures Elect(grid, thetas, period, nodes, rounds)[r]
         == if r < rounds then Elect(grid, thetas, period, nodes, r + 1)[r] else grid[r]
    decreases rounds
  {
    if rounds > 0 && r != rounds - 1 {
      Frozen(grid, thetas, period, nodes, rounds - 1, r);
    }
  }

  /** The counter node `n` brings into round `r`: its counter at the end of round
      r - 1, and in round 0 its initial counter 0. */
  function Carried(grid: seq<seq<NodeDetails>>, r: nat, n: nat): nat
    requires r < |grid| && (r > 0 ==> n < |grid[r - 1]|)
  {
    if r == 0 then 0 else grid[r - 1][n].counter
  }

  /** The threshold node `n` of round `r` is compared with: 0 if it, or any node
      before it in that round, carried a mid-cooldown counter; otherwise theta of
      the round. */
  ghost function ThetaInForce(grid: seq<seq<NodeDetails>>, thetas: seq<real>, period: int, nodes: nat, r: nat, n: nat): real
    requires r < |grid| && r < |thetas| && Rectangular(grid, nodes) && n < nodes
  {
    if exists j :: 0 <= j <= n && MidCooldown(Carried(grid, r, j), period) then 0.0
    else thetas[r]
  }

  /**
   * Every record of the finished grid, described through the counter its node
   * carried into the round and the threshold in force for it: the node is
   * marked valid exactly when its draw does not exceed that threshold; it becomes
   * clusterhead exactly when, besides, its carried counter is 0 or strictly
   * above the period; its counter is then 1, and otherwise the carried counter
   * plus one, except that a counter of 0 stays 0 when the node is not elected.
   */
  lemma ElectionAt(grid: seq<seq<NodeDetails>>, thetas: seq<real>, period: int, nodes: nat, rounds: nat, r: nat, n: nat)
    requires InitialGrid(grid, rounds, nodes) && rounds <= |thetas|
    requires r < rounds && n < nodes
    ensures var g := Elect(grid, thetas, period, nodes, rounds);
            var carried := Carried(g, r, n);
            var eligible := grid[r][n].possibility <= ThetaInForce(g, thetas, period, nodes, r, n);
            && g[r][n].possibility == grid[r][n].possibility
            && g[r][n].valid == eligible
            && g[r][n].selected == (eligible && (carried == 0 || carried > period))
            && g[r][n].counter == (if g[r][n].selected then 1 else if carried > 0 then carried + 1 else 0)
  {
    var g := Elect(grid, thetas, period, nodes, rounds);
    var prev := RoundRow(grid, thetas, period, nodes, rounds, r);
    var theta := thetas[r];
    ScanRowAt(grid[r], prev, theta, period, nodes, n);
    ScanRowTheta(grid[r], prev, theta, period, n);
    ThetaInForceBefore(g, thetas, period, nodes, r, n, prev);
    var d := Step(grid[r][n], prev[n].counter, ThetaBefore(prev, theta, period, n), period).0;
    assert g[r][n] == d;
  }

  /** Row `r` of the finished grid is the node loop of round `r` run over the
      initial row, carrying counters from a row whose counters are `Carried`. */
  lemma RoundRow(grid: seq<seq<NodeDetails>>, thetas: seq<real>, period: int, nodes: nat, rounds: nat, r: nat)
    returns (prev: seq<NodeDetails>)
    requires InitialGrid(grid, rounds, nodes) && rounds <= |thetas|
    requires r < rounds
    ensures var g := Elect(grid, thetas, period, nodes, rounds);
            && |prev| == nodes
            && g[r] == ScanRow(grid[r], prev, thetas[r], period, nodes).0
            && forall j :: 0 <= j < nodes ==> prev[j].counter == Carried(g, r, j)
  {
    var g := Elect(grid, thetas, period, nodes, rounds);
    var before := Elect(grid, thetas, period, nodes, r);
    prev := PreviousRow(before, r);
    Frozen(grid, thetas, period, nodes, rounds, r);
    Frozen(grid, thetas, period, nodes, r, r);
    assert before[r] == grid[r];
    if r > 0 {
      Frozen(grid, thetas, period, nodes, rounds, r - 1);
      Frozen(grid, thetas, period, nodes, r, r - 1);
      assert prev == g[r - 1];
    }
  }

  /** The threshold node `n` is compared with, as the node loop carries it, is the
      closed form `ThetaInForce`. */
  lemma ThetaInForceBefore(g: seq<seq<NodeDetails>>, thetas: seq<real>, period: int, nodes: nat, r: nat, n: nat, prev: seq<NodeDetails>)
    requires r < |g| && r < |thetas| && Rectangular(g, nodes) && n < nodes && |prev| == nodes
    requires forall j :: 0 <= j < nodes ==> prev[j].counter == Carried(g, r, j)
    ensures (if MidCooldown(prev[n].counter, period) then 0.0 else ThetaBefore(prev, thetas[r], period, n))
         == ThetaInForce(g, thetas, period, nodes, r, n)
  {
    if exists j :: 0 <= j <= n && MidCooldown(Carried(g, r, j), period) {
      var j :| 0 <= j <= n && MidCooldown(Carried(g, r, j), period);
      assert MidCooldown(prev[j].counter, period);
    }
  }

  /** A clusterhead is always also marked valid, and its counter is 1. */
  lemma SelectedIsValid(grid: seq<seq<NodeDetails>>, thetas: seq<real>, period: int, nodes: nat, rounds: nat, r: nat, n: nat)
    requires InitialGrid(grid, rounds, nodes) && rounds <= |thetas|
    requires r < rounds && n < nodes
    ensures var d := Elect(grid, thetas, period, nodes, rounds)[r][n];
            d.selected ==> d.valid && d.counter == 1
  {
    ElectionAt(grid, thetas, period, nodes, rounds, r, n);
  }

  /**
   * A node's new counter is 1 on election, its carried counter plus one, or 0
   * when it carried 0 and was not elected. So from one round to the next the
   * counter never goes down, except by the reset to 1 of an election.
   */
  lemma CounterTransition(grid: seq<seq<NodeDetails>>, thetas: seq<real>, period: int, nodes: nat, rounds: nat, r: nat, n: nat)
    requires InitialGrid(grid, rounds, nodes) && rounds <= |thetas|
    requires r < rounds && n < nodes
    ensures var g := Elect(grid, thetas, period, nodes, rounds);
            var carried := Carried(g, r, n);
            && (|| (g[r][n].selected && g[r][n].counter == 1)
                || (!g[r][n].selected && carried > 0 && g[r][n].counter == carried + 1)
                || (!g[r][n].selected && carried == 0 && g[r][n].counter == 0 && !g[r][n].valid))
            && (r > 0 ==> g[r][n].selected || g[r][n].counter >= g[r - 1][n].counter)
  {
    ElectionAt(grid, thetas, period, nodes, rounds, r, n);
  }

  /** Round 0: every node carries 0, so the round's own theta applies to all, and
      a node is elected exactly when its draw does not exceed it. */
  lemma FirstRound(grid: seq<seq<NodeDetails>>, thetas: seq<real>, period: int, nodes: nat, rounds: nat, n: nat)
    requires InitialGrid(grid, rounds, nodes) && rounds <= |thetas|
    requires 0 < rounds && n < nodes
    ensures var d := Elect(grid, thetas, period, nodes, rounds)[0][n];
            && d.selected == d.valid == (grid[0][n].possibility <= thetas[0])
            && d.counter == (if d.selected then 1 else 0)
  {
    ElectionAt(grid, thetas, period, nodes, rounds, 0, n);
    var g := Elect(grid, thetas, period, nodes, rounds);
    assert !exists j :: 0 <= j <= n && MidCooldown(Carried(g, 0, j), period);
  }

  /**
   * The threshold leaks across nodes: once node `k` of a round carries a
   * mid-cooldown counter, node `k` and every later node `n` of that round are
   * compared with 0, so they are marked valid only for a draw of 0; node `k`
   * itself is never elected.
   */
  lemma MidCooldownLeak(grid: seq<seq<NodeDetails>>, thetas: seq<real>, period: int, nodes: nat, rounds: nat, r: nat, k: nat, n: nat)
    requires InitialGrid(grid, rounds, nodes) && rounds <= |thetas|
    requires r < rounds && k <= n < nodes
    requires MidCooldown(Carried(Elect(grid, thetas, period, nodes, rounds), r, k), period)
    ensures var g := Elect(grid, thetas, period, nodes, rounds);
            && ThetaInForce(g, thetas, period, nodes, r, n) == 0.0
            && (g[r][n].valid <==> grid[r][n].possibility == 0.0)
            && !g[r][k].selected
  {
    ElectionAt(grid, thetas, period, nodes, rounds, r, n);
    ElectionAt(grid, thetas, period, nodes, rounds, r, k);
  }

  /**
   * A node that is valid but not elected carried a counter between 1 and the
   * period; below the period it was in mid-cooldown, so its draw was 0. The
   * branch that increments the counter of an eligible node is therefore reached
   * with a carried counter equal to the period (or with a draw of 0).
   */
  lemma ValidNotSelected(grid: seq<seq<NodeDetails>>, thetas: seq<real>, period: int, nodes: nat, rounds: nat, r: nat, n: nat)
    requires InitialGrid(grid, rounds, nodes) && rounds <= |thetas|
    requires r < rounds && n < nodes
    ensures var g := Elect(grid, thetas, period, nodes, rounds);
            var carried := Carried(g, r, n);
            g[r][n].valid && !g[r][n].selected ==>
              0 < carried <= period && (carried < period ==> grid[r][n].possibility == 0.0)
  {
    ElectionAt(grid, thetas, period, nodes, rounds, r, n);
  }

  /** No counter exceeds the number of rounds run so far, so a 32-bit counter
      never overflows for any round count the program can hold. */
  lemma {:induction false} CounterBound(grid: seq<seq<NodeDetails>>, thetas: seq<real>, period: int, nodes: nat, rounds: nat, r: nat, n: nat)
    requires InitialGrid(grid, rounds, nodes) && rounds <= |thetas|
    requires r < rounds && n < nodes
    ensures Elect(grid, thetas, period, nodes, rounds)[r][n].counter <= r + 1
    decreases r
  {
    ElectionAt(grid, thetas, period, nodes, rounds, r, n);
    if r > 0 {
      CounterBound(grid, thetas, period, nodes, rounds, r - 1, n);
    }
  }

  /** After an election in round `r0`, as long as the node is not elected again,
      its counter in round `r` is the number of rounds r0..r. */
  lemma {:induction false} CounterSinceElection(grid: seq<seq<NodeDetails>>, thetas: seq<real>, period: int, nodes: nat, rounds: nat, n: nat, r0: nat, r: nat)
    requires InitialGrid(grid, rounds, nodes) && rounds <= |thetas|
    requires r0 <= r < rounds && n < nodes
    requires Elect(grid, thetas, period, nodes, rounds)[r0][n].selected
    requires forall q :: r0 < q <= r ==> !Elect(grid, thetas, period, nodes, rounds)[q][n].selected
    ensures Elect(grid, thetas, period, nodes, rounds)[r][n].counter == r - r0 + 1
    decreases r
  {
    ElectionAt(grid, thetas, period, nodes, rounds, r, n);
    if r > r0 {
      CounterSinceElection(grid, thetas, period, nodes, rounds, n, r0, r - 1);
    }
  }

  /**
   * Between two consecutive elections of the same node lie more than `period`
   * rounds: a node elected in round r0 is elected again in round r0 + period + 1
   * at the earliest (re-election needs a carried counter strictly above the period).
   */
  lemma ElectionGap(grid: seq<seq<NodeDetails>>, thetas: seq<real>, period: int, nodes: nat, rounds: nat, n: nat, r0: nat, r1: nat)
    requires InitialGrid(grid, rounds, nodes) && rounds <= |thetas|
    requires r0 < r1 < rounds && n < nodes
    requires Elect(grid, thetas, period, nodes, rounds)[r0][n].selected && Elect(grid, thetas, period, nodes, rounds)[r1][n].selected
    requires forall q :: r0 < q < r1 ==> !Elect(grid, thetas, period, nodes, rounds)[q][n].selected
    ensures r1 - r0 > period
  {
    CounterSinceElection(grid, thetas, period, nodes, rounds, n, r0, r1 - 1);
    ElectionAt(grid, thetas, period, nodes, rounds, r1, n);
  }

  /** With p = 0.5 the period is 2 and the thresholds of rounds 0, 1, 2 are 1, 0.5, 1. */
  lemma HalfProbabilityThresholds()
    ensures Period(0.5) == 2
    ensures Thresholds(0.5, 3) == [1.0, 0.5, 1.0]
  {
    var t := Thresholds(0.5, 3);
    assert Period(0.5) == 2;
    assert t[0] == Theta(0.5, 0) == 0.5 / (1.0 - 0.5 * 1.0);
    assert t[1] == Theta(0.5, 1) == 0.5 / (1.0 - 0.5 * 0.0);
    assert t[2] == Theta(0.5, 2) == 0.5 / (1.0 - 0.5 * 1.0);
  }

  /**
   * Three rounds with p = 0.5 (period 2). Round 0 has theta 1, so every node is
   * elected. In round 1 the first node is in mid-cooldown, theta drops to 0 for
   * all, and every counter goes to 2. In round 2 theta is 1 again and every node
   * is valid, but a carried counter equal to the period is not above it: no node
   * is re-elected and every counter goes to 3.
   */
  lemma HalfProbabilityScenario(grid: seq<seq<NodeDetails>>, nodes: nat)
    requires InitialGrid(grid, 3, nodes)
    ensures var g := ElectWith(grid, 0.5, nodes, 3);
            forall n :: 0 <= n < nodes ==>
              && g[0][n] == NodeDetails(grid[0][n].possibility, 1, true, true)
              && g[1][n] == NodeDetails(grid[1][n].possibility, 2, false, grid[1][n].possibility == 0.0)
              && g[2][n] == NodeDetails(grid[2][n].possibility, 3, false, true)
  {
    HalfProbabilityThresholds();
    var thetas := [1.0, 0.5, 1.0];
    var g := Elect(grid, thetas, 2, nodes, 3);
    assert ElectWith(grid, 0.5, nodes, 3) == g;
    forall n | 0 <= n < nodes
      ensures g[0][n] == NodeDetails(grid[0][n].possibility, 1, true, true)
    {
      FirstRound(grid, thetas, 2, nodes, 3, n);
      ElectionAt(grid, thetas, 2, nodes, 3, 0, n);
    }
    forall n | 0 <= n < nodes
      ensures g[1][n] == NodeDetails(grid[1][n].possibility, 2, false, grid[1][n].possibility == 0.0)
    {
      MidCooldownLeak(grid, thetas, 2, nodes, 3, 1, 0, n);
      ElectionAt(grid, thetas, 2, nodes, 3, 1, n);
    }
    forall n | 0 <= n < nodes
      ensures g[2][n] == NodeDetails(grid[2][n].possibility, 3, false, true)
    {
      assert !exists j :: 0 <= j <= n && MidCooldown(Carried(g, 2, j), 2);
      ElectionAt(grid, thetas, 2, nodes, 3, 2, n);
    }
  }

  /** Over the whole finished grid, every selected record is valid and has counter 1. */
  lemma SelectedIsValidEverywhere(grid: seq<seq<NodeDetails>>, thetas: seq<real>, period: int, nodes: nat, rounds: nat)
    requires InitialGrid(grid, rounds, nodes) && rounds <= |thetas|
    ensures var g := Elect(grid, thetas, period, nodes, rounds);
            forall r, n :: 0 <= r < rounds && 0 <= n < nodes && g[r][n].selected ==>
              g[r][n].valid && g[r][n].counter == 1
  {
    forall r, n | 0 <= r < rounds && 0 <= n < nodes {
      SelectedIsValid(grid, thetas, period, nodes, rounds, r, n);
    }
  }
}
