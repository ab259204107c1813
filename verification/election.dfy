/**
 * The LEACH clusterhead election of leach.java, as functions on values.
 *
 * The program keeps a grid `nodeList` of `rounds` rows, each holding the
 * `nodes` records of one round. The election visits the rounds in order and,
 * inside a round, the nodes in order; each node copies its cooldown counter
 * from its record of the previous round, compares its draw with the round's
 * admission threshold theta and updates its counter and flags. Theta is one
 * variable of the round: a node in mid-cooldown overwrites it with 0, and it
 * stays 0 for every later node of that round.
 *
 * The draws and the admission probability p are exact reals here.
 */
module Election {

  /** One node in one round (the record `nodeDetails`). `possibility` is the node's draw. */
  datatype NodeDetails = NodeDetails(possibility: real, counter: nat, selected: bool, valid: bool)

  /** Every row of `grid` holds `nodes` records. */
  ghost predicate Rectangular(grid: seq<seq<NodeDetails>>, nodes: nat)
  {
    forall r :: 0 <= r < |grid| ==> |grid[r]| == nodes
  }

  /** The grid as initialisation leaves it: `rounds` rows of `nodes` records, every
      counter 0, no flag set, every draw in [0, 1). */
  ghost predicate InitialGrid(grid: seq<seq<NodeDetails>>, rounds: nat, nodes: nat)
  {
    && |grid| == rounds
    && Rectangular(grid, nodes)
    && forall r, n :: 0 <= r < rounds && 0 <= n < nodes ==>
         var d := grid[r][n];
         d.counter == 0 && !d.selected && !d.valid && 0.0 <= d.possibility < 1.0
  }

  /** The cooldown period `(int) (1 / p)`: the reciprocal truncated toward zero. */
  function Period(p: real): (period: int)
    requires 0.0 < p
    ensures period as real <= 1.0 / p < (period + 1) as real
    ensures period as real * p <= 1.0
    ensures period >= 0 && (period >= 1 <==> p <= 1.0)
  {
    var f := (1.0 / p).Floor;
    FloorOfReciprocal(p, f);
    f
  }

  /** The floor of 1 / p, multiplied back by p, does not exceed 1; it is
      positive exactly when p is at most 1. */
  lemma FloorOfReciprocal(p: real, f: int)
    requires 0.0 < p && f == (1.0 / p).Floor
    ensures f as real * p <= 1.0
    ensures f >= 0 && (f >= 1 <==> p <= 1.0)
  {
    var q := 1.0 / p;
    Reciprocal(p);
    var a := f as real;
    assert a <= q;
    MulMonotone(a, q, p);
    var ap := a * p;
    var qp := q * p;
    assert ap <= qp && qp == 1.0;
  }

  /** The reciprocal of a positive real is positive, undoes the multiplication
      and is at least 1 exactly when the real is at most 1. */
  lemma Reciprocal(p: real)
    requires 0.0 < p
    ensures (1.0 / p) * p == 1.0 && 1.0 / p > 0.0
    ensures p <= 1.0 <==> 1.0 <= 1.0 / p
  {
    var q := 1.0 / p;
    MulMonotone(q, 1.0, p);
    MulMonotone(1.0, q, p);
  }

  /** Multiplying by a positive real keeps `<=` and `<`. */
  lemma MulMonotone(a: real, b: real, p: real)
    requires 0.0 < p
    ensures a <= b ==> a * p <= b * p
    ensures a < b ==> a * p < b * p
  {
    assert b * p - a * p == (b - a) * p;
  }

  /** A node in mid-cooldown: elected within the last `period - 1` rounds. */
  predicate MidCooldown(counter: nat, period: int)
  {
    counter < period && counter > 0
  }

  /**
   * The admission threshold of a round:
   * theta = p / (1 - p * ((round + 1) mod period)).
   * For 0 < p <= 1 the denominator is at least p, so theta is defined and lies
   * between p and 1; it is p itself in the last round of every period.
   */
  function Theta(p: real, round: nat): (theta: real)
    requires 0.0 < p <= 1.0
    ensures p <= theta <= 1.0
    ensures (round + 1) % Period(p) == 0 ==> theta == p
  {
    var period := Period(p);
    var k := (round + 1) % period;
    Denominator(p, period, k);
    p / (1.0 - p * k as real)
  }

  /** For k below the period, 1 - p * k lies between p and 1, so p divided by it
      lies between p and 1, and is p itself when k is 0. */
  lemma Denominator(p: real, period: int, k: int)
    requires 0.0 < p && period as real * p <= 1.0 && 0 <= k < period
    ensures p <= 1.0 - p * k as real <= 1.0
    ensures p <= p / (1.0 - p * k as real) <= 1.0
    ensures k == 0 ==> p / (1.0 - p * k as real) == p
  {
    DenominatorBounds(p, period, k as real);
    Quotient(p, 1.0 - p * k as real);
  }

  /** For 0 <= a <= period - 1 with period * p <= 1, the real 1 - p * a lies in [p, 1]. */
  lemma DenominatorBounds(p: real, period: int, a: real)
    requires 0.0 < p && period as real * p <= 1.0 && 0.0 <= a && a + 1.0 <= period as real
    ensures p <= 1.0 - p * a <= 1.0
  {
    MulMonotone(0.0, a, p);
    MulMonotone(a + 1.0, period as real, p);
    var pk := a * p;
    var pk1 := (a + 1.0) * p;
    assert pk1 == pk + p;
    assert p * a == pk;
  }

  /** Dividing p by a real d in [p, 1] gives a real in [p, 1], and p itself when d is 1. */
  lemma Quotient(p: real, d: real)
    requires 0.0 < p <= d <= 1.0
    ensures p <= p / d <= 1.0
    ensures d == 1.0 ==> p / d == p
  {
    var theta := p / d;
    assert theta * d == p;
    Factor(theta, d, p);
  }

  /** A factor that multiplies a real d in [p, 1] up to p lies in [p, 1]. */
  lemma Factor(theta: real, d: real, p: real)
    requires 0.0 < p <= d <= 1.0 && theta * d == p
    ensures p <= theta <= 1.0
  {
    if theta <= 0.0 {
      MulMonotone(theta, 0.0, d);
    } else {
      MulMonotone(1.0, theta, d);
      MulMonotone(d, 1.0, theta);
    }
  }

  /**
   * One node's turn in a round: `current` is its record of this round, `carried`
   * the counter of its record of the previous round and `theta` the threshold
   * as the previous node left it. Gives the updated record and the threshold
   * left for the next node: theta drops to 0 for a carried mid-cooldown counter;
   * a draw at or below theta makes the record valid, and also selected with
   * counter 1 when the carried counter is 0 or above the period; otherwise a
   * positive counter goes up by one. Flags already set stay set.
   */
  function Step(current: NodeDetails, carried: nat, theta: real, period: int): (res: (NodeDetails, real))
    ensures res.1 == if MidCooldown(carried, period) then 0.0 else theta
    ensures res.0.possibility == current.possibility
    ensures res.0.valid == (current.valid || current.possibility <= res.1)
    ensures res.0.selected == (current.selected || (current.possibility <= res.1 && (carried == 0 || carried > period)))
    ensures res.0.counter ==
              if current.possibility <= res.1 && (carried == 0 || carried > period) then 1
              else if carried > 0 then carried + 1
              else 0
  {
    var current := current.(counter := carried);
    var theta := if MidCooldown(current.counter, period) then 0.0 else theta;
    if current.possibility <= theta then
      var current :=
        if current.counter > period || current.counter == 0 then current.(counter := 1, selected := true)
        else current.(counter := current.counter + 1);
      (current.(valid := true), theta)
    else if current.counter > 0 then
      (current.(counter := current.counter + 1), theta)
    else
      (current, theta)
  }

  /**
   * The row of one round after its first `n` nodes had their turn, with the
   * threshold as it then stands; `prev` is the row the counters are carried from.
   * Nodes from `n` on are not touched yet.
   */
  function ScanRow(row: seq<NodeDetails>, prev: seq<NodeDetails>, theta: real, period: int, n: nat)
    : (res: (seq<NodeDetails>, real))
    requires n <= |row| <= |prev|
    ensures |res.0| == |row|
    ensures forall k :: n <= k < |row| ==> res.0[k] == row[k]
    decreases n
  {
    if n == 0 then (row, theta)
    else
      var (done, t) := ScanRow(row, prev, theta, period, n - 1);
      var (d, t') := Step(done[n - 1], prev[n - 1].counter, t, period);
      (done[n - 1 := d], t')
  }

  /** The row the counters of round `round` are carried from: the previous
      round's, or the round's own in round 0. */
  function PreviousRow(grid: seq<seq<NodeDetails>>, round: nat): (prev: seq<NodeDetails>)
    requires round < |grid|
    ensures round > 0 ==> prev == grid[round - 1]
    ensures round == 0 ==> prev == grid[0]
  {
    var roundIdentifier := if round > 0 then 1 else 0;
    grid[round - roundIdentifier]
  }

  /** The threshold of every round, as computed at the head of the round loop. */
  function Thresholds(p: real, rounds: nat): (thetas: seq<real>)
    requires 0.0 < p && (rounds > 0 ==> p <= 1.0)
    ensures |thetas| == rounds
    ensures forall r :: 0 <= r < rounds ==> p <= thetas[r] <= 1.0
  {
    seq(rounds, r requires 0 <= r < rounds => Theta(p, r))
  }

  /** The grid after round `round` of the election has run on it, given the
      threshold of every round and the cooldown period. */
  function ElectRound(grid: seq<seq<NodeDetails>>, thetas: seq<real>, period: int, nodes: nat, round: nat)
    : (res: seq<seq<NodeDetails>>)
    requires round < |grid| && round < |thetas| && Rectangular(grid, nodes)
    ensures |res| == |grid| && Rectangular(res, nodes)
    ensures forall r :: 0 <= r < |grid| && r != round ==> res[r] == grid[r]
  {
    var row := ScanRow(grid[round], PreviousRow(grid, round), thetas[round], period, nodes).0;
    grid[round := row]
  }

  /** The grid after the first `rounds` rounds of the election have run on it. */
  function Elect(grid: seq<seq<NodeDetails>>, thetas: seq<real>, period: int, nodes: nat, rounds: nat)
    : (res: seq<seq<NodeDetails>>)
    requires rounds <= |grid| && rounds <= |thetas| && Rectangular(grid, nodes)
    ensures |res| == |grid| && Rectangular(res, nodes)
    decreases rounds
  {
    if rounds == 0 then grid
    else ElectRound(Elect(grid, thetas, period, nodes, rounds - 1), thetas, period, nodes, rounds - 1)
  }

  /** The election as the program runs it: the thresholds and the period come from p. */
  function ElectWith(grid: seq<seq<NodeDetails>>, p: real, nodes: nat, rounds: nat): (res: seq<seq<NodeDetails>>)
    requires 0.0 < p && (rounds > 0 ==> p <= 1.0)
    requires rounds <= |grid| && Rectangular(grid, nodes)
    ensures |res| == |grid| && Rectangular(res, nodes)
    ensures rounds == 0 ==> res == grid
  {
    Elect(grid, Thresholds(p, rounds), Period(p), nodes, rounds)
  }
}
