/**
 * The program's state and the two loops of leach.java that build and update it
 * in place: the initialisation of the grid with draws and defaults, and the
 * election that runs over it round by round and node by node.
 *
 * The random draws are not produced here: the constructor takes them as a grid
 * of reals in [0, 1).
 */
module Simulation {
  import opened Election
  import ElectionProperties

  /** The only failure of the election: for p > 1 the period `(int) (1 / p)` is 0,
      and the modulo by it throws an ArithmeticException. */
  datatype Error = DivisionByZero

  datatype Outcome = Pass | Fail(error: Error)

  class Leach {
    const nodes: nat
    const rounds: nat
    const possibility: real
    /** `nodeList[round][node]`: every node's record in every round. */
    var nodeList: seq<seq<NodeDetails>>

    ghost predicate Valid()
      reads this
    {
      0.0 < possibility && |nodeList| == rounds && Rectangular(nodeList, nodes)
    }

    /** Allocates the grid row by row, each record with its draw, counter 0 and
        both flags false. */
    constructor (nodes: nat, rounds: nat, possibility: real, draws: seq<seq<real>>)
      requires 0.0 < possibility
      requires |draws| == rounds && forall r :: 0 <= r < rounds ==> |draws[r]| == nodes
      requires forall r, n :: 0 <= r < rounds && 0 <= n < nodes ==> 0.0 <= draws[r][n] < 1.0
      ensures Valid()
      ensures this.nodes == nodes && this.rounds == rounds && this.possibility == possibility
      ensures InitialGrid(nodeList, rounds, nodes)
      ensures forall r, n :: 0 <= r < rounds && 0 <= n < nodes ==> nodeList[r][n].possibility == draws[r][n]
    {
      this.nodes := nodes;
      this.rounds := rounds;
      this.possibility := possibility;
      var grid: seq<seq<NodeDetails>> := [];
      var round := 0;
      while round < rounds
        invariant 0 <= round <= rounds && |grid| == round
        invariant forall r :: 0 <= r < round ==> |grid[r]| == nodes
        invariant forall r, n :: 0 <= r < round && 0 <= n < nodes ==>
                    grid[r][n] == NodeDetails(draws[r][n], 0, false, false)
      {
        var nodeDetailsPerNode: seq<NodeDetails> := [];
        var node := 0;
        while node < nodes
          invariant 0 <= node <= nodes && |nodeDetailsPerNode| == node
          invariant forall n :: 0 <= n < node ==>
                      nodeDetailsPerNode[n] == NodeDetails(draws[round][n], 0, false, false)
        {
          var current := NodeDetails(draws[round][node], 0, false, false);
          nodeDetailsPerNode := nodeDetailsPerNode + [current];
          node := node + 1;
        }
        grid := grid + [nodeDetailsPerNode];
        round := round + 1;
      }
      nodeList := grid;
    }

    /**
     * Runs the election over the whole grid, in place. It fails, before touching
     * anything, when there is a round to run and p > 1; otherwise the grid
     * becomes the elected grid. Run on the grid the constructor built, every
     * clusterhead it leaves is also valid and has counter 1.
     */
    method Run() returns (outcome: Outcome)
      requires Valid()
      modifies this
      ensures Valid()
      ensures outcome == if rounds > 0 && possibility > 1.0 then Fail(DivisionByZero) else Pass
      ensures outcome.Fail? ==> nodeList == old(nodeList)
      ensures outcome.Pass? ==> nodeList == ElectWith(old(nodeList), possibility, nodes, rounds)
      ensures outcome.Pass? && InitialGrid(old(nodeList), rounds, nodes) ==>
                forall r, n :: 0 <= r < rounds && 0 <= n < nodes && nodeList[r][n].selected ==>
                  nodeList[r][n].valid && nodeList[r][n].counter == 1
    {
      var period := Period(possibility);
      ghost var thetas := if period >= 1 then Thresholds(possibility, rounds) else [];
      var round := 0;
      while round < rounds
        invariant 0 <= round <= rounds
        invariant round > 0 ==> period >= 1
        invariant period >= 1 ==> thetas == Thresholds(possibility, rounds)
        invariant Valid()
        invariant nodeList == Elect(old(nodeList), thetas, period, nodes, round)
      {
        if period == 0 {
          return Fail(DivisionByZero);
        }
        RunRound(round, period, thetas);
        round := round + 1;
      }
      if rounds > 0 && InitialGrid(old(nodeList), rounds, nodes) {
        ElectionProperties.SelectedIsValidEverywhere(old(nodeList), thetas, period, nodes, rounds);
      }
      return Pass;
    }

    /** One pass of the round loop: computes the round's theta, then lets every
        node of the round take its turn, in node order, carrying theta along. */
    method RunRound(round: nat, period: int, ghost thetas: seq<real>)
      requires Valid() && round < rounds
      requires period == Period(possibility) && period >= 1
      requires thetas == Thresholds(possibility, rounds)
      modifies this
      ensures Valid()
      ensures nodeList == ElectRound(old(nodeList), thetas, period, nodes, round)
    {
      ghost var before := nodeList;
      ghost var prev := PreviousRow(before, round);
      ghost var row := before[round];
      var theta := Theta(possibility, round);
      var node := 0;
      while node < nodes
        invariant 0 <= node <= nodes
        invariant nodeList == before[round := ScanRow(row, prev, Theta(possibility, round), period, node).0]
        invariant theta == ScanRow(row, prev, Theta(possibility, round), period, node).1
      {
        ghost var step := Step(nodeList[round][node], prev[node].counter, theta, period);
        var current := nodeList[round][node];
        var roundIdentifier := if round > 0 then 1 else 0;
        var previous := nodeList[round - roundIdentifier][node];
        assert previous.counter == prev[node].counter;
        current := current.(counter := previous.counter);
        if current.counter < period && current.counter > 0 {
          theta := 0.0;
        }
        if current.possibility <= theta {
          if current.counter > period || current.counter == 0 {
            current := current.(counter := 1, selected := true);
          } else {
            current := current.(counter := current.counter + 1);
          }
          current := current.(valid := true);
        } else if current.counter > 0 {
          current := current.(counter := current.counter + 1);
        }
        assert (current, theta) == step;
        nodeList := nodeList[round := nodeList[round][node := current]];
        node := node + 1;
      }
    }
  }
}
