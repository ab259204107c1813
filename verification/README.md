# LEACH clusterhead election, modelled in Dafny

This project models the clusterhead election of `leach.java`. That program simulates
LEACH, a self-organising protocol for sensor networks. For a number of nodes and rounds it
keeps a grid `nodeList` with one record per round and node. Each record holds:

- the node's random draw (`possibility`);
- a cooldown `counter`;
- the flags `selected` (elected clusterhead this round) and `valid` (the draw passed the
  threshold).

The program fills the grid with draws and defaults. It then runs the election over the grid
in place, round by round and node by node. Each node:

1. copies its counter from its record of the previous round (in round 0, from itself);
2. compares its draw with the round's threshold theta = p / (1 - p * ((round + 1) mod period)),
   where period = (int) (1 / p);
3. is elected (counter 1) when it passes and its carried counter is 0 or above the period;
   otherwise a counter above 0 goes up by one.

A node in mid-cooldown (0 < counter < period) sets theta to 0. Theta is one variable of
the round, so it stays 0 for every later node of that round as well.

Modules:

- `Election` (election.dfy): the record `NodeDetails` and the election as functions on
  values. `Step` is one node's turn and returns the theta it leaves behind. `ScanRow` is the
  node loop of one round, `ElectRound` one round, and `Elect` the first k rounds.
  `Period` and `Theta` are the cooldown period and the threshold, and `Thresholds` lists the
  threshold of every round. `Elect` takes the thresholds and the period as arguments, and
  `ElectWith` feeds it the ones computed from p. The properties therefore hold for any
  thresholds and period; where they need the values for a given p, they get them from
  `Period` and `Thresholds`.
- `ElectionProperties` (election_properties.dfy): what the election guarantees, as lemmas
  about `Elect` on a freshly initialised grid.
- `Simulation` (simulation.dfy): the class `Leach` holding `nodeList`. Its constructor
  is the initialisation loop. `Run` is the election loop, which updates `nodeList` in place
  and is proved to produce `Elect` of the initial grid.
- `Report` (report.dfy): `ParseNodeList`, the split of one round's nodes into the four
  printed lists.

The draws and p are exact reals. The program's random draws are an input grid of values in
[0, 1).

The code differs from a natural reading of the protocol in two places. The model follows the
code in both:

- Nodes within one round are not independent. Once a mid-cooldown node is met, every
  later node of the round is compared with theta = 0 (`MidCooldownLeak`).
- Re-election needs a carried counter strictly above the period (`counter > period`).
  With p = 0.5, a node elected in round 0 is therefore not re-elected in round 2: it is
  marked valid and its counter goes to 3 (`HalfProbabilityScenario`). Two elections of one
  node lie more than `period` rounds apart (`ElectionGap`).

## Model

| member | source | states |
|---|---|---|
| `Election.Period` | leach.java:94 | the period is 1/p truncated toward zero: period <= 1/p < period + 1 and period * p <= 1; it is at least 1 exactly when p <= 1 |
| `Election.Theta` | leach.java:94 | for 0 < p <= 1 the denominator is positive and theta lies in [p, 1]; theta equals p when round + 1 is a multiple of the period |
| `Election.Step` | leach.java:96-140 | one node's turn: theta drops to 0 for a carried mid-cooldown counter and is passed on; the draw is kept; a draw at or below theta makes the record valid, and selected with counter 1 when the carried counter is 0 or above the period; otherwise a positive carried counter goes up by one and a zero one stays 0; flags already set stay set |
| `Election.PreviousRow` | leach.java:101-102 | counters are carried from the previous round's row, and in round 0 from the round's own row |
| `Election.ScanRow` | leach.java:95-141 | the node loop keeps the row's length and leaves the nodes it has not reached yet untouched |
| `Election.Thresholds` | leach.java:93-94 | one threshold per round, each between p and 1 (the program's theta is always a probability) |
| `Election.ElectWith` | leach.java:93-94 | the election run with the period and the per-round thresholds computed from p keeps the grid's shape, and with no rounds leaves the grid as it is |
| `Election.ElectRound` | leach.java:93-141 | one round, run with its own threshold, changes only its own row and keeps every row `nodes` records long |
| `Election.Elect` | leach.java:93-142 | the election keeps the grid at `rounds` rows of `nodes` records |
| `ElectionProperties.ScanRowTheta` | leach.java:94-116 | the theta carried from node to node is the round's own until a node with a mid-cooldown counter is met, and 0 from then on |
| `ElectionProperties.ScanRowAt` | leach.java:95-141 | once node k has had its turn, its record is its own step taken with the theta the earlier nodes left |
| `ElectionProperties.Frozen` | leach.java:93-105 | a round only reads the row before it and writes its own: rows not yet reached are untouched, finished rows stay final |
| `ElectionProperties.ElectionAt` | leach.java:101-140 | every record of the finished grid: keeps its draw; valid iff draw <= the theta in force; selected iff valid and the carried counter is 0 or above the period; counter 1 when selected, else carried + 1 when carried > 0, else 0 |
| `ElectionProperties.SelectedIsValid` | leach.java:121-132 | a selected record is also valid and has counter 1 |
| `ElectionProperties.SelectedIsValidEverywhere` | leach.java:121-132 | over the whole finished grid, every selected record is valid and has counter 1 |
| `ElectionProperties.RoundRow` | leach.java:96-105 | row r of the finished grid is the node loop of round r over its initial row, with counters carried from the finished row r - 1 (0 in round 0) |
| `ElectionProperties.CounterTransition` | leach.java:105-139 | the new counter is 1 on election, carried + 1, or 0 when 0 was carried and the node is not elected; from one round to the next it only goes down by the reset of an election |
| `ElectionProperties.FirstRound` | leach.java:94-128 | in round 0 every carried counter is 0 and theta is the round's own; a node is selected iff valid iff its draw <= theta(0), with counter 1 if so and 0 otherwise |
| `ElectionProperties.MidCooldownLeak` | leach.java:94-121 | when node k carries a mid-cooldown counter, node k and every later node of the round see theta 0: they are valid only for a draw of 0, and node k is not selected |
| `ElectionProperties.ValidNotSelected` | leach.java:114-132 | a valid but unselected node carried a counter in 1..period, and below the period its draw was 0 |
| `ElectionProperties.CounterBound` | leach.java:105-139 | no counter exceeds round + 1, so the int counter does not overflow |
| `ElectionProperties.CounterSinceElection` | leach.java:126-139 | after an election in round r0, while the node is not elected again, its counter in round r is r - r0 + 1 |
| `ElectionProperties.ElectionGap` | leach.java:122-128 | two consecutive elections of a node are more than `period` rounds apart |
| `ElectionProperties.HalfProbabilityThresholds` | leach.java:94 | with p = 0.5 the period is 2 and the thresholds of rounds 0, 1 and 2 are 1, 0.5 and 1 |
| `ElectionProperties.HalfProbabilityScenario` | leach.java:94-140 | with p = 0.5 and three rounds: round 0 elects every node (counter 1); round 1 elects none (counter 2, valid only for a draw of 0); round 2 makes every node valid but elects none (counter 3) |
| `Simulation.Leach.constructor` | leach.java:74-90 | the grid has `rounds` rows of `nodes` records, each with its draw, counter 0 and both flags false |
| `Simulation.Leach.Run` | leach.java:93-142 | fails with a division by zero and changes nothing when p > 1 and there is a round to run; otherwise the grid becomes the election of the old grid with the thresholds and period of p (`ElectWith`), and from an initial grid every selected record is valid with counter 1 |
| `Simulation.Leach.RunRound` | leach.java:94-141 | one pass of the round loop, computing theta from p and updating the round's row in place, leaves the grid equal to `ElectRound` of the old grid with that round's threshold |
| `Report.ParseNodeList` | leach.java:23-54 | the four lists hold exactly the 1-based numbers of the nodes that are not valid, valid, not valid or not selected, and selected; each is increasing; the first two partition 1..nodes, and so do the last two when every selected record is valid |

## Left out

- Console input of the node count, round count and p, including the exit on a badly
  written decimal (leach.java:59-70). These are parameters of the `Leach` constructor.
- The random draws (leach.java:81). They are a constructor parameter: a grid of reals in [0, 1).
- Printing the results and the theta recomputed for display (leach.java:144-162). This is
  presentation; `ParseNodeList` models the classification it prints.
- The node labels `"N" + k`. They are the numbers k, and the list of four lists is the
  datatype `NodeLists`.
- IEEE double arithmetic. `1 / possibility`, the `(int)` cast and theta are exact real
  arithmetic with truncation toward zero. A draw that compares differently under rounding
  is not captured. The program's `(int)` also saturates at 2^31 - 1 when 1 / p >= 2^31,
  while `Period` is unbounded; this only changes theta from round index 2^31 - 2 on.
- `Simulation.Leach.constructor`: requires p > 0, so the program's behaviour for p <= 0 is
  not modelled. For p = 0 the reciprocal is infinite and the `(int)` cast saturates. For
  -1 <= p < 0 the period is negative; Java's `%` keeps the dividend's sign, so theta is
  negative, no draw in [0, 1) passes, and the election ends with no node valid and every
  counter 0. For p < -1 the period is 0 and the modulo throws, as for p > 1.
- Negative node or round counts are not modelled; the counts are naturals. For a negative
  node count the program throws when it allocates the grid.
- The records are objects in the program and values here. No two grid cells share a
  record, so no aliasing is lost.
