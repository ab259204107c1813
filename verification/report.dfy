/**
 * The classification of one round's nodes that leach.java prints after the
 * election: four lists of node numbers, counted from 1.
 */
module Report {
  import opened Election

  /** The four lists, in the order the program prints them. */
  datatype NodeLists = NodeLists(
    below: seq<nat>,             // not valid: the draw was above the threshold
    potentiallyValid: seq<nat>,  // valid
    excluded: seq<nat>,          // not valid or not selected
    validClusterheads: seq<nat>  // selected
  )

  predicate Increasing(s: seq<nat>)
  {
    forall i, j :: 0 <= i < j < |s| ==> s[i] < s[j]
  }

  /** Appending a number above every element keeps a list increasing. */
  lemma AppendAbove(s: seq<nat>, x: nat)
    requires Increasing(s) && forall m :: m in s ==> m < x
    ensures Increasing(s + [x])
  {
    forall i, j | 0 <= i < j < |s + [x]| ensures (s + [x])[i] < (s + [x])[j] {
      if j == |s| {
        assert s[i] in s;
      }
    }
  }

  /**
   * Sorts the first `nodes` records of a round into the four lists. "Below" and
   * "potentially valid" split the node numbers 1..nodes by `valid`; "excluded"
   * holds the nodes that are not valid or not selected and "valid clusterheads"
   * the selected ones, which together cover every node exactly once when every
   * selected record is also valid. Each list is in increasing node order.
   */
  method ParseNodeList(nodeList: seq<NodeDetails>, nodes: nat) returns (parsed: NodeLists)
    requires nodes <= |nodeList|
    ensures forall m :: m in parsed.below <==> 1 <= m <= nodes && !nodeList[m - 1].valid
    ensures forall m :: m in parsed.potentiallyValid <==> 1 <= m <= nodes && nodeList[m - 1].valid
    ensures forall m :: m in parsed.excluded <==>
              1 <= m <= nodes && (!nodeList[m - 1].valid || !nodeList[m - 1].selected)
    ensures forall m :: m in parsed.validClusterheads <==> 1 <= m <= nodes && nodeList[m - 1].selected
    ensures Increasing(parsed.below) && Increasing(parsed.potentiallyValid)
    ensures Increasing(parsed.excluded) && Increasing(parsed.validClusterheads)
    ensures |parsed.below| + |parsed.potentiallyValid| == nodes
    ensures (forall k :: 0 <= k < nodes && nodeList[k].selected ==> nodeList[k].valid) ==>
              |parsed.excluded| + |parsed.validClusterheads| == nodes
  {
    var below: seq<nat> := [];
    var excluded: seq<nat> := [];
    var potentiallyValid: seq<nat> := [];
    var validClusterheads: seq<nat> := [];
    ghost var consistent := true;
    for node := 0 to nodes
      invariant forall m :: m in below <==> 1 <= m <= node && !nodeList[m - 1].valid
      invariant forall m :: m in potentiallyValid <==> 1 <= m <= node && nodeList[m - 1].valid
      invariant forall m :: m in excluded <==>
                  1 <= m <= node && (!nodeList[m - 1].valid || !nodeList[m - 1].selected)
      invariant forall m :: m in validClusterheads <==> 1 <= m <= node && nodeList[m - 1].selected
      invariant Increasing(below) && Increasing(potentiallyValid) && Increasing(excluded) && Increasing(validClusterheads)
      invariant |below| + |potentiallyValid| == node
      invariant consistent == (forall k :: 0 <= k < node && nodeList[k].selected ==> nodeList[k].valid)
      invariant consistent ==> |excluded| + |validClusterheads| == node
    {
      var current := nodeList[node];
      if !current.valid {
        AppendAbove(below, node + 1);
        below := below + [node + 1];
      }
      if current.valid {
        AppendAbove(potentiallyValid, node + 1);
        potentiallyValid := potentiallyValid + [node + 1];
      }
      if !current.valid || !current.selected {
        AppendAbove(excluded, node + 1);
        excluded := excluded + [node + 1];
      }
      if current.selected {
        AppendAbove(validClusterheads, node + 1);
        validClusterheads := validClusterheads + [node + 1];
      }
      consistent := consistent && (current.selected ==> current.valid);
    }
    parsed := NodeLists(below, potentiallyValid, excluded, validClusterheads);
  }
}
