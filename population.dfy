/**
 * The decision rules of node churn: the miner/client alternation of the
 * initial population, the population cap, and the load-balancing choice of
 * the next node type (`nextRandomType`).
 */
module Population {
  import opened Wrappers

  /** `Any` is a query wildcard: it asks the network for a node of either kind. */
  datatype NodeType = Miner | Client | Any

  /** The type of the initial node with index `i`. */
  function InitialNodeType(i: nat): NodeType
  {
    if i % 2 == 0 then Miner else Client
  }

  /** The types requested for the first `n` initial nodes, by index. */
  function InitialTypes(n: nat): (ts: seq<NodeType>)
    ensures |ts| == n
    ensures forall i :: 0 <= i < n ==> (ts[i] == Miner <==> i % 2 == 0) && ts[i] != Any
    decreases n
  {
    if n == 0 then [] else InitialTypes(n - 1) + [InitialNodeType(n - 1)]
  }

  /** How many entries of `ts` are `t`. */
  function CountOf(ts: seq<NodeType>, t: NodeType): nat
    decreases |ts|
  {
    if ts == [] then 0
    else CountOf(ts[..|ts| - 1], t) + (if ts[|ts| - 1] == t then 1 else 0)
  }

  /**
   * The loop of `addInitialNodes`: one `AddNode` request per index below
   * `startNodes`, returned in index order (the requests run concurrently).
   */
  method AddInitialNodes(startNodes: int) returns (requested: seq<NodeType>)
    ensures |requested| == if startNodes < 0 then 0 else startNodes
    ensures requested == InitialTypes(|requested|)
  {
    requested := [];
    var i := 0;
    while i < startNodes
      invariant if startNodes < 0 then i == 0 else 0 <= i <= startNodes
      invariant requested == InitialTypes(i)
    {
      var t := Client;
      if i % 2 == 0 {
        t := Miner;
      }
      requested := requested + [t];
      i := i + 1;
    }
  }

  /** `n` initial nodes hold ceil(n/2) miners, floor(n/2) clients and nothing else. */
  lemma {:induction false} InitialTypeCounts(n: nat)
    ensures CountOf(InitialTypes(n), Miner) == (n + 1) / 2
    ensures CountOf(InitialTypes(n), Client) == n / 2
    ensures CountOf(InitialTypes(n), Any) == 0
    decreases n
  {
    if n > 0 {
      InitialTypeCounts(n - 1);
      var ts := InitialTypes(n);
      assert ts[..|ts| - 1] == InitialTypes(n - 1);
      if (n - 1) % 2 == 0 {
        assert (n + 1) / 2 == n / 2 + 1 && n / 2 == (n - 1) / 2;
      } else {
        assert (n + 1) / 2 == n / 2 && n / 2 == (n - 1) / 2 + 1;
      }
    }
  }

  /** The count of `t` in the map `GetNodeCounts` returns; a missing key reads as zero, as in Go. */
  function Count(counts: map<NodeType, nat>, t: NodeType): nat
  {
    if t in counts then counts[t] else 0
  }

  /**
   * `nextRandomType`: request a client while clients are fewer than 1.5 times
   * the miners, otherwise a node of any type.
   */
  function NextRandomType(counts: map<NodeType, nat>): (t: NodeType)
    ensures t == Client <==> (Count(counts, Client) as real) < (Count(counts, Miner) as real) * 1.5
    ensures t == Client || t == Any
  {
    if 2 * Count(counts, Client) < 3 * Count(counts, Miner) then Client else Any
  }

  /**
   * One tick of the growth loop in `addAndRemoveNodes`: no node at or above the
   * cap, otherwise one node of the type `nextRandomType` chooses.
   */
  function GrowthTick(size: int, maxNodes: int, counts: map<NodeType, nat>): (r: Option<NodeType>)
    ensures r.None? <==> size >= maxNodes
    ensures r.Some? ==> r.value != Miner
    ensures r.Some? ==> (r.value == Client <==> 2 * Count(counts, Client) < 3 * Count(counts, Miner))
  {
    if size >= maxNodes then None else Some(NextRandomType(counts))
  }
}
