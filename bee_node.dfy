/**
 * A cell of the navigation grid: its centre, whether an obstacle sits in it,
 * and the cost of the edge to each neighbour.  A neighbour is referred to by
 * its cell index in the graph's node array.
 */
module BeeNode {
  import opened Geometry

  class BeeNode {
    const position: Position
    /** Set while the cell holds an obstacle (the graph's obstructed flag). */
    var obstructed: bool
    /** Neighbour cell index -> cost of the edge from this cell to it. */
    var adjacency: map<int, real>

    /** `new BeeNode(position)`: no neighbours yet, not obstructed. */
    constructor (position: Position)
      ensures this.position == position
      ensures adjacency == map[] && !obstructed
    {
      this.position := position;
      obstructed := false;
      adjacency := map[];
    }

    /** `addAdjacent`: maps `node` to `distance`, replacing any earlier cost. */
    method AddAdjacent(node: int, distance: real)
      modifies this
      ensures adjacency == Put(old(adjacency), node, distance)
      ensures obstructed == old(obstructed)
    {
      adjacency := adjacency[node := distance];
    }

    /** `removeAdjacent`: drops the key `node`, if present. */
    method RemoveAdjacent(node: int)
      modifies this
      ensures adjacency == Remove(old(adjacency), node)
      ensures obstructed == old(obstructed)
    {
      adjacency := adjacency - {node};
    }

    function GetPosition(): Position
    {
      position
    }
  }

  /** HashMap.put on the adjacency map. */
  function Put(m: map<int, real>, key: int, value: real): (r: map<int, real>)
    ensures r.Keys == m.Keys + {key}
    ensures r[key] == value
    ensures forall k :: k in m && k != key ==> r[k] == m[k]
  {
    m[key := value]
  }

  /** HashMap.remove on the adjacency map. */
  function Remove(m: map<int, real>, key: int): (r: map<int, real>)
    ensures r.Keys == m.Keys - {key}
    ensures forall k :: k in r ==> r[k] == m[k]
    ensures key !in m ==> r == m
  {
    m - {key}
  }

  /** Adding a key that was absent and removing it again restores the map. */
  lemma PutThenRemove(m: map<int, real>, key: int, value: real)
    requires key !in m
    ensures Remove(Put(m, key, value), key) == m
  {
    var r := Remove(Put(m, key, value), key);
    assert r.Keys == m.Keys;
  }

  /** Removing a key and putting back its old cost restores the map. */
  lemma RemoveThenPut(m: map<int, real>, key: int)
    requires key in m
    ensures Put(Remove(m, key), key, m[key]) == m
  {
    var r := Put(Remove(m, key), key, m[key]);
    assert r.Keys == m.Keys;
  }
}
