/** The list of a process's areas, as the kernel links it. */
module AreaLists {
  import opened AreaMaps

  class AreaNode {
    const area: Area
    var next: AreaNode?
    var prev: AreaNode?

    constructor (area: Area)
      ensures this.area == area && next == null && prev == null
    {
      this.area := area;
      next, prev := null, null;
    }
  }

  predicate Distinct(nodes: seq<AreaNode>) {
    forall i, j :: 0 <= i < j < |nodes| ==> nodes[i] != nodes[j]
  }

  function AreasOf(nodes: seq<AreaNode>): (r: seq<Area>)
    ensures |r| == |nodes| && forall i :: 0 <= i < |r| ==> r[i] == nodes[i].area
  {
    seq(|nodes|, i requires 0 <= i < |nodes| => nodes[i].area)
  }

  class AreaList {
    var head: AreaNode?
    ghost var nodes: seq<AreaNode>
    /** All nodes there ever were. */
    ghost var repr: set<AreaNode>

    ghost predicate Valid()
      reads this, repr
    {
      && Distinct(nodes) && (forall i :: 0 <= i < |nodes| ==> nodes[i] in repr)
      && head == (if nodes == [] then null else nodes[0])
      && (forall i :: 0 <= i < |nodes| - 1 ==> nodes[i].next == nodes[i + 1])
      && (forall i :: 0 < i < |nodes| ==> nodes[i].prev == nodes[i - 1])
      && (nodes != [] ==> nodes[0].prev == null && nodes[|nodes| - 1].next == null)
    }

    ghost function Areas(): seq<Area>
      reads this
    {
      AreasOf(nodes)
    }

    /** A walk from the head is at position i. */
    ghost predicate At(i: nat, current: AreaNode?)
      reads this
    {
      i <= |nodes| && current == if i < |nodes| then nodes[i] else null
    }

    constructor ()
      ensures Valid() && Areas() == [] && repr == {}
    {
      head, nodes, repr := null, [], {};
    }

    lemma AtStart()
      requires Valid()
      ensures At(0, head)
    {
    }

    lemma Onward(i: nat, current: AreaNode)
      requires Valid() && At(i, current)
      ensures current in repr && i < |nodes| && At(i + 1, current.next) && current.area == Areas()[i]
    {
    }

    /** The last node, by walking. */
    method Last() returns (current: AreaNode)
      requires Valid() && head != null
      ensures nodes != [] && current == nodes[|nodes| - 1]
    {
      current := head;
      ghost var i := 0;
      Onward(0, current);
      while current.next != null
        invariant 0 <= i < |nodes| && current == nodes[i] && At(i + 1, current.next)
        decreases |nodes| - i
      {
        current := current.next;
        i := i + 1;
        Onward(i, current);
      }
    }

    /** A new area goes behind the last one. */
    method Append(area: Area)
      requires Valid()
      modifies this, repr
      ensures Valid() && fresh(repr - old(repr)) && Areas() == old(Areas()) + [area]
    {
      var node := new AreaNode(area);
      if head == null {
        head := node;
      } else {
        var current := Last();
        current.next := node;
        node.prev := current;
      }
      nodes := nodes + [node];
      repr := repr + {node};
    }

    method Clear()
      requires Valid()
      modifies this
      ensures Valid() && Areas() == [] && repr == old(repr)
    {
      head := null;
      nodes := [];
    }
  }
}
