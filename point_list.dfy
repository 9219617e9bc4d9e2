/** Optional values, used where the source returns NULL or rejects an argument. */
module Wrappers {
  datatype Option<T> = None | Some(value: T)
}

/**
 * The candidate container of point_list.c: a singly linked list of
 * (col, row) nodes, built by CreateList, grown at the tail by AppendPoint
 * and scanned once by FindNearestPoint.
 *
 * The C functions pass only the head pointer around. Here each of them also
 * takes the ghost sequence `nodes` of the list's nodes in order, which is how
 * the contracts talk about the chain the head pointer starts.
 */
module PointList {
  import opened Wrappers

  /** A grid coordinate, column first as the list stores it. */
  datatype Point = Point(col: int, row: int)

  /** One node of the list (`struct PointNode`). */
  class PointNode {
    var col: int
    var row: int
    var next: PointNode?

    constructor (col: int, row: int)
      ensures this.col == col && this.row == row && next == null
    {
      this.col := col;
      this.row := row;
      next := null;
    }
  }

  /** `head` starts a NULL-terminated chain of distinct nodes, namely `nodes` in order. */
  ghost predicate IsList(head: PointNode?, nodes: seq<PointNode>)
    reads nodes
  {
    (if nodes == [] then head == null else head == nodes[0])
    && (forall i :: 0 <= i < |nodes| - 1 ==> nodes[i].next == nodes[i + 1])
    && (nodes != [] ==> nodes[|nodes| - 1].next == null)
    && (forall i, j :: 0 <= i < j < |nodes| ==> nodes[i] != nodes[j])
  }

  /** The coordinates the nodes hold, in list order. */
  ghost function Points(nodes: seq<PointNode>): seq<Point>
    reads nodes
  {
    seq(|nodes|, i requires 0 <= i < |nodes| reads nodes => Point(nodes[i].col, nodes[i].row))
  }

  /**
   * Squared Euclidean distance from `p` to (col, row). The source compares
   * `sqrt(dx^2 + dy^2)`; the square root is monotone, so comparing squares
   * picks the same point.
   */
  function Dist2(p: Point, col: int, row: int): int
  {
    (col - p.col) * (col - p.col) + (row - p.row) * (row - p.row)
  }

  /**
   * `k` is a position of `ps` at minimal distance from (col, row), and every
   * earlier position is strictly farther: the first of the nearest points.
   */
  ghost predicate IsFirstNearest(ps: seq<Point>, col: int, row: int, k: int)
  {
    0 <= k < |ps|
    && (forall j :: 0 <= j < |ps| ==> Dist2(ps[k], col, row) <= Dist2(ps[j], col, row))
    && (forall j :: 0 <= j < k ==> Dist2(ps[k], col, row) < Dist2(ps[j], col, row))
  }

  /**
   * The position a left-to-right scan with a running minimum and a strict
   * `<` settles on: nothing for an empty list, otherwise the first nearest
   * point.
   */
  function NearestIndex(ps: seq<Point>, col: int, row: int): (r: Option<nat>)
    ensures r.None? <==> ps == []
    ensures r.Some? ==> IsFirstNearest(ps, col, row, r.value)
    decreases |ps|
  {
    if ps == [] then None
    else
      var best := NearestIndex(ps[..|ps| - 1], col, row);
      if best.None? || Dist2(ps[|ps| - 1], col, row) < Dist2(ps[best.value], col, row)
      then Some(|ps| - 1)
      else best
  }

  /** A list of one point yields that point, however far away it is. */
  lemma SingleCandidate(p: Point, col: int, row: int)
    ensures NearestIndex([p], col, row) == Some(0)
  {
  }

  /** createList: a fresh one-node list holding exactly (col, row). */
  method CreateList(col: int, row: int) returns (head: PointNode)
    ensures fresh(head)
    ensures IsList(head, [head]) && Points([head]) == [Point(col, row)]
  {
    head := new PointNode(col, row);
  }

  /**
   * appendPoint: walk to the tail of a non-empty list and link a fresh node
   * holding (col, row) after it. Only the old tail's `next` changes; the
   * new node is returned.
   */
  method AppendPoint(head: PointNode, ghost nodes: seq<PointNode>, col: int, row: int)
    returns (tail: PointNode)
    requires IsList(head, nodes)
    modifies (nodes[|nodes| - 1] as PointNode)`next
    ensures fresh(tail) && tail.next == null
    ensures IsList(head, nodes + [tail])
    ensures Points(nodes + [tail]) == old(Points(nodes)) + [Point(col, row)]
  {
    var tmp := head;
    ghost var i := 0;
    while tmp.next != null
      invariant 0 <= i < |nodes| && tmp == nodes[i]
      invariant i < |nodes| - 1 ==> tmp.next == nodes[i + 1]
      decreases |nodes| - i
    {
      tmp := tmp.next;
      i := i + 1;
    }
    assert i == |nodes| - 1;
    tail := new PointNode(col, row);
    tmp.next := tail;
  }

  /**
   * findNearestPoint: one pass over the list keeping the closest node seen
   * so far. `nearest == null` stands for the source's HUGE_VAL starting
   * minimum, which every real distance beats. The list is only read.
   */
  method FindNearestPoint(head: PointNode?, ghost nodes: seq<PointNode>, col: int, row: int)
    returns (nearest: PointNode?)
    requires IsList(head, nodes)
    ensures nearest == null <==> nodes == []
    ensures match NearestIndex(Points(nodes), col, row) {
      case None => nearest == null
      case Some(k) => k < |nodes| && nearest == nodes[k]
    }
  {
    ghost var ps := Points(nodes);
    nearest := null;
    var minDistance := 0;
    var curr := head;
    ghost var i := 0;
    while curr != null
      invariant 0 <= i <= |nodes|
      invariant curr == if i < |nodes| then nodes[i] else null
      invariant match NearestIndex(ps[..i], col, row) {
        case None => nearest == null
        case Some(k) => k < i && nearest == nodes[k] && minDistance == Dist2(ps[k], col, row)
      }
      decreases |nodes| - i
    {
      var tmpDistance := Dist2(Point(curr.col, curr.row), col, row);
      assert ps[..i + 1][..i] == ps[..i];
      if nearest == null || tmpDistance < minDistance {
        minDistance := tmpDistance;
        nearest := curr;
      }
      curr := curr.next;
      i := i + 1;
    }
    assert ps[..i] == ps;
  }
}
