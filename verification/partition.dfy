/**
 * The spatial partition of RayTracer/Partition.h and Partition.cpp: a binary
 * tree of boxes whose leaves hold object lists, built by inserting objects
 * and queried for the nearest hit along a ray.
 *
 * The tree is generic in the object type; the three things the partition
 * asks of an object are parameters: its bounds (for the root box), whether
 * it touches a box (AABB::contains(shape), i.e. Shape::isInside) and its
 * intersection with a ray.  Pointers become an immutable datatype; a null
 * child is Null.
 */
module Partition {
  import opened Wrappers
  import opened Geometry
  import opened Boxes

  /** A leaf splits once it holds more than this many times its parentObjectCount. */
  const SplitThreshold: nat := 5

  datatype Tree<T> =
    | Null
    | Node(count: nat, box: Aabb, left: Tree<T>, right: Tree<T>, objects: seq<T>)

  /** PartitionNode::isLeaf: both children are null. */
  predicate IsLeaf<T>(t: Tree<T>)
    requires t.Node?
  {
    t.left.Null? && t.right.Null?
  }

  /** PartitionNode::isEmpty: the node's own object list is empty. */
  predicate IsEmpty<T>(t: Tree<T>)
    requires t.Node?
  {
    |t.objects| == 0
  }

  function Size<T>(t: Tree<T>): nat {
    match t
    case Null => 0
    case Node(_, _, left, right, _) => 1 + Size(left) + Size(right)
  }

  /**
   * The split test `size / (float)parentObjectCount > splitThreshold`.  With
   * a count of 0 the quotient is +infinity (the list is never empty here),
   * so the test passes.
   */
  function SplitDue(size: nat, count: nat): (r: bool)
    ensures count > 0 ==> (r <==> (size as real) / (count as real) > SplitThreshold as real)
    ensures 0 < size <= count ==> !r
  {
    count == 0 || size > SplitThreshold * count
  }

  /** How much splitting an insertion can still cause; it orders the mutual recursion below. */
  ghost function Budget<T>(t: Tree<T>): nat {
    match t
    case Null => 0
    case Node(count, _, left, right, objects) =>
      if left.Null? && right.Null? then (if SplitDue(|objects| + 1, count) then 2 else 0)
      else
        var a, b := Budget(left), Budget(right);
        if a < b then b else a
  }

  /**
   * insert(obj, node).  A leaf appends the object unconditionally and splits
   * once the split test passes; an interior node forwards the object to each
   * non-null child whose box the object touches -- possibly both, possibly
   * neither.
   */
  function Insert<T>(t: Tree<T>, obj: T, inside: (T, Aabb) -> bool): (r: Tree<T>)
    requires t.Node?
    ensures r.Node? && r.box == t.box && r.count == t.count
    ensures IsLeaf(t) ==> r.objects == t.objects + [obj]
    ensures IsLeaf(t) && !SplitDue(|t.objects| + 1, t.count) ==> r == t.(objects := t.objects + [obj])
    ensures IsLeaf(t) && SplitDue(|t.objects| + 1, t.count) ==> !IsLeaf(r)
    ensures !IsLeaf(t) ==> r.objects == t.objects && !IsLeaf(r)
    decreases Budget(t), 0, Size(t)
  {
    if IsLeaf(t) then
      var appended := t.(objects := t.objects + [obj]);
      if SplitDue(|appended.objects|, appended.count) then Split(appended, inside) else appended
    else
      var left := if t.left.Node? && inside(obj, t.left.box) then Insert(t.left, obj, inside) else t.left;
      var right := if t.right.Node? && inside(obj, t.right.box) then Insert(t.right, obj, inside) else t.right;
      t.(left := left, right := right)
  }

  /**
   * split: only a childless node is split.  Its children get the two halves
   * of its box and a parentObjectCount equal to its size, and every one of
   * its objects is inserted into both; the node keeps its own list.
   */
  function Split<T>(t: Tree<T>, inside: (T, Aabb) -> bool): (r: Tree<T>)
    requires t.Node?
    ensures r.Node? && r.box == t.box && r.count == t.count && r.objects == t.objects
    ensures IsLeaf(t) ==>
      && r.left == Node(|t.objects|, SplitLeft(t.box), Null, Null, t.objects)
      && r.right == Node(|t.objects|, SplitRight(t.box), Null, Null, t.objects)
    ensures !IsLeaf(t) ==> r == t
    decreases 1, 2, 0
  {
    if !IsLeaf(t) then t
    else
      var n := |t.objects|;
      var children := Fill(Node(n, SplitLeft(t.box), Null, Null, []), Node(n, SplitRight(t.box), Null, Null, []), t.objects, inside);
      t.(left := children.0, right := children.1)
  }

  /**
   * The loop of split: insert each object into the left child, then into the
   * right child, then redirect an empty child to its non-empty sibling.
   * Both children grow in step, so the redirection never fires.
   */
  function Fill<T>(l: Tree<T>, r: Tree<T>, objs: seq<T>, inside: (T, Aabb) -> bool): (res: (Tree<T>, Tree<T>))
    requires l.Node? && r.Node? && IsLeaf(l) && IsLeaf(r)
    requires l.count == r.count && |l.objects| == |r.objects| && |l.objects| + |objs| <= l.count
    ensures res.0 == l.(objects := l.objects + objs)
    ensures res.1 == r.(objects := r.objects + objs)
    decreases 0, 1, |objs|
  {
    if |objs| == 0 then (l, r)
    else
      var l1 := Insert(l, objs[0], inside);
      var r1 := Insert(r, objs[0], inside);
      var leftEmpty, rightEmpty := IsEmpty(l1), IsEmpty(r1);
      var (l2, r2) :=
        if leftEmpty && !rightEmpty then (r1, r1)
        else if rightEmpty && !leftEmpty then (l1, l1)
        else (l1, r1);
      assert l.objects + objs == l2.objects + objs[1..];
      assert r.objects + objs == r2.objects + objs[1..];
      Fill(l2, r2, objs[1..], inside)
  }

  /**
   * At an interior node the object goes to each child whose box it touches
   * -- a child leaf then holds it last -- and a child it does not touch is
   * left as it was.
   */
  lemma InsertForwards<T>(t: Tree<T>, obj: T, inside: (T, Aabb) -> bool)
    requires t.Node? && !IsLeaf(t)
    ensures var r := Insert(t, obj, inside);
      && (r.left.Null? <==> t.left.Null?) && (r.right.Null? <==> t.right.Null?)
      && (t.left.Node? && !inside(obj, t.left.box) ==> r.left == t.left)
      && (t.right.Node? && !inside(obj, t.right.box) ==> r.right == t.right)
      && (t.left.Node? && inside(obj, t.left.box) && IsLeaf(t.left) ==> r.left.objects == t.left.objects + [obj])
      && (t.right.Node? && inside(obj, t.right.box) && IsLeaf(t.right) ==> r.right.objects == t.right.objects + [obj])
  {
  }

  /** Splitting a non-empty leaf leaves two non-empty leaf children, which is why split's redirection branches are dead. */
  lemma SplitChildrenNonEmpty<T>(t: Tree<T>, inside: (T, Aabb) -> bool)
    requires t.Node? && IsLeaf(t) && |t.objects| > 0
    ensures var r := Split(t, inside);
      && !IsLeaf(r)
      && IsLeaf(r.left) && !IsEmpty(r.left)
      && IsLeaf(r.right) && !IsEmpty(r.right)
  {
  }

  /** After construction, further insertions can split: a leaf counted for 1 object splits at its sixth. */
  lemma LaterInsertSplits<T>(box: Aabb, a: T, inside: (T, Aabb) -> bool)
    ensures var t := Node(1, box, Null, Null, [a, a, a, a, a]);
      !IsLeaf(Insert(t, a, inside))
  {
  }

  // ---------------------------------------------------------------------------
  // Queries

  /** One step of the leaf loop: take the i-th object's hit if it is valid and strictly nearer. */
  function Step(acc: Intersection, current: Intersection, i: nat): Intersection {
    if current.Some? && (current.value.dist < (if acc.Some? then acc.value.dist else 0.0) || acc.None?)
    then Some(current.value.(objectIndex := i))
    else acc
  }

  /**
   * PartitionNode::findClosestIntersection over the first n objects: the
   * nearest valid hit, the earliest on ties, stamped with its position in
   * this leaf's list.
   */
  function Scan<T>(objects: seq<T>, ray: Ray, hit: (T, Ray) -> Intersection, n: nat): (r: Intersection)
    requires n <= |objects|
    ensures r.None? <==> forall i :: 0 <= i < n ==> hit(objects[i], ray).None?
    ensures r.Some? ==> forall i :: 0 <= i < n && hit(objects[i], ray).Some? ==> r.value.dist <= hit(objects[i], ray).value.dist
    ensures r.Some? ==>
      var k := r.value.objectIndex;
      && 0 <= k < n
      && hit(objects[k], ray).Some?
      && r.value == hit(objects[k], ray).value.(objectIndex := k)
      && forall j :: 0 <= j < k && hit(objects[j], ray).Some? ==> hit(objects[j], ray).value.dist > r.value.dist
    decreases n
  {
    if n == 0 then None
    else Step(Scan(objects, ray, hit, n - 1), hit(objects[n - 1], ray), n - 1)
  }

  /** The result of the leaf scan over a whole list. */
  function LeafScan<T>(objects: seq<T>, ray: Ray, hit: (T, Ray) -> Intersection): Intersection {
    Scan(objects, ray, hit, |objects|)
  }

  /**
   * The choice between the children's results: no hit when neither hits,
   * else the valid one, else the nearer, the left one on ties.
   */
  function Nearer(l: Intersection, r: Intersection): (res: Intersection)
    ensures res.None? <==> l.None? && r.None?
    ensures res == l || res == r
    ensures res.Some? && l.Some? ==> res.value.dist <= l.value.dist
    ensures res.Some? && r.Some? ==> res.value.dist <= r.value.dist
    ensures l.Some? && r.Some? && l.value.dist == r.value.dist ==> res == l
  {
    if !(l.Some? || r.Some?) then None
    else if (l.Some? && r.None?) || (l.Some? && r.Some? && l.value.dist <= r.value.dist) then l
    else r
  }

  /** Partition::intersect: no hit for a null node or a missed box; a leaf scans; an interior node picks the nearer child result. */
  function Query<T>(t: Tree<T>, ray: Ray, hit: (T, Ray) -> Intersection): (r: Intersection)
    ensures t.Null? ==> r.None?
    ensures t.Node? && !IsValid(Boxes.Intersect(t.box, ray)) ==> r.None?
    ensures t.Node? && IsValid(Boxes.Intersect(t.box, ray)) && IsLeaf(t) ==> r == LeafScan(t.objects, ray, hit)
  {
    match t
    case Null => None
    case Node(_, box, left, right, objects) =>
      if !IsValid(Boxes.Intersect(box, ray)) then None
      else if IsLeaf(t) then LeafScan(objects, ray, hit)
      else Nearer(Query(left, ray, hit), Query(right, ray, hit))
  }

  /** The objects of every leaf the query reaches: those whose box, and every ancestor's box, the ray hits. */
  function Reached<T>(t: Tree<T>, ray: Ray): seq<T> {
    match t
    case Null => []
    case Node(_, box, left, right, objects) =>
      if !IsValid(Boxes.Intersect(box, ray)) then []
      else if IsLeaf(t) then objects
      else Reached(left, ray) + Reached(right, ray)
  }

  /**
   * The query finds the nearest hit among the reached objects: no hit
   * exactly when none of them is hit, otherwise the distance of one of
   * them, and no greater than any of theirs.
   */
  lemma {:induction false} QueryIsNearestReached<T>(t: Tree<T>, ray: Ray, hit: (T, Ray) -> Intersection)
    ensures var r := Query(t, ray, hit);
      var objs := Reached(t, ray);
      && (r.None? <==> forall o :: o in objs ==> hit(o, ray).None?)
      && (r.Some? ==> exists o :: o in objs && hit(o, ray).Some? && hit(o, ray).value.dist == r.value.dist)
      && (r.Some? ==> forall o :: o in objs && hit(o, ray).Some? ==> r.value.dist <= hit(o, ray).value.dist)
  {
    match t
    case Null =>
    case Node(_, box, left, right, objects) =>
      if !IsValid(Boxes.Intersect(box, ray)) {
      } else if IsLeaf(t) {
        var r := Query(t, ray, hit);
        if r.Some? {
          var k := r.value.objectIndex;
          assert objects[k] in objects;
        }
        forall o | o in objects && hit(o, ray).Some?
          ensures r.Some? && r.value.dist <= hit(o, ray).value.dist
        {
          var i :| 0 <= i < |objects| && objects[i] == o;
        }
      } else {
        QueryIsNearestReached(left, ray, hit);
        QueryIsNearestReached(right, ray, hit);
      }
  }

  // ---------------------------------------------------------------------------
  // Construction

  /** The root box: the empty box expanded by every object's bounds, in order. */
  function Enclose<T>(objs: seq<T>, lo: T -> Vec3, hi: T -> Vec3): (box: Aabb)
    ensures box.EmptyBox? <==> |objs| == 0
    ensures forall o :: o in objs ==> Ordered(box.min, lo(o)) && Ordered(hi(o), box.max)
    decreases |objs|
  {
    if |objs| == 0 then EmptyBox
    else
      var last := objs[|objs| - 1];
      var prefix := objs[..|objs| - 1];
      assert forall o :: o in objs ==> o in prefix || o == last;
      Expand(Enclose(prefix, lo, hi), lo(last), hi(last))
  }

  /** Inserting a list of objects one by one. */
  function InsertAll<T>(t: Tree<T>, objs: seq<T>, inside: (T, Aabb) -> bool): (r: Tree<T>)
    requires t.Node?
    ensures r.Node? && r.count == t.count && r.box == t.box
    decreases |objs|
  {
    if |objs| == 0 then t else InsertAll(Insert(t, objs[0], inside), objs[1..], inside)
  }

  /** While a leaf holds no more than its count, insertions only append. */
  lemma {:induction false} InsertAllAppends<T>(t: Tree<T>, objs: seq<T>, inside: (T, Aabb) -> bool)
    requires t.Node? && IsLeaf(t)
    requires |t.objects| + |objs| <= t.count
    ensures InsertAll(t, objs, inside) == t.(objects := t.objects + objs)
    decreases |objs|
  {
    if |objs| > 0 {
      var next := Insert(t, objs[0], inside);
      assert next == t.(objects := t.objects + [objs[0]]);
      InsertAllAppends(next, objs[1..], inside);
      assert t.objects + [objs[0]] + objs[1..] == t.objects + objs;
    }
  }

  /** The Partition constructor: a root over the enclosing box, counted for all objects, then each object inserted. */
  function Build<T>(objs: seq<T>, lo: T -> Vec3, hi: T -> Vec3, inside: (T, Aabb) -> bool): (root: Tree<T>)
    ensures root.Node? && root.count == |objs| && root.box == Enclose(objs, lo, hi)
  {
    InsertAll(Node(|objs|, Enclose(objs, lo, hi), Null, Null, []), objs, inside)
  }

  /** The constructor never splits: the tree is one leaf holding every object, in input order. */
  lemma BuildIsOneLeaf<T>(objs: seq<T>, lo: T -> Vec3, hi: T -> Vec3, inside: (T, Aabb) -> bool)
    ensures Build(objs, lo, hi, inside) == Node(|objs|, Enclose(objs, lo, hi), Null, Null, objs)
  {
    InsertAllAppends(Node(|objs|, Enclose(objs, lo, hi), Null, Null, []), objs, inside);
  }

  /** Partition::insert(obj): insert at the root. */
  function AddObject<T>(root: Tree<T>, obj: T, inside: (T, Aabb) -> bool): (r: Tree<T>)
    requires root.Node?
    ensures r.Node? && r.box == root.box
  {
    Insert(root, obj, inside)
  }

  /** Partition::findClosestintersection: the query from the root. */
  function FindClosest<T>(root: Tree<T>, ray: Ray, hit: (T, Ray) -> Intersection): Intersection {
    Query(root, ray, hit)
  }

  /**
   * On a freshly built partition the query is the leaf scan over all input
   * objects when the ray hits the enclosing box, and no hit otherwise; with
   * no objects there is never a hit.
   */
  lemma BuildThenQuery<T>(objs: seq<T>, lo: T -> Vec3, hi: T -> Vec3, inside: (T, Aabb) -> bool, ray: Ray, hit: (T, Ray) -> Intersection)
    ensures var box := Enclose(objs, lo, hi);
      FindClosest(Build(objs, lo, hi, inside), ray, hit) ==
        if IsValid(Boxes.Intersect(box, ray)) then LeafScan(objs, ray, hit) else None
    ensures |objs| == 0 ==> FindClosest(Build(objs, lo, hi, inside), ray, hit).None?
  {
    BuildIsOneLeaf(objs, lo, hi, inside);
  }
}
