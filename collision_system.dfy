/**
 * CollisionSystem: the behaviour module that requires a transform and a
 * box collider, and on each update compares every unordered pair of its
 * roster for axis-aligned bounding-box overlap.  A detected collision is
 * only logged.
 */
module CollisionSystem {
  import opened Signatures
  import opened ComponentIds
  import opened Entities
  import opened Systems

  const BoxCollider: TypeName := "BoxColliderComponent"

  /** A box in whole units: left, top, width, height. */
  datatype Box = Box(x: int, y: int, w: int, h: int)

  /**
   * The overlap test on the two boxes' coordinates, with strict
   * inequalities.  Passing it needs positive combined extents on both axes.
   */
  predicate CheckAABBCollision(aX: int, aY: int, aW: int, aH: int, bX: int, bY: int, bW: int, bH: int)
    ensures CheckAABBCollision(aX, aY, aW, aH, bX, bY, bW, bH) ==> aW + bW > 0 && aH + bH > 0
  {
    aX < bX + bW &&
    aX + aW > bX &&
    aY < bY + bH &&
    aY + aH > bY
  }

  predicate Collide(a: Box, b: Box) {
    CheckAABBCollision(a.x, a.y, a.w, a.h, b.x, b.y, b.w, b.h)
  }

  /** The unit cell at (px, py) lies in the box (the box covers [x, x+w) by [y, y+h)). */
  predicate Inside(px: int, py: int, b: Box) {
    b.x <= px < b.x + b.w && b.y <= py < b.y + b.h
  }

  /** Boxes sharing a unit cell always collide. */
  lemma SharedCellCollides(a: Box, b: Box, px: int, py: int)
    requires Inside(px, py, a) && Inside(px, py, b)
    ensures Collide(a, b)
  {
  }

  /** For boxes of positive size the converse holds too: colliding boxes share a unit cell. */
  lemma CollideIffSharedCell(a: Box, b: Box)
    requires a.w > 0 && a.h > 0 && b.w > 0 && b.h > 0
    ensures Collide(a, b) <==> exists px, py :: Inside(px, py, a) && Inside(px, py, b)
  {
    if Collide(a, b) {
      var px := if a.x < b.x then b.x else a.x;
      var py := if a.y < b.y then b.y else a.y;
      assert Inside(px, py, a) && Inside(px, py, b);
    }
  }

  /**
   * Without that requirement a box of zero width still collides with a box
   * whose open horizontal extent contains its left edge, although the two
   * share no unit cell.
   */
  lemma EmptyBoxCanCollide()
    ensures Collide(Box(5, 0, 0, 1), Box(0, 0, 10, 10))
    ensures !Inside(5, 0, Box(5, 0, 0, 1))
  {
  }

  /** Swapping the two boxes does not change the answer. */
  lemma CollideSymmetric(a: Box, b: Box)
    ensures Collide(a, b) <==> Collide(b, a)
  {
  }

  /** Boxes that only touch along an edge do not collide. */
  lemma TouchingDoNotCollide(a: Box, b: Box)
    requires a.x + a.w == b.x || a.y + a.h == b.y
    ensures !Collide(a, b)
  {
  }

  /** A box collides with itself exactly when it has positive width and height. */
  lemma SelfCollision(a: Box)
    ensures Collide(a, a) <==> a.w > 0 && a.h > 0
  {
  }

  /**
   * The constructor: requires the transform and the box collider.  The
   * requires says both ids (the second fetched after the first) fit in a
   * signature.
   */
  method Create(ids: ComponentIdTable) returns (system: System)
    requires ids.Valid()
    requires ids.IdOf(Transform) < MaxComponents
    requires ids.IdAfter(Transform, BoxCollider) < MaxComponents
    modifies ids
    ensures fresh(system) && system.Valid() && ids.Valid()
    ensures system.entities == []
    ensures Transform in ids.ids && BoxCollider in ids.ids
    ensures ids.ids == old(ids.ids)[Transform := old(ids.IdOf(Transform))][BoxCollider := old(ids.IdAfter(Transform, BoxCollider))]
    ensures ids.nextId == old(ids.nextId) + (if Transform in old(ids.ids) then 0 else 1)
      + (if BoxCollider in old(ids.ids) then 0 else 1)
    ensures system.componentSignature == {ids.ids[Transform], ids.ids[BoxCollider]}
  {
    system := new System();
    system.RequireComponent(ids, Transform);
    system.RequireComponent(ids, BoxCollider);
  }

  /** (i, k) for every k with i < k < j, by increasing k: one pass of the inner loop. */
  function Row(i: nat, j: nat): seq<(nat, nat)>
    decreases j
  {
    if j <= i + 1 then [] else Row(i, j - 1) + [(i, j - 1)]
  }

  /** The pairs the nested loops visit while the outer position is below m. */
  function PairsBelow(m: nat, n: nat): seq<(nat, nat)> {
    if m == 0 then [] else PairsBelow(m - 1, n) + Row(m - 1, n)
  }

  /** Every pair the update visits over a roster of n entities, in visiting order. */
  function AllPairs(n: nat): seq<(nat, nat)> {
    PairsBelow(n, n)
  }

  predicate LexLess(p: (nat, nat), q: (nat, nat)) {
    p.0 < q.0 || (p.0 == q.0 && p.1 < q.1)
  }

  /** Strictly increasing in lexicographic order, hence free of repetitions. */
  predicate StrictlyOrdered(ps: seq<(nat, nat)>) {
    forall a, b :: 0 <= a < b < |ps| ==> LexLess(ps[a], ps[b])
  }

  lemma {:induction false} RowShape(i: nat, j: nat)
    ensures StrictlyOrdered(Row(i, j))
    ensures forall p :: p in Row(i, j) <==> p.0 == i && i < p.1 < j
  {
    if j > i + 1 {
      RowShape(i, j - 1);
      var r := Row(i, j - 1);
      assert Row(i, j) == r + [(i, j - 1)];
      forall a, b | 0 <= a < b < |Row(i, j)|
        ensures LexLess(Row(i, j)[a], Row(i, j)[b])
      {
        if b == |r| {
          assert r[a] in r;
        }
      }
    }
  }

  lemma {:induction false} PairsBelowShape(m: nat, n: nat)
    ensures StrictlyOrdered(PairsBelow(m, n))
    ensures forall p :: p in PairsBelow(m, n) <==> p.0 < m && p.0 < p.1 < n
  {
    if m > 0 {
      PairsBelowShape(m - 1, n);
      RowShape(m - 1, n);
      var x, y := PairsBelow(m - 1, n), Row(m - 1, n);
      forall a, b | 0 <= a < b < |x + y|
        ensures LexLess((x + y)[a], (x + y)[b])
      {
        if a < |x| && b >= |x| {
          assert x[a] in x;
          assert y[b - |x|] in y;
        }
      }
    }
  }

  /**
   * The update visits exactly the position pairs (i, j) with i < j < n,
   * each once (the visiting order is strictly increasing), and never a
   * position with itself.
   */
  lemma AllPairsExactlyOnce(n: nat)
    ensures forall p :: p in AllPairs(n) <==> p.0 < p.1 < n
    ensures StrictlyOrdered(AllPairs(n))
    ensures forall a, b :: 0 <= a < b < |AllPairs(n)| ==> AllPairs(n)[a] != AllPairs(n)[b]
    ensures forall a :: 0 <= a < |AllPairs(n)| ==> AllPairs(n)[a].0 != AllPairs(n)[a].1
  {
    PairsBelowShape(n, n);
    forall a | 0 <= a < |AllPairs(n)|
      ensures AllPairs(n)[a].0 != AllPairs(n)[a].1
    {
      assert AllPairs(n)[a] in AllPairs(n);
    }
  }

  /** Pair p names two roster positions whose boxes collide. */
  predicate Hit(es: seq<Entity>, boxOf: Entity -> Box, p: (nat, nat)) {
    p.0 < |es| && p.1 < |es| && Collide(boxOf(es[p.0]), boxOf(es[p.1]))
  }

  /** What the update logs for the visited pairs `ps`: the colliding ones, in visiting order. */
  function Collisions(es: seq<Entity>, boxOf: Entity -> Box, ps: seq<(nat, nat)>): seq<(Entity, Entity)> {
    if ps == [] then []
    else
      var p := ps[|ps| - 1];
      Collisions(es, boxOf, ps[..|ps| - 1]) + (if Hit(es, boxOf, p) then [(es[p.0], es[p.1])] else [])
  }

  lemma CollisionsSnoc(es: seq<Entity>, boxOf: Entity -> Box, ps: seq<(nat, nat)>, p: (nat, nat))
    ensures Collisions(es, boxOf, ps + [p]) ==
      Collisions(es, boxOf, ps) + (if Hit(es, boxOf, p) then [(es[p.0], es[p.1])] else [])
  {
    assert (ps + [p])[..|ps|] == ps;
  }

  /** The log of a concatenation of visits is the concatenation of the logs. */
  lemma {:induction false} CollisionsConcat(es: seq<Entity>, boxOf: Entity -> Box, ps: seq<(nat, nat)>, qs: seq<(nat, nat)>)
    ensures Collisions(es, boxOf, ps + qs) == Collisions(es, boxOf, ps) + Collisions(es, boxOf, qs)
  {
    if qs == [] {
      assert ps + qs == ps;
    } else {
      var init := qs[..|qs| - 1];
      assert (ps + qs)[..|ps + qs| - 1] == ps + init;
      CollisionsConcat(es, boxOf, ps, init);
    }
  }

  /** Every logged pair comes from a visited position pair whose boxes collide. */
  lemma {:induction false} CollisionsSources(es: seq<Entity>, boxOf: Entity -> Box, ps: seq<(nat, nat)>)
    ensures forall q :: q in Collisions(es, boxOf, ps) ==>
      exists k :: 0 <= k < |ps| && Hit(es, boxOf, ps[k]) && q == (es[ps[k].0], es[ps[k].1])
  {
    if ps != [] {
      var init := ps[..|ps| - 1];
      CollisionsSources(es, boxOf, init);
      forall q | q in Collisions(es, boxOf, ps)
        ensures exists k :: 0 <= k < |ps| && Hit(es, boxOf, ps[k]) && q == (es[ps[k].0], es[ps[k].1])
      {
        if q in Collisions(es, boxOf, init) {
          var k :| 0 <= k < |init| && Hit(es, boxOf, init[k]) && q == (es[init[k].0], es[init[k].1]);
          assert ps[k] == init[k];
        } else {
          assert Hit(es, boxOf, ps[|ps| - 1]);
        }
      }
    }
  }

  /** A logged pair is a colliding visited pair, and every colliding visited pair is logged. */
  lemma {:induction false} CollisionsMembers(es: seq<Entity>, boxOf: Entity -> Box, ps: seq<(nat, nat)>, k: nat)
    requires k < |ps|
    ensures Hit(es, boxOf, ps[k]) ==> (es[ps[k].0], es[ps[k].1]) in Collisions(es, boxOf, ps)
    ensures forall q :: q in Collisions(es, boxOf, ps) ==>
      exists m :: 0 <= m < |ps| && Hit(es, boxOf, ps[m]) && q == (es[ps[m].0], es[ps[m].1])
  {
    CollisionsSources(es, boxOf, ps);
    var init := ps[..|ps| - 1];
    if k < |ps| - 1 {
      CollisionsMembers(es, boxOf, init, k);
    }
  }

  /**
   * `Update`: over a copy of the roster, the outer loop takes each position
   * i and the inner loop each later position j; every colliding pair is
   * logged.  Nothing is modified.  `boxOf` gives an entity's collider box
   * (transform position plus collider offset, collider width and height).
   * `tested` lists the position pairs compared, in order; `logged` the
   * entity pairs reported as colliding.
   */
  method Update(system: System, boxOf: Entity -> Box) returns (tested: seq<(nat, nat)>, logged: seq<(Entity, Entity)>)
    ensures tested == AllPairs(|system.entities|)
    ensures logged == Collisions(system.entities, boxOf, tested)
  {
    var entities := system.GetSystemEntities();
    tested, logged := [], [];
    var i := 0;
    while i < |entities|
      invariant 0 <= i <= |entities|
      invariant tested == PairsBelow(i, |entities|)
      invariant logged == Collisions(entities, boxOf, tested)
    {
      var row, hits := CompareWithLater(entities, boxOf, i);
      CollisionsConcat(entities, boxOf, tested, row);
      tested, logged := tested + row, logged + hits;
      i := i + 1;
    }
  }

  /**
   * The inner loop of `Update` for outer position i: compares entity i with
   * every later entity j.  `row` lists the pairs (i, j) compared, `hits`
   * the entity pairs that collide.
   */
  method CompareWithLater(entities: seq<Entity>, boxOf: Entity -> Box, i: nat)
    returns (row: seq<(nat, nat)>, hits: seq<(Entity, Entity)>)
    requires i < |entities|
    ensures row == Row(i, |entities|)
    ensures hits == Collisions(entities, boxOf, row)
  {
    row, hits := [], [];
    var a := boxOf(entities[i]);
    var j := i + 1;
    while j < |entities|
      invariant i + 1 <= j <= |entities|
      invariant row == Row(i, j)
      invariant hits == Collisions(entities, boxOf, row)
    {
      var b := boxOf(entities[j]);
      CollisionsSnoc(entities, boxOf, row, (i, j));
      row := row + [(i, j)];
      if CheckAABBCollision(a.x, a.y, a.w, a.h, b.x, b.y, b.w, b.h) {
        hits := hits + [(entities[i], entities[j])];
      }
      j := j + 1;
    }
  }

  /**
   * Two overlapping 32 by 32 colliders at (10, 10) and (20, 20): one update
   * logs exactly one collision, for that pair.
   */
  lemma OverlappingPairLoggedOnce(a: Entity, b: Entity, boxOf: Entity -> Box)
    requires a != b
    requires boxOf(a) == Box(10, 10, 32, 32) && boxOf(b) == Box(20, 20, 32, 32)
    ensures AllPairs(2) == [(0, 1)]
    ensures Collisions([a, b], boxOf, AllPairs(2)) == [(a, b)]
  {
    assert Row(0, 2) == [(0, 1)];
    assert Row(1, 2) == [];
    assert AllPairs(2) == [(0, 1)];
    CollisionsSnoc([a, b], boxOf, [], (0, 1));
  }
}
