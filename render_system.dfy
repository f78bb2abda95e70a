/**
 * RenderSystem: the behaviour module that requires a transform and a
 * sprite, and on each update collects one entry per roster entity, sorts
 * the entries by the sprite's z-index and draws them in that order.
 */
module RenderSystem {
  import opened Signatures
  import opened ComponentIds
  import opened Entities
  import opened Systems

  const Sprite: TypeName := "SpriteComponent"

  /**
   * One entry of the list to draw.  The copied transform and sprite are
   * represented by the entity they were read from and the sprite's z-index,
   * the only field the ordering looks at.
   */
  datatype Renderable = Renderable(entity: Entity, zIndex: int)

  /** Lower z-index first; equal z-indices in any order. */
  predicate SortedByZ(s: seq<Renderable>) {
    forall p, q :: 0 <= p < q < |s| ==> s[p].zIndex <= s[q].zIndex
  }

  /**
   * The constructor: requires the transform and the sprite.  The requires
   * says both ids (the second fetched after the first) fit in a signature.
   */
  method Create(ids: ComponentIdTable) returns (system: System)
    requires ids.Valid()
    requires ids.IdOf(Transform) < MaxComponents
    requires ids.IdAfter(Transform, Sprite) < MaxComponents
    modifies ids
    ensures fresh(system) && system.Valid() && ids.Valid()
    ensures system.entities == []
    ensures Transform in ids.ids && Sprite in ids.ids
    ensures ids.ids == old(ids.ids)[Transform := old(ids.IdOf(Transform))][Sprite := old(ids.IdAfter(Transform, Sprite))]
    ensures ids.nextId == old(ids.nextId) + (if Transform in old(ids.ids) then 0 else 1)
      + (if Sprite in old(ids.ids) then 0 else 1)
    ensures system.componentSignature == {ids.ids[Transform], ids.ids[Sprite]}
  {
    system := new System();
    system.RequireComponent(ids, Transform);
    system.RequireComponent(ids, Sprite);
  }

  /** Slot q of `a` does not precede any earlier slot below it in z, for every q <= hi other than skip. */
  ghost predicate SortedExcept(a: array<Renderable>, hi: int, skip: int)
    reads a
  {
    forall p, q :: 0 <= p < q <= hi && q < a.Length && q != skip ==> a[p].zIndex <= a[q].zIndex
  }

  /** Exchanges slots j - 1 and j. */
  method SwapDown(a: array<Renderable>, j: int)
    requires 0 < j < a.Length
    modifies a
    ensures a[..] == old(a[..])[j - 1 := old(a[j])][j := old(a[j - 1])]
    ensures multiset(a[..]) == multiset(old(a[..]))
  {
    a[j - 1], a[j] := a[j], a[j - 1];
  }

  /**
   * The in-place sort by z-index (an insertion sort standing in for the
   * library sort).  Only the result is modelled: sorted, and a permutation
   * of the input; the order of equal z-indices is not.
   */
  method SortByZIndex(a: array<Renderable>)
    modifies a
    ensures SortedByZ(a[..])
    ensures multiset(a[..]) == multiset(old(a[..]))
  {
    var i := 0;
    while i < a.Length
      invariant 0 <= i <= a.Length
      invariant SortedExcept(a, i - 1, -1)
      invariant multiset(a[..]) == multiset(old(a[..]))
    {
      var j := i;
      while j > 0 && a[j - 1].zIndex > a[j].zIndex
        invariant 0 <= j <= i < a.Length
        invariant SortedExcept(a, i, j)
        invariant multiset(a[..]) == multiset(old(a[..]))
      {
        SwapDown(a, j);
        j := j - 1;
      }
      i := i + 1;
    }
  }

  /**
   * `Update`: collects an entry for every roster entity in roster order,
   * sorts the entries by z-index and draws them one by one.  `zIndexOf`
   * gives an entity's sprite z-index; `drawn` is the sequence of entries in
   * the order they are handed to the renderer.
   */
  method Update(system: System, zIndexOf: Entity -> int) returns (collected: seq<Renderable>, drawn: seq<Renderable>)
    ensures |collected| == |system.entities|
    ensures forall k :: 0 <= k < |collected| ==>
      collected[k] == Renderable(system.entities[k], zIndexOf(system.entities[k]))
    ensures SortedByZ(drawn)
    ensures multiset(drawn) == multiset(collected)
  {
    var entities := system.GetSystemEntities();
    collected := [];
    var k := 0;
    while k < |entities|
      invariant 0 <= k <= |entities|
      invariant |collected| == k
      invariant forall m :: 0 <= m < k ==> collected[m] == Renderable(entities[m], zIndexOf(entities[m]))
    {
      collected := collected + [Renderable(entities[k], zIndexOf(entities[k]))];
      k := k + 1;
    }

    var renderables := new Renderable[|collected|](m requires 0 <= m < |collected| => collected[m]);
    assert renderables[..] == collected;
    SortByZIndex(renderables);

    drawn := [];
    var i := 0;
    while i < renderables.Length
      invariant 0 <= i <= renderables.Length
      invariant drawn == renderables[..i]
    {
      drawn := drawn + [renderables[i]];
      i := i + 1;
    }
    assert renderables[..i] == renderables[..];
  }
}
