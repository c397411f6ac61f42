/**
 * A nested structure of leaves, standing in for the structures accepted by
 * TensorFlow's `nest` library: a leaf, or an ordered container of nested
 * structures. Flattening visits the leaves left to right.
 */
module Nest {

  datatype Nest<T> = Leaf(value: T) | Node(children: seq<Nest<T>>)

  /** The leaves of `n`, left to right (`nest.flatten`). */
  function Flatten<T>(n: Nest<T>): seq<T>
    decreases n
  {
    match n
    case Leaf(v) => [v]
    case Node(cs) => FlattenAll(cs)
  }

  /** The leaves of a sequence of structures, concatenated in order. */
  function FlattenAll<T>(cs: seq<Nest<T>>): seq<T>
    decreases cs
  {
    if cs == [] then [] else Flatten(cs[0]) + FlattenAll(cs[1..])
  }

  /** Two structures have the same nesting: same container lengths at every level. */
  predicate SameStructure<T>(x: Nest<T>, y: Nest<T>)
    decreases x
  {
    match (x, y)
    case (Leaf(_), Leaf(_)) => true
    case (Node(xs), Node(ys)) => SameStructureAll(xs, ys)
    case _ => false
  }

  predicate SameStructureAll<T>(xs: seq<Nest<T>>, ys: seq<Nest<T>>)
    decreases xs
  {
    |xs| == |ys| && (xs == [] || (SameStructure(xs[0], ys[0]) && SameStructureAll(xs[1..], ys[1..])))
  }

  /** `nest.map_structure(f, n)`: apply `f` to every leaf, keeping the nesting. */
  function MapStructure<T>(f: T -> T, n: Nest<T>): Nest<T>
    decreases n
  {
    match n
    case Leaf(v) => Leaf(f(v))
    case Node(cs) => Node(MapAll(f, cs))
  }

  function MapAll<T>(f: T -> T, cs: seq<Nest<T>>): seq<Nest<T>>
    decreases cs
  {
    if cs == [] then [] else [MapStructure(f, cs[0])] + MapAll(f, cs[1..])
  }

  /** Structures with the same nesting have the same number of leaves, so
      their flattenings can be zipped position by position. */
  lemma {:induction false} SameStructureFlattenLength<T>(x: Nest<T>, y: Nest<T>)
    requires SameStructure(x, y)
    ensures |Flatten(x)| == |Flatten(y)|
    decreases x
  {
    match (x, y)
    case (Leaf(_), Leaf(_)) =>
    case (Node(xs), Node(ys)) => SameStructureAllFlattenLength(xs, ys);
  }

  lemma {:induction false} SameStructureAllFlattenLength<T>(xs: seq<Nest<T>>, ys: seq<Nest<T>>)
    requires SameStructureAll(xs, ys)
    ensures |FlattenAll(xs)| == |FlattenAll(ys)|
    decreases xs
  {
    if xs != [] {
      SameStructureFlattenLength(xs[0], ys[0]);
      SameStructureAllFlattenLength(xs[1..], ys[1..]);
    }
  }

  lemma {:induction false} SameStructureReflexive<T>(x: Nest<T>)
    ensures SameStructure(x, x)
    decreases x
  {
    match x
    case Leaf(_) =>
    case Node(xs) => SameStructureAllReflexive(xs);
  }

  lemma {:induction false} SameStructureAllReflexive<T>(xs: seq<Nest<T>>)
    ensures SameStructureAll(xs, xs)
    decreases xs
  {
    if xs != [] {
      SameStructureReflexive(xs[0]);
      SameStructureAllReflexive(xs[1..]);
    }
  }

  lemma {:induction false} SameStructureSymmetric<T>(x: Nest<T>, y: Nest<T>)
    ensures SameStructure(x, y) == SameStructure(y, x)
    decreases x
  {
    match (x, y)
    case (Node(xs), Node(ys)) => SameStructureAllSymmetric(xs, ys);
    case _ =>
  }

  lemma {:induction false} SameStructureAllSymmetric<T>(xs: seq<Nest<T>>, ys: seq<Nest<T>>)
    ensures SameStructureAll(xs, ys) == SameStructureAll(ys, xs)
    decreases xs
  {
    if xs != [] && |xs| == |ys| {
      SameStructureSymmetric(xs[0], ys[0]);
      SameStructureAllSymmetric(xs[1..], ys[1..]);
    }
  }

  lemma {:induction false} SameStructureTransitive<T>(x: Nest<T>, y: Nest<T>, z: Nest<T>)
    requires SameStructure(x, y) && SameStructure(y, z)
    ensures SameStructure(x, z)
    decreases x
  {
    match (x, y, z)
    case (Leaf(_), Leaf(_), Leaf(_)) =>
    case (Node(xs), Node(ys), Node(zs)) => SameStructureAllTransitive(xs, ys, zs);
  }

  lemma {:induction false} SameStructureAllTransitive<T>(xs: seq<Nest<T>>, ys: seq<Nest<T>>, zs: seq<Nest<T>>)
    requires SameStructureAll(xs, ys) && SameStructureAll(ys, zs)
    ensures SameStructureAll(xs, zs)
    decreases xs
  {
    if xs != [] {
      SameStructureTransitive(xs[0], ys[0], zs[0]);
      SameStructureAllTransitive(xs[1..], ys[1..], zs[1..]);
    }
  }

  /** `map_structure` keeps the nesting of its input. */
  lemma {:induction false} MapStructureSameStructure<T>(f: T -> T, n: Nest<T>)
    ensures SameStructure(MapStructure(f, n), n)
    decreases n
  {
    match n
    case Leaf(_) =>
    case Node(cs) => MapAllSameStructure(f, cs);
  }

  lemma {:induction false} MapAllSameStructure<T>(f: T -> T, cs: seq<Nest<T>>)
    ensures SameStructureAll(MapAll(f, cs), cs)
    decreases cs
  {
    if cs != [] {
      var ms := MapAll(f, cs);
      assert ms[0] == MapStructure(f, cs[0]) && ms[1..] == MapAll(f, cs[1..]);
      MapStructureSameStructure(f, cs[0]);
      MapAllSameStructure(f, cs[1..]);
    }
  }

  /** The leaves of `map_structure(f, n)` are `f` applied to the leaves of `n`, in order. */
  lemma {:induction false} FlattenMapStructure<T>(f: T -> T, n: Nest<T>)
    ensures |Flatten(MapStructure(f, n))| == |Flatten(n)|
    ensures forall i :: 0 <= i < |Flatten(n)| ==> Flatten(MapStructure(f, n))[i] == f(Flatten(n)[i])
    decreases n
  {
    match n
    case Leaf(_) =>
    case Node(cs) => FlattenMapAll(f, cs);
  }

  lemma {:induction false} FlattenMapAll<T>(f: T -> T, cs: seq<Nest<T>>)
    ensures |FlattenAll(MapAll(f, cs))| == |FlattenAll(cs)|
    ensures forall i :: 0 <= i < |FlattenAll(cs)| ==> FlattenAll(MapAll(f, cs))[i] == f(FlattenAll(cs)[i])
    decreases cs
  {
    if cs != [] {
      var ms := MapAll(f, cs);
      assert ms[0] == MapStructure(f, cs[0]) && ms[1..] == MapAll(f, cs[1..]);
      FlattenMapStructure(f, cs[0]);
      FlattenMapAll(f, cs[1..]);
    }
  }
}
