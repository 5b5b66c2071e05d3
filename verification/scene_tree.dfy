/** The scene-node tree the core observes and recolours, and node addressing by path. */
module SceneTree {

  datatype Option<T> = None | Some(value: T)

  /** An opaque RGB colour (the alpha the core writes is always 1). */
  datatype Color = Color(red: real, green: real, blue: real)

  /** UIColor.red */
  const Red := Color(1.0, 0.0, 0.0)

  /** A scene node: its optional name, the colours of its geometry's materials
      (empty when it has no geometry) and its ordered children. */
  datatype Node = Node(name: Option<string>, materials: seq<Color>, children: seq<Node>)

  /** A node inside a tree, given by the child indices that lead to it from the root;
      this is how a node reference is represented. */
  type Path = seq<nat>

  predicate ValidPath(n: Node, p: Path)
    decreases p
  {
    p == [] || (p[0] < |n.children| && ValidPath(n.children[p[0]], p[1..]))
  }

  /** The node at path `p` below `n`. */
  function At(n: Node, p: Path): Node
    requires ValidPath(n, p)
    decreases p
  {
    if p == [] then n else At(n.children[p[0]], p[1..])
  }

  /** `n` with the subtree at path `p` replaced by `x`. */
  function ReplaceAt(n: Node, p: Path, x: Node): Node
    requires ValidPath(n, p)
    decreases p
  {
    if p == [] then x
    else n.(children := n.children[p[0] := ReplaceAt(n.children[p[0]], p[1..], x)])
  }

  lemma {:induction false} ReplaceAtThenAt(n: Node, p: Path, x: Node)
    requires ValidPath(n, p)
    ensures ValidPath(ReplaceAt(n, p, x), p) && At(ReplaceAt(n, p, x), p) == x
    decreases p
  {
    if p != [] {
      ReplaceAtThenAt(n.children[p[0]], p[1..], x);
    }
  }

  lemma {:induction false} ReplaceAtSelf(n: Node, p: Path)
    requires ValidPath(n, p)
    ensures ReplaceAt(n, p, At(n, p)) == n
    decreases p
  {
    if p != [] {
      ReplaceAtSelf(n.children[p[0]], p[1..]);
    }
  }

  lemma {:induction false} ReplaceAtTwice(n: Node, p: Path, x: Node, y: Node)
    requires ValidPath(n, p)
    ensures ValidPath(ReplaceAt(n, p, x), p)
    ensures ReplaceAt(ReplaceAt(n, p, x), p, y) == ReplaceAt(n, p, y)
    decreases p
  {
    ReplaceAtThenAt(n, p, x);
    if p != [] {
      ReplaceAtTwice(n.children[p[0]], p[1..], x, y);
    }
  }

  /** Extending a path by one child index, and replacing at the extended path. */
  lemma {:induction false} ChildPath(n: Node, p: Path, i: nat, y: Node)
    requires ValidPath(n, p) && i < |At(n, p).children|
    ensures ValidPath(n, p + [i]) && At(n, p + [i]) == At(n, p).children[i]
    ensures ReplaceAt(n, p + [i], y) == ReplaceAt(n, p, At(n, p).(children := At(n, p).children[i := y]))
    decreases p
  {
    if p == [] {
      assert [] + [i] == [i];
      assert [i][1..] == [];
    } else {
      assert (p + [i])[0] == p[0];
      assert (p + [i])[1..] == p[1..] + [i];
      ChildPath(n.children[p[0]], p[1..], i, y);
    }
  }

  /** A path splits at any point into a path to an inner node and a path below it. */
  lemma {:induction false} PathSplit(n: Node, p: Path, q: Path)
    requires ValidPath(n, p)
    ensures ValidPath(n, p + q) <==> ValidPath(At(n, p), q)
    ensures ValidPath(n, p + q) ==> At(n, p + q) == At(At(n, p), q)
    decreases p
  {
    if p == [] {
      assert p + q == q;
    } else {
      assert (p + q)[0] == p[0];
      assert (p + q)[1..] == p[1..] + q;
      PathSplit(n.children[p[0]], p[1..], q);
    }
  }

  /** Replacing the subtree at `p` leaves every node off the branch through `p`
      untouched, and every ancestor of `p` keeps its name, materials and child count. */
  lemma {:induction false} ReplaceAtOutside(n: Node, p: Path, x: Node, q: Path)
    requires ValidPath(n, p) && ValidPath(n, q) && !(p <= q)
    ensures ValidPath(ReplaceAt(n, p, x), q)
    ensures At(ReplaceAt(n, p, x), q).name == At(n, q).name
    ensures At(ReplaceAt(n, p, x), q).materials == At(n, q).materials
    ensures |At(ReplaceAt(n, p, x), q).children| == |At(n, q).children|
    ensures !(q <= p) ==> At(ReplaceAt(n, p, x), q) == At(n, q)
    decreases q
  {
    if q != [] {
      assert p != [];
      if p[0] == q[0] {
        assert !(p[1..] <= q[1..]) && (q[1..] <= p[1..] ==> q <= p);
        ReplaceAtOutside(n.children[p[0]], p[1..], x, q[1..]);
      } else {
        assert !(q <= p);
      }
    }
  }

  /** Below the replaced path one finds the replacement. */
  lemma {:induction false} ReplaceAtInside(n: Node, p: Path, x: Node, q: Path)
    requires ValidPath(n, p) && ValidPath(x, q)
    ensures ValidPath(ReplaceAt(n, p, x), p + q) && At(ReplaceAt(n, p, x), p + q) == At(x, q)
  {
    ReplaceAtThenAt(n, p, x);
    PathSplit(ReplaceAt(n, p, x), p, q);
  }

  // ---------------------------------------------------------------------------
  // Recolouring a subtree

  /** `n` with every material of every node in it set to `color`. */
  function Recolor(n: Node, color: Color): Node
  {
    Node(n.name,
         seq(|n.materials|, _ => color),
         seq(|n.children|, i requires 0 <= i < |n.children| => Recolor(n.children[i], color)))
  }

  /** The first `i` children recoloured (the children the recolouring loop has done). */
  function RecoloredPrefix(children: seq<Node>, i: nat, color: Color): (r: seq<Node>)
    requires i <= |children|
    ensures |r| == i && forall j :: 0 <= j < i ==> r[j] == Recolor(children[j], color)
  {
    seq(i, j requires 0 <= j < i => Recolor(children[j], color))
  }

  /** `n` with its first `k` materials recoloured. */
  function OwnRecolored(n: Node, k: nat, color: Color): Node
    requires k <= |n.materials|
  {
    n.(materials := seq(k, _ => color) + n.materials[k..])
  }

  /** `n` with all its materials and its first `i` children's subtrees recoloured. */
  function ChildrenRecolored(n: Node, i: nat, color: Color): Node
    requires i <= |n.children|
  {
    n.(materials := seq(|n.materials|, _ => color),
       children := RecoloredPrefix(n.children, i, color) + n.children[i..])
  }

  /** The material loop of setMaterials goes from `n` to all its materials recoloured. */
  lemma OwnRecoloredSteps(n: Node, k: nat, color: Color)
    requires k <= |n.materials|
    ensures OwnRecolored(n, 0, color) == n
    ensures k < |n.materials| ==>
              OwnRecolored(n, k, color).(materials := OwnRecolored(n, k, color).materials[k := color])
              == OwnRecolored(n, k + 1, color)
    ensures OwnRecolored(n, |n.materials|, color) == ChildrenRecolored(n, 0, color)
  {
    assert n.materials[0..] == n.materials;
    assert n.children[0..] == n.children;
    if k < |n.materials| {
      assert OwnRecolored(n, k, color).materials[k := color] == OwnRecolored(n, k + 1, color).materials;
    }
    assert OwnRecolored(n, |n.materials|, color).materials == seq(|n.materials|, _ => color);
  }

  /** The child loop of setMaterials goes from there to the whole subtree recoloured. */
  lemma ChildrenRecoloredSteps(n: Node, i: nat, color: Color)
    requires i <= |n.children|
    ensures i < |n.children| ==> ChildrenRecolored(n, i, color).children[i] == n.children[i]
    ensures i < |n.children| ==>
              ChildrenRecolored(n, i, color).(children := ChildrenRecolored(n, i, color).children[i := Recolor(n.children[i], color)])
              == ChildrenRecolored(n, i + 1, color)
    ensures ChildrenRecolored(n, |n.children|, color) == Recolor(n, color)
  {
    if i < |n.children| {
      assert ChildrenRecolored(n, i, color).children[i := Recolor(n.children[i], color)]
             == ChildrenRecolored(n, i + 1, color).children;
    }
    assert ChildrenRecolored(n, |n.children|, color).children == Recolor(n, color).children;
  }

  /** `root` with the subtree at `p` recoloured and nothing else changed. */
  function RecolorAt(root: Node, p: Path, color: Color): Node
    requires ValidPath(root, p)
  {
    ReplaceAt(root, p, Recolor(At(root, p), color))
  }

  /** Same names, same material counts and same child structure, node by node. */
  predicate SameShape(a: Node, b: Node)
  {
    && a.name == b.name
    && |a.materials| == |b.materials|
    && |a.children| == |b.children|
    && forall i :: 0 <= i < |a.children| ==> SameShape(a.children[i], b.children[i])
  }

  /** Every material of every node in `n` has colour `color`. */
  predicate AllMaterials(n: Node, color: Color)
  {
    && (forall k :: 0 <= k < |n.materials| ==> n.materials[k] == color)
    && forall i :: 0 <= i < |n.children| ==> AllMaterials(n.children[i], color)
  }

  /** Recolouring sets every material of the subtree and keeps its shape. */
  lemma {:induction false} RecolorSpec(n: Node, color: Color)
    ensures SameShape(Recolor(n, color), n)
    ensures AllMaterials(Recolor(n, color), color)
  {
    forall i | 0 <= i < |n.children| {
      RecolorSpec(n.children[i], color);
    }
  }

  /** A subtree already entirely of `color` is left as it is. */
  lemma {:induction false} RecolorFixpoint(n: Node, color: Color)
    requires AllMaterials(n, color)
    ensures Recolor(n, color) == n
  {
    forall i | 0 <= i < |n.children| {
      RecolorFixpoint(n.children[i], color);
    }
    assert Recolor(n, color).materials == n.materials;
    assert Recolor(n, color).children == n.children;
  }

  /** The last recolouring wins; in particular recolouring twice with one colour equals once. */
  lemma RecolorLastWins(n: Node, first: Color, color: Color)
    ensures Recolor(Recolor(n, first), color) == Recolor(n, color)
    ensures Recolor(Recolor(n, color), color) == Recolor(n, color)
  {
    RecolorSpec(n, color);
    RecolorFixpoint(Recolor(n, color), color);
    RecolorSpec(n, first);
    RecolorShapeOnly(n, Recolor(n, first), color);
  }

  /** Recolouring depends only on the shape of the subtree. */
  lemma {:induction false} RecolorShapeOnly(a: Node, b: Node, color: Color)
    requires SameShape(b, a)
    ensures Recolor(b, color) == Recolor(a, color)
  {
    forall i | 0 <= i < |a.children| {
      RecolorShapeOnly(a.children[i], b.children[i], color);
    }
    assert Recolor(b, color).children == Recolor(a, color).children;
  }

  /** Paths into a subtree are paths into its recolouring, and lead to recoloured nodes. */
  lemma {:induction false} RecolorPath(n: Node, color: Color, q: Path)
    requires ValidPath(n, q)
    ensures ValidPath(Recolor(n, color), q) && At(Recolor(n, color), q) == Recolor(At(n, q), color)
    decreases q
  {
    if q != [] {
      RecolorPath(n.children[q[0]], color, q[1..]);
    }
  }

  /** Recolouring the subtree at `p`: every node at or below `p` is recoloured; every
      other node keeps its name, materials and child count, and a node off the branch
      through `p` is not changed at all. */
  lemma RecolorAtFrame(root: Node, p: Path, color: Color, q: Path)
    requires ValidPath(root, p) && ValidPath(root, q)
    ensures ValidPath(RecolorAt(root, p, color), q)
    ensures p <= q ==> At(RecolorAt(root, p, color), q) == Recolor(At(root, q), color)
    ensures !(p <= q) ==>
              && At(RecolorAt(root, p, color), q).name == At(root, q).name
              && At(RecolorAt(root, p, color), q).materials == At(root, q).materials
              && |At(RecolorAt(root, p, color), q).children| == |At(root, q).children|
    ensures !(p <= q) && !(q <= p) ==> At(RecolorAt(root, p, color), q) == At(root, q)
  {
    if p <= q {
      var rest := q[|p|..];
      assert q == p + rest;
      PathSplit(root, p, rest);
      RecolorPath(At(root, p), color, rest);
      ReplaceAtInside(root, p, Recolor(At(root, p), color), rest);
    } else {
      ReplaceAtOutside(root, p, Recolor(At(root, p), color), q);
    }
  }

  /** Recolouring keeps the shape of the whole tree, so every path stays valid. */
  lemma {:induction false} ReplaceSameShape(n: Node, p: Path, x: Node)
    requires ValidPath(n, p) && SameShape(x, At(n, p))
    ensures SameShape(ReplaceAt(n, p, x), n)
    decreases p
  {
    if p == [] {
    } else {
      ReplaceSameShape(n.children[p[0]], p[1..], x);
      SameShapeRefl(n);
      var r := ReplaceAt(n, p, x);
      forall i | 0 <= i < |n.children|
        ensures SameShape(r.children[i], n.children[i])
      {
        if i != p[0] {
          SameShapeRefl(n.children[i]);
        }
      }
    }
  }

  lemma {:induction false} SameShapeRefl(n: Node)
    ensures SameShape(n, n)
  {
    forall i | 0 <= i < |n.children| {
      SameShapeRefl(n.children[i]);
    }
  }

  /** Trees of the same shape have the same valid paths. */
  lemma {:induction false} SameShapePaths(a: Node, b: Node, q: Path)
    requires SameShape(a, b)
    ensures ValidPath(a, q) <==> ValidPath(b, q)
    ensures ValidPath(a, q) ==> SameShape(At(a, q), At(b, q))
    decreases q
  {
    if q != [] && q[0] < |a.children| {
      SameShapePaths(a.children[q[0]], b.children[q[0]], q[1..]);
    }
  }

  /** A node's own materials play no part in which paths below it are valid. */
  lemma RetintKeepsPaths(n: Node, m: seq<Color>, q: Path)
    ensures ValidPath(n.(materials := m), q) <==> ValidPath(n, q)
  {
    if q != [] {
      assert n.(materials := m).children == n.children;
    }
  }

  lemma RecolorAtSameShape(root: Node, p: Path, color: Color)
    requires ValidPath(root, p)
    ensures SameShape(RecolorAt(root, p, color), root)
    ensures forall q :: ValidPath(root, q) ==> ValidPath(RecolorAt(root, p, color), q)
  {
    RecolorSpec(At(root, p), color);
    ReplaceSameShape(root, p, Recolor(At(root, p), color));
    forall q | ValidPath(root, q)
      ensures ValidPath(RecolorAt(root, p, color), q)
    {
      SameShapePaths(RecolorAt(root, p, color), root, q);
    }
  }
}
