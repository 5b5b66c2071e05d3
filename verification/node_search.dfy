/** findNodes / findNode: pre-order depth-first searches of a node tree by name. */
module NodeSearch {
  import opened SceneTree

  /** A test on a node's optional name. */
  type Matcher = Option<string> -> bool

  /** The paths `ps`, each prefixed by child index `i`. */
  function Prefixed(i: nat, ps: seq<Path>): (r: seq<Path>)
    ensures |r| == |ps| && forall k :: 0 <= k < |ps| ==> r[k] == [i] + ps[k]
  {
    seq(|ps|, k requires 0 <= k < |ps| => [i] + ps[k])
  }

  /** Every node of the subtree `n` whose name passes `matches`: `n` itself first,
      then the results of its children, left to right. */
  function FindAll(n: Node, matches: Matcher): seq<Path>
    decreases n, 1
  {
    (if matches(n.name) then [[]] else []) + FindAllFrom(n, 0, matches)
  }

  /** The results of the children of `parent` from index `i` on. */
  function FindAllFrom(parent: Node, i: nat, matches: Matcher): seq<Path>
    requires i <= |parent.children|
    decreases parent, 0, |parent.children| - i
  {
    if i == |parent.children| then []
    else Prefixed(i, FindAll(parent.children[i], matches)) + FindAllFrom(parent, i + 1, matches)
  }

  /** The first node of the subtree `n` whose name passes `matches`, stopping at the
      first hit: `n` itself, else the first hit among its children, left to right. */
  function FindFirst(n: Node, matches: Matcher): Option<Path>
    decreases n, 1
  {
    if matches(n.name) then Some([]) else FindFirstFrom(n, 0, matches)
  }

  function FindFirstFrom(parent: Node, i: nat, matches: Matcher): Option<Path>
    requires i <= |parent.children|
    decreases parent, 0, |parent.children| - i
  {
    if i == |parent.children| then None
    else match FindFirst(parent.children[i], matches)
      case Some(q) => Some([i] + q)
      case None => FindFirstFrom(parent, i + 1, matches)
  }

  // ---------------------------------------------------------------------------
  // Pre-order precedence between paths

  /** Node `a` is visited before node `b` in a pre-order, left-to-right traversal:
      `a` is a proper ancestor of `b`, or they part at a child index where `a`'s is smaller. */
  predicate Before(a: Path, b: Path)
    decreases |a|
  {
    |b| > 0 && (|a| == 0 || a[0] < b[0] || (a[0] == b[0] && Before(a[1..], b[1..])))
  }

  predicate PreOrdered(ps: seq<Path>)
  {
    forall i, j :: 0 <= i < j < |ps| ==> Before(ps[i], ps[j])
  }

  /** A node is visited before each of its descendants. */
  lemma {:induction false} AncestorBefore(p: Path, q: Path)
    requires q != []
    ensures Before(p, p + q)
    decreases |p|
  {
    if p != [] {
      assert (p + q)[0] == p[0] && (p + q)[1..] == p[1..] + q;
      AncestorBefore(p[1..], q);
    }
  }

  /** The subtree of a left sibling is visited before the subtree of a right sibling. */
  lemma {:induction false} LeftSiblingBefore(p: Path, i: nat, j: nat, a: Path, b: Path)
    requires i < j
    ensures Before(p + [i] + a, p + [j] + b)
    decreases |p|
  {
    if p == [] {
      assert ([] + [i] + a)[0] == i && ([] + [j] + b)[0] == j;
    } else {
      assert (p + [i] + a)[0] == p[0] && (p + [i] + a)[1..] == p[1..] + [i] + a;
      assert (p + [j] + b)[0] == p[0] && (p + [j] + b)[1..] == p[1..] + [j] + b;
      LeftSiblingBefore(p[1..], i, j, a, b);
    }
  }

  /** No node is visited before itself, so a pre-ordered list has no repetition. */
  lemma {:induction false} BeforeIrreflexive(p: Path)
    ensures !Before(p, p)
    decreases |p|
  {
    if p != [] {
      BeforeIrreflexive(p[1..]);
    }
  }

  lemma PreOrderedDistinct(ps: seq<Path>)
    requires PreOrdered(ps)
    ensures forall i, j :: 0 <= i < j < |ps| ==> ps[i] != ps[j]
  {
    forall i, j | 0 <= i < j < |ps|
      ensures ps[i] != ps[j]
    {
      BeforeIrreflexive(ps[i]);
    }
  }

  // ---------------------------------------------------------------------------
  // What FindAll returns

  /** Every path FindAll returns leads to a matching node. */
  lemma {:induction false} FindAllSound(n: Node, matches: Matcher, p: Path)
    requires p in FindAll(n, matches)
    ensures ValidPath(n, p) && matches(At(n, p).name)
    decreases n, 1
  {
    if p !in FindAllFrom(n, 0, matches) {
      assert p == [];
    } else {
      FindAllFromSound(n, 0, matches, p);
    }
  }

  lemma {:induction false} FindAllFromSound(parent: Node, i: nat, matches: Matcher, p: Path)
    requires i <= |parent.children| && p in FindAllFrom(parent, i, matches)
    ensures |p| > 0 && i <= p[0] < |parent.children|
    ensures ValidPath(parent, p) && matches(At(parent, p).name)
    decreases parent, 0, |parent.children| - i
  {
    var head := Prefixed(i, FindAll(parent.children[i], matches));
    if p in head {
      var k :| 0 <= k < |head| && head[k] == p;
      var q := FindAll(parent.children[i], matches)[k];
      assert p == [i] + q && p[1..] == q;
      FindAllSound(parent.children[i], matches, q);
    } else {
      FindAllFromSound(parent, i + 1, matches, p);
    }
  }

  /** Every matching node of the subtree is in FindAll's result. */
  lemma {:induction false} FindAllComplete(n: Node, matches: Matcher, p: Path)
    requires ValidPath(n, p) && matches(At(n, p).name)
    ensures p in FindAll(n, matches)
    decreases n, 1
  {
    if p != [] {
      FindAllFromComplete(n, 0, matches, p);
    }
  }

  lemma {:induction false} FindAllFromComplete(parent: Node, i: nat, matches: Matcher, p: Path)
    requires ValidPath(parent, p) && p != [] && i <= p[0] && matches(At(parent, p).name)
    ensures p in FindAllFrom(parent, i, matches)
    decreases parent, 0, |parent.children| - i
  {
    if p[0] == i {
      FindAllComplete(parent.children[i], matches, p[1..]);
      var found := FindAll(parent.children[i], matches);
      var k :| 0 <= k < |found| && found[k] == p[1..];
      assert Prefixed(i, found)[k] == p;
    } else {
      FindAllFromComplete(parent, i + 1, matches, p);
    }
  }

  /** FindAll lists its results in pre-order: each node before its descendants and
      the subtrees of the children left to right. */
  lemma {:induction false} FindAllPreOrdered(n: Node, matches: Matcher)
    ensures PreOrdered(FindAll(n, matches))
    decreases n, 1
  {
    var rest := FindAllFrom(n, 0, matches);
    FindAllFromPreOrdered(n, 0, matches);
    var r := FindAll(n, matches);
    forall i, j | 0 <= i < j < |r|
      ensures Before(r[i], r[j])
    {
      if matches(n.name) {
        assert r[j] == rest[j - 1];
        FindAllFromSound(n, 0, matches, r[j]);
        if i > 0 {
          assert r[i] == rest[i - 1];
        }
      }
    }
  }

  lemma {:induction false} FindAllFromPreOrdered(parent: Node, i: nat, matches: Matcher)
    requires i <= |parent.children|
    ensures PreOrdered(FindAllFrom(parent, i, matches))
    decreases parent, 0, |parent.children| - i
  {
    if i < |parent.children| {
      var found := FindAll(parent.children[i], matches);
      var head := Prefixed(i, found);
      var tail := FindAllFrom(parent, i + 1, matches);
      FindAllPreOrdered(parent.children[i], matches);
      FindAllFromPreOrdered(parent, i + 1, matches);
      var r := head + tail;
      forall a, b | 0 <= a < b < |r|
        ensures Before(r[a], r[b])
      {
        if b < |head| {
          assert r[a] == [i] + found[a] && r[b] == [i] + found[b];
          assert r[a][1..] == found[a] && r[b][1..] == found[b];
        } else if a < |head| {
          assert r[b] == tail[b - |head|];
          FindAllFromSound(parent, i + 1, matches, r[b]);
        } else {
          assert r[a] == tail[a - |head|] && r[b] == tail[b - |head|];
        }
      }
    }
  }

  /** FindFirst stops at the head of FindAll's list. */
  lemma {:induction false} FindFirstIsHead(n: Node, matches: Matcher)
    ensures FindFirst(n, matches) == if FindAll(n, matches) == [] then None else Some(FindAll(n, matches)[0])
    decreases n, 1
  {
    FindFirstFromIsHead(n, 0, matches);
  }

  lemma {:induction false} FindFirstFromIsHead(parent: Node, i: nat, matches: Matcher)
    requires i <= |parent.children|
    ensures FindFirstFrom(parent, i, matches)
            == if FindAllFrom(parent, i, matches) == [] then None else Some(FindAllFrom(parent, i, matches)[0])
    decreases parent, 0, |parent.children| - i
  {
    if i < |parent.children| {
      FindFirstIsHead(parent.children[i], matches);
      FindFirstFromIsHead(parent, i + 1, matches);
    }
  }

  // ---------------------------------------------------------------------------
  // The two kinds of search of the view: exact name, and containing a partial name

  /** The name equals `exactName` (an unnamed node never does). */
  function ExactName(exactName: string): Matcher
  {
    (name: Option<string>) => name == Some(exactName)
  }

  /** The node has a name and `contains(name, partial)` holds; `contains` stands for
      the locale-aware, case-insensitive substring test of the platform. */
  function ContainingName(partial: string, contains: (string, string) -> bool): Matcher
  {
    (name: Option<string>) => name.Some? && contains(name.value, partial)
  }

  function FindNodesNamed(exactName: string, root: Node): seq<Path>
  {
    FindAll(root, ExactName(exactName))
  }

  function FindNodeNamed(exactName: string, root: Node): Option<Path>
  {
    FindFirst(root, ExactName(exactName))
  }

  function FindNodesContaining(partial: string, root: Node, contains: (string, string) -> bool): seq<Path>
  {
    FindAll(root, ContainingName(partial, contains))
  }

  function FindNodeContaining(partial: string, root: Node, contains: (string, string) -> bool): Option<Path>
  {
    FindFirst(root, ContainingName(partial, contains))
  }

  /** Some node of the subtree is named exactly `name`. */
  ghost predicate HasNodeNamed(root: Node, name: string)
  {
    exists p :: ValidPath(root, p) && At(root, p).name == Some(name)
  }

  /** findNodes(named:) returns exactly the nodes named `exactName`, in pre-order,
      without repetition, and returns nothing iff no node has that name. */
  lemma FindNodesNamedSpec(exactName: string, root: Node)
    ensures forall p :: p in FindNodesNamed(exactName, root) <==>
                        ValidPath(root, p) && At(root, p).name == Some(exactName)
    ensures PreOrdered(FindNodesNamed(exactName, root))
    ensures forall i, j :: 0 <= i < j < |FindNodesNamed(exactName, root)| ==>
                           FindNodesNamed(exactName, root)[i] != FindNodesNamed(exactName, root)[j]
    ensures FindNodesNamed(exactName, root) == [] <==> !HasNodeNamed(root, exactName)
  {
    var m := ExactName(exactName);
    forall p
      ensures p in FindAll(root, m) <==> ValidPath(root, p) && At(root, p).name == Some(exactName)
    {
      if p in FindAll(root, m) {
        FindAllSound(root, m, p);
      }
      if ValidPath(root, p) && At(root, p).name == Some(exactName) {
        FindAllComplete(root, m, p);
      }
    }
    FindAllPreOrdered(root, m);
    PreOrderedDistinct(FindAll(root, m));
    if FindAll(root, m) != [] {
      assert FindAll(root, m)[0] in FindAll(root, m);
    }
  }

  /** findNode(named:) is nil iff findNodes(named:) is empty, and otherwise its first element. */
  lemma FindNodeNamedIsFirst(exactName: string, root: Node)
    ensures FindNodeNamed(exactName, root).None? <==> FindNodesNamed(exactName, root) == []
    ensures FindNodeNamed(exactName, root).Some? ==>
              FindNodeNamed(exactName, root).value == FindNodesNamed(exactName, root)[0]
  {
    FindFirstIsHead(root, ExactName(exactName));
  }

  /** findNodes(containingName:) returns exactly the named nodes whose name passes the
      containment test, in pre-order. */
  lemma FindNodesContainingSpec(partial: string, root: Node, contains: (string, string) -> bool)
    ensures forall p :: p in FindNodesContaining(partial, root, contains) <==>
              ValidPath(root, p) && At(root, p).name.Some? && contains(At(root, p).name.value, partial)
    ensures PreOrdered(FindNodesContaining(partial, root, contains))
  {
    var m := ContainingName(partial, contains);
    forall p
      ensures p in FindAll(root, m) <==>
              ValidPath(root, p) && At(root, p).name.Some? && contains(At(root, p).name.value, partial)
    {
      if p in FindAll(root, m) {
        FindAllSound(root, m, p);
      }
      if ValidPath(root, p) && At(root, p).name.Some? && contains(At(root, p).name.value, partial) {
        FindAllComplete(root, m, p);
      }
    }
    FindAllPreOrdered(root, m);
  }

  /** findNode(containingName:) is nil iff findNodes(containingName:) is empty, and otherwise its first element. */
  lemma FindNodeContainingIsFirst(partial: string, root: Node, contains: (string, string) -> bool)
    ensures FindNodeContaining(partial, root, contains).None? <==> FindNodesContaining(partial, root, contains) == []
    ensures FindNodeContaining(partial, root, contains).Some? ==>
              FindNodeContaining(partial, root, contains).value == FindNodesContaining(partial, root, contains)[0]
  {
    FindFirstIsHead(root, ContainingName(partial, contains));
  }
}
