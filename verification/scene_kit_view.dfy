/** The SceneKit view's core: part indexing, the model node it recolours and
    transforms, and the Coordinator that spins the model and restarts the red alert. */
module SceneKitView {
  import opened SceneTree
  import opened NodeSearch
  import opened AlertAnimation
  import opened SpinTicker

  // ---------------------------------------------------------------------------
  // Part keys and the part index

  datatype PartKey = FrontWindows | RearWindows | LeftWindows | RightWindows | TopLightGlass

  /** PartKey.allCases, in declaration order. */
  const AllPartKeys: seq<PartKey> := [FrontWindows, RearWindows, LeftWindows, RightWindows, TopLightGlass]

  /** The exact node name indexed for each key. */
  function PartName(key: PartKey): string
  {
    match key
    case FrontWindows => "Front_Windows"
    case RearWindows => "Rear_Windows"
    case LeftWindows => "Left_Windows"
    case RightWindows => "Right_Windows"
    case TopLightGlass => "Top_Light_Glass"
  }

  /** The index indexParts builds: each key to findNodes(named: PartName(key)). */
  function PartIndex(root: Node): map<PartKey, seq<Path>>
  {
    map key | key in AllPartKeys :: FindNodesNamed(PartName(key), root)
  }

  /** The keys the validation loop finds absent or empty. */
  function MissingParts(parts: map<PartKey, seq<Path>>): set<PartKey>
  {
    set key | key in AllPartKeys && (key !in parts || parts[key] == [])
  }

  /** The five assignments of indexParts build PartIndex. */
  lemma PartIndexByKey(root: Node, parts: map<PartKey, seq<Path>>)
    requires forall key :: key in parts && parts[key] == FindNodesNamed(PartName(key), root)
    ensures parts == PartIndex(root)
  {
    forall key
      ensures key in PartIndex(root)
    {
      AllKeysListed(key);
    }
  }

  /** Some key of `keys` is absent from `parts` or lists no node (the `missingParts`
      flag after the validation loop has visited `keys`). */
  function MissingAmong(parts: map<PartKey, seq<Path>>, keys: seq<PartKey>): bool
    decreases |keys|
  {
    if keys == [] then false
    else
      var key := keys[|keys| - 1];
      MissingAmong(parts, keys[..|keys| - 1]) || key !in parts || parts[key] == []
  }

  lemma {:induction false} MissingAmongMeaning(parts: map<PartKey, seq<Path>>, keys: seq<PartKey>)
    ensures MissingAmong(parts, keys) <==> exists key :: key in keys && (key !in parts || parts[key] == [])
    decreases |keys|
  {
    if keys != [] {
      var init := keys[..|keys| - 1];
      MissingAmongMeaning(parts, init);
      assert keys == init + [keys[|keys| - 1]];
      if exists key :: key in keys && (key !in parts || parts[key] == []) {
        var key :| key in keys && (key !in parts || parts[key] == []);
        if key !in init {
          assert key == keys[|keys| - 1];
        }
      }
    }
  }

  /** After visiting all of PartKey.allCases, the flag is set exactly when some key is missing. */
  lemma MissingAmongAll(parts: map<PartKey, seq<Path>>)
    ensures MissingAmong(parts, AllPartKeys) <==> MissingParts(parts) != {}
  {
    MissingAmongMeaning(parts, AllPartKeys);
    if MissingParts(parts) != {} {
      var key :| key in MissingParts(parts);
    }
    if MissingAmong(parts, AllPartKeys) {
      var key :| key in AllPartKeys && (key !in parts || parts[key] == []);
      assert key in MissingParts(parts);
    }
  }

  /** Every key of the index lists exactly the nodes carrying its name, in pre-order. */
  lemma PartIndexSpec(root: Node, key: PartKey)
    ensures key in PartIndex(root)
    ensures forall p :: p in PartIndex(root)[key] <==>
                        ValidPath(root, p) && At(root, p).name == Some(PartName(key))
    ensures PreOrdered(PartIndex(root)[key])
  {
    FindNodesNamedSpec(PartName(key), root);
  }

  /** A key is missing from the index exactly when no node of the tree carries its name. */
  lemma MissingPartIff(root: Node, key: PartKey)
    ensures key in MissingParts(PartIndex(root)) <==> !HasNodeNamed(root, PartName(key))
  {
    FindNodesNamedSpec(PartName(key), root);
  }

  /** The index is complete exactly when every one of the five names occurs in the tree. */
  lemma PartIndexComplete(root: Node)
    ensures MissingParts(PartIndex(root)) == {} <==>
            forall key :: HasNodeNamed(root, PartName(key))
  {
    forall key
      ensures key in MissingParts(PartIndex(root)) <==> !HasNodeNamed(root, PartName(key))
    {
      MissingPartIff(root, key);
    }
  }

  /** A model with the four window names but no Top_Light_Glass is missing exactly TopLightGlass. */
  lemma OnlyTopLightGlassMissing(root: Node)
    requires HasNodeNamed(root, "Front_Windows") && HasNodeNamed(root, "Rear_Windows")
    requires HasNodeNamed(root, "Left_Windows") && HasNodeNamed(root, "Right_Windows")
    requires !HasNodeNamed(root, "Top_Light_Glass")
    ensures MissingParts(PartIndex(root)) == {TopLightGlass}
  {
    forall key
      ensures key in MissingParts(PartIndex(root)) <==> key == TopLightGlass
    {
      MissingPartIff(root, key);
    }
  }

  /** When indexParts does not stop on "Bad Model", every key lists a non-empty
      list, exactly the exact-name search of its name. */
  lemma IndexedWhenValid(root: Node)
    requires MissingParts(PartIndex(root)) == {}
    ensures forall key :: key in PartIndex(root) && PartIndex(root)[key] != []
                          && PartIndex(root)[key] == FindNodesNamed(PartName(key), root)
  {
    forall key
      ensures key in PartIndex(root) && PartIndex(root)[key] != []
    {
      AllKeysListed(key);
      assert key !in MissingParts(PartIndex(root));
    }
  }

  /** Every node listed in `parts` is a node of `tree`. */
  ghost predicate PartsIn(parts: map<PartKey, seq<Path>>, tree: Node)
  {
    forall key, q :: key in parts && q in parts[key] ==> ValidPath(tree, q)
  }

  lemma PartsInKey(parts: map<PartKey, seq<Path>>, tree: Node, key: PartKey)
    requires PartsIn(parts, tree) && key in parts
    ensures forall q :: q in parts[key] ==> ValidPath(tree, q)
  {
  }

  /** The part index of a tree lists only nodes of that tree. */
  lemma PartIndexIn(root: Node)
    ensures PartsIn(PartIndex(root), root)
  {
    forall key, q | key in PartIndex(root) && q in PartIndex(root)[key]
      ensures ValidPath(root, q)
    {
      PartIndexSpec(root, key);
    }
  }

  lemma AllKeysListed(key: PartKey)
    ensures key in AllPartKeys
  {
    match key
    case FrontWindows => assert AllPartKeys[0] == key;
    case RearWindows => assert AllPartKeys[1] == key;
    case LeftWindows => assert AllPartKeys[2] == key;
    case RightWindows => assert AllPartKeys[3] == key;
    case TopLightGlass => assert AllPartKeys[4] == key;
  }

  function Elements(nodes: seq<Path>): set<Path>
  {
    set p | p in nodes
  }

  /** The nodes listed under the keys `keys`, as the restart loop visits them. */
  function NodesOfKeys(parts: map<PartKey, seq<Path>>, keys: seq<PartKey>): set<Path>
    decreases |keys|
  {
    if keys == [] then {}
    else
      var key := keys[|keys| - 1];
      NodesOfKeys(parts, keys[..|keys| - 1]) + (if key in parts then Elements(parts[key]) else {})
  }

  /** Every node of every part list (the nodes of parts.values). */
  function PartNodes(parts: map<PartKey, seq<Path>>): set<Path>
  {
    NodesOfKeys(parts, AllPartKeys)
  }

  lemma {:induction false} NodesOfKeysMeaning(parts: map<PartKey, seq<Path>>, keys: seq<PartKey>, p: Path)
    ensures p in NodesOfKeys(parts, keys) <==> exists key :: key in keys && key in parts && p in parts[key]
    decreases |keys|
  {
    if keys != [] {
      var init := keys[..|keys| - 1];
      NodesOfKeysMeaning(parts, init, p);
      assert keys == init + [keys[|keys| - 1]];
      if p in NodesOfKeys(parts, keys) {
        if p !in NodesOfKeys(parts, init) {
          var key := keys[|keys| - 1];
          assert key in keys && key in parts && p in parts[key];
        } else {
          var key :| key in init && key in parts && p in parts[key];
          assert key in keys;
        }
      } else {
        forall key | key in keys && key in parts
          ensures p !in parts[key]
        {
          if key !in init {
            assert key == keys[|keys| - 1];
          }
        }
      }
    }
  }

  /** A node is restarted exactly when it appears in some part list. */
  lemma PartNodesMeaning(parts: map<PartKey, seq<Path>>, p: Path)
    ensures p in PartNodes(parts) <==> exists key :: key in parts && p in parts[key]
  {
    NodesOfKeysMeaning(parts, AllPartKeys, p);
    if exists key :: key in parts && p in parts[key] {
      var key :| key in parts && p in parts[key];
      AllKeysListed(key);
    }
  }

  /** The running alert of every node in `nodes` restarted from 0 s; every other
      node's action left as it was. */
  function Restarted(running: map<Path, real>, nodes: set<Path>): map<Path, real>
  {
    map p | p in running.Keys + nodes :: if p in nodes then 0.0 else running[p]
  }

  /** Restarting one set of nodes and then another restarts their union. */
  lemma RestartedTwice(running: map<Path, real>, a: set<Path>, b: set<Path>)
    ensures Restarted(Restarted(running, a), b) == Restarted(running, a + b)
  {
  }

  /** removeAllActions followed by runAction is a restart of that one node. */
  lemma RemoveThenRun(running: map<Path, real>, p: Path)
    ensures (running - {p})[p := 0.0] == Restarted(running, {p})
  {
  }

  // ---------------------------------------------------------------------------
  // The model node

  datatype Vec3 = Vec3(x: real, y: real, z: real)

  const Pi: real := 3.141592653589793

  /** degreesToRadians, on reals. */
  function DegreesToRadians(deg: real): real
  {
    deg * Pi / 180.0
  }

  /** The control state the view reads (SceneViewModel). */
  datatype ViewModel = ViewModel(rotationX: real, rotationY: real, rotationZ: real,
                                 scale: real, color: Color, isSpinning: bool)

  /** The node the view drives: its tree of descendants, its transform, and the
      red-alert actions running on nodes of its tree (seconds elapsed in each). */
  class ModelNode {
    var tree: Node
    var eulerAngles: Vec3
    var scale: Vec3
    var running: map<Path, real>

    /** Every node with a running alert is a node of the tree, at a non-negative
        elapsed time: the nodes the actions run on belong to the model. */
    ghost predicate Valid()
      reads this
    {
      forall q :: q in running ==> ValidPath(tree, q) && running[q] >= 0.0
    }

    constructor (tree: Node)
      ensures this.tree == tree && running == map[]
      ensures eulerAngles == Vec3(0.0, 0.0, 0.0) && scale == Vec3(1.0, 1.0, 1.0)
      ensures Valid()
    {
      this.tree := tree;
      eulerAngles := Vec3(0.0, 0.0, 0.0);
      scale := Vec3(1.0, 1.0, 1.0);
      running := map[];
    }

    /** setMaterials(of:to:): every material of the node at `p` and of all its
        descendants becomes `color`; nothing else in the tree changes. */
    method SetMaterials(p: Path, color: Color)
      requires ValidPath(tree, p)
      modifies this`tree
      ensures tree == RecolorAt(old(tree), p, color)
      ensures old(Valid()) ==> Valid()
      decreases At(tree, p)
    {
      ghost var n := At(tree, p);
      ghost var start := tree;
      // the node's own materials
      SetOwnMaterials(p, color);
      // then every child's subtree, left to right
      ReplaceAtThenAt(start, p, ChildrenRecolored(n, 0, color));
      var i := 0;
      var children := |At(tree, p).children|;
      while i < children
        invariant 0 <= i <= children == |n.children|
        invariant tree == ReplaceAt(start, p, ChildrenRecolored(n, i, color))
      {
        ghost var m := ChildrenRecolored(n, i, color);
        ReplaceAtThenAt(start, p, m);
        ChildrenRecoloredSteps(n, i, color);
        ChildPath(tree, p, i, Recolor(n.children[i], color));
        SetMaterials(p + [i], color);
        ReplaceAtTwice(start, p, m, m.(children := m.children[i := Recolor(n.children[i], color)]));
        i := i + 1;
      }
      ChildrenRecoloredSteps(n, i, color);
      RecolorAtSameShape(start, p, color);
    }

    /** The first loop of setMaterials(of:to:): each material of the node at `p`
        itself becomes `color`; its children are not visited yet. */
    method SetOwnMaterials(p: Path, color: Color)
      requires ValidPath(tree, p)
      modifies this`tree
      ensures ValidPath(tree, p)
      ensures tree == ReplaceAt(old(tree), p, ChildrenRecolored(At(old(tree), p), 0, color))
    {
      ghost var n := At(tree, p);
      ghost var start := tree;
      ReplaceAtSelf(tree, p);
      OwnRecoloredSteps(n, 0, color);
      var k := 0;
      var count := |At(tree, p).materials|;
      while k < count
        invariant 0 <= k <= count == |n.materials|
        invariant tree == ReplaceAt(start, p, OwnRecolored(n, k, color))
      {
        ReplaceAtThenAt(start, p, OwnRecolored(n, k, color));
        var cur := At(tree, p);
        OwnRecoloredSteps(n, k, color);
        ReplaceAtTwice(start, p, cur, cur.(materials := cur.materials[k := color]));
        tree := ReplaceAt(tree, p, cur.(materials := cur.materials[k := color]));
        k := k + 1;
      }
      OwnRecoloredSteps(n, k, color);
      ReplaceAtThenAt(start, p, ChildrenRecolored(n, 0, color));
    }

    /** removeAllActions on the node at `p`. */
    method RemoveAllActions(p: Path)
      requires Valid()
      modifies this`running
      ensures running == old(running) - {p}
      ensures Valid()
    {
      running := running - {p};
    }

    /** runAction(sequence) on the node at `p`: the red alert starts from 0 s. */
    method RunAlertSequence(p: Path)
      requires Valid() && ValidPath(tree, p)
      modifies this`running
      ensures running == old(running)[p := 0.0]
      ensures Valid()
    {
      running := running[p := 0.0];
    }

    /** removeAllActions then runAction(sequence) on each node of `nodes`, in order. */
    method RestartNodes(nodes: seq<Path>)
      requires Valid() && forall q :: q in nodes ==> ValidPath(tree, q)
      modifies this`running
      ensures running == Restarted(old(running), Elements(nodes))
      ensures Valid()
    {
      var j := 0;
      while j < |nodes|
        invariant 0 <= j <= |nodes|
        invariant running == Restarted(old(running), Elements(nodes[..j]))
        invariant Valid()
      {
        ghost var before := running;
        RemoveAllActions(nodes[j]);
        RunAlertSequence(nodes[j]);
        RemoveThenRun(before, nodes[j]);
        RestartedTwice(old(running), Elements(nodes[..j]), {nodes[j]});
        assert Elements(nodes[..j + 1]) == Elements(nodes[..j]) + {nodes[j]} by {
          assert nodes[..j + 1] == nodes[..j] + [nodes[j]];
        }
        j := j + 1;
      }
      assert nodes[..j] == nodes;
    }

    /** The restart loop of updateUIView: for the node list of every key present in
        `parts`, restart the alert on each node. */
    method RestartParts(parts: map<PartKey, seq<Path>>)
      requires Valid() && PartsIn(parts, tree)
      modifies this`running
      ensures running == Restarted(old(running), PartNodes(parts))
      ensures Valid()
    {
      var i := 0;
      while i < |AllPartKeys|
        invariant 0 <= i <= |AllPartKeys|
        invariant running == Restarted(old(running), NodesOfKeys(parts, AllPartKeys[..i]))
        invariant Valid()
      {
        var key := AllPartKeys[i];
        assert AllPartKeys[..i + 1][..i] == AllPartKeys[..i];
        if key in parts {
          PartsInKey(parts, tree, key);
          RestartNodes(parts[key]);
          RestartedTwice(old(running), NodesOfKeys(parts, AllPartKeys[..i]), Elements(parts[key]));
        }
        i := i + 1;
      }
      assert AllPartKeys[..i] == AllPartKeys;
    }

    /** One frame of the alert running on the node at `p`, `dt` seconds after the
        last: the action's closure recolours the node's subtree with the sequence's
        colour at the new elapsed time, and the action is dropped once all 3 s are over. */
    method StepAlert(p: Path, dt: real)
      requires Valid() && p in running && dt >= 0.0
      modifies this`tree, this`running
      ensures tree == RecolorAt(old(tree), p, AlertColor(old(running[p]) + dt))
      ensures running == if old(running[p]) + dt >= AlertDuration then old(running) - {p}
                         else old(running)[p := old(running[p]) + dt]
      ensures Valid()
    {
      var elapsed := running[p] + dt;
      SetMaterials(p, AlertColor(elapsed));
      if elapsed >= AlertDuration {
        running := running - {p};
      } else {
        running := running[p := elapsed];
      }
    }
  }

  // ---------------------------------------------------------------------------
  // The coordinator

  class Coordinator {
    /** The model node (a weak reference in the view). */
    var modelNode: ModelNode?
    /** Whether a display link is registered. */
    var displayLinkActive: bool
    var isSpinning: bool
    var lastTimestamp: real
    var lastHandledRedAlertVersion: int
    var parts: map<PartKey, seq<Path>>

    /** The model node keeps its own invariant, and every cached part is a node of
        its tree. */
    ghost predicate Valid()
      reads this, modelNode
    {
      modelNode != null ==> modelNode.Valid() && PartsIn(parts, modelNode.tree)
    }

    constructor ()
      ensures modelNode == null && !displayLinkActive && !isSpinning
      ensures lastTimestamp == 0.0 && lastHandledRedAlertVersion == 0 && parts == map[]
      ensures Valid()
    {
      modelNode := null;
      displayLinkActive := false;
      isSpinning := false;
      lastTimestamp := 0.0;
      lastHandledRedAlertVersion := 0;
      parts := map[];
    }

    /** stopDisplayLink: drop the link and forget the last timestamp. */
    method StopDisplayLink()
      modifies this`displayLinkActive, this`lastTimestamp
      ensures !displayLinkActive && lastTimestamp == 0.0
      ensures old(Valid()) ==> Valid()
    {
      displayLinkActive := false;
      lastTimestamp := 0.0;
    }

    /** startDisplayLink: stop any previous link, then register a new one. */
    method StartDisplayLink()
      modifies this`displayLinkActive, this`lastTimestamp
      ensures displayLinkActive && lastTimestamp == 0.0
      ensures old(Valid()) ==> Valid()
    {
      StopDisplayLink();
      displayLinkActive := true;
    }

    /** tick: one display-link frame at `timestamp`. */
    method Tick(timestamp: real)
      requires Valid()
      modifies this`lastTimestamp, modelNode
      ensures Valid()
      ensures modelNode == old(modelNode)
      ensures old(!isSpinning || modelNode == null) ==> lastTimestamp == old(lastTimestamp)
      ensures modelNode != null ==>
                && Spin(lastTimestamp, modelNode.eulerAngles.y)
                   == SpinTick(Spin(old(lastTimestamp), old(modelNode.eulerAngles.y)),
                               Frame(timestamp, isSpinning))
                && modelNode.eulerAngles.x == old(modelNode.eulerAngles.x)
                && modelNode.eulerAngles.z == old(modelNode.eulerAngles.z)
                && modelNode.tree == old(modelNode.tree)
                && modelNode.scale == old(modelNode.scale)
                && modelNode.running == old(modelNode.running)
    {
      if !isSpinning || modelNode == null {
        return;
      }
      var node := modelNode;
      if lastTimestamp == 0.0 {
        lastTimestamp := timestamp;
      }
      var dt := timestamp - lastTimestamp;
      lastTimestamp := timestamp;
      var angles := node.eulerAngles;
      angles := angles.(y := angles.y + dt * AngularVelocity);
      node.eulerAngles := angles;
    }

    /** indexParts(in:coordinator:): fill `parts` from exact-name searches of `root`,
        then check every key; `badModel` is the fatalError("Bad Model") outcome. */
    method IndexParts(root: Node) returns (badModel: bool)
      modifies this`parts
      ensures parts == PartIndex(root)
      ensures badModel <==> MissingParts(parts) != {}
      ensures modelNode != null && root == modelNode.tree && modelNode.Valid() ==> Valid()
    {
      parts := parts[FrontWindows := FindNodesNamed("Front_Windows", root)];
      parts := parts[LeftWindows := FindNodesNamed("Left_Windows", root)];
      parts := parts[RearWindows := FindNodesNamed("Rear_Windows", root)];
      parts := parts[RightWindows := FindNodesNamed("Right_Windows", root)];
      parts := parts[TopLightGlass := FindNodesNamed("Top_Light_Glass", root)];
      forall key
        ensures key in parts && parts[key] == FindNodesNamed(PartName(key), root)
      {
        match key
        case FrontWindows =>
        case RearWindows =>
        case LeftWindows =>
        case RightWindows =>
        case TopLightGlass =>
      }
      PartIndexByKey(root, parts);
      badModel := ValidateParts();
      PartIndexIn(root);
    }

    /** The validation loop of indexParts: visits PartKey.allCases and raises the
        flag for a key that is absent or lists no node. */
    method ValidateParts() returns (missingParts: bool)
      ensures missingParts <==> MissingParts(parts) != {}
    {
      missingParts := false;
      var i := 0;
      while i < |AllPartKeys|
        invariant 0 <= i <= |AllPartKeys|
        invariant missingParts == MissingAmong(parts, AllPartKeys[..i])
      {
        var key := AllPartKeys[i];
        assert AllPartKeys[..i + 1][..i] == AllPartKeys[..i];
        if key in parts && parts[key] != [] {
          i := i + 1;
          continue;
        }
        missingParts := true;
        i := i + 1;
      }
      assert AllPartKeys[..i] == AllPartKeys;
      MissingAmongAll(parts);
    }

    /** The model node is attached, the display link started and the parts indexed
        (the part of makeUIView that concerns the coordinator). */
    method AttachModel(node: ModelNode) returns (badModel: bool)
      requires node.Valid()
      modifies this`modelNode, this`displayLinkActive, this`lastTimestamp, this`parts
      ensures Valid()
      ensures modelNode == node && displayLinkActive && lastTimestamp == 0.0
      ensures parts == PartIndex(node.tree)
      ensures badModel <==> MissingParts(parts) != {}
    {
      modelNode := node;
      StartDisplayLink();
      badModel := IndexParts(node.tree);
      PartIndexIn(node.tree);
    }

    /** updateUIView: without a model node nothing happens. Otherwise the transform
        and base colour are written from the view model, the spin flag copied, and a
        red-alert version not handled yet restarts the alert on every part node. */
    method UpdateView(vm: ViewModel, redAlertVersion: int)
      requires Valid()
      modifies this`isSpinning, this`lastHandledRedAlertVersion, modelNode
      ensures Valid()
      ensures modelNode == old(modelNode)
      ensures old(modelNode) == null ==>
                isSpinning == old(isSpinning) && lastHandledRedAlertVersion == old(lastHandledRedAlertVersion)
      ensures modelNode != null ==>
                && modelNode.eulerAngles == Vec3(DegreesToRadians(vm.rotationX),
                                                 DegreesToRadians(vm.rotationY),
                                                 DegreesToRadians(vm.rotationZ))
                && modelNode.scale == Vec3(vm.scale, vm.scale, vm.scale)
                && modelNode.tree == (if old(modelNode.tree.materials) != []
                                      then old(modelNode.tree).(materials := old(modelNode.tree.materials)[0 := vm.color])
                                      else old(modelNode.tree))
                && isSpinning == vm.isSpinning
                && lastHandledRedAlertVersion == redAlertVersion
                && modelNode.running == (if old(lastHandledRedAlertVersion) != redAlertVersion
                                         then Restarted(old(modelNode.running), PartNodes(parts))
                                         else old(modelNode.running))
    {
      if modelNode == null {
        return;
      }
      var node := modelNode;

      node.eulerAngles := Vec3(DegreesToRadians(vm.rotationX), DegreesToRadians(vm.rotationY),
                               DegreesToRadians(vm.rotationZ));
      node.scale := Vec3(vm.scale, vm.scale, vm.scale);
      if node.tree.materials != [] {
        ghost var before := node.tree;
        node.tree := node.tree.(materials := node.tree.materials[0 := vm.color]);
        forall q | ValidPath(before, q)
          ensures ValidPath(node.tree, q)
        {
          RetintKeepsPaths(before, node.tree.materials, q);
        }
      }

      isSpinning := vm.isSpinning;

      if lastHandledRedAlertVersion != redAlertVersion {
        lastHandledRedAlertVersion := redAlertVersion;
        node.RestartParts(parts);
      }
    }
  }
}
