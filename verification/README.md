# Allons-y SceneKit view — a verified model

Allons-y shows a 3-D TARDIS in a SceneKit view driven by a SwiftUI view model.
The logic of the view lives in `SceneKitView.swift`. This project models it in Dafny:

- the pre-order node searches `findNode` / `findNodes`, by exact name and by partial name;
- `setMaterials`, which recolours a whole subtree in place;
- `indexParts`, which caches the five named window/light parts and stops on "Bad Model"
  when one is missing;
- the `Coordinator`:
  - its display-link spin (`tick`, `startDisplayLink`, `stopDisplayLink`);
  - the red-alert trigger of `updateUIView`, with its versioning;
  - the red-alert action sequence itself.

Scene nodes are a value tree `Node(name, materials, children)`, with one colour per
material. A node of the scene graph is identified by its `Path`: the child indices
leading to it from the model root. The searches and the part index therefore return
paths. The node the view drives is the class `ModelNode`. It holds the tree, the Euler
angles and scale, and the alert actions running on nodes of the tree. The coordinator
is the class `Coordinator`, with the Swift fields.

Both classes carry an invariant `Valid()`:

- `ModelNode.Valid()`: every node with a running alert is a node of the tree, and its elapsed time is not negative.
- `Coordinator.Valid()`: the model node keeps its invariant, and every cached part is a node of the model's tree.

The constructors and `AttachModel` establish these invariants, and every other method of the two classes keeps them:

- Most methods require the invariant and ensure it.
- `SetMaterials`, `StopDisplayLink` and `StartDisplayLink` keep it whenever it held before.
- `IndexParts` re-establishes it when it indexes the model node's own tree.

So a node that `updateUIView` restarts is one that `StepAlert` can then advance.

Modules:

- `SceneTree`: the node tree, paths, and the pure recolouring `Recolor` / `RecolorAt`
  that specifies `setMaterials`.
- `NodeSearch`: one generic pre-order search over a name test, instantiated for exact
  and partial names, and the pre-order relation `Before` between paths.
- `AlertAnimation`: the red-alert `SCNAction` tree, flattened to a list of steps. It
  also gives the colour the list has last written after a given elapsed time.
- `SpinTicker`: the tick as a pure step function on (lastTimestamp, y angle), and
  runs of ticks.
- `SceneKitView`: the part keys and index, `ModelNode` and `Coordinator`.

The model follows the code as written, including two behaviours a reader might not expect:

- Spinning is not an additive layer. `tick` writes the y angle, and `updateUIView`
  overwrites all three angles from the view model (`Coordinator.UpdateView` states
  the overwrite).
- `lastTimestamp` is reset only by `stopDisplayLink`. It is not reset when spinning
  resumes, so the first tick after an idle period adds the whole idle time
  (`SpinTicker.ResumeAfterIdleJumps`).

## Model

| member | source | states |
|---|---|---|
| NodeSearch.FindNodesNamedSpec | Allons-y/SceneKitView.swift:212-219 | findNodes(named:) contains a path iff the node there is named exactly `exactName`. The list is in pre-order (ancestors before descendants, children left to right) and has no repetition. It is empty iff no node of the subtree has that name. |
| NodeSearch.FindNodeNamedIsFirst | Allons-y/SceneKitView.swift:141-147 | findNode(named:) is nil iff findNodes(named:) is empty; otherwise it is that list's first element. |
| NodeSearch.FindNodesContainingSpec | Allons-y/SceneKitView.swift:221-230 | findNodes(containingName:) contains exactly the named nodes whose name passes the containment test, in pre-order. |
| NodeSearch.FindNodeContainingIsFirst | Allons-y/SceneKitView.swift:149-155 | findNode(containingName:) is nil iff findNodes(containingName:) is empty; otherwise it is that list's first element. |
| NodeSearch.FindAllSound | Allons-y/SceneKitView.swift:212-219 | Every path the recursive search collects is a valid path whose node passes the name test. |
| NodeSearch.FindAllComplete | Allons-y/SceneKitView.swift:212-219 | Every node of the subtree that passes the name test is collected. |
| NodeSearch.FindAllPreOrdered | Allons-y/SceneKitView.swift:212-219 | The collected paths are pairwise in pre-order: the root's own hit first, then each child's results left to right. |
| NodeSearch.FindFirstIsHead | Allons-y/SceneKitView.swift:141-147 | The stop-at-first-hit search returns the head of the collect-all search, and nil iff that list is empty. |
| NodeSearch.AncestorBefore | Allons-y/SceneKitView.swift:214-217 | A node is visited before all of its descendants. |
| NodeSearch.LeftSiblingBefore | Allons-y/SceneKitView.swift:215-217 | The subtree of a left sibling is visited before the subtree of a right sibling. |
| NodeSearch.PreOrderedDistinct | Allons-y/SceneKitView.swift:212-219 | A pre-ordered path list repeats no node. |
| SceneTree.RecolorSpec | Allons-y/SceneKitView.swift:157-166 | After recolouring, every material of every node of the subtree is the colour. Names, child structure and per-node material counts are unchanged. |
| SceneTree.RecolorLastWins | Allons-y/SceneKitView.swift:157-166 | Recolouring after a recolouring equals the last recolouring alone, so applying it twice equals applying it once. |
| SceneTree.RecolorFixpoint | Allons-y/SceneKitView.swift:157-166 | A subtree whose materials already all have the colour is left as it is. |
| SceneTree.RecolorAtFrame | Allons-y/SceneKitView.swift:157-166 | Recolouring the node at `p` reaches exactly its subtree. Nodes at or below `p` are recoloured. Every other node keeps its name, materials and number of children. A node outside `p`'s branch is unchanged. |
| SceneTree.RetintKeepsPaths | Allons-y/SceneKitView.swift:82-84 | Writing a node's own material colours leaves the valid paths below it unchanged. |
| SceneTree.RecolorAtSameShape | Allons-y/SceneKitView.swift:157-166 | Recolouring a subtree keeps the shape of the whole tree, so every path stays valid. |
| SceneKitView.ModelNode.SetMaterials | Allons-y/SceneKitView.swift:157-166 | The in-place recursive walk (materials first, then children left to right) leaves the tree equal to `RecolorAt(old tree, p, color)`. It keeps the model-node invariant. |
| SceneKitView.ModelNode.SetOwnMaterials | Allons-y/SceneKitView.swift:159-161 | The material loop recolours the node's own materials and nothing else. |
| SceneKitView.PartIndexSpec | Allons-y/SceneKitView.swift:168-174 | Every key is in the index, and its list holds exactly the nodes named with the key's fixed name, in pre-order. |
| SceneKitView.MissingPartIff | Allons-y/SceneKitView.swift:176-183 | A key is reported missing iff no node of the tree carries its name. |
| SceneKitView.PartIndexComplete | Allons-y/SceneKitView.swift:176-189 | The model passes validation iff all five names occur in the tree. |
| SceneKitView.IndexedWhenValid | Allons-y/SceneKitView.swift:168-189 | When indexParts does not stop on "Bad Model", each of the five keys maps to a non-empty list equal to findNodes of its name. |
| SceneKitView.OnlyTopLightGlassMissing | Allons-y/SceneKitView.swift:176-189 | A tree with the four window names but no Top_Light_Glass is missing exactly that key. |
| SceneKitView.MissingAmongAll | Allons-y/SceneKitView.swift:177-183 | The `missingParts` flag, after the loop over `PartKey.allCases`, is set iff some key is absent or empty. |
| SceneKitView.PartNodesMeaning | Allons-y/SceneKitView.swift:121-122 | The nodes the restart loop visits are exactly those in some part list. |
| SceneKitView.Coordinator.IndexParts | Allons-y/SceneKitView.swift:168-189 | The five assignments make `parts` the exact-name index of the tree. The "Bad Model" outcome is raised iff some key is missing. Indexing the model node's own tree leaves the coordinator invariant holding. |
| SceneKitView.Coordinator.ValidateParts | Allons-y/SceneKitView.swift:177-183 | The validation loop raises its flag iff some key of `parts` is absent or lists no node. |
| SceneKitView.Coordinator.constructor | Allons-y/SceneKitView.swift:233-240 | A new coordinator has no model node and no display link. It is not spinning, `lastTimestamp` and `lastHandledRedAlertVersion` are 0, and `parts` is empty. It satisfies the coordinator invariant. |
| SceneKitView.ModelNode.constructor | Allons-y/SceneKitView.swift:40-51 | A new model node has the given tree, zero angles, unit scale and no running actions. It satisfies the model-node invariant. |
| SceneKitView.PartIndexIn | Allons-y/SceneKitView.swift:168-174 | Every node listed in the part index is a node of the indexed tree. |
| SceneKitView.Coordinator.AttachModel | Allons-y/SceneKitView.swift:54-62 | Attaching the model sets the model node and starts the display link with `lastTimestamp` 0. It indexes the parts of the model's tree and establishes the coordinator invariant. |
| SceneKitView.Coordinator.StopDisplayLink | Allons-y/SceneKitView.swift:249-253 | The link is dropped and `lastTimestamp` returns to 0. The coordinator invariant is kept. |
| SceneKitView.Coordinator.StartDisplayLink | Allons-y/SceneKitView.swift:242-247 | The previous link is stopped (resetting `lastTimestamp` to 0) and a new one is active. The coordinator invariant is kept. |
| SceneKitView.Coordinator.Tick | Allons-y/SceneKitView.swift:255-265 | When not spinning, or with no model node, nothing changes. Otherwise (lastTimestamp, y angle) advance as `SpinTick` of the frame, and the x and z angles, tree, scale and actions stay the same. The coordinator invariant is kept. |
| SpinTicker.IdleTicksChangeNothing | Allons-y/SceneKitView.swift:256 | Any run of ticks while not spinning, or without a model node, leaves lastTimestamp and the y angle unchanged. |
| SpinTicker.SpinFromStop | Allons-y/SceneKitView.swift:252-264 | Starting from lastTimestamp 0, spinning ticks at t0..tn turn the model by exactly tn − t0 radians. The first tick adds dt = 0. |
| SpinTicker.SpinTicksTelescope | Allons-y/SceneKitView.swift:257-264 | With a remembered timestamp, the per-tick dt's add up to the time from that timestamp to the last frame. |
| SpinTicker.SpinNeverReverses | Allons-y/SceneKitView.swift:255-264 | Over non-decreasing timestamps, with spinning and idle ticks mixed, the y angle never decreases. This holds starting stopped (lastTimestamp 0) or from a remembered timestamp no later than the first frame. A frame stamped 0 only re-arms the sentinel. |
| SpinTicker.ResumeAfterIdleJumps | Allons-y/SceneKitView.swift:252-259 | Idle ticks keep lastTimestamp, so the first tick after resuming adds all the idle time. |
| SpinTicker.SpinTicksAppend | Allons-y/SceneKitView.swift:255-265 | Ticks compose frame by frame. |
| SceneKitView.Coordinator.UpdateView | Allons-y/SceneKitView.swift:70-127 | Without a model node nothing changes. Otherwise the angles and scale are written from the view model, and the first material of the model node gets the base colour. The spin flag is copied. The restart of every part node runs iff the incoming version differs from the last one handled, and afterwards the two are equal. The coordinator invariant is kept. |
| SceneKitView.ModelNode.RestartParts | Allons-y/SceneKitView.swift:121-126 | Every node of every part list has its actions replaced by a fresh alert at 0 s. Other nodes' actions are unchanged. Given that every part is a node of the tree, the model-node invariant is kept. |
| SceneKitView.ModelNode.RestartNodes | Allons-y/SceneKitView.swift:122-125 | Each node of the list is restarted; no other node is touched. Given nodes of the tree, the model-node invariant is kept. |
| SceneKitView.ModelNode.RemoveAllActions | Allons-y/SceneKitView.swift:123 | The node's running action is removed. The model-node invariant is kept. |
| SceneKitView.ModelNode.RunAlertSequence | Allons-y/SceneKitView.swift:124 | The node runs the alert from 0 s. For a node of the tree, the model-node invariant is kept. |
| SceneKitView.ModelNode.StepAlert | Allons-y/SceneKitView.swift:96-118 | One frame of a running alert recolours the node's subtree with the sequence's colour at the new elapsed time. The action is dropped once 3 s are over. Any node with a running alert can be advanced: the invariant supplies its path and its non-negative elapsed time. The invariant is kept. |
| AlertAnimation.RedAlertSequenceShape | Allons-y/SceneKitView.swift:110-118 | The sequence flattens to 8 steps: setRed, three (toBlack, toRed) pairs of 0.5 s, then setRed. It lasts 3.0 s. |
| AlertAnimation.AlertSegment | Allons-y/SceneKitView.swift:94-111 | In the k-th timed half, t seconds in, the red channel is 1 − t/0.5 on fading halves and t/0.5 on returning halves. Green and blue are 0. |
| AlertAnimation.AlertStartsRed | Allons-y/SceneKitView.swift:114-118 | The alert starts on solid red. |
| AlertAnimation.AlertEndsRed | Allons-y/SceneKitView.swift:114-118 | From 3.0 s on, the node is solid red. |
| AlertAnimation.AlertColorRange | Allons-y/SceneKitView.swift:94-118 | At every moment the red channel is in [0, 1], and green and blue are 0. |
| AlertAnimation.PulsesColor | Allons-y/SceneKitView.swift:96-111 | The colour inside each timed half of repeated pulses, whatever follows them. |
| AlertAnimation.PulsesThenRed | Allons-y/SceneKitView.swift:111-118 | After all the pulses, the closing setRed leaves solid red. |
| AlertAnimation.PulsesWellFormed | Allons-y/SceneKitView.swift:94-111 | Every timed step of the pulses has a positive duration. |

## Left out

- Floating point: colours, angles, scale and timestamps are reals. The `Float`, `CGFloat` and `Double` conversions are not modelled.
- DegreesToRadians: multiplies by a fixed real approximation of π. The `Float` rounding is not modelled.
- The `CADisplayLink` and its run-loop registration: a frame is a call of `Tick` with a timestamp.
- The zero-timestamp sentinel: a real frame stamped exactly 0 behaves as in the code (it counts as "no timestamp yet"). `SpinFromStop` and `SpinTicksTelescope` assume non-zero timestamps; `SpinNeverReverses` does not need them.
- SCNAction scheduling: the renderer's interleaving of the actions of several nodes within one frame is not modelled. The alert is an explicit step list with a per-node elapsed time, advanced by `StepAlert`.
- Dictionary iteration order: `parts.values` has no fixed order in Swift. The model visits keys in `PartKey` declaration order, and `RestartParts` states a result that does not depend on that order.
- Shared materials: `SCNMaterial` objects shared between nodes (aliasing) are not modelled. Every node owns its material colours.
- The weak `modelNode` reference becoming nil on its own is not modelled. `modelNode` is nil only until a model is attached.
- `makeUIView` scene construction (camera, lights, fallback box, asset loading) is not modelled. Only its coordinator part is (`AttachModel`).
- `dumpNodes` and `dumpIndex` only print and are not modelled. `fatalError("Bad Model")` is the `badModel` result.
- String equality: Swift compares node names up to Unicode canonical equivalence, while the model compares them character by character. The five part names are ASCII, where the two agree.
- `localizedCaseInsensitiveContains`: its locale and case rules are not modelled. The containing-name searches take the test as a function parameter.
- `ContentView.swift` and `SceneViewModel.swift` (SwiftUI layout and published fields) are not modelled. `ViewModel` carries the fields `updateUIView` reads.
- `redAlertVersion` is read at Allons-y/SceneKitView.swift:90 but not declared in `SceneViewModel.swift`. It is an `int` parameter of `UpdateView`.
