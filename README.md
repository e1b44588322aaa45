# Scene-graph renderer: verified model of its sequential core

This project models the logic of `src/works-no-image.rs` that does not touch
the GPU. That file renders a terrain and an articulated helicopter through a
scene graph. A render thread runs autonomously, and the event thread hands it
input through shared cells. Four pieces of sequential logic sit under the
OpenGL calls:

- **The pressed-key list** (`keys.dfy`, module `Keys`). The event thread keeps
  a `Vec<VirtualKeyCode>` as a set. A press pushes a key that is absent. A
  release finds the key's position and removes it. The class `PressedKeys`
  holds the list as a `seq` field. Its `Press` and `Release` methods use
  `Contains` and `Position`, which are loops as in Rust's `contains` and
  `iter().position`. The functions `AfterPress` and `AfterRelease` specify
  the two methods, and the lemmas are stated about those functions.
- **The traversal `draw_scene`** (`scene_graph.dfy`, module `SceneGraph`).
  A node is a datatype with the fields the traversal reads. Its children are
  an ordered sequence of subtrees. A transform is symbolic: the sequence of
  glm operations that make up the matrix, so composing two transforms is
  sequence concatenation. `Local` is the fixed seven-call local transform.
  `DrawScene` returns the draw calls the traversal issues. Each call carries
  the node's address (its path of child indices from the root), its VAO, its
  element count, the MVP uniform and the model uniform. The lemmas prove
  three things. The trace is sound and complete with respect to the draw
  guard. It is in depth-first pre-order. Each node's model matrix is the
  inherited transform times the root-to-node composition of local
  transforms.
- **The shared cells** (`shared_state.dfy`, module `SharedState`). These are
  the window-size cell `(w, h, pending)` with its resize hand-off, the
  mouse-delta accumulator, and the one-shot health flag. Each cell is a class
  whose methods are the two threads' critical sections.
- **The two loops** (`render_loop.dfy`, module `RenderLoop`, and
  `event_loop.dfy`, module `EventLoop`). `Renderer.Frame` is one iteration of
  the render loop. It applies a pending resize, moves the camera for the held
  keys, resets the mouse delta, poses the three animated nodes and traverses
  the scene. `HandleEvent` is the `el.run` closure. It polls the health flag,
  writes the event into the cells and chooses `Wait` or `Exit`. The scene
  assembly before the loop is `HelicopterScene`.

Clock readings (`elapsed`, `delta_time`), the output of the heading animation,
the mesh handles and the join outcome seen by the watchdog are all parameters.
Vectors have exact real components.

The specification functions have no contract of their own. The lemmas and
methods below state their properties. They are `AfterPress`, `AfterRelease`,
`Local`, `HasGeometry`, `DrawScene`, `DrawChildren`, `WorldAlong`, `SetPose`,
`ApplyResize`, `Run`, `HealthAfter`, `MoveBy` (the match on one held key,
lines 328-348), `Moved`, `AddChild` (`add_child`, lines 296-301), `Animate`,
`ViewProjection`, `KeysAfterEvent` and `KeysAfterEvents`.

## Model

| member | source | states |
|---|---|---|
| Keys.FirstIndex | src/works-no-image.rs:437 | the index found is in range, holds the key, and no earlier element holds it |
| Keys.Contains | src/works-no-image.rs:436 | the scan answers true exactly when the key is in the list |
| Keys.Position | src/works-no-image.rs:437 | None exactly when the key is absent; otherwise the first index holding the key |
| Keys.PressedKeys.constructor | src/works-no-image.rs:184 | the shared list starts empty, so it has no duplicates |
| Keys.PressedKeys.Press | src/works-no-image.rs:441-445 | the new list is AfterPress of the old one, and the no-duplicates invariant is kept |
| Keys.PressedKeys.Release | src/works-no-image.rs:435-440 | the new list is AfterRelease of the old one, the unwrap of the position cannot fail, and the no-duplicates invariant is kept |
| Keys.PressAppendsOnlyAbsent | src/works-no-image.rs:441-445 | a press of an absent key appends it at the end; a press of a present key changes nothing; pressing twice equals pressing once |
| Keys.PressKeepsNoDuplicates | src/works-no-image.rs:442-444 | a press keeps the list free of duplicates, makes the key a member and adds no other key |
| Keys.ReleaseRemovesOne | src/works-no-image.rs:435-440 | a release of a present key removes exactly one occurrence and keeps the rest in order; the length drops by one and the multiset loses one copy; a release of an absent key changes nothing |
| Keys.ReleaseKeepsNoDuplicates | src/works-no-image.rs:436-438 | on a duplicate-free list a release keeps it duplicate-free, the key is no longer a member, and every other key stays |
| Keys.ReleaseUndoesPress | src/works-no-image.rs:435-445 | pressing an absent key and then releasing it restores the list exactly |
| Keys.ReleaseIdempotent | src/works-no-image.rs:435-440 | on a duplicate-free list a second release of the same key changes nothing |
| SceneGraph.DrawSceneSound | src/works-no-image.rs:130-169 | every draw call comes from a node below the start that passes the guard; it carries that node's VAO and count; its model uniform is the inherited transform times the root-to-node composition of locals, and its MVP is the view-projection times the model |
| SceneGraph.DrawChildrenSound | src/works-no-image.rs:161-169 | every call of the children loop from child i on lies in the subtree of some child j >= i, at an address below that child |
| SceneGraph.DrawSceneComplete | src/works-no-image.rs:142-169 | every node below the start that passes the guard `vao_id != 0 && index_count > 0` is drawn at its own address, whatever its ancestors' geometry |
| SceneGraph.DrawSceneOrdered | src/works-no-image.rs:142-169 | the trace is in depth-first pre-order: a node's own draw precedes its descendants', and children's subtrees appear in insertion order |
| SceneGraph.DrawChildrenOrdered | src/works-no-image.rs:161-169 | the children loop visits the subtrees in insertion order, each one in pre-order |
| SceneGraph.DrawnOnce | src/works-no-image.rs:142-169 | no address occurs twice in the trace: each node is drawn at most once |
| SceneGraph.NothingDrawableNothingDrawn | src/works-no-image.rs:142-169 | a tree in which no node passes the guard issues no draw call; a root-only tree without geometry yields an empty trace |
| SceneGraph.PivotDrawsChildren | src/works-no-image.rs:139-169 | a node without geometry is not drawn, but its drawable child is, with model uniform equal to the inherited transform times the parent's local times the child's local |
| SceneGraph.WorldInherited | src/works-no-image.rs:139 | the world along the path p + [i] is the world along p times the local transform of child i, so each child inherits its parent's `transformation_so_far * local` |
| SceneGraph.SiblingsIndependent | src/works-no-image.rs:161-169 | replacing one child changes neither the node nor the world transform at any address under another child |
| SceneGraph.SkeletonIgnoresTransforms | src/works-no-image.rs:123-170 | two trees with the same topology and geometry draw the same addresses with the same VAOs and counts in the same order, whatever their transforms |
| SceneGraph.SetPoseKeepsPaths | src/works-no-image.rs:356-366 | changing one node's pose adds or removes no address |
| SceneGraph.SetPoseAt | src/works-no-image.rs:356-366 | the posed node gets exactly the new position and rotation; every other node keeps its local transform, its geometry and its number of children |
| SceneGraph.SetPoseSameSkeleton | src/works-no-image.rs:356-366 | a pose change keeps the topology and geometry of the tree |
| SharedState.ResizeTakenExactlyOnce | src/works-no-image.rs:316-324 | after an event write of (w, h), the cell reads (w, h, pending) and the aspect ratio is still the old one; the first render step takes w/h and clears the flag; later steps with no new write change neither the cell nor the aspect ratio |
| SharedState.FramesIdle | src/works-no-image.rs:316-324 | with no resize pending, any number of render steps leave the cell and the aspect ratio unchanged |
| SharedState.WindowSizeCell.constructor | src/works-no-image.rs:190 | the cell starts at (800, 600) with nothing pending |
| SharedState.WindowSizeCell.Write | src/works-no-image.rs:423-425 | an event write always sets (w, h, true) |
| SharedState.WindowSizeCell.TakeResize | src/works-no-image.rs:316-324 | when a resize is pending, the step returns the stored size and clears only the flag; otherwise it returns None and the cell is unchanged |
| SharedState.MouseDeltaCell.constructor | src/works-no-image.rs:187 | the accumulator starts at (0, 0) |
| SharedState.MouseDeltaCell.Accumulate | src/works-no-image.rs:455-458 | a motion event adds its delta to the running sum |
| SharedState.MouseDeltaCell.Reset | src/works-no-image.rs:351-353 | after the render-loop reset the accumulator is (0, 0) |
| SharedState.HealthNeverRecovers | src/works-no-image.rs:400-408 | the flag stays true exactly while every observed join succeeded, and once false it never becomes true again, whatever is observed later |
| SharedState.HealthFlag.constructor | src/works-no-image.rs:400 | the flag starts true |
| SharedState.HealthFlag.Watchdog | src/works-no-image.rs:402-408 | a failed join sets the flag to false and a clean one leaves it alone; the flag never goes from false to true |
| RenderLoop.MoveCamera | src/works-no-image.rs:326-350 | the loop over the held keys moves the camera exactly as Moved does, with step `10 * delta_time` |
| RenderLoop.MovedDisplacement | src/works-no-image.rs:326-350 | on a duplicate-free key list each axis moves by +step for its positive key and by -step for its negative key; axes are independent, opposite keys cancel and other keys do nothing |
| RenderLoop.HelicopterSceneIsTree | src/works-no-image.rs:277-301 | the `add_child` sequence builds root, then terrain, then body, then door, main rotor and tail rotor as body's children in that order |
| RenderLoop.HelicopterSceneShape | src/works-no-image.rs:277-301 | in the assembled scene the five parts sit at their addresses with their own geometry, the tail rotor has pivot (0.35, 2.3, 10.4), and the root has no geometry |
| RenderLoop.HelicopterSceneDraws | src/works-no-image.rs:277-301 | with non-empty meshes, one traversal draws exactly terrain, body, door, main rotor and tail rotor, in that order, each with its own VAO and count |
| RenderLoop.AnimateEffect | src/works-no-image.rs:355-366 | the animation sets the main rotor's rotation.y and the tail rotor's rotation.x to elapsed * 10, and sets the body's position to (x, 50, z) and its rotation to (roll, pitch, yaw) from the heading, keeping the body's scale, pivot and geometry; every other node keeps its local transform, and the topology and geometry are unchanged |
| RenderLoop.Renderer.constructor | src/works-no-image.rs:200-301 | the render thread starts with aspect ratio 800/600, camera at (0, 50, 200) and the assembled scene |
| RenderLoop.Renderer.Frame | src/works-no-image.rs:309-397 | one iteration applies a pending resize to the aspect ratio and the cell, moves the camera for the held keys, resets the mouse delta, animates the scene, and returns the traversal from the identity with the new view-projection; every frame draws the same nodes in the same order as the assembled scene |
| EventLoop.HandleEvent | src/works-no-image.rs:411-462 | the handler chooses Exit exactly when the flag reads false, on CloseRequested, or on an Escape or Q key event (press or release), and Wait otherwise; a resize writes (w, h, true), a key event updates the list as Press or Release, a motion adds to the delta, and nothing else changes |
| EventLoop.HeldIffLastPressed | src/works-no-image.rs:433-447 | after any series of events a duplicate-free key list stays duplicate-free; a key is held exactly when its last transition was a press, or when it had none and was held before |
| EventLoop.HeldFromStart | src/works-no-image.rs:184-185 | from the initial empty list, a key is held exactly when its last transition was a press |

## Left out

- All `gl::` calls are left out: `create_vao`, uniform location lookup and upload, `BindVertexArray`, `DrawElements`, the state set-up, `ClearColor`/`Clear` and `Viewport`. They are foreign GPU calls. A draw call in the trace carries the values those calls receive.
- `context.resize`, `swap_buffers`, window and context creation, and `println!` are left out. They are platform I/O.
- The shader program (`ShaderBuilder`, `activate`, `program_id`) is left out. Its source is not part of this model, and the traversal's `shader_program` argument is dropped.
- The pointer and size helpers `byte_size_of_array`, `pointer_to_array`, `size_of` and `offset` are left out. They are raw-pointer plumbing.
- `mesh::Terrain::load`, `Helicopter::load` and `toolbox::simple_heading_animation` are not part of this model. Meshes enter as `(vao, count)` pairs and the heading enters as a parameter of `Frame`.
- `scene_graph.rs` is not part of this model. `NewNode` and `FromVao` assume that the unseen constructors give position 0, rotation 0, scale 1, reference point 0 and no children. `NewNode` also assumes VAO 0 and count 0.
- Matrices are symbolic. A transform is the sequence of glm operations, so equalities proved here hold for the real matrices, but matrix identities such as "a rotation by 0 is the identity" are not captured. `perspective` and `look_at` are opaque operations carrying their arguments.
- Floating point is not modelled: `f32` rounding of the camera step `10.0 * delta_time`, of the rotor angle `elapsed * rotor_speed`, and of the mouse-delta sums. The aspect ratio is kept as the pair of `u32` that the source divides as `f32`, so division by a zero height is not modelled either.
- `Instant` time measurement is left out. `elapsed` and `delta_time` are parameters of `Frame`.
- Threads are left out: spawning, `join`, the three threads' interleaving and lock poisoning. Each method is one critical section run sequentially, and every lock acquisition is taken to succeed. The "skip this step when the lock is poisoned" branches are therefore not modelled. `SharedState.Run` models only the order of critical sections on the size cell.
- Only the key codes the program distinguishes (A, D, W, S, Space, LShift, Escape, Q) are named. Every other `VirtualKeyCode` is `Other(code)`. A keyboard event without a virtual key code is handled as `Other`, as the closure's pattern requires `Some(keycode)`.
- The render loop sets the mouse delta to (0, 0) without reading it (`src/works-no-image.rs:351-353`), so the accumulated motion is never used. The render thread has no stop signal. It ends only by a panic, which the watchdog observes through `join`.
