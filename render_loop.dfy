/**
 * The render thread: the scene assembled once before the loop, and one
 * iteration of the loop, which applies a pending resize, moves the camera for
 * the held keys, resets the mouse delta, poses the animated nodes and
 * traverses the scene. Clock readings and the heading animation's output are
 * parameters of an iteration.
 */
module RenderLoop {
  import opened Base
  import opened Keys
  import opened SceneGraph
  import opened SharedState

  // ---------------------------------------------------------------------
  // Camera movement for the held keys
  // ---------------------------------------------------------------------

  /** Camera translation rate, in units per second. */
  const CAMERA_SPEED: real := 10.0

  /** The camera after one held key moved it by `step` along its axis. */
  function MoveBy(cam: Vec3, k: Key, step: real): Vec3 {
    match k
    case A => cam.(x := cam.x - step)
    case D => cam.(x := cam.x + step)
    case W => cam.(z := cam.z - step)
    case S => cam.(z := cam.z + step)
    case Space => cam.(y := cam.y + step)
    case LShift => cam.(y := cam.y - step)
    case _ => cam
  }

  /** The camera after every key of the list, in list order, moved it. */
  function Moved(cam: Vec3, keys: seq<Key>, step: real): Vec3
    decreases |keys|
  {
    if keys == [] then cam else MoveBy(Moved(cam, keys[..|keys| - 1], step), keys[|keys| - 1], step)
  }

  /** The loop over the locked key list. */
  method MoveCamera(cam: Vec3, keys: seq<Key>, deltaTime: real) returns (c: Vec3)
    ensures c == Moved(cam, keys, CAMERA_SPEED * deltaTime)
  {
    c := cam;
    var i := 0;
    while i < |keys|
      invariant 0 <= i <= |keys|
      invariant c == Moved(cam, keys[..i], CAMERA_SPEED * deltaTime)
    {
      assert keys[..i + 1][..i] == keys[..i];
      c := MoveBy(c, keys[i], CAMERA_SPEED * deltaTime);
      i := i + 1;
    }
    assert keys[..i] == keys;
  }

  /** `step` when `k` is held, else 0. */
  function IfHeld(k: Key, keys: seq<Key>, step: real): real {
    if k in keys then step else 0.0
  }

  /**
   * On a key list without duplicates each axis moves by `step` for the held
   * key of its positive direction and back by `step` for the held key of its
   * negative one: axes are independent, keys compose additively, opposite keys
   * cancel, and other keys do nothing.
   */
  lemma {:induction false} MovedDisplacement(cam: Vec3, keys: seq<Key>, step: real)
    requires NoDuplicates(keys)
    ensures Moved(cam, keys, step) == Vec3(
      cam.x + IfHeld(D, keys, step) - IfHeld(A, keys, step),
      cam.y + IfHeld(Space, keys, step) - IfHeld(LShift, keys, step),
      cam.z + IfHeld(S, keys, step) - IfHeld(W, keys, step))
    decreases |keys|
  {
    if keys != [] {
      var init := keys[..|keys| - 1];
      var last := keys[|keys| - 1];
      assert keys == init + [last];
      assert NoDuplicates(init);
      assert last !in init;
      MovedDisplacement(cam, init, step);
      IfHeldAppend(D, init, last, step);
      IfHeldAppend(A, init, last, step);
      IfHeldAppend(Space, init, last, step);
      IfHeldAppend(LShift, init, last, step);
      IfHeldAppend(S, init, last, step);
      IfHeldAppend(W, init, last, step);
    }
  }

  lemma IfHeldAppend(k: Key, init: seq<Key>, last: Key, step: real)
    requires last !in init
    ensures IfHeld(k, init + [last], step) == IfHeld(k, init, step) + (if k == last then step else 0.0)
  {
    assert k in init + [last] <==> k in init || k == last;
  }

  // ---------------------------------------------------------------------
  // Scene assembly
  // ---------------------------------------------------------------------

  /** An uploaded mesh: its VAO name and element count. */
  datatype Mesh = Mesh(vaoId: U32, indexCount: I32)

  const ORIGIN: Vec3 := Vec3(0.0, 0.0, 0.0)
  const UNIT_SCALE: Vec3 := Vec3(1.0, 1.0, 1.0)

  /** `SceneNode::new()`: an empty node without geometry. */
  function NewNode(): Node {
    Node(ORIGIN, ORIGIN, UNIT_SCALE, ORIGIN, 0, 0, [])
  }

  /** `SceneNode::from_vao(vao, count)`: an untransformed node with that geometry. */
  function FromVao(m: Mesh): Node {
    Node(ORIGIN, ORIGIN, UNIT_SCALE, ORIGIN, m.vaoId, m.indexCount, [])
  }

  /** `add_child`: append as the last child. */
  function AddChild(parent: Node, child: Node): Node {
    parent.(children := parent.children + [child])
  }

  const TERRAIN: Path := [0]
  const BODY: Path := [0, 0]
  const DOOR: Path := [0, 0, 0]
  const MAIN_ROTOR: Path := [0, 0, 1]
  const TAIL_ROTOR: Path := [0, 0, 2]
  const TAIL_ROTOR_PIVOT: Vec3 := Vec3(0.35, 2.3, 10.4)

  /** The root, the terrain under it, the body under that and its three parts. */
  function HelicopterScene(terrain: Mesh, body: Mesh, door: Mesh, mainRotor: Mesh, tailRotor: Mesh): Node {
    var terrainNode := FromVao(terrain).(referencePoint := ORIGIN);
    var bodyNode := FromVao(body).(referencePoint := ORIGIN);
    var doorNode := FromVao(door);
    var mainRotorNode := FromVao(mainRotor).(referencePoint := ORIGIN);
    var tailRotorNode := FromVao(tailRotor).(referencePoint := TAIL_ROTOR_PIVOT);
    var withParts := AddChild(AddChild(AddChild(bodyNode, doorNode), mainRotorNode), tailRotorNode);
    AddChild(NewNode(), AddChild(terrainNode, withParts))
  }

  /** The five animated or drawn addresses exist. */
  predicate HasHelicopterShape(n: Node) {
    ValidPath(n, TERRAIN) && ValidPath(n, BODY) && ValidPath(n, DOOR) &&
    ValidPath(n, MAIN_ROTOR) && ValidPath(n, TAIL_ROTOR)
  }

  /** The scene as a nested value: root, terrain, body, and door, main and tail rotor. */
  function HelicopterTree(terrain: Mesh, body: Mesh, door: Mesh, mainRotor: Mesh, tailRotor: Mesh): Node {
    var parts := [FromVao(door), FromVao(mainRotor), FromVao(tailRotor).(referencePoint := TAIL_ROTOR_PIVOT)];
    NewNode().(children := [FromVao(terrain).(children := [FromVao(body).(children := parts)])])
  }

  /** The assembly by `add_child` builds exactly that tree. */
  lemma HelicopterSceneIsTree(terrain: Mesh, body: Mesh, door: Mesh, mainRotor: Mesh, tailRotor: Mesh)
    ensures HelicopterScene(terrain, body, door, mainRotor, tailRotor) == HelicopterTree(terrain, body, door, mainRotor, tailRotor)
  {
    var parts := [FromVao(door), FromVao(mainRotor), FromVao(tailRotor).(referencePoint := TAIL_ROTOR_PIVOT)];
    assert [] + [parts[0]] + [parts[1]] + [parts[2]] == parts;
    var b := FromVao(body).(children := parts);
    assert [] + [b] == [b];
    var t := FromVao(terrain).(children := [b]);
    assert [] + [t] == [t];
  }

  /**
   * The assembled scene has the five parts at their addresses with their own
   * geometry and the tail rotor's pivot; the root has no geometry.
   */
  lemma HelicopterSceneShape(terrain: Mesh, body: Mesh, door: Mesh, mainRotor: Mesh, tailRotor: Mesh)
    ensures HasHelicopterShape(HelicopterScene(terrain, body, door, mainRotor, tailRotor))
    ensures !HasGeometry(HelicopterScene(terrain, body, door, mainRotor, tailRotor))
    ensures At(HelicopterScene(terrain, body, door, mainRotor, tailRotor), TERRAIN) == FromVao(terrain).(children := At(HelicopterScene(terrain, body, door, mainRotor, tailRotor), TERRAIN).children)
    ensures At(HelicopterScene(terrain, body, door, mainRotor, tailRotor), BODY) == FromVao(body).(children := At(HelicopterScene(terrain, body, door, mainRotor, tailRotor), BODY).children)
    ensures At(HelicopterScene(terrain, body, door, mainRotor, tailRotor), DOOR) == FromVao(door)
    ensures At(HelicopterScene(terrain, body, door, mainRotor, tailRotor), MAIN_ROTOR) == FromVao(mainRotor)
    ensures At(HelicopterScene(terrain, body, door, mainRotor, tailRotor), TAIL_ROTOR) == FromVao(tailRotor).(referencePoint := TAIL_ROTOR_PIVOT)
  {
    HelicopterSceneIsTree(terrain, body, door, mainRotor, tailRotor);
    assert TERRAIN[1..] == [] && BODY[1..] == [0] && BODY[1..][1..] == [];
    assert DOOR[1..] == [0, 0] && DOOR[1..][1..] == [0] && DOOR[1..][1..][1..] == [];
    assert MAIN_ROTOR[1..] == [0, 1] && MAIN_ROTOR[1..][1..] == [1] && MAIN_ROTOR[1..][1..][1..] == [];
    assert TAIL_ROTOR[1..] == [0, 2] && TAIL_ROTOR[1..][1..] == [2] && TAIL_ROTOR[1..][1..][1..] == [];
  }

  /** A mesh that passes the draw guard. */
  predicate NonEmpty(m: Mesh) {
    m.vaoId != 0 && m.indexCount > 0
  }

  /**
   * With non-empty meshes, a traversal of the assembled scene draws exactly
   * terrain, body, door, main rotor and tail rotor, in that order, each with
   * its own VAO and element count.
   */
  lemma HelicopterSceneDraws(terrain: Mesh, body: Mesh, door: Mesh, mainRotor: Mesh, tailRotor: Mesh, vp: Transform)
    requires NonEmpty(terrain) && NonEmpty(body) && NonEmpty(door) && NonEmpty(mainRotor) && NonEmpty(tailRotor)
    ensures Skeleton(DrawScene(HelicopterScene(terrain, body, door, mainRotor, tailRotor), [], vp, [])) ==
      [ (TERRAIN, terrain.vaoId, terrain.indexCount), (BODY, body.vaoId, body.indexCount),
        (DOOR, door.vaoId, door.indexCount), (MAIN_ROTOR, mainRotor.vaoId, mainRotor.indexCount),
        (TAIL_ROTOR, tailRotor.vaoId, tailRotor.indexCount) ]
  {
    HelicopterSceneIsTree(terrain, body, door, mainRotor, tailRotor);
    var n := HelicopterTree(terrain, body, door, mainRotor, tailRotor);
    var t := n.children[0];
    var b := t.children[0];
    var wt := [] + Local(n) + Local(t);
    var wb := wt + Local(b);
    var parts := DrawChildren(b, wb, vp, BODY, 0);
    PartsDraws(b, wb, vp);
    var bodyDraws := DrawScene(b, wt, vp, BODY);
    var own := [DrawCall(BODY, body.vaoId, body.indexCount, vp + wb, wb)];
    assert bodyDraws == own + parts;
    SkeletonConcat(own, parts);
    assert TERRAIN + [0] == BODY && [] + [0] == TERRAIN;
    assert DrawChildren(t, wt, vp, TERRAIN, 0) == bodyDraws;
    var terrainDraws := DrawScene(t, [] + Local(n), vp, TERRAIN);
    var ownT := [DrawCall(TERRAIN, terrain.vaoId, terrain.indexCount, vp + wt, wt)];
    assert terrainDraws == ownT + bodyDraws;
    SkeletonConcat(ownT, bodyDraws);
    assert Skeleton(own) == [(BODY, body.vaoId, body.indexCount)];
    assert Skeleton(ownT) == [(TERRAIN, terrain.vaoId, terrain.indexCount)];
    assert DrawChildren(n, [] + Local(n), vp, [], 0) == terrainDraws;
    assert DrawScene(n, [], vp, []) == terrainDraws;
  }

  /** A drawable leaf issues exactly its own draw call. */
  lemma LeafDraws(n: Node, world: Transform, vp: Transform, path: Path)
    requires HasGeometry(n) && n.children == []
    ensures Skeleton(DrawScene(n, world, vp, path)) == [(path, n.vaoId, n.indexCount)]
  {
    assert DrawChildren(n, world + Local(n), vp, path, 0) == [];
  }

  /** The body's three drawable parts are drawn in insertion order. */
  lemma PartsDraws(b: Node, world: Transform, vp: Transform)
    requires |b.children| == 3
    requires forall i :: 0 <= i < 3 ==> HasGeometry(b.children[i]) && b.children[i].children == []
    ensures Skeleton(DrawChildren(b, world, vp, BODY, 0)) ==
      [ (DOOR, b.children[0].vaoId, b.children[0].indexCount),
        (MAIN_ROTOR, b.children[1].vaoId, b.children[1].indexCount),
        (TAIL_ROTOR, b.children[2].vaoId, b.children[2].indexCount) ]
  {
    assert BODY + [0] == DOOR && BODY + [1] == MAIN_ROTOR && BODY + [2] == TAIL_ROTOR;
    var d := DrawScene(b.children[0], world, vp, DOOR);
    var m := DrawScene(b.children[1], world, vp, MAIN_ROTOR);
    var r := DrawScene(b.children[2], world, vp, TAIL_ROTOR);
    LeafDraws(b.children[0], world, vp, DOOR);
    LeafDraws(b.children[1], world, vp, MAIN_ROTOR);
    LeafDraws(b.children[2], world, vp, TAIL_ROTOR);
    assert DrawChildren(b, world, vp, BODY, 2) == r;
    assert DrawChildren(b, world, vp, BODY, 1) == m + r;
    assert DrawChildren(b, world, vp, BODY, 0) == d + (m + r);
    SkeletonConcat(m, r);
    SkeletonConcat(d, m + r);
  }

  // ---------------------------------------------------------------------
  // One frame
  // ---------------------------------------------------------------------

  /** Rotor angular rate, in radians per second. */
  const ROTOR_SPEED: real := 10.0
  /** The body's fixed altitude. */
  const BODY_ALTITUDE: real := 50.0

  /** The output of the heading animation at some elapsed time. */
  datatype Heading = Heading(x: real, z: real, roll: real, pitch: real, yaw: real)

  /**
   * The animation step: the main rotor spins about Y and the tail rotor about
   * X by `elapsed * ROTOR_SPEED`; the body takes the heading's position at
   * the fixed altitude and its roll, pitch and yaw as rotation x, y and z.
   */
  function Animate(n: Node, elapsed: real, h: Heading): Node
    requires HasHelicopterShape(n)
  {
    var main := At(n, MAIN_ROTOR);
    var n1 := SetPose(n, MAIN_ROTOR, main.position, main.rotation.(y := elapsed * ROTOR_SPEED));
    SetPoseKeepsPaths(n, MAIN_ROTOR, main.position, main.rotation.(y := elapsed * ROTOR_SPEED), TAIL_ROTOR);
    var tail := At(n1, TAIL_ROTOR);
    var n2 := SetPose(n1, TAIL_ROTOR, tail.position, tail.rotation.(x := elapsed * ROTOR_SPEED));
    SetPoseKeepsPaths(n1, TAIL_ROTOR, tail.position, tail.rotation.(x := elapsed * ROTOR_SPEED), BODY);
    SetPose(n2, BODY, Vec3(h.x, BODY_ALTITUDE, h.z), Vec3(h.roll, h.pitch, h.yaw))
  }

  /**
   * The animation moves only the three animated nodes, sets exactly the
   * fields the loop writes, and keeps the skeleton of the scene.
   */
  lemma AnimateEffect(n: Node, elapsed: real, h: Heading, q: Path)
    requires HasHelicopterShape(n) && ValidPath(n, q)
    ensures SameSkeleton(Animate(n, elapsed, h), n) && HasHelicopterShape(Animate(n, elapsed, h))
    ensures ValidPath(Animate(n, elapsed, h), q)
    ensures q == BODY ==>
      At(Animate(n, elapsed, h), q).position == Vec3(h.x, BODY_ALTITUDE, h.z) &&
      At(Animate(n, elapsed, h), q).rotation == Vec3(h.roll, h.pitch, h.yaw) &&
      At(Animate(n, elapsed, h), q).scale == At(n, q).scale &&
      At(Animate(n, elapsed, h), q).referencePoint == At(n, q).referencePoint &&
      At(Animate(n, elapsed, h), q).vaoId == At(n, q).vaoId &&
      At(Animate(n, elapsed, h), q).indexCount == At(n, q).indexCount
    ensures q == MAIN_ROTOR ==>
      At(Animate(n, elapsed, h), q) == At(n, q).(rotation := At(n, q).rotation.(y := elapsed * ROTOR_SPEED))
    ensures q == TAIL_ROTOR ==>
      At(Animate(n, elapsed, h), q) == At(n, q).(rotation := At(n, q).rotation.(x := elapsed * ROTOR_SPEED))
    ensures q != BODY && q != MAIN_ROTOR && q != TAIL_ROTOR ==>
      Local(At(Animate(n, elapsed, h), q)) == Local(At(n, q))
  {
    var main := At(n, MAIN_ROTOR);
    var mainRot := main.rotation.(y := elapsed * ROTOR_SPEED);
    var n1 := SetPose(n, MAIN_ROTOR, main.position, mainRot);
    SetPoseKeepsPaths(n, MAIN_ROTOR, main.position, mainRot, TAIL_ROTOR);
    SetPoseKeepsPaths(n, MAIN_ROTOR, main.position, mainRot, BODY);
    var tail := At(n1, TAIL_ROTOR);
    var tailRot := tail.rotation.(x := elapsed * ROTOR_SPEED);
    var n2 := SetPose(n1, TAIL_ROTOR, tail.position, tailRot);
    SetPoseKeepsPaths(n1, TAIL_ROTOR, tail.position, tailRot, BODY);
    var pos := Vec3(h.x, BODY_ALTITUDE, h.z);
    var rot := Vec3(h.roll, h.pitch, h.yaw);
    var n3 := SetPose(n2, BODY, pos, rot);
    assert n3 == Animate(n, elapsed, h);

    SetPoseSameSkeleton(n, MAIN_ROTOR, main.position, mainRot);
    SetPoseSameSkeleton(n1, TAIL_ROTOR, tail.position, tailRot);
    SetPoseSameSkeleton(n2, BODY, pos, rot);
    SameSkeletonTransitive(n3, n2, n1);
    SameSkeletonTransitive(n3, n1, n);

    SetPoseAt(n, MAIN_ROTOR, main.position, mainRot, q);
    SetPoseAt(n1, TAIL_ROTOR, tail.position, tailRot, q);
    SetPoseAt(n2, BODY, pos, rot, q);
    forall p | p in {TERRAIN, BODY, DOOR, MAIN_ROTOR, TAIL_ROTOR} ensures ValidPath(n3, p) {
      SetPoseKeepsPaths(n, MAIN_ROTOR, main.position, mainRot, p);
      SetPoseKeepsPaths(n1, TAIL_ROTOR, tail.position, tailRot, p);
      SetPoseKeepsPaths(n2, BODY, pos, rot, p);
    }
    if q == TAIL_ROTOR {
      SetPoseAt(n, MAIN_ROTOR, main.position, mainRot, TAIL_ROTOR);
    }
  }

  /** `projection_matrix * view_matrix` for the current aspect ratio and camera. */
  function ViewProjection(aspect: Ratio, camera: Vec3): Transform {
    [ Perspective(aspect, 45.0, 0.1, 1000.0),
      LookAt(camera, Add(camera, Vec3(0.0, 0.0, -1.0)), Vec3(0.0, 1.0, 0.0)) ]
  }

  /** The render thread's state between iterations of its loop. */
  class Renderer {
    var aspect: Ratio
    var camera: Vec3
    var scene: Node
    /** The scene as assembled, before any animation. */
    ghost const assembled: Node

    ghost predicate Valid()
      reads this
    {
      HasHelicopterShape(scene) && SameSkeleton(scene, assembled)
    }

    /** Set-up before the loop: initial aspect ratio, camera position and scene. */
    constructor (terrain: Mesh, body: Mesh, door: Mesh, mainRotor: Mesh, tailRotor: Mesh)
      ensures Valid()
      ensures aspect == Ratio(INITIAL_SCREEN_W, INITIAL_SCREEN_H)
      ensures camera == Vec3(0.0, 50.0, 200.0)
      ensures scene == assembled == HelicopterScene(terrain, body, door, mainRotor, tailRotor)
    {
      aspect := Ratio(INITIAL_SCREEN_W, INITIAL_SCREEN_H);
      camera := Vec3(0.0, 50.0, 200.0);
      var n := HelicopterScene(terrain, body, door, mainRotor, tailRotor);
      HelicopterSceneShape(terrain, body, door, mainRotor, tailRotor);
      SameSkeletonReflexive(n);
      scene := n;
      assembled := n;
    }

    /**
     * One iteration of the loop; returns the draw calls of the traversal.
     * The key list is read, not changed; the mouse delta is reset unread.
     */
    method Frame(sizes: WindowSizeCell, keys: PressedKeys, mouse: MouseDeltaCell,
                 elapsed: real, deltaTime: real, heading: Heading) returns (trace: seq<DrawCall>)
      requires Valid()
      modifies this, sizes, mouse
      ensures Valid()
      ensures (sizes.size, aspect) == ApplyResize(old(sizes.size), old(aspect))
      ensures camera == Moved(old(camera), keys.keys, CAMERA_SPEED * deltaTime)
      ensures mouse.delta == (0.0, 0.0)
      ensures scene == Animate(old(scene), elapsed, heading)
      ensures trace == DrawScene(scene, [], ViewProjection(aspect, camera), [])
      ensures Skeleton(trace) == Skeleton(DrawScene(assembled, [], [], []))
    {
      var resized := sizes.TakeResize();
      if resized.Some? {
        aspect := resized.value;
      }

      camera := MoveCamera(camera, keys.keys, deltaTime);

      mouse.Reset();

      var before := scene;
      scene := Animate(scene, elapsed, heading);
      AnimateEffect(before, elapsed, heading, []);
      SameSkeletonTransitive(scene, before, assembled);

      trace := DrawScene(scene, [], ViewProjection(aspect, camera), []);
      SkeletonIgnoresTransforms(scene, assembled, [], [], ViewProjection(aspect, camera), [], []);
    }
  }
}
