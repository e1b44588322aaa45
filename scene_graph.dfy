/**
 * The scene graph and its recursive traversal `draw_scene`.
 *
 * A transform is kept symbolic: the sequence of glm operations that build the
 * 4x4 matrix, each applied on the right of the running product. Matrix
 * multiplication is associative with the identity as unit, so sequence
 * concatenation (with `[]` as identity) is a faithful abstraction of the
 * products the traversal forms.
 */
module SceneGraph {
  import opened Base

  /** One glm call on the running matrix. */
  datatype Op =
    | Translate(offset: Vec3)
    | RotateX(angle: real)
    | RotateY(angle: real)
    | RotateZ(angle: real)
    | Scale(factors: Vec3)
    | Perspective(aspect: Ratio, fovDegrees: real, near: real, far: real)
    | LookAt(eye: Vec3, center: Vec3, up: Vec3)

  /** The ordered product of the operations; `[]` is the identity matrix. */
  type Transform = seq<Op>

  /**
   * A scene node with the fields the traversal reads. Children are the
   * subtrees in insertion order.
   */
  datatype Node = Node(
    position: Vec3,
    rotation: Vec3,
    scale: Vec3,
    referencePoint: Vec3,
    vaoId: U32,
    indexCount: I32,
    children: seq<Node>)

  /** The address of a node: the child indices followed from the root. */
  type Path = seq<nat>

  /** What one drawn node sends to the GPU: VAO, element count and both uniforms. */
  datatype DrawCall = DrawCall(path: Path, vaoId: U32, indexCount: I32, mvp: Transform, model: Transform)

  /** The local transform, in the fixed order of the seven glm calls. */
  function Local(n: Node): Transform {
    [ Translate(n.position),
      Translate(n.referencePoint),
      RotateX(n.rotation.x),
      RotateY(n.rotation.y),
      RotateZ(n.rotation.z),
      Translate(Neg(n.referencePoint)),
      Scale(n.scale) ]
  }

  /** The draw guard: a non-zero VAO and a positive element count. */
  predicate HasGeometry(n: Node) {
    n.vaoId != 0 && n.indexCount > 0
  }

  /**
   * `draw_scene(node, transformation_so_far, view_projection_matrix, _)` as
   * the sequence of draw calls it issues; `path` is the node's address.
   */
  function DrawScene(n: Node, soFar: Transform, vp: Transform, path: Path): seq<DrawCall>
    decreases n, 1
  {
    var world := soFar + Local(n);
    (if HasGeometry(n) then [DrawCall(path, n.vaoId, n.indexCount, vp + world, world)] else [])
    + DrawChildren(n, world, vp, path, 0)
  }

  /** The `for` loop over `node.children`, from child `i` on. */
  function DrawChildren(n: Node, world: Transform, vp: Transform, path: Path, i: nat): seq<DrawCall>
    requires i <= |n.children|
    decreases n, 0, |n.children| - i
  {
    if i == |n.children| then []
    else DrawScene(n.children[i], world, vp, path + [i]) + DrawChildren(n, world, vp, path, i + 1)
  }

  // ---------------------------------------------------------------------
  // Addresses, and the reference definition of a node's world transform
  // ---------------------------------------------------------------------

  predicate ValidPath(n: Node, p: Path)
    decreases p
  {
    p == [] || (p[0] < |n.children| && ValidPath(n.children[p[0]], p[1..]))
  }

  /** The node at address `p`. */
  function At(n: Node, p: Path): Node
    requires ValidPath(n, p)
    decreases p
  {
    if p == [] then n else At(n.children[p[0]], p[1..])
  }

  /** The composition of the local transforms from `n` down to the node at `p`. */
  function WorldAlong(n: Node, p: Path): Transform
    requires ValidPath(n, p)
    decreases p
  {
    Local(n) + (if p == [] then [] else WorldAlong(n.children[p[0]], p[1..]))
  }

  /** `p` is a proper prefix of `q`. */
  predicate Extends(q: Path, p: Path) {
    |p| < |q| && q[..|p|] == p
  }

  /**
   * Depth-first pre-order on addresses: an ancestor comes before its
   * descendants, and an earlier sibling's subtree before a later one's.
   */
  predicate Before(p: Path, q: Path)
    decreases |p|
  {
    q != [] && (p == [] || p[0] < q[0] || (p[0] == q[0] && Before(p[1..], q[1..])))
  }

  predicate InPreOrder(t: seq<DrawCall>) {
    forall i, j :: 0 <= i < j < |t| ==> Before(t[i].path, t[j].path)
  }

  /** `e` is the draw call of the drawable node at `e.path`, below `pre`. */
  predicate DrawnFrom(n: Node, soFar: Transform, vp: Transform, pre: Path, e: DrawCall) {
    |pre| <= |e.path| && e.path[..|pre|] == pre &&
    var q := e.path[|pre|..];
    ValidPath(n, q) && HasGeometry(At(n, q)) &&
    e.vaoId == At(n, q).vaoId && e.indexCount == At(n, q).indexCount &&
    e.model == soFar + WorldAlong(n, q) && e.mvp == vp + e.model
  }

  // ---------------------------------------------------------------------
  // Properties of the traversal
  // ---------------------------------------------------------------------

  /**
   * Soundness: every draw call comes from a drawable node below the start,
   * with that node's VAO and count, and with the inherited transform times
   * the root-to-node composition of local transforms as its model matrix.
   */
  lemma {:induction false} DrawSceneSound(n: Node, soFar: Transform, vp: Transform, pre: Path)
    ensures forall e :: e in DrawScene(n, soFar, vp, pre) ==> DrawnFrom(n, soFar, vp, pre, e)
    decreases n, 1
  {
    var world := soFar + Local(n);
    DrawChildrenSound(n, world, vp, pre, 0);
    forall e | e in DrawScene(n, soFar, vp, pre) ensures DrawnFrom(n, soFar, vp, pre, e) {
      if e !in DrawChildren(n, world, vp, pre, 0) {
        assert e.path == pre && e.path[|pre|..] == [];
      } else {
        var j := e.path[|pre|];
        var c := n.children[j];
        assert DrawnFrom(c, world, vp, pre + [j], e);
        var q := e.path[|pre|..];
        var q' := e.path[|pre| + 1..];
        assert e.path[..|pre + [j]|] == pre + [j];
        assert q[0] == j && q[1..] == q';
        assert ValidPath(n, q);
        assert At(n, q) == At(c, q');
        assert WorldAlong(n, q) == Local(n) + WorldAlong(c, q');
        assert e.model == world + WorldAlong(c, q');
      }
    }
  }

  lemma {:induction false} DrawChildrenSound(n: Node, world: Transform, vp: Transform, pre: Path, i: nat)
    requires i <= |n.children|
    ensures forall e :: e in DrawChildren(n, world, vp, pre, i) ==>
      |pre| < |e.path| && e.path[..|pre|] == pre && i <= e.path[|pre|] < |n.children| &&
      DrawnFrom(n.children[e.path[|pre|]], world, vp, pre + [e.path[|pre|]], e)
    decreases n, 0, |n.children| - i
  {
    if i < |n.children| {
      DrawSceneSound(n.children[i], world, vp, pre + [i]);
      DrawChildrenSound(n, world, vp, pre, i + 1);
      forall e | e in DrawScene(n.children[i], world, vp, pre + [i])
        ensures |pre| < |e.path| && e.path[..|pre|] == pre && e.path[|pre|] == i
      {
        assert e.path[..|pre| + 1] == pre + [i];
        assert e.path[..|pre|] == (pre + [i])[..|pre|];
      }
    }
  }

  /** Completeness: every drawable node below the start is drawn, at its own address. */
  lemma {:induction false} DrawSceneComplete(n: Node, soFar: Transform, vp: Transform, pre: Path, q: Path)
    requires ValidPath(n, q) && HasGeometry(At(n, q))
    ensures exists e :: e in DrawScene(n, soFar, vp, pre) && e.path == pre + q
    decreases q
  {
    if q == [] {
      assert pre + q == pre;
      var e := DrawCall(pre, n.vaoId, n.indexCount, vp + (soFar + Local(n)), soFar + Local(n));
      assert e in DrawScene(n, soFar, vp, pre);
    } else {
      var j := q[0];
      var world := soFar + Local(n);
      DrawSceneComplete(n.children[j], world, vp, pre + [j], q[1..]);
      var e :| e in DrawScene(n.children[j], world, vp, pre + [j]) && e.path == pre + [j] + q[1..];
      ChildDrawsIncluded(n, world, vp, pre, 0, j);
      assert pre + [j] + q[1..] == pre + q;
    }
  }

  /** The calls of child `j`'s subtree are among those of the loop started at `i <= j`. */
  lemma {:induction false} ChildDrawsIncluded(n: Node, world: Transform, vp: Transform, pre: Path, i: nat, j: nat)
    requires i <= j < |n.children|
    ensures forall e :: e in DrawScene(n.children[j], world, vp, pre + [j]) ==> e in DrawChildren(n, world, vp, pre, i)
    decreases j - i
  {
    if i < j {
      ChildDrawsIncluded(n, world, vp, pre, i + 1, j);
    }
  }

  lemma {:induction false} BeforeExtension(p: Path, q: Path)
    requires Extends(q, p)
    ensures Before(p, q)
    decreases |p|
  {
    if p != [] {
      assert q[0] == p[0];
      assert q[1..][..|p| - 1] == p[1..];
      BeforeExtension(p[1..], q[1..]);
    }
  }

  lemma {:induction false} BeforeAcross(p: Path, q: Path, pre: Path)
    requires |pre| < |p| && |pre| < |q| && p[..|pre|] == pre && q[..|pre|] == pre
    requires p[|pre|] < q[|pre|]
    ensures Before(p, q)
    decreases |pre|
  {
    if pre != [] {
      assert p[0] == q[0] == pre[0];
      assert p[1..][..|pre| - 1] == pre[1..] && q[1..][..|pre| - 1] == pre[1..];
      BeforeAcross(p[1..], q[1..], pre[1..]);
    }
  }

  /** Pre-order is irreflexive, so no address appears twice in an ordered trace. */
  lemma {:induction false} BeforeIrreflexive(p: Path)
    ensures !Before(p, p)
    decreases |p|
  {
    if p != [] {
      BeforeIrreflexive(p[1..]);
    }
  }

  /** Concatenating two ordered traces, the first wholly before the second, is ordered. */
  lemma OrderedConcat(a: seq<DrawCall>, b: seq<DrawCall>)
    requires InPreOrder(a) && InPreOrder(b)
    requires forall x, y :: x in a && y in b ==> Before(x.path, y.path)
    ensures InPreOrder(a + b)
  {
    var t := a + b;
    forall i, j | 0 <= i < j < |t| ensures Before(t[i].path, t[j].path) {
      if j < |a| {
        assert t[i] == a[i] && t[j] == a[j];
      } else if i >= |a| {
        assert t[i] == b[i - |a|] && t[j] == b[j - |a|];
      } else {
        assert t[i] in a && t[j] in b;
      }
    }
  }

  /**
   * The trace is in depth-first pre-order: a node's own draw precedes its
   * descendants', and children's subtrees appear in insertion order.
   */
  lemma {:induction false} DrawSceneOrdered(n: Node, soFar: Transform, vp: Transform, pre: Path)
    ensures InPreOrder(DrawScene(n, soFar, vp, pre))
    decreases n, 1
  {
    var world := soFar + Local(n);
    var own := if HasGeometry(n) then [DrawCall(pre, n.vaoId, n.indexCount, vp + world, world)] else [];
    var rest := DrawChildren(n, world, vp, pre, 0);
    DrawChildrenOrdered(n, world, vp, pre, 0);
    DrawChildrenSound(n, world, vp, pre, 0);
    forall x, y | x in own && y in rest ensures Before(x.path, y.path) {
      BeforeExtension(pre, y.path);
    }
    OrderedConcat(own, rest);
  }

  lemma {:induction false} DrawChildrenOrdered(n: Node, world: Transform, vp: Transform, pre: Path, i: nat)
    requires i <= |n.children|
    ensures InPreOrder(DrawChildren(n, world, vp, pre, i))
    decreases n, 0, |n.children| - i
  {
    if i < |n.children| {
      var first := DrawScene(n.children[i], world, vp, pre + [i]);
      var rest := DrawChildren(n, world, vp, pre, i + 1);
      DrawSceneOrdered(n.children[i], world, vp, pre + [i]);
      DrawChildrenOrdered(n, world, vp, pre, i + 1);
      DrawChildrenSound(n, world, vp, pre, i);
      DrawChildrenSound(n, world, vp, pre, i + 1);
      ChildDrawsIncluded(n, world, vp, pre, i, i);
      forall x, y | x in first && y in rest ensures Before(x.path, y.path) {
        DrawSceneSound(n.children[i], world, vp, pre + [i]);
        assert x.path[..|pre| + 1] == pre + [i];
        assert x.path[..|pre|] == (pre + [i])[..|pre|];
        BeforeAcross(x.path, y.path, pre);
      }
      OrderedConcat(first, rest);
    }
  }

  /** Each drawable node is drawn exactly once. */
  lemma DrawnOnce(n: Node, soFar: Transform, vp: Transform, pre: Path)
    ensures forall i, j :: 0 <= i < j < |DrawScene(n, soFar, vp, pre)| ==>
      DrawScene(n, soFar, vp, pre)[i].path != DrawScene(n, soFar, vp, pre)[j].path
  {
    var t := DrawScene(n, soFar, vp, pre);
    DrawSceneOrdered(n, soFar, vp, pre);
    forall i, j | 0 <= i < j < |t| ensures t[i].path != t[j].path {
      BeforeIrreflexive(t[i].path);
    }
  }

  /** No node of the subtree passes the draw guard. */
  ghost predicate NothingDrawable(n: Node) {
    forall q :: ValidPath(n, q) ==> !HasGeometry(At(n, q))
  }

  /** A subtree with no drawable node issues no draw call; a bare root is one. */
  lemma {:induction false} NothingDrawableNothingDrawn(n: Node, soFar: Transform, vp: Transform, pre: Path)
    requires NothingDrawable(n)
    ensures DrawScene(n, soFar, vp, pre) == []
    decreases n, 1
  {
    assert ValidPath(n, []) && At(n, []) == n;
    NothingDrawableChildren(n, soFar + Local(n), vp, pre, 0);
  }

  lemma {:induction false} NothingDrawableChildren(n: Node, world: Transform, vp: Transform, pre: Path, i: nat)
    requires NothingDrawable(n) && i <= |n.children|
    ensures DrawChildren(n, world, vp, pre, i) == []
    decreases n, 0, |n.children| - i
  {
    if i < |n.children| {
      var c := n.children[i];
      forall q | ValidPath(c, q) ensures !HasGeometry(At(c, q)) {
        assert ([i] + q)[0] == i && ([i] + q)[1..] == q;
        assert ValidPath(n, [i] + q) && At(n, [i] + q) == At(c, q);
      }
      NothingDrawableNothingDrawn(c, world, vp, pre + [i]);
      NothingDrawableChildren(n, world, vp, pre, i + 1);
    }
  }

  /**
   * A node without geometry is not drawn, but its drawable children are, with
   * the parent's world transform times their own local transform.
   */
  lemma PivotDrawsChildren(n: Node, soFar: Transform, vp: Transform, pre: Path, i: nat)
    requires !HasGeometry(n) && i < |n.children| && HasGeometry(n.children[i])
    ensures forall e :: e in DrawScene(n, soFar, vp, pre) ==> e.path != pre
    ensures exists e :: (e in DrawScene(n, soFar, vp, pre) && e.path == pre + [i] &&
      e.model == soFar + Local(n) + Local(n.children[i]))
  {
    DrawSceneSound(n, soFar, vp, pre);
    forall e | e in DrawScene(n, soFar, vp, pre) ensures e.path != pre {
      assert DrawnFrom(n, soFar, vp, pre, e);
    }
    assert ValidPath(n.children[i], []);
    assert [i][1..] == [];
    DrawSceneComplete(n, soFar, vp, pre, [i]);
    var e :| e in DrawScene(n, soFar, vp, pre) && e.path == pre + [i];
    assert DrawnFrom(n, soFar, vp, pre, e);
    assert e.path[|pre|..] == [i];
    assert WorldAlong(n, [i]) == Local(n) + Local(n.children[i]);
  }

  /**
   * Each child inherits its parent's world: the world along `p + [i]` is the
   * world along `p` times the child's local transform.
   */
  lemma {:induction false} WorldInherited(n: Node, p: Path, i: nat)
    requires ValidPath(n, p + [i])
    ensures ValidPath(n, p) && i < |At(n, p).children|
    ensures At(n, p + [i]) == At(n, p).children[i]
    ensures WorldAlong(n, p + [i]) == WorldAlong(n, p) + Local(At(n, p).children[i])
    decreases p
  {
    if p == [] {
      assert [] + [i] == [i] && [i][1..] == [];
    } else {
      assert (p + [i])[0] == p[0] && (p + [i])[1..] == p[1..] + [i];
      WorldInherited(n.children[p[0]], p[1..], i);
    }
  }

  /**
   * Siblings never affect one another: replacing child `j` changes neither
   * the node nor the world transform at any address outside child `j`.
   */
  lemma SiblingsIndependent(n: Node, j: nat, c: Node, q: Path)
    requires j < |n.children| && ValidPath(n, q) && q != [] && q[0] != j
    ensures ValidPath(n.(children := n.children[j := c]), q)
    ensures At(n.(children := n.children[j := c]), q) == At(n, q)
    ensures WorldAlong(n.(children := n.children[j := c]), q) == WorldAlong(n, q)
  {
  }

  // ---------------------------------------------------------------------
  // The per-frame animation: new pose for one node, topology unchanged
  // ---------------------------------------------------------------------

  /** The tree with the node at `p` given a new position and rotation. */
  function SetPose(n: Node, p: Path, position: Vec3, rotation: Vec3): Node
    requires ValidPath(n, p)
    decreases p
  {
    if p == [] then n.(position := position, rotation := rotation)
    else n.(children := n.children[p[0] := SetPose(n.children[p[0]], p[1..], position, rotation)])
  }

  /** A pose change adds or removes no address. */
  lemma {:induction false} SetPoseKeepsPaths(n: Node, p: Path, position: Vec3, rotation: Vec3, q: Path)
    requires ValidPath(n, p)
    ensures ValidPath(SetPose(n, p, position, rotation), q) <==> ValidPath(n, q)
    decreases q
  {
    var r := SetPose(n, p, position, rotation);
    if q != [] && p != [] && q[0] < |n.children| {
      if q[0] == p[0] {
        SetPoseKeepsPaths(n.children[p[0]], p[1..], position, rotation, q[1..]);
      } else {
        assert r.children[q[0]] == n.children[q[0]];
      }
    }
  }

  /**
   * The node at `p` gets exactly the new pose; every other node keeps its
   * local transform, its geometry and its number of children.
   */
  lemma {:induction false} SetPoseAt(n: Node, p: Path, position: Vec3, rotation: Vec3, q: Path)
    requires ValidPath(n, p) && ValidPath(n, q)
    ensures ValidPath(SetPose(n, p, position, rotation), q)
    ensures q == p ==> At(SetPose(n, p, position, rotation), q) == At(n, q).(position := position, rotation := rotation)
    ensures q != p ==>
      Local(At(SetPose(n, p, position, rotation), q)) == Local(At(n, q)) &&
      At(SetPose(n, p, position, rotation), q).vaoId == At(n, q).vaoId &&
      At(SetPose(n, p, position, rotation), q).indexCount == At(n, q).indexCount &&
      |At(SetPose(n, p, position, rotation), q).children| == |At(n, q).children|
    decreases q
  {
    SetPoseKeepsPaths(n, p, position, rotation, q);
    var r := SetPose(n, p, position, rotation);
    if p == [] {
      if q != [] {
        assert r.children == n.children;
      }
    } else if q != [] {
      if q[0] == p[0] {
        SetPoseAt(n.children[p[0]], p[1..], position, rotation, q[1..]);
        assert q == p <==> q[1..] == p[1..] by {
          if q[1..] == p[1..] {
            assert q == [q[0]] + q[1..] && p == [p[0]] + p[1..];
          }
        }
      } else {
        assert r.children[q[0]] == n.children[q[0]];
      }
    }
  }

  // ---------------------------------------------------------------------
  // What is drawn does not depend on the transforms
  // ---------------------------------------------------------------------

  /** The trace without its matrices: which node is drawn, with which VAO and count. */
  function Skeleton(t: seq<DrawCall>): seq<(Path, U32, I32)> {
    seq(|t|, i requires 0 <= i < |t| => (t[i].path, t[i].vaoId, t[i].indexCount))
  }

  lemma SkeletonConcat(a: seq<DrawCall>, b: seq<DrawCall>)
    ensures Skeleton(a + b) == Skeleton(a) + Skeleton(b)
  {
  }

  /** Two trees with the same topology and geometry; their transforms may differ. */
  predicate SameSkeleton(a: Node, b: Node)
    decreases a
  {
    a.vaoId == b.vaoId && a.indexCount == b.indexCount && |a.children| == |b.children| &&
    forall i :: 0 <= i < |a.children| ==> SameSkeleton(a.children[i], b.children[i])
  }

  lemma {:induction false} SameSkeletonReflexive(n: Node)
    ensures SameSkeleton(n, n)
    decreases n
  {
    forall i | 0 <= i < |n.children| ensures SameSkeleton(n.children[i], n.children[i]) {
      SameSkeletonReflexive(n.children[i]);
    }
  }

  /**
   * Trees with the same skeleton draw the same nodes, in the same order, with
   * the same VAOs and counts, whatever transforms they carry or inherit.
   */
  lemma {:induction false} SkeletonIgnoresTransforms(a: Node, b: Node, soFarA: Transform, soFarB: Transform,
                                                     vpA: Transform, vpB: Transform, pre: Path)
    requires SameSkeleton(a, b)
    ensures Skeleton(DrawScene(a, soFarA, vpA, pre)) == Skeleton(DrawScene(b, soFarB, vpB, pre))
    decreases a, 1
  {
    var ownA := if HasGeometry(a) then [DrawCall(pre, a.vaoId, a.indexCount, vpA + (soFarA + Local(a)), soFarA + Local(a))] else [];
    var ownB := if HasGeometry(b) then [DrawCall(pre, b.vaoId, b.indexCount, vpB + (soFarB + Local(b)), soFarB + Local(b))] else [];
    SkeletonConcat(ownA, DrawChildren(a, soFarA + Local(a), vpA, pre, 0));
    SkeletonConcat(ownB, DrawChildren(b, soFarB + Local(b), vpB, pre, 0));
    ChildSkeletonsIgnoreTransforms(a, b, soFarA + Local(a), soFarB + Local(b), vpA, vpB, pre, 0);
  }

  lemma {:induction false} ChildSkeletonsIgnoreTransforms(a: Node, b: Node, worldA: Transform, worldB: Transform,
                                                          vpA: Transform, vpB: Transform, pre: Path, i: nat)
    requires SameSkeleton(a, b) && i <= |a.children|
    ensures Skeleton(DrawChildren(a, worldA, vpA, pre, i)) == Skeleton(DrawChildren(b, worldB, vpB, pre, i))
    decreases a, 0, |a.children| - i
  {
    if i < |a.children| {
      SkeletonIgnoresTransforms(a.children[i], b.children[i], worldA, worldB, vpA, vpB, pre + [i]);
      ChildSkeletonsIgnoreTransforms(a, b, worldA, worldB, vpA, vpB, pre, i + 1);
      SkeletonConcat(DrawScene(a.children[i], worldA, vpA, pre + [i]), DrawChildren(a, worldA, vpA, pre, i + 1));
      SkeletonConcat(DrawScene(b.children[i], worldB, vpB, pre + [i]), DrawChildren(b, worldB, vpB, pre, i + 1));
    }
  }

  /** A pose change keeps the skeleton. */
  lemma {:induction false} SetPoseSameSkeleton(n: Node, p: Path, position: Vec3, rotation: Vec3)
    requires ValidPath(n, p)
    ensures SameSkeleton(SetPose(n, p, position, rotation), n)
    decreases p
  {
    var r := SetPose(n, p, position, rotation);
    forall i | 0 <= i < |n.children| ensures SameSkeleton(r.children[i], n.children[i]) {
      if p != [] && i == p[0] {
        SetPoseSameSkeleton(n.children[i], p[1..], position, rotation);
      } else {
        SameSkeletonReflexive(n.children[i]);
      }
    }
  }

  /** The skeleton relation is transitive, so any number of pose changes keep it. */
  lemma {:induction false} SameSkeletonTransitive(a: Node, b: Node, c: Node)
    requires SameSkeleton(a, b) && SameSkeleton(b, c)
    ensures SameSkeleton(a, c)
    decreases a
  {
    forall i | 0 <= i < |a.children| ensures SameSkeleton(a.children[i], c.children[i]) {
      SameSkeletonTransitive(a.children[i], b.children[i], c.children[i]);
    }
  }
}
