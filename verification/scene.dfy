/** The part of a three.js scene graph the editor's edits touch: a tree of objects, each with a
    uuid, a display name, a visibility flag and, for meshes, a geometry abstracted to its counts.
    `Find` is `Object3D.getObjectByProperty('uuid', u)`: a depth-first, pre-order search that
    answers with the first object carrying the uuid. */
module Scene {
  import opened Wrappers

  type Uuid = string

  /** A buffer geometry reduced to what the editor reads: the index count when the geometry
      is indexed, and the vertex count. A JavaScript `clone()` is a copy of this value. */
  datatype Geometry = Geometry(index: Option<nat>, vertexCount: nat)

  /** A texture after the loader configured it. */
  datatype Texture = Texture(source: nat, srgb: bool, flipY: bool, repeatWrap: bool)

  /** A mesh's material: absent, a `MeshStandardMaterial` with its texture slots, or any other
      material (including a material array, on which `isMeshStandardMaterial` is undefined). */
  datatype Material = NoMaterial | Standard(maps: map<string, Texture>) | OtherMaterial

  /** What kind of object a node is. A mesh carries its current geometry, the original
      geometry cached by simplification (`userData.originalGeometry`) and its material. */
  datatype Kind = NonMesh | Mesh(geometry: Geometry, original: Option<Geometry>, material: Material)

  datatype Data = Data(name: string, visible: bool, kind: Kind)

  datatype Obj = Obj(uuid: Uuid, data: Data)

  datatype Node = Node(obj: Obj, children: seq<Node>)

  /** What `calculateModelStats` reports for a scene. */
  datatype Stats = Stats(polygons: nat, vertices: nat)

  /** The objects of a tree in pre-order, the order `traverse` and `getObjectByProperty` visit them. */
  function Flat(n: Node): seq<Obj>
    decreases n
  {
    [n.obj] + FlatSeq(n.children)
  }

  function FlatSeq(cs: seq<Node>): seq<Obj>
    decreases cs
  {
    if cs == [] then [] else Flat(cs[0]) + FlatSeq(cs[1..])
  }

  /** Reference search: the first position in `s` holding uuid `u`. */
  function FirstMatch(s: seq<Obj>, u: Uuid): (r: Option<nat>)
    ensures r.Some? ==> r.value < |s| && s[r.value].uuid == u
  {
    if s == [] then None
    else if s[0].uuid == u then Some(0)
    else match FirstMatch(s[1..], u)
      case Some(i) => Some(i + 1)
      case None => None
  }

  /** `getObjectByProperty('uuid', u)` on a node. */
  function Find(n: Node, u: Uuid): (r: Option<Obj>)
    ensures r.Some? ==> r.value.uuid == u
    ensures n.obj.uuid == u ==> r == Some(n.obj)
    decreases n
  {
    if n.obj.uuid == u then Some(n.obj) else FindSeq(n.children, u)
  }

  function FindSeq(cs: seq<Node>, u: Uuid): (r: Option<Obj>)
    ensures r.Some? ==> r.value.uuid == u
    decreases cs
  {
    if cs == [] then None
    else match Find(cs[0], u)
      case Some(o) => Some(o)
      case None => FindSeq(cs[1..], u)
  }

  /** The subtree rooted at the object `Find` answers with: the object `getObjectByProperty`
      returns, together with everything below it. */
  function FindNode(n: Node, u: Uuid): (r: Option<Node>)
    ensures r.Some? ==> r.value.obj.uuid == u
    decreases n
  {
    if n.obj.uuid == u then Some(n) else FindNodeSeq(n.children, u)
  }

  function FindNodeSeq(cs: seq<Node>, u: Uuid): (r: Option<Node>)
    ensures r.Some? ==> r.value.obj.uuid == u
    decreases cs
  {
    if cs == [] then None
    else match FindNode(cs[0], u)
      case Some(x) => Some(x)
      case None => FindNodeSeq(cs[1..], u)
  }

  /** Assigns `d` to the object `Find(n, u)` returns, in place; no other object changes. */
  function SetData(n: Node, u: Uuid, d: Data): (r: Node)
    ensures r.obj.uuid == n.obj.uuid && |r.children| == |n.children|
    ensures Find(n, u).None? ==> r == n
    decreases n
  {
    if n.obj.uuid == u then Node(Obj(u, d), n.children)
    else Node(n.obj, SetDataSeq(n.children, u, d))
  }

  function SetDataSeq(cs: seq<Node>, u: Uuid, d: Data): (r: seq<Node>)
    ensures |r| == |cs|
    ensures FindSeq(cs, u).None? ==> r == cs
    decreases cs
  {
    if cs == [] then []
    else if Find(cs[0], u).Some? then [SetData(cs[0], u, d)] + cs[1..]
    else [cs[0]] + SetDataSeq(cs[1..], u, d)
  }

  /** `parent.remove(obj)` for the first object below the given children that carries `u`:
      the children with that subtree cut out, and the subtree itself. */
  function DetachSeq(cs: seq<Node>, u: Uuid): (r: Option<(seq<Node>, Node)>)
    ensures r.Some? ==> r.value.1.obj.uuid == u
    decreases cs
  {
    if cs == [] then None
    else if cs[0].obj.uuid == u then Some((cs[1..], cs[0]))
    else match DetachSeq(cs[0].children, u)
      case Some(p) => Some(([Node(cs[0].obj, p.0)] + cs[1..], p.1))
      case None =>
        match DetachSeq(cs[1..], u)
        case Some(p) => Some(([cs[0]] + p.0, p.1))
        case None => None
  }

  /** `FirstMatch` on a concatenation: the first part is searched first. */
  lemma {:induction false} FirstMatchAppend(a: seq<Obj>, b: seq<Obj>, u: Uuid)
    ensures FirstMatch(a, u).Some? ==> FirstMatch(a + b, u) == FirstMatch(a, u)
    ensures FirstMatch(a, u).None? && FirstMatch(b, u).Some? ==>
              FirstMatch(a + b, u) == Some(|a| + FirstMatch(b, u).value)
    ensures FirstMatch(a, u).None? && FirstMatch(b, u).None? ==> FirstMatch(a + b, u).None?
    decreases |a|
  {
    if a == [] {
      assert a + b == b;
    } else {
      assert (a + b)[1..] == a[1..] + b;
      FirstMatchAppend(a[1..], b, u);
    }
  }

  /** `FirstMatch` finds the first position holding `u`, and finds none exactly when no
      position holds it. */
  lemma {:induction false} FirstMatchMisses(s: seq<Obj>, u: Uuid)
    ensures FirstMatch(s, u).Some? ==> forall k :: 0 <= k < FirstMatch(s, u).value ==> s[k].uuid != u
    ensures FirstMatch(s, u).None? <==> forall k :: 0 <= k < |s| ==> s[k].uuid != u
    decreases |s|
  {
    if s != [] && s[0].uuid != u {
      FirstMatchMisses(s[1..], u);
      assert forall k :: 1 <= k < |s| ==> s[k] == s[1..][k - 1];
    }
  }

  /** A position holding `u` with no earlier one is the first match. */
  lemma FirstMatchAt(s: seq<Obj>, i: nat, u: Uuid)
    requires i < |s| && s[i].uuid == u
    requires forall k :: 0 <= k < i ==> s[k].uuid != u
    ensures FirstMatch(s, u) == Some(i)
  {
    FirstMatchMisses(s, u);
  }

  /** The object at the first pre-order position holding `u`, if there is one. */
  function FirstObj(s: seq<Obj>, u: Uuid): Option<Obj>
  {
    match FirstMatch(s, u)
    case Some(i) => Some(s[i])
    case None => None
  }

  /** `getObjectByProperty` answers with the first object of the pre-order walk that carries
      the uuid, and with nothing when no object does. */
  lemma {:induction false} FindIsFirstInPreorder(n: Node, u: Uuid)
    ensures Find(n, u) == FirstObj(Flat(n), u)
    decreases n
  {
    FindSeqIsFirstInPreorder(n.children, u);
    FirstMatchAppend([n.obj], FlatSeq(n.children), u);
  }

  lemma {:induction false} FindSeqIsFirstInPreorder(cs: seq<Node>, u: Uuid)
    ensures FindSeq(cs, u) == FirstObj(FlatSeq(cs), u)
    decreases cs
  {
    if cs != [] {
      FindIsFirstInPreorder(cs[0], u);
      FindSeqIsFirstInPreorder(cs[1..], u);
      FirstMatchAppend(Flat(cs[0]), FlatSeq(cs[1..]), u);
      var a, b := Flat(cs[0]), FlatSeq(cs[1..]);
      match FirstMatch(a, u) {
        case Some(i) => assert (a + b)[i] == a[i];
        case None =>
          match FirstMatch(b, u) {
            case Some(i) => assert (a + b)[|a| + i] == b[i];
            case None =>
          }
      }
    }
  }

  /** The objects of a children list, split at its first child. */
  lemma FlatSeqCons(c: Node, rest: seq<Node>)
    ensures FlatSeq([c] + rest) == [c.obj] + FlatSeq(c.children) + FlatSeq(rest)
  {
    assert ([c] + rest)[1..] == rest;
  }

  /** Which object is whose child, with the objects themselves forgotten. */
  datatype Shape = Shape(children: seq<Shape>)

  function ShapeOf(n: Node): Shape
    decreases n
  {
    Shape(ShapeSeq(n.children))
  }

  function ShapeSeq(cs: seq<Node>): seq<Shape>
    decreases cs
  {
    if cs == [] then [] else [ShapeOf(cs[0])] + ShapeSeq(cs[1..])
  }

  /** Editing an object's data moves nothing in the tree. */
  lemma {:induction false} SetDataKeepsShape(n: Node, u: Uuid, d: Data)
    ensures ShapeOf(SetData(n, u, d)) == ShapeOf(n)
    decreases n
  {
    if n.obj.uuid != u {
      SetDataSeqKeepsShape(n.children, u, d);
    }
  }

  lemma {:induction false} SetDataSeqKeepsShape(cs: seq<Node>, u: Uuid, d: Data)
    ensures ShapeSeq(SetDataSeq(cs, u, d)) == ShapeSeq(cs)
    decreases cs
  {
    if cs != [] {
      var r := SetDataSeq(cs, u, d);
      if Find(cs[0], u).Some? {
        SetDataKeepsShape(cs[0], u, d);
        assert r[1..] == cs[1..];
      } else {
        SetDataSeqKeepsShape(cs[1..], u, d);
        assert r[1..] == SetDataSeq(cs[1..], u, d);
      }
    }
  }

  /** Trees of one shape have pre-orders of one length. */
  lemma {:induction false} ShapeFixesSize(n: Node, n': Node)
    requires ShapeOf(n) == ShapeOf(n')
    ensures |Flat(n)| == |Flat(n')|
    decreases n
  {
    ShapeSeqFixesSize(n.children, n'.children);
  }

  lemma {:induction false} ShapeSeqFixesSize(cs: seq<Node>, cs': seq<Node>)
    requires ShapeSeq(cs) == ShapeSeq(cs')
    ensures |FlatSeq(cs)| == |FlatSeq(cs')|
    decreases cs
  {
    if cs != [] {
      assert cs' != [];
      assert ShapeSeq(cs)[0] == ShapeOf(cs[0]) && ShapeSeq(cs')[0] == ShapeOf(cs'[0]);
      assert ShapeSeq(cs)[1..] == ShapeSeq(cs[1..]) && ShapeSeq(cs')[1..] == ShapeSeq(cs'[1..]);
      ShapeFixesSize(cs[0], cs'[0]);
      ShapeSeqFixesSize(cs[1..], cs'[1..]);
    }
  }

  /** The pre-order and the shape together determine a tree: nothing else about it is left to
      change. */
  lemma {:induction false} FlatAndShapeDetermine(n: Node, n': Node)
    requires Flat(n) == Flat(n') && ShapeOf(n) == ShapeOf(n')
    ensures n == n'
    decreases n
  {
    assert n.obj == Flat(n)[0] && n'.obj == Flat(n')[0];
    assert FlatSeq(n.children) == Flat(n)[1..] && FlatSeq(n'.children) == Flat(n')[1..];
    FlatAndShapeDetermineSeq(n.children, n'.children);
  }

  lemma {:induction false} FlatAndShapeDetermineSeq(cs: seq<Node>, cs': seq<Node>)
    requires FlatSeq(cs) == FlatSeq(cs') && ShapeSeq(cs) == ShapeSeq(cs')
    ensures cs == cs'
    decreases cs
  {
    if cs != [] {
      assert cs' != [];
      assert ShapeSeq(cs)[0] == ShapeOf(cs[0]) && ShapeSeq(cs')[0] == ShapeOf(cs'[0]);
      assert ShapeSeq(cs)[1..] == ShapeSeq(cs[1..]) && ShapeSeq(cs')[1..] == ShapeSeq(cs'[1..]);
      var a, b, a', b' := Flat(cs[0]), FlatSeq(cs[1..]), Flat(cs'[0]), FlatSeq(cs'[1..]);
      ShapeFixesSize(cs[0], cs'[0]);
      assert a == (a + b)[..|a|] && a' == (a' + b')[..|a'|];
      assert b == (a + b)[|a|..] && b' == (a' + b')[|a'|..];
      FlatAndShapeDetermine(cs[0], cs'[0]);
      FlatAndShapeDetermineSeq(cs[1..], cs'[1..]);
      assert cs == [cs[0]] + cs[1..] && cs' == [cs'[0]] + cs'[1..];
    }
  }

  /** `n'` is `n` with the object at the first pre-order position carrying `u` replaced by
      `Obj(u, d)`: every other object is as it was, in the same order, and every object has
      the same parent as before (`FlatAndShapeDetermine`: this pins `n'` down). */
  predicate Rewritten(n: Node, n': Node, u: Uuid, d: Data)
  {
    && FirstMatch(Flat(n), u).Some?
    && Flat(n') == Flat(n)[FirstMatch(Flat(n), u).value := Obj(u, d)]
    && ShapeOf(n') == ShapeOf(n)
  }

  /** Assigning data to an object `Find` answers with rewrites that object and nothing else. */
  lemma SetDataRewrites(n: Node, u: Uuid, d: Data)
    requires Find(n, u).Some?
    ensures Rewritten(n, SetData(n, u, d), u, d)
  {
    FindIsFirstInPreorder(n, u);
    SetDataRewritesFirstMatch(n, u, d);
    SetDataKeepsShape(n, u, d);
  }

  /** The frame is exact: the only tree that rewrites `u` to `d` is the one `SetData` builds. */
  lemma RewrittenIsSetData(n: Node, n': Node, u: Uuid, d: Data)
    requires Rewritten(n, n', u, d)
    ensures n' == SetData(n, u, d)
  {
    FindIsFirstInPreorder(n, u);
    SetDataRewrites(n, u, d);
    FlatAndShapeDetermine(n', SetData(n, u, d));
  }

  /** `SetData` rewrites exactly the first pre-order position holding `u` and keeps every other
      object, and the pre-order itself, as it was. */
  lemma {:induction false} SetDataRewritesFirstMatch(n: Node, u: Uuid, d: Data)
    ensures FirstMatch(Flat(n), u).Some? ==>
              Flat(SetData(n, u, d)) == Flat(n)[FirstMatch(Flat(n), u).value := Obj(u, d)]
    ensures FirstMatch(Flat(n), u).None? ==> Flat(SetData(n, u, d)) == Flat(n)
    decreases n
  {
    FirstMatchAppend([n.obj], FlatSeq(n.children), u);
    if n.obj.uuid != u {
      SetDataSeqRewritesFirstMatch(n.children, u, d);
    }
  }

  lemma {:induction false} SetDataSeqRewritesFirstMatch(cs: seq<Node>, u: Uuid, d: Data)
    ensures FirstMatch(FlatSeq(cs), u).Some? ==>
              FlatSeq(SetDataSeq(cs, u, d)) == FlatSeq(cs)[FirstMatch(FlatSeq(cs), u).value := Obj(u, d)]
    ensures FirstMatch(FlatSeq(cs), u).None? ==> FlatSeq(SetDataSeq(cs, u, d)) == FlatSeq(cs)
    decreases cs
  {
    if cs != [] {
      var a, b := Flat(cs[0]), FlatSeq(cs[1..]);
      FirstMatchAppend(a, b, u);
      FindIsFirstInPreorder(cs[0], u);
      if Find(cs[0], u).Some? {
        SetDataRewritesFirstMatch(cs[0], u, d);
        assert SetDataSeq(cs, u, d)[1..] == cs[1..];
        UpdateLeft(a, b, FirstMatch(a, u).value, Obj(u, d));
      } else {
        SetDataSeqRewritesFirstMatch(cs[1..], u, d);
        assert SetDataSeq(cs, u, d)[1..] == SetDataSeq(cs[1..], u, d);
        if FirstMatch(b, u).Some? {
          UpdateRight(a, b, FirstMatch(b, u).value, Obj(u, d));
        }
      }
    }
  }

  lemma UpdateLeft(a: seq<Obj>, b: seq<Obj>, i: nat, x: Obj)
    requires i < |a|
    ensures (a + b)[i := x] == a[i := x] + b
  {
  }

  lemma UpdateRight(a: seq<Obj>, b: seq<Obj>, i: nat, x: Obj)
    requires i < |b|
    ensures (a + b)[|a| + i := x] == a + b[i := x]
  {
  }

  /** After `SetData`, the uuid is found exactly where it was, now carrying the new data. */
  lemma FindAfterSetData(n: Node, u: Uuid, d: Data)
    ensures Find(SetData(n, u, d), u) == if Find(n, u).Some? then Some(Obj(u, d)) else None
  {
    FindIsFirstInPreorder(n, u);
    FindIsFirstInPreorder(SetData(n, u, d), u);
    SetDataRewritesFirstMatch(n, u, d);
    var s := Flat(n);
    FirstMatchMisses(s, u);
    match FirstMatch(s, u) {
      case Some(i) =>
        var s' := s[i := Obj(u, d)];
        assert forall k :: 0 <= k < i ==> s'[k] == s[k];
        FirstMatchAt(s', i, u);
      case None =>
    }
  }

  /** Writing back the data `Find` returned changes nothing. */
  lemma {:induction false} SetDataOfFound(n: Node, u: Uuid)
    requires Find(n, u).Some?
    ensures SetData(n, u, Find(n, u).value.data) == n
    decreases n
  {
    if n.obj.uuid != u {
      SetDataSeqOfFound(n.children, u);
    }
  }

  lemma {:induction false} SetDataSeqOfFound(cs: seq<Node>, u: Uuid)
    requires FindSeq(cs, u).Some?
    ensures SetDataSeq(cs, u, FindSeq(cs, u).value.data) == cs
    decreases cs
  {
    if Find(cs[0], u).Some? {
      SetDataOfFound(cs[0], u);
    } else {
      SetDataSeqOfFound(cs[1..], u);
    }
  }

  /** A second `SetData` on the same uuid overrides the first. */
  lemma {:induction false} SetDataTwice(n: Node, u: Uuid, d1: Data, d2: Data)
    ensures SetData(SetData(n, u, d1), u, d2) == SetData(n, u, d2)
    decreases n
  {
    if n.obj.uuid != u {
      SetDataSeqTwice(n.children, u, d1, d2);
    }
  }

  lemma {:induction false} SetDataSeqTwice(cs: seq<Node>, u: Uuid, d1: Data, d2: Data)
    ensures SetDataSeq(SetDataSeq(cs, u, d1), u, d2) == SetDataSeq(cs, u, d2)
    decreases cs
  {
    if cs != [] {
      var once := SetDataSeq(cs, u, d1);
      if Find(cs[0], u).Some? {
        FindAfterSetData(cs[0], u, d1);
        SetDataTwice(cs[0], u, d1, d2);
        assert once[0] == SetData(cs[0], u, d1) && once[1..] == cs[1..];
      } else {
        SetDataSeqTwice(cs[1..], u, d1, d2);
        assert once[0] == cs[0] && once[1..] == SetDataSeq(cs[1..], u, d1);
      }
    }
  }

  /** `DetachSeq` cuts out the subtree at the first pre-order position holding `u`: the cut
      subtree is a contiguous run of the pre-order, rooted at that position, and the remaining
      children list is everything before it followed by everything after it. */
  predicate SplicedAt(before: seq<Obj>, after: seq<Obj>, gone: seq<Obj>, i: nat)
  {
    && i + |gone| <= |before|
    && before[i..i + |gone|] == gone
    && after == before[..i] + before[i + |gone|..]
  }

  predicate DetachCutsFirstMatch(cs: seq<Node>, u: Uuid)
  {
    && (DetachSeq(cs, u).Some? <==> FirstMatch(FlatSeq(cs), u).Some?)
    && (DetachSeq(cs, u).Some? ==>
          && DetachSeq(cs, u).value.1.obj.uuid == u
          && SplicedAt(FlatSeq(cs), FlatSeq(DetachSeq(cs, u).value.0),
                       Flat(DetachSeq(cs, u).value.1), FirstMatch(FlatSeq(cs), u).value))
  }

  lemma {:induction false} DetachSeqCutsFirstMatch(cs: seq<Node>, u: Uuid)
    ensures DetachCutsFirstMatch(cs, u)
    ensures DetachSeq(cs, u).Some? ==> FindNodeSeq(cs, u) == Some(DetachSeq(cs, u).value.1)
    decreases cs
  {
    DetachTakesFoundNode(cs, u);
    if cs == [] {
    } else if cs[0].obj.uuid == u {
      DetachAtHead(cs, u);
    } else {
      DetachSeqCutsFirstMatch(cs[0].children, u);
      DetachSeqCutsFirstMatch(cs[1..], u);
      DetachBelowHead(cs, u);
    }
  }

  lemma DetachAtHead(cs: seq<Node>, u: Uuid)
    requires cs != [] && cs[0].obj.uuid == u
    ensures DetachCutsFirstMatch(cs, u)
  {
    var c := cs[0];
    var F, R := FlatSeq(cs), FlatSeq(cs[1..]);
    assert cs == [c] + cs[1..];
    FlatSeqCons(c, cs[1..]);
    assert F[0] == c.obj;
    FirstMatchAt(F, 0, u);
    assert F[..0] + F[|Flat(c)|..] == R;
  }

  lemma DetachBelowHead(cs: seq<Node>, u: Uuid)
    requires cs != [] && cs[0].obj.uuid != u
    requires DetachCutsFirstMatch(cs[0].children, u)
    requires DetachCutsFirstMatch(cs[1..], u)
    ensures DetachCutsFirstMatch(cs, u)
  {
    if DetachSeq(cs[0].children, u).Some? {
      DetachInHead(cs, u);
    } else {
      assert FirstMatch(FlatSeq(cs[0].children), u).None?;
      DetachInRest(cs, u);
    }
  }

  /** The match lies below the first child. */
  lemma DetachInHead(cs: seq<Node>, u: Uuid)
    requires cs != [] && cs[0].obj.uuid != u
    requires DetachCutsFirstMatch(cs[0].children, u) && DetachSeq(cs[0].children, u).Some?
    ensures DetachCutsFirstMatch(cs, u)
  {
    var c := cs[0];
    var C, R := FlatSeq(c.children), FlatSeq(cs[1..]);
    var p := DetachSeq(c.children, u).value;
    assert cs == [c] + cs[1..];
    FlatSeqCons(c, cs[1..]);
    FirstMatchAppend(Flat(c), R, u);
    FirstMatchAppend([c.obj], C, u);
    FlatSeqCons(Node(c.obj, p.0), cs[1..]);
    DetachSplicesChild(c.obj, C, R, FlatSeq(p.0), Flat(p.1), FirstMatch(C, u).value);
  }

  /** The first child's subtree holds no match, so the match lies among the later children. */
  lemma DetachInRest(cs: seq<Node>, u: Uuid)
    requires cs != [] && cs[0].obj.uuid != u
    requires FirstMatch(FlatSeq(cs[0].children), u).None? && DetachSeq(cs[0].children, u).None?
    requires DetachCutsFirstMatch(cs[1..], u)
    ensures DetachCutsFirstMatch(cs, u)
  {
    var c := cs[0];
    FirstMatchAppend([c.obj], FlatSeq(c.children), u);
    if DetachSeq(cs[1..], u).Some? {
      DetachInLaterSibling(cs, u, DetachSeq(cs[1..], u).value, FirstMatch(FlatSeq(cs[1..]), u).value);
    } else {
      assert FlatSeq(cs) == Flat(c) + FlatSeq(cs[1..]);
      FirstMatchAppend(Flat(c), FlatSeq(cs[1..]), u);
    }
  }

  lemma DetachInLaterSibling(cs: seq<Node>, u: Uuid, p: (seq<Node>, Node), j: nat)
    requires cs != [] && cs[0].obj.uuid != u
    requires DetachSeq(cs[0].children, u).None? && DetachSeq(cs[1..], u) == Some(p)
    requires FirstMatch(Flat(cs[0]), u).None? && p.1.obj.uuid == u
    requires FirstMatch(FlatSeq(cs[1..]), u) == Some(j)
    requires SplicedAt(FlatSeq(cs[1..]), FlatSeq(p.0), Flat(p.1), j)
    ensures DetachCutsFirstMatch(cs, u)
  {
    var c := cs[0];
    var A, R, R' := Flat(c), FlatSeq(cs[1..]), FlatSeq(p.0);
    DetachSeqInRest(cs, u, p);
    FlatSeqSplits(cs, p.0);
    CutsFromParts(cs, u, ([c] + p.0, p.1), A, R, R', Flat(p.1), j);
  }

  lemma DetachSeqInRest(cs: seq<Node>, u: Uuid, p: (seq<Node>, Node))
    requires cs != [] && cs[0].obj.uuid != u
    requires DetachSeq(cs[0].children, u).None? && DetachSeq(cs[1..], u) == Some(p)
    ensures DetachSeq(cs, u) == Some(([cs[0]] + p.0, p.1))
  {
  }

  lemma FlatSeqSplits(cs: seq<Node>, rest': seq<Node>)
    requires cs != []
    ensures FlatSeq(cs) == Flat(cs[0]) + FlatSeq(cs[1..])
    ensures FlatSeq([cs[0]] + rest') == Flat(cs[0]) + FlatSeq(rest')
  {
    FlatSeqCons(cs[0], rest');
  }

  /** A cut in the later part of a sequence whose earlier part holds no match. */
  lemma SiblingCut(A: seq<Obj>, R: seq<Obj>, R': seq<Obj>, gone: seq<Obj>, j: nat, u: Uuid)
    requires FirstMatch(A, u).None? && FirstMatch(R, u) == Some(j) && SplicedAt(R, R', gone, j)
    ensures FirstMatch(A + R, u) == Some(|A| + j) && SplicedAt(A + R, A + R', gone, |A| + j)
  {
    FirstMatchAppend(A, R, u);
    DetachSplicesSibling(A, R, R', gone, j);
  }

  /** Assembles `DetachCutsFirstMatch` for a cut among later siblings from facts already
      established about each part. */
  lemma CutsFromParts(cs: seq<Node>, u: Uuid, d: (seq<Node>, Node), A: seq<Obj>, R: seq<Obj>, R': seq<Obj>,
                      gone: seq<Obj>, j: nat)
    requires DetachSeq(cs, u) == Some(d) && d.1.obj.uuid == u
    requires FlatSeq(cs) == A + R && FlatSeq(d.0) == A + R' && Flat(d.1) == gone
    requires FirstMatch(A, u).None? && FirstMatch(R, u) == Some(j) && SplicedAt(R, R', gone, j)
    ensures DetachCutsFirstMatch(cs, u)
  {
    SiblingCut(A, R, R', gone, j, u);
    CutsFromFacts(cs, u, d, A + R, A + R', gone, |A| + j);
  }

  lemma CutsFromFacts(cs: seq<Node>, u: Uuid, d: (seq<Node>, Node), F: seq<Obj>, F': seq<Obj>, gone: seq<Obj>, i: nat)
    requires DetachSeq(cs, u) == Some(d) && d.1.obj.uuid == u
    requires FlatSeq(cs) == F && FlatSeq(d.0) == F' && Flat(d.1) == gone
    requires FirstMatch(F, u) == Some(i) && SplicedAt(F, F', gone, i)
    ensures DetachCutsFirstMatch(cs, u)
  {
  }

  lemma DetachSplicesChild(o: Obj, C: seq<Obj>, R: seq<Obj>, C': seq<Obj>, gone: seq<Obj>, i0: nat)
    requires SplicedAt(C, C', gone, i0)
    ensures SplicedAt([o] + C + R, [o] + C' + R, gone, 1 + i0)
  {
    var F := [o] + C + R;
    assert F[1 + i0..1 + i0 + |gone|] == C[i0..i0 + |gone|];
    assert F[..1 + i0] == [o] + C[..i0];
    assert F[1 + i0 + |gone|..] == C[i0 + |gone|..] + R;
  }

  lemma DetachSplicesSibling(A: seq<Obj>, R: seq<Obj>, R': seq<Obj>, gone: seq<Obj>, j: nat)
    requires SplicedAt(R, R', gone, j)
    ensures SplicedAt(A + R, A + R', gone, |A| + j)
  {
    var F := A + R;
    assert F[|A| + j..|A| + j + |gone|] == R[j..j + |gone|];
    assert F[..|A| + j] == A + R[..j];
    assert F[|A| + j + |gone|..] == R[j + |gone|..];
  }

  /** three.js gives every object its own uuid. */
  predicate UniqueIds(s: seq<Obj>)
  {
    forall i, j :: 0 <= i < j < |s| ==> s[i].uuid != s[j].uuid
  }

  /** Cutting a run out of a sequence of distinct uuids keeps them distinct, adds nothing,
      and leaves no object with the uuid that opened the run. */
  lemma CutKeepsUnique(s: seq<Obj>, i: nat, k: nat, t: seq<Obj>)
    requires UniqueIds(s) && 0 < k && i + k <= |s| && t == s[..i] + s[i + k..]
    ensures UniqueIds(t)
    ensures multiset(t) <= multiset(s)
    ensures forall x :: x in t ==> x.uuid != s[i].uuid
  {
    CutIndex(s, i, k, t);
    CutShrinks(s, i, k, t);
    forall x | x in t ensures x.uuid != s[i].uuid {
      var m :| 0 <= m < |t| && t[m] == x;
    }
  }

  lemma CutShrinks(s: seq<Obj>, i: nat, k: nat, t: seq<Obj>)
    requires i + k <= |s| && t == s[..i] + s[i + k..]
    ensures multiset(t) <= multiset(s)
  {
    assert s == s[..i] + s[i..i + k] + s[i + k..];
  }

  lemma CutIndex(s: seq<Obj>, i: nat, k: nat, t: seq<Obj>)
    requires i + k <= |s| && t == s[..i] + s[i + k..]
    ensures |t| == |s| - k
    ensures forall m :: 0 <= m < |t| ==> t[m] == (if m < i then s[m] else s[m + k])
  {
  }

  /** When `FirstObj` finds nothing in `a`, it finds nothing in any sub-multiset of `a`. */
  lemma FirstObjNoneOfSubset(a: seq<Obj>, b: seq<Obj>, u: Uuid)
    requires multiset(b) <= multiset(a) && FirstObj(a, u).None?
    ensures FirstObj(b, u).None?
  {
    FirstMatchMisses(a, u);
    FirstMatchMisses(b, u);
    forall k | 0 <= k < |b| ensures b[k].uuid != u {
      assert b[k] in multiset(b);
      assert b[k] in multiset(a);
    }
  }

  /** Deleting the first object below the root that carries `u`, from a tree with distinct
      uuids, leaves a tree with distinct uuids, with no object carrying `u`, and with no
      object that was not there before. */
  lemma DetachRemovesUuid(n: Node, u: Uuid)
    requires UniqueIds(Flat(n)) && n.obj.uuid != u && DetachSeq(n.children, u).Some?
    ensures var n' := Node(n.obj, DetachSeq(n.children, u).value.0);
            && UniqueIds(Flat(n'))
            && Find(n', u).None?
            && multiset(Flat(n')) <= multiset(Flat(n))
  {
    var n' := Node(n.obj, DetachSeq(n.children, u).value.0);
    var gone := DetachBelowCuts(n, u);
    SplicedKeepsUnique(Flat(n), Flat(n'), gone, FirstMatch(Flat(n), u).value, u);
    AbsentMeansNotFound(n', u);
  }

  /** Cutting a run that starts at the only object carrying `u` leaves no object carrying it. */
  lemma SplicedKeepsUnique(F: seq<Obj>, F': seq<Obj>, gone: seq<Obj>, i: nat, u: Uuid)
    requires UniqueIds(F) && SplicedAt(F, F', gone, i) && |gone| > 0 && i < |F| && F[i].uuid == u
    ensures UniqueIds(F') && multiset(F') <= multiset(F)
    ensures forall x :: x in F' ==> x.uuid != u
  {
    assert F[i] == F[i..i + |gone|][0];
    CutKeepsUnique(F, i, |gone|, F');
  }

  /** The pre-order position `DetachSeq` cuts at, and the facts about the cut. */
  lemma DetachedAt(cs: seq<Node>, u: Uuid) returns (i: nat)
    requires DetachSeq(cs, u).Some?
    ensures FirstMatch(FlatSeq(cs), u) == Some(i)
    ensures DetachSeq(cs, u).value.1.obj.uuid == u
    ensures SplicedAt(FlatSeq(cs), FlatSeq(DetachSeq(cs, u).value.0), Flat(DetachSeq(cs, u).value.1), i)
  {
    DetachSeqCutsFirstMatch(cs, u);
    i := FirstMatch(FlatSeq(cs), u).value;
  }

  /** A uuid carried by no object of the pre-order is not found. */
  lemma AbsentMeansNotFound(n: Node, u: Uuid)
    requires forall x :: x in Flat(n) ==> x.uuid != u
    ensures Find(n, u).None?
  {
    FindIsFirstInPreorder(n, u);
  }

  /** An object absent from a tree stays absent when the tree loses objects. */
  lemma FindNoneOfSubset(n: Node, n': Node, u: Uuid)
    requires multiset(Flat(n')) <= multiset(Flat(n)) && Find(n, u).None?
    ensures Find(n', u).None?
  {
    FindIsFirstInPreorder(n, u);
    FindIsFirstInPreorder(n', u);
    FirstObjNoneOfSubset(Flat(n), Flat(n'), u);
  }

  /** `DetachSeq` detaches exactly the object `getObjectByProperty` finds among the children,
      and finds something to detach exactly when that search succeeds. */
  lemma DetachTakesFoundObject(cs: seq<Node>, u: Uuid)
    ensures DetachSeq(cs, u).Some? <==> FindSeq(cs, u).Some?
    ensures DetachSeq(cs, u).Some? ==> DetachSeq(cs, u).value.1.obj == FindSeq(cs, u).value
  {
    DetachSeqCutsFirstMatch(cs, u);
    FindSeqIsFirstInPreorder(cs, u);
    if DetachSeq(cs, u).Some? {
      var p := DetachSeq(cs, u).value;
      var i := FirstMatch(FlatSeq(cs), u).value;
      assert Flat(p.1)[0] == p.1.obj;
      assert FlatSeq(cs)[i..i + |Flat(p.1)|][0] == FlatSeq(cs)[i];
    }
  }

  /** `DetachSeq` detaches the very subtree `FindNodeSeq` finds, and finds something to detach
      exactly when that search succeeds. */
  lemma {:induction false} DetachTakesFoundNode(cs: seq<Node>, u: Uuid)
    ensures DetachSeq(cs, u).Some? <==> FindNodeSeq(cs, u).Some?
    ensures DetachSeq(cs, u).Some? ==> DetachSeq(cs, u).value.1 == FindNodeSeq(cs, u).value
    decreases cs
  {
    if cs != [] && cs[0].obj.uuid != u {
      DetachTakesFoundNode(cs[0].children, u);
      DetachTakesFoundNode(cs[1..], u);
    }
  }

  /** `FindNode` and `Find` succeed together, on the same object. */
  lemma {:induction false} FindNodeFindsObject(n: Node, u: Uuid)
    ensures FindNode(n, u).Some? <==> Find(n, u).Some?
    ensures FindNode(n, u).Some? ==> FindNode(n, u).value.obj == Find(n, u).value
    decreases n
  {
    if n.obj.uuid != u {
      FindNodeSeqFindsObject(n.children, u);
    }
  }

  lemma {:induction false} FindNodeSeqFindsObject(cs: seq<Node>, u: Uuid)
    ensures FindNodeSeq(cs, u).Some? <==> FindSeq(cs, u).Some?
    ensures FindNodeSeq(cs, u).Some? ==> FindNodeSeq(cs, u).value.obj == FindSeq(cs, u).value
    decreases cs
  {
    if cs != [] {
      FindNodeFindsObject(cs[0], u);
      FindNodeSeqFindsObject(cs[1..], u);
    }
  }

  /** Detaching below the root, seen on the root's pre-order: the run cut out is the pre-order
      of the subtree `FindNode` finds. */
  lemma DetachBelowCuts(n: Node, u: Uuid) returns (gone: seq<Obj>)
    requires n.obj.uuid != u && DetachSeq(n.children, u).Some?
    ensures FirstMatch(Flat(n), u).Some?
    ensures |gone| > 0 && gone[0] == DetachSeq(n.children, u).value.1.obj
    ensures FindNode(n, u).Some? && gone == Flat(FindNode(n, u).value)
    ensures SplicedAt(Flat(n), Flat(Node(n.obj, DetachSeq(n.children, u).value.0)), gone, FirstMatch(Flat(n), u).value)
  {
    var p := DetachSeq(n.children, u).value;
    DetachTakesFoundNode(n.children, u);
    var i := DetachedAt(n.children, u);
    gone := Flat(p.1);
    FirstMatchAppend([n.obj], FlatSeq(n.children), u);
    DetachSplicesChild(n.obj, FlatSeq(n.children), [], FlatSeq(p.0), gone, i);
    assert [n.obj] + FlatSeq(n.children) + [] == Flat(n);
    assert [n.obj] + FlatSeq(p.0) + [] == Flat(Node(n.obj, p.0));
  }

  /** A splice only loses objects. */
  lemma SplicedShrinks(before: seq<Obj>, after: seq<Obj>, gone: seq<Obj>, i: nat)
    requires SplicedAt(before, after, gone, i)
    ensures multiset(after) <= multiset(before)
  {
    assert before == before[..i] + before[i..i + |gone|] + before[i + |gone|..];
  }

  /** `n` with every subtree below the root whose root object carries a uuid listed in `ds`
      cut out; the root itself always stays. */
  function Prune(n: Node, ds: seq<Uuid>): Node
    decreases n
  {
    Node(n.obj, PruneSeq(n.children, ds))
  }

  function PruneSeq(cs: seq<Node>, ds: seq<Uuid>): seq<Node>
    decreases cs
  {
    if cs == [] then []
    else (if cs[0].obj.uuid in ds then [] else [Prune(cs[0], ds)]) + PruneSeq(cs[1..], ds)
  }

  /** Pruning uuids no object below the root carries changes nothing. */
  lemma {:induction false} PruneAbsent(n: Node, ds: seq<Uuid>)
    requires forall x :: x in FlatSeq(n.children) ==> x.uuid !in ds
    ensures Prune(n, ds) == n
    decreases n
  {
    PruneSeqAbsent(n.children, ds);
  }

  lemma {:induction false} PruneSeqAbsent(cs: seq<Node>, ds: seq<Uuid>)
    requires forall x :: x in FlatSeq(cs) ==> x.uuid !in ds
    ensures PruneSeq(cs, ds) == cs
    decreases cs
  {
    if cs != [] {
      assert FlatSeq(cs) == [cs[0].obj] + FlatSeq(cs[0].children) + FlatSeq(cs[1..]);
      PruneAbsent(cs[0], ds);
      PruneSeqAbsent(cs[1..], ds);
      assert cs == [cs[0]] + cs[1..];
    }
  }

  /** Pruning nothing changes nothing. */
  lemma PruneNothing(n: Node)
    ensures Prune(n, []) == n
  {
    PruneAbsent(n, []);
  }

  /** Pruning distributes over concatenation of children lists. */
  lemma {:induction false} PruneSeqAppend(a: seq<Node>, b: seq<Node>, ds: seq<Uuid>)
    ensures PruneSeq(a + b, ds) == PruneSeq(a, ds) + PruneSeq(b, ds)
    decreases a
  {
    if a != [] {
      assert (a + b)[0] == a[0] && (a + b)[1..] == a[1..] + b;
      PruneSeqAppend(a[1..], b, ds);
    } else {
      assert a + b == b;
    }
  }

  /** Pruning `ds` and then `u` is pruning `ds` followed by `u`. */
  lemma {:induction false} PruneThen(n: Node, ds: seq<Uuid>, u: Uuid)
    ensures Prune(Prune(n, ds), [u]) == Prune(n, ds + [u])
    decreases n
  {
    PruneSeqThen(n.children, ds, u);
  }

  lemma {:induction false} PruneSeqThen(cs: seq<Node>, ds: seq<Uuid>, u: Uuid)
    ensures PruneSeq(PruneSeq(cs, ds), [u]) == PruneSeq(cs, ds + [u])
    decreases cs
  {
    if cs != [] {
      var c := cs[0];
      var head := if c.obj.uuid in ds then [] else [Prune(c, ds)];
      PruneSeqAppend(head, PruneSeq(cs[1..], ds), [u]);
      PruneSeqThen(cs[1..], ds, u);
      if c.obj.uuid !in ds {
        PruneThen(c, ds, u);
        assert PruneSeq(head, [u]) == (if c.obj.uuid == u then [] else [Prune(Prune(c, ds), [u])]) + PruneSeq([], [u]);
      }
    }
  }

  /** The two parts of a sequence with distinct uuids have distinct uuids. */
  lemma UniqueHalves(a: seq<Obj>, b: seq<Obj>)
    requires UniqueIds(a + b)
    ensures UniqueIds(a) && UniqueIds(b)
  {
    assert forall i :: 0 <= i < |a| ==> (a + b)[i] == a[i];
    assert forall j :: 0 <= j < |b| ==> (a + b)[|a| + j] == b[j];
  }

  /** In a sequence with distinct uuids, the uuid at a position of the second part is carried
      nowhere in the first part. */
  lemma UniqueApartRight(a: seq<Obj>, b: seq<Obj>, j: nat)
    requires UniqueIds(a + b) && j < |b|
    ensures forall x :: x in a ==> x.uuid != b[j].uuid
  {
    forall x | x in a
      ensures x.uuid != b[j].uuid
    {
      var i :| 0 <= i < |a| && a[i] == x;
      assert (a + b)[i] == x && (a + b)[|a| + j] == b[j];
    }
  }

  /** In a sequence with distinct uuids, the uuid at a position of the first part is carried
      nowhere in the second part. */
  lemma UniqueApartLeft(a: seq<Obj>, b: seq<Obj>, i: nat)
    requires UniqueIds(a + b) && i < |a|
    ensures forall y :: y in b ==> y.uuid != a[i].uuid
  {
    forall y | y in b
      ensures y.uuid != a[i].uuid
    {
      var j :| 0 <= j < |b| && b[j] == y;
      assert (a + b)[i] == a[i] && (a + b)[|a| + j] == y;
    }
  }

  /** A uuid `Find` does not find is carried by no object of the pre-order. */
  lemma NotFoundMeansAbsent(n: Node, u: Uuid)
    requires Find(n, u).None?
    ensures forall x :: x in Flat(n) ==> x.uuid != u
  {
    FindIsFirstInPreorder(n, u);
    FirstMatchMisses(Flat(n), u);
  }

  /** In a tree with distinct uuids, detaching `u` below the root prunes `u`. */
  lemma {:induction false} DetachIsPrune(cs: seq<Node>, u: Uuid)
    requires UniqueIds(FlatSeq(cs)) && DetachSeq(cs, u).Some?
    ensures DetachSeq(cs, u).value.0 == PruneSeq(cs, [u])
    decreases cs
  {
    var c := cs[0];
    UniqueHalves(Flat(c), FlatSeq(cs[1..]));
    if c.obj.uuid == u {
      PruneAtHead(cs, u);
    } else if DetachSeq(c.children, u).Some? {
      UniqueHalves([c.obj], FlatSeq(c.children));
      DetachIsPrune(c.children, u);
      PruneInHead(cs, u);
    } else {
      HeadLacksLaterMatch(cs, u);
      DetachIsPrune(cs[1..], u);
      PruneInRest(cs, u);
    }
  }

  /** The first child carries `u`: no later child's subtree does. */
  lemma PruneAtHead(cs: seq<Node>, u: Uuid)
    requires cs != [] && cs[0].obj.uuid == u && UniqueIds(FlatSeq(cs))
    ensures DetachSeq(cs, u).value.0 == PruneSeq(cs, [u])
  {
    var A, R := Flat(cs[0]), FlatSeq(cs[1..]);
    UniqueApartLeft(A, R, 0);
    PruneSeqAbsent(cs[1..], [u]);
  }

  /** `u` lies below the first child: no later child's subtree carries it. */
  lemma PruneInHead(cs: seq<Node>, u: Uuid)
    requires cs != [] && cs[0].obj.uuid != u && UniqueIds(FlatSeq(cs))
    requires DetachSeq(cs[0].children, u).Some?
    requires DetachSeq(cs[0].children, u).value.0 == PruneSeq(cs[0].children, [u])
    ensures DetachSeq(cs, u).value.0 == PruneSeq(cs, [u])
  {
    var c := cs[0];
    var A, R := Flat(c), FlatSeq(cs[1..]);
    var i := DetachedAt(c.children, u);
    assert A[1 + i] == FlatSeq(c.children)[i];
    UniqueApartLeft(A, R, 1 + i);
    PruneSeqAbsent(cs[1..], [u]);
  }

  /** `u` lies among the later children: the first child's subtree does not carry it, so
      pruning leaves that child whole. */
  lemma HeadLacksLaterMatch(cs: seq<Node>, u: Uuid)
    requires cs != [] && UniqueIds(FlatSeq(cs)) && DetachSeq(cs[1..], u).Some?
    ensures Prune(cs[0], [u]) == cs[0]
  {
    var A, R := Flat(cs[0]), FlatSeq(cs[1..]);
    var j := DetachedAt(cs[1..], u);
    UniqueApartRight(A, R, j);
    PruneAbsent(cs[0], [u]);
  }

  lemma PruneInRest(cs: seq<Node>, u: Uuid)
    requires cs != [] && cs[0].obj.uuid != u && Prune(cs[0], [u]) == cs[0]
    requires DetachSeq(cs[0].children, u).None? && DetachSeq(cs[1..], u).Some?
    requires DetachSeq(cs[1..], u).value.0 == PruneSeq(cs[1..], [u])
    ensures DetachSeq(cs, u).value.0 == PruneSeq(cs, [u])
  {
  }
}
