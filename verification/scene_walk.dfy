/** The Scene Walker: `processMesh` appends one baked `Mesh` to the shared
    list, and `processNode` walks the node tree depth-first, pre-order, doing
    so for every mesh reference it meets. */
module SceneWalk {
  import opened Raw
  import opened Seqs
  import opened Geometry
  import opened Materials

  /** `Mesh`: a baked mesh, its vertex and index lists and its four channels. */
  datatype Mesh = Mesh(
    vertices: seq<Vertex>,
    indices: seq<Word32>,
    baseColor: Texture,
    metallicRoughness: Texture,
    normal: Texture,
    ao: Texture)

  /** `aiNode`: indices into the scene's mesh table (`mMeshes`) and child nodes. */
  datatype Node = Node(meshes: seq<nat>, children: seq<Node>)

  /** `aiScene`: the mesh table, the material table and the root node. */
  datatype Scene = Scene(meshes: seq<ImportedMesh>, materials: seq<Material>, root: Node)

  /** A mesh the walker may bake: well formed, with a material in the table. */
  predicate MeshValid(s: Scene, m: ImportedMesh)
  {
    WellFormed(m) && m.materialIndex < |s.materials|
  }

  /** Every reference names a valid mesh of the table. */
  predicate RefsValid(s: Scene, refs: seq<nat>)
  {
    forall r :: r in refs ==> r < |s.meshes| && MeshValid(s, s.meshes[r])
  }

  /** Every mesh reference in the subtree names a valid mesh of the table. */
  predicate NodeValid(s: Scene, n: Node)
  {
    RefsValid(s, n.meshes) &&
    forall i :: 0 <= i < |n.children| ==> NodeValid(s, n.children[i])
  }

  /** The mesh `processMesh` bakes from `m`. */
  function BakeMesh(s: Scene, m: ImportedMesh): Mesh
    requires MeshValid(s, m)
  {
    var mat := s.materials[m.materialIndex];
    Mesh(Vertices(m), Indices(m.faces),
         ResolveBaseColor(mat), ResolveMetallicRoughness(mat), ResolveNormal(mat), ResolveAO(mat))
  }

  /** `processMesh`: extracts the geometry, resolves the channels and appends
      the result to the shared list. */
  method ProcessMesh(list: seq<Mesh>, s: Scene, m: ImportedMesh) returns (list': seq<Mesh>)
    requires MeshValid(s, m)
    ensures list' == list + [BakeMesh(s, m)]
  {
    var vertices := ExtractVertices(m);
    var indices := ExtractIndices(m);
    var mat := s.materials[m.materialIndex];
    list' := list + [Mesh(vertices, indices,
                          ResolveBaseColor(mat), ResolveMetallicRoughness(mat),
                          ResolveNormal(mat), ResolveAO(mat))];
  }

  /** The meshes baked for a list of references, in list order. */
  function BakeAll(s: Scene, refs: seq<nat>): (ms: seq<Mesh>)
    requires RefsValid(s, refs)
    ensures |ms| == |refs|
  {
    seq(|refs|, k requires 0 <= k < |refs| => assert refs[k] in refs; BakeMesh(s, s.meshes[refs[k]]))
  }

  /** What `processNode` appends for a subtree, in pre-order: the node's own
      meshes in `mMeshes` order, then each child's subtree in child order. */
  function Flatten(s: Scene, n: Node): seq<Mesh>
    requires NodeValid(s, n)
    decreases n, 1
  {
    BakeAll(s, n.meshes) + Concat(ChildFlattens(s, n))
  }

  /** What `processNode` appends for each child's subtree. */
  function ChildFlattens(s: Scene, n: Node): (xs: seq<seq<Mesh>>)
    requires NodeValid(s, n)
    ensures |xs| == |n.children|
    decreases n, 0
  {
    seq(|n.children|, i requires 0 <= i < |n.children| => Flatten(s, n.children[i]))
  }

  /** Sum of `mNumMeshes` over a subtree. */
  function SubtreeMeshCount(n: Node): nat
    decreases n, 1
  {
    |n.meshes| + ChildMeshCount(n, |n.children|)
  }

  /** Sum of `SubtreeMeshCount` over the first `k` children. */
  function ChildMeshCount(n: Node, k: nat): nat
    requires k <= |n.children|
    decreases n, 0, k
  {
    if k == 0 then 0 else ChildMeshCount(n, k - 1) + SubtreeMeshCount(n.children[k - 1])
  }

  /** A subtree appends exactly the sum of `mNumMeshes` over its nodes. */
  lemma {:induction false} FlattenLength(s: Scene, n: Node)
    requires NodeValid(s, n)
    ensures |Flatten(s, n)| == SubtreeMeshCount(n)
    decreases n, 1, 0
  {
    ChildFlattensLength(s, n, |n.children|);
    assert ChildFlattens(s, n)[..|n.children|] == ChildFlattens(s, n);
  }

  lemma {:induction false} ChildFlattensLength(s: Scene, n: Node, k: nat)
    requires NodeValid(s, n) && k <= |n.children|
    ensures TotalLength(ChildFlattens(s, n)[..k]) == ChildMeshCount(n, k)
    decreases n, 0, k
  {
    var xs := ChildFlattens(s, n);
    if k > 0 {
      ChildFlattensLength(s, n, k - 1);
      FlattenLength(s, n.children[k - 1]);
      PrefixSnoc(xs, k - 1);
      ConcatSnoc(xs[..k - 1], xs[k - 1]);
    } else {
      assert xs[..k] == [];
    }
  }

  /** Pre-order, children in child order: child `j`'s subtree sits right after
      the node's own meshes and the subtrees of the children before it. */
  lemma FlattenChildBlock(s: Scene, n: Node, j: nat)
    requires NodeValid(s, n) && j < |n.children|
    ensures |n.meshes| + ChildMeshCount(n, j) + SubtreeMeshCount(n.children[j]) <= |Flatten(s, n)|
    ensures Flatten(s, n)[|n.meshes| + ChildMeshCount(n, j)..|n.meshes| + ChildMeshCount(n, j + 1)]
            == Flatten(s, n.children[j])
  {
    var xs := ChildFlattens(s, n);
    var own := BakeAll(s, n.meshes);
    ChildFlattensLength(s, n, j);
    FlattenLength(s, n.children[j]);
    ConcatBlock(own, xs, j);
  }

  /** The mesh references of a subtree in pre-order: the node's `mMeshes`,
      then each child's references in child order, every occurrence kept. */
  function Refs(n: Node): seq<nat>
    decreases n, 1
  {
    n.meshes + Concat(ChildRefs(n))
  }

  function ChildRefs(n: Node): (xs: seq<seq<nat>>)
    ensures |xs| == |n.children|
    decreases n, 0
  {
    seq(|n.children|, i requires 0 <= i < |n.children| => Refs(n.children[i]))
  }

  /** Baking a list of references distributes over joining two lists. */
  lemma BakeAllAppend(s: Scene, a: seq<nat>, b: seq<nat>)
    requires RefsValid(s, a) && RefsValid(s, b)
    ensures RefsValid(s, a + b)
    ensures BakeAll(s, a + b) == BakeAll(s, a) + BakeAll(s, b)
  {
    var ab := a + b;
    assert forall r :: r in ab ==> r in a || r in b;
    forall k | 0 <= k < |ab|
      ensures BakeAll(s, ab)[k] == (BakeAll(s, a) + BakeAll(s, b))[k]
    {
      if k < |a| {
        assert ab[k] == a[k];
      } else {
        assert ab[k] == b[k - |a|];
      }
    }
  }

  /** What `processNode` appends is the meshes of the subtree's references, in
      pre-order, with every occurrence baked again: a mesh referenced twice is
      appended twice. */
  lemma {:induction false} FlattenIsBakeAllOfRefs(s: Scene, n: Node)
    requires NodeValid(s, n)
    ensures RefsValid(s, Refs(n))
    ensures Flatten(s, n) == BakeAll(s, Refs(n))
    decreases n, 1, 0
  {
    ChildFlattensAreBakeAll(s, n, |n.children|);
    assert ChildRefs(n)[..|n.children|] == ChildRefs(n);
    assert ChildFlattens(s, n)[..|n.children|] == ChildFlattens(s, n);
    BakeAllAppend(s, n.meshes, Concat(ChildRefs(n)));
  }

  lemma {:induction false} ChildFlattensAreBakeAll(s: Scene, n: Node, k: nat)
    requires NodeValid(s, n) && k <= |n.children|
    ensures RefsValid(s, Concat(ChildRefs(n)[..k]))
    ensures Concat(ChildFlattens(s, n)[..k]) == BakeAll(s, Concat(ChildRefs(n)[..k]))
    decreases n, 0, k
  {
    var xs, rs := ChildFlattens(s, n), ChildRefs(n);
    if k == 0 {
      assert xs[..k] == [] && rs[..k] == [];
    } else {
      ChildFlattensAreBakeAll(s, n, k - 1);
      FlattenIsBakeAllOfRefs(s, n.children[k - 1]);
      PrefixSnoc(xs, k - 1);
      PrefixSnoc(rs, k - 1);
      ConcatSnoc(xs[..k - 1], xs[k - 1]);
      ConcatSnoc(rs[..k - 1], rs[k - 1]);
      BakeAllAppend(s, Concat(rs[..k - 1]), rs[k - 1]);
    }
  }

  /** No instancing, on the smallest tree that shows it: a mesh referenced by a
      node and by its child is baked, and appended, twice. */
  lemma SharedMeshBakedTwice(s: Scene)
    requires |s.meshes| > 0 && MeshValid(s, s.meshes[0])
    ensures NodeValid(s, Node([0], [Node([0], [])]))
    ensures Flatten(s, Node([0], [Node([0], [])])) == [BakeMesh(s, s.meshes[0]), BakeMesh(s, s.meshes[0])]
  {
    var leaf := Node([0], []);
    var root := Node([0], [leaf]);
    var m := BakeMesh(s, s.meshes[0]);
    assert BakeAll(s, [0]) == [m];
    assert ChildFlattens(s, leaf) == [];
    assert Flatten(s, leaf) == [m];
    assert ChildFlattens(s, root) == [[m]];
    assert Concat([[m]]) == Concat([[m]][..0]) + [m];
  }

  /** `processNode`: appends the node's own meshes, then recurses into each
      child; the list it was given stays as the prefix of the result. */
  method ProcessNode(list: seq<Mesh>, s: Scene, n: Node) returns (list': seq<Mesh>)
    requires NodeValid(s, n)
    ensures list' == list + Flatten(s, n)
    decreases n
  {
    ghost var own := BakeAll(s, n.meshes);
    list' := list;
    var i := 0;
    while i < |n.meshes|
      invariant 0 <= i <= |n.meshes|
      invariant list' == list + own[..i]
    {
      assert n.meshes[i] in n.meshes;
      list' := ProcessMesh(list', s, s.meshes[n.meshes[i]]);
      PrefixSnoc(own, i);
      AppendAssoc(list, own[..i], [own[i]]);
      i := i + 1;
    }
    assert own[..i] == own;
    ghost var xs := ChildFlattens(s, n);
    assert xs[..0] == [];
    var j := 0;
    while j < |n.children|
      invariant 0 <= j <= |n.children|
      invariant list' == list + own + Concat(xs[..j])
    {
      list' := ProcessNode(list', s, n.children[j]);
      PrefixSnoc(xs, j);
      ConcatSnoc(xs[..j], xs[j]);
      AppendAssoc(list + own, Concat(xs[..j]), xs[j]);
      j := j + 1;
    }
    assert xs[..j] == xs;
    AppendAssoc(list, own, Concat(xs));
  }
}
