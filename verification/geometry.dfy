/** The Geometry Extractor half of `processMesh`: the `Vertex` struct, the copy
    of an imported mesh's vertices and faces into a vertex list and a flat index
    list, and the raw bytes those lists occupy in memory. */
module Geometry {
  import opened Wrappers
  import opened Raw
  import opened Seqs

  /** A `float`, as its IEEE-754 binary32 bit pattern: the code only copies
      floats, it never computes with them. */
  type Float32 = Word32

  const Zero: Float32 := 0
  const One: Float32 := 0x3F80_0000

  datatype Vec2 = Vec2(x: Float32, y: Float32)
  datatype Vec3 = Vec3(x: Float32, y: Float32, z: Float32)

  /** `Vertex`: position, normal and texture coordinates, 8 floats in this order. */
  datatype Vertex = Vertex(position: Vec3, normal: Vec3, texCoords: Vec2)

  /** `aiFace`: the face's vertex indices (`mIndices`, `mNumIndices` of them). */
  datatype Face = Face(indices: seq<Word32>)

  /** The parts of an `aiMesh` the baker reads. `texCoords0` is the first UV set
      (`mTextureCoords[0]`), absent when the mesh has none. */
  datatype ImportedMesh = ImportedMesh(
    vertices: seq<Vec3>,
    normals: seq<Vec3>,
    texCoords0: Option<seq<Vec3>>,
    faces: seq<Face>,
    materialIndex: nat)

  /** The importer's guarantee: normals (generated on import when missing,
      except for point/line meshes, which `MeshValid` excludes) and the first
      UV set, when present, have one entry per vertex. */
  predicate WellFormed(m: ImportedMesh)
  {
    |m.normals| == |m.vertices| &&
    (m.texCoords0.Some? ==> |m.texCoords0.value| == |m.vertices|)
  }

  /** The baked vertex for source vertex `i`. */
  function VertexAt(m: ImportedMesh, i: nat): Vertex
    requires WellFormed(m) && i < |m.vertices|
  {
    var uv := match m.texCoords0
      case None => Vec2(Zero, Zero)
      case Some(uvs) => Vec2(uvs[i].x, uvs[i].y);
    Vertex(m.vertices[i], m.normals[i], uv)
  }

  /** The vertex list of a baked mesh: one vertex per source vertex, in source
      order, copying position and normal, with texture coordinates (0,0) when
      the mesh has no first UV set. */
  function Vertices(m: ImportedMesh): (vs: seq<Vertex>)
    requires WellFormed(m)
    ensures |vs| == |m.vertices|
    ensures forall i :: 0 <= i < |vs| ==>
      vs[i].position == m.vertices[i] && vs[i].normal == m.normals[i]
    ensures m.texCoords0.None? ==> forall i :: 0 <= i < |vs| ==> vs[i].texCoords == Vec2(Zero, Zero)
    ensures m.texCoords0.Some? ==> forall i :: 0 <= i < |vs| ==>
      vs[i].texCoords == Vec2(m.texCoords0.value[i].x, m.texCoords0.value[i].y)
  {
    seq(|m.vertices|, i requires 0 <= i < |m.vertices| => VertexAt(m, i))
  }

  /** The faces' index lists, in face order. */
  function FaceIndexLists(faces: seq<Face>): (xs: seq<seq<Word32>>)
    ensures |xs| == |faces|
    ensures forall k :: 0 <= k < |faces| ==> xs[k] == faces[k].indices
  {
    seq(|faces|, k requires 0 <= k < |faces| => faces[k].indices)
  }

  /** The index list of a baked mesh: every face's indices, face after face. */
  function Indices(faces: seq<Face>): seq<Word32>
  {
    Concat(FaceIndexLists(faces))
  }

  /** Sum of `mNumIndices` over the first `k` faces. */
  function IndexCountBefore(faces: seq<Face>, k: nat): nat
    requires k <= |faces|
  {
    if k == 0 then 0 else IndexCountBefore(faces, k - 1) + |faces[k - 1].indices|
  }

  lemma {:induction false} IndexCountBeforeIsTotalLength(faces: seq<Face>, k: nat)
    requires k <= |faces|
    ensures IndexCountBefore(faces, k) == TotalLength(FaceIndexLists(faces)[..k])
  {
    if k > 0 {
      IndexCountBeforeIsTotalLength(faces, k - 1);
      assert FaceIndexLists(faces)[..k][..k - 1] == FaceIndexLists(faces)[..k - 1];
    }
  }

  /** The index list holds exactly the sum of the faces' index counts (none for
      a mesh without faces). */
  lemma IndicesLength(faces: seq<Face>)
    ensures |Indices(faces)| == IndexCountBefore(faces, |faces|)
  {
    IndexCountBeforeIsTotalLength(faces, |faces|);
    assert FaceIndexLists(faces)[..|faces|] == FaceIndexLists(faces);
  }

  /** The index list holds exactly the sum of the faces' index counts, and face
      `k`'s indices sit, unchanged and in order, right after those of the faces
      before it: no deduplication, no reordering. */
  lemma IndicesAreFacesInOrder(faces: seq<Face>, k: nat)
    requires k < |faces|
    ensures |Indices(faces)| == IndexCountBefore(faces, |faces|)
    ensures IndexCountBefore(faces, k) + |faces[k].indices| <= |Indices(faces)|
    ensures Indices(faces)[IndexCountBefore(faces, k)..IndexCountBefore(faces, k) + |faces[k].indices|]
            == faces[k].indices
  {
    var lists := FaceIndexLists(faces);
    IndicesLength(faces);
    IndexCountBeforeIsTotalLength(faces, k);
    assert lists[k] == faces[k].indices;
    ConcatSlice(lists, k);
  }

  /** The first loop of `processMesh`: one `push_back` per source vertex. */
  method ExtractVertices(m: ImportedMesh) returns (vs: seq<Vertex>)
    requires WellFormed(m)
    ensures vs == Vertices(m)
  {
    vs := [];
    var i := 0;
    while i < |m.vertices|
      invariant 0 <= i <= |m.vertices|
      invariant vs == Vertices(m)[..i]
    {
      var uv := Vec2(Zero, Zero);
      if m.texCoords0.Some? {
        uv := Vec2(m.texCoords0.value[i].x, m.texCoords0.value[i].y);
      }
      vs := vs + [Vertex(m.vertices[i], m.normals[i], uv)];
      i := i + 1;
    }
  }

  /** The nested face loop of `processMesh`: each face's indices pushed in order. */
  method ExtractIndices(m: ImportedMesh) returns (indices: seq<Word32>)
    ensures indices == Indices(m.faces)
  {
    indices := [];
    ghost var lists := FaceIndexLists(m.faces);
    var i := 0;
    while i < |m.faces|
      invariant 0 <= i <= |m.faces|
      invariant indices == Concat(lists[..i])
    {
      var face := m.faces[i];
      var j := 0;
      while j < |face.indices|
        invariant 0 <= j <= |face.indices|
        invariant indices == Concat(lists[..i]) + face.indices[..j]
      {
        indices := indices + [face.indices[j]];
        j := j + 1;
      }
      assert face.indices[..j] == lists[i];
      assert lists[..i + 1] == lists[..i] + [lists[i]];
      ConcatSnoc(lists[..i], lists[i]);
      i := i + 1;
    }
    assert lists[..i] == lists;
  }

  /** The 8 floats of a vertex in struct order. */
  function VertexWords(v: Vertex): (ws: seq<Word32>)
    ensures |ws| == 8
  {
    [v.position.x, v.position.y, v.position.z,
     v.normal.x, v.normal.y, v.normal.z,
     v.texCoords.x, v.texCoords.y]
  }

  /** The vertex a group of 8 floats stores. */
  function VertexOfWords(ws: seq<Word32>): Vertex
    requires |ws| == 8
  {
    Vertex(Vec3(ws[0], ws[1], ws[2]), Vec3(ws[3], ws[4], ws[5]), Vec2(ws[6], ws[7]))
  }

  /** The floats of a vertex array laid out contiguously (no padding). */
  function VertexArrayWords(vs: seq<Vertex>): (ws: seq<Word32>)
    ensures |ws| == 8 * |vs|
  {
    if vs == [] then [] else VertexArrayWords(vs[..|vs| - 1]) + VertexWords(vs[|vs| - 1])
  }

  /** Reads a vertex array back from its floats. */
  function VertexArrayOfWords(ws: seq<Word32>): (vs: seq<Vertex>)
    requires |ws| % 8 == 0
    ensures |vs| == |ws| / 8
  {
    if ws == [] then [] else VertexArrayOfWords(ws[..|ws| - 8]) + [VertexOfWords(ws[|ws| - 8..])]
  }

  lemma {:induction false} VertexArrayRoundTrip(vs: seq<Vertex>)
    ensures VertexArrayOfWords(VertexArrayWords(vs)) == vs
  {
    if vs != [] {
      var init, last := vs[..|vs| - 1], vs[|vs| - 1];
      var ws := VertexArrayWords(vs);
      assert ws[..|ws| - 8] == VertexArrayWords(init);
      assert ws[|ws| - 8..] == VertexWords(last);
      VertexArrayRoundTrip(init);
      assert vs == init + [last];
    }
  }

  /** The bytes at `Vertices.data()`: 32 per vertex. */
  function VertexBytes(vs: seq<Vertex>): (b: seq<byte>)
    ensures |b| == 32 * |vs|
  {
    Words(VertexArrayWords(vs))
  }

  /** The bytes at `Indices.data()`: 4 per index. */
  function IndexBytes(indices: seq<Word32>): (b: seq<byte>)
    ensures |b| == 4 * |indices|
  {
    Words(indices)
  }

  /** A whole number of 32-byte vertices is 8 words per vertex. */
  lemma WordCountOfVertexBytes(length: nat)
    requires length % 32 == 0
    ensures (length / 4) % 8 == 0 && length / 4 == 8 * (length / 32)
  {
    var n := length / 32;
    assert length == 32 * n;
  }

  /** How a consumer of the blob reads a vertex array back from its bytes. */
  function ReadVertices(b: seq<byte>): seq<Vertex>
    requires |b| % 32 == 0
  {
    WordCountOfVertexBytes(|b|);
    VertexArrayOfWords(FromWords(b))
  }

  /** How a consumer of the blob reads an index array back from its bytes. */
  function ReadIndices(b: seq<byte>): seq<Word32>
    requires |b| % 4 == 0
  {
    FromWords(b)
  }

  /** Vertex bytes read back as the vertices that were written. */
  lemma VertexBytesRoundTrip(vs: seq<Vertex>)
    ensures ReadVertices(VertexBytes(vs)) == vs
  {
    WordsRoundTrip(VertexArrayWords(vs));
    VertexArrayRoundTrip(vs);
  }

  /** Index bytes read back as the indices that were written. */
  lemma IndexBytesRoundTrip(indices: seq<Word32>)
    ensures ReadIndices(IndexBytes(indices)) == indices
  {
    WordsRoundTrip(indices);
  }
}
