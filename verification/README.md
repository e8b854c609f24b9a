# BakeModel in Dafny

BakeModel is a small Windows command-line baker. It imports a 3D model with
Assimp. It flattens every mesh the node tree references, in pre-order, into a
vertex list and an index list: a mesh referenced twice is flattened twice, and
one that no node references is skipped. It picks a texture or a constant
factor for each of four material channels (BaseColor, MetallicRoughness,
Normal, AO). It then writes a bundle directory named after the stem of the
path `Bake` is given. The baker writes a blob with every mesh's vertices and
indices end to end to a `.bin` stream. That stream is opened in text mode, so
the stored file expands each line-feed byte (0x0A) to 0x0D 0x0A (see
Findings). The bundle also holds a 16x16 placeholder PNG for every mesh whose
BaseColor is a constant factor. The baker builds a JSON manifest in memory
with each mesh's counts and byte offsets, but never writes it: the `.json`
file it opens is left empty.

This project models the three pieces of sequential logic at the core of the
baker and proves what they promise:

- **Mesh extraction and material resolution** (`processMesh`), in
  `geometry.dfy` and `materials.dfy`.
  - The two extraction loops are methods proved against the functions
    `Vertices` and `Indices`.
  - The fallback ladder is four total functions of a `Material` record. Each
    field of the record stands for one Assimp `Get` / `GetTexture` query.
- **Scene traversal** (`processNode`), in `scene_walk.dfy`.
  - The node tree is a datatype over a mesh table.
  - The shared `std::vector<Mesh>&` becomes an in/out sequence.
  - `ProcessNode` is proved to append exactly `Flatten(s, n)`, the pre-order
    list of the subtree's meshes.
- **Bundle layout** (`Bake`), in `bundle.dfy`.
  - The loop that keeps the running offset, grows the blob, builds the
    manifest array and writes placeholders is a method proved against
    `BakeResult`.
  - Lemmas then prove the gapless offset arithmetic, the blob-slicing round
    trip and the agreement between manifest and images.

Floats are only copied, never computed. The model therefore carries them as
their IEEE binary32 bit patterns (`Float32`, a 32-bit word). Vertices and
indices become bytes in little-endian order, as on x86 Windows: a vertex is 8
words (32 bytes) and an index is 1 word (4 bytes). `seqs.dfy`, `raw.dfy` and
`wrappers.dfy` hold generic helpers: concatenation of parts, little-endian
words, decimal strings, 32-bit `int` storage and `Option`.

The model follows the code as written:

- The BaseColor factor wins over a bound BaseColor texture.
- Normal and AO fall back to the file names "Normal.png" / "AO.png", never
  to a factor.
- The placeholder's pixels are byte 0 = 255 and every other byte 0, whatever
  the factor's value.
- No placeholder is made for MetallicRoughness, Normal or AO.
- No external texture is copied.
- The JSON text is built but never written, so the `.json` file is created
  empty.

## Model

| member | source | states |
|---|---|---|
| Geometry.Vertices | BakeModel/BakeModel.cpp:56-75 | one vertex per source vertex, in source order, copying position and normal; texture coordinates (0,0) without a first UV set, else that set's (x, y) |
| Geometry.ExtractVertices | BakeModel/BakeModel.cpp:56-75 | the `push_back` loop builds exactly `Vertices(m)` |
| Geometry.IndicesLength | BakeModel/BakeModel.cpp:77-83 | the index list is exactly as long as the sum of the faces' index counts, for any face list, including none |
| Geometry.IndicesAreFacesInOrder | BakeModel/BakeModel.cpp:77-83 | the index list is as long as the sum of the faces' index counts, and face k's indices sit unchanged right after those of faces 0..k-1 (no dedup, no reordering) |
| Geometry.ExtractIndices | BakeModel/BakeModel.cpp:77-83 | the nested `push_back` loops build exactly the faces' index lists concatenated in face order |
| Geometry.VertexBytesRoundTrip | BakeModel/BakeModel.cpp:31-35 | reading 32-byte records back from a vertex array's bytes gives the vertices back |
| Geometry.IndexBytesRoundTrip | BakeModel/BakeModel.cpp:45 | reading 4-byte words back from an index array's bytes gives the indices back |
| Materials.ResolveBaseColor | BakeModel/BakeModel.cpp:86-94 | a factor exactly when the material has a base color or has no base-color texture; that factor is the material's color, else (1,1,1); otherwise the texture's file name and no factor |
| Materials.ResolveMetallicRoughness | BakeModel/BakeModel.cpp:96-115 | no factor exactly when an MR texture is bound, and then its file name; otherwise the factor (metallic, roughness), each defaulting to 1.0 on its own |
| Materials.ResolveNormal | BakeModel/BakeModel.cpp:117-122 | never a factor; the bound normal map's file name, else "Normal.png" |
| Materials.ResolveAO | BakeModel/BakeModel.cpp:124-129 | never a factor; the bound occlusion map's file name, else "AO.png" |
| SceneWalk.ProcessMesh | BakeModel/BakeModel.cpp:53-131 | the shared list gains exactly one baked mesh at its end: the extracted geometry and the four resolved channels |
| SceneWalk.ProcessNode | BakeModel/BakeModel.cpp:133-144 | the shared list keeps its old contents as a prefix and gains exactly `Flatten(s, n)`: the node's meshes in `mMeshes` order, then each child's subtree in child order |
| SceneWalk.FlattenIsBakeAllOfRefs | BakeModel/BakeModel.cpp:133-144 | a subtree appends exactly the baked meshes of its references in pre-order (own `mMeshes`, then each child's, in child order), every occurrence baked again, so a mesh referenced twice is appended twice |
| SceneWalk.FlattenLength | BakeModel/BakeModel.cpp:133-144 | a subtree appends exactly the sum of `mNumMeshes` over its nodes |
| SceneWalk.FlattenChildBlock | BakeModel/BakeModel.cpp:140-143 | pre-order: child j's subtree sits right after the node's own meshes and the subtrees of children 0..j-1 |
| SceneWalk.SharedMeshBakedTwice | BakeModel/BakeModel.cpp:135-139 | example: a node and its child that both reference mesh 0 append that mesh twice |
| Bundle.PlaceholderPixels | BakeModel/BakeModel.cpp:186-187 | the placeholder buffer is 16·16·3 bytes, byte 0 is 255 and every other byte is 0 |
| Bundle.Bake | BakeModel/BakeModel.cpp:151-205 | the output directory and the `.bin` / `.json` paths are derived from the stem; the `.bin` file holds the blob as a text-mode stream stores it; the `.json` file is empty; the blob, in-memory manifest (`MeshCount` and one entry per mesh, in order) and images are exactly those of `BakeResult` |
| Bundle.BlobLength | BakeModel/BakeModel.cpp:167-181 | the blob is exactly as long as the final running offset |
| Bundle.LayoutIsGapless | BakeModel/BakeModel.cpp:167-181 | the first VertexOffset is 0; IndexOffset = VertexOffset + 32·VertexCount; the next VertexOffset = IndexOffset + 4·IndexCount; the last index block ends where the blob ends; no meshes give an empty blob and manifest |
| Bundle.ManifestSlicesBlob | BakeModel/BakeModel.cpp:167-181 | slicing the blob at entry i's offsets and counts gives exactly mesh i's vertex bytes and index bytes |
| Bundle.BlobRoundTrip | BakeModel/BakeModel.cpp:167-181 | a reader that follows entry i's offsets and counts gets mesh i's vertices and indices back |
| Bundle.PlaceholderNamesDistinct | BakeModel/BakeModel.cpp:185 | different meshes get different placeholder file names |
| Bundle.PlaceholdersWritten | BakeModel/BakeModel.cpp:183-192 | mesh i's placeholder is among the images written for the first k meshes exactly when i < k and its BaseColor factor is set |
| Bundle.ManifestNamesWrittenImages | BakeModel/BakeModel.cpp:183-192 | entry i has a BaseColorTexture exactly when mesh i's BaseColor factor is set; the name is "Mesh<i>BaseColor.png"; the image is written exactly then |
| Bundle.TextModeLength | BakeModel/BakeModel.cpp:160 | a text-mode stream stores one extra byte per line-feed byte written |
| Bundle.TextModeKeepsBytesIffNoLineFeed | BakeModel/BakeModel.cpp:160 | a text-mode stream stores the written bytes unchanged exactly when none of them is a line feed |
| Bundle.LineFeedMisalignsTextModeBlob | BakeModel/BakeModel.cpp:160 | whenever the blob holds a 0x0A byte, the text-mode file is longer than the final offset and differs from the blob |
| Bundle.BinFileOfBake | BakeModel/BakeModel.cpp:160-181 | the `.bin` file a bake leaves is the final running offset plus one byte per line feed in the blob long, and equals the blob exactly when the blob holds no line feed |
| Bundle.TextModeBlobIsMisaligned | BakeModel/BakeModel.cpp:160 | with one mesh of one vertex at x = 0.01 (bits 0x3C23D70A) and one index 0, the manifest places the data's end at byte 36, but the text-mode file is longer and its bytes are not the blob |
| Bundle.WrappedOffsetsAgreeBelow2GiB | BakeModel/BakeModel.cpp:167-180 | while the blob is under 2^31 bytes, the 32-bit `int` offsets equal the true offsets |
| Bundle.OffsetWrapsPast2GiB | BakeModel/BakeModel.cpp:167-180 | a mesh of 2^26 vertices has true IndexOffset 2^31, but the 32-bit `int` records -2^31 |
| Raw.LE32RoundTrip | BakeModel/BakeModel.cpp:175 | a 32-bit word's four little-endian bytes read back as that word |
| Raw.NatToStringRoundTrip | BakeModel/BakeModel.cpp:185 | the decimal text `std::to_string` gives for a mesh number reads back as that number |
| Raw.NatToStringInjective | BakeModel/BakeModel.cpp:185 | different mesh numbers give different decimal texts |
| Raw.ToInt32Congruent | BakeModel/BakeModel.cpp:167 | storing an integer into a 32-bit `int` keeps it modulo 2^32 |

## Left out

- `main` and `W2S`: command-line handling, `winrt::init_apartment`, the
  Assimp import with its fixed path, and a `std::filesystem` wrapper. All are
  I/O or foreign calls. `main` discards the scene imported from the
  command-line argument: it always re-imports and bakes a hard-coded
  `Box.gltf` path, so the bundle is always named after that path's stem.
- Assimp itself. `aiScene`, `aiNode`, `aiMesh` and `aiMaterial` become plain
  datatypes, and `Get` / `GetTexture` become optional fields of a `Material`.
  `aiString` is a Dafny string.
- SceneWalk.ProcessMesh: it requires a well-formed mesh whose material index
  is in range. The code reads normals and the UV set without checking them.
  Normals are generated on import, but not for meshes made only of points or
  lines: for those `mNormals` is null and the code dereferences it.
  `MeshValid` excludes such meshes, so the model says nothing about them.
- The file system:
  - `CreateDirectoryA`, the two `std::ofstream`s and `stbi_write_png` are
    not modelled.
  - `Bake` returns the directory, the paths, the blob bytes, the bytes the
    text-mode `.bin` file stores for them, the (empty) contents of the `.json`
    file, the in-memory manifest tree and the list of
    PNG writes as values.
  - PNG encoding is not modelled.
- The file stem is a parameter: `path.stem()` parsing is not modelled.
- WinRT JSON: the manifest is a datatype, not JSON text. `Stringify` is not
  modelled, and its result is discarded in the code anyway.
- Float contents: they are 32-bit patterns that are only copied, and no
  float arithmetic is modelled.
- Bundle.Bake: its manifest offsets are unbounded. The 32-bit `offset` that
  the code uses is modelled beside it. See Findings.

## Findings

| source | as written | input that shows it | evidently intended | confidence | as-written member | corrected member |
|---|---|---|---|---|---|---|
| BakeModel/BakeModel.cpp:160 | the blob stream is opened with `std::fstream::out` only, i.e. in text mode, so on Windows every 0x0A byte written is stored as 0x0D 0x0A | one mesh with one vertex at (0.01, 0, 0) and one index, 0: 0.01f is 0x3C23D70A, whose first byte in memory is 0x0A; the manifest's last IndexOffset + 4·IndexCount is 36, but the file is longer and its bytes differ from the blob | open in binary mode, so that the file is exactly the concatenated vertex and index bytes | high (not executed) | Bundle.TextModeBlobIsMisaligned | Bundle.BlobRoundTrip |
| BakeModel/BakeModel.cpp:167-180 | `offset` is a 32-bit `int`, so once the blob passes 2^31 - 1 bytes the recorded offsets wrap to negative values | one mesh with 2^26 vertices: true IndexOffset 2^31, recorded -2^31 | a 64-bit (`size_t`) offset, so that every recorded offset is the true byte position | high (not executed) | Bundle.OffsetWrapsPast2GiB | Bundle.LayoutIsGapless |
