/** The Bundle Writer, `Bake`: one pass over the baked meshes that lays their
    vertex and index bytes end to end in the blob, records each mesh's counts
    and byte offsets in the manifest, and writes a placeholder image for every
    mesh whose BaseColor channel holds a factor. Files are returned as values:
    the blob's bytes, the bytes the text-mode `.bin` stream stores for them,
    the manifest's object tree and the image writes. */
module Bundle {
  import opened Wrappers
  import opened Raw
  import opened Seqs
  import opened Geometry
  import opened Materials
  import opened SceneWalk

  /** One element of the manifest's `MeshAttributes` array. */
  datatype MeshAttributes = MeshAttributes(
    vertexCount: nat,
    vertexOffset: nat,
    indexCount: nat,
    indexOffset: nat,
    baseColorTexture: Option<string>)

  /** The manifest object: `MeshCount` and `MeshAttributes`. */
  datatype Manifest = Manifest(meshCount: nat, meshAttributes: seq<MeshAttributes>)

  /** One `stbi_write_png(path, width, height, components, pixels, 0)` call. */
  datatype PngWrite = PngWrite(path: string, width: nat, height: nat, components: nat, pixels: seq<byte>)

  /** What a bake produces for an input file whose stem is `directory`: the
      paths it opens, the blob (the bytes written to the `.bin` stream), the
      bytes the `.bin` file then holds, the bytes of the `.json` file, the
      in-memory manifest object, and the PNG writes. The `.bin` stream is
      opened in text mode, so the file holds `TextModeBytes(blob)`. The
      manifest is built and stringified but never written, so the `.json`
      file is created (truncated) and left empty. */
  datatype BakeOutput = BakeOutput(
    directory: string,
    binPath: string,
    blob: seq<byte>,
    binFile: seq<byte>,
    jsonPath: string,
    jsonFile: seq<byte>,
    manifest: Manifest,
    images: seq<PngWrite>)

  const PlaceholderSide: nat := 16
  const PlaceholderComponents: nat := 3

  /** The bytes one mesh contributes to the blob: its vertices, then its indices. */
  function MeshData(m: Mesh): (b: seq<byte>)
    ensures |b| == DataSize(m)
  {
    VertexBytes(m.vertices) + IndexBytes(m.indices)
  }

  /** The number of blob bytes one mesh takes. */
  function DataSize(m: Mesh): nat
  {
    32 * |m.vertices| + 4 * |m.indices|
  }

  function MeshDataBlocks(ms: seq<Mesh>): (bs: seq<seq<byte>>)
    ensures |bs| == |ms|
  {
    seq(|ms|, i requires 0 <= i < |ms| => MeshData(ms[i]))
  }

  /** The blob: the meshes' data, mesh after mesh, with no header or padding. */
  function Blob(ms: seq<Mesh>): seq<byte>
  {
    Concat(MeshDataBlocks(ms))
  }

  /** The running offset when mesh `i` is reached: the data sizes of the meshes
      before it, added up. */
  function OffsetBefore(ms: seq<Mesh>, i: nat): nat
    requires i <= |ms|
  {
    if i == 0 then 0 else OffsetBefore(ms, i - 1) + DataSize(ms[i - 1])
  }

  /** The image name recorded for mesh `i`'s synthesized BaseColor. */
  function PlaceholderName(i: nat): string
  {
    "Mesh" + NatToString(i) + "BaseColor.png"
  }

  /** Manifest entry `i`: counts, the vertex offset, the index offset right
      after the vertex bytes, and a placeholder name when BaseColor is a factor. */
  function Entry(ms: seq<Mesh>, i: nat): MeshAttributes
    requires i < |ms|
  {
    var m := ms[i];
    var vertexOffset := OffsetBefore(ms, i);
    MeshAttributes(
      |m.vertices|, vertexOffset,
      |m.indices|, vertexOffset + 32 * |m.vertices|,
      if m.baseColor.baseColorFactor.Some? then Some(PlaceholderName(i)) else None)
  }

  function Entries(ms: seq<Mesh>): (es: seq<MeshAttributes>)
    ensures |es| == |ms|
  {
    seq(|ms|, i requires 0 <= i < |ms| => Entry(ms, i))
  }

  /** The placeholder's pixel buffer: `new uint8_t[16 * 16 * 3]{255}` sets the
      first byte to 255 and value-initializes the rest to 0, whatever the factor. */
  function PlaceholderPixels(): (p: seq<byte>)
    ensures |p| == PlaceholderSide * PlaceholderSide * PlaceholderComponents
    ensures p[0] == 255
    ensures forall k :: 1 <= k < |p| ==> p[k] == 0
  {
    [255] + seq(PlaceholderSide * PlaceholderSide * PlaceholderComponents - 1, _ => 0)
  }

  /** The image for mesh `i`'s placeholder, a 16x16 RGB PNG inside the bundle directory. */
  function PlaceholderImage(stem: string, i: nat): PngWrite
  {
    PngWrite(stem + "\\" + PlaceholderName(i), PlaceholderSide, PlaceholderSide,
             PlaceholderComponents, PlaceholderPixels())
  }

  /** The image written for mesh `i`, if any. */
  function PlaceholderWrite(stem: string, ms: seq<Mesh>, i: nat): seq<PngWrite>
    requires i < |ms|
  {
    if ms[i].baseColor.baseColorFactor.Some? then
      [PlaceholderImage(stem, i)]
    else []
  }

  /** The images written for the first `k` meshes, in mesh order. */
  function Placeholders(stem: string, ms: seq<Mesh>, k: nat): seq<PngWrite>
    requires k <= |ms|
  {
    if k == 0 then [] else Placeholders(stem, ms, k - 1) + PlaceholderWrite(stem, ms, k - 1)
  }

  /** The manifest grows by the entry the pass builds for mesh `i`. */
  lemma EntriesStep(ms: seq<Mesh>, i: nat, vertexOffset: nat, indexOffset: nat, texture: Option<string>)
    requires i < |ms|
    requires vertexOffset == OffsetBefore(ms, i) && indexOffset == vertexOffset + |ms[i].vertices| * 32
    requires texture == if ms[i].baseColor.baseColorFactor.Some? then Some(PlaceholderName(i)) else None
    ensures Entries(ms)[..i + 1]
            == Entries(ms)[..i] + [MeshAttributes(|ms[i].vertices|, vertexOffset, |ms[i].indices|, indexOffset, texture)]
  {
    assert Entries(ms)[i] == MeshAttributes(|ms[i].vertices|, vertexOffset, |ms[i].indices|, indexOffset, texture);
    PrefixSnoc(Entries(ms), i);
  }

  /** The blob grows by mesh `i`'s vertex bytes, then its index bytes. */
  lemma BlobStep(ms: seq<Mesh>, i: nat)
    requires i < |ms|
    ensures Concat(MeshDataBlocks(ms)[..i + 1])
            == Concat(MeshDataBlocks(ms)[..i]) + VertexBytes(ms[i].vertices) + IndexBytes(ms[i].indices)
  {
    var blocks := MeshDataBlocks(ms);
    AppendAssoc(Concat(blocks[..i]), VertexBytes(ms[i].vertices), IndexBytes(ms[i].indices));
    PrefixSnoc(blocks, i);
    ConcatSnoc(blocks[..i], blocks[i]);
  }

  /** Everything a bake of `meshes` produces in directory `stem`: the `.bin`
      file holds the blob as a text-mode stream stores it, and the `.json`
      file stays empty. */
  function BakeResult(stem: string, meshes: seq<Mesh>): BakeOutput
  {
    BakeOutput(stem, stem + "\\" + stem + ".bin", Blob(meshes), TextModeBytes(Blob(meshes)),
               stem + "\\" + stem + ".json", [],
               Manifest(|meshes|, Entries(meshes)), Placeholders(stem, meshes, |meshes|))
  }

  /** `Bake`: the single pass over the mesh list. */
  method Bake(stem: string, meshes: seq<Mesh>) returns (out: BakeOutput)
    ensures out == BakeResult(stem, meshes)
  {
    ghost var blocks := MeshDataBlocks(meshes);
    ghost var entries := Entries(meshes);
    var blob: seq<byte> := [];
    var attributes: seq<MeshAttributes> := [];
    var images: seq<PngWrite> := [];
    var offset: nat := 0;
    assert blocks[..0] == [];
    for i: nat := 0 to |meshes|
      invariant offset == OffsetBefore(meshes, i)
      invariant blob == Concat(blocks[..i])
      invariant attributes == entries[..i]
      invariant images == Placeholders(stem, meshes, i)
    {
      BlobStep(meshes, i);
      var m := meshes[i];
      var vertexOffset := offset;
      offset := offset + |m.vertices| * 32;
      blob := blob + VertexBytes(m.vertices);
      var indexOffset := offset;
      offset := offset + |m.indices| * 4;
      blob := blob + IndexBytes(m.indices);
      var baseColorTexture := None;
      if m.baseColor.baseColorFactor.Some? {
        var name := PlaceholderName(i);
        images := images + [PlaceholderImage(stem, i)];
        baseColorTexture := Some(name);
      }
      EntriesStep(meshes, i, vertexOffset, indexOffset, baseColorTexture);
      attributes := attributes + [MeshAttributes(|m.vertices|, vertexOffset, |m.indices|, indexOffset, baseColorTexture)];
    }
    assert blocks[..|meshes|] == blocks;
    assert entries[..|meshes|] == entries;
    out := BakeOutput(stem, stem + "\\" + stem + ".bin", blob, TextModeBytes(blob),
                      stem + "\\" + stem + ".json", [],
                      Manifest(|meshes|, attributes), images);
  }

  /** The blob bytes of the first `k` meshes are exactly the running offset at mesh `k`. */
  lemma {:induction false} BlobPrefixLength(ms: seq<Mesh>, k: nat)
    requires k <= |ms|
    ensures TotalLength(MeshDataBlocks(ms)[..k]) == OffsetBefore(ms, k)
  {
    var blocks := MeshDataBlocks(ms);
    if k == 0 {
      assert blocks[..k] == [];
    } else {
      BlobPrefixLength(ms, k - 1);
      PrefixSnoc(blocks, k - 1);
      ConcatSnoc(blocks[..k - 1], blocks[k - 1]);
    }
  }

  /** The blob is exactly as long as the final running offset. */
  lemma BlobLength(ms: seq<Mesh>)
    ensures |Blob(ms)| == OffsetBefore(ms, |ms|)
  {
    BlobPrefixLength(ms, |ms|);
    assert MeshDataBlocks(ms)[..|ms|] == MeshDataBlocks(ms);
  }

  /** Gapless, cumulative packing: the first mesh starts at 0, each index block
      follows its vertex block, each mesh follows the previous one's index
      block, and the last index block ends where the blob ends. */
  lemma LayoutIsGapless(ms: seq<Mesh>)
    ensures |Blob(ms)| == OffsetBefore(ms, |ms|)
    ensures |ms| == 0 ==> Blob(ms) == [] && Entries(ms) == []
    ensures |ms| > 0 ==> Entries(ms)[0].vertexOffset == 0
    ensures forall i :: 0 <= i < |ms| ==>
      Entries(ms)[i].indexOffset == Entries(ms)[i].vertexOffset + 32 * Entries(ms)[i].vertexCount
    ensures forall i :: 0 < i < |ms| ==>
      Entries(ms)[i].vertexOffset == Entries(ms)[i - 1].indexOffset + 4 * Entries(ms)[i - 1].indexCount
    ensures |ms| > 0 ==>
      Entries(ms)[|ms| - 1].indexOffset + 4 * Entries(ms)[|ms| - 1].indexCount == |Blob(ms)|
  {
    BlobLength(ms);
  }

  /** Slicing the blob at entry `i`'s offsets and counts yields exactly mesh
      `i`'s vertex bytes and index bytes. */
  lemma ManifestSlicesBlob(ms: seq<Mesh>, i: nat)
    requires i < |ms|
    ensures Entries(ms)[i].indexOffset + 4 * Entries(ms)[i].indexCount <= |Blob(ms)|
    ensures Blob(ms)[Entries(ms)[i].vertexOffset..Entries(ms)[i].indexOffset] == VertexBytes(ms[i].vertices)
    ensures Blob(ms)[Entries(ms)[i].indexOffset..Entries(ms)[i].indexOffset + 4 * Entries(ms)[i].indexCount]
            == IndexBytes(ms[i].indices)
  {
    var blocks := MeshDataBlocks(ms);
    var e := Entries(ms)[i];
    var u, v := VertexBytes(ms[i].vertices), IndexBytes(ms[i].indices);
    BlobPrefixLength(ms, i);
    ConcatBlockParts(blocks, i, u, v, e.vertexOffset, e.indexOffset, e.indexOffset + 4 * e.indexCount);
  }

  /** A manifest entry fits inside the blob it describes. */
  predicate EntryFits(blob: seq<byte>, e: MeshAttributes)
  {
    e.vertexOffset + 32 * e.vertexCount <= |blob| && e.indexOffset + 4 * e.indexCount <= |blob|
  }

  /** A whole number of 32-byte vertices and of 4-byte indices. */
  lemma WholeRecords(vertexCount: nat, indexCount: nat)
    ensures (32 * vertexCount) % 32 == 0 && (4 * indexCount) % 4 == 0
  {
  }

  /** How a consumer of the bundle reads one mesh back: the vertices at the
      entry's vertex offset and the indices at its index offset. */
  function ReadMesh(blob: seq<byte>, e: MeshAttributes): (seq<Vertex>, seq<Word32>)
    requires EntryFits(blob, e)
  {
    var vs := blob[e.vertexOffset..e.vertexOffset + 32 * e.vertexCount];
    var ix := blob[e.indexOffset..e.indexOffset + 4 * e.indexCount];
    WholeRecords(e.vertexCount, e.indexCount);
    (ReadVertices(vs), ReadIndices(ix))
  }

  /** Round trip: reading mesh `i` back out of the blob through its manifest
      entry gives exactly the vertices and indices that were baked. */
  lemma BlobRoundTrip(ms: seq<Mesh>, i: nat)
    requires i < |ms|
    ensures EntryFits(Blob(ms), Entries(ms)[i])
    ensures ReadMesh(Blob(ms), Entries(ms)[i]) == (ms[i].vertices, ms[i].indices)
  {
    var e := Entries(ms)[i];
    ManifestSlicesBlob(ms, i);
    assert e.vertexOffset + 32 * e.vertexCount == e.indexOffset;
    VertexBytesRoundTrip(ms[i].vertices);
    IndexBytesRoundTrip(ms[i].indices);
  }

  /** Distinct meshes get distinct placeholder names, so no image overwrites another. */
  lemma PlaceholderNamesDistinct(i: nat, j: nat)
    requires i != j
    ensures PlaceholderName(i) != PlaceholderName(j)
  {
    if PlaceholderName(i) == PlaceholderName(j) {
      var a, b := NatToString(i), NatToString(j);
      assert |a| == |b|;
      assert a == PlaceholderName(i)[4..4 + |a|];
      assert b == PlaceholderName(j)[4..4 + |b|];
      NatToStringInjective(i, j);
    }
  }

  lemma {:induction false} PlaceholdersWritten(stem: string, ms: seq<Mesh>, i: nat, k: nat)
    requires i < |ms| && k <= |ms|
    ensures PlaceholderImage(stem, i) in Placeholders(stem, ms, k)
            <==> i < k && ms[i].baseColor.baseColorFactor.Some?
  {
    if k > 0 {
      PlaceholdersWritten(stem, ms, i, k - 1);
      if i != k - 1 && PlaceholderImage(stem, i) in PlaceholderWrite(stem, ms, k - 1) {
        assert PlaceholderImage(stem, i) == PlaceholderImage(stem, k - 1);
        assert PlaceholderName(i) == (stem + "\\" + PlaceholderName(i))[|stem| + 1..];
        PlaceholderNamesDistinct(i, k - 1);
      }
    }
  }

  /** Manifest and images agree: entry `i` names a BaseColor texture exactly
      when mesh `i`'s BaseColor is a factor, the name is "Mesh<i>BaseColor.png",
      and exactly then that image is written into the output directory. */
  lemma ManifestNamesWrittenImages(stem: string, ms: seq<Mesh>, i: nat)
    requires i < |ms|
    ensures Entries(ms)[i].baseColorTexture.Some? <==> ms[i].baseColor.baseColorFactor.Some?
    ensures Entries(ms)[i].baseColorTexture.Some? ==>
      Entries(ms)[i].baseColorTexture.value == "Mesh" + NatToString(i) + "BaseColor.png"
    ensures PlaceholderImage(stem, i) in Placeholders(stem, ms, |ms|) <==> Entries(ms)[i].baseColorTexture.Some?
  {
    PlaceholdersWritten(stem, ms, i, |ms|);
  }

  // The blob stream opened in text mode.

  /** What a text-mode `std::ofstream` stores on Windows for the bytes written
      to it: every line feed (10) becomes carriage return, line feed (13, 10). */
  function TextModeBytes(b: seq<byte>): seq<byte>
  {
    if b == [] then []
    else TextModeBytes(b[..|b| - 1]) + (if b[|b| - 1] == 10 then [13, 10] else [b[|b| - 1]])
  }

  /** The stored file is longer than what was written by one byte per line feed. */
  lemma {:induction false} TextModeLength(b: seq<byte>)
    ensures |TextModeBytes(b)| == |b| + multiset(b)[10]
  {
    if b != [] {
      var n := |b| - 1;
      assert b == b[..n] + [b[n]];
      assert multiset(b) == multiset(b[..n]) + multiset{b[n]};
      TextModeLength(b[..n]);
    }
  }

  /** Writing one more byte appends that byte's stored form. */
  lemma TextModeSnoc(a: seq<byte>, x: byte)
    ensures TextModeBytes(a + [x]) == TextModeBytes(a) + (if x == 10 then [13, 10] else [x])
  {
    assert (a + [x])[..|a|] == a;
  }

  lemma {:induction false} TextModeKeepsBytesWithoutLineFeed(b: seq<byte>)
    requires 10 !in b
    ensures TextModeBytes(b) == b
  {
    if b != [] {
      var n := |b| - 1;
      assert b == b[..n] + [b[n]];
      TextModeKeepsBytesWithoutLineFeed(b[..n]);
      TextModeSnoc(b[..n], b[n]);
    }
  }

  /** Text mode stores the bytes unchanged exactly when none of them is a line feed. */
  lemma TextModeKeepsBytesIffNoLineFeed(b: seq<byte>)
    ensures TextModeBytes(b) == b <==> 10 !in b
  {
    if 10 in b {
      TextModeLength(b);
    } else {
      TextModeKeepsBytesWithoutLineFeed(b);
    }
  }

  /** Once the blob holds a line-feed byte, the text-mode file is longer than
      the offsets in the manifest account for, and its bytes are not the blob. */
  lemma LineFeedMisalignsTextModeBlob(ms: seq<Mesh>)
    requires 10 in Blob(ms)
    ensures |TextModeBytes(Blob(ms))| > OffsetBefore(ms, |ms|) == |Blob(ms)|
    ensures TextModeBytes(Blob(ms)) != Blob(ms)
  {
    BlobLength(ms);
    TextModeLength(Blob(ms));
    TextModeKeepsBytesIffNoLineFeed(Blob(ms));
  }

  /** The `.bin` file a bake leaves is the final running offset plus one byte
      per line feed in the blob long, and it is the blob exactly when the blob
      holds no line feed. */
  lemma BinFileOfBake(stem: string, ms: seq<Mesh>)
    ensures |BakeResult(stem, ms).binFile| == OffsetBefore(ms, |ms|) + multiset(Blob(ms))[10]
    ensures BakeResult(stem, ms).binFile == BakeResult(stem, ms).blob <==> 10 !in Blob(ms)
  {
    BlobLength(ms);
    TextModeLength(Blob(ms));
    TextModeKeepsBytesIffNoLineFeed(Blob(ms));
  }

  /** A mesh of one vertex whose first float has lowest byte 0x0A and one index
      puts a line feed first in a 36-byte blob. */
  lemma OneVertexBlob(v: Vertex, index: Word32, t: Texture)
    requires v.position.x % 0x100 == 10
    ensures |Blob([Mesh([v], [index], t, t, t, t)])| == 36
    ensures Blob([Mesh([v], [index], t, t, t, t)])[0] == 10
  {
    var ms := [Mesh([v], [index], t, t, t, t)];
    assert [v][..0] == [];
    assert VertexArrayWords([v]) == VertexWords(v);
    WordsHead(VertexWords(v));
    var blocks := MeshDataBlocks(ms);
    assert blocks[..0] == [];
    assert Blob(ms) == VertexBytes([v]) + IndexBytes([index]);
  }

  /** A well-formed one-mesh bake: one vertex at x = 0.01 (bits 0x3C23D70A,
      lowest byte 0x0A) and one index, 0. The manifest says the data ends at
      byte 36, but the text-mode file is longer and its bytes are not the blob. */
  lemma TextModeBlobIsMisaligned()
    ensures var t := Texture("", None, None);
            var v := Vertex(Vec3(0x3C23_D70A, Zero, Zero), Vec3(Zero, Zero, One), Vec2(Zero, Zero));
            var ms := [Mesh([v], [0], t, t, t, t)];
            Entries(ms)[0].indexOffset + 4 * Entries(ms)[0].indexCount == |Blob(ms)| == 36
            && |TextModeBytes(Blob(ms))| > 36
            && TextModeBytes(Blob(ms)) != Blob(ms)
  {
    var t := Texture("", None, None);
    var v := Vertex(Vec3(0x3C23_D70A, Zero, Zero), Vec3(Zero, Zero, One), Vec2(Zero, Zero));
    var ms := [Mesh([v], [0], t, t, t, t)];
    OneVertexBlob(v, 0, t);
    LineFeedMisalignsTextModeBlob(ms);
    LayoutIsGapless(ms);
  }

  // The running offset kept in a 32-bit `int`.

  /** The vertex offset of mesh `i` as `Bake` computes it: each `offset +=`
      stores the sum back into a signed 32-bit `int`, wrapping past 2^31 - 1. */
  function WrappedOffsetBefore(ms: seq<Mesh>, i: nat): int
    requires i <= |ms|
    decreases i, 0
  {
    if i == 0 then 0 else ToInt32(WrappedIndexOffset(ms, i - 1) + 4 * |ms[i - 1].indices|)
  }

  /** The index offset of mesh `i` as `Bake` computes it in the 32-bit `int`. */
  function WrappedIndexOffset(ms: seq<Mesh>, i: nat): int
    requires i < |ms|
    decreases i, 1
  {
    ToInt32(WrappedOffsetBefore(ms, i) + 32 * |ms[i].vertices|)
  }

  lemma {:induction false} OffsetBeforeMonotone(ms: seq<Mesh>, i: nat, j: nat)
    requires i <= j <= |ms|
    ensures OffsetBefore(ms, i) <= OffsetBefore(ms, j)
    decreases j
  {
    if i < j {
      OffsetBeforeMonotone(ms, i, j - 1);
    }
  }

  lemma WrappedOffsetBeforeStep(ms: seq<Mesh>, i: nat)
    requires 0 < i <= |ms|
    requires 0 <= WrappedIndexOffset(ms, i - 1) + 4 * |ms[i - 1].indices| < 0x8000_0000
    ensures WrappedOffsetBefore(ms, i) == WrappedIndexOffset(ms, i - 1) + 4 * |ms[i - 1].indices|
  {
    ToInt32InRange(WrappedIndexOffset(ms, i - 1) + 4 * |ms[i - 1].indices|);
  }

  lemma WrappedIndexOffsetStep(ms: seq<Mesh>, i: nat)
    requires i < |ms|
    requires 0 <= WrappedOffsetBefore(ms, i) + 32 * |ms[i].vertices| < 0x8000_0000
    ensures WrappedIndexOffset(ms, i) == WrappedOffsetBefore(ms, i) + 32 * |ms[i].vertices|
  {
    ToInt32InRange(WrappedOffsetBefore(ms, i) + 32 * |ms[i].vertices|);
  }

  /** While the blob stays under 2 GiB the 32-bit offsets are the true ones. */
  lemma {:induction false} WrappedOffsetsAgreeBelow2GiB(ms: seq<Mesh>, i: nat)
    requires i < |ms| && |Blob(ms)| < 0x8000_0000
    ensures WrappedOffsetBefore(ms, i) == OffsetBefore(ms, i)
    ensures WrappedIndexOffset(ms, i) == OffsetBefore(ms, i) + 32 * |ms[i].vertices|
  {
    BlobLength(ms);
    OffsetBeforeMonotone(ms, i + 1, |ms|);
    if i > 0 {
      WrappedOffsetsAgreeBelow2GiB(ms, i - 1);
      WrappedOffsetBeforeStep(ms, i);
    }
    WrappedIndexOffsetStep(ms, i);
  }

  /** A mesh of 2^26 vertices has 2^31 bytes of vertex data: its index offset
      is 2^31, but the 32-bit `int` records -2^31. */
  lemma OffsetWrapsPast2GiB()
    ensures var t := Texture("", None, None);
            var v := Vertex(Vec3(Zero, Zero, Zero), Vec3(Zero, Zero, Zero), Vec2(Zero, Zero));
            var ms := [Mesh(seq(0x400_0000, _ => v), [], t, t, t, t)];
            Entries(ms)[0].indexOffset == 0x8000_0000 && WrappedIndexOffset(ms, 0) == -0x8000_0000
  {
  }
}
