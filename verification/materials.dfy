/** The Material Resolver half of `processMesh`: the `Texture` struct and the
    fallback ladder that fills the four channels of a baked mesh from the
    mesh's material. */
module Materials {
  import opened Wrappers
  import opened Geometry

  /** What the baker can learn from an `aiMaterial`: each field is one `Get` /
      `GetTexture` query, `None` when that query does not succeed. */
  datatype Material = Material(
    baseColor: Option<Vec3>,                 // AI_MATKEY_BASE_COLOR
    baseColorTexture: Option<string>,        // AI_MATKEY_BASE_COLOR_TEXTURE
    metallicRoughnessTexture: Option<string>,// glTF metallic-roughness texture
    metallicFactor: Option<Float32>,         // AI_MATKEY_METALLIC_FACTOR
    roughnessFactor: Option<Float32>,        // AI_MATKEY_ROUGHNESS_FACTOR
    normalTexture: Option<string>,           // aiTextureType_NORMALS, slot 0
    aoTexture: Option<string>)               // aiTextureType_AMBIENT_OCCLUSION, slot 0

  /** `Texture`: a file name (empty when unset) and two optional factors. */
  datatype Texture = Texture(
    fileName: string,
    baseColorFactor: Option<Vec3>,
    metallicRoughnessFactor: Option<Vec2>)

  const White := Vec3(One, One, One)
  const DefaultNormalFile := "Normal.png"
  const DefaultAOFile := "AO.png"

  /** BaseColor: the base-color factor when the material has one (even when a
      texture is bound too); otherwise the bound texture's file name; otherwise
      the factor (1,1,1). */
  function ResolveBaseColor(mat: Material): (t: Texture)
    ensures t.metallicRoughnessFactor.None?
    ensures t.baseColorFactor.Some? <==> mat.baseColor.Some? || mat.baseColorTexture.None?
    ensures t.baseColorFactor.Some? ==> t.fileName == "" && t.baseColorFactor.value == mat.baseColor.GetOr(White)
    ensures t.baseColorFactor.None? ==> t.fileName == mat.baseColorTexture.value
  {
    if mat.baseColor.Some? then Texture("", Some(mat.baseColor.value), None)
    else if mat.baseColorTexture.Some? then Texture(mat.baseColorTexture.value, None, None)
    else Texture("", Some(White), None)
  }

  /** MetallicRoughness: the bound texture's file name and no factor; otherwise
      the factor (metallic, roughness), each defaulting to 1.0 on its own. */
  function ResolveMetallicRoughness(mat: Material): (t: Texture)
    ensures t.baseColorFactor.None?
    ensures t.metallicRoughnessFactor.None? <==> mat.metallicRoughnessTexture.Some?
    ensures mat.metallicRoughnessTexture.Some? ==> t.fileName == mat.metallicRoughnessTexture.value
    ensures t.metallicRoughnessFactor.Some? ==>
      t.fileName == "" &&
      t.metallicRoughnessFactor.value.x == mat.metallicFactor.GetOr(One) &&
      t.metallicRoughnessFactor.value.y == mat.roughnessFactor.GetOr(One)
  {
    if mat.metallicRoughnessTexture.Some? then
      Texture(mat.metallicRoughnessTexture.value, None, None)
    else
      var metallic := if mat.metallicFactor.Some? then mat.metallicFactor.value else One;
      var roughness := if mat.roughnessFactor.Some? then mat.roughnessFactor.value else One;
      Texture("", None, Some(Vec2(metallic, roughness)))
  }

  /** Normal: always a file name, never a factor: the bound normal map's, or "Normal.png". */
  function ResolveNormal(mat: Material): (t: Texture)
    ensures t.baseColorFactor.None? && t.metallicRoughnessFactor.None?
    ensures mat.normalTexture.Some? ==> t.fileName == mat.normalTexture.value
    ensures mat.normalTexture.None? ==> t.fileName == DefaultNormalFile
  {
    if mat.normalTexture.Some? then Texture(mat.normalTexture.value, None, None)
    else Texture(DefaultNormalFile, None, None)
  }

  /** AO: always a file name, never a factor: the bound occlusion map's, or "AO.png". */
  function ResolveAO(mat: Material): (t: Texture)
    ensures t.baseColorFactor.None? && t.metallicRoughnessFactor.None?
    ensures mat.aoTexture.Some? ==> t.fileName == mat.aoTexture.value
    ensures mat.aoTexture.None? ==> t.fileName == DefaultAOFile
  {
    if mat.aoTexture.Some? then Texture(mat.aoTexture.value, None, None)
    else Texture(DefaultAOFile, None, None)
  }
}
