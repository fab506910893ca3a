/** The triangle mesh record shared by loading, morphing and rendering
    (objects/triangle_mesh.rs, struct `TriangleMesh`). */
module Meshes {
  import opened Common
  import opened Materials

  /** `TriangleMesh` without its model matrix: `vertices` and `normals` are the mesh's
      own data, `verticesWorld` and `normalsWorld` their transformed copies, which the
      morphing pipeline reads. */
  datatype TriangleMesh = TriangleMesh(
    vertices: seq<Vec3>,
    verticesWorld: seq<Vec3>,
    normals: seq<Vec4>,
    normalsWorld: seq<Vec4>,
    triangles: seq<Triangle>,
    material: Material)

  /** `TriangleMesh::default()`. */
  function DefaultMesh(): TriangleMesh {
    TriangleMesh([], [], [], [], [], DefaultMaterial())
  }
}
