/** The values a title seals its image with, include/x360port/module_contract.hpp. */
module ModuleContract {
  import opened Bytes

  const IMAGE_BASE_ALIGNMENT: nat := 0x1_0000

  datatype ImageIdentity = ImageIdentity(sha256: seq<byte>, base: u32, size: u32, entryPoint: u32)

  datatype CodeRange = CodeRange(base: u32, size: u32) {
    function End(): nat {
      base as int + size
    }

    predicate Holds(address: int): (held: bool)
      ensures held <==> base <= address && address < base as int + size
    {
      base <= address < End()
    }
  }

  datatype ImportKind = Function | Variable

  datatype ImportRequirement = ImportRequirement(
    kind: ImportKind, library: text, ordinal: u32, name: text, address: u32, recordAddress: u32)

  datatype ModuleDescriptor = ModuleDescriptor(
    image: ImageIdentity, code: CodeRange, importCount: nat, importManifestSha256: seq<byte>)

  /** An image and its import manifest, with the descriptor that seals them. */
  datatype GuestModule = GuestModule(
    descriptor: ModuleDescriptor, imageBytes: seq<byte>, importManifest: seq<ImportRequirement>)
}
