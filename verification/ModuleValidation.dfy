/** ValidateModule and ValidateImports, src/module_validation.cpp. */
module ModuleValidation {
  import opened Bytes
  import opened ModuleContract
  import opened Digest
  import opened ManifestCodec

  datatype ValidationError =
    | NoError
    | InvalidImageDigest
    | ImageSizeMismatch
    | ImageBaseMisaligned
    | ImageAddressOverflow
    | ImageDigestMismatch
    | InvalidCodeRange
    | EntryPointOutsideCode
    | ImportCountMismatch
    | InvalidImport
    | ImportOrdinalOutOfRange
    | ImportAddressConflict
    | UnsortedImportManifest
    | ImportManifestDigestMismatch
    | ImportBindingCountMismatch
    | ImportBindingMismatch
    | ImportBindingKindMismatch
    | ImportBindingCallbackMismatch

  // ---- The order of import identities ----

  /** The order of std::string_view: the first differing byte decides, and a proper prefix is less. */
  predicate TextLess(left: text, right: text)
    decreases |left|
  {
    if |right| == 0 then false
    else if |left| == 0 then true
    else if left[0] != right[0] then left[0] < right[0]
    else TextLess(left[1..], right[1..])
  }

  predicate ImportLess(left: ImportRequirement, right: ImportRequirement) {
    if left.library != right.library then TextLess(left.library, right.library) else left.ordinal < right.ordinal
  }

  lemma {:induction false} TextLessIsIrreflexive(a: text)
    ensures !TextLess(a, a)
    decreases |a|
  {
    if |a| > 0 {
      TextLessIsIrreflexive(a[1..]);
    }
  }

  lemma {:induction false} TextLessIsTransitive(a: text, b: text, c: text)
    requires TextLess(a, b) && TextLess(b, c)
    ensures TextLess(a, c)
    decreases |a|
  {
    if |a| > 0 && a[0] == b[0] == c[0] {
      TextLessIsTransitive(a[1..], b[1..], c[1..]);
    }
  }

  lemma ImportLessIsTransitive(a: ImportRequirement, b: ImportRequirement, c: ImportRequirement)
    requires ImportLess(a, b) && ImportLess(b, c)
    ensures ImportLess(a, c)
  {
    if a.library != b.library && b.library != c.library {
      TextLessIsTransitive(a.library, b.library, c.library);
      TextLessIsIrreflexive(a.library);
    }
  }

  /** The bytes agree below k, and there left ends first or has the smaller byte. */
  predicate BeforeAt(left: text, right: text, k: nat) {
    && k <= |left| && k < |right|
    && (forall i :: 0 <= i < k ==> left[i] == right[i])
    && (k == |left| || left[k] < right[k])
  }

  ghost predicate TextBefore(left: text, right: text) {
    exists k: nat :: BeforeAt(left, right, k)
  }

  ghost predicate ImportBefore(left: ImportRequirement, right: ImportRequirement) {
    TextBefore(left.library, right.library) || (left.library == right.library && left.ordinal < right.ordinal)
  }

  /** Comparing byte by byte finds the first place where the two differ. */
  lemma {:induction false} TextLessIffBefore(left: text, right: text)
    ensures TextLess(left, right) <==> TextBefore(left, right)
    decreases |left|
  {
    if |left| == 0 || |right| == 0 || left[0] != right[0] {
      if TextLess(left, right) {
        assert BeforeAt(left, right, 0);
      }
    } else {
      TextLessIffBefore(left[1..], right[1..]);
      if TextBefore(left[1..], right[1..]) {
        var k: nat :| BeforeAt(left[1..], right[1..], k);
        assert forall i :: 0 < i < k + 1 ==> left[i] == left[1..][i - 1] && right[i] == right[1..][i - 1];
        assert BeforeAt(left, right, k + 1);
      }
      if TextBefore(left, right) {
        var k: nat :| BeforeAt(left, right, k);
        assert BeforeAt(left[1..], right[1..], k - 1);
      }
    }
  }

  lemma ImportLessIffBefore(left: ImportRequirement, right: ImportRequirement)
    ensures ImportLess(left, right) <==> ImportBefore(left, right)
  {
    hide TextLess, TextBefore;
    TextLessIffBefore(left.library, right.library);
    if left.library == right.library {
      TextLessIsIrreflexive(left.library);
    }
  }

  /** The manifest is globally, strictly ordered by library and ordinal. */
  predicate Sorted(imports: seq<ImportRequirement>) {
    forall i, j :: 0 <= i < j < |imports| ==> ImportLess(imports[i], imports[j])
  }

  lemma SortedIffBefore(imports: seq<ImportRequirement>)
    ensures Sorted(imports) <==> forall i, j :: 0 <= i < j < |imports| ==> ImportBefore(imports[i], imports[j])
  {
    hide ImportLess, ImportBefore;
    forall i, j | 0 <= i < j < |imports|
      ensures ImportLess(imports[i], imports[j]) <==> ImportBefore(imports[i], imports[j])
    {
      ImportLessIffBefore(imports[i], imports[j]);
    }
  }

  /** A sorted manifest names each library and ordinal at most once. */
  lemma SortedKeysAreUnique(imports: seq<ImportRequirement>, i: nat, j: nat)
    requires Sorted(imports) && i < j < |imports|
    ensures imports[i].library != imports[j].library || imports[i].ordinal != imports[j].ordinal
  {
    assert ImportLess(imports[i], imports[j]);
  }

  // ---- What a valid module is ----

  predicate IsPortableKeyCharacter(c: byte) {
    0x61 <= c <= 0x7A || 0x41 <= c <= 0x5A || 0x30 <= c <= 0x39 || c == 0x5F || c == 0x2D || c == 0x2E
  }

  predicate IsValidLibrary(library: text) {
    |library| > 0 && forall k :: 0 <= k < |library| ==> IsPortableKeyCharacter(library[k])
  }

  predicate IsValidImportName(name: text) {
    forall k :: 0 <= k < |name| ==> 0x21 <= name[k] <= 0x7E
  }

  function ImageEnd(d: ModuleDescriptor): nat {
    d.image.base as int + d.image.size
  }

  predicate RecordInsideImage(d: ModuleDescriptor, requirement: ImportRequirement) {
    d.image.base <= requirement.recordAddress && requirement.recordAddress as int + 4 <= ImageEnd(d)
  }

  predicate FunctionAddress(d: ModuleDescriptor, requirement: ImportRequirement) {
    && requirement.kind == Function
    && d.code.base <= requirement.address && requirement.address as int + 16 <= d.code.base as int + d.code.size
  }

  predicate VariableAddress(d: ModuleDescriptor, requirement: ImportRequirement) {
    && requirement.kind == Variable && requirement.address == requirement.recordAddress
    && d.image.base <= requirement.address < ImageEnd(d)
  }

  predicate ImportFormed(d: ModuleDescriptor, requirement: ImportRequirement) {
    && Encodable(requirement)
    && IsValidLibrary(requirement.library) && requirement.ordinal != 0 && IsValidImportName(requirement.name)
    && requirement.address % 4 == 0 && requirement.recordAddress % 4 == 0
    && RecordInsideImage(d, requirement)
    && (FunctionAddress(d, requirement) || VariableAddress(d, requirement))
  }

  predicate Conflicts(left: ImportRequirement, right: ImportRequirement) {
    left.address == right.address || left.recordAddress == right.recordAddress
  }

  predicate HasDigest(sha256: seq<byte>) {
    exists k :: 0 <= k < |sha256| && sha256[k] != 0
  }

  predicate CodeRangeValid(d: ModuleDescriptor) {
    && d.code.size != 0 && d.code.base % 4 == 0 && d.code.size % 4 == 0
    && d.image.base <= d.code.base && d.code.base as int + d.code.size <= ImageEnd(d)
  }

  predicate EntryPointValid(d: ModuleDescriptor) {
    d.image.entryPoint % 4 == 0
    && d.code.base <= d.image.entryPoint && d.image.entryPoint as int < d.code.base as int + d.code.size
  }

  ghost predicate ImageValid(m: GuestModule) {
    var d := m.descriptor;
    && HasDigest(d.image.sha256)
    && |m.imageBytes| == d.image.size
    && ImageEnd(d) <= 0x1_0000_0000
    && d.image.base % 0x1_0000 == 0
    && DigestOf(m.imageBytes) == d.image.sha256
    && CodeRangeValid(d)
    && EntryPointValid(d)
  }

  ghost predicate ManifestValid(d: ModuleDescriptor, imports: seq<ImportRequirement>) {
    && (forall i :: 0 <= i < |imports| ==> imports[i].ordinal <= 0xFFFF && ImportFormed(d, imports[i]))
    && (forall i, j :: 0 <= i < j < |imports| ==> !Conflicts(imports[i], imports[j]))
    && Sorted(imports)
  }

  ghost predicate Valid(m: GuestModule) {
    && ImageValid(m)
    && |m.importManifest| == m.descriptor.importCount
    && ManifestValid(m.descriptor, m.importManifest)
    && DigestOf(Encode(m.importManifest)) == m.descriptor.importManifestSha256
  }

  /** `error` names the first check that import `index` fails. */
  predicate ImportRefused(d: ModuleDescriptor, imports: seq<ImportRequirement>, index: nat, error: ValidationError)
    requires index < |imports|
  {
    var requirement := imports[index];
    if requirement.ordinal > 0xFFFF then error == ImportOrdinalOutOfRange
    else if exists previous :: 0 <= previous < index && Conflicts(imports[previous], requirement) then
      error == ImportAddressConflict
    else if !ImportFormed(d, requirement) then error == InvalidImport
    else index != 0 && !ImportLess(imports[index - 1], requirement) && error == UnsortedImportManifest
  }

  /** `error` names the first import that fails a check, and its first failing check. */
  ghost predicate ManifestRefused(d: ModuleDescriptor, imports: seq<ImportRequirement>, error: ValidationError) {
    exists index :: 0 <= index < |imports| && ManifestValid(d, imports[..index]) && ImportRefused(d, imports, index, error)
  }

  /** `error` names the first check the module fails; NoError means that it is valid. */
  ghost predicate Reports(m: GuestModule, error: ValidationError) {
    var d := m.descriptor;
    if !HasDigest(d.image.sha256) then error == InvalidImageDigest
    else if |m.imageBytes| != d.image.size then error == ImageSizeMismatch
    else if ImageEnd(d) > 0x1_0000_0000 then error == ImageAddressOverflow
    else if d.image.base % 0x1_0000 != 0 then error == ImageBaseMisaligned
    else if DigestOf(m.imageBytes) != d.image.sha256 then error == ImageDigestMismatch
    else if !CodeRangeValid(d) then error == InvalidCodeRange
    else if !EntryPointValid(d) then error == EntryPointOutsideCode
    else if |m.importManifest| != d.importCount then error == ImportCountMismatch
    else if !ManifestValid(d, m.importManifest) then ManifestRefused(d, m.importManifest, error)
    else if DigestOf(Encode(m.importManifest)) != d.importManifestSha256 then error == ImportManifestDigestMismatch
    else error == NoError
  }

  /** The adjacent comparisons and the conflict scan accept exactly the modules whose
      whole manifest is ordered, free of conflicts and well formed. */
  method ValidateModule(m: GuestModule) returns (error: ValidationError)
    ensures error == NoError <==> Valid(m)
    ensures error == NoError ==>
              forall i, j :: 0 <= i < j < |m.importManifest| ==> ImportBefore(m.importManifest[i], m.importManifest[j])
    ensures Reports(m, error)
  {
    hide DigestOf, Encode, ManifestValid, ManifestRefused, ImportBefore;
    var d := m.descriptor;
    var empty := true;
    for k := 0 to |d.image.sha256|
      invariant empty <==> forall i :: 0 <= i < k ==> d.image.sha256[i] == 0
    {
      empty := empty && d.image.sha256[k] == 0;
    }
    if empty {
      return InvalidImageDigest;
    }
    if |m.imageBytes| != d.image.size {
      return ImageSizeMismatch;
    }
    var imageEnd := d.image.base as int + d.image.size;
    if imageEnd > 0x1_0000_0000 {
      return ImageAddressOverflow;
    }
    if d.image.base % IMAGE_BASE_ALIGNMENT != 0 {
      return ImageBaseMisaligned;
    }
    var imageDigest := HashBytes(m.imageBytes);
    if imageDigest != d.image.sha256 {
      return ImageDigestMismatch;
    }
    if d.code.size == 0 || d.code.base % 4 != 0 || d.code.size % 4 != 0
       || d.code.base < d.image.base || d.code.End() > imageEnd {
      return InvalidCodeRange;
    }
    if d.image.entryPoint % 4 != 0 || !d.code.Holds(d.image.entryPoint) {
      return EntryPointOutsideCode;
    }
    if |m.importManifest| != d.importCount {
      return ImportCountMismatch;
    }
    error := ValidateManifest(d, m.importManifest);
    if error != NoError {
      return;
    }
    EveryImportIsEncodable(d, m.importManifest);
    var manifestDigest := HashImportManifest(m.importManifest);
    if manifestDigest != d.importManifestSha256 {
      return ImportManifestDigestMismatch;
    }
    ValidManifestIsOrdered(d, m.importManifest);
    error := NoError;
  }

  /** The import loop of ValidateModule. */
  method ValidateManifest(d: ModuleDescriptor, imports: seq<ImportRequirement>) returns (error: ValidationError)
    ensures error == NoError <==> ManifestValid(d, imports)
    ensures error != NoError ==> ManifestRefused(d, imports, error)
  {
    hide ImportFormed, ImportLess, TextLess, ManifestValid;
    EmptyManifestIsValid(d, imports[..0]);
    for index := 0 to |imports|
      invariant ManifestValid(d, imports[..index])
    {
      var requirement := imports[index];
      error := ImportOrdinalOutOfRange;
      if requirement.ordinal > 0xFFFF {
        RefusedIsInvalid(d, imports, index, error);
        return;
      }
      error := ImportAddressConflict;
      for previous := 0 to index
        invariant forall i :: 0 <= i < previous ==> !Conflicts(imports[i], requirement)
      {
        if imports[previous].address == requirement.address
           || imports[previous].recordAddress == requirement.recordAddress {
          assert Conflicts(imports[previous], requirement);
          RefusedIsInvalid(d, imports, index, error);
          return;
        }
      }
      error := InvalidImport;
      var formed := CheckImport(d, requirement);
      if !formed {
        RefusedIsInvalid(d, imports, index, error);
        return;
      }
      error := UnsortedImportManifest;
      if index != 0 && !ImportLess(imports[index - 1], requirement) {
        RefusedIsInvalid(d, imports, index, error);
        return;
      }
      ManifestExtends(d, imports, index);
    }
    assert imports[..|imports|] == imports;
    error := NoError;
  }

  /** The identity, kind and address checks of one import. */
  method CheckImport(d: ModuleDescriptor, requirement: ImportRequirement) returns (formed: bool)
    ensures formed <==> ImportFormed(d, requirement)
  {
    hide IsValidLibrary, IsValidImportName;
    var imageEnd, codeEnd := d.image.base as int + d.image.size, d.code.base as int + d.code.size;
    var recordInsideImage :=
      requirement.recordAddress >= d.image.base && requirement.recordAddress as int + 4 <= imageEnd;
    var functionAddress :=
      requirement.kind == Function && d.code.base <= requirement.address && requirement.address < codeEnd
      && requirement.address as int + 16 <= codeEnd;
    var variableAddress :=
      requirement.kind == Variable && requirement.address == requirement.recordAddress
      && requirement.address >= d.image.base && requirement.address < imageEnd;
    var validLibrary := CheckLibrary(requirement.library);
    var validName := CheckImportName(requirement.name);
    formed := !(|requirement.library| > 0xFFFF_FFFF || |requirement.name| > 0xFFFF_FFFF || !validLibrary
                || requirement.ordinal == 0 || !validName || requirement.address % 4 != 0
                || requirement.recordAddress % 4 != 0 || !recordInsideImage || (!functionAddress && !variableAddress));
  }

  method CheckLibrary(library: text) returns (valid: bool)
    ensures valid <==> IsValidLibrary(library)
  {
    valid := |library| > 0;
    for k := 0 to |library|
      invariant valid <==> |library| > 0 && forall i :: 0 <= i < k ==> IsPortableKeyCharacter(library[i])
    {
      var c := library[k];
      var alphanumeric := (c >= 0x61 && c <= 0x7A) || (c >= 0x41 && c <= 0x5A) || (c >= 0x30 && c <= 0x39);
      valid := valid && (alphanumeric || c == 0x5F || c == 0x2D || c == 0x2E);
    }
  }

  method CheckImportName(name: text) returns (valid: bool)
    ensures valid <==> IsValidImportName(name)
  {
    valid := true;
    for k := 0 to |name|
      invariant valid <==> forall i :: 0 <= i < k ==> 0x21 <= name[i] <= 0x7E
    {
      valid := valid && name[k] >= 0x21 && name[k] <= 0x7E;
    }
  }

  lemma EmptyManifestIsValid(d: ModuleDescriptor, imports: seq<ImportRequirement>)
    requires |imports| == 0
    ensures ManifestValid(d, imports)
  {
  }

  lemma ValidManifestIsOrdered(d: ModuleDescriptor, imports: seq<ImportRequirement>)
    requires ManifestValid(d, imports)
    ensures forall i, j :: 0 <= i < j < |imports| ==> ImportBefore(imports[i], imports[j])
  {
    SortedIffBefore(imports);
  }

  lemma EveryImportIsEncodable(d: ModuleDescriptor, imports: seq<ImportRequirement>)
    requires ManifestValid(d, imports)
    ensures AllEncodable(imports)
  {
  }

  lemma RefusedIsInvalid(d: ModuleDescriptor, imports: seq<ImportRequirement>, index: nat, error: ValidationError)
    requires index < |imports| && ManifestValid(d, imports[..index]) && ImportRefused(d, imports, index, error)
    ensures !ManifestValid(d, imports) && ManifestRefused(d, imports, error)
  {
    hide *;
    RefusalIsWitnessed(d, imports, index, error);
    if ManifestValid(d, imports) {
      ValidIsNotRefused(d, imports, index, error);
      assert false;
    }
  }

  lemma ValidIsNotRefused(d: ModuleDescriptor, imports: seq<ImportRequirement>, index: nat, error: ValidationError)
    requires index < |imports| && ManifestValid(d, imports)
    ensures !ImportRefused(d, imports, index, error)
  {
    hide ImportFormed, Conflicts, ImportLess;
    if index != 0 {
      assert ImportLess(imports[index - 1], imports[index]);
    }
  }

  lemma RefusalIsWitnessed(d: ModuleDescriptor, imports: seq<ImportRequirement>, index: nat, error: ValidationError)
    requires index < |imports| && ManifestValid(d, imports[..index]) && ImportRefused(d, imports, index, error)
    ensures ManifestRefused(d, imports, error)
  {
  }

  /** Comparing with the last import is enough: the order is transitive. */
  lemma ManifestExtends(d: ModuleDescriptor, imports: seq<ImportRequirement>, index: nat)
    requires index < |imports| && ManifestValid(d, imports[..index])
    requires imports[index].ordinal <= 0xFFFF && ImportFormed(d, imports[index])
    requires forall i :: 0 <= i < index ==> !Conflicts(imports[i], imports[index])
    requires index != 0 ==> ImportLess(imports[index - 1], imports[index])
    ensures ManifestValid(d, imports[..index + 1])
  {
    hide ImportFormed, Conflicts, ImportLess;
    var before := imports[..index];
    forall i | 0 <= i < index
      ensures ImportLess(imports[i], imports[index])
    {
      if i < index - 1 {
        assert ImportLess(before[i], before[index - 1]);
        ImportLessIsTransitive(imports[i], imports[index - 1], imports[index]);
      }
    }
    var after := imports[..index + 1];
    assert forall i :: 0 <= i < index ==> after[i] == before[i];
    assert after[index] == imports[index];
  }

  /** Two valid modules sealed with the same digests are the same image and manifest,
      or show two different byte streams with one SHA-256 digest. */
  lemma SealsDistinguish(left: GuestModule, right: GuestModule)
    requires Valid(left) && Valid(right)
    requires left.descriptor.importManifestSha256 == right.descriptor.importManifestSha256
    ensures left.importManifest == right.importManifest
            || (Encode(left.importManifest) != Encode(right.importManifest)
                && DigestOf(Encode(left.importManifest)) == DigestOf(Encode(right.importManifest)))
  {
    hide DigestOf, Encode;
    assert AllEncodable(left.importManifest) && AllEncodable(right.importManifest);
    if Encode(left.importManifest) == Encode(right.importManifest) {
      EncodeIsInjective(left.importManifest, right.importManifest);
    }
  }

  // ---- Bindings ----

  /** Handlers and contexts are opaque; a resolver is the address it returns. */
  datatype ImportBinding = ImportBinding(
    library: text, ordinal: u32, kind: ImportKind,
    functionHandler: Option<nat>, functionContext: Option<nat>,
    variableResolver: Option<u32>, variableResolutionContext: Option<nat>)

  predicate CallbacksValid(binding: ImportBinding) {
    match binding.kind
    case Function =>
      binding.functionHandler.Some? && binding.variableResolver.None? && binding.variableResolutionContext.None?
    case Variable =>
      binding.functionHandler.None? && binding.functionContext.None? && binding.variableResolver.Some?
  }

  predicate Binds(binding: ImportBinding, requirement: ImportRequirement) {
    && binding.library == requirement.library && binding.ordinal == requirement.ordinal
    && binding.kind == requirement.kind && CallbacksValid(binding)
  }

  predicate AllBound(imports: seq<ImportRequirement>, bindings: seq<ImportBinding>) {
    |bindings| == |imports| && forall i :: 0 <= i < |imports| ==> Binds(bindings[i], imports[i])
  }

  /** `error` says what is wrong with one binding, the first thing first. */
  predicate BindingRefused(binding: ImportBinding, required: ImportRequirement, error: ValidationError) {
    if binding.library != required.library || binding.ordinal != required.ordinal then error == ImportBindingMismatch
    else if binding.kind != required.kind then error == ImportBindingKindMismatch
    else !CallbacksValid(binding) && error == ImportBindingCallbackMismatch
  }

  /** `error` says what is wrong with the list: its length, or its first wrong binding. */
  predicate BindingsRefused(imports: seq<ImportRequirement>, bindings: seq<ImportBinding>, error: ValidationError) {
    if |bindings| != |imports| then error == ImportBindingCountMismatch
    else exists index :: 0 <= index < |imports| && BindingRefused(bindings[index], imports[index], error)
           && forall i :: 0 <= i < index ==> Binds(bindings[i], imports[i])
  }

  method ValidateImports(imports: seq<ImportRequirement>, bindings: seq<ImportBinding>) returns (error: ValidationError)
    ensures error == NoError <==> AllBound(imports, bindings)
    ensures error != NoError ==> BindingsRefused(imports, bindings, error)
  {
    if |bindings| != |imports| {
      return ImportBindingCountMismatch;
    }
    for index := 0 to |imports|
      invariant forall i :: 0 <= i < index ==> Binds(bindings[i], imports[i])
    {
      var binding, required := bindings[index], imports[index];
      error := ImportBindingMismatch;
      if binding.library != required.library || binding.ordinal != required.ordinal {
        assert BindingRefused(binding, required, error);
        return;
      }
      error := ImportBindingKindMismatch;
      if binding.kind != required.kind {
        assert BindingRefused(binding, required, error);
        return;
      }
      error := ImportBindingCallbackMismatch;
      var validFunction := binding.kind == Function && binding.functionHandler.Some?
        && binding.variableResolver.None? && binding.variableResolutionContext.None?;
      var validVariable := binding.kind == Variable && binding.functionHandler.None?
        && binding.functionContext.None? && binding.variableResolver.Some?;
      if !validFunction && !validVariable {
        assert BindingRefused(binding, required, error);
        return;
      }
    }
    error := NoError;
  }
}
