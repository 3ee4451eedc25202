/** The constant tables of predefined_values.py: the section-type registry of
    UEFI Specification Appendix N.2.2 (Section Descriptor), keyed by the GUID
    string `binary_to_guid` produces, and the four error-severity names. */
module PredefinedValues {
  import opened Bytes
  import opened Results
  import opened Guid
  import opened HexDump

  /** The decode kinds the registry's descriptors use ("byte" and "hex"). */
  datatype Kind = ByteKind | HexKind

  /** One `name: (offset, length, kind)` item of an `error_record_reference` map. */
  datatype Descriptor = Descriptor(field: string, offset: nat, length: nat, kind: Kind)

  /** One registry entry: its `name` and its ordered `error_record_reference` items. */
  datatype SectionType = SectionType(name: string, errorRecordReference: seq<Descriptor>)

  // The registry's keys, named after their section types.
  const ProcessorGeneric: string := "9876ccad47b44bdbb65e16f193c4f3db"
  const ProcessorIa32X64: string := "dc3ea0b0a1444797b95b53fa242b6e1d"
  const ProcessorIpf: string := "e429faf13cb711d4bca70080c73c8881"
  const ProcessorArm: string := "e19e3d16bc1111e49caac2051d5d46b0"
  const PlatformMemory: string := "a5bc11146f644edeb8633e83ed7c83b1"
  const Pcie: string := "d995e954bbc1430fad91b44dcb3c6f35"
  const FirmwareErrorRecordReference: string := "81212a9609ed499694718d729c8e69ed"
  const PciBus: string := "c57539633b844095bf78eddad3f9c9dd"
  const DmarGeneric: string := "eb5e4685ca664769b6a226068b001326"
  const VtdDmar: string := "71761d3732b245cda7d0b0fedd93e8cf"
  const IommuDmar: string := "036f84e17f37428ca79e575fdfaa84ec"

  const SectionTypes: map<string, SectionType> := map[
    ProcessorGeneric := SectionType("Processor Generic", []),
    ProcessorIa32X64 := SectionType("Processor Specific - IA32/X64", []),
    ProcessorIpf := SectionType("Processor Specific - IPF", []),
    ProcessorArm := SectionType("Processor Specific - ARM", []),
    PlatformMemory := SectionType("Platform Memory", []),
    Pcie := SectionType("PCIe", []),
    FirmwareErrorRecordReference := SectionType("Firmware Error Record Reference", [
      Descriptor("firmware_error_record_type", 0, 1, ByteKind),
      Descriptor("reserved", 1, 7, HexKind),
      Descriptor("record_identifier", 8, 8, HexKind)
    ]),
    PciBus := SectionType("PCI/PCI-X Bus", []),
    DmarGeneric := SectionType("DMAr Generic", []),
    VtdDmar := SectionType("Intel\U{AE} VT for Directed I/O specific DMAr section", []),
    IommuDmar := SectionType("IOMMU specific DMAr section", [])
  ]

  const ErrorSeverity: seq<string> := [
    "Recoverable (also called non-fatal uncorrected)",
    "Fatal",
    "Corrected",
    "Informational"
  ]

  /** A registry key is in the form `binary_to_guid` emits: the rendering of some
      16 wire bytes (hence 32 lower-case hex digits). */
  predicate IsGuidKey(k: string) {
    ParseGuid(k).Some? && GuidString(ParseGuid(k).value) == k
  }

  /** Descriptors with positive lengths that cover [0, size) one after another,
      each starting where the previous one ends. */
  predicate Tiles(ds: seq<Descriptor>, size: nat) {
    && |ds| > 0
    && ds[0].offset == 0
    && (forall i :: 0 <= i < |ds| ==> ds[i].length > 0)
    && (forall i :: 0 <= i < |ds| - 1 ==> ds[i].offset + ds[i].length == ds[i + 1].offset)
    && ds[|ds| - 1].offset + ds[|ds| - 1].length == size
  }

  /** The keys of the registry, in its order. */
  lemma RegistryKeys()
    ensures SectionTypes.Keys == {
      ProcessorGeneric, ProcessorIa32X64, ProcessorIpf, ProcessorArm, PlatformMemory, Pcie,
      FirmwareErrorRecordReference, PciBus, DmarGeneric, VtdDmar, IommuDmar}
  {
  }

  /** The registry holds eleven distinct section types. */
  lemma RegistrySize()
    ensures |SectionTypes| == 11
  {
    RegistryKeys();
    KeySetSize();
  }

  lemma KeySetSize()
    ensures |{
      ProcessorGeneric, ProcessorIa32X64, ProcessorIpf, ProcessorArm, PlatformMemory, Pcie,
      FirmwareErrorRecordReference, PciBus, DmarGeneric, VtdDmar, IommuDmar}| == 11
  {
    KeysDiffer1();
    KeysDiffer2();
    KeysDiffer3();
  }

  // Each key differs from every earlier one in its first or second digit.
  lemma KeysDiffer1()
    ensures ProcessorIa32X64 !in {ProcessorGeneric}
    ensures ProcessorIpf !in {ProcessorGeneric, ProcessorIa32X64}
    ensures ProcessorArm !in {ProcessorGeneric, ProcessorIa32X64, ProcessorIpf}
    ensures PlatformMemory !in {ProcessorGeneric, ProcessorIa32X64, ProcessorIpf, ProcessorArm}
  {
    assert ProcessorIa32X64[0] != ProcessorGeneric[0];
    assert ProcessorIpf[0] != ProcessorGeneric[0]
      && ProcessorIpf[0] != ProcessorIa32X64[0];
    assert ProcessorArm[0] != ProcessorGeneric[0]
      && ProcessorArm[0] != ProcessorIa32X64[0]
      && ProcessorArm[1] != ProcessorIpf[1];
    assert PlatformMemory[0] != ProcessorGeneric[0]
      && PlatformMemory[0] != ProcessorIa32X64[0]
      && PlatformMemory[0] != ProcessorIpf[0]
      && PlatformMemory[0] != ProcessorArm[0];
  }

  lemma KeysDiffer2()
    ensures Pcie !in {ProcessorGeneric, ProcessorIa32X64, ProcessorIpf, ProcessorArm, PlatformMemory}
    ensures FirmwareErrorRecordReference !in {ProcessorGeneric, ProcessorIa32X64, ProcessorIpf, ProcessorArm, PlatformMemory, Pcie}
    ensures PciBus !in {ProcessorGeneric, ProcessorIa32X64, ProcessorIpf, ProcessorArm, PlatformMemory, Pcie, FirmwareErrorRecordReference}
  {
    assert Pcie[0] != ProcessorGeneric[0]
      && Pcie[1] != ProcessorIa32X64[1]
      && Pcie[0] != ProcessorIpf[0]
      && Pcie[0] != ProcessorArm[0]
      && Pcie[0] != PlatformMemory[0];
    assert FirmwareErrorRecordReference[0] != ProcessorGeneric[0]
      && FirmwareErrorRecordReference[0] != ProcessorIa32X64[0]
      && FirmwareErrorRecordReference[0] != ProcessorIpf[0]
      && FirmwareErrorRecordReference[0] != ProcessorArm[0]
      && FirmwareErrorRecordReference[0] != PlatformMemory[0]
      && FirmwareErrorRecordReference[0] != Pcie[0];
    assert PciBus[0] != ProcessorGeneric[0]
      && PciBus[0] != ProcessorIa32X64[0]
      && PciBus[0] != ProcessorIpf[0]
      && PciBus[0] != ProcessorArm[0]
      && PciBus[0] != PlatformMemory[0]
      && PciBus[0] != Pcie[0]
      && PciBus[0] != FirmwareErrorRecordReference[0];
  }

  lemma KeysDiffer3()
    ensures DmarGeneric !in {ProcessorGeneric, ProcessorIa32X64, ProcessorIpf, ProcessorArm, PlatformMemory, Pcie, FirmwareErrorRecordReference, PciBus}
    ensures VtdDmar !in {ProcessorGeneric, ProcessorIa32X64, ProcessorIpf, ProcessorArm, PlatformMemory, Pcie, FirmwareErrorRecordReference, PciBus, DmarGeneric}
    ensures IommuDmar !in {ProcessorGeneric, ProcessorIa32X64, ProcessorIpf, ProcessorArm, PlatformMemory, Pcie, FirmwareErrorRecordReference, PciBus, DmarGeneric, VtdDmar}
  {
    assert DmarGeneric[0] != ProcessorGeneric[0]
      && DmarGeneric[0] != ProcessorIa32X64[0]
      && DmarGeneric[1] != ProcessorIpf[1]
      && DmarGeneric[1] != ProcessorArm[1]
      && DmarGeneric[0] != PlatformMemory[0]
      && DmarGeneric[0] != Pcie[0]
      && DmarGeneric[0] != FirmwareErrorRecordReference[0]
      && DmarGeneric[0] != PciBus[0];
    assert VtdDmar[0] != ProcessorGeneric[0]
      && VtdDmar[0] != ProcessorIa32X64[0]
      && VtdDmar[0] != ProcessorIpf[0]
      && VtdDmar[0] != ProcessorArm[0]
      && VtdDmar[0] != PlatformMemory[0]
      && VtdDmar[0] != Pcie[0]
      && VtdDmar[0] != FirmwareErrorRecordReference[0]
      && VtdDmar[0] != PciBus[0]
      && VtdDmar[0] != DmarGeneric[0];
    assert IommuDmar[0] != ProcessorGeneric[0]
      && IommuDmar[0] != ProcessorIa32X64[0]
      && IommuDmar[0] != ProcessorIpf[0]
      && IommuDmar[0] != ProcessorArm[0]
      && IommuDmar[0] != PlatformMemory[0]
      && IommuDmar[0] != Pcie[0]
      && IommuDmar[0] != FirmwareErrorRecordReference[0]
      && IommuDmar[0] != PciBus[0]
      && IommuDmar[0] != DmarGeneric[0]
      && IommuDmar[0] != VtdDmar[0];
  }

  /** No registry name is the "Unknown" fallback of the name lookup, so the
      lookup's result tells a registered section type from an unregistered one. */
  lemma NamesAreKnown()
    ensures forall k :: k in SectionTypes ==> SectionTypes[k].name != "Unknown"
  {
    RegistryKeys();
  }

  /** Every key is a 32-digit lower-case string that `binary_to_guid` produces
      from some 16 wire bytes, so decoded section types can match it. */
  lemma KeysAreGuidStrings()
    ensures forall k :: k in SectionTypes ==> |k| == 32 && IsGuidKey(k)
  {
    KeysAreLowerHex();
    LowerHexKeys(SectionTypes.Keys);
  }

  lemma LowerHexKeys(keys: set<string>)
    requires forall k :: k in keys ==> |k| == 32 && IsLowerHex(k)
    ensures forall k :: k in keys ==> IsGuidKey(k)
  {
    forall k | k in keys
      ensures IsGuidKey(k)
    {
      LowerHexIsGuidKey(k);
    }
  }

  /** Every key is 32 lower-case hex digits. */
  lemma KeysAreLowerHex()
    ensures forall k :: k in SectionTypes ==> |k| == 32 && IsLowerHex(k)
  {
    RegistryKeys();
    KeysAreHex0();
    KeysAreHex1();
    KeysAreHex2();
    KeysAreHex3();
    KeysAreHex4();
    KeysAreHex5();
  }

  lemma LowerHexIsGuidKey(k: string)
    requires |k| == 32 && IsLowerHex(k)
    ensures IsGuidKey(k)
  {
    ParseLowerHex(k);
    GuidStringOfParse(k, ParseGuid(k).value);
  }

  // The digit checks of the keys, two keys at a time so that each proof stays small.
  lemma KeysAreHex0()
    ensures IsLowerHex(ProcessorGeneric) && IsLowerHex(ProcessorIa32X64)
  {
  }

  lemma KeysAreHex1()
    ensures IsLowerHex(ProcessorIpf) && IsLowerHex(ProcessorArm)
  {
  }

  lemma KeysAreHex2()
    ensures IsLowerHex(PlatformMemory) && IsLowerHex(Pcie)
  {
  }

  lemma KeysAreHex3()
    ensures IsLowerHex(FirmwareErrorRecordReference) && IsLowerHex(PciBus)
  {
  }

  lemma KeysAreHex4()
    ensures IsLowerHex(DmarGeneric) && IsLowerHex(VtdDmar)
  {
  }

  lemma KeysAreHex5()
    ensures IsLowerHex(IommuDmar)
  {
  }

  /** Only the Firmware Error Record Reference type carries field descriptors, and
      they tile its 16 payload bytes: (0, 1, byte), (1, 7, hex), (8, 8, hex). */
  lemma OnlyFirmwareHasDescriptors()
    ensures forall k :: k in SectionTypes ==>
              (SectionTypes[k].errorRecordReference != [] <==> k == FirmwareErrorRecordReference)
    ensures Tiles(SectionTypes[FirmwareErrorRecordReference].errorRecordReference, 16)
  {
  }

  /** The severity list: four names, indexed 0 to 3. */
  lemma SeverityTable()
    ensures |ErrorSeverity| == 4
    ensures ErrorSeverity[0] == "Recoverable (also called non-fatal uncorrected)"
    ensures ErrorSeverity[1] == "Fatal" && ErrorSeverity[2] == "Corrected"
    ensures ErrorSeverity[3] == "Informational"
  {
  }
}
