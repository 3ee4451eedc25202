/** The decoding function of the package copy, bert_reader/bert_reader.py. Its
    `get_bert_table_data` runs the root copy's loop and, on every pass, also stores
    under `decoded_data_entry` what `get_bert_table_data_entry` returns for the
    entry's section type and the slice [72:error_data_length]. That decoder is not
    part of this model, so the key holds the arguments it is handed (a HandOff). */
module PackageReader {
  import opened Bytes
  import opened Results
  import opened HexDump
  import opened Convert
  import opened Gesb
  import PackagePredefinedValues
  import Lookups

  /** `get_bert_table_data`, whose passes read entry headers with DecodeEntry. */
  method GetBertTableData(b: seq<Byte>) returns (r: Result<PackageStatusBlock>)
    ensures r == DecodePackageStatusBlock(b)
  {
    r := ReadPackageBlock(DecodeEntry, b);
  }

  /** The body of `get_bert_table_data` over the entry-header read `dec`: the root
      copy's header keys and passes, plus `decoded_data_entry` from the passes. */
  method ReadPackageBlock(dec: seq<Byte> -> Result<DataEntry>, b: seq<Byte>) returns (r: Result<PackageStatusBlock>)
    ensures r == PackageBlockWith(dec, b)
  {
    var blockStatus := Hex(Slice(b, 0, 4));
    var rawDataOffset := Hex(Slice(b, 4, 8));
    var rawDataLength := Hex(Slice(b, 8, 12));
    var dataLength :- BinaryToInt(b, 12);
    var severity :- BinaryToInt(b, 16);
    // The loop count reads the same word again; that read cannot fail once this one did not.
    var count := BinaryToInt(b, 16).value;
    var run, decoded := ReadEntries(dec, Drop(b, 20), count);
    if run.Failure? {
      PackageFromFailure(dec, b, run.error);
      return Failure(run.error);
    }
    PackageFromSteps(dec, b, Frame(dec, Drop(b, 20), count).value);
    r := Success(PackageStatusBlock(
      StatusBlock(blockStatus, rawDataOffset, rawDataLength, dataLength, severity, count, run.value),
      decoded));
  }

  /** The loop of the package's `get_bert_table_data`: the root copy's passes, each of
      which also overwrites `decoded` with the hand-off of the entry just read. */
  method ReadEntries(dec: seq<Byte> -> Result<DataEntry>, start: seq<Byte>, count: int) returns (r: Result<seq<DataEntry>>, decoded: Option<HandOff>)
    ensures r == EntriesOfRun(Frame(dec, start, count))
    ensures r.Success? ==> decoded == LastHandOff(Frame(dec, start, count).value)
  {
    var entries: seq<DataEntry> := [];
    decoded := None;
    var rest := start;
    ghost var done: seq<Step> := [];
    ghost var whole := Frame(dec, start, count);
    var i := 0;
    PrependEmpty(whole);
    assert Midway(dec, whole, done, rest, count);
    while i < count
      invariant Midway(dec, whole, done, rest, count - i)
      invariant entries == EntriesOf(done)
      invariant decoded == LastHandOff(done)
      decreases count - i
    {
      EntryPass(dec, whole, done, rest, count - i);
      var entry := dec(rest);
      if entry.Failure? {
        return Failure(entry.error), decoded;
      }
      var e := entry.value;
      LastHandOffAppend(done, Step(rest, e));
      done := done + [Step(rest, e)];
      entries := entries + [e];
      decoded := Some(HandOff(e.sectionType, Slice(rest, 72, e.errorDataLength)));
      rest := Advance(rest, e);
      i := i + 1;
    }
    PassesEnd(dec, whole, done, rest, count - i);
    r := Success(entries);
  }

  /** The section-type name the package's entry printer shows: the package's
      predefined values define no registry, so the lookup always raises and the name
      is always "Unknown". */
  function SectionTypeName(guid: string): (name: string)
    ensures name == "Unknown"
  {
    Lookups.SectionName(PackagePredefinedValues.SectionTypes, guid)
  }

  /** The severity name the package's entry printer shows: `error_severity[v]`, which
      raises for every value outside -4..3. */
  function SeverityName(v: int): (r: Result<string>)
    ensures r.Success? <==> -4 <= v <= 3
    ensures r.Failure? ==> r.error == OutOfRange
    ensures 0 <= v <= 3 ==> r == Success(PackagePredefinedValues.ErrorSeverity[v])
  {
    Lookups.PyIndex(PackagePredefinedValues.ErrorSeverity, v)
  }
}
