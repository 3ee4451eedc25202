/** The root copy, bert_reader.py: `get_bert_table_data` as the source gives it, a
    loop that appends entries and shrinks the remaining slice, proved to compute the
    function that specifies it; and the two name lookups of its printers.
    `get_bert_table` has no loop and no state: it is the function BertTable.DecodeBert. */
module BertReader {
  import opened Bytes
  import opened Results
  import opened HexDump
  import opened Convert
  import opened Gesb
  import PredefinedValues
  import Lookups

  /** `get_bert_table_data`, whose passes read entry headers with DecodeEntry. */
  method GetBertTableData(b: seq<Byte>) returns (r: Result<StatusBlock>)
    ensures r == DecodeStatusBlock(b)
  {
    r := ReadStatusBlock(DecodeEntry, b);
  }

  /** The body of `get_bert_table_data` over the entry-header read `dec`: the header
      keys, then the passes over the bytes after the 20-byte header, as many as the
      int at offset 16 says. */
  method ReadStatusBlock(dec: seq<Byte> -> Result<DataEntry>, b: seq<Byte>) returns (r: Result<StatusBlock>)
    ensures r == StatusBlockWith(dec, b)
  {
    var blockStatus := Hex(Slice(b, 0, 4));
    var rawDataOffset := Hex(Slice(b, 4, 8));
    var rawDataLength := Hex(Slice(b, 8, 12));
    var dataLength :- BinaryToInt(b, 12);
    var severity :- BinaryToInt(b, 16);
    // The loop count reads the same word again; that read cannot fail once this one did not.
    var count := BinaryToInt(b, 16).value;
    var run := ReadEntries(dec, Drop(b, 20), count);
    if run.Failure? {
      BlockFromFailure(dec, b, run.error);
      return Failure(run.error);
    }
    BlockFromSteps(dec, b, Frame(dec, Drop(b, 20), count).value);
    r := Success(StatusBlock(blockStatus, rawDataOffset, rawDataLength, dataLength,
                             severity, count, run.value));
  }

  /** The loop of `get_bert_table_data`: `count` passes from `start`, each reading an
      entry header from the remaining bytes, appending it and dropping
      72 + error_data_length bytes; the first failed read ends it. */
  method ReadEntries(dec: seq<Byte> -> Result<DataEntry>, start: seq<Byte>, count: int) returns (r: Result<seq<DataEntry>>)
    ensures r == EntriesOfRun(Frame(dec, start, count))
  {
    var entries: seq<DataEntry> := [];
    var rest := start;
    ghost var done: seq<Step> := [];
    ghost var whole := Frame(dec, start, count);
    var i := 0;
    PrependEmpty(whole);
    assert Midway(dec, whole, done, rest, count);
    while i < count
      invariant Midway(dec, whole, done, rest, count - i)
      invariant entries == EntriesOf(done)
      decreases count - i
    {
      EntryPass(dec, whole, done, rest, count - i);
      var entry := dec(rest);
      if entry.Failure? {
        return Failure(entry.error);
      }
      done := done + [Step(rest, entry.value)];
      entries := entries + [entry.value];
      rest := Advance(rest, entry.value);
      i := i + 1;
    }
    PassesEnd(dec, whole, done, rest, count - i);
    r := Success(entries);
  }

  /** The section-type name the entry printer shows: the registry name exactly when
      the GUID string is a registry key, and "Unknown" otherwise. */
  function SectionTypeName(guid: string): (name: string)
    ensures name != "Unknown" <==> guid in PredefinedValues.SectionTypes
    ensures guid in PredefinedValues.SectionTypes ==> name == PredefinedValues.SectionTypes[guid].name
  {
    PredefinedValues.NamesAreKnown();
    Lookups.SectionName(Some(PredefinedValues.SectionTypes), guid)
  }

  /** The severity name the printers show: `error_severity[v]`, which raises for every
      value outside -4..3, so for most decoded severities. */
  function SeverityName(v: int): (r: Result<string>)
    ensures r.Success? <==> -4 <= v <= 3
    ensures r.Failure? ==> r.error == OutOfRange
    ensures 0 <= v <= 3 ==> r == Success(PredefinedValues.ErrorSeverity[v])
  {
    PredefinedValues.SeverityTable();
    Lookups.PyIndex(PredefinedValues.ErrorSeverity, v)
  }
}
