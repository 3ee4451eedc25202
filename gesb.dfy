/** The Generic Error Status Block (section 18.3.2.7.1 of the ACPI Specification) as
    `get_bert_table_data` decodes it in both copies: a 20-byte block header, then a loop
    that runs as many times as the int at offset 16 says, decoding a 72-byte Generic
    Error Data Entry header from the remaining bytes, dumping its payload and dropping
    72 + error_data_length bytes. These functions specify that loop; the two copies'
    methods are proved against them. */
module Gesb {
  import opened Bytes
  import opened Results
  import opened HexDump
  import opened Convert
  import Utf8

  /** One decoded Generic Error Data Entry. */
  datatype DataEntry = DataEntry(
    sectionType: string,
    errorSeverity: int,
    revision: string,
    validationBits: string,
    flags: string,
    errorDataLength: int,
    fruId: string,
    fruText: string,
    timestamp: string,
    genericErrorData: string)

  /** One pass of the loop: the remaining bytes it started from and the entry it read. */
  datatype Step = Step(at: seq<Byte>, entry: DataEntry)

  /** The block as the root copy returns it. `errorSeverity` and `entryCount` are both
      the int at offset 16; `dataLength` is the int at 12, which nothing else uses. */
  datatype StatusBlock = StatusBlock(
    blockStatus: string,
    rawDataOffset: string,
    rawDataLength: string,
    dataLength: int,
    errorSeverity: int,
    entryCount: int,
    entries: seq<DataEntry>)

  /** The arguments the package copy hands to its per-section decoder: the section type
      and the bytes it slices as the payload. */
  datatype HandOff = HandOff(sectionType: string, payload: seq<Byte>)

  /** One entry header read from the start of `at`, fields in dictionary order. */
  function DecodeEntry(at: seq<Byte>): (r: Result<DataEntry>)
    ensures r.Success? ==> |at| >= 28
    ensures r.Failure? ==> r.error == ShortRead || r.error == InvalidText
  {
    var sectionType :- BinaryToGuid(at, 0, 16);
    var severity :- BinaryToInt(at, 16);
    var revision := Hex(Slice(at, 20, 22));
    var validationBits := Hex(Slice(at, 22, 23));
    var flags := Hex(Slice(at, 23, 24));
    var length :- BinaryToInt(at, 24);
    var fruId := Hex(Slice(at, 28, 44));
    var fruText :- BinaryToString(at, 44, 20);
    var timestamp := Hex(Slice(at, 64, 72));
    Success(DataEntry(sectionType, severity, revision, validationBits, flags, length,
                      fruId, fruText, timestamp, BinaryToHex(at, 72, length)))
  }

  /** The bytes left after an entry: the slice advances by 72 + error_data_length, with
      Python's slicing (a negative start counts from the end). */
  function Advance(at: seq<Byte>, e: DataEntry): seq<Byte>
  {
    Drop(at, 72 + e.errorDataLength)
  }

  /** The remaining bytes after an entry: never more than before; a length of -72 or
      more drops 72 + length bytes from the front, and a length below -72 keeps only
      the last -(72 + length) bytes (everything when that is more than there are). */
  lemma AdvanceSlices(at: seq<Byte>, e: DataEntry)
    ensures |Advance(at, e)| <= |at|
    ensures 0 <= 72 + e.errorDataLength <= |at| ==> Advance(at, e) == at[72 + e.errorDataLength..]
    ensures 72 + e.errorDataLength < 0 && |at| + 72 + e.errorDataLength >= 0 ==>
              Advance(at, e) == at[|at| + 72 + e.errorDataLength..]
    ensures |at| + 72 + e.errorDataLength < 0 ==> Advance(at, e) == at
  {
  }

  function Max0(n: int): nat { if n > 0 then n else 0 }

  /** The loop run `count` times from `rest` with the entry decoder `dec`: the steps
      it takes, or the first failure. Both copies run it with DecodeEntry; the loop's
      properties below hold for any decoder. */
  function Frame(dec: seq<Byte> -> Result<DataEntry>, rest: seq<Byte>, count: int): (r: Result<seq<Step>>)
    ensures r.Success? ==> |r.value| == Max0(count)
    ensures r.Success? && count > 0 ==> r.value[0].at == rest
    ensures r.Failure? ==> count > 0
    decreases Max0(count)
  {
    if count <= 0 then Success([])
    else
      var e :- dec(rest);
      var tail :- Frame(dec, Advance(rest, e), count - 1);
      Success([Step(rest, e)] + tail)
  }

  /** The entries the steps read, in order. */
  function EntriesOf(steps: seq<Step>): (es: seq<DataEntry>)
    ensures |es| == |steps|
    ensures forall i :: 0 <= i < |steps| ==> es[i] == steps[i].entry
  {
    if steps == [] then [] else [steps[0].entry] + EntriesOf(steps[1..])
  }

  /** A result with `done` put in front of its steps. */
  function Prepend(done: seq<Step>, r: Result<seq<Step>>): Result<seq<Step>>
  {
    match r
    case Success(steps) => Success(done + steps)
    case Failure(e) => Failure(e)
  }

  /** The entries of a run, or its failure. */
  function EntriesOfRun(run: Result<seq<Step>>): (r: Result<seq<DataEntry>>)
    ensures r.Success? <==> run.Success?
    ensures r.Failure? ==> r.error == run.error
    ensures r.Success? ==> |r.value| == |run.value|
  {
    match run
    case Success(steps) => Success(EntriesOf(steps))
    case Failure(e) => Failure(e)
  }

  /** Nothing put in front leaves a result as it is. */
  lemma PrependEmpty(r: Result<seq<Step>>)
    ensures Prepend([], r) == r
  {
    if r.Success? {
      assert [] + r.value == r.value;
    }
  }

  /** The 20-byte header and the loop run with the entry decoder `dec`. */
  function StatusBlockWith(dec: seq<Byte> -> Result<DataEntry>, b: seq<Byte>): (r: Result<StatusBlock>)
    ensures |b| < 20 ==> r == Failure(ShortRead)
    ensures r.Success? ==> r.value.entryCount == r.value.errorSeverity
    ensures r.Success? ==> |r.value.entries| == Max0(r.value.entryCount)
  {
    var dataLength :- BinaryToInt(b, 12);
    var severity :- BinaryToInt(b, 16);
    // The loop count reads the same word again; that read cannot fail once this one did not.
    var count := BinaryToInt(b, 16).value;
    var steps :- Frame(dec, Drop(b, 20), count);
    Success(StatusBlock(Hex(Slice(b, 0, 4)), Hex(Slice(b, 4, 8)), Hex(Slice(b, 8, 12)),
                        dataLength, severity, count, EntriesOf(steps)))
  }

  /** The block once the loop has run to completion with the given steps. */
  lemma BlockFromSteps(dec: seq<Byte> -> Result<DataEntry>, b: seq<Byte>, steps: seq<Step>)
    requires BinaryToInt(b, 12).Success? && BinaryToInt(b, 16).Success?
    requires Frame(dec, Drop(b, 20), BinaryToInt(b, 16).value) == Success(steps)
    ensures StatusBlockWith(dec, b) ==
              Success(StatusBlock(Hex(Slice(b, 0, 4)), Hex(Slice(b, 4, 8)), Hex(Slice(b, 8, 12)),
                                  BinaryToInt(b, 12).value, BinaryToInt(b, 16).value,
                                  BinaryToInt(b, 16).value, EntriesOf(steps)))
  {
  }

  /** The block once a pass of the loop has failed. */
  lemma BlockFromFailure(dec: seq<Byte> -> Result<DataEntry>, b: seq<Byte>, e: Error)
    requires BinaryToInt(b, 12).Success? && BinaryToInt(b, 16).Success?
    requires Frame(dec, Drop(b, 20), BinaryToInt(b, 16).value) == Failure(e)
    ensures StatusBlockWith(dec, b) == Failure(e)
  {
  }

  /** The block as the root copy returns it. */
  function DecodeStatusBlock(b: seq<Byte>): (r: Result<StatusBlock>)
    ensures |b| < 20 ==> r == Failure(ShortRead)
    ensures r.Success? ==> |r.value.entries| == Max0(r.value.errorSeverity)
  {
    StatusBlockWith(DecodeEntry, b)
  }

  /** The last hand-off of the package copy: its section-type decoder is called on every
      pass with slice [72, error_data_length) and the key is overwritten, so only the
      last entry's call remains; with no entry the key is never set. */
  function LastHandOff(steps: seq<Step>): (r: Option<HandOff>)
    ensures r.Some? <==> steps != []
    ensures r.Some? ==> r.value.sectionType == steps[|steps| - 1].entry.sectionType
  {
    if steps == [] then None
    else
      var last := steps[|steps| - 1];
      Some(HandOff(last.entry.sectionType, Slice(last.at, 72, last.entry.errorDataLength)))
  }

  /** The block as the package copy returns it: the same fields and one more key. */
  datatype PackageStatusBlock = PackageStatusBlock(block: StatusBlock, decoded: Option<HandOff>)

  /** The package copy's block: the same header and loop, plus the last hand-off. */
  function PackageBlockWith(dec: seq<Byte> -> Result<DataEntry>, b: seq<Byte>): (r: Result<PackageStatusBlock>)
    ensures |b| < 20 ==> r == Failure(ShortRead)
    ensures r.Success? ==> |r.value.block.entries| == Max0(r.value.block.errorSeverity)
    ensures r.Success? ==> (r.value.decoded.Some? <==> r.value.block.entries != [])
  {
    var dataLength :- BinaryToInt(b, 12);
    var severity :- BinaryToInt(b, 16);
    // The loop count reads the same word again; that read cannot fail once this one did not.
    var count := BinaryToInt(b, 16).value;
    var steps :- Frame(dec, Drop(b, 20), count);
    Success(PackageStatusBlock(
      StatusBlock(Hex(Slice(b, 0, 4)), Hex(Slice(b, 4, 8)), Hex(Slice(b, 8, 12)),
                  dataLength, severity, count, EntriesOf(steps)),
      LastHandOff(steps)))
  }

  /** The package block once the loop has run to completion with the given steps. */
  lemma PackageFromSteps(dec: seq<Byte> -> Result<DataEntry>, b: seq<Byte>, steps: seq<Step>)
    requires BinaryToInt(b, 12).Success? && BinaryToInt(b, 16).Success?
    requires Frame(dec, Drop(b, 20), BinaryToInt(b, 16).value) == Success(steps)
    ensures PackageBlockWith(dec, b) ==
              Success(PackageStatusBlock(
                StatusBlock(Hex(Slice(b, 0, 4)), Hex(Slice(b, 4, 8)), Hex(Slice(b, 8, 12)),
                            BinaryToInt(b, 12).value, BinaryToInt(b, 16).value,
                            BinaryToInt(b, 16).value, EntriesOf(steps)),
                LastHandOff(steps)))
  {
  }

  /** The package block once a pass of the loop has failed. */
  lemma PackageFromFailure(dec: seq<Byte> -> Result<DataEntry>, b: seq<Byte>, e: Error)
    requires BinaryToInt(b, 12).Success? && BinaryToInt(b, 16).Success?
    requires Frame(dec, Drop(b, 20), BinaryToInt(b, 16).value) == Failure(e)
    ensures PackageBlockWith(dec, b) == Failure(e)
  {
  }

  /** The block as the package copy returns it. */
  function DecodePackageStatusBlock(b: seq<Byte>): (r: Result<PackageStatusBlock>)
    ensures |b| < 20 ==> r == Failure(ShortRead)
    ensures r.Success? ==> (r.value.decoded.Some? <==> r.value.block.errorSeverity > 0)
  {
    PackageBlockWith(DecodeEntry, b)
  }

  // ---------------------------------------------------------------------------------
  // Properties of one entry

  /** An entry header decodes when its integers are present (28 bytes) and its FRU
      text is UTF-8; the header is not required to be 72 bytes long, and the payload
      length is never checked against the bytes that remain. */
  lemma EntrySucceeds(at: seq<Byte>)
    ensures DecodeEntry(at).Success? <==>
              |at| >= 28 && Utf8.Decode(Slice(at, 44, 64)).Some?
    ensures DecodeEntry(at).Failure? ==>
              DecodeEntry(at).error == (if |at| < 28 then ShortRead else InvalidText)
  {
    GuidAt(at, 0);
    IntAt(at, 16);
    IntAt(at, 24);
  }

  /** The entry fields, each read at its offset from the start of the entry. */
  lemma EntryFields(at: seq<Byte>)
    requires DecodeEntry(at).Success?
    ensures |at| >= 28
    ensures var e := DecodeEntry(at).value;
      && e.sectionType == Guid.GuidString(at[0..16])
      && e.errorSeverity == LeSigned32(at[16..20])
      && e.revision == Hex(at[20..22])
      && e.validationBits == Hex([at[22]])
      && e.flags == Hex([at[23]])
      && e.errorDataLength == LeSigned32(at[24..28])
      && e.fruId == Hex(Slice(at, 28, 44))
      && Utf8.Encode(e.fruText) == Slice(at, 44, 64)
      && e.timestamp == Hex(Slice(at, 64, 72))
      && e.genericErrorData == SpacedHex(Slice(at, 72, 72 + e.errorDataLength))
  {
    EntryHead(at);
    EntryTail(at);
  }

  lemma EntryHead(at: seq<Byte>)
    requires DecodeEntry(at).Success?
    ensures |at| >= 28
    ensures var e := DecodeEntry(at).value;
      && e.sectionType == Guid.GuidString(at[0..16])
      && e.errorSeverity == LeSigned32(at[16..20])
      && e.revision == Hex(at[20..22])
      && e.validationBits == Hex([at[22]])
      && e.flags == Hex([at[23]])
      && e.errorDataLength == LeSigned32(at[24..28])
  {
    EntryNumbers(at);
    EntryFlags(at);
  }

  lemma EntryNumbers(at: seq<Byte>)
    requires DecodeEntry(at).Success?
    ensures |at| >= 28
    ensures var e := DecodeEntry(at).value;
      && e.sectionType == Guid.GuidString(at[0..16])
      && e.errorSeverity == LeSigned32(at[16..20])
      && e.errorDataLength == LeSigned32(at[24..28])
  {
    GuidAt(at, 0);
    IntAt(at, 16);
    IntAt(at, 24);
  }

  lemma EntryFlags(at: seq<Byte>)
    requires DecodeEntry(at).Success?
    ensures |at| >= 28
    ensures var e := DecodeEntry(at).value;
      && e.revision == Hex(at[20..22])
      && e.validationBits == Hex([at[22]])
      && e.flags == Hex([at[23]])
  {
    assert Slice(at, 20, 22) == at[20..22];
    assert Slice(at, 22, 23) == [at[22]] && Slice(at, 23, 24) == [at[23]];
  }

  lemma EntryTail(at: seq<Byte>)
    requires DecodeEntry(at).Success?
    ensures var e := DecodeEntry(at).value;
      && e.fruId == Hex(Slice(at, 28, 44))
      && Utf8.Encode(e.fruText) == Slice(at, 44, 64)
      && e.timestamp == Hex(Slice(at, 64, 72))
      && e.genericErrorData == SpacedHex(Slice(at, 72, 72 + e.errorDataLength))
  {
    var length := BinaryToInt(at, 24).value;
    var text := BinaryToString(at, 44, 20);
    assert text.Success?;
    assert DecodeEntry(at).value.errorDataLength == length;
  }

  /** A payload that fits is dumped in full; one that does not is cut at the end of
      the buffer without an error. */
  lemma PayloadDump(at: seq<Byte>)
    requires DecodeEntry(at).Success? && DecodeEntry(at).value.errorDataLength >= 0
    ensures var e := DecodeEntry(at).value;
      e.genericErrorData == SpacedHex(at[Min(72, |at|)..Min(72 + e.errorDataLength, |at|)])
  {
    EntryFields(at);
  }

  // ---------------------------------------------------------------------------------
  // Properties of the loop

  /** Step k+1 starts where step k left off and every step's entry is decoded from
      its own start. */
  lemma {:induction false} FrameChain(dec: seq<Byte> -> Result<DataEntry>, rest: seq<Byte>, count: int, k: nat)
    requires Frame(dec, rest, count).Success?
    requires k < |Frame(dec, rest, count).value|
    ensures var steps := Frame(dec, rest, count).value;
      && dec(steps[k].at) == Success(steps[k].entry)
      && (k + 1 < |steps| ==> steps[k + 1].at == Advance(steps[k].at, steps[k].entry))
    decreases k
  {
    var e := dec(rest).value;
    FrameUnfold(dec, rest, count, e);
    var tail := Frame(dec, Advance(rest, e), count - 1).value;
    var steps := Frame(dec, rest, count).value;
    assert steps == [Step(rest, e)] + tail;
    if k > 0 {
      FrameChain(dec, Advance(rest, e), count - 1, k - 1);
      assert steps[k] == tail[k - 1];
      if k + 1 < |steps| {
        assert steps[k + 1] == tail[k];
      }
    }
  }

  /** Bytes consumed by the first k entries: the sum of 72 + error_data_length. */
  function Consumed(entries: seq<DataEntry>, k: nat): int
    requires k <= |entries|
  {
    if k == 0 then 0 else 72 + entries[0].errorDataLength + Consumed(entries[1..], k - 1)
  }

  /** None of the first k entries moves the slice start backwards: each has
      72 + error_data_length >= 0, so its slice start counts from the front. */
  predicate ForwardBefore(entries: seq<DataEntry>, k: nat)
    requires k <= |entries|
  {
    k == 0 || (72 + entries[0].errorDataLength >= 0 && ForwardBefore(entries[1..], k - 1))
  }

  /** The recursive form of "no length before k is below -72" is the quantified one. */
  lemma {:induction false} ForwardBeforeAll(entries: seq<DataEntry>, k: nat)
    requires k <= |entries|
    ensures ForwardBefore(entries, k) <==> forall i :: 0 <= i < k ==> 72 + entries[i].errorDataLength >= 0
  {
    if k > 0 {
      ForwardBeforeAll(entries[1..], k - 1);
      assert forall i :: 0 <= i < k - 1 ==> entries[1..][i] == entries[i + 1];
    }
  }

  /** Steps that each start where the previous one ended, the first at `rest`. */
  predicate Linked(rest: seq<Byte>, steps: seq<Step>)
    decreases |steps|
  {
    steps == [] || (steps[0].at == rest && Linked(Advance(rest, steps[0].entry), steps[1..]))
  }

  /** When none of the first k lengths is below -72, step k of a linked chain starts
      exactly Consumed(k) bytes into `rest`: entries are read in byte order, back to back. */
  lemma {:induction false} LinkedOffsets(rest: seq<Byte>, steps: seq<Step>, k: nat)
    requires Linked(rest, steps) && k < |steps|
    requires ForwardBefore(EntriesOf(steps), k)
    ensures Consumed(EntriesOf(steps), k) >= 0
    ensures steps[k].at == Drop(rest, Consumed(EntriesOf(steps), k))
  {
    if k > 0 {
      var e := steps[0].entry;
      EntriesOfTail(steps);
      LinkedOffsets(Advance(rest, e), steps[1..], k - 1);
      assert steps[k] == steps[1..][k - 1];
      OffsetStep(rest, e, steps[k].at, Consumed(EntriesOf(steps), k), Consumed(EntriesOf(steps[1..]), k - 1));
    }
  }

  lemma EntriesOfTail(steps: seq<Step>)
    requires steps != []
    ensures EntriesOf(steps)[0] == steps[0].entry
    ensures EntriesOf(steps)[1..] == EntriesOf(steps[1..])
  {
    assert EntriesOf(steps) == [steps[0].entry] + EntriesOf(steps[1..]);
  }

  /** One more entry in front: its advance followed by the rest's offset is one offset. */
  lemma OffsetStep(rest: seq<Byte>, e: DataEntry, at: seq<Byte>, c: int, c': int)
    requires 72 + e.errorDataLength >= 0 && c' >= 0 && c == 72 + e.errorDataLength + c'
    requires at == Drop(Advance(rest, e), c')
    ensures c >= 0 && at == Drop(rest, c)
  {
    AdvanceThenDrop(rest, e, c');
  }

  /** Dropping after an advance that counts from the front is dropping the sum. */
  lemma AdvanceThenDrop(rest: seq<Byte>, e: DataEntry, c: int)
    requires 72 + e.errorDataLength >= 0 && c >= 0
    ensures Drop(Advance(rest, e), c) == Drop(rest, 72 + e.errorDataLength + c)
  {
    var a := 72 + e.errorDataLength;
    DropDrop(rest, a, c);
    assert Drop(rest, a + c) == Drop(rest, 72 + e.errorDataLength + c);
  }

  /** The loop's steps form a linked chain from where it started. */
  lemma {:induction false} FrameIsLinked(dec: seq<Byte> -> Result<DataEntry>, rest: seq<Byte>, count: int)
    requires Frame(dec, rest, count).Success?
    ensures Linked(rest, Frame(dec, rest, count).value)
    decreases Max0(count)
  {
    if count > 0 {
      var e := dec(rest).value;
      var tail := Frame(dec, Advance(rest, e), count - 1).value;
      FrameIsLinked(dec, Advance(rest, e), count - 1);
      assert Frame(dec, rest, count).value == [Step(rest, e)] + tail;
      assert Frame(dec, rest, count).value[1..] == tail;
    }
  }

  /** Step k of the loop decodes its entry Consumed(k) bytes after where the loop
      started, when no earlier length is below -72. */
  lemma {:induction false} FrameOffsets(dec: seq<Byte> -> Result<DataEntry>, rest: seq<Byte>, count: int, steps: seq<Step>, k: nat)
    requires Frame(dec, rest, count) == Success(steps)
    requires k < |steps| && ForwardBefore(EntriesOf(steps), k)
    ensures Consumed(EntriesOf(steps), k) >= 0
    ensures dec(Drop(rest, Consumed(EntriesOf(steps), k))) == Success(EntriesOf(steps)[k])
  {
    FrameIsLinked(dec, rest, count);
    LinkedOffsets(rest, steps, k);
    FrameChain(dec, rest, count, k);
  }

  /** One more pass of the loop: the spec of the remaining passes unfolds by one step. */
  lemma FrameStep(dec: seq<Byte> -> Result<DataEntry>, done: seq<Step>, rest: seq<Byte>, count: int, e: DataEntry)
    requires count > 0 && dec(rest) == Success(e)
    ensures Prepend(done, Frame(dec, rest, count)) ==
              Prepend(done + [Step(rest, e)], Frame(dec, Advance(rest, e), count - 1))
  {
    FrameUnfold(dec, rest, count, e);
    PrependPrepend(done, [Step(rest, e)], Frame(dec, Advance(rest, e), count - 1));
  }

  lemma FrameUnfold(dec: seq<Byte> -> Result<DataEntry>, rest: seq<Byte>, count: int, e: DataEntry)
    requires count > 0 && dec(rest) == Success(e)
    ensures Frame(dec, rest, count) == Prepend([Step(rest, e)], Frame(dec, Advance(rest, e), count - 1))
  {
  }

  lemma PrependPrepend(done: seq<Step>, more: seq<Step>, r: Result<seq<Step>>)
    ensures Prepend(done, Prepend(more, r)) == Prepend(done + more, r)
  {
    if r.Success? {
      assert done + (more + r.value) == (done + more) + r.value;
    }
  }

  /** The loop over the entries part-way through: the whole run is the steps done
      followed by the run of the `n` remaining passes from `rest`. */
  ghost predicate Midway(dec: seq<Byte> -> Result<DataEntry>, whole: Result<seq<Step>>, done: seq<Step>,
                         rest: seq<Byte>, n: int)
  {
    whole == Prepend(done, Frame(dec, rest, n))
  }

  /** One pass of the loop over the entries: when the entry read at `rest` fails, the
      run ends with that failure; when it succeeds, one step moves from the remaining
      passes to the steps done, and its entry is appended. */
  lemma EntryPass(dec: seq<Byte> -> Result<DataEntry>, whole: Result<seq<Step>>, done: seq<Step>,
             rest: seq<Byte>, n: int)
    requires n > 0 && Midway(dec, whole, done, rest, n)
    ensures dec(rest).Failure? ==> whole == Failure(dec(rest).error)
    ensures dec(rest).Success? ==>
      && Midway(dec, whole, done + [Step(rest, dec(rest).value)], Advance(rest, dec(rest).value), n - 1)
      && EntriesOf(done + [Step(rest, dec(rest).value)]) == EntriesOf(done) + [dec(rest).value]
  {
    if dec(rest).Success? {
      FrameStep(dec, done, rest, n, dec(rest).value);
      EntriesOfAppend(done, Step(rest, dec(rest).value));
    }
  }

  /** With no pass left, the steps done are the whole run. */
  lemma PassesEnd(dec: seq<Byte> -> Result<DataEntry>, whole: Result<seq<Step>>, done: seq<Step>,
                  rest: seq<Byte>, n: int)
    requires n <= 0 && Midway(dec, whole, done, rest, n)
    ensures whole == Success(done)
  {
    assert done + [] == done;
  }

  lemma LastHandOffAppend(steps: seq<Step>, s: Step)
    ensures LastHandOff(steps + [s]) == Some(HandOff(s.entry.sectionType, Slice(s.at, 72, s.entry.errorDataLength)))
  {
    assert (steps + [s])[|steps + [s]| - 1] == s;
  }

  lemma EntriesOfAppend(steps: seq<Step>, s: Step)
    ensures EntriesOf(steps + [s]) == EntriesOf(steps) + [s.entry]
  {
    assert forall i :: 0 <= i < |steps| ==> (steps + [s])[i] == steps[i];
  }

  // ---------------------------------------------------------------------------------
  // Properties of the block. They hold whatever the entry decoder; the block the two
  // copies return is the one run with DecodeEntry.

  /** The header fields: three unspaced dumps and the ints at 12 and 16. */
  lemma BlockHeader(dec: seq<Byte> -> Result<DataEntry>, b: seq<Byte>)
    requires StatusBlockWith(dec, b).Success?
    ensures |b| >= 20
    ensures var blk := StatusBlockWith(dec, b).value;
      && blk.blockStatus == Hex(b[0..4])
      && blk.rawDataOffset == Hex(b[4..8])
      && blk.rawDataLength == Hex(b[8..12])
      && blk.dataLength == LeSigned32(b[12..16])
      && blk.errorSeverity == LeSigned32(b[16..20])
  {
    IntAt(b, 12);
    IntAt(b, 16);
  }

  /** The loop count is the severity word: the block holds max(0, error_severity)
      entries, and entryCount always equals errorSeverity. A block header shorter than
      20 bytes fails with ShortRead. */
  lemma CountIsSeverity(dec: seq<Byte> -> Result<DataEntry>, b: seq<Byte>)
    ensures |b| < 20 ==> StatusBlockWith(dec, b) == Failure(ShortRead)
    ensures StatusBlockWith(dec, b).Success? ==>
              var blk := StatusBlockWith(dec, b).value;
              && blk.entryCount == blk.errorSeverity
              && |blk.entries| == Max0(blk.errorSeverity)
  {
    IntAt(b, 12);
    IntAt(b, 16);
  }

  /** A decoded block's entries are those of the loop run from offset 20. */
  lemma BlockSteps(dec: seq<Byte> -> Result<DataEntry>, b: seq<Byte>)
    requires StatusBlockWith(dec, b).Success?
    ensures var blk := StatusBlockWith(dec, b).value;
      && Frame(dec, Drop(b, 20), blk.entryCount).Success?
      && blk.entries == EntriesOf(Frame(dec, Drop(b, 20), blk.entryCount).value)
  {
  }

  /** The entries in order: entry 0 is decoded at offset 20, and each later one where
      the previous one ended. */
  lemma {:induction false} BlockEntries(dec: seq<Byte> -> Result<DataEntry>, b: seq<Byte>, blk: StatusBlock,
                                         steps: seq<Step>, k: nat)
    requires StatusBlockWith(dec, b) == Success(blk)
    requires Frame(dec, Drop(b, 20), blk.entryCount) == Success(steps)
    requires k < |blk.entries|
    ensures k < |steps| && blk.entries[k] == steps[k].entry
    ensures dec(steps[k].at) == Success(steps[k].entry)
    ensures k == 0 ==> steps[k].at == Drop(b, 20)
    ensures k > 0 ==> steps[k].at == Advance(steps[k - 1].at, steps[k - 1].entry)
  {
    BlockSteps(dec, b);
    FrameChain(dec, Drop(b, 20), blk.entryCount, k);
    if k > 0 {
      FrameChain(dec, Drop(b, 20), blk.entryCount, k - 1);
    }
  }

  /** Entry k of a block is read c = Consumed(k) bytes past the block header, at offset
      20 + Σ_{i<k}(72 + error_data_length_i), when no earlier length is below -72. */
  lemma {:induction false} BlockOffsets(dec: seq<Byte> -> Result<DataEntry>, b: seq<Byte>, blk: StatusBlock, k: nat, c: int)
    requires StatusBlockWith(dec, b) == Success(blk)
    requires k < |blk.entries| && ForwardBefore(blk.entries, k)
    requires c == Consumed(blk.entries, k)
    ensures c >= 0
    ensures dec(Drop(b, 20 + c)) == Success(blk.entries[k])
  {
    BlockSteps(dec, b);
    var steps := Frame(dec, Drop(b, 20), blk.entryCount).value;
    FrameOffsets(dec, Drop(b, 20), blk.entryCount, steps, k);
    ShiftedRead(dec, b, c, blk.entries[k]);
  }

  lemma ShiftedRead(dec: seq<Byte> -> Result<DataEntry>, b: seq<Byte>, c: int, e: DataEntry)
    requires c >= 0 && dec(Drop(Drop(b, 20), c)) == Success(e)
    ensures dec(Drop(b, 20 + c)) == Success(e)
  {
    DropDrop(b, 20, c);
  }

  /** `data_lenght` bounds nothing: changing bytes 12..16 changes only that field. */
  lemma DataLengthIgnored(dec: seq<Byte> -> Result<DataEntry>, b: seq<Byte>, c: seq<Byte>)
    requires |b| == |c|
    requires forall i :: 0 <= i < |b| && !(12 <= i < 16) ==> b[i] == c[i]
    ensures StatusBlockWith(dec, b).Success? <==> StatusBlockWith(dec, c).Success?
    ensures StatusBlockWith(dec, b).Success? ==>
              StatusBlockWith(dec, c).value ==
                StatusBlockWith(dec, b).value.(dataLength := StatusBlockWith(dec, c).value.dataLength)
  {
    assert Slice(b, 0, 4) == Slice(c, 0, 4) && Slice(b, 4, 8) == Slice(c, 4, 8);
    assert Slice(b, 8, 12) == Slice(c, 8, 12) && Slice(b, 16, 20) == Slice(c, 16, 20);
    assert Drop(b, 20) == Drop(c, 20);
    IntAt(b, 12);
    IntAt(c, 12);
  }

  /** The package's payload is slice [72, error_data_length) of the entry, not
      [72, 72 + error_data_length): for a length from 0 to 72 it is empty, and for a
      longer one it holds length - 72 bytes at most. A negative length counts from the
      end of the entry, as Python's slicing does. */
  lemma PayloadQuirk(at: seq<Byte>, length: int)
    ensures 0 <= length <= 72 ==> Slice(at, 72, length) == []
    ensures 72 <= length <= |at| ==> Slice(at, 72, length) == at[72..length]
    ensures length >= 0 ==> |Slice(at, 72, length)| <= Max0(length - 72)
    ensures length < 0 && 72 <= |at| + length ==> Slice(at, 72, length) == at[72..|at| + length]
  {
  }

  /** A decoded package block is built from the loop run from offset 20. */
  lemma PackageSteps(dec: seq<Byte> -> Result<DataEntry>, b: seq<Byte>)
    requires PackageBlockWith(dec, b).Success?
    ensures var p := PackageBlockWith(dec, b).value;
      && Frame(dec, Drop(b, 20), p.block.entryCount).Success?
      && p.block.entries == EntriesOf(Frame(dec, Drop(b, 20), p.block.entryCount).value)
      && p.decoded == LastHandOff(Frame(dec, Drop(b, 20), p.block.entryCount).value)
  {
  }

  /** Only the last entry reaches the package's per-section decoder: `decoded` is built
      from the last entry's section type and its [72, error_data_length) slice. */
  lemma LastEntryOnly(dec: seq<Byte> -> Result<DataEntry>, b: seq<Byte>)
    requires PackageBlockWith(dec, b).Success?
    ensures var p := PackageBlockWith(dec, b).value;
      var steps := Frame(dec, Drop(b, 20), p.block.entryCount).value;
      && Frame(dec, Drop(b, 20), p.block.entryCount).Success?
      && (p.decoded.Some? <==> p.block.entries != [])
      && (p.decoded.Some? ==>
            && p.decoded.value.sectionType == p.block.entries[|p.block.entries| - 1].sectionType
            && p.decoded.value.payload == Slice(steps[|steps| - 1].at, 72,
                                                p.block.entries[|p.block.entries| - 1].errorDataLength))
  {
    PackageSteps(dec, b);
  }

  /** The two copies agree on every key but `decoded_data_entry`. */
  lemma CopiesAgree(dec: seq<Byte> -> Result<DataEntry>, b: seq<Byte>)
    ensures PackageBlockWith(dec, b).Success? <==> StatusBlockWith(dec, b).Success?
    ensures PackageBlockWith(dec, b).Failure? ==>
              PackageBlockWith(dec, b).error == StatusBlockWith(dec, b).error
    ensures PackageBlockWith(dec, b).Success? ==>
              PackageBlockWith(dec, b).value.block == StatusBlockWith(dec, b).value
  {
  }
}
