# BERT reader: a verified model of its decoding core

bert_reader decodes the ACPI Boot Error Record Table (BERT) and the boot error
region it points to. That region holds a Generic Error Status Block (section
18.3.2.7.1 of the ACPI Specification) followed by Generic Error Data Entries. The
repository has two near-identical copies of the decoder:

- the root script `bert_reader.py` with its `predefined_values.py`;
- the package under `bert_reader/`, which moves the table decoding into classes
  (`tables.py`) and has its own, smaller `predefined_values.py`.

This project models the decoding core of both copies in Dafny.

- `results.dfy` (`Results`): the failure kinds. Each Python exception the decoders
  can raise becomes an `Error`. Also the `Option`, `Result` and `Outcome` wrappers.
- `bytes.dfy` (`Bytes`): bytes, Python slicing (`Slice`, `Drop`), and the
  little-endian two's-complement int32 that `struct.unpack("i", ...)` reads, with
  its encoder as partner.
- `utf8.dfy` (`Utf8`): strict UTF-8 decoding as `bytes.decode("utf-8")` applies it,
  with an encoder and both round trips.
- `hex.dfy` (`HexDump`): `bytes.hex()`, its parser, and the space-separated dump the
  `binary_to_hex` helpers build.
- `guid.dfy` (`Guid`): the EFI_GUID byte swap behind `UUID(bytes=...).bytes_le.hex()`
  and its parser.
- `convert.dfy` (`Convert`): the `binary_to_*` helpers, shared by both copies.
- `bert_table.dfy` (`BertTable`): the BERT header decode, its field properties and
  an encoder round trip.
- `gesb.dfy` (`Gesb`): the status block and entry decode as specification
  functions, and the properties of the entry loop.
- `bert_reader.dfy` (`BertReader`): the root copy's `get_bert_table_data` as
  methods proved against those functions, plus its two printer lookups. The root
  copy's `get_bert_table` builds its dictionary from reads alone, with no loop or
  update that depends on earlier keys, so it is the function `BertTable.DecodeBert`.
- `package_reader.dfy` (`PackageReader`): the package copy's `get_bert_table_data`
  loop, with the `decoded_data_entry` key it overwrites, and its lookups.
- `tables.dfy` (`Tables`): the `Bert` class with its `data` field and
  `check_header_signature`.
- `predefined_values.dfy`, `package_predefined_values.dfy`, `lookups.dfy`: the
  section-type registry, the severity lists and the two name lookups.

Both copies run the same loop. The count of passes is the int at offset 16. That
is the same word the block stores as `error_severity`. The int at offset 12
(`data_lenght`) is read but bounds nothing. Each pass decodes a 72-byte entry
header from the remaining bytes. It then drops `72 + error_data_length` bytes
using Python slicing. A length from -72 up drops that many bytes from the front,
possibly none; a length below -72 makes the new start count from the end. The loop is
modelled as written.

## Model

| member | source | states |
|---|---|---|
| Bytes.Slice | bert_reader.py:24-43 | the Python slice `data[lo:hi]`: the in-range sub-sequence, the tail when `hi` overshoots, and empty when `lo` is past the end or `0 <= hi <= lo`; never longer than the buffer |
| Bytes.Drop | bert_reader.py:92 | `data[lo:]`: a suffix of the buffer, exactly `data[lo..]` for an in-range `lo`, the whole buffer for 0, and empty past the end |
| Bytes.DropDrop | bert_reader.py:77-92 | two successive non-negative drops equal one drop by their sum |
| Bytes.LeSigned32 | bert_reader.py:28-30 | the int32 read lies in [-2^31, 2^31) and is negative exactly when the top bit of the last byte is set |
| Bytes.DecodeEncodeLe32 | bert_reader.py:28-30 | every int32 survives little-endian encoding and the `struct` read |
| Bytes.EncodeDecodeLe32 | bert_reader.py:28-30 | every 4-byte word is the encoding of the int32 it reads as, so the read loses nothing |
| Utf8.Decode | bert_reader.py:24-26 | a successful decode has at most as many characters as bytes, and is empty exactly when the bytes are |
| Utf8.LeadLength | bert_reader.py:24-26 | the length of the well-formed UTF-8 sequence at the head is 0 exactly when the head fits no row of Table 3-7 of the Unicode Standard |
| Utf8.EncodeCharHead | bert_reader.py:24-26 | the encoding of a scalar value is a well-formed head of its own length that decodes back to that value |
| Utf8.ScalarEncodes | bert_reader.py:24-26 | a well-formed head sequence is the encoding of the scalar value it decodes to |
| Utf8.DecodeEncode | bert_reader.py:24-26 | every string survives UTF-8 encoding and strict decoding |
| Utf8.EncodeDecode | bert_reader.py:24-26 | whatever decodes re-encodes to the same bytes, so strict decoding is injective |
| Utf8.DecodeAscii | bert_reader.py:24-26 | bytes below 0x80 decode one-for-one to the characters with those codes |
| HexDump.HexByte | bert_reader.py:38 | a byte is shown as two lower-case digits whose values give the byte back |
| HexDump.Hex | bert_reader.py:69-71 | `bytes.hex()` has two characters per byte |
| HexDump.HexAt | bert_reader.py:69-71 | byte i is shown at characters 2i and 2i+1, in wire order |
| HexDump.ParseHexOfHex | bert_reader.py:69-71 | `bytes.hex()` parses back to its input |
| HexDump.HexOfParseHex | bert_reader.py:69-71 | every string that parses is the hex of what it parses to |
| HexDump.SpacedHexLayout | bert_reader.py:36-39 | the dump of n bytes has 3n-1 characters (none for n = 0): the two digits of byte i at 3i, and a single space between groups |
| Guid.Swap | bert_reader.py:41-43 | shown byte i is wire byte Source(i): bytes 3,2,1,0,5,4,7,6 and then 8..15 |
| Guid.SwapInvolution | bert_reader.py:41-43 | applying the swap twice returns the wire bytes |
| Guid.GuidStringAt | bert_reader.py:41-43 | characters 2i and 2i+1 of the GUID string are the digits of wire byte Source(i) |
| Guid.ParseGuidString | bert_reader.py:41-43 | the GUID string of 16 wire bytes parses back to them |
| Guid.GuidStringOfParse | bert_reader.py:41-43 | a string that parses as a GUID is the rendering of the bytes it parses to |
| Convert.BinaryToString | bert_reader.py:24-26 | succeeds exactly when the slice is UTF-8; otherwise fails with InvalidText; the text encodes back to the slice |
| Convert.BinaryToInt | bert_reader/tables.py:26-32 | succeeds exactly when the slice has four bytes; otherwise fails with ShortRead; the value is an int32 whose encoding is the slice |
| Convert.BinaryToByte | bert_reader/tables.py:34-40 | succeeds exactly when the slice has one byte, and returns that byte; otherwise fails with ShortRead |
| Convert.BinaryToHex | bert_reader.py:36-39 | the dump of the slice, cut at the end of the buffer, has 3n-1 characters for n bytes and none for no bytes; byte i's two digits are at character 3i |
| Convert.BinaryToGuid | bert_reader.py:41-43 | succeeds exactly when the slice has 16 bytes, and then the string parses back to the slice; otherwise fails with ShortRead |
| Convert.SameSlice | bert_reader/tables.py:20-47 | every helper depends only on its slice |
| Convert.StringRead | bert_reader.py:24-26 | a slice holding the encoding of a string reads as that string |
| Convert.IntRead | bert_reader.py:28-30 | a slice holding the encoding of an int32 reads as that int32 |
| Convert.IntAt | bert_reader.py:28-30 | the int read succeeds exactly when four bytes remain at the offset, and then it is those four bytes, little-endian |
| Convert.IntLengthParameter | bert_reader/tables.py:26-32 | with the `length` parameter, the read works for length 4 when four bytes remain, for a longer length only when the buffer ends four bytes after the offset, and never for a shorter one |
| Convert.ByteAt | bert_reader.py:32-34 | the byte read returns the byte at the offset and fails past the end |
| Convert.HexTruncates | bert_reader.py:36-39 | a dump request past the end is cut to the bytes that exist instead of failing |
| Convert.GuidAt | bert_reader/tables.py:49-55 | the GUID read succeeds exactly when 16 bytes remain, and renders them |
| BertTable.DecodeBert | bert_reader.py:47-61 | `get_bert_table`: a successful decode needs at least 40 bytes, where the last int read ends, and UTF-8 in all three text fields |
| BertTable.DecodeBertSucceeds | bert_reader.py:47-61 | the table decodes exactly when the buffer has at least 40 bytes and its three text fields are UTF-8; every failure is ShortRead or InvalidText; a buffer of 40 bytes or more fails only with InvalidText; a shorter buffer whose three text slices (cut at its end) are UTF-8 fails with ShortRead |
| BertTable.BertFields | bert_reader.py:50-60 | each field is the bytes at its offset: text [0,4), int@4, byte@8, byte@9, text [10,16), int@24, text [28,32), int@32, int@36, dump [40,48), dump [0,48) |
| BertTable.BertDumps | bert_reader.py:59-60 | the region field is the dump of bytes [40,48) and `hex` that of bytes [0,48), both cut at the end of the buffer |
| BertTable.SkipsOemTableId | bert_reader.py:50-59 | two buffers that differ only in bytes 16..24 decode alike, apart from the `hex` dump |
| BertTable.HexDumpLengths | bert_reader.py:59-60 | on a 48-byte header the region dump has 23 characters and the full dump has 143 |
| BertTable.AnySignatureAccepted | bert_reader/tables.py:78-92 | any ASCII buffer of at least 40 bytes decodes, whatever its signature, and the signature is its first four bytes |
| BertTable.DecodeEncodeBert | bert_reader.py:47-61 | every table laid out field by field at the decoder's offsets decodes back to those fields, whatever its OEM Table ID |
| Gesb.DecodeEntry | bert_reader.py:79-89 | a decoded entry header needs at least 28 bytes, where the last int read ends; the only failures are ShortRead and InvalidText |
| Gesb.AdvanceSlices | bert_reader.py:92 | `Advance`, the drop of `72 + len` bytes: the remaining bytes never grow; a length of -72 or more drops 72 + len bytes from the front; a length below -72 keeps the last -(72 + len) bytes, or all of them when there are fewer |
| Gesb.Frame | bert_reader.py:78-92 | the loop takes max(0, count) steps when it succeeds, the first one at the remaining bytes it started from, and fails only when it runs at least once |
| Gesb.FrameChain | bert_reader.py:78-92 | step k's entry is the decode of the bytes step k starts at, and step k+1 starts where step k's advance leaves off |
| Gesb.EntryPass | bert_reader.py:78-92 | one pass of the loop: a failed entry read ends the whole run with that error; a successful one moves one step from the remaining passes to the steps done and appends its entry |
| Gesb.PassesEnd | bert_reader.py:78 | once no pass remains, the steps done are the whole run |
| Gesb.FrameStep | bert_reader.py:78-92 | one pass of the loop: a successful entry read moves one step from the remaining passes to the steps already done |
| Gesb.FrameIsLinked | bert_reader.py:92 | the steps form a chain, each starting where the previous one advanced to |
| Gesb.LinkedOffsets | bert_reader.py:77-92 | while no earlier length is below -72, step k of a chain starts Σ_{i<k}(72 + len_i) bytes into the bytes after the block header |
| Gesb.AdvanceThenDrop | bert_reader.py:92 | a non-negative advance followed by a drop is one drop by the sum |
| Gesb.FrameOffsets | bert_reader.py:77-92 | in a successful run from the bytes after the block header, entry k is the decode of those bytes from Σ_{i<k}(72 + len_i) on, while no earlier length is below -72 |
| Gesb.ForwardBeforeAll | bert_reader.py:85-92 | the recursive "no length below -72 before k" is its quantified form: 72 + len_i >= 0 for every i < k |
| Gesb.EntriesOf | bert_reader.py:90 | the entries list holds, in order, the entry each step read |
| Gesb.EntriesOfRun | bert_reader.py:90 | the entries of a run succeed exactly when the run does, one per step, and otherwise carry the run's error |
| Gesb.EntriesOfAppend | bert_reader.py:90 | appending a step appends its entry |
| Gesb.EntrySucceeds | bert_reader.py:79-89 | an entry header decodes exactly when 28 bytes remain and the FRU text is UTF-8; it fails with ShortRead or InvalidText accordingly; the payload length is never checked against the remaining bytes |
| Gesb.EntryFields | bert_reader/bert_reader.py:82-95 | every entry field is the decode of its bytes: GUID [0,16), int@16, hex [20,22), [22], [23], int@24, hex [28,44), text [44,64), hex [64,72), and the payload dump |
| Gesb.PayloadDump | bert_reader/bert_reader.py:93-95 | for a non-negative length the payload dump shows bytes [72, 72+len), cut at the end of the buffer |
| Gesb.BlockHeader | bert_reader/bert_reader.py:69-74 | the block header fields: hex of [0,4), [4,8), [8,12), int@12, int@16 |
| Gesb.CountIsSeverity | bert_reader.py:72-78 | a buffer under 20 bytes fails with ShortRead; the entry count is the severity word, and the number of entries is max(0, severity) |
| Gesb.StatusBlockWith | bert_reader.py:66-93 | the block decode with any entry reader: a buffer under 20 bytes fails with ShortRead; the entry count is the severity word, and there are max(0, count) entries |
| Gesb.DecodeStatusBlock | bert_reader.py:66-93 | the root copy's block: a buffer under 20 bytes fails with ShortRead; a decoded block has max(0, severity) entries |
| Gesb.PackageBlockWith | bert_reader/bert_reader.py:65-103 | the package block with any entry reader: a buffer under 20 bytes fails with ShortRead; there are max(0, severity) entries, and `decoded_data_entry` is present exactly when there is an entry |
| Gesb.DecodePackageStatusBlock | bert_reader/bert_reader.py:65-103 | the package copy's block: a buffer under 20 bytes fails with ShortRead; `decoded_data_entry` is present exactly when the severity word is positive |
| Gesb.BlockSteps | bert_reader.py:74-93 | the block's entries are those of the loop run from byte 20 with the count word |
| Gesb.BlockEntries | bert_reader.py:78-92 | entry k of the block is read at step k, step 0 starts at byte 20, and step k starts where step k-1 advanced to |
| Gesb.BlockOffsets | bert_reader.py:77-92 | in a decoded block, entry k is the decode of the block's bytes from offset 20 + Σ_{i<k}(72 + len_i), while no earlier length is below -72 |
| Gesb.DataLengthIgnored | bert_reader.py:72-78 | changing the `data_lenght` word changes nothing but that field: not the outcome, not the entries |
| Gesb.PayloadQuirk | bert_reader/bert_reader.py:99 | the slice `[72:len]` handed to the section decoder is empty for 0 <= len <= 72; it is bytes [72, len) when 72 <= len <= the entry's size; it is never longer than len - 72; a negative len counts from the end |
| Gesb.PackageSteps | bert_reader/bert_reader.py:81-102 | the package block's entries and `decoded_data_entry` come from the same loop run |
| Gesb.LastHandOff | bert_reader/bert_reader.py:97-100 | the hand-off is present exactly when a pass was made, and names the last entry's section type |
| Gesb.LastHandOffAppend | bert_reader/bert_reader.py:97-100 | after one more pass the key holds that pass's section type and its `[72:len]` slice |
| Gesb.LastEntryOnly | bert_reader/bert_reader.py:97-100 | `decoded_data_entry` is set exactly when there is an entry, and holds the last entry's section type and its `[72:len]` slice |
| Gesb.CopiesAgree | bert_reader/bert_reader.py:65-103 | the package copy fails exactly when the root copy does, with the same error, and otherwise returns the same block plus `decoded_data_entry` |
| Gesb.PrependPrepend | bert_reader.py:90 | putting two runs of steps in front, one after the other, is putting them in front at once |
| PredefinedValues.RegistryKeys | predefined_values.py:4-53 | the keys of the registry `PredefinedValues.SectionTypes` are the eleven section-type GUIDs |
| PredefinedValues.RegistrySize | predefined_values.py:4-53 | the registry has eleven distinct keys |
| PredefinedValues.NamesAreKnown | predefined_values.py:4-53 | no registry name is "Unknown" |
| PredefinedValues.KeysAreLowerHex | predefined_values.py:4-53 | every key is 32 lower-case hex digits |
| PredefinedValues.LowerHexIsGuidKey | predefined_values.py:4-53 | every 32-digit lower-case hex string is the rendering of some 16 wire bytes |
| PredefinedValues.KeysAreGuidStrings | predefined_values.py:4-53 | every key is a string `binary_to_guid` can return |
| PredefinedValues.OnlyFirmwareHasDescriptors | predefined_values.py:29-36 | only the Firmware Error Record Reference type has descriptors, and (0,1,byte), (1,7,hex), (8,8,hex) tile bytes [0,16) |
| PredefinedValues.SeverityTable | predefined_values.py:55-60 | `PredefinedValues.ErrorSeverity` holds four severity names: Recoverable, Fatal, Corrected, Informational |
| PackagePredefinedValues.SameSeverityNames | bert_reader/predefined_values.py:5-10 | the package's severity list `PackagePredefinedValues.ErrorSeverity` is the root list, name for name |
| Lookups.PyIndex | bert_reader.py:155 | a list index succeeds exactly for -len <= i < len, else fails with OutOfRange; an in-range index gives that element |
| Lookups.SectionName | bert_reader.py:147-151 | a name other than "Unknown" is the registry name of the GUID, and a registered GUID always gets its registry name |
| Lookups.PyIndexWraps | bert_reader.py:155 | index i - len names the same element as index i |
| BertReader.GetBertTableData | bert_reader.py:66-93 | the method returns the status block decode with DecodeEntry |
| BertReader.ReadStatusBlock | bert_reader.py:66-93 | the method returns the block StatusBlockWith gives for any entry reader: the header fields, then the loop's entries or its first failure |
| BertReader.ReadEntries | bert_reader.py:77-92 | the loop returns the entries of the whole run, or its first failure; its invariant is that the steps done followed by the remaining passes make up the whole run |
| BertReader.SectionTypeName | bert_reader.py:147-152 | the name differs from "Unknown" exactly when the GUID string is a registry key, and is then the registry name |
| BertReader.SeverityName | bert_reader.py:154-156 | the lookup succeeds exactly for -4..3, gives the listed name for 0..3, and otherwise fails with OutOfRange |
| PackageReader.GetBertTableData | bert_reader/bert_reader.py:65-103 | the method returns the package block decode with DecodeEntry |
| PackageReader.ReadPackageBlock | bert_reader/bert_reader.py:65-103 | the method returns the block PackageBlockWith gives for any entry reader, with `decoded_data_entry` |
| PackageReader.ReadEntries | bert_reader/bert_reader.py:80-102 | the loop returns the entries of the whole run, or its first failure; on success `decoded_data_entry` is the hand-off of the last pass, none when there was no pass |
| PackageReader.SectionTypeName | bert_reader/bert_reader.py:120-125 | with no registry in the package (`PackagePredefinedValues.SectionTypes` is None), the name is always "Unknown" |
| PackageReader.SeverityName | bert_reader/bert_reader.py:126-128 | the lookup succeeds exactly for -4..3, gives the listed name for 0..3, and otherwise fails with OutOfRange |
| Tables.Bert.constructor | bert_reader/tables.py:80 | the object's `data` is the given decoded table |
| Tables.Bert.FromBytes | bert_reader/tables.py:78-92 | initializing succeeds exactly when the table decodes, fails with the decode's error otherwise, and stores the decoded table in a new object; the signature is not checked |
| Tables.Bert.CheckHeaderSignature | bert_reader/tables.py:57-64 | fails with SignatureMismatch exactly when the stored signature differs from the expected one, and changes nothing |

## Left out

- Reading files (`read_bert_table`, `GenericTable.read_table`) is not modelled. Each decoder takes the file's bytes as a parameter.
- Argument parsing, directory checks, the globbing of `BERT*` files and both `main` functions are not modelled.
- Every `print_*` function is left out: key capitalisation, the 16-byte hex rows and output order. Only the two name lookups inside the entry printers are modelled.
- `get_bert_table_data_entry`, `Hest` and `GenericErrorStatusBlock` are referenced by the package copy but are not part of this model. `decoded_data_entry` therefore holds the arguments the package would hand to `get_bert_table_data_entry`: the section type and the payload slice.
- The package's `get_bert_table_data` calls `binary_to_int`, `binary_to_guid`, `binary_to_string` and `binary_to_hex`, but its module defines and imports none of them. As written, the first call raises NameError. The model gives these calls the behaviour of the shared helpers.
- `struct.unpack("i", ...)` uses the host's byte order. The model fixes it to little-endian.
- Python's exception types and messages are reduced to the `Error` kinds. This includes the message `check_header_signature` builds.
- The class attribute `data = {}` of `GenericTable` is shared by all instances until `__init__` rebinds it. The model gives each `Bert` object its own `data` field.
- Result dictionaries are modelled as records with one field per key. Key spellings (`lenght`, `data_lenght`) and insertion order are not kept.
- Nothing bounds the loop by `data_lenght`. There is no separate error for an entry cut short, and no name for severities outside the list. The source has none of these: the loop trusts the count word and the list lookup raises. A short entry is not rejected as such: below 16 bytes the UUID read fails, below 28 bytes an int read fails (both ShortRead), and an entry of 28 to 71 bytes decodes whenever its FRU text, cut at the end of the entry, is UTF-8; its missing header bytes read as empty or short slices.
- `Frame` and the block functions take the entry decoder as a parameter. Both copies use `DecodeEntry`. The block methods and their `ReadEntries` loops are written over that parameter and called with `DecodeEntry`. Only the proofs depend on this; the model computes the same thing.
- Gesb.FrameOffsets: the offset sum is stated only while no earlier `error_data_length` is below -72. A length below -72 makes the next slice start count from the end of the remaining bytes. `Advance`, Gesb.AdvanceSlices and Gesb.FrameChain model that case, but no closed-form offset is given for it.
- Gesb.LinkedOffsets: has the same restriction as Gesb.FrameOffsets, to earlier lengths of -72 or more.
- Gesb.BlockOffsets: has the same restriction as Gesb.FrameOffsets, to earlier lengths of -72 or more.
