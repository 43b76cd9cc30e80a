# go-zfs: nvlist codec, send and receive streams, ioctl retry

This project models the three parts of go-zfs that carry its logic and proves
what they promise.

**The nvlist codec** (`nvlist/encoder.go`, `nvlist/decode.go`,
`nvlist/consts.go`). `Marshal` writes a tree of Go values as a native nvlist;
`Unmarshal` reads such bytes back with two cursors and recursion.

- `Decoder` and `Encoder` are pure specifications of what the two sides
  compute, on every input: arbitrary bytes in both encodings on one side, every
  tree on the other, the ones the encoder handles wrongly included. A `Tree` is
  a Go value with an enumeration order chosen for each of its maps; `Orders(v, t)`
  says that `t` is one of the orders of the value `v`. The byte order is a
  parameter of the encoder, although the code only ever uses little endian.
- `Reader` and `Writer` are the code as it runs: the two reader classes with
  their cursors, and the writer class with its growing buffer, its reserved
  headers and its back-patch mode. Their contracts equate them with the
  specifications, so the theorems below are about what these machines do. Verification
  of the reader also establishes that every index lies inside the buffer and
  that every loop and recursion terminates, for all bytes.
- `Domain` says which trees survive, and `Values` what they come back as. `Norm`
  is the normal form: nil, scalar false and float64 members are gone at every
  depth, and a struct becomes a map. `Seen` is the same with the names and
  strings that are read. A name or string with a NUL is written up to the NUL.
  Where the padding behind a name covers the rest of it, the rest is read as
  NULs; two names may then be read alike, and a value is consistent if that makes
  no difference. A string ends at the next zero byte, so one without a
  terminator is cut, or joins its neighbour in an array, or runs into the byte
  behind its pair.
- A tree is framed if it is written without an error inside, readable if it then
  decodes, and in the domain (`RootOk`) if moreover its strings hold no NUL.
- `RoundTrip`, `Meaning`, `Locality`, `Shape` and `Stability` hold the theorems
  on readable trees and on the domain. `Outcome`, `Reporting`, `Swallowed` and
  `Exactness` say what happens outside and so make the conditions exact;
  `Limits` has corollaries on small families of inputs. `Codec` joins the two
  machines.
- `Wire`, `WireDecode` and `Tags` fix the format itself, in literal numbers:
  which bytes stand where in what `Marshal` returns, what `Unmarshal` makes of
  each type code and which error of each malformed header, those that only a
  kernel sends included, and what a struct tag does. Their statements use none of
  the constants and reading or writing functions of the two sides.

**The streams** (`ioctl/wrappers.go`). `SendStream` and `ReceiveProtocol` are
step systems over caller, worker, pipe and channels with ghost histories; the
theorems quantify over every run, that is, every interleaving and every
chunking; what each Read and Write returned is among the histories. `SendStream.Sender` and `ReceiveStream.Receiver` are the two stream
objects; their methods take the steps of those systems, a Read at the end of the
pipe being two of them. `Transfer` joins the two. `NameBuffer` models the two helpers for NUL-delimited names.

**The retry loop** (`ioctl/ioctl.go`). `Ioctl` runs the loop against a kernel
that is an arbitrary function of the attempt and the call.

What the model takes as parameters: the enumeration order of maps, the answers
of the pipe, the kernel's behaviour, and the addresses of buffers. An `os.File`
pipe is assumed to report end of file only with zero bytes. Errors of the pipe
and errors of the ioctl are told apart by where they come from.

Where code and documentation disagree the model follows the code:

- `Marshal` is documented to serialise the value it is given, but an error
  inside a nested map or struct is dropped (`nvlist/encoder.go:255-257`), and with
  it everything that is enumerated later: `Reporting.SiblingsLost`,
  `Swallowed.SwallowedOutcome`. The result then depends on the enumeration order
  of the map: `Limits.SwallowedError`. When an error is reported is
  `Reporting.ReportIff`.
- `ReceiveOpts.BeginRecord` may be set according to its comment
  (`ioctl/wrappers.go:559-562`), but the worker overwrites it with what it takes
  from the channel (`ioctl/wrappers.go:660`), so such a receive can only fail:
  `ReceiveProtocol.SuppliedRecordIsLost`.
- A string or name with a NUL is meant to be an error
  (`nvlist/encoder.go:60-62`), but all three callers drop it: a string comes back
  cut (`Limits.NulString`), or not at all, depending on the enumeration order
  (`Limits.NulStringOrder`), strings of an array come back joined
  (`Limits.JoinedStrings`), and a name comes back altered
  (`Stability.NulNamesOutcome`).

## Model

| member | source | states |
|---|---|---|
| Stability.CodecRoundTrip | nvlist/encoder.go:164-317 | For every value in the domain, every enumeration order of its maps, both byte orders and any bytes behind the list, marshalling succeeds and unmarshalling yields the normal form |
| Meaning.TreeOutcome | nvlist/decode.go:201-477 | For every readable tree, NULs in names and strings included, in both byte orders and followed by any bytes: Marshal succeeds and Unmarshal yields the map that its written entries build in their order, with the names and strings that are read |
| Meaning.MarshalRoundTrip | nvlist/decode.go:284-297 | For every consistent value and every readable enumeration of it the result is what the value is seen as: its normal form with the names and strings that are read |
| Meaning.OrderIndependence | nvlist/decode.go:180-187 | Neither the byte order nor the enumeration order of any map is visible after decoding readable enumerations of a consistent value |
| Meaning.ExactConsumption | nvlist/encoder.go:315-316 | Decoding a marshalled readable tree followed by any bytes stops exactly at the end of the marshalled bytes |
| Meaning.ListMeaning | nvlist/decode.go:284-297 | The map filled pair by pair is what the list is seen as, whatever the order of the entries |
| Meaning.EntryMeaning | nvlist/encoder.go:182-212 | An entry is set under the name that is read for it exactly when it is kept: not nil, not false, not a double, not omitted by its tag |
| Meaning.HeaderRoundTrip | nvlist/encoder.go:83-99 | The 12-byte header is read back as native encoding in the byte order written |
| Stability.DomainAgrees | nvlist/encoder.go:172-187 | A value is admitted if and only if any enumeration of it is in the encoder's domain |
| Stability.NulNamesOutcome | nvlist/encoder.go:237-238 | For every admitted, consistent value, names with NULs included, every enumeration, both byte orders and any bytes behind the list, every kept member comes back under the name that is read for it, at every depth |
| Values.SeenIsNorm | nvlist/decode.go:276-280 | A value whose kept names and leaves are their own readings is consistent and is seen as its normal form |
| Values.ReadLeafPlain | nvlist/encoder.go:58-67 | A leaf is read as it is if and only if its strings hold no NUL, and what is read never holds one |
| Stability.OrderExists | nvlist/encoder.go:177-178 | Every value has an enumeration, so the theorems about enumerated trees speak about every value |
| Stability.SecondPass | nvlist/encoder.go:217-316 | What came back once comes back unchanged from then on, in any order of keys and bytes |
| Stability.NormIdempotent | nvlist/encoder.go:183 | Normalising twice is normalising once |
| Stability.NormInDomain | nvlist/encoder.go:217-235 | The normal form of a value in the domain is again in the domain |
| Stability.DecodeEncodeDecode | nvlist/decode.go:299-473 | For any bytes that decode, the value is in the domain if and only if its names are at most 32765 bytes and read as they are (NUL-free ones always are) and its string pairs fit int32; then every re-encoding decodes to its normal form |
| Stability.DecodedInDomain | nvlist/decode.go:269-271 | That equivalence for every value of decoded form, at every depth |
| Exactness.RoundTripIff | nvlist/encoder.go:164-317 | Of all values that Marshal reports or writes without an error inside, with nil list elements, long arrays, oversized pairs and NULs in strings and names among them, exactly the values of the domain come back in normal form |
| Exactness.OrderHiddenIff | nvlist/encoder.go:177-187 | All enumerations of an admitted map with consistent members decode alike if and only if members that are read under one name are seen alike |
| Outcome.DecodeOutcome | nvlist/encoder.go:164-317 | What becomes of every framed tree, nil lists, long arrays, oversized pairs and NULs in names and strings included: a pair the reader cannot accept, or a string that no zero ends in time, makes it InvalidData, otherwise a nil list at any depth makes it end of file, otherwise it comes back as it is read; so it decodes if and only if it is readable |
| Outcome.ListVerdict | nvlist/encoder.go:296-307 | The bytes of a framed list, read as the first of n + 1 lists with anything behind them, are rejected or leave n plus as many lists to read as nil lists were announced in it |
| Domain.OkIff | nvlist/decode.go:243-271 | A tree is in the domain if and only if it is framed, its strings hold no NUL, every pair of it is accepted and no nil list is announced in it |
| Domain.OkReadable | nvlist/decode.go:243-271 | Trees of the domain are readable in either byte order |
| Reporting.ReportIff | nvlist/encoder.go:217-220 | Marshal returns an error, ErrInvalidValue, if and only if the first entry that stops its outermost loop is itself bad: name too long, unsupported kind, array too long, or an array element that reports; an entry that stops it by a nested map or struct with an error inside is not reported |
| Reporting.SiblingsLost | nvlist/encoder.go:255-257 | Whatever is enumerated behind a nested map or struct with an error inside is not written, and Marshal still succeeds if nothing before it stopped the loop |
| Swallowed.SwallowedOutcome | nvlist/encoder.go:235-307 | For a bad member at the end of any path through nested lists and elements of list arrays, and all entries and elements around the path: Marshal reports it exactly as the path says; otherwise, if its pair was opened and no more than four lists are open at it, later array elements counted, exactly what was enumerated before it comes back, at every level and without an error; and if its name was too long and nothing follows, the bytes do not decode |
| Swallowed.PathReportIff | nvlist/encoder.go:255-306 | A nested map or struct drops the error and goes on with its siblings, a list array passes it on; so whether the outermost list reports is decided level by level |
| Stability.StructProjection | nvlist/encoder.go:188-212 | A struct whose kept fields have distinct effective names comes back as the map of exactly those fields, each in normal form: no ro field, no empty omitempty field, no nil, false or double |
| Stability.FieldSurvives | nvlist/encoder.go:205-210 | A kept field whose name no later kept field repeats is found under its effective name with its normal form |
| Locality.ExtensionStability | ioctl/ioctl.go:66 | Bytes behind any decodable buffer change neither the value nor the final cursor |
| Locality.BufferLocal | nvlist/decode.go:227-248 | A successful decode is determined by the bytes it consumed: they decode alike in front of anything |
| Locality.PrefixAccepted | nvlist/decode.go:240-242 | Cutting a decodable buffer anywhere behind the consumed bytes keeps the value |
| Locality.PrefixRejected | nvlist/decode.go:234-245 | Cutting a decodable buffer before the last consumed byte makes it undecodable |
| Locality.PrefixFreeness | nvlist/encoder.go:315 | Every strict prefix of a marshalled readable tree is rejected |
| Locality.ParseLocal | nvlist/decode.go:227-475 | The same determinacy for one list inside a buffer, in both encodings |
| Shape.ResourceBound | nvlist/decode.go:240-280 | Every decodable input of length n satisfies 12 + 17 * pairs + 4 * lists <= n, root, nested and array lists counted, and 16 + 21 * depth <= n |
| Shape.ParseCost | nvlist/decode.go:424-473 | One list pays 17 bytes per pair and 4 per list out of the bytes it consumes, whatever is nested in it |
| Shape.UnmarshalForm | nvlist/decode.go:299-422 | Every decoded value is a map whose integers are in range, whose strings are NUL-free and whose arrays have at most 65535 elements, at every depth |
| Decoder.ValueDecoded | nvlist/decode.go:332-422 | The same form for the value of one pair; which value it is, is stated by the laws of `WireDecode` |
| RoundTrip.RootRoundTrip | nvlist/encoder.go:164-187 | A readable list is written without error and parses back to its items with exactly the following bytes left |
| RoundTrip.EntriesRoundTrip | nvlist/encoder.go:217-316 | The pair loop and the parser loop undo each other over any sequence of entries and any items read before |
| RoundTrip.EntryRoundTrip | nvlist/encoder.go:229-313 | One written entry is parsed to its item and parsing goes on behind it and its nested lists |
| RoundTrip.ListsRoundTrip | nvlist/encoder.go:296-307 | The lists of a list array, written out of line, are read back one by one |
| RoundTrip.PairRoundTrip | nvlist/decode.go:234-282 | Size, element count, code and value offset of a written pair are read back as written, the name as far as it was written and with NULs for the rest, and the value and the following bytes lie where they are looked for, for every type, value and covered name |
| RoundTrip.LeafRoundTrip | nvlist/decode.go:299-422 | Every leaf but false is read back from its pair, a string as far as it was written; where neither padding nor the first byte behind the pair ends it, it is InvalidData |
| RoundTrip.StringsRead | nvlist/decode.go:394-405 | What is read of strings of which some lack their terminator, followed by p zeros and one byte: each runs on into the next, zeros end the last one and blank ones after it, and it fails exactly if there are too few |
| RoundTrip.EntriesEncode | nvlist/encoder.go:217-316 | Framed entries are written without an error, and the first byte they write is that of the size of the first pair, or of the trailer |
| RoundTrip.PairExtent | nvlist/encoder.go:141-142 | A pair spans a positive multiple of 8 bytes and its Size field says how many |
| RoundTrip.SameOffset | nvlist/decode.go:134-147 | The reader's alignment skip lands where the writer's did, for every name that the padding covers, NUL-free ones of any length among them |
| RoundTrip.TrailerRoundTrip | nvlist/encoder.go:315 | Four zero bytes end a list in either byte order |
| Bytes.IntRoundTrip | nvlist/decode.go:129-131 | An integer in range of its type is read back from its two's-complement bytes, in both byte orders and all widths |
| Bytes.IntsRoundTrip | nvlist/decode.go:383-385 | The same for consecutive integers |
| Bytes.GetIntComputes | nvlist/decode.go:157-159 | The integer computed from the digits is the one integer in range that is written as those bytes |
| Consts.ScalarCode | nvlist/consts.go:41-79 | No integer kind maps to the unknown type, and the decoder makes the same kind of the code; the numbers are stated by Wire.CodeIs |
| Consts.ArrayCode | nvlist/consts.go:57-88 | The same for array codes |
| Encoder.LeafCode | nvlist/encoder.go:240-295 | No leaf gets the unknown type or a list type; the numbers are stated by Wire.CodeIs |
| Wire.CodeIs | nvlist/consts.go:8-36 | The type number of every leaf, 1, 2, 3 to 8, 9, 10 to 17, 22, 24 and 25, and its element count, against a table of literals |
| Wire.HeaderIs | nvlist/encoder.go:83-99 | The first 12 bytes are 0 1 0 0 0 0 0 0 1 0 0 0 in little endian, and 0 0 0 0 0 0 0 0 0 0 0 1 in big endian |
| Wire.ListHeaderIs | nvlist/encoder.go:153-162 | The 24 literal bytes of an embedded list header |
| Wire.PairWritten | nvlist/encoder.go:134-151 | Wherever a pair stands: size, name length plus one, two zero bytes, element count and type number at their offsets, as sums of digits in the byte order; then the name, zeros up to a multiple of 8, the value, and zeros up to the size |
| Wire.LeafLayout | nvlist/encoder.go:217-295 | For every leaf, under every NUL-free name of at most 32765 bytes, among any framed entries: Marshal succeeds, the 12 header bytes come first, and the pair stands where the trailer of the entries before it would be, with its literal type number, its element count and its value, number by number or string by string, and zeros wherever padding or pointers are |
| Wire.FloatLayout | nvlist/encoder.go:241-246 | A float64 is a pair of type 27 with its 64 bits for a value |
| Wire.NestedLayout | nvlist/encoder.go:251-257 | A framed map or struct among any framed entries is a pair of type 19 with the 24 literal bytes for a value, and directly behind it stand the bytes that Marshal returns for the nested value alone, without their header; so the layout is known at every depth |
| Wire.ArrayLayout | nvlist/encoder.go:296-307 | An array of n framed lists among any framed entries is a pair of type 20 that announces n and holds 8 n zero bytes and n times the 24 literal bytes; directly behind it stand the bytes that Marshal returns for each element alone, one after the other |
| WireDecode.HeaderLaw | nvlist/decode.go:161-199 | The error for every header that is too short or whose first two bytes are not 0 or 1 |
| WireDecode.PairLaw | nvlist/decode.go:234-279 | For every field of a pair's header the error it is refused with, in the order of the checks, in both encodings and byte orders; a zero size ends the list |
| WireDecode.IntegerLaw | nvlist/decode.go:304-331 | A pair with the number 3 to 8, 22 or 23 decodes to the integer of the kind that its bytes spell, signed or not, or to an end-of-file error if the value does not fit the pair; in both encodings and byte orders, under any name and with any bytes behind the list |
| WireDecode.TrueLaw | nvlist/decode.go:302-303 | 1 is true |
| WireDecode.ByteLaw | nvlist/decode.go:332-337 | 2 is one byte as a uint8, and it may be the one right behind the pair |
| WireDecode.StringLaw | nvlist/decode.go:338-343 | 9 is the string up to the first zero byte, which may be the one right behind the pair |
| WireDecode.NoStringLaw | nvlist/decode.go:338-343 | and InvalidData if there is no zero byte up to there |
| WireDecode.BooleanLaw | nvlist/decode.go:344-359 | 21, which the encoder never writes, is true for the number 1, false for 0, and InvalidData for every other |
| WireDecode.ArrayLaw | nvlist/decode.go:361-386 | 11 to 16, 25 and 26 are as many integers of the kind as announced, or an end-of-file error |
| WireDecode.ByteArrayLaw | nvlist/decode.go:388-393 | 10 is as many bytes as announced, or InvalidData |
| WireDecode.StringArrayLaw | nvlist/decode.go:394-405 | 17 is, behind 8 bytes for each announced string, the strings that zero bytes end |
| WireDecode.NoStringArrayLaw | nvlist/decode.go:394-405 | and InvalidData unless there are as many |
| WireDecode.BooleanArrayLaw | nvlist/decode.go:406-422 | 24 is as many booleans as announced, each of them the number 0 or 1; the first one that is not, or does not fit, is the error |
| WireDecode.IgnoredLaw | nvlist/decode.go:299-475 | 18 and everything from 27 on sets nothing and is no error |
| WireDecode.UnknownLaw | nvlist/decode.go:300-301 | 0 is InvalidData |
| Tags.OptionLaw | nvlist/encoder.go:191-212 | For a tag whose first two parts are n and option: the field's name is n, or its own if n is empty; it is omitted exactly if option is ro, or is omitempty and the value is 0, false, an empty string, array, map or list, or plus or minus 0.0; whatever follows has no influence |
| Tags.PlainLaw | nvlist/encoder.go:191-194 | A tag without a comma only names the field |
| Tags.TagOnWire | nvlist/encoder.go:188-212 | Such a field, among any others, is marshalled byte for byte as if it were absent when it is nil or omitted, and as an untagged field of that name otherwise |
| Tags.PlainOnWire | nvlist/encoder.go:204-210 | The same for a tag without a comma |
| Tags.FalseOnWire | nvlist/encoder.go:231-233 | A false boolean leaves no trace in the bytes |
| Tags.RefusedOnWire | nvlist/encoder.go:217-220 | A name of 32766 bytes or more, an unsupported kind, or an array of 2147483647 elements or more, behind any framed entries, makes Marshal return ErrInvalidValue |
| Limits.NilRoot | nvlist/encoder.go:167-170 | Corollary: a nil root is marshalled without error into 12 bytes that do not decode |
| Limits.NilElement | nvlist/encoder.go:303-307 | Corollary: {name: [nil]} is marshalled without error and decoding it ends in end of file |
| Limits.SwallowedError | nvlist/encoder.go:255-257 | One value, two enumerations that decode differently, both without an error: the member enumerated behind a nested map with an unsupported value is lost, the one before it is not |
| Limits.ReportDependsOnOrder | nvlist/encoder.go:308-312 | The same two bad members are reported in one order and not in the other |
| Limits.NulString | nvlist/encoder.go:258-261 | Corollary: {name: s} comes back as {name: s up to its first NUL}, without an error, so it round-trips if and only if s is NUL-free |
| Limits.NulStringOrder | nvlist/decode.go:93-103 | {a: s, b: true} decodes if b is enumerated first; if s is, then exactly if s has no NUL, or its first NUL is not at a multiple of 8, or the size of the pair of b starts with a zero byte |
| Limits.NulStringWitness | nvlist/decode.go:93-103 | {a: NUL, b: true} in the byte order of Marshal decodes in one enumeration and not in the other |
| Limits.JoinedStrings | nvlist/encoder.go:289-295 | The string array of a NUL and b comes back as ab and an empty string |
| Limits.NulNameOutcome | nvlist/encoder.go:237-238 | Corollary: {name: true} comes back under the name that is read if the padding covers the name, and as InvalidData otherwise, for every name the encoder accepts |
| Reader.UnmarshalBuffer | nvlist/decode.go:35-43 | For all bytes the running decoder terminates without an index out of range and returns what the specification says, error cases included |
| Reader.NvlistReader.ReadNvHeader | nvlist/decode.go:161-199 | Accepts or rejects the header as specified and leaves the cursor at byte 12 |
| Reader.NvlistReader.NextPair | nvlist/decode.go:227-282 | Reads a pair header as specified; on success the list cursor is past the pair and the pair cursor at the value |
| Reader.NvlistReader.ReadPairs | nvlist/decode.go:227-475 | Fills the map specified for the list ahead and leaves the cursor at exactly the bytes the parser leaves |
| Reader.NvlistReader.SetPair | nvlist/decode.go:424-473 | Sets the specified value under the pair's name; nested lists are read from the list cursor |
| Reader.NvlistReader.ReadLists | nvlist/decode.go:463-469 | Reads the lists of an array one after the other |
| Reader.NvlistReader.ReadByte | nvlist/decode.go:61-68 | The byte at the cursor, or an error at the end |
| Reader.NvlistReader.Read | nvlist/decode.go:70-82 | How many bytes are copied, that they are the next ones, and that end of file is already reported by a read up to the last byte |
| Reader.NvlistReader.ReadInt | nvlist/decode.go:157-159 | The integer at the cursor, or the end-of-file error that fits |
| Reader.NvPairReader.ReadByte | nvlist/decode.go:84-91 | Accepts the offset equal to the pair's size, and stays inside the buffer |
| Reader.NvPairReader.ReadBytes | nvlist/decode.go:93-103 | Returns the bytes up to and including the first NUL in the window that ends one byte past the pair, and leaves the window behind it |
| Reader.NvPairReader.ReadN | nvlist/decode.go:105-113 | The next n bytes of the pair or an error |
| Reader.NvPairReader.Read | nvlist/decode.go:115-127 | How many bytes of the pair are copied and which; negative when the cursor is past the pair |
| Reader.NvPairReader.Fill | nvlist/decode.go:129-131 | A full read of k bytes through the pair reader, with the error that io.ReadFull makes of a short one |
| Reader.NvPairReader.ReadInt | nvlist/decode.go:129-131 | The integer at the pair cursor as specified |
| Reader.NvPairReader.SkipToAlign | nvlist/decode.go:134-147 | The pair cursor moves to the next multiple of 8, or of 4 in the other encoding |
| Reader.NvPairReader.ReadRest | nvlist/decode.go:253-282 | The rest of the header as specified, in the order of the code's checks |
| Reader.NvPairReader.ReadValueOf | nvlist/decode.go:299-422 | The value of a pair as specified for every type code |
| Reader.NvPairReader.ReadStrings | nvlist/decode.go:398-404 | Consecutive strings as specified |
| Reader.NvPairReader.ReadBools | nvlist/decode.go:409-421 | Consecutive booleans as specified; any integer but 0 and 1 is an error |
| Reader.DecodeInts | nvlist/decode.go:383-385 | The elements of an integer array |
| Writer.MarshalTree | nvlist/encoder.go:11-22 | For every tree the back-patching writer produces exactly the concatenation that specifies the encoding, or its error |
| Writer.NvlistWriter.WriteNvPairs | nvlist/encoder.go:164-170 | Appends exactly the specified bytes and result; its precondition obliges every caller to have no pair open, except before an array element that follows one outside the domain; on trees of the domain no pair is left open |
| Writer.NvlistWriter.WriteEntries | nvlist/encoder.go:217-316 | The same for the pair loop |
| Writer.NvlistWriter.WriteEntry | nvlist/encoder.go:217-314 | The same for one pass of it |
| Writer.NvlistWriter.WriteSub | nvlist/encoder.go:251-257 | Appends the announcing pair and then the nested list, and drops the nested error; the nested call owes, by its precondition, that the announcing pair is closed |
| Writer.NvlistWriter.WriteLists | nvlist/encoder.go:303-307 | Requires that no pair is open and appends the elements one after the other; each element of a domain array is again written with no pair open |
| Writer.NvlistWriter.WriteSubs | nvlist/encoder.go:296-307 | Appends the announcing pair and then the elements; the element loop requires that the announcing pair is closed |
| Writer.NvlistWriter.EndNvPair | nvlist/encoder.go:134-151 | Needs exactly what its two panics check; pads the pair and changes nothing but the 16 reserved bytes, and those become the header with the pair's own extent |
| Writer.NvlistWriter.Write | nvlist/encoder.go:69-81 | Appends, or in back-patch mode overwrites in place and moves the start on |
| Writer.NvlistWriter.StartNvPair | nvlist/encoder.go:127-132 | Reserves 16 zero bytes and remembers where they are |
| Writer.NvlistWriter.SkipToAlign | nvlist/encoder.go:44-52 | Appends zeros up to the next multiple of 8 counted from the start of the pair |
| Writer.NvlistWriter.WriteString | nvlist/encoder.go:58-67 | Appends the string and a NUL, or what precedes its first NUL and reports failure |
| Writer.NvlistWriter.WriteNvHeader | nvlist/encoder.go:83-99 | The 12 bytes of the buffer header |
| Writer.NvlistWriter.WriteNvlistHeader | nvlist/encoder.go:153-162 | The 24 bytes of an embedded list header |
| Codec.EncodeThenDecode | nvlist/encoder.go:11-22 | The running writer followed by the running reader, with anything behind the list, returns the normal form |
| SendStream.Sender.Read | ioctl/wrappers.go:446-465 | Takes the specified step on the stream's fields and leaves the rest of the buffer alone. Behind the end it returns no bytes and the kept error; peeked bytes come first, with nil; otherwise it returns the pipe's bytes and error, and at the end of the pipe io.EOF for a nil verdict and the verdict itself otherwise |
| SendStream.Sender.Peek | ioctl/wrappers.go:467-482 | The same cases for peek, which keeps the bytes read for the first Reads |
| SendStream.Copy | ioctl/wrappers.go:451 | Copies as much as fits and nothing else |
| SendStream.InvKept | ioctl/wrappers.go:528-548 | Every action of kernel, worker and reader keeps: what was written is what was delivered, then the peeked bytes, then the pipe; one verdict; end of file only on a closed empty pipe |
| SendStream.VerdictReady | ioctl/wrappers.go:456-457 | In every run, when the reader has seen the end of the pipe the one verdict lies in the channel, posting it into the one slot never blocked, and it is received at most once |
| SendStream.NothingLost | ioctl/wrappers.go:450-464 | In every run the reader was given a prefix of what the kernel wrote, and all of it once the end is reported, with the worker's verdict |
| SendStream.EofIsSticky | ioctl/wrappers.go:447-449 | After the end is reported every later Read returns no bytes and the same error, for ever |
| SendStream.ReadReturns | ioctl/wrappers.go:446-464 | What each Read of a run returns that does not meet the end of the pipe: nothing and the kept error behind the end, where all that was written had been delivered; peeked bytes, in order, with nil while there are some; and otherwise the front of the pipe with nil, or no bytes and the pipe's error |
| SendStream.OthersReturn | ioctl/wrappers.go:455-463 | The one other step that returns from a Read receives the one posted verdict; it returns no bytes, and io.EOF for nil; no other step returns from a Read |
| SendStream.FinalErrorIff | ioctl/wrappers.go:455-463 | In every run, a Read returns io.EOF or an error of the ioctl if and only if, when it returns, everything written has been delivered and the verdict was received; it is then io.EOF for a nil verdict and the verdict itself otherwise, and before that every Read returns nil or an error of the pipe |
| SendStream.ResultsLaw | ioctl/wrappers.go:446-465 | In every state of every run the bytes returned so far are those delivered, in order, and all results behind the first final error are equal to it |
| SendStream.PeekReturns | ioctl/wrappers.go:535-548 | The peek of a run takes one byte off the pipe, keeps it and opens the stream, or makes Send return the pipe's error |
| SendStream.RefusalLaw | ioctl/wrappers.go:538-545 | In every run in which Send returns an error nothing was delivered; the error is the pipe's, or nothing was ever written and it is the verdict, io.EOF for nil |
| SendStream.FailFast | ioctl/wrappers.go:539-548 | A stream is handed out only after at least one byte was written |
| SendStream.EofIsTwoActions | ioctl/wrappers.go:456-463 | A Read or peek that meets the end of the pipe is the two actions of seeing it and receiving the verdict: the receive is ready at once, and together they leave the fields and return the error that the method does |
| SendStream.ReadIsAction | ioctl/wrappers.go:446-465 | Every other Read is one action of the system, with the same fields, bytes and error, whatever the channel holds |
| SendStream.PeekIsAction | ioctl/wrappers.go:467-482 | Every other peek is one action, and Send hands out the stream if it returned no error and returns that error otherwise |
| ReceiveStream.Receiver.Write | ioctl/wrappers.go:591-625 | Takes the specified step in place; a record is put into the channel, by reference, exactly when this call fills it, and a full record is not written again. After a failure it returns 0 and the kept error; the whole length and nil if the record takes the buffer; otherwise the missing part of the record plus what the pipe took, with nil exactly if the pipe gave no error and "receiving stream failed" exactly for a broken pipe |
| ReceiveStream.WriteTakes | ioctl/wrappers.go:595-611 | One Write takes in exactly the first n bytes of its buffer, n being the count it returns |
| ReceiveStream.Accounting | ioctl/wrappers.go:591-625 | Over any sequence of Writes, failing ones included, the counts add up to the record pointer plus the bytes the pipe took, and exactly the counted bytes are there in order |
| ReceiveStream.FailureIsSticky | ioctl/wrappers.go:592-594 | After a failure no later Write changes anything or takes a byte, and each returns 0 and the kept error |
| ReceiveStream.StepAnswers | ioctl/wrappers.go:608-624 | Every step returns a count and an error of that kind, and keeps the error it returned |
| ReceiveStream.WritesReturn | ioctl/wrappers.go:591-625 | What Write j of any sequence returns, in terms of the buffers, the room in the record and the pipe's answers alone: nil if and only if no pipe write up to it failed; up to the first failure the whole length, or what the record was missing plus what the pipe took; at that failure "receiving stream failed" exactly for a broken pipe; behind it 0 and the same error |
| ReceiveStream.CleanWritesTakeAll | ioctl/wrappers.go:608-624 | Without errors every byte offered is taken, whatever the chunking |
| ReceiveProtocol.RunInv | ioctl/wrappers.go:628-677 | The invariant of the protocol in every state of every run |
| ReceiveProtocol.NothingBlocks | ioctl/wrappers.go:604-606 | No send on the two-slot record channel and no verdict on the one-slot channel blocks, and after WaitAndClose has sent its item the worker finds one |
| ReceiveProtocol.FirstItem | ioctl/wrappers.go:660-664 | The worker's first item is the full record if and only if the stream took at least 312 bytes, and it then is the first 312 of them; otherwise it is empty |
| ReceiveProtocol.OneVerdict | ioctl/wrappers.go:661-673 | At most one verdict is posted, and it is the one WaitAndClose returns; without a record it says so |
| ReceiveProtocol.RecordFrozen | ioctl/wrappers.go:595-606 | From the moment it is complete, and so handed over, the record never changes |
| ReceiveProtocol.PanicIff | ioctl/wrappers.go:605 | A Write panics if and only if WaitAndClose has returned, no error is kept and the Write completes the record |
| ReceiveProtocol.PanicHappens | ioctl/wrappers.go:628-635 | There is such a run, for every buffer of at least 312 bytes written after WaitAndClose |
| ReceiveProtocol.TakenIsOffered | ioctl/wrappers.go:591-625 | In every run in which the pipe takes what it is offered, record and pipe hold exactly the bytes of all Writes, in order |
| ReceiveProtocol.SuppliedRecordIsLost | ioctl/wrappers.go:638-664 | With a begin record supplied in the options, every finished receive has failed for want of data |
| ReceiveProtocol.SuppliedRunFinishes | ioctl/wrappers.go:638-664 | There is such a finished receive |
| Transfer.SendToReceive | ioctl/wrappers.go:446-625 | For every run of the sender and every chunking by kernel, pipe, reader and copier without errors, record plus receive pipe is a prefix of what the sender wrote, and all of it, split at byte 312, once the end is reported |
| Transfer.EndToEnd | ioctl/wrappers.go:446-677 | For every run of the sender and every run of a receive joined to it: the item the worker starts from is the first 312 bytes the sender's kernel wrote exactly if the caller was given as many, and the pipe then gets the others |
| NameBuffer.NameRoundTrip | ioctl/wrappers.go:138-159 | A NUL-free string that fits is read back if and only if the buffer holds a NUL right behind it |
| NameBuffer.ReadBack | ioctl/wrappers.go:148-159 | What is read back in any case, and that the bytes behind the string are untouched |
| NameBuffer.WrittenAt | ioctl/wrappers.go:148-159 | Byte by byte: the string is copied up to its first NUL if there is room for it and one byte more, and nothing else changes |
| NameBuffer.StringToDelimitedBuf | ioctl/wrappers.go:148-159 | The exact contents of the buffer afterwards, on all three outcomes |
| NameBuffer.DelimitedBufToString | ioctl/wrappers.go:138-146 | The longest front of the buffer without a NUL |
| Ioctl.NvlistIoctl | ioctl/ioctl.go:15-69 | For every kernel: at most five calls are made, all but the last were answered ENOMEM (12), and each is announced as stated for BuildCall, from the caller's own command. If the last reply is not ENOMEM the caller's command becomes the one it left and the result is its errno; nothing if no response is wanted; and otherwise what the reply buffer decodes to, in particular the normal form of a marshalled value of the domain at its front exactly if that fits. If not, the command is as before, and the loop gave up after five calls or could not marshal |
| Ioctl.BuildCall | ioctl/ioctl.go:28-46 | Attempt k: source and its size are the marshalled request, which decodes to what the request means, if there is one; configuration and its size likewise; destination is the reply buffer of 8192 * 8^k bytes if a response is wanted; every field for which nothing was given, and the rest, is the caller's; the name is copied. There is no call exactly if the configuration cannot be marshalled |
| Ioctl.RetryBound | ioctl/ioctl.go:24-59 | The literal form of that contract follows from the promise that the loop keeps |
| Ioctl.AttemptAnnounces | ioctl/ioctl.go:32-46 | Request, configuration and reply buffer are announced in their own fields with their own sizes |
| Ioctl.AnswerConcludes | ioctl/ioctl.go:58-68 | What the caller gets for the reply that is not ENOMEM, without a word on how it is computed; a reply that decodes by itself and fits is decoded as such |
| Ioctl.ScribblesInvisible | ioctl/ioctl.go:26-28 | Two kernels that differ only in what they leave behind while answering ENOMEM see the same calls and cause the same result |
| Ioctl.ReplyDecodesIff | ioctl/ioctl.go:65-67 | A marshalled value at the front of what the kernel writes is understood if and only if it fits into the reply buffer, whatever follows it in the oversized buffer |

## Left out

- Decoding into structs and typed maps: a struct target does not consume nested lists it has no field for, and panics on list arrays (`nvlist/decode.go:425-431`, `nvlist/decode.go:457-458`).
- The map that is left partly filled when decoding fails: the model returns only the error.
- The meaning of the encoding called XDR as a whole, which the code supports in part; it is covered by the laws of `WireDecode` on single pairs, and by totality, locality and the resource bound.
- Wire.LeafLayout: leaves out names and strings with a NUL, and pairs of 4 GiB and more, whose size wraps around; what NULs do is `Values.ReadLeafPlain` and `Outcome.DecodeOutcome`.
- The laws of `WireDecode` on type numbers are stated for a list of one pair; several pairs are `RoundTrip.EntriesRoundTrip`.
- Go reflection: pointers to pointers, `[]interface{}`, arrays of pointers to anything but maps and structs, maps with keys that are not strings, unexported fields. A pointer or interface is the value it points to, or nil; a nil element of a list array is a nil pointer in it.
- The writer first collects names and values and then writes them; the model selects and writes in one pass, which cannot be told apart because selecting entries cannot fail here.
- Outcome.DecodeOutcome: leaves out names that are neither covered by their padding nor longer than their pair, where the reader takes bytes of the value for the name, and pairs of 4 GiB and more, whose size wraps around.
- Exactness.RoundTripIff: leaves out these too, values with an error swallowed inside, whose outcome is `Swallowed.SwallowedOutcome`, and structs in which two kept fields share an effective name.
- Swallowed.SwallowedOutcome: says nothing of what comes back if more than four lists are open at the bad member, because the bytes of its name are then taken for a pair, or if its name was too long and more is written behind it.
- Exactness.OrderHiddenIff: asks that the members of the map are consistent themselves, so a clash of names inside a member is judged at its own level.
- Ioctl.NvlistIoctl: decodes replies into an empty interface only, because struct targets are not modelled.
- The buffer of the writer is a sequence that is reassigned; capacity and aliasing of Go slices are not modelled.
- The elapsed cost of the byte loops, and memory exhaustion.
- Close on a send stream, and what a kernel write into a pipe without a reader does.
- Progress of the kernel: that the ioctl of a worker returns is not claimed, only that nothing else blocks.
- Two concurrent Writes or more than one WaitAndClose on a receive stream.
- The verdict made of a decoded `ReceiveError` (`ioctl/wrappers.go:665-673`): a verdict is any value.
- System calls, file descriptors, unsafe pointers and `Init`; an address is an arbitrary number.
- The thin wrappers in `ioctl/wrappers.go` that fill a command and make one call, `ioctl/types.go`, tracing, test helpers and the fuzz entry point: field assignments, declarations and harness code.
