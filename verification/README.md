# Ostadix: verified models of its state, wire and release code

This project models the Python half of Ostadix in Dafny and proves what that code promises about
moving state between processes, reading its own source language, and accepting release evidence.
`dafny verify dfyconfig.toml` checks all of it.

## What is modelled

- **Checkpointed Python state.** `PyHeap`, `GraphEncoder`, `GraphOrder`, `GraphDecoder`, `GraphTables`,
  `GraphTheorems`, `GraphCodec` and `Actor` model the identity-preserving graph codec and the globals that are
  checkpointed and restored. A Python heap is a sequence of containers, identity is the index, and a value is a
  scalar, a reference or an unsupported object. The encoder and decoder are classes that grow `nodes` and `memo` and
  fill `objects` as the source does, proved against functions about which the theorems are stated. `Decimal` is the
  chunked big-integer text.
- **The wire.** `Utf8`, `Cbor`, `CborTheorems`, `CborGrammar`, `Floats` and `Wire` model the CBOR encoder, the
  offset-advancing decoder and length-prefixed frames over a stream that may split its reads anywhere. `Envelope` is
  the checkpoint envelope. `Base64`, `GraphWire`, `GraphReads` and `GraphWireTheorems` write a checkpoint payload as
  wire data and read it. `Arrival` says what an actor is after the trip, and `ActorWire` carries one from checkpoint
  to restore across all of these layers in one theorem.
- **The plain-data contract.** `PlainData`, `PlainDataTheorems` and `NativeWitness` model the exact witness of native
  values and the input law that admits wire values.
- **The evidence ledger.** `Ledger` says, without reference to order or tables, which ledgers are accepted, and
  `LedgerTheorems` what acceptance promises; `LedgerValidator` is the validator loop by loop, proved to decide it.
- **The source language.** `Syntax` gives parsing as a function of the text still to be read, `Parser` is the
  position-advancing parser, `Tokens` says what it takes each character for, `SourcePieces` relates a source to its
  reconstruction piece by piece, `Reparse` proves that rewriting never changes what lookahead sees, and `Escapes` what
  consumed escapes do. `Rereading` says exactly when a reconstruction is read back, and `EscapeScan` says it again of
  the source, escape by escape. `Evaluation`, `EvaluationTheorems` and `Evaluator` model evaluation over backends
  given as functions.
- **Offline kits.** `Separated`, `KitPaths`, `KitTree`, `KitOrder`, `OfflineKit`, `OfflineKitTheorems`, `KitArchives`
  and `OfflineKitBuilder` model payload trees, their archives, validation, extraction and seals, which digest the
  canonical JSON of `Json`.
- **Object handles.** `Json`, `JsonText`, `Handles`, `HandleTheorems` and `NativeObjects` model the owner-process
  handle store and the canonical JSON that seals its descriptors.

Each file holds the module of its name. `Wrappers` holds the shared results, and `Ordering` the byte and code-point
orders everything is sorted by.

## Choices

- SHA-256 is a parameter, a function of bytes. What is kept is kept for every such function; that a changed value
  changes its digest is stated for one that tells the two values apart (`NoCollision`), and for the kit seals the
  contents and record lists compared (`TellsApart`). That a checkpoint is made at all needs a digest of 64 lower-case
  hexadecimal characters, which `hexdigest` returns (`LowerHex`, `HexDigest`).
- Opaque values and quoted expressions are taken as their constructors make them: a dict with a `t` key, and a text.
  The bindings of a scope may have been reassigned to any value; `BrokenScope` says which of them decoding refuses.
- Object identity is an index into the heap, so `id` and `is` are equality of indices. Python's `==` and hashing
  on dict keys follow identity or equality through nested tuples. Equality of scalars is an arbitrary parameter, which
  the end-to-end theorems take to tell opaque values apart, as Python does: `OOpaqueValue` defines no equality, and
  every record is read into a new object.
- Floats are their eight bytes; a four-byte float on the wire is widened to the double it denotes.
- Backends are a record of functions: an initial environment, what running a body does to a value and an
  environment, and how a value is spliced into a parent. A stored environment is shared by name, so a parent sees
  what its children did to it.
- Parsing takes Python's classes of non-ASCII characters as a parameter; ASCII is written out.
- The token source of the handle store is a function from draw to token, each of 64 hexadecimal digits. The theorems
  use only what the drawing loop ensures, that a token is not in use when drawn; `RevivedExactly` says what a token
  drawn again later does.
- The walk of a payload tree takes directory entries in any order, as `os.scandir` returns them.

## Where the code does not do what one would expect

- The plain-data law does not make wire forms unique: Python's `False == 0` lets a boolean stand for a byte of
  a float. `BooleanBitsAdmitted` gives the value, and `OneWireForm` says exactly when the form is unique.
- Byte strings come back from the wire as integer lists, so a value is re-encoded to its own bytes exactly when it
  holds none (`ReencodedExactly`). A graph checkpoint can hold one, inside an opaque value (`OpaqueBytes`), and is then
  rejected where it arrives, unless the digest collides (`CheckpointSurvivesWire`).
- A consumed escape is not written back by `reconstruct_source`, so its output need not parse to the same tree;
  `ReparsesIff` says exactly when it does, and `ReparsesIffHarmless` which escapes decide it. If the first consumed
  escape guarded a closing tag it does not (`EscapedCloserChanges`), unless an escaped opener stands right behind it
  (`EscapedCloserBeforeOpener`). An escaped opener may make no difference (`EscapedOpenerAfterWord`).
- `_safe_relative` accepts `.`; nothing else that is not a joined list of good components (`SafeExactly`).
- The implicit root of a document is a text block with a fresh environment; the docstring of `evaluate_document`
  speaks of environment 0.
- An archive written under a prefix of several components is rejected by the validator (`WrittenValid`).

## Model

| member | source | states |
|---|---|---|
| `GraphTheorems.RoundTrip` | backends/python_shim.py:656-866 | For every heap Python can hold and any roots whose encoding succeeds, decoding the payload gives an isomorphic heap: one bijection on reachable containers keeps kind, order, contents and sharing across all roots; refused exactly for a cycle made of tuples alone or, without one, for a scope whose bindings are no dict or whose wire bindings are neither a dict nor `None` |
| `GraphTheorems.EncodeAgain` | backends/python_shim.py:656-866 | Where decoding succeeds, encoding the decoded heap gives the identical roots and node table |
| `GraphTheorems.CycleIffHeapCycle` | backends/python_shim.py:711-758 | The node table has a tuple-only cycle exactly when the encoded part of the heap has one |
| `GraphTheorems.FillDictImage` | backends/python_shim.py:851-855 | Filling a dict from its record restores its pairs in order, because distinct keys stay distinct under the renaming |
| `GraphEncoder.EncodeValueInv` | backends/python_shim.py:661-758 | A finished traversal has numbered containers without gaps and recorded exactly the image of each finished container |
| `GraphEncoder.EncodedTable` | backends/python_shim.py:656-758 | The payload is exactly the image of the reachable graph under the memo |
| `GraphEncoder.CanonicalForm` | backends/python_shim.py:656-758 | Isomorphic heaps encode to the identical roots and node table |
| `GraphEncoder.NumbersReachable` | backends/python_shim.py:661-758 | The containers numbered are exactly those reachable from the roots |
| `GraphEncoder.RefusedExactly` | backends/python_shim.py:703-709 | Encoding is refused exactly when an unsupported object is reachable |
| `GraphOrder.NumberedInOrder` | backends/python_shim.py:711-758 | Every payload numbers its containers depth first and from left to right: a reader of the payload who follows each new reference as it stands meets the numbers 0, 1, 2 and so on, each once |
| `GraphDecoder.TupleCycleExactly` | backends/python_shim.py:762-845 | On every readable node table the decoder raises the tuple-cycle error exactly when some reference cycle passes through tuples only, and otherwise builds every tuple node exactly once, after the tuples it holds |
| `GraphDecoder.DecodedClosed` | backends/python_shim.py:761-866 | Whatever the payload, a decoded heap and its roots refer only to decoded containers |
| `GraphTables.DecodeExactly` | backends/python_shim.py:762-866 | On every node table and every list of roots, whoever wrote them: the decoder accepts exactly when every record has the shape of its kind and can be read, no tuples lie in a cycle, no dict key leads through tuples to a list, dict or bytearray, and every scope holds its dicts; it then returns every record in its place, and otherwise reports a fault the payload has |
| `GraphTables.UnhashableExactly` | backends/python_shim.py:851-855 | A key is refused exactly when it is a list, dict or bytearray, or a chain of tuples leads from it to one |
| `GraphTables.EqualExactly` | backends/python_shim.py:851-855 | Two keys are one exactly when they are equal scalars, the same container, or tuples of the same length whose items are pairwise one |
| `GraphTables.PutReplaces` | backends/python_shim.py:851-855 | Assigning to an equal key replaces its value and leaves the first key in its place |
| `GraphTables.PutAppends` | backends/python_shim.py:851-855 | Assigning to a new key appends it |
| `GraphTables.FilledAs` | backends/python_shim.py:847-866 | What every accepted record holds: its items as read, in order, its bytes, or its pairs assigned one after another |
| `GraphTables.FillDictSteps` | backends/python_shim.py:847-855 | Pairs are assigned one after another, each into the dict as the earlier ones left it |
| `GraphTables.DenoteExactly` | backends/python_shim.py:783-821 | What each value record stands for: a number in any decimal text of it, floats of exactly eight bytes, a tagged opaque dict, a node that exists |
| `GraphCodec.Encoder.Encode` | backends/python_shim.py:661-709 | The encoder object computes the specified record and state for every value |
| `GraphCodec.Encoder.EncodeNode` | backends/python_shim.py:711-758 | A container already numbered is a reference; otherwise it is numbered before its contents are written |
| `GraphCodec.Encoder.EncodeAll` | backends/python_shim.py:719-741 | Items are encoded in order against one shared memo |
| `GraphCodec.Decoder.Decode` | backends/python_shim.py:783-821 | The decoder object reads a record as specified, building the tuples it needs |
| `GraphCodec.Decoder.Materialize` | backends/python_shim.py:823-840 | A tuple is built once; meeting one still under construction is the tuple-cycle error |
| `GraphCodec.Decoder.DecodeAll` | backends/python_shim.py:835-835 | The items of a tuple are decoded in order, stopping at the first failure |
| `GraphCodec.Decoder.Finish` | backends/python_shim.py:842-866 | Both loops together leave exactly the specified heap, or fail exactly when it is not defined |
| `GraphCodec.Decoder.FinishTuples` | backends/python_shim.py:843-845 | The first loop builds every tuple or reports the specified failure |
| `GraphCodec.Decoder.FinishOthers` | backends/python_shim.py:846-866 | The second loop fills every other container as specified |
| `GraphCodec.Decoder.FillOne` | backends/python_shim.py:847-866 | The contents of one list, dict, bytearray or scope, with the shape checks on scopes |
| `GraphCodec.Decoder.FillEntries` | backends/python_shim.py:851-855 | Dict entries are assigned in order; an equal key keeps its place and takes the later value |
| `GraphCodec.Decoder.ReadAll` | backends/python_shim.py:849-850 | Once every tuple exists, decoding only reads |
| `Actor.RestoreReproduces` | backends/python_shim.py:869-959 | Restoring a checkpoint onto the baseline gives exactly the checkpointed names but `__builtins__`, values isomorphic under one bijection, overrides and deletions included, and checkpointing again gives the identical payload; refused exactly for a tuple-only cycle or else a scope holding something other than its dicts, each with its own error |
| `Actor.RestoredExactly` | backends/python_shim.py:889-957 | For every payload, whoever wrote it: it is restored exactly when profile and ambient fingerprint are the expected ones, no global is reserved or repeated, every deleted name is in the baseline and the graph has no fault; the environment is then exactly its globals and the baseline without what it deleted; otherwise the refusal names what is wrong, profile first and ambient second |
| `Actor.CleanIsBaseline` | backends/python_shim.py:647-653 | An actor is clean exactly when its environment is the baseline, `__builtins__` aside |
| `Actor.ReplacementReproduces` | backends/python_shim.py:952-957 | Baseline minus deletions plus restored globals is the checkpointed environment |
| `Actor.SameNames` | backends/python_shim.py:872-879 | A restored actor keeps, skips and deletes the same names when checkpointed again |
| `Actor.PythonActor.UserGlobalsAreClean` | backends/python_shim.py:647-653 | Both loops together decide cleanness |
| `Actor.PythonActor.KeptNames` | backends/python_shim.py:872-878 | The names not skipped, of any two the one first whose first character that differs is smaller |
| `Actor.PythonActor.EncodeGlobals` | backends/python_shim.py:869-886 | Encodes the kept names in order with one encoder and lists the deleted baseline names, or is refused |
| `Actor.PythonActor.DecodeGlobals` | backends/python_shim.py:889-910 | Computes the restoration characterised by `RestoredExactly`, with its error |
| `Actor.PythonActor.Restore` | backends/python_shim.py:941-957 | The part of `handle_restore` after its envelope checks: succeeds exactly on a clean actor and a payload with nothing wrong in it, to exactly its globals and the baseline without what it deleted; a conflict is reported before anything about the payload, and any refusal leaves the environment and its containers unchanged |
| `ActorWire.HandleRestore` | backends/python_shim.py:938-957 | Takes a checkpoint dict over exactly when it validates, the actor is clean, it is for this runtime and its payload decodes; a dict of another backend, tier, codec or runtime binding, with external resources, or whose payload names another profile or ambient fingerprint is refused; a refusal changes nothing, and an invalid checkpoint is reported before a conflict |
| `ActorWire.AcceptsExactly` | backends/python_shim.py:889-957 | Of every dict, whoever wrote it: it is taken over exactly when it validates, the actor is clean, it carries the literal backend, tier and codec and this runtime binding without resources, and its payload says something that can be restored |
| `ActorWire.ActorSurvivesWire` | backends/python_shim.py:869-959 | Checkpoint, seal, frame, read and restore, for every actor whose checkpoint fits a frame, under a digest of lower-case hexadecimal text: refused with its own error when reached tuples lie in a cycle or else a reached scope holds something other than its dicts; otherwise the restored actor has the checkpointed names with values isomorphic to the checkpointed ones up to the content of opaque values as the wire carries it, checkpoints to the payload it was restored from, and writes the very bytes of the first checkpoint when no reached opaque value holds a byte string |
| `ActorWire.CheckpointSurvivesWire` | backends/python_shim.py:869-950 | `make_checkpoint` does return the checkpoint of every payload in range; the reader reads its payload back up to opaque values and finds the checkpoint compatible; it validates, and both digests stand, exactly when no reached opaque value holds a byte string (the one direction for every digest, the other for a digest that tells the two payloads apart) |
| `ActorWire.AcceptedExactly` | backends/python_shim.py:938-951 | Another process of the same runtime takes the checkpoint over exactly when it is clean, no reached opaque value holds a byte string, no reached tuples lie in a cycle and every reached scope holds its dicts |
| `Arrival.CheckpointArrived` | backends/python_shim.py:661-886 | Checkpointing an actor whose opaque values have crossed the wire gives the payload whose opaque values have, with the same numbering |
| `Arrival.EncodeArrivedValue` | backends/python_shim.py:661-758 | The encoder takes the same steps whatever opaque values contain |
| `Arrival.ArrivedActor` | backends/python_shim.py:113-127 | An actor whose opaque values have crossed the wire is again one the codec supports: opaque values keep their tag and keys stay distinct |
| `GraphWireTheorems.PayloadCrosses` | backends/python_shim.py:880-910 | Every payload the encoder writes, sent and read as wire data, is the same payload but for the content of opaque values, which arrives as the wire carries it |
| `GraphWireTheorems.NodeCrosses` | backends/python_shim.py:711-758 | Every node record crosses the wire unchanged up to opaque values |
| `GraphWireTheorems.EncCrosses` | backends/python_shim.py:661-702 | Every value record crosses the wire unchanged, byte strings through base64 and floats through byte lists; an opaque value arrives with its dicts in wire order and its byte strings as integer lists |
| `GraphWireTheorems.PayloadBytesFree` | backends/python_shim.py:661-758 | A payload dict holds a raw byte string exactly when an opaque value in it does |
| `GraphWireTheorems.OpaqueBytes` | backends/python_shim.py:113-127 | `OOpaqueValue({"t": "x", "v": b"\x07"})` is accepted, puts a raw byte string into the payload, and is not read back as it was |
| `GraphWireTheorems.RewrittenAlike` | backends/python_shim.py:880-886 | A payload without byte strings, received and written again, is the same bytes |
| `GraphWireTheorems.CheckpointWritten` | backends/python_shim.py:869-886 | Every checkpoint of an actor consists of readable records, and holds a raw byte string exactly when an opaque value reached from the checkpointed names does |
| `GraphReads.EncExactly` | backends/python_shim.py:783-821 | A dict is read as a value record exactly when its kind and fields spell that record; other keys are ignored |
| `GraphReads.NodeExactly` | backends/python_shim.py:762-866 | A dict is read as a container exactly when it spells one, item by item and pair by pair; a missing list is an empty one |
| `GraphReads.PayloadExactly` | backends/python_shim.py:889-910 | A dict is read as a payload exactly when it says everything the payload does |
| `Base64.DecodeExactly` | backends/python_shim.py:797-798 | Base64 with validation accepts exactly the spellings of a byte string, whatever the unused bits of the last symbol |
| `Base64.SymbolExactly` | backends/python_shim.py:797-798 | The symbols are the alphabet of section 4 of RFC 4648, in its order |
| `Decimal.ParseFormat` | backends/python_shim.py:46-72 | parse(format(n)) = n for every integer |
| `Decimal.FormatParse` | backends/python_shim.py:46-72 | format(parse(s)) = s exactly for the decimal texts without leading zeros or negative zero |
| `Decimal.FormatInjective` | backends/python_shim.py:60-72 | Different integers have different texts |
| `Decimal.TextSplit` | backends/python_shim.py:66-71 | Splitting a number at any power of ten splits its digits, the low part zero-padded |
| `Decimal.ParseChunked` | backends/python_shim.py:53-57 | For every chunk size, the chunk loop computes the number the digits denote |
| `Decimal.FormatChunked` | backends/python_shim.py:64-72 | For every chunk size, the two loops write the shortest digits of the number |
| `Decimal.DecimalTextToInt` | backends/python_shim.py:46-57 | The 256-digit parser refuses exactly the malformed texts and otherwise returns the number |
| `Decimal.IntToDecimalText` | backends/python_shim.py:60-72 | The 256-digit formatter writes the shortest decimal text |
| `PlainDataTheorems.AdmittedExactly` | backends/python_shim.py:1011-1064 | The input law admits a wire value exactly when it spells a plain native tree at most 64 levels deep, and converts it to that tree |
| `PlainDataTheorems.InputExactly` | backends/python_shim.py:1011-1037 | The input conversion alone, before the comparison and on its own for native arguments: it returns a tree exactly when the wire value reads as that tree (other keys ignored, an integer absent, on the wire or in any decimal text of it, the content of a text record taken whatever it holds) and the tree is plain and at most 64 levels deep |
| `PlainDataTheorems.ComparisonNarrows` | backends/python_shim.py:1057-1064 | The comparison after the conversion keeps, of what converts, exactly the spellings of the same tree |
| `PlainDataTheorems.WitnessAdmitted` | backends/python_shim.py:965-1064 | The witness of every plain tree within the limit is admitted and converts back to it |
| `PlainDataTheorems.OneWireForm` | backends/python_shim.py:965-1064 | Up to dict order a spelling of a tree is its witness exactly when no boolean stands among the bytes of a float |
| `PlainDataTheorems.BooleanBitsAdmitted` | backends/python_shim.py:1057-1064 | One admissible form per value fails: 1.0 is also admitted with `False` for a zero byte, because `False == 0` |
| `PlainDataTheorems.WitnessedExactly` | backends/python_shim.py:965-1008 | A native value is witnessed exactly when it is plain, at most 64 levels deep, and no container in it is shared or cyclic; the witness is then what stands there, item by item and entry by entry |
| `PlainDataTheorems.WitnessReadmitted` | backends/python_shim.py:965-1038 | Whatever is witnessed on the way out is admitted on the way in, as itself |
| `PlainDataTheorems.ObservedUnshared` | backends/python_shim.py:992-1008 | Observation succeeds only if every container below was met once |
| `PlainDataTheorems.WithinExactly` | backends/python_shim.py:971-972 | A tree is within the depth limit exactly when it nests at most 64 deep |
| `PlainDataTheorems.RawExactly` | backends/python_shim.py:1026-1027 | The content of a text record is taken as it is: exactly the native form of the wire value, whatever it holds |
| `PlainDataTheorems.BytesExactly` | backends/python_shim.py:419-422 | What `bytes` makes of the bits of a float: a list byte by byte, booleans as 0 and 1, or a number of zero bytes |
| `Floats.FiniteExactly` | backends/python_shim.py:980-982 | A float is finite exactly when the eleven bits of its exponent are not all ones |
| `NativeWitness.Witness.Observed` | backends/python_shim.py:965-1008 | The recursion over one mutable set of identities returns the specified witness and leaves the specified set |
| `NativeWitness.Witness.ObservedAll` | backends/python_shim.py:998-1008 | Children are observed in order against the same set |
| `CborTheorems.RoundTrip` | backends/o_shim_common.py:130-247 | For every in-range text-keyed value and whatever bytes follow, decoding its encoding gives the value (byte strings as integer lists) and stops exactly at its end |
| `CborTheorems.DecodeEncode` | backends/o_shim_common.py:143-254 | The top-level decoder inverts the encoder |
| `CborTheorems.PrefixFree` | backends/o_shim_common.py:143-247 | No encoding is a proper prefix of another, and values with equal encodings are read alike |
| `CborTheorems.InsertionOrderIrrelevant` | backends/o_shim_common.py:163-172 | A dict encodes the same whatever order its entries were inserted in |
| `CborTheorems.EncodeNorm` | backends/o_shim_common.py:143-247 | For values without byte strings, re-encoding what was decoded reproduces the bytes |
| `CborTheorems.EncodeCanonical` | backends/o_shim_common.py:143-247 | Two values without byte strings encode alike exactly when they decode alike |
| `CborTheorems.ReencodedExactly` | backends/o_shim_common.py:143-247 | Re-encoding what was decoded reproduces the bytes exactly when no byte string occurs anywhere in the value |
| `CborTheorems.NormTwice` | backends/o_shim_common.py:143-247 | What a reader holds it would send and read back unchanged |
| `CborTheorems.BytesAreNotKept` | backends/o_shim_common.py:156-157 | The smallest case: a one-byte string is read as a list and re-encodes differently |
| `CborTheorems.DecodedSize` | backends/o_shim_common.py:176-247 | On every byte string the decoder fails or returns a value with no more objects than bytes consumed, whatever lengths are declared |
| `Utf8.DecodeEncode` | backends/o_shim_common.py:158-160 | Strict UTF-8 decoding inverts encoding for every text |
| `Utf8.EncodeInjective` | backends/o_shim_common.py:158-160 | Different texts have different encodings |
| `CborTheorems.HeadRoundTrip` | backends/o_shim_common.py:130-209 | Every head reads back as the same major type and number, wherever it stands |
| `CborGrammar.DecodeExactly` | backends/o_shim_common.py:176-247 | On every byte string and at every place: the decoder returns a value and an end exactly when a spelling of that value stands there up to that end, in definite lengths with heads of any width, floats of four or eight bytes, strict UTF-8 and text keys |
| `CborTheorems.MostSignificantFirst` | backends/o_shim_common.py:130-140 | Numbers on the wire have their most significant byte first |
| `Utf8.CharExactly` | backends/o_shim_common.py:158-160 | The bytes of a character are those of the table in section 3 of RFC 3629 |
| `CborGrammar.AssignedSnoc` | backends/o_shim_common.py:226-233 | Decoding a dict assigns entry by entry: a key keeps the place of its first entry and the value of its last |
| `CborGrammar.HeadShortest` | backends/o_shim_common.py:130-140 | Of all heads that read as the same type and number the encoder writes the shortest |
| `CborGrammar.ShorterKeysFirst` | backends/o_shim_common.py:163-172 | The entries of every dict go out, and arrive, by the length of their encoded key and then by the first byte that differs |
| `Floats.WidenKeepsValue` | backends/o_shim_common.py:240-241 | A four-byte float, normal or subnormal, is read as the eight-byte float of the same sign and the same real value |
| `Floats.WidenKeepsSpecial` | backends/o_shim_common.py:240-241 | Infinities stay infinities, and what is not a number stays so |
| `Ordering.LexExactly` | backends/o_shim_common.py:168-168 | What decides the order of byte strings and texts is their first difference, or which ends first |
| `Ordering.NamesInOrder` | backends/python_shim.py:872-879 | Sorted names stand in the order in which Python compares texts |
| `Wire.Decoder.Read` | backends/o_shim_common.py:185-191 | Advances by exactly the bytes returned, or fails without moving past the end |
| `Wire.Decoder.ReadLength` | backends/o_shim_common.py:196-209 | Reads the number after an initial byte as specified; indefinite and reserved forms fail |
| `Wire.Decoder.Decode` | backends/o_shim_common.py:211-247 | The offset-advancing decoder reads exactly the value specified at its position and stops where specified |
| `Wire.Decoder.DecodeSimple` | backends/o_shim_common.py:234-245 | Booleans, null and both float widths; any other simple value fails |
| `Wire.Decoder.DecodeList` | backends/o_shim_common.py:224-225 | The declared number of items in order, or failure |
| `Wire.Decoder.DecodeMap` | backends/o_shim_common.py:226-233 | The declared number of text-keyed entries, later duplicates overwriting in place, or failure |
| `Wire.DecodePayload` | backends/o_shim_common.py:250-254 | Succeeds exactly when one value fills the payload |
| `Wire.FramesReadBack` | backends/o_shim_common.py:263-296 | Messages within the size limit written back to back are read back in order, then whatever the rest comes to |
| `Wire.CleanEnd` | backends/o_shim_common.py:263-296 | A stream that ends between frames ends cleanly after exactly the messages sent |
| `Wire.CutStreamFails` | backends/o_shim_common.py:263-288 | A stream cut inside a frame yields the messages before it and then fails |
| `Wire.NextExactly` | backends/o_shim_common.py:277-288 | Off every stream: a message exactly when a frame of at most 128 MiB around a decodable payload stands at its front, a clean end exactly when nothing does, otherwise a failure |
| `Wire.ReadExact` | backends/o_shim_common.py:263-274 | The outcome depends on the bytes to come, not on how the stream splits them: all, a clean end, or a failure |
| `Wire.ReadMessage` | backends/o_shim_common.py:277-288 | Reads exactly the next message as specified from the bytes to come, and leaves the rest |
| `Wire.WriteMessage` | backends/o_shim_common.py:291-296 | Appends one frame, or raises with nothing written |
| `Envelope.ValidatesAcrossWire` | backends/o_shim_common.py:343-427 | A checkpoint without byte strings validates where it arrives exactly when it validates where it was made, with the same payload and checkpoint digests |
| `Envelope.MadeExactly` | backends/o_shim_common.py:364-381 | `make_checkpoint` returns exactly when the payload can be encoded, its digest is lower-case hexadecimal, the tier is one of the three, backend and codec are not empty, the binding is 64 hexadecimal digits, every resource has its three texts and there are resources exactly for the pinned tier; what it returns has the literal schema and protocol and everything it was given, under its own key |
| `Envelope.ValidatesExactly` | backends/o_shim_common.py:384-427 | The validator accepts a dict exactly when it is such a checkpoint in any order of its keys, its digest in capitals or not, and an empty resource list written out or not |
| `Envelope.CheckpointCrossesWire` | backends/o_shim_common.py:277-381 | What `make_checkpoint` returns, for everything it accepts, framed, sent and read: the fields and the recorded digest arrive; it validates exactly when its payload has no byte string in it, and its own digest stands exactly when neither payload nor resources have (the only-if direction for a digest that tells the two apart) |
| `Envelope.ValidArrivesExactly` | backends/o_shim_common.py:384-427 | The same for every checkpoint that validates where it was made |
| `Envelope.DigestKept` | backends/o_shim_common.py:343-350 | The digest of a value survives the wire exactly when it has no byte string in it, for a digest without a collision between the two |
| `Envelope.FieldNorm` | backends/o_shim_common.py:384-427 | A reader finds under each key what the writer put there, as the wire shows it |
| `Envelope.KeysOnly` | backends/o_shim_common.py:392-394 | The keys present are the keys that can be looked up |
| `LedgerTheorems.OneHead` | scripts/build_source_release.py:3467-3572 | Every attestation of an accepted ledger leads, without repetition and within its gate, along one chain to exactly one end: a retraction or one active attestation |
| `LedgerTheorems.ChainsDisjoint` | scripts/build_source_release.py:3502-3517 | Supersession chains do not merge: of two that meet, one is the end of the other |
| `LedgerTheorems.SameGate` | scripts/build_source_release.py:3490-3499 | Every attestation along a chain has the gate of the first |
| `LedgerTheorems.RunsBackwards` | scripts/build_source_release.py:3534-3547 | The claim deltas of an accepted rederivation, undone from the last to the first, give back the recorded claims |
| `LedgerTheorems.RederivationUnique` | scripts/build_source_release.py:3475-3560 | The rederivations of an attestation form one simple path in one way only |
| `LedgerTheorems.OrderIrrelevant` | scripts/build_source_release.py:3445-3572 | Acceptance is the same for every ordering of the events |
| `LedgerTheorems.ActiveProven` | scripts/build_source_release.py:3519-3572 | Every attestation that nothing has ended is of schema 3 or pinned, and all its rederivations, one after another, lead from its own derivation to the released one and from its recorded claims to its current ones |
| `LedgerTheorems.WitnessGrounded` | scripts/build_source_release.py:3456-3473 | Every witness names one event that is no witness, with its digest, and that event concerns an attestation of the ledger |
| `LedgerTheorems.RecordsApart` | scripts/build_source_release.py:3448-3453 | No record of an accepted ledger has the id of another, be they attestations or events |
| `LedgerTheorems.ClaimsConserved` | scripts/build_source_release.py:3528-3547 | A claim is held at the end exactly as often as it was held at the start and gained, less the times it was lost |
| `LedgerTheorems.FoldExactly` | scripts/build_source_release.py:3537-3543 | Claim deltas go through exactly when none loses a claim not held by then or gains one that is |
| `LedgerValidator.Validate` | scripts/build_source_release.py:3445-3572 | The validator returns exactly when the ledger is accepted, and then the attestations nothing has ended, in order |
| `LedgerValidator.CheckIds` | scripts/build_source_release.py:3448-3453 | Accepts exactly when no identifier is reused |
| `LedgerValidator.IndexEvents` | scripts/build_source_release.py:3455-3455 | The map holds each event under its id |
| `LedgerValidator.IndexAttestations` | scripts/build_source_release.py:3454-3454 | The map holds each attestation under its id |
| `LedgerValidator.CheckWitnesses` | scripts/build_source_release.py:3456-3465 | Accepts exactly when every witness names one non-witness event and binds its digest |
| `LedgerValidator.FillTables` | scripts/build_source_release.py:3467-3500 | Accepts exactly when subjects exist, no two events compete, and replacements share the gate; then both tables hold exactly the events |
| `LedgerValidator.CheckChains` | scripts/build_source_release.py:3502-3517 | Accepts exactly when no replacement has two predecessors and no cycle exists |
| `LedgerValidator.WalkEnds` | scripts/build_source_release.py:3509-3517 | The walk stops on a cycle exactly by finding one, and otherwise at a retraction or an active attestation |
| `LedgerValidator.CheckRederivation` | scripts/build_source_release.py:3528-3560 | Accepts exactly when the attestation has a rederivation: one simple path from its derivation to the released one, using every event, whose deltas fold to the current claims |
| `LedgerValidator.WalkDecides` | scripts/build_source_release.py:3548-3560 | Where the walk stops it is the only rederivation or there is none |
| `LedgerValidator.BadDelta` | scripts/build_source_release.py:3537-3543 | Losing an absent claim or gaining a present one rules out every rederivation |
| `LedgerValidator.BadReturn` | scripts/build_source_release.py:3544-3547 | Coming back to a derivation already met rules out every rederivation |
| `LedgerValidator.CheckAttestations` | scripts/build_source_release.py:3521-3560 | Accepts exactly when every attestation is ended schema 1 or has its rederivation |
| `LedgerValidator.ActiveHeads` | scripts/build_source_release.py:3562-3562 | The attestations nothing has ended, in ledger order |
| `LedgerValidator.CheckHeads` | scripts/build_source_release.py:3563-3571 | Accepts exactly when every active attestation is schema 3 or pinned |
| `SourcePieces.ReconstructionExact` | o_lang/parser.py:199-406 | A source that parses is a sequence of pieces; its reconstruction is the same pieces with escaping backslashes dropped, let headers respaced and environment numbers in shortest form, and nothing else changed |
| `SourcePieces.ReconstructionIdentity` | o_lang/parser.py:393-406 | With nothing to drop, respace or shorten, the reconstruction is the source |
| `SourcePieces.SourceSpelled` | o_lang/parser.py:213-342 | The pieces spell exactly the text consumed |
| `SourcePieces.OutputSpelled` | o_lang/parser.py:393-406 | What the pieces are written as is what the parsed parts reconstruct to |
| `SourcePieces.TagOutput` | o_lang/parser.py:113-127 | A tag is written back with its environment in its own spelling |
| `Tokens.TokenExactly` | o_lang/parser.py:228-332 | At every place of every source, what is read there: the awaited closing tag with its boundary; an escape of it or of an opening tag; a reference with the longest name; at the top a binding with its gaps; an opening tag of a registered language where no word precedes |
| `Tokens.EnvironmentExactly` | o_lang/parser.py:167-180 | Bare and `[*]` tags have an environment of their own, and a number names its environment exactly up to 4294967293 |
| `Tokens.EnvironmentNumber` | o_lang/parser.py:172-172 | Leading zeros and the script of the digits make no difference |
| `Tokens.RegisteredExactly` | o_lang/parser.py:45-62 | The registered tags are exactly the ten languages and their aliases |
| `Tokens.SpaceExactly` | o_lang/evaluator.py:76-79 | Which ASCII characters are white space |
| `Tokens.WordExactly` | o_lang/parser.py:269-269 | Which ASCII characters belong to words and which to names |
| `Reparse.ReparsesToTheSameTree` | o_lang/parser.py:199-406 | If no escape was consumed, reparsing the reconstruction gives the same tree |
| `Reparse.Reparses` | o_lang/parser.py:213-342 | Every body is parsed again from what is written of it, whatever may follow |
| `Reparse.NoBackslashUnescaped` | o_lang/parser.py:245-260 | A source without a backslash consumes no escape |
| `Rereading.ReparsesIff` | o_lang/parser.py:199-406 | For every source that parses: the reconstruction parses to the same tree exactly when, scanning the written tree one token at a time, no character of a text starts a token, no reference name runs on into what follows, and every closing tag still has its boundary |
| `Rereading.ReadStays` | o_lang/parser.py:213-406 | Only if, for every body and whatever follows: a tree read back from its own text has that property |
| `Rereading.StaysRead` | o_lang/parser.py:213-406 | If, for every body and whatever follows: a normal tree with that property is read back, up to its own closing tag |
| `Rereading.ParsedNormal` | o_lang/parser.py:213-342 | Every parsed body is normal: no empty or adjacent texts, only known tags with spellable environments, no expression right after a word, bindings only at the top |
| `EscapeScan.ReparsesIffHarmless` | o_lang/parser.py:199-406 | The same told from the source: the reconstruction parses to the same tree exactly when every consumed escape is harmless. One of an opener is when a word stands right before it and, with the tag behind, nothing in the text gathered so far starts a token; one of a closing tag is when an escaped opener stands right behind it |
| `EscapeScan.HarmlessReads` | o_lang/parser.py:213-406 | If, for every body and whatever follows: what is written of a source with only harmless escapes is read back as the same parts |
| `EscapeScan.StaysHarmless` | o_lang/parser.py:213-406 | Only if, for every body and whatever follows |
| `EscapeScan.RunWithin` | o_lang/parser.py:213-332 | Whether text before an opening tag starts a token does not depend on what stands behind the tag |
| `Escapes.EscapedCloserChanges` | o_lang/parser.py:245-256 | For every source whose first consumed escape guards the awaited closing tag, with no escaped opener right behind it: the reconstruction parses to another tree or fails |
| `Escapes.ReparsesExactly` | o_lang/parser.py:199-406 | Where only closing tags were escaped, the reconstruction parses to the same tree exactly when no escape was consumed |
| `Escapes.EscapeFollowed` | o_lang/parser.py:213-342 | The same for every body: what is written is read as before up to the escape, and differently from there |
| `Escapes.EscapesAreNotKept` | o_lang/parser.py:245-256 | The shortest case: an escaped closing tag, written without its backslash, closes |
| `Escapes.EscapedOpenerAfterWord` | o_lang/parser.py:251-256 | Consuming no escape is not necessary: in `x\py^(` the opener written without its backslash stands after a word and stays text |
| `Escapes.EscapedCloserBeforeOpener` | o_lang/parser.py:245-256 | An escaped opener right behind an escaped closing tag keeps it from closing: the reconstruction parses to the same tree |
| `Reparse.OpenBack` | o_lang/parser.py:68-69 | An opener found in the rewritten text is one in the source: no opener reaches into rewritten text |
| `Reparse.EndBack` | o_lang/parser.py:344-365 | A closing tag found in the rewritten text is one in the source |
| `Reparse.LetBack` | o_lang/parser.py:262-292 | A bound expression found in the rewritten text is one in the source |
| `Reparse.MarkerNames` | o_lang/parser.py:167-180 | The shortest spelling of an environment names the same environment |
| `Parser.ParserState.Parse` | o_lang/parser.py:199-205 | Returns the tree of the whole source or its first error; the trailing-content error never occurs |
| `Parser.ParserState.ParseBody` | o_lang/parser.py:213-342 | The loop returns the specified parts and leaves the position right after the closing tag |
| `Parser.ParserState.ParseNested` | o_lang/parser.py:311-328 | An opened expression, with its environment decoded or refused, and the position after it |
| `Parser.ParserState.Classify` | o_lang/parser.py:234-332 | The loop makes the specified decision at every position |
| `Parser.ParserState.FindLet` | o_lang/parser.py:262-275 | A let header counts exactly when a registered opener follows it |
| `Parser.ParserState.FindEscape` | o_lang/parser.py:243-260 | A backslash is consumed exactly before the awaited closing tag or a registered opener |
| `Parser.ParserState.FindInline` | o_lang/parser.py:294-328 | A reference, or an opener where no word precedes |
| `Parser.AfterHeader` | o_lang/parser.py:267-274 | The word check after a let header never applies |
| `EvaluationTheorems.DocumentDisciplined` | o_lang/evaluator.py:52-173 | For every document: the backend calls are its blocks leaves first, left to right, bindings before the root (a prefix of them if something raises); each is given the text of its own block's body, with the names bound by then and the values its children returned rendered into it; the value is what the last call returned; the registry gains exactly the numbered blocks' environments; every environment starts from its backend's initial one and is fed exactly its own blocks' bodies in that order |
| `EvaluationTheorems.BindingsFirst` | o_lang/evaluator.py:82-116 | Moving all top-level bindings to the front, in order, changes neither value, registry nor calls |
| `EvaluationTheorems.CallsInOrder` | o_lang/evaluator.py:145-173 | An expression calls its blocks in post-order, and all of them when nothing raises; each call is given the text of its own block's body under the values that the block's children returned; the value is what the last call returned |
| `EvaluationTheorems.PlainBody` | o_lang/evaluator.py:147-166 | A body of text and of names not bound reaches its backend exactly as it is written |
| `EvaluationTheorems.SpliceAppend` | o_lang/evaluator.py:147-166 | The text of a body is that of its first parts followed by that of the rest, spliced where the first parts left the environments; what raises stops it |
| `EvaluationTheorems.SpliceName` | o_lang/evaluator.py:151-159 | A bound name goes in as the parent renders its value, an unbound one as `$name` |
| `EvaluationTheorems.SpliceBlock` | o_lang/evaluator.py:160-162 | A child goes in as the parent renders the child's own value |
| `EvaluationTheorems.RootExactly` | o_lang/evaluator.py:71-116 | The root is the one expression that stands alone among white space and bindings; otherwise it is one bare text block around everything |
| `EvaluationTheorems.AliasesExactly` | o_lang/parser.py:151-164 | Two tags share environments exactly when they are one, or one is the alias of the other |
| `EvaluationTheorems.EnvsReplay` | o_lang/evaluator.py:52-58 | Each stored environment is the replay of its own bodies from where it was; reserved ids are never stored |
| `EvaluationTheorems.RegistryGrows` | o_lang/evaluator.py:52-58 | The registry keeps its keys and gains exactly the numbered blocks' keys |
| `EvaluationTheorems.Isolated` | o_lang/evaluator.py:119-173 | Value and calls depend only on the environments the expression's own blocks name |
| `EvaluationTheorems.Untouched` | o_lang/evaluator.py:52-58 | An environment no block names is left as it was |
| `EvaluationTheorems.AliasesShare` | o_lang/evaluator.py:139-145 | Spelling every language canonically changes nothing: aliases share environments |
| `Evaluator.EvalContext.EnvFor` | o_lang/evaluator.py:52-58 | A reserved id gets an environment of its own; any other key is created once and then shared |
| `Evaluator.EvalContext.EvalExpression` | o_lang/evaluator.py:119-173 | Computes the specified value, registry and calls for every expression |
| `Evaluator.EvalContext.SpliceBody` | o_lang/evaluator.py:147-166 | Splices text, references and rendered children in order, stopping where a child raises |
| `Evaluator.EvalContext.BindLets` | o_lang/evaluator.py:84-93 | Binds lets as they come, each seeing those before it, and keeps everything else in order |
| `Evaluator.EvalContext.Bind` | o_lang/evaluator.py:86-91 | One binding evaluated and added to the scope |
| `Evaluator.EvalContext.FindRoot` | o_lang/evaluator.py:98-115 | The single meaningful expression, or an implicit text block |
| `Evaluator.EvalContext.EvaluateDocument` | o_lang/evaluator.py:61-116 | Computes the specified value, registry and calls for every document |
| `OfflineKitTheorems.OneSeal` | scripts/build_offline_kit.py:385-555 | For every payload tree the walk accepts: the written archive is valid, its recomputed seal, the seal of the tree and the seal of the tree extracted into any directory without an entry of that name are equal, the extracted tree holds the same files, and the other entries stay |
| `OfflineKitTheorems.ExtractedSeal` | scripts/build_offline_kit.py:1612-1656 | Every archive `_validate_tar` accepts extracts into any directory without an entry named as its prefix, without a file, directory or duplicate collision and leaving the rest alone, and the result walks to as many files with the archive's own seal |
| `OfflineKitTheorems.ExtractBeside` | scripts/build_offline_kit.py:1612-1624 | A payload extracts beside other entries exactly as it does alone |
| `OfflineKitTheorems.SealExactly` | scripts/build_offline_kit.py:442-453 | Unless the digest collides on their contents or record lists, two walked trees have one seal exactly when they hold the same files |
| `OfflineKitTheorems.AcceptedTree` | scripts/build_offline_kit.py:1638-1656 | Unless the digest collides there, a tree has the seal of a valid archive exactly when it holds exactly the files of that archive |
| `OfflineKitTheorems.CanonicalOne` | scripts/build_offline_kit.py:234-238 | The canonical JSON bytes of a list of records determine the records: mode, path, digest and size of each, in order |
| `OfflineKitBuilder.SealTree` | scripts/build_offline_kit.py:442-453 | Sorts the entries by path bytes and digests the canonical JSON of their records: the specified seal |
| `OfflineKitBuilder.SealRecords` | scripts/build_offline_kit.py:234-238 | Digests the ASCII bytes of the canonical JSON line of the records |
| `OfflineKitTheorems.WrittenValid` | scripts/build_offline_kit.py:456-527 | The archive written from walked files is valid exactly when its prefix is one component |
| `KitArchives.ValidExactly` | scripts/build_offline_kit.py:456-527 | The validator accepts exactly the archives the writer writes: the plain gzip header and, in byte order, one plain regular member per file below the one-component prefix, no file on the way to another |
| `KitArchives.ExtractExactly` | scripts/build_offline_kit.py:1612-1624 | After extraction there lie on disk the files there were and, for each member, one regular file with its path, its mode and its bytes |
| `KitArchives.ChildrenCounted` | scripts/build_offline_kit.py:530-555 | The number of children in a summary is that of the entries directly below the prefix once extracted |
| `KitArchives.LeafText` | scripts/build_offline_kit.py:442-453 | What a seal digests for one file, character by character: mode, path, digest and size under their keys |
| `KitArchives.MemberText` | scripts/build_offline_kit.py:538-553 | The summary of an archive digests for each member what the seal of a tree digests for that file |
| `OfflineKitTheorems.AscendingBytes` | scripts/build_offline_kit.py:520-521 | Names ascend exactly when, of any two, the earlier has the smaller byte where they first differ or ends there |
| `OfflineKitTheorems.TarSealIs` | scripts/build_offline_kit.py:530-555 | A valid archive's seal is the tree seal of the files its members stand for |
| `OfflineKitTheorems.PathsApart` | scripts/build_offline_kit.py:520-526 | In a valid archive no path equals another or leads to it |
| `OfflineKitTheorems.FlatApart` | scripts/build_offline_kit.py:385-439 | In a tree on disk no file stands on the way to another |
| `OfflineKitTheorems.PutFlat` | scripts/build_offline_kit.py:1616-1624 | Creating a file adds that file and nothing else |
| `OfflineKitTheorems.PutSucceeds` | scripts/build_offline_kit.py:1616-1624 | A file can be created wherever no file stands on the way, at it or below it |
| `KitTree.WalkExactly` | scripts/build_offline_kit.py:385-439 | The walk refuses a tree unless all entries are regular with good names and there is a file; otherwise it finds exactly the files below, each once, under its path, with its bytes, and as 100755 exactly when one of its three permission digits is odd |
| `KitTree.VisitExactly` | scripts/build_offline_kit.py:399-434 | The same for every directory, at any depth and prefix |
| `KitTree.ModeExactly` | scripts/build_offline_kit.py:264-265 | Whatever stands above the permission digits, the canonical mode is 100755 exactly when the digit of the owner, the group or the others is odd |
| `KitTree.FlatExactly` | scripts/build_offline_kit.py:399-434 | The records below a directory are exactly those of the regular files that lie there |
| `KitOrder.WalkOrdered` | scripts/build_offline_kit.py:399-434 | Files are found component by component, by the bytes of the names where two paths part |
| `KitTree.FlatSort` | scripts/build_offline_kit.py:401-403 | Sorting entries at any level permutes the files below |
| `KitPaths.SafeExactly` | scripts/build_offline_kit.py:253-261 | The safe paths are `.` and the good components joined by slashes, each in one way |
| `OfflineKitBuilder.WalkRegularFiles` | scripts/build_offline_kit.py:385-439 | Computes the specified walk |
| `OfflineKitBuilder.VisitEntries` | scripts/build_offline_kit.py:399-434 | The recursive loop appends exactly the specified files and stops at the first refusal |
| `OfflineKitBuilder.ValidateTar` | scripts/build_offline_kit.py:479-527 | Returns the members exactly when the archive is valid |
| `OfflineKitBuilder.CheckMembers` | scripts/build_offline_kit.py:497-519 | Accepts exactly when every member passes its own checks, and lists the names |
| `OfflineKitBuilder.SortedSet` | scripts/build_offline_kit.py:520-521 | Comparing with the sorted set of names accepts exactly names of which any two part at a byte that is smaller in the earlier |
| `OfflineKitBuilder.CheckConflicts` | scripts/build_offline_kit.py:522-526 | Accepts exactly when no name is a parent of another |
| `OfflineKitBuilder.TarTreeSummary` | scripts/build_offline_kit.py:530-555 | For a valid archive: the file count, the seal and the number of children of the prefix |
| `OfflineKitBuilder.ExtractTarSafely` | scripts/build_offline_kit.py:1612-1624 | Extracts a valid archive member by member as specified; refuses any other |
| `OfflineKitBuilder.ValidateUnpackedSeals` | scripts/build_offline_kit.py:1638-1656 | Accepts exactly when both extracted trees have their recorded count and seal |
| `OfflineKitBuilder.ExtractPayloads` | scripts/build_offline_kit.py:1748-1751 | Toolchain and then vendor go into one new directory: it succeeds exactly when both archives are valid and the manifest records their counts and seals, and both trees then match |
| `HandleTheorems.ResolveExactly` | backends/o_native_objects.py:66-148 | Over every run of export, release and clear whose tokens were not in use when drawn: a descriptor resolves exactly when it is the unaltered descriptor of an export still standing, and then to that object; live handles never exceed the limit |
| `HandleTheorems.RevivedExactly` | backends/o_native_objects.py:66-148 | A descriptor whose export no longer stands resolves again exactly when a later export still standing drew the same token for an object described alike, and then to that object |
| `HandleTheorems.DescriptorOne` | backends/o_native_objects.py:78-111 | One owner's descriptors are equal exactly for the same token and the same description |
| `HandleTheorems.DescriptorSays` | backends/o_native_objects.py:78-108 | What an exported descriptor says: owner and token in its live identity, and each part of the description under its key |
| `HandleTheorems.LookupErrors` | backends/o_native_objects.py:113-134 | Why a descriptor is refused, check by check: not native, a malformed live identity, another owner, no such handle, data that cannot be serialised, an altered text |
| `HandleTheorems.HexExactly` | backends/o_native_objects.py:123-126 | Owners and tokens are 64 characters of `0123456789abcdef` |
| `HandleTheorems.StandsUntil` | backends/o_native_objects.py:66-155 | An export stands exactly when it was admitted and nothing since cleared the store or released its descriptor |
| `HandleTheorems.ReleaseOne` | backends/o_native_objects.py:141-148 | Releasing one handle leaves every other standing |
| `HandleTheorems.RepeatedTokenRevives` | backends/o_native_objects.py:71-73 | The shortest such run: a token drawn again after a release |
| `HandleTheorems.RunHolds` | backends/o_native_objects.py:66-155 | After any run the store holds exactly the exports still standing |
| `HandleTheorems.LookupFinds` | backends/o_native_objects.py:113-134 | An unaltered descriptor of a stored object finds it |
| `HandleTheorems.LookupSound` | backends/o_native_objects.py:113-134 | Whatever finds a stored object is its unaltered descriptor |
| `NativeObjects.NativeObjectStore.Export` | backends/o_native_objects.py:66-111 | Refused exactly at the limit; otherwise keeps the object under a token not in use and returns its descriptor |
| `NativeObjects.NativeObjectStore.Find` | backends/o_native_objects.py:113-134 | Looks a descriptor up with the specified result and error |
| `NativeObjects.NativeObjectStore.Resolve` | backends/o_native_objects.py:136-139 | Returns the object of the standing export the descriptor is of, and an error exactly when there is none |
| `NativeObjects.NativeObjectStore.Release` | backends/o_native_objects.py:141-148 | Succeeds exactly on the descriptor of a standing export, and removes exactly that handle or nothing |
| `NativeObjects.NativeObjectStore.ClearAll` | backends/o_native_objects.py:150-155 | Removes every handle |
| `NativeObjects.NativeObjectStore.LiveCount` | backends/o_native_objects.py:60-64 | The number of exports still standing |
| `NativeObjects.Open` | backends/o_native_objects.py:41-55 | Refused unless the limit is positive; otherwise an empty store |
| `Json.WriteInjective` | backends/o_native_objects.py:23-30 | Canonical JSON text tells any two serialisable values apart |
| `JsonText.ReadsBack` | backends/o_native_objects.py:23-30 | Canonical text is JSON after RFC 8259: a reader of it gets the value back |
| `JsonText.FieldsInOrder` | backends/o_native_objects.py:23-30 | The fields of an object stand in the order of their names |
| `JsonText.WriteAscii` | backends/o_native_objects.py:23-30 | Canonical text is printable ASCII |
| `Json.Dumps` | backends/o_native_objects.py:23-30 | Writes the canonical text, or refuses exactly what cannot be serialised |

## Left out

- Decimal and Fraction scalars of the graph codec: their text grammars belong to library modules.
- Lone surrogates in Python strings: Dafny characters are Unicode scalar values.
- The bit pattern of a NaN after a four-byte float is widened: the hardware may set the quiet bit.
- Error messages and the path strings that accompany them; the model keeps which check fails, and for the parser where.
- Aliasing of `OExprValue` and `OOpaqueValue` objects: both are scalars written by content, so two names for one such object are restored as two objects.
- `_current_o_scope` and its wire form, which `handle_restore` empties: they hold the scope of the call in progress.
- `handle_checkpoint`'s two pins (live native handles and a changed ambient fingerprint), and the fingerprint itself: values of the process.
- `handle_exec`, `O.eval`, native call, get and set, and image conversion: foreign code.
- The rest of `oval_to_py` and `py_to_oval`, and `from_python`'s stringify fallback: wide case lists.
- Equality between an integer and an equal float in the input law's comparison: no field of an admitted value can hold a float.
- Text fields of a checkpoint payload that hold something other than text: `str(...)` would coerce them; the model refuses them.
- The interpreter's recursion limit: encoding, decoding, parsing and comparing nest as deep as their input.
- Checkpoint records whose `bool` value or float byte is of another type: `bool(...)` and `bytes(...)` take any truthy value and a boolean for a byte; `GraphWire.ReadEnc` refuses both.
- Keys other than text inside opaque values: `cbor_encode` writes `str(key)`; a value here has text keys.
- The interpreter's limit on the digits of `int(...)` for environment numbers: leading zeros beyond 4300 digits.
- Tag attributes, which the Python parser does not read, and the `pretty` printer.
- `eval_ast` backends (`O` and `quote`) and the two-argument fallback of `evaluate`: their backends take over evaluation.
- Identity of environment objects beyond the registry: an environment is a value stored under its name.
- Parsing of ledger records (TOML, signatures, digests of record files): the model starts from the checked fields.
- The gzip and tar byte formats, `chmod` and `mkdir` failures, and file-descriptor snapshots: an archive is its header and its members.
- File contents that change between the walk and the write.
- Seals of whole kits, ZIP layout and manifests: lists of the payloads modelled here.
- Python values that serialise alike in a descriptor, such as a tuple for a list or an integer key for its text.
- Threads, the fork check and constant-time comparison in the handle store: calls are sequential in the owning process.
- The Rust engine, the other language shims, the Markdown link scanner and the command-line programs.
- NativeObjects.NativeObjectStore.Export: takes as a ghost argument a draw that is not in use, since the source's loop ends only if there is one.
- GraphCodec.Decoder.constructor: takes a table whose records are containers; the check that refuses any other table is in `DecodeGlobals`.
- LedgerValidator.Validate: starts from records the field validators have passed, among them that an event names an id, a replacement differs from its subject and a rederivation changes the derivation.
