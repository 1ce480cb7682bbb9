# rit object codec in Dafny

A Dafny model of the object layer of `rit`, a git clone written in Rust.
The model covers:

- the body codecs of the four object types:
  - commit and tag bodies are header lines (`key value`, with continuation
    lines), an empty line, and the message;
  - tree bodies are records `<mode> <path>\0<20 raw hash bytes>`, sorted
    when they are read;
  - blob bodies are kept unchanged;
- the envelope `<type> <decimal length>\0<body>` that an object is hashed
  and stored as, and the length check made when it is read;
- the `objects/<2 hex>/<38 hex>` location of an object, and writing and
  reading an object through an object directory;
- the object type names, and the tree entry kinds;
- reference resolution (`ref: <path>` chains) and tag creation.

Modelling choices:

- Rust strings are their bytes (`seq` of `0..255`).
- A Rust `panic` (an `unwrap` on `None`/`Err`, a slice out of range, an
  explicit `panic!`) is the result `Err(Panic(cause))`.
- The model keeps these of the source's `Err` results: `UnknownMode`,
  `LengthMismatch` and `NotFound`. The I/O and zlib failures the source
  also returns as `Err` are listed under "Left out".
- The serializer unwraps two lookups that its callers guarantee:
  `fields.get(key)` and decoding a tree entry's hex hash. These are
  preconditions (`KeysPresent`, `HashesDecode`).
- The object directory and the reference files are maps from paths to the
  files' contents. Objects are stored decompressed.
- SHA-1 is a function parameter returning 20 bytes.

Modules:

- `Results`: results and errors.
- `Bytes`: the byte-string operations used (`take_while`, `split`, `join`).
- `Hex`: `hex::encode` and its inverse.
- `Decimal`: `usize::to_string` and `parse::<usize>`.
- `Lex`: the `String` order.
- `Cli`: type names.
- `TreeCodec`: tree entries and tree bodies.
- `HeaderCodec`: commit and tag bodies.
- `ObjectStore`: bodies, the envelope and the object directory.
- `Refs`: references.

## Model

| member | source | states |
|---|---|---|
| Cli.TypeName | src/cli.rs:21-28 | every type name is one of `commit`, `blob`, `tag`, `tree`, has at least three bytes, and contains no space and no NUL |
| Cli.FromName | src/cli.rs:12-20 | succeeds exactly on the four names and gives the type written that way; any other name panics |
| Cli.NameRoundTrip | src/cli.rs:12-28 | `from_string(to_string(t)) == t` for all four types |
| Cli.NameInjective | src/cli.rs:21-28 | distinct types have distinct names |
| TreeCodec.FromMode | src/object/tree.rs:12-21 | a mode shorter than two bytes panics; otherwise it succeeds exactly when the first two bytes are `04`, `10`, `12` or `16`, giving the kind those bytes select; any other prefix is an `UnknownMode` error |
| TreeCodec.PrefixesDisjoint | src/object/tree.rs:14-19 | no prefix selects two kinds |
| TreeCodec.KindName | src/object/tree.rs:23-32 | an entry kind displays as the type name of the object it points at (`blob`, `commit`, `tree`) |
| TreeCodec.KindNameInjective | src/object/tree.rs:25-29 | distinct kinds display differently |
| TreeCodec.PadMode | src/object/tree.rs:43-47 | a mode shorter than six bytes gets exactly one leading `0`; a longer mode is unchanged; the given mode is always the suffix |
| TreeCodec.NewNode | src/object/tree.rs:42-54 | fails exactly when the padded mode has no kind, with that error; otherwise it keeps path and hash, stores the padded mode, and its kind agrees with that mode |
| TreeCodec.ScanRecord | src/object/tree.rs:66-79 | one record consumes at least one byte; the entry it yields has a space-free mode, a NUL-free path, a kind agreeing with its mode, and a hash that is the hex text of at most 20 bytes |
| TreeCodec.ScanRecordSplits | src/object/tree.rs:66-79 | for any record, whatever its mode's length, the mode is the bytes before the first space, the path the bytes before the next NUL, the hash the lowercase hex of the next 20 bytes, and the entry is `TreeNode::new` of those three, so a short mode is padded |
| TreeCodec.ShortTail | src/object/tree.rs:66-79 | when at most 20 bytes follow a record's NUL, `take(20)` returns all of them: the entry is `TreeNode::new` of the mode, the path and the hex of that short tail, and nothing remains, so a truncated tree reads without error |
| TreeCodec.NoSpaceRecord | src/object/tree.rs:66-79 | data without a space is all mode: the path and the hash are empty and nothing remains |
| TreeCodec.DirectoryRecord | src/object/tree.rs:44-47 | a directory record with git's five-byte mode `40000` reads back as one Tree entry whose mode is padded to `040000` |
| TreeCodec.ParseRecords | src/object/tree.rs:65-80 | the scan terminates, yields at most one entry per byte, and every entry has the properties above |
| TreeCodec.SortEntries | src/object/tree.rs:81-89 | the `sort_by` result is ascending by the comparator's key (the path, with a backslash appended for a Tree entry) and holds the same multiset of entries; `SortStable` and `StableSortUnique` fix the order among equal keys |
| TreeCodec.InsertSorted | src/object/tree.rs:81-89 | inserting an entry before the first entry whose key is not below its own adds exactly that entry and keeps an ascending arrangement ascending |
| TreeCodec.SortStable | src/object/tree.rs:81-89 | the sort is stable: the entries of each key keep their input order |
| TreeCodec.SortIdentity | src/object/tree.rs:81-89 | sorting entries already in order changes nothing |
| TreeCodec.StableSortUnique | src/object/tree.rs:81-89 | any ascending arrangement that keeps each key's entries in input order equals the sort's result, so any stable sort gives the same result |
| TreeCodec.SortedUnique | src/object/tree.rs:81-89 | two ascending arrangements with the same entries for every key are equal |
| TreeCodec.Parse | src/object/tree.rs:62-91 | succeeds exactly when the record scan does; the result is sorted, a permutation of the scanned entries, stable per key, and every entry has the scan's properties |
| TreeCodec.FromData | src/object/tree.rs:62-91 | the peek loop over the bytes, followed by the sort, computes `Parse` |
| TreeCodec.Serialize | src/object.rs:62-73 | the loop over the entries writes each entry's mode, a space, its path, a NUL, and its decoded hash, in entry order |
| TreeCodec.RecordsRoundTrip | src/object.rs:62-73 | scanning the bytes written for well-formed entries gives back exactly those entries |
| TreeCodec.TreeRoundTrip | src/object/tree.rs:62-91 | `from_data(serialize(t)) == t` for a sorted tree whose modes are six bytes with a known prefix and no space, whose paths have no NUL, and whose hashes are 40 lowercase hex digits |
| TreeCodec.ExampleOrder | src/object/tree.rs:81-89 | `b.txt` (blob), `a` (tree), `a.txt` (blob) sort as `a.txt`, `a`, `b.txt` |
| HeaderCodec.Serialize | src/object.rs:52-60 | the nested loops write one `key value` line per value, with the keys in `order` and each key's values together and in list order, then an empty line and the message, joined by newlines |
| HeaderCodec.Escape | src/object.rs:55 | `replace('\n', "\n ")` leaves a value without newlines unchanged and turns each byte into one or two bytes |
| HeaderCodec.EscapeLines | src/object.rs:55 | a value written after `key ` occupies one line per newline-separated part of it, every part after the first behind one space |
| HeaderCodec.SerializedLines | src/object.rs:52-60 | the lines of a serialized body are the lines of every header value, the empty line, then the lines of the message |
| HeaderCodec.ScanHeaders | src/object.rs:86-106 | the line scan fails only by a panic (a header line without a space, or no empty line); no key it yields contains a space |
| HeaderCodec.OrderProperties | src/object.rs:97-104 | the key order lists each key once, exactly the keys that occur; each listed key has at least one value and every other key has none |
| HeaderCodec.FieldsSnoc | src/object.rs:97-104 | recording one more line appends its value to its key's list, and adds the key to the end of the order only on first sight |
| HeaderCodec.Parse | src/object.rs:77-113 | a parsed body has an order without duplicates, exactly the keys of the map, non-empty value lists, and keys without space or newline; failure is a panic |
| HeaderCodec.GatherValue | src/object.rs:91-94 | the inner loop takes the following lines that start with a space, each without that space, as the value's further lines, and stops at the first line that does not |
| HeaderCodec.ScanStep | src/object.rs:86-105 | one header line with its continuation lines scans as one entry, whose value is the parts joined by newlines, followed by the scan of the rest |
| HeaderCodec.Deserialize | src/object.rs:79-113 | the index walk over the lines, with the map updated in place and the order appended on first sight, computes `Parse` |
| HeaderCodec.ScanFlat | src/object.rs:86-107 | scanning the lines of written entries, then the empty line and the message lines, gives back those entries and the message lines |
| HeaderCodec.EntriesOrder | src/object.rs:53-57 | reading back the written entries lists the keys exactly in `order`, when `order` has no duplicates and every key has values |
| HeaderCodec.EntriesValues | src/object.rs:53-57 | reading back the written entries gives every key of `order` exactly its list of values, and any other key none |
| HeaderCodec.HeadersRoundTrip | src/object.rs:39-113 | `deserialize(serialize(h)) == h` when the keys are non-empty and have no space or newline, `order` has no duplicates and lists exactly the keys of `fields`, and no value list is empty |
| ObjectStore.Serialize | src/object.rs:39-76 | serializing a blob gives its bytes; commit and tag bodies use the header writer, and trees use the tree writer |
| ObjectStore.Decode | src/object.rs:77-117 | a blob body is read as itself, and only a blob type gives a blob; a tree type gives sorted entries; a commit or a tag type gives the Commit variant, never the Tag one |
| ObjectStore.Deserialize | src/object.rs:77-117 | the dispatch to the header scan and to `from_data` computes `Decode` |
| ObjectStore.TagReadsAsCommit | src/object.rs:80 | a tag body is read exactly as a commit body is |
| ObjectStore.BodyRoundTrip | src/object.rs:39-117 | reading back a serialized readable body gives the body back, with a tag's headers in the Commit variant |
| ObjectStore.SplitEnvelope | src/object.rs:149-168 | the header has no space and the length no NUL; when both delimiters are present the three parts and the delimiters make up the input; without a space, everything is the header |
| ObjectStore.DrainUntil | src/object.rs:154-167 | one draining loop takes the bytes before the delimiter, consumes the delimiter, and stops at the end of the input |
| ObjectStore.ReadEnvelope | src/object.rs:149-168 | the two draining loops compute `SplitEnvelope` |
| ObjectStore.OpenEnvelope | src/object.rs:149-181 | a success has a header that names the type, a content equal to the result's body, and a length field that parses to the content's length; the result is `LengthMismatch` exactly when the length parses to a different number; a length field `parse::<usize>` rejects is the `unwrap` panic; a length that parses to the content's length (leading zeros and `+` included) succeeds exactly when the header is a type name, and otherwise is the `from_string` panic |
| ObjectStore.Envelope | src/object.rs:184-222 | the envelope that `calculate_hash` hashes and `write_to_repo` stores (both build it the same way) splits, under the reader's two drains, back into the type name, the decimal length of the body and the body |
| ObjectStore.EnvelopeRoundTrip | src/object.rs:184-194 | parsing `type ++ " " ++ decimal(len) ++ "\0" ++ body` gives back exactly the type and the body |
| ObjectStore.LengthMismatchRejected | src/object.rs:173-179 | an envelope whose declared length differs from its content's length is rejected with an error; the content is never cut or padded |
| ObjectStore.EnvelopeInjective | src/object.rs:184-194 | different (type, body) pairs have different envelopes |
| ObjectStore.ObjectHash | src/object.rs:183-210 | the object name is 40 lowercase hex digits that decode to the SHA-1 of the envelope |
| ObjectStore.ShardPath | src/object.rs:136-138 | a hash of two or more characters splits into a two-character directory and the rest as file name, and the two together are the hash; a shorter hash panics |
| ObjectStore.Write | src/object.rs:211-258 | writing stores the envelope at the place the returned 40-digit object name selects, and changes nothing else |
| ObjectStore.WriteAddressed | src/object.rs:211-258 | if every stored file sits where its contents' hash says, this still holds after a write |
| ObjectStore.NewObject | src/object.rs:125-130 | an object is built exactly when its body decodes as the given type, and it keeps that type |
| ObjectStore.ReadObject | src/object.rs:131-181 | a hash shorter than two characters panics; a missing file is `NotFound`; a success comes from a stored file whose envelope is valid and names the object's type |
| ObjectStore.ReadFromSha | src/object.rs:131-181 | the shard split, the draining loops, the length check, the type name and the body parse, in the source's order, compute `ReadObject` |
| ObjectStore.ReadAfterWrite | src/object.rs:131-258 | reading by the name a write returned gives back the object written, with a tag's headers in the Commit variant |
| Refs.ResolveRef | src/object.rs:262-278 | a missing file or one without a trailing newline panics; contents without `ref: ` are returned with the newline stripped; a success is either the not-initialized text or the stripped contents of a file that is not a symbolic reference |
| Refs.FollowRef | src/object.rs:267-274 | a file `ref: <next>` resolves as `next` does |
| Refs.FuelMonotone | src/object.rs:262-278 | the bound on followed references does not change an answer that was reached within it |
| Refs.HeadResolves | src/object.rs:267-274 | a HEAD naming a main branch that holds a hash resolves to the hash; one naming a main branch that does not exist gives `Repo not initialized yet` |
| Refs.CreateRef | src/object.rs:279-290 | the tag file `refs/tags/<name>` holds exactly the hash, the other files are unchanged, and no other file appears |
| Refs.CreatedRefUnreadable | src/object.rs:264-266 | resolving a tag written by `create_ref` panics on the missing newline |
| Refs.CreateRefLine | src/object.rs:279-290 | the corrected tag file holds the hash followed by a newline, the other files are unchanged, and no other file appears |
| Refs.CreatedRefResolves | src/object.rs:262-290 | a tag written as a line resolves to its hash |
| Bytes.TakeUntil | src/object/tree.rs:66-77 | `take_while` on a peekable byte iterator (also the shape of each envelope drain at src/object.rs:154-167) returns bytes free of the delimiter; when the delimiter occurs, the taken bytes, the delimiter and the rest make up the input; otherwise everything is taken and nothing remains |
| Bytes.Split | src/object.rs:82 | `split('\n')` gives at least one part, no part contains the separator, and joining the parts with the separator gives the input back |
| Bytes.SplitJoin | src/object.rs:60 | `join("\n")` of parts free of the separator splits back into exactly those parts |
| Bytes.JoinAppend | src/object.rs:107 | joining two non-empty lists of parts puts exactly one separator between their joins |
| Hex.Encode | src/object/tree.rs:78 | `hex::encode` writes two lowercase hex digits per byte, the high nibble's digit first and then the low nibble's |
| Hex.EncodeExample | src/object.rs:298-306 | the byte `0xe6` is written `e6`, as the unit test of `encode` expects for a digest's directory name |
| Hex.Decode | src/object.rs:70 | `hex_to_hex_byte`, whose definition is not in the source, is modelled as a decoder that succeeds exactly on lowercase hex text of even length and gives one byte per two digits |
| Hex.DecodeEncode | src/object.rs:62-73 | decoding the hex text of bytes gives the bytes back, so the modelled `hex_to_hex_byte` inverts `hex::encode` |
| Hex.EncodeDecode | src/object/tree.rs:78 | encoding the bytes that decode from lowercase hex text gives the text back |
| Decimal.Show | src/object.rs:186 | `to_string` of a length is at least one decimal digit, with no leading zero unless it is `0` |
| Decimal.ParseUsize | src/object.rs:173 | `parse::<usize>` succeeds exactly on decimal digits, optionally after one leading `+`, whose value is at most 2^64-1, and gives that value |
| Decimal.ParseShow | src/object.rs:173 | parsing the decimal text of a length that fits in a `usize` gives the length back |
| Lex.Le | src/object/tree.rs:88 | `String::cmp` puts every string at most every string it is a prefix of, and above each of its own proper prefixes |
| Lex.LeTotal | src/object/tree.rs:88 | the string order compares any two strings |
| Lex.LeTrans | src/object/tree.rs:88 | the string order is transitive |
| Lex.LeAntisym | src/object/tree.rs:88 | the string order is antisymmetric |

## Left out

- SHA-1 (src/object.rs:201-209) is a function parameter that returns 20 bytes. Nothing about collisions follows from it.
- zlib compression and decompression (src/object.rs:146-148, 248-254) are left out. The object directory holds the decompressed envelope, so a zlib decode error is not modelled.
- File system calls are left out. This covers `File::open`/`create`, `fs::create_dir` (and its `AlreadyExists` case), and `read_to_string`. Files are entries of a map, and a failed open is `NotFound`.
- UTF-8 validation (`String::from_utf8(..).unwrap()`) is left out, and strings are bytes. Every delimiter the code uses is ASCII, so splitting the bytes and splitting the text agree. What is dropped is every panic that depends on characters rather than bytes: the panic on invalid UTF-8, and the panic of a slice that ends inside a multi-byte character. `&mode[..2]` (src/object/tree.rs:14) panics on a valid mode such as `é`, which is padded to `0é` and has byte 2 inside the `é`. `TreeCodec.FromMode` returns `UnknownMode` for it instead. Likewise `hash[..2]` counts bytes rather than `char`s.
- Refs.ResolveRef: the source follows references without bound and overflows the stack on a cycle. The model takes a fuel bound and returns `RefDepthExceeded` when the bound runs out. `Refs.FuelMonotone` shows that the bound never changes an answer reached within it.
- Refs.ResolveRef: `next_ref_path.exists()` is true for a directory too. The model treats only files as existing.
- ObjectStore.Serialize: the `_ => Vec::new()` arm of `serialize` cannot be reached, because the four variants are matched above it, so it has no counterpart.
- ObjectStore.Write: returns the new object directory and the name. The source's I/O error results are not modelled.
- `TreeCodec.TreeRoundTrip` and `HeaderCodec.HeadersRoundTrip` prove the round trip under sufficient conditions, not necessary ones: for trees, sorted entries whose modes have six bytes and a known prefix, whose paths have no NUL and whose hashes are 40 lowercase hex digits; for headers, non-empty keys with no space or newline, no duplicate keys, and non-empty value lists. Some inputs outside these conditions also read back equal, such as a seven-byte mode like `1006440` or a header with an empty key. The model does not characterise the full set of such inputs.
- Hex.Decode: `hex_to_hex_byte` is re-exported by src/lib.rs:11 but src/helper.rs does not define it, so its behaviour is not part of this model's source. It is modelled as the strict inverse of `hex::encode`: lowercase digits only, even length. A decoder that also accepts upper-case digits (as one built on `u8::from_str_radix` would) is not modelled. The `HashesDecode` precondition of `TreeCodec.Serialize` and `ObjectStore.Serialize` rests on this choice.
- The repository bootstrap (src/repository.rs), configuration (src/config.rs), command-line dispatch (src/main.rs) and the path helper (src/helper.rs) are not part of this model.
- The recursive tree listing, checkout and commit-graph walker are not part of this model, because they are not in these files.
- The unit test at src/object.rs:320-351 ends in `assert!(false)` and states nothing.
- The tree entry order follows the code: a Tree entry's key is its path followed by a backslash (src/object/tree.rs:84). Git itself appends `/`.

## Findings

| source | as written | input that shows it | evidently intended | confidence | as-written member | corrected member |
|---|---|---|---|---|---|---|
| src/object.rs:279-290 with src/object.rs:262-266 | `create_ref` writes the hash with no trailing newline, but `resolve_ref` unwraps `strip_suffix('\n')` | creating tag `v1` for hash `abc`, then resolving `refs/tags/v1`, panics | a reference file is a line, `hash\n`, so that the resolver reads it back as the hash | medium, not executed | Refs.CreatedRefUnreadable | Refs.CreatedRefResolves |
