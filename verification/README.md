# AKU aggregator — a Dafny model

This project models the core of the Decentralized Knowledge Universe aggregator. That core turns a piece
of text into an Atomic Knowledge Unit (AKU), derives the unit's identifier with the three-stage
"fractal hash", and stores and retrieves the unit through IPFS. It models `fractal_hash`,
`create_aku`, `store_aku`, `retrieve_aku`, `decompress_content`, and the comma-separated tag parser
of the `create` command. Once the hash, the codec and the backend are abstracted, all of these are pure.

Abstractions:

- **SHA-256** (FIPS 180-4, section 6.2) is a parameter `sha: Sha256`. It may be any function from
  byte strings to 32-byte digests, so every property proved holds for SHA-256 in particular.
- **zstd** is a `Codec` value, a compress/decompress pair. The lemmas that need its round trip
  require `Reversible(codec)`, which says decompression undoes compression.
- **The IPFS node** is a `Backend`, a map from CID to the stored envelope. The CID the node assigns to
  an envelope is a parameter `address`.
- **UTF-8, `bytes.hex()`/`bytes.fromhex()`, `str.strip()` and `str.split(",")`** are modelled
  concretely. This includes fromhex's acceptance of either digit case and of ASCII whitespace before
  each digit pair, strict UTF-8 decoding, and Python's `isspace` character set.
- **`json.dumps(..., sort_keys=True)`** is a serialiser over a small JSON datatype. Objects keep
  their insertion order, as Python dicts do. The serialiser writes the members of every object, at
  every depth, in ascending code-point key order, with Python's default separators `", "` and `": "`.

Every function here is pure, so equal inputs always give equal identifiers and equal records. That is
the determinism of `fractal_hash` (`aggregator/fractal_hash.py:4-19`), and it holds by construction.

The model follows the definitions in `aggregator/aggregator.py`, in two ways:

- **Arity.** `create_aku` takes three arguments, and `store_aku`/`retrieve_aku` take a client (here,
  the backend). The callers in `agents/miner.py:45-46` and `aggregator/tests/test_aggregator.py:11,20,25`
  pass an extra `agent` and omit the client. As written, those calls would not run.
- **Integrity check.** `retrieve_aku` does not recompute the identity or compare it with the stored
  uuid, and neither does `Store.RetrieveAku`. Instead, `Aggregator.IdentityConsistent` is proved to
  survive create → store → retrieve.

Files: `wrappers.dfy` (Option/Result), `utf8.dfy`, `hex.dfy`, `key_order.dfy` (key ordering and
sorting), `json.dfy`, `fractal_hash.dfy`, `aggregator.dfy` (the AKU and `create_aku`,
`decompress_content`), `store.dfy` (`store_aku`, `retrieve_aku`), `tags.dfy` (the `--tags` parser).

## Model

| member | source | states |
|---|---|---|
| Utf8.Encode | aggregator/aggregator.py:11 | `str.encode('utf-8')` writes between one and four bytes per character; its inverse on every string is `Utf8.DecodeEncode`, and on every well-formed byte string `Utf8.EncodeDecode` |
| Utf8.Decode | aggregator/aggregator.py:65 | strict `bytes.decode('utf-8')` yields at most one character per byte, and the empty text exactly for empty input; it is the inverse of encoding by `Utf8.DecodeEncode` and `Utf8.EncodeDecode` |
| Utf8.DecodeEncode | aggregator/aggregator.py:61-65 | strict UTF-8 decoding of `content.encode('utf-8')` gives back the content, for every string |
| Utf8.EncodeDecode | aggregator/aggregator.py:65 | every byte string that `decode('utf-8')` accepts is the encoding of what it decodes to, so UTF-8 is a bijection |
| Utf8.EncodeAscii | aggregator/fractal_hash.py:18 | an ASCII string such as the combined digest text encodes to one byte per character, equal to the character code |
| Hex.Encode | aggregator/aggregator.py:47 | `bytes.hex()` produces exactly two lowercase hex digits per byte |
| Hex.Decode | aggregator/aggregator.py:58 | a successful `bytes.fromhex()` yields at most one byte per two characters of input |
| Hex.DecodeEncode | aggregator/aggregator.py:47-58 | `fromhex(hex(b)) == b` for every byte string |
| Hex.EncodeDecode | aggregator/aggregator.py:58 | on lowercase hex text that fromhex accepts, `hex(fromhex(s)) == s` |
| Hex.DecodeOddLength | aggregator/aggregator.py:58 | fromhex rejects an odd-length run of hex digits, upper or lower case |
| Hex.EncodeInjective | aggregator/aggregator.py:47 | distinct byte strings have distinct hex texts |
| KeyOrder.StrLtTotal | aggregator/fractal_hash.py:13 | any two distinct keys are ordered, so sorting by key is total |
| KeyOrder.StrLtTransitive | aggregator/fractal_hash.py:13 | code-point order on keys is transitive |
| KeyOrder.SortByKey | aggregator/fractal_hash.py:13 | key sorting permutes the members (multiset preserved) |
| KeyOrder.SortByKeySorted | aggregator/fractal_hash.py:13 | with distinct keys, the sorted members are in strictly ascending key order |
| KeyOrder.SortedUnique | aggregator/fractal_hash.py:13 | two key-sorted member lists holding the same members are identical |
| KeyOrder.SortByKeyDeterminedBySet | aggregator/fractal_hash.py:13 | the sorted order of a dict depends only on which members it holds |
| Json.Serialize | aggregator/fractal_hash.py:13 | `json.dumps(..., sort_keys=True)`: string, array and object texts open and close with their delimiters; independence of key order is `Json.KeyOrderIrrelevant`, and the unambiguous read-back of string arrays is `Json.ReadStringArraySerialized` |
| KeyOrder.SortInsertionOrder | aggregator/fractal_hash.py:13 | three members inserted with keys k1, k2, k3, where k2 < k3 < k1, are sorted to k2, k3, k1 |
| Json.KeyOrderIrrelevant | aggregator/fractal_hash.py:13 | two dicts with the same members in any insertion order serialise to the same text |
| Json.SameUpToKeyOrderSerialize | aggregator/fractal_hash.py:13 | `sort_keys=True` works at every depth: two values whose objects, nested ones included, differ only in key insertion order (`Json.SameUpToKeyOrder`: distinct keys, members matched by key) serialise to the same text |
| Json.PermutedMembersSame | aggregator/fractal_hash.py:13 | reordering a dict's members with their values unchanged is a case of `Json.SameUpToKeyOrder` |
| Json.ReadStringArraySerialized | aggregator/fractal_hash.py:13 | the text of a string array (such as tags) can be read back into the array, element order included |
| Json.StringArrayInjective | aggregator/fractal_hash.py:13 | distinct string arrays, including reorderings of each other, serialise differently |
| FractalHash.ContentHash | aggregator/fractal_hash.py:10 | stage 1 is a 64-digit lowercase hexdigest and takes only the compressed bytes |
| FractalHash.MetadataHash | aggregator/fractal_hash.py:13-14 | stage 2 is a 64-digit lowercase hexdigest and takes only the metadata |
| FractalHash.Derive | aggregator/fractal_hash.py:4-19 | the identifier is always 64 lowercase hex digits |
| FractalHash.Combined | aggregator/fractal_hash.py:17 | the joined text is both digests with one colon between them, at the index equal to the first digest's length; `FractalHash.SplitCombined` inverts it and `FractalHash.CombinedInjective` shows it is injective on hex digests |
| FractalHash.Preimage | aggregator/fractal_hash.py:17-18 | the bytes hashed in stage 3 decode strictly back to the combined digest text; their shape is `FractalHash.PreimageShape` and their separation of the two digests is `FractalHash.PreimageSeparatesDigests` |
| FractalHash.SplitAtColon | aggregator/fractal_hash.py:17 | splitting at the first colon returns a colon-free head and a tail that rejoin to the input |
| FractalHash.SplitCombined | aggregator/fractal_hash.py:17 | splitting `content_hash:metadata_hash` at its colon recovers both digests |
| FractalHash.CombinedInjective | aggregator/fractal_hash.py:17 | the colon join is injective on hex digests |
| FractalHash.PreimageShape | aggregator/fractal_hash.py:17-18 | the stage-3 pre-image is 129 characters and 129 bytes, with the colon at index 64 |
| FractalHash.PreimageSeparatesDigests | aggregator/fractal_hash.py:10-18 | two inputs give the same stage-3 pre-image iff their content digests and their metadata digests both agree |
| FractalHash.IdentityUpToKeyOrder | aggregator/fractal_hash.py:13-18 | metadata that differs only in key insertion order, at any depth, has the same text, the same digest and the same identifier |
| FractalHash.KeyOrderIndependent | aggregator/fractal_hash.py:13-18 | the top-level case: permuting the metadata's members changes neither the metadata text, its digest, nor the identifier |
| Aggregator.MetadataJson | aggregator/aggregator.py:14-23 | the metadata dict has three members with distinct keys, as `Json.KeyOrderIrrelevant` needs; its sorted text is `Aggregator.MetadataTextLayout`, and its dependence on tag order is `Aggregator.TagOrderMatters` |
| Aggregator.SourceKeyOrderIrrelevant | aggregator/aggregator.py:14-26 | building every nested source dict url-first instead of type-first leaves the metadata text and the uuid unchanged |
| Aggregator.CreateAku | aggregator/aggregator.py:7-41 | uuid is the fractal hash of exactly the record's compressed content and metadata. Tags are the caller's, verbatim. There are 384 zero embeddings and one source `{type: "general", url: source}`. All three metrics are zero |
| Aggregator.DecompressContent | aggregator/aggregator.py:61-65 | a corrupt frame is an error. A frame whose bytes are the UTF-8 encoding of some text returns exactly that text, and any successful result is text whose UTF-8 encoding is exactly the decompressed bytes |
| Aggregator.CreateDecompress | aggregator/aggregator.py:7-65 | given a reversible codec, decompressing a freshly created AKU yields the original text |
| Aggregator.MetricsDoNotAffectIdentity | aggregator/aggregator.py:26-40 | an AKU's uuid is consistent with its content and metadata iff it still is after its metrics are replaced: metrics do not enter the identity |
| Aggregator.MetadataTextLayout | aggregator/fractal_hash.py:13 | create_aku inserts the metadata keys as tags, embeddings, sources. Serialised, they come out as embeddings, sources, tags |
| Aggregator.TagsDeterminedByText | aggregator/fractal_hash.py:13 | with embeddings and sources fixed, equal metadata texts have equal tag lists |
| Aggregator.TagOrderMatters | aggregator/fractal_hash.py:13 | metadata that differs only in its tags, even only in tag order, serialises differently |
| Json.ObjectTextOfThree | aggregator/fractal_hash.py:13 | a three-member dict with distinct keys a < b < c is written with its members in the order a, b, c, for every one of the six insertion orders |
| Store.ToEnvelope | aggregator/aggregator.py:46-47 | the stored copy keeps uuid, metadata and metrics. Its content is lowercase hex of twice the length, and fromhex turns it back into the original bytes |
| Store.StoreAku | aggregator/aggregator.py:43-51 | after storing, the returned CID holds the envelope, and every other CID holds what it held before |
| Store.RetrieveAku | aggregator/aggregator.py:53-59 | an unknown CID is NotFound. Text that fromhex rejects is InvalidHex. Retrieval succeeds exactly when the CID is present and its text is valid hex, and then the result carries the envelope's uuid, metadata and metrics and the bytes fromhex produces |
| Store.StoreRetrieve | aggregator/aggregator.py:43-59 | retrieving by the CID store_aku returned gives back the same AKU, field for field |
| Store.StoreKeepsOthers | aggregator/aggregator.py:50 | storing does not change what any other CID retrieves |
| Store.CreateStoreRetrieve | aggregator/tests/test_aggregator.py:10-29 | create, store, retrieve and decompress: the same record comes back, so the uuid is unchanged and still consistent, and the text is the original |
| Tags.StripBounds | aggregator/aggregator.py:90 | strip removes a whitespace prefix and suffix, and keeps a part that neither starts nor ends with whitespace; an all-whitespace text keeps nothing, with both bounds at its end |
| Tags.Strip | aggregator/aggregator.py:90 | a stripped tag has no leading or trailing whitespace and only characters of the input |
| Tags.StripIdempotent | aggregator/aggregator.py:90 | stripping twice equals stripping once |
| Tags.Split | aggregator/aggregator.py:90 | `split(",")` always yields at least one piece |
| Tags.SplitCount | aggregator/aggregator.py:90 | split yields one more piece than there are commas |
| Tags.SplitPiecesFree | aggregator/aggregator.py:90 | no piece contains a comma |
| Tags.JoinSplit | aggregator/aggregator.py:90 | `",".join(s.split(","))` is `s` |
| Tags.SplitSnoc | aggregator/aggregator.py:90 | appending a character either starts a new piece (on a comma) or extends the last piece |
| Tags.ParseTags | aggregator/aggregator.py:90 | an empty argument gives no tags. Otherwise the tags are the stripped comma-separated pieces, one more than the number of commas, none containing a comma or edge whitespace |

## Left out

- `aggregator/ipfs_utils.py` and `agents/miner.py`. They are subprocess calls, HTTP requests,
  polling and sleeping, so they are pure I/O.
- The IPFS client: `ipfshttpclient.connect`, `add_json` and `get_json` (`aggregator/aggregator.py:50,55,86`).
  The backend is a map from CID to envelope. The CID derivation is a parameter.
- The JSON text of the stored envelope (`json.dumps`/`json.loads` at `aggregator/aggregator.py:49,56`).
  The backend holds the envelope value itself, so that encoding is taken as lossless. Envelopes with
  missing fields or non-string content cannot be expressed in the typed model.
- zstd internals and its frame format. The codec is a pair of functions whose round trip is a
  hypothesis (`Reversible`).
- SHA-256 internals. The hash is any function to 32-byte digests, and no collision resistance is
  assumed. "Different tags give a different identifier" is therefore stated about the metadata text
  (`Aggregator.TagOrderMatters`), not about the digest.
- Byte-exact `json.dumps` output. `ensure_ascii` escaping of non-ASCII characters, and `\u00XX`
  escapes for control characters other than `\b \f \n \r \t`, are not reproduced. Strings keep those
  characters verbatim. Only the JSON values the metadata uses are modelled: strings, arrays, objects,
  and integral floats written as `n.0`.
- Aggregator.CreateAku: has no error path for lone surrogates. A Python `str` can hold them (for
  example, arguments decoded with `surrogateescape`), and `content.encode('utf-8')` at
  `aggregator/aggregator.py:11` then raises `UnicodeEncodeError`, so `create_aku` fails. A Dafny
  `char` is a Unicode scalar value, so such input cannot be expressed and `CreateAku` always succeeds.
- Floating point. Embeddings are integral float values, written `n.0`, and metrics are exact reals.
  Only zeros ever occur.
- argparse, printing, and the `retrieve` command's output (`aggregator/aggregator.py:67-110`), apart
  from the tag expression at line 90.
- Versioning, history, `created_at`, an `agent` field, and the typed error taxonomy (version
  conflicts, integrity errors, backend write/availability errors). None of them exists in the code.
