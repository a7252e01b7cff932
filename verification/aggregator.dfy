/**
 * AKU construction and content recovery (`create_aku`, `decompress_content`).
 * The zstd codec is a pair of functions; the only thing assumed of it is that
 * decompression undoes compression (`Reversible`).
 */
module Aggregator {
  import opened Wrappers
  import opened Utf8
  import opened KeyOrder
  import opened Json
  import opened FractalHash

  /** Length of the placeholder embedding vector. */
  const EmbeddingSize: nat := 384

  /** A provenance entry `{"type": kind, "url": url}`. */
  datatype Source = Source(kind: string, url: string)

  /** Embedding entries are floats with integral values; only zeros occur. */
  datatype Metadata = Metadata(tags: seq<string>, embeddings: seq<int>, sources: seq<Source>)

  datatype Metrics = Metrics(richness: real, truthfulness: real, stability: real)

  /** The AKU record: exactly the four fields uuid, content_compressed, metadata and metrics. */
  datatype Aku = Aku(uuid: string, contentCompressed: seq<byte>, metadata: Metadata, metrics: Metrics)

  /** A zstd compressor/decompressor pair; decompression fails on a corrupt frame. */
  datatype Codec = Codec(compress: seq<byte> -> seq<byte>, decompress: seq<byte> -> Option<seq<byte>>)

  /** The codec's round trip, the one property relied on. */
  ghost predicate Reversible(codec: Codec) {
    forall b :: codec.decompress(codec.compress(b)) == Some(b)
  }

  function SourceJson(s: Source): Json {
    JObj([("type", JStr(s.kind)), ("url", JStr(s.url))])
  }

  function EmbeddingsJson(e: seq<int>): Json {
    JArr(seq(|e|, i requires 0 <= i < |e| => JNum(e[i])))
  }

  function SourcesJson(ss: seq<Source>): Json {
    JArr(seq(|ss|, i requires 0 <= i < |ss| => SourceJson(ss[i])))
  }

  /** The metadata dict, keys in the order create_aku inserts them. */
  function MetadataJson(m: Metadata): (r: Json)
    ensures r.JObj? && |r.fields| == 3 && DistinctKeys(r.fields)
  {
    JObj([("tags", StringArray(m.tags)), ("embeddings", EmbeddingsJson(m.embeddings)),
          ("sources", SourcesJson(m.sources))])
  }

  /** A source dict built with its keys the other way round: url first, then type. */
  function SourceJsonUrlFirst(s: Source): Json {
    JObj([("url", JStr(s.url)), ("type", JStr(s.kind))])
  }

  function SourcesJsonUrlFirst(ss: seq<Source>): Json {
    JArr(seq(|ss|, i requires 0 <= i < |ss| => SourceJsonUrlFirst(ss[i])))
  }

  /** The metadata dict with every source dict built url-first. */
  function MetadataJsonUrlFirst(m: Metadata): Json {
    JObj([("tags", StringArray(m.tags)), ("embeddings", EmbeddingsJson(m.embeddings)),
          ("sources", SourcesJsonUrlFirst(m.sources))])
  }

  lemma SourcesSameUpToKeyOrder(ss: seq<Source>)
    ensures SameUpToKeyOrder(SourcesJson(ss), SourcesJsonUrlFirst(ss))
  {
    var a := SourcesJson(ss);
    var b := SourcesJsonUrlFirst(ss);
    forall i | 0 <= i < |ss|
      ensures SameUpToKeyOrder(a.items[i], b.items[i])
    {
      var f := SourceJson(ss[i]).fields;
      var g := SourceJsonUrlFirst(ss[i]).fields;
      assert multiset(f) == multiset(g);
      PermutedMembersSame(f, g);
    }
  }

  /** The nested source dicts are canonicalised too: building them url-first leaves the uuid unchanged. */
  lemma SourceKeyOrderIrrelevant(sha: Sha256, compressed: seq<byte>, m: Metadata)
    ensures Serialize(MetadataJsonUrlFirst(m)) == Serialize(MetadataJson(m))
    ensures Derive(sha, compressed, MetadataJsonUrlFirst(m)) == Derive(sha, compressed, MetadataJson(m))
  {
    SourcesSameUpToKeyOrder(m.sources);
    LastMemberSame("tags", StringArray(m.tags), "embeddings", EmbeddingsJson(m.embeddings),
                   "sources", SourcesJson(m.sources), SourcesJsonUrlFirst(m.sources));
    IdentityUpToKeyOrder(sha, compressed, MetadataJson(m), MetadataJsonUrlFirst(m));
  }

  /** An AKU whose uuid is the fractal hash of its own content and metadata. */
  ghost predicate IdentityConsistent(sha: Sha256, a: Aku) {
    a.uuid == Derive(sha, a.contentCompressed, MetadataJson(a.metadata))
  }

  /** `create_aku(content, tags, source)`. */
  function CreateAku(codec: Codec, sha: Sha256, content: string, tags: seq<string>, source: string): (a: Aku)
    ensures IdentityConsistent(sha, a)
    ensures IsHexDigest(a.uuid)
    ensures a.contentCompressed == codec.compress(Utf8.Encode(content))
    ensures a.metadata.tags == tags
    ensures |a.metadata.embeddings| == EmbeddingSize
    ensures forall i :: 0 <= i < |a.metadata.embeddings| ==> a.metadata.embeddings[i] == 0
    ensures a.metadata.sources == [Source("general", source)]
    ensures a.metrics.richness == 0.0 && a.metrics.truthfulness == 0.0 && a.metrics.stability == 0.0
  {
    var compressed := codec.compress(Utf8.Encode(content));
    var metadata := Metadata(tags, seq(EmbeddingSize, _ => 0), [Source("general", source)]);
    var uuid := Derive(sha, compressed, MetadataJson(metadata));
    Aku(uuid, compressed, metadata, Metrics(0.0, 0.0, 0.0))
  }

  datatype DecompressError = CorruptFrame | InvalidUtf8

  /** `decompress_content`: zstd-decompress, then strict UTF-8 decode. */
  function DecompressContent(codec: Codec, a: Aku): (r: Result<string, DecompressError>)
    ensures codec.decompress(a.contentCompressed).None? <==> r == Err(CorruptFrame)
    ensures r.Ok? ==> codec.decompress(a.contentCompressed) == Some(Utf8.Encode(r.value))
    ensures forall t :: codec.decompress(a.contentCompressed) == Some(Utf8.Encode(t)) ==> r == Ok(t)
  {
    match codec.decompress(a.contentCompressed)
    case None => Err(CorruptFrame)
    case Some(raw) =>
      Utf8.DecodeEncodings(raw);
      match Utf8.Decode(raw)
      case None => Err(InvalidUtf8)
      case Some(text) =>
        Utf8.EncodeDecode(raw);
        Ok(text)
  }

  /** The text put into create_aku comes back out of decompress_content. */
  lemma CreateDecompress(codec: Codec, sha: Sha256, content: string, tags: seq<string>, source: string)
    requires Reversible(codec)
    ensures DecompressContent(codec, CreateAku(codec, sha, content, tags, source)) == Ok(content)
  {
    var raw := Utf8.Encode(content);
    assert codec.decompress(codec.compress(raw)) == Some(raw);
    Utf8.DecodeEncode(content);
  }

  /**
   * Metrics are not an input of the identity: rescoring an AKU keeps its uuid
   * consistent with its content and metadata.
   */
  lemma MetricsDoNotAffectIdentity(sha: Sha256, a: Aku, m: Metrics)
    ensures IdentityConsistent(sha, a.(metrics := m)) <==> IdentityConsistent(sha, a)
  {
  }

  lemma MetadataKeysOrdered()
    ensures StrLt("embeddings", "sources") && StrLt("sources", "tags")
  {
  }

  /**
   * The metadata text has its keys sorted: embeddings, then sources, then
   * tags, whatever order create_aku inserted them in; the tag list comes last.
   */
  lemma MetadataTextLayout(m: Metadata)
    ensures Serialize(MetadataJson(m))
         == "{" + (MemberText("embeddings", Serialize(EmbeddingsJson(m.embeddings))) + ", "
                 + MemberText("sources", Serialize(SourcesJson(m.sources))) + ", "
                 + MemberText("tags", Serialize(StringArray(m.tags)))) + "}"
  {
    var fields := MetadataJson(m).fields;
    var tv := Serialize(StringArray(m.tags));
    var ev := Serialize(EmbeddingsJson(m.embeddings));
    var sv := Serialize(SourcesJson(m.sources));
    assert RenderFields(fields) == [("tags", tv), ("embeddings", ev), ("sources", sv)];
    SerializeObject(fields);
    MetadataKeysOrdered();
    ObjectTextRotated("tags", tv, "embeddings", ev, "sources", sv);
  }

  lemma CancelPrefix(pre: string, x: string, y: string)
    requires pre + x == pre + y
    ensures x == y
  {
    assert x == (pre + x)[|pre|..];
  }

  lemma CancelInObject(pre: string, x: string, y: string)
    requires "{" + (pre + x) + "}" == "{" + (pre + y) + "}"
    ensures x == y
  {
    var s := "{" + (pre + x) + "}";
    assert pre + x == s[1..|s| - 1];
    assert pre + y == ("{" + (pre + y) + "}")[1..|s| - 1];
    CancelPrefix(pre, x, y);
  }

  /** With embeddings and sources fixed, the metadata text determines the tag list. */
  lemma TagsDeterminedByText(m1: Metadata, m2: Metadata)
    requires m1.embeddings == m2.embeddings && m1.sources == m2.sources
    requires Serialize(MetadataJson(m1)) == Serialize(MetadataJson(m2))
    ensures m1.tags == m2.tags
  {
    var pre := MemberText("embeddings", Serialize(EmbeddingsJson(m1.embeddings))) + ", "
             + MemberText("sources", Serialize(SourcesJson(m1.sources))) + ", ";
    var t1 := Serialize(StringArray(m1.tags));
    var t2 := Serialize(StringArray(m2.tags));
    assert "{" + (pre + MemberText("tags", t1)) + "}" == "{" + (pre + MemberText("tags", t2)) + "}" by {
      MetadataTextLayout(m1);
      MetadataTextLayout(m2);
    }
    CancelInObject(pre, MemberText("tags", t1), MemberText("tags", t2));
    CancelPrefix(Quote("tags") + ": ", t1, t2);
    StringArrayTextInjective(m1.tags, m2.tags);
  }

  /**
   * Key sorting leaves array order alone: two metadata records that differ
   * only in their tags, even only in tag order, have different texts.
   */
  lemma TagOrderMatters(m1: Metadata, m2: Metadata)
    requires m1.embeddings == m2.embeddings && m1.sources == m2.sources
    requires m1.tags != m2.tags
    ensures Serialize(MetadataJson(m1)) != Serialize(MetadataJson(m2))
  {
    if Serialize(MetadataJson(m1)) == Serialize(MetadataJson(m2)) {
      TagsDeterminedByText(m1, m2);
    }
  }
}
