/**
 * The three-stage identity derivation of `fractal_hash`: a digest of the
 * compressed bytes, a digest of the key-sorted metadata text, and a digest of
 * the two hex digests joined by ':'. SHA-256 (FIPS 180-4, section 6.2) is a
 * parameter: any function from byte strings to 32-byte digests.
 */
module FractalHash {
  import opened Wrappers
  import opened Utf8
  import Hex
  import opened KeyOrder
  import opened Json

  /** A SHA-256 output: 32 bytes. */
  type Digest = s: seq<byte> | |s| == 32 witness seq(32, _ => 0 as byte)

  /** SHA-256, left uninterpreted. */
  type Sha256 = seq<byte> -> Digest

  /** A `hexdigest()`: 64 lowercase hex digits. */
  predicate IsHexDigest(s: string) {
    |s| == 64 && Hex.IsLowerHex(s)
  }

  /** Stage 1: the hex digest of the compressed content. */
  function ContentHash(sha: Sha256, compressed: seq<byte>): (r: string)
    ensures IsHexDigest(r)
  {
    Hex.Encode(sha(compressed))
  }

  /** Stage 2: the hex digest of the UTF-8 bytes of the key-sorted metadata text. */
  function MetadataHash(sha: Sha256, metadata: Json): (r: string)
    ensures IsHexDigest(r)
  {
    Hex.Encode(sha(Utf8.Encode(Serialize(metadata))))
  }

  /** `content_hash + ":" + metadata_hash`. */
  function Combined(contentHash: string, metadataHash: string): (r: string)
    ensures |r| == |contentHash| + 1 + |metadataHash| && r[|contentHash|] == ':'
  {
    contentHash + ":" + metadataHash
  }

  /** The bytes hashed in stage 3. */
  function Preimage(sha: Sha256, compressed: seq<byte>, metadata: Json): (r: seq<byte>)
    ensures Utf8.Decode(r) == Some(Combined(ContentHash(sha, compressed), MetadataHash(sha, metadata)))
  {
    var s := Combined(ContentHash(sha, compressed), MetadataHash(sha, metadata));
    Utf8.DecodeEncode(s);
    Utf8.Encode(s)
  }

  /** Stage 3: the identity, always a 64-digit lowercase hex digest. */
  function Derive(sha: Sha256, compressed: seq<byte>, metadata: Json): (r: string)
    ensures IsHexDigest(r)
  {
    Hex.Encode(sha(Preimage(sha, compressed, metadata)))
  }

  /** Splits at the first ':', as `s.split(":", 1)` does. */
  function SplitAtColon(s: string): (r: Option<(string, string)>)
    ensures r.Some? ==> ':' !in r.value.0 && s == r.value.0 + ":" + r.value.1
  {
    if s == [] then None
    else if s[0] == ':' then
      assert s == [] + ":" + s[1..];
      Some(([], s[1..]))
    else
      match SplitAtColon(s[1..])
      case None => None
      case Some((a, b)) =>
        assert s == [s[0]] + a + ":" + b;
        Some(([s[0]] + a, b))
  }

  /** Hex digits never include ':', so splitting the join at its colon gives both digests back. */
  lemma {:induction false} SplitCombined(contentHash: string, metadataHash: string)
    requires Hex.IsLowerHex(contentHash)
    ensures SplitAtColon(Combined(contentHash, metadataHash)) == Some((contentHash, metadataHash))
  {
    if contentHash != [] {
      var s := Combined(contentHash, metadataHash);
      assert s[1..] == Combined(contentHash[1..], metadataHash);
      assert Hex.IsLowerHex(contentHash[1..]);
      SplitCombined(contentHash[1..], metadataHash);
      assert [contentHash[0]] + contentHash[1..] == contentHash;
    }
  }

  /** The join is injective on hex digests. */
  lemma CombinedInjective(c1: string, m1: string, c2: string, m2: string)
    requires Hex.IsLowerHex(c1) && Hex.IsLowerHex(c2)
    requires Combined(c1, m1) == Combined(c2, m2)
    ensures c1 == c2 && m1 == m2
  {
    SplitCombined(c1, m1);
    SplitCombined(c2, m2);
  }

  /** The stage-3 pre-image is 129 bytes: 64 digits, a colon at index 64, 64 digits. */
  lemma PreimageShape(sha: Sha256, compressed: seq<byte>, metadata: Json)
    ensures |Combined(ContentHash(sha, compressed), MetadataHash(sha, metadata))| == 129
    ensures Combined(ContentHash(sha, compressed), MetadataHash(sha, metadata))[64] == ':'
    ensures |Preimage(sha, compressed, metadata)| == 129
    ensures Preimage(sha, compressed, metadata)[64] as int == ':' as int
  {
    var s := Combined(ContentHash(sha, compressed), MetadataHash(sha, metadata));
    assert IsAscii(s);
    EncodeAscii(s);
  }

  /**
   * The two digests stay separate: stage 3 hashes the same bytes for two
   * inputs exactly when both the content digests and the metadata digests agree.
   */
  lemma PreimageSeparatesDigests(sha: Sha256, c1: seq<byte>, m1: Json, c2: seq<byte>, m2: Json)
    ensures Preimage(sha, c1, m1) == Preimage(sha, c2, m2)
        <==> ContentHash(sha, c1) == ContentHash(sha, c2) && MetadataHash(sha, m1) == MetadataHash(sha, m2)
  {
    if Preimage(sha, c1, m1) == Preimage(sha, c2, m2) {
      DecodeEncode(Combined(ContentHash(sha, c1), MetadataHash(sha, m1)));
      DecodeEncode(Combined(ContentHash(sha, c2), MetadataHash(sha, m2)));
      CombinedInjective(ContentHash(sha, c1), MetadataHash(sha, m1), ContentHash(sha, c2), MetadataHash(sha, m2));
    }
  }

  /**
   * Key insertion order, at any depth of the metadata, changes neither its
   * text, its digest nor the identity.
   */
  lemma IdentityUpToKeyOrder(sha: Sha256, compressed: seq<byte>, m1: Json, m2: Json)
    requires SameUpToKeyOrder(m1, m2)
    ensures Serialize(m1) == Serialize(m2)
    ensures MetadataHash(sha, m1) == MetadataHash(sha, m2)
    ensures Derive(sha, compressed, m1) == Derive(sha, compressed, m2)
  {
    SameUpToKeyOrderSerialize(m1, m2);
  }

  /**
   * Permuting the insertion order of a metadata dict's top-level keys changes
   * neither its text, its digest nor the identity.
   */
  lemma KeyOrderIndependent(sha: Sha256, compressed: seq<byte>, fs: seq<(string, Json)>, gs: seq<(string, Json)>)
    requires DistinctKeys(fs) && DistinctKeys(gs)
    requires multiset(fs) == multiset(gs)
    ensures Serialize(JObj(fs)) == Serialize(JObj(gs))
    ensures MetadataHash(sha, JObj(fs)) == MetadataHash(sha, JObj(gs))
    ensures Derive(sha, compressed, JObj(fs)) == Derive(sha, compressed, JObj(gs))
  {
    PermutedMembersSame(fs, gs);
    IdentityUpToKeyOrder(sha, compressed, JObj(fs), JObj(gs));
  }
}
