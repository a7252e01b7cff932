/**
 * `store_aku` and `retrieve_aku` over a content-addressed backend. The IPFS
 * node is a map from CID to the stored envelope; the CID the node assigns to
 * an envelope is a parameter, since its addressing scheme is the node's own.
 */
module Store {
  import opened Wrappers
  import Hex
  import opened FractalHash
  import opened Aggregator

  /** The serialised copy of an AKU: content_compressed replaced by its hex text. */
  datatype Envelope = Envelope(uuid: string, contentHex: string, metadata: Metadata, metrics: Metrics)

  type Cid = string

  /** The backend's contents: what each CID holds. */
  type Backend = map<Cid, Envelope>

  /** How the backend addresses what it is given. */
  type Addressing = Envelope -> Cid

  datatype RetrieveError =
    | NotFound(cid: Cid)       // nothing was ever stored under the CID
    | InvalidHex(cid: Cid)     // `bytes.fromhex` rejects the stored content text

  /** The shallow copy store_aku serialises; the caller's AKU is a value and is left as it was. */
  function ToEnvelope(a: Aku): (e: Envelope)
    ensures e.uuid == a.uuid && e.metadata == a.metadata && e.metrics == a.metrics
    ensures |e.contentHex| == 2 * |a.contentCompressed| && Hex.IsLowerHex(e.contentHex)
    ensures Hex.Decode(e.contentHex) == Some(a.contentCompressed)
  {
    Hex.DecodeEncode(a.contentCompressed);
    Envelope(a.uuid, Hex.Encode(a.contentCompressed), a.metadata, a.metrics)
  }

  /** `store_aku`: adds the envelope to the backend and returns the updated backend and the CID. */
  function StoreAku(backend: Backend, address: Addressing, a: Aku): (r: (Backend, Cid))
    ensures r.1 == address(ToEnvelope(a))
    ensures r.1 in r.0 && r.0[r.1] == ToEnvelope(a)
    ensures r.0.Keys == backend.Keys + {r.1}
    ensures forall c :: c in backend && c != r.1 ==> r.0[c] == backend[c]
  {
    var e := ToEnvelope(a);
    var cid := address(e);
    (backend[cid := e], cid)
  }

  /** `retrieve_aku`: fetches the envelope under `cid` and turns its hex text back into bytes. */
  function RetrieveAku(backend: Backend, cid: Cid): (r: Result<Aku, RetrieveError>)
    ensures r == Err(NotFound(cid)) <==> cid !in backend
    ensures r == Err(InvalidHex(cid)) <==> cid in backend && Hex.Decode(backend[cid].contentHex).None?
    ensures r.Ok? <==> cid in backend && Hex.Decode(backend[cid].contentHex).Some?
    ensures r.Ok? ==>
      && cid in backend
      && r.value.uuid == backend[cid].uuid
      && r.value.metadata == backend[cid].metadata
      && r.value.metrics == backend[cid].metrics
      && Hex.Decode(backend[cid].contentHex) == Some(r.value.contentCompressed)
  {
    if cid !in backend then Err(NotFound(cid))
    else
      var e := backend[cid];
      match Hex.Decode(e.contentHex)
      case None => Err(InvalidHex(cid))
      case Some(bytes) => Ok(Aku(e.uuid, bytes, e.metadata, e.metrics))
  }

  /** Retrieving what was just stored gives back the same AKU, field for field. */
  lemma StoreRetrieve(backend: Backend, address: Addressing, a: Aku)
    ensures RetrieveAku(StoreAku(backend, address, a).0, StoreAku(backend, address, a).1) == Ok(a)
  {
  }

  /** Storing leaves every other AKU retrievable exactly as before. */
  lemma StoreKeepsOthers(backend: Backend, address: Addressing, a: Aku, cid: Cid)
    requires cid != StoreAku(backend, address, a).1
    ensures RetrieveAku(StoreAku(backend, address, a).0, cid) == RetrieveAku(backend, cid)
  {
  }

  /**
   * The end-to-end promise: create an AKU, store it, retrieve it by its CID
   * and decompress it. The same record comes back, so in particular the same
   * uuid; that uuid still matches the content and metadata; and the text is
   * the original one.
   */
  lemma CreateStoreRetrieve(codec: Codec, sha: Sha256, address: Addressing, backend: Backend,
                            content: string, tags: seq<string>, source: string)
    requires Reversible(codec)
    ensures var a := CreateAku(codec, sha, content, tags, source);
            var (backend', cid) := StoreAku(backend, address, a);
            var r := RetrieveAku(backend', cid);
            && r == Ok(a)
            && r.value.uuid == a.uuid
            && IdentityConsistent(sha, r.value)
            && DecompressContent(codec, r.value) == Ok(content)
  {
    var a := CreateAku(codec, sha, content, tags, source);
    StoreRetrieve(backend, address, a);
    CreateDecompress(codec, sha, content, tags, source);
  }
}
