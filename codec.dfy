/** Persisting the document in the URL fragment:
    `serialize = base64(deflate(JSON.stringify(state)))` and `deserialize`,
    its reverse, which falls back to the empty document whenever any stage
    throws.  JSON, zlib and base64 are library code; the model receives them
    as the stage functions of a Pipeline, with `None` standing for a throw. */
module Codec {
  import opened Wrappers
  import opened Document

  newtype Byte = x: int | 0 <= x < 256

  datatype Pipeline<!C> = Pipeline(
    pack: State<C> -> string,              // JSON.stringify
    unpack: string -> Option<State<C>>,    // JSON.parse(...) as State; None when it throws
    deflate: string -> seq<Byte>,          // pako.deflate
    inflate: seq<Byte> -> Option<string>,  // pako.inflate(..., {to: 'string'}); None when it throws
    toBase64: seq<Byte> -> string,         // Buffer#toString('base64')
    fromBase64: string -> seq<Byte>)       // Buffer.from(..., 'base64'), which never throws

  /** `serialize(state)`.  When each library stage undoes its partner, the
      serialized document decodes back to itself. */
  function Serialize<C>(p: Pipeline<C>, s: State<C>): (hash: string)
    ensures p.unpack(p.pack(s)) == Some(s)
         && p.inflate(p.deflate(p.pack(s))) == Some(p.pack(s))
         && p.fromBase64(p.toBase64(p.deflate(p.pack(s)))) == p.deflate(p.pack(s))
         ==> Deserialize(p, hash) == s
  {
    p.toBase64(p.deflate(p.pack(s)))
  }

  /** The body of the `try`: the decoded document, or None for a throw.  It
      succeeds exactly when neither inflating nor parsing throws, and then it
      is what parsing gives. */
  function Decode<C>(p: Pipeline<C>, hash: string): (r: Option<State<C>>)
    ensures r.Some? <==> p.inflate(p.fromBase64(hash)).Some? && p.unpack(p.inflate(p.fromBase64(hash)).value).Some?
    ensures r.Some? ==> r == p.unpack(p.inflate(p.fromBase64(hash)).value)
  {
    match p.inflate(p.fromBase64(hash))
    case None => None
    case Some(text) => p.unpack(text)
  }

  /** `deserialize(compressedState)`.  (`compressedState || ''` is the string
      itself for every string.)  The result is either the whole decoded
      document or exactly the empty one, never part of a document. */
  function Deserialize<C>(p: Pipeline<C>, hash: string): (r: State<C>)
    ensures r == InitialState() || Decode(p, hash) == Some(r)
    ensures Decode(p, hash).Some? ==> r == Decode(p, hash).value
    ensures Decode(p, hash).None? ==> r == InitialState()
  {
    Decode(p, hash).GetOr(InitialState())
  }

  /** A failure at either stage that can throw gives the empty document, which
      satisfies the document invariant. */
  lemma DeserializeFallback<C>(p: Pipeline<C>, hash: string)
    requires p.inflate(p.fromBase64(hash)).None?
          || (p.inflate(p.fromBase64(hash)).Some? && p.unpack(p.inflate(p.fromBase64(hash)).value).None?)
    ensures Deserialize(p, hash) == InitialState()
    ensures WellFormed(Deserialize(p, hash))
  {
  }
}
