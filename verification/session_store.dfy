/**
 * `read` and `write`: the handler's boundary with the underlying store.
 * Both turn the session id they are given into a store key with
 * `id_mutator` and hand the payload over, transcoded between the store's
 * JSON and PHP's native serialization.
 *
 * The underlying store (the parent handler's read and write) is an explicit
 * map from keys to payload strings. The transcoding (JSON decode then PHP
 * serialize on read, PHP unserialize then JSON encode on write) is a pair
 * of opaque total functions: nothing in the handler looks inside a payload.
 */
module SessionStore {
  import opened SessionId

  /** The underlying key-value store: store keys to stored payloads. */
  type Store = map<string, string>

  /** The two payload conversions, store format to runtime format and back. */
  datatype Transcoder = Transcoder(toRuntime: string -> string, toStore: string -> string)

  /** The parent handler's read: the stored payload, or the empty string when the key holds none. */
  function Fetch(store: Store, key: string): (payload: string)
    ensures key in store ==> payload == store[key]
    ensures key !in store ==> payload == ""
  {
    if key in store then store[key] else ""
  }

  /** `read`: fetch under the store key of `sessionId`, converted for the runtime. */
  function Read(store: Store, codec: Transcoder, sessionId: string): (data: string)
    ensures IdMutator(sessionId) in store ==> data == codec.toRuntime(store[IdMutator(sessionId)])
    ensures IdMutator(sessionId) !in store ==> data == codec.toRuntime("")
  {
    codec.toRuntime(Fetch(store, IdMutator(sessionId)))
  }

  /**
   * `write`: store the converted payload under the store key of
   * `sessionId`. Every other entry of the store is left as it was.
   */
  function Write(store: Store, codec: Transcoder, sessionId: string, data: string): (r: Store)
    ensures r.Keys == store.Keys + {IdMutator(sessionId)}
    ensures r[IdMutator(sessionId)] == codec.toStore(data)
    ensures forall k :: k in store && k != IdMutator(sessionId) ==> r[k] == store[k]
  {
    store[IdMutator(sessionId) := codec.toStore(data)]
  }

  /**
   * Reading depends on the session id only through its store key: ids
   * with the same key read the same payload, whatever their signatures.
   */
  lemma ReadSameKey(store: Store, codec: Transcoder, a: string, b: string)
    requires IdMutator(a) == IdMutator(b)
    ensures Read(store, codec, a) == Read(store, codec, b)
  {
  }

  /**
   * A signed id and its bare forms address the same entry: `s:X.sig`,
   * `X.sig`, `s:X` and `X` all read entry `X`, and no signature is checked.
   */
  lemma {:induction false} SignedAndBareReadSameEntry(store: Store, codec: Transcoder, x: string, sig: string)
    requires Separator !in x && !HasSignedPrefix(x)
    ensures Read(store, codec, SignedPrefix + x + [Separator] + sig) == codec.toRuntime(Fetch(store, x))
    ensures Read(store, codec, x + [Separator] + sig) == codec.toRuntime(Fetch(store, x))
    ensures Read(store, codec, SignedPrefix + x) == codec.toRuntime(Fetch(store, x))
    ensures Read(store, codec, x) == codec.toRuntime(Fetch(store, x))
  {
    IdMutatorForms(x, sig);
  }

  /** An id issued by `create_sid` for a raw id without `.` reads the entry of that raw id. */
  lemma {:induction false} CreatedIdReadsRawEntry(store: Store, codec: Transcoder, rawId: string, secret: string, mac: Mac)
    requires Separator !in rawId
    ensures Read(store, codec, CreateSid(rawId, secret, mac)) == codec.toRuntime(Fetch(store, rawId))
  {
    IdMutatorCreateSid(rawId, secret, mac);
  }

  /**
   * Write then read: reading through any id with the same store key gives
   * back the written payload, converted to the store format and back.
   */
  lemma WriteThenRead(store: Store, codec: Transcoder, a: string, b: string, data: string)
    requires IdMutator(a) == IdMutator(b)
    ensures Read(Write(store, codec, a, data), codec, b) == codec.toRuntime(codec.toStore(data))
  {
  }

  /** A write through one store key is invisible to reads through any other. */
  lemma WriteOtherKey(store: Store, codec: Transcoder, a: string, b: string, data: string)
    ensures IdMutator(a) != IdMutator(b) ==> Read(Write(store, codec, a, data), codec, b) == Read(store, codec, b)
  {
  }

  /**
   * Writing through the signed id `create_sid` issued and reading through
   * the bare raw id meet at the same entry.
   */
  lemma {:induction false} WriteSignedReadBare(store: Store, codec: Transcoder, rawId: string, secret: string, mac: Mac, data: string)
    requires Separator !in rawId && !HasSignedPrefix(rawId)
    ensures Read(Write(store, codec, CreateSid(rawId, secret, mac), data), codec, rawId) == codec.toRuntime(codec.toStore(data))
  {
    IdMutatorCreateSid(rawId, secret, mac);
    IdMutatorUnsigned(rawId);
  }
}
