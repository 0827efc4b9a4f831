# ExpressSessionHandler, modelled in Dafny

`ExpressSessionHandler` is a PHP session save handler. It lets PHP share
sessions with a Node.js application that uses express-session. It does three
things:

- It issues session ids in express-session's signed-cookie form,
  `s:<rawId>.<signature>`. The signature is the Base64 of an HMAC-SHA256
  digest of the raw id, with every `=` removed.
- It turns any id a cookie carries back into the bare key the store uses.
  It drops one leading `s:` and everything from the first `.` on. The
  signature is never checked.
- It seeds each session with the `cookie` record express-session expects:
  `path`, `httpOnly` and `domain`, written only when the session has none.

The model is functional. Strings are `seq<char>`, and each byte of a PHP
string is read as one character, so every length in the contracts is a PHP
`strlen` value. The session and the store are immutable maps. Every operation
is a pure function.

| file | module | models |
|---|---|---|
| `wrappers.dfy` | `Wrappers` | `Option`, for searches and decoders that can fail |
| `base64.dfy` | `Base64` | `base64_encode` (RFC 4648 section 4, padded), a decoder for it, and the `=` removal |
| `session_id.dfy` | `SessionId` | `create_sid`, `id_mutator`, and the express-session signature check |
| `cookie_metadata.dfy` | `CookieMetadata` | `populateSession` |
| `session_store.dfy` | `SessionStore` | `read` and `write`, over an explicit store |

Some points where the model follows the code closely:

- The signature uses the standard Base64 alphabet (`+` and `/`), not the
  URL-safe one: the code calls `base64_encode`. express-session's signer
  (the cookie-signature package) does the same, taking `digest('base64')`
  and stripping the trailing `=`, so the two sides agree.
- All `=` characters are removed from the signature, not just trailing ones.
  `Base64.EncodeShape` proves that Base64 output has `=` only as trailing
  padding. So removing every `=` gives the same text as removing only the
  padding, which is what express-session does.
- `id_mutator(create_sid(x)) == x` holds exactly when `x` contains no `.`.
  It does not matter whether `x` itself starts with `s:`, because only one
  prefix is dropped.
- `id_mutator` is not idempotent: `s:s:x` becomes `s:x`, which becomes `x`.
  `SessionId.IdMutatorTwice` gives the exact condition for idempotence.
- `populateSession` tests the key with `isset`. So a `cookie` entry that
  holds `null` counts as absent and gets replaced. The model has a `Null`
  value for this reason.
- `read` and `write` cannot fail. PHP's JSON and serialization calls return
  null or false rather than raising, so the handler has no error path. The
  transcoding is modelled as a pair of total opaque functions.

## Model

| member | source | states |
|---|---|---|
| `SessionId.StripSignedPrefix` | src/ExpressSessionHandler.php:84-86 | When the id starts with `s:`, the id is `s:` followed by the result; otherwise the result is the id itself |
| `SessionId.FirstIndexOf` | src/ExpressSessionHandler.php:87 | Like `strpos`: returns none exactly when the character is absent; otherwise the position holds the character and no earlier position does |
| `SessionId.IdMutator` | src/ExpressSessionHandler.php:82-93 | The store key is the longest `.`-free prefix of the id after one leading `s:` is dropped, so it is everything before the first `.`, or everything if there is no `.`; it contains no `.` and is no longer than the id |
| `SessionId.StoreKeyUnique` | src/ExpressSessionHandler.php:87-92 | The "longest `.`-free prefix" description picks out exactly one string, so `IdMutator`'s contract fully determines its result |
| `SessionId.IdMutatorIgnoresSignature` | src/ExpressSessionHandler.php:88-91 | For `s:X.<anything>` with a `.`-free `X`, the result is `X` whatever follows the dot: the signature is never checked |
| `SessionId.IdMutatorBareSigned` | src/ExpressSessionHandler.php:84-92 | `X.sig` leads to `X` when `X` has no `.` and does not start with `s:` |
| `SessionId.IdMutatorUnsigned` | src/ExpressSessionHandler.php:84-92 | `s:X` and `X` both lead to `X` when `X` has no `.` and does not start with `s:` |
| `SessionId.IdMutatorForms` | src/ExpressSessionHandler.php:82-93 | `s:X.sig`, `X.sig`, `s:X` and `X` all give the same store key `X` |
| `SessionId.IdMutatorTwice` | src/ExpressSessionHandler.php:84-86 | Applying `id_mutator` to its own result changes nothing exactly when that result does not start with `s:` |
| `SessionId.IdMutatorNotIdempotent` | src/ExpressSessionHandler.php:84-86 | `s:s:x` becomes `s:x`, and a second application gives `x` |
| `SessionId.Signature` | src/ExpressSessionHandler.php:68-72 | The signature text uses only the 64-character Base64 alphabet, so it contains no `.` and no `=` |
| `SessionId.CreateSid` | src/ExpressSessionHandler.php:65-74 | The signed id starts with `s:`, then holds the raw id, a `.`, and an alphabet-only signature with no `=`; its length is the raw id's length plus 3 plus ceil(4n/3) for an n-byte digest |
| `SessionId.CreateSidLength` | src/ExpressSessionHandler.php:68-73 | With a 32-byte HMAC-SHA256 digest, the signed id is 46 characters longer than the raw id |
| `SessionId.CreateSidDependsOnDigest` | src/ExpressSessionHandler.php:67-73 | Signing depends on the HMAC only through its digest of (rawId, secret): equal digests give equal signed ids |
| `SessionId.Unsign` | src/ExpressSessionHandler.php:60-74 | The reading of the signed-id format on the express-session side, which takes the signature after the last `.`: when it accepts an id, the id is exactly `s:` + value + `.` + the signature of that value |
| `SessionId.UnsignCreateSid` | src/ExpressSessionHandler.php:60-74 | Every id `create_sid` issues passes the express-session check, and the check recovers the raw id, for every raw id |
| `SessionId.CreateSidInjective` | src/ExpressSessionHandler.php:65-74 | Two distinct raw ids never produce the same signed id |
| `SessionId.IdMutatorCreateSid` | src/ExpressSessionHandler.php:65-93 | Round trip: `id_mutator` applied to the output of `create_sid` returns the raw id if and only if the raw id contains no `.` |
| `SessionId.IdMutatorAgreesWithUnsign` | src/ExpressSessionHandler.php:82-93 | For an id the express-session check accepts whose value has no `.`, `id_mutator` returns the same value the check does |
| `Base64.CharOf` | src/ExpressSessionHandler.php:69 | Each six-bit value is written as one character of the standard alphabet |
| `Base64.ValueOf` | src/ExpressSessionHandler.php:69 | Reading a character gives a value exactly when the character is in the alphabet |
| `Base64.StripPadding` | src/ExpressSessionHandler.php:68 | Removing `=` leaves no `=`, never lengthens the text, and keeps every other character that was present |
| `Base64.StripPaddingPadded` | src/ExpressSessionHandler.php:68 | Removing `=` from alphabet text followed by padding gives back exactly the alphabet text |
| `Base64.EncodeLength` | src/ExpressSessionHandler.php:69 | The encoder writes four characters for every started group of three bytes |
| `Base64.EncodeShape` | src/ExpressSessionHandler.php:68-72 | Encoder output is alphabet characters followed by exactly (3 - n mod 3) mod 3 `=`, so removing every `=` removes only the trailing padding |
| `Base64.Encode` | src/ExpressSessionHandler.php:69 | `base64_encode`, specified by its partner lemmas: `EncodeLength` (four characters per started group of three bytes), `EncodeShape` (alphabet characters then exactly the padding) and `DecodeEncode` (the decoder inverts it on every byte string) |
| `Base64.DecodeEncode` | src/ExpressSessionHandler.php:69 | Decoding the encoder's output gives back every byte string unchanged |
| `Base64.DecodeUnpadded` | src/ExpressSessionHandler.php:68-72 | Removing `=` loses no information: putting the padding back and decoding recovers the digest |
| `Base64.Unpadded` | src/ExpressSessionHandler.php:68-72 | The unpadded encoding of n bytes is ceil(4n/3) alphabet characters |
| `Base64.Sha256SignatureLength` | src/ExpressSessionHandler.php:70 | A 32-byte SHA-256 HMAC digest gives a 43-character signature |
| `CookieMetadata.CookieRecord` | src/ExpressSessionHandler.php:34-38 | The record's keys are exactly `path`, `httpOnly` and `domain`, in that order, with values taken from the path, httponly and domain cookie parameters |
| `CookieMetadata.IsSet` | src/ExpressSessionHandler.php:30 | PHP's `isset` on a session key: true exactly when the key is present and its value is not null, so a `cookie` entry holding null counts as not set (`PopulateSession` then replaces it) |
| `CookieMetadata.Field` | src/ExpressSessionHandler.php:34-38 | An array entry lookup returns none exactly when no entry has that key; a value it finds is the one stored in the first entry with that key |
| `CookieMetadata.PopulateSession` | src/ExpressSessionHandler.php:28-40 | A set `cookie` entry leaves the session unchanged; otherwise `cookie` becomes exactly the cookie record; afterwards `cookie` is set, and every other key is untouched |
| `CookieMetadata.PopulateSessionTwice` | src/ExpressSessionHandler.php:30-39 | A second call is a no-op, even with different cookie parameters |
| `SessionStore.Fetch` | src/ExpressSessionHandler.php:104 | The parent read returns the stored payload, or the empty payload when the key holds none |
| `SessionStore.Read` | src/ExpressSessionHandler.php:101-106 | The runtime payload comes from the entry under the id's store key, not under the id; a missing entry reads as the empty payload |
| `SessionStore.Write` | src/ExpressSessionHandler.php:115-119 | The store gains the converted payload under the id's store key; every other entry is unchanged and no other key appears |
| `SessionStore.ReadSameKey` | src/ExpressSessionHandler.php:103-104 | Two ids with the same store key read the same payload, whatever their signatures |
| `SessionStore.SignedAndBareReadSameEntry` | src/ExpressSessionHandler.php:101-106 | `s:X.sig`, `X.sig`, `s:X` and `X` all read entry `X` |
| `SessionStore.CreatedIdReadsRawEntry` | src/ExpressSessionHandler.php:65-106 | An id issued by `create_sid` for a raw id with no `.` reads the raw id's entry |
| `SessionStore.WriteThenRead` | src/ExpressSessionHandler.php:101-119 | Reading through any id with the writer's store key returns the written payload, converted to the store format and back |
| `SessionStore.WriteOtherKey` | src/ExpressSessionHandler.php:115-119 | A write is invisible to reads through any other store key |
| `SessionStore.WriteSignedReadBare` | src/ExpressSessionHandler.php:65-119 | A write through the signed id and a read through the bare raw id reach the same entry |

## Left out

- HMAC-SHA256 is not modelled. It is the parameter `mac`, an arbitrary function from (message, key) to bytes, because it is a foreign library call. No property here depends on its internals.
- The raw id comes from the parent handler's `create_sid`, which is PHP's random id generator. It is a parameter of `CreateSid`.
- The constructor only stores the secret. The secret is passed explicitly to each operation instead.
- `open` (src/ExpressSessionHandler.php:51-58) is left out. It has an empty TODO branch and otherwise only delegates to the parent handler, so there is no behaviour to model. `SessionId.Unsign` is express-session's check on the ids this handler issues. It is not a tamper check that the handler performs.
- JSON decoding, JSON encoding, `serialize` and `unserialize` in `read`/`write` are not modelled. They are PHP library formats, so they are opaque functions in `SessionStore.Transcoder`. No round trip between the two formats is claimed.
- SessionStore.Fetch: a missing entry reads as the empty payload. That is what PHP's stock handlers return, but the real result depends on which save handler sits underneath.
- The underlying store's own behaviour is not modelled: persistence, expiry, garbage collection and failures. `write`'s boolean result comes from the parent handler, so `SessionStore.Write` returns only the new store.
- `$_SESSION`, `$_COOKIE` and `session_get_cookie_params()` are replaced by explicit arguments and results.
- The TODO about reconciling `_expires` and `originalMaxAge` units (src/ExpressSessionHandler.php:33) is unimplemented in the code, so it is not modelled either.
- Concurrent requests sharing one session id are not modelled. That coordination belongs to the underlying store.
