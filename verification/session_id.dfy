/**
 * Session identifiers in the two shapes the handler deals with: the signed
 * cookie value `s:<rawId>.<signature>` that express-session expects
 * (`create_sid`), and the bare key under which the store keeps the session
 * (`id_mutator`).
 *
 * HMAC-SHA256 is not modelled: it is a parameter `mac`, any function from
 * (message, key) to a byte string. The Base64 step after it is modelled in
 * full (module Base64).
 */
module SessionId {
  import opened Wrappers
  import opened Base64

  /** HMAC-SHA256 with raw binary output (PHP's `hash_hmac`): the digest of a message under a key. */
  type Mac = (string, string) -> seq<byte>

  const SignedPrefix: string := "s:"
  const Separator: char := '.'

  /** The id begins with `s:`; an id shorter than two characters never does. */
  predicate HasSignedPrefix(id: string) {
    |id| >= 2 && id[..2] == SignedPrefix
  }

  /** Position of the first occurrence of `c` in `s` (`strpos`), `None` when there is none. */
  function FirstIndexOf(s: string, c: char): (r: Option<nat>)
    ensures r.None? <==> c !in s
    ensures r.Some? ==> r.value < |s| && s[r.value] == c
    ensures r.Some? ==> forall j :: 0 <= j < r.value ==> s[j] != c
    decreases |s|
  {
    if |s| == 0 then None
    else if s[0] == c then Some(0)
    else
      match FirstIndexOf(s[1..], c)
      case None => None
      case Some(i) => Some(i + 1)
  }

  /** Position of the last occurrence of `c` in `s` (JavaScript's `lastIndexOf`), `None` when there is none. */
  function LastIndexOf(s: string, c: char): (r: Option<nat>)
    ensures r.None? <==> c !in s
    ensures r.Some? ==> r.value < |s| && s[r.value] == c
    ensures r.Some? ==> forall j :: r.value < j < |s| ==> s[j] != c
    decreases |s|
  {
    if |s| == 0 then None
    else if s[|s| - 1] == c then Some(|s| - 1)
    else
      var r := LastIndexOf(s[..|s| - 1], c);
      assert s == s[..|s| - 1] + [s[|s| - 1]];
      match r
      case None => None
      case Some(i) => Some(i)
  }

  /** The step of `id_mutator` that drops a single leading `s:`. */
  function StripSignedPrefix(id: string): (r: string)
    ensures HasSignedPrefix(id) ==> id == SignedPrefix + r
    ensures !HasSignedPrefix(id) ==> r == id
  {
    if HasSignedPrefix(id) then id[2..] else id
  }

  /**
   * `key` is the store key carried by `t`: the longest prefix of `t` that
   * holds no `.`, so either all of `t` or the part before its first `.`.
   */
  predicate IsStoreKeyOf(t: string, key: string) {
    && key <= t
    && Separator !in key
    && (|key| == |t| || t[|key|] == Separator)
  }

  /** The store key carried by a string is unique. */
  lemma StoreKeyUnique(t: string, k1: string, k2: string)
    requires IsStoreKeyOf(t, k1) && IsStoreKeyOf(t, k2)
    ensures k1 == k2
  {
    assert forall i :: 0 <= i < |k1| ==> t[i] == k1[i];
    assert forall i :: 0 <= i < |k2| ==> t[i] == k2[i];
  }

  /**
   * `id_mutator`: the cookie's session id to the store key. One leading
   * `s:` is dropped, then everything from the first `.` on. The text after
   * the `.` (the signature) is set aside and never checked.
   */
  function IdMutator(id: string): (key: string)
    ensures IsStoreKeyOf(StripSignedPrefix(id), key)
    ensures Separator !in key
    ensures |key| <= |id|
  {
    var t := StripSignedPrefix(id);
    match FirstIndexOf(t, Separator)
    case None => t
    case Some(dot) => t[..dot]
  }

  /** The signature text for `rawId`: Base64 of its HMAC digest, every `=` removed. */
  function Signature(rawId: string, secret: string, mac: Mac): (sig: string)
    ensures IsUnpadded(sig)
    ensures Separator !in sig && Pad !in sig
  {
    Unpadded(mac(rawId, secret))
  }

  /**
   * `create_sid`: the express-session cookie value for a raw id drawn by
   * the underlying handler, `s:<rawId>.<signature>`.
   */
  function CreateSid(rawId: string, secret: string, mac: Mac): (sid: string)
    ensures |sid| == |rawId| + 3 + (4 * |mac(rawId, secret)| + 2) / 3
    ensures HasSignedPrefix(sid)
    ensures sid[2..][..|rawId|] == rawId && sid[2 + |rawId|] == Separator
    ensures IsUnpadded(sid[3 + |rawId|..]) && Pad !in sid[3 + |rawId|..]
  {
    var sig := Signature(rawId, secret, mac);
    var sid := SignedPrefix + rawId + [Separator] + sig;
    assert sid[..2] == SignedPrefix;
    assert sid[2..] == rawId + [Separator] + sig;
    assert sid[3 + |rawId|..] == sig;
    sid
  }

  /** An HMAC-SHA256 digest is 32 octets, so a signed id is 46 characters longer than its raw id. */
  lemma CreateSidLength(rawId: string, secret: string, mac: Mac)
    requires |mac(rawId, secret)| == 32
    ensures |CreateSid(rawId, secret, mac)| == |rawId| + 46
  {
  }

  /**
   * The cookie value's signature can be checked: `s:` is followed by
   * `value.signature` with the signature after the LAST `.`, and it must be
   * the signature of `value`. This is the check express-session applies to
   * the cookies this handler issues; `None` means the cookie is rejected.
   */
  function Unsign(sid: string, secret: string, mac: Mac): (r: Option<string>)
    ensures r.Some? ==> HasSignedPrefix(sid) && sid == SignedPrefix + r.value + [Separator] + Signature(r.value, secret, mac)
  {
    if !HasSignedPrefix(sid) then None
    else
      var body := sid[2..];
      match LastIndexOf(body, Separator)
      case None => None
      case Some(dot) =>
        var value := body[..dot];
        if body[dot + 1..] == Signature(value, secret, mac) then
          assert body == value + [Separator] + body[dot + 1..];
          Some(value)
        else None
  }

  /** The last `.` of `value.sig` is the one before `sig` when `sig` holds none. */
  lemma LastSeparator(value: string, sig: string)
    requires Separator !in sig
    ensures LastIndexOf(value + [Separator] + sig, Separator) == Some(|value|)
  {
    var body := value + [Separator] + sig;
    assert body[|value|] == Separator;
    assert body[|value| + 1..] == sig;
    AbsentFromSuffix(body, |value| + 1, Separator);
  }

  /** A character missing from a suffix appears at no position of that suffix. */
  lemma AbsentFromSuffix(s: string, k: nat, c: char)
    requires k <= |s| && c !in s[k..]
    ensures forall j :: k <= j < |s| ==> s[j] != c
  {
    assert forall j :: k <= j < |s| ==> s[j] == s[k..][j - k];
  }

  /** Every id `create_sid` issues passes the signature check, which recovers the raw id. */
  lemma {:induction false} UnsignCreateSid(rawId: string, secret: string, mac: Mac)
    ensures Unsign(CreateSid(rawId, secret, mac), secret, mac) == Some(rawId)
  {
    var sig := Signature(rawId, secret, mac);
    var sid := CreateSid(rawId, secret, mac);
    var body := rawId + [Separator] + sig;
    assert sid == SignedPrefix + body;
    assert sid[2..] == body;
    LastSeparator(rawId, sig);
    assert body[..|rawId|] == rawId;
    assert body[|rawId| + 1..] == sig;
  }

  /**
   * The signed id depends on the HMAC only through the digest of
   * (rawId, secret): signing consults nothing else.
   */
  lemma CreateSidDependsOnDigest(rawId: string, secret: string, mac1: Mac, mac2: Mac)
    requires mac1(rawId, secret) == mac2(rawId, secret)
    ensures CreateSid(rawId, secret, mac1) == CreateSid(rawId, secret, mac2)
  {
  }

  /** Distinct raw ids never share a signed id, whatever characters they hold. */
  lemma {:induction false} CreateSidInjective(x1: string, x2: string, secret: string, mac: Mac)
    requires CreateSid(x1, secret, mac) == CreateSid(x2, secret, mac)
    ensures x1 == x2
  {
    UnsignCreateSid(x1, secret, mac);
    UnsignCreateSid(x2, secret, mac);
  }

  /**
   * Round trip of `create_sid` and `id_mutator`: the store key of a signed
   * id is its raw id exactly when the raw id holds no `.`. A leading `s:` in
   * the raw id is harmless, since only one prefix is dropped.
   */
  lemma {:induction false} IdMutatorCreateSid(rawId: string, secret: string, mac: Mac)
    ensures IdMutator(CreateSid(rawId, secret, mac)) == rawId <==> Separator !in rawId
  {
    var sid := CreateSid(rawId, secret, mac);
    var key := IdMutator(sid);
    var t := StripSignedPrefix(sid);
    assert t[..|rawId|] == rawId && t[|rawId|] == Separator;
    if Separator !in rawId {
      assert IsStoreKeyOf(t, rawId);
      StoreKeyUnique(t, key, rawId);
    }
  }

  /**
   * No signature check: whatever follows the first `.` after the raw id,
   * forged or not, the store key is the raw id.
   */
  lemma {:induction false} IdMutatorIgnoresSignature(rawId: string, suffix: string)
    requires Separator !in rawId
    ensures IdMutator(SignedPrefix + rawId + [Separator] + suffix) == rawId
  {
    var id := SignedPrefix + rawId + [Separator] + suffix;
    var t := rawId + [Separator] + suffix;
    assert id[..2] == SignedPrefix && id[2..] == t;
    assert t[..|rawId|] == rawId;
    assert IsStoreKeyOf(t, rawId);
    StoreKeyUnique(t, IdMutator(id), rawId);
  }

  /** A bare id followed by a signature, `X.sig`, leads to `X`. */
  lemma {:induction false} IdMutatorBareSigned(x: string, sig: string)
    requires Separator !in x && !HasSignedPrefix(x)
    ensures IdMutator(x + [Separator] + sig) == x
  {
    var bare := x + [Separator] + sig;
    assert bare[..|x|] == x;
    assert bare[|x|] == Separator;
    assert !HasSignedPrefix(bare) by {
      assert |x| >= 2 ==> bare[..2] == x[..2];
    }
    assert IsStoreKeyOf(bare, x);
    StoreKeyUnique(bare, IdMutator(bare), x);
  }

  /** An id without a signature, `s:X` or `X`, leads to `X`. */
  lemma {:induction false} IdMutatorUnsigned(x: string)
    requires Separator !in x && !HasSignedPrefix(x)
    ensures IdMutator(SignedPrefix + x) == x
    ensures IdMutator(x) == x
  {
    var signed := SignedPrefix + x;
    assert signed[..2] == SignedPrefix && signed[2..] == x;
    assert IsStoreKeyOf(x, x);
    StoreKeyUnique(x, IdMutator(signed), x);
    StoreKeyUnique(x, IdMutator(x), x);
  }

  /**
   * The four shapes a cookie may carry, `s:X.sig`, `X.sig`, `s:X` and `X`,
   * all lead to the store key `X`, for any `X` without `.` that does not
   * itself begin with `s:`.
   */
  lemma IdMutatorForms(x: string, sig: string)
    requires Separator !in x && !HasSignedPrefix(x)
    ensures IdMutator(SignedPrefix + x + [Separator] + sig) == x
    ensures IdMutator(x + [Separator] + sig) == x
    ensures IdMutator(SignedPrefix + x) == x
    ensures IdMutator(x) == x
  {
    IdMutatorIgnoresSignature(x, sig);
    IdMutatorBareSigned(x, sig);
    IdMutatorUnsigned(x);
  }

  /**
   * Applying `id_mutator` to its own result changes nothing exactly when
   * that result does not itself begin with `s:`. So it is not idempotent in
   * general: see `IdMutatorNotIdempotent`.
   */
  lemma {:induction false} IdMutatorTwice(id: string)
    ensures IdMutator(IdMutator(id)) == IdMutator(id) <==> !HasSignedPrefix(IdMutator(id))
  {
    var key := IdMutator(id);
    if !HasSignedPrefix(key) {
      assert IsStoreKeyOf(key, key);
      StoreKeyUnique(key, IdMutator(key), key);
    } else {
      assert |IdMutator(key)| <= |key| - 2;
    }
  }

  /** `s:s:x` becomes `s:x`, which becomes `x`. */
  lemma IdMutatorNotIdempotent()
    ensures IdMutator("s:s:x") == "s:x"
    ensures IdMutator(IdMutator("s:s:x")) == "x"
  {
    assert HasSignedPrefix("s:s:x");
    assert StripSignedPrefix("s:s:x") == "s:x";
    assert IsStoreKeyOf("s:x", "s:x");
    StoreKeyUnique("s:x", IdMutator("s:s:x"), "s:x");
    assert StripSignedPrefix("s:x") == "x";
    assert IsStoreKeyOf("x", "x");
    StoreKeyUnique("x", IdMutator("s:x"), "x");
  }

  /**
   * On an id that passes the signature check and whose value holds no `.`,
   * the store key is the checked value: the two readings of the cookie agree.
   */
  lemma {:induction false} IdMutatorAgreesWithUnsign(sid: string, secret: string, mac: Mac)
    requires Unsign(sid, secret, mac).Some?
    requires Separator !in Unsign(sid, secret, mac).value
    ensures IdMutator(sid) == Unsign(sid, secret, mac).value
  {
    var value := Unsign(sid, secret, mac).value;
    IdMutatorIgnoresSignature(value, Signature(value, secret, mac));
  }
}
