/**
 * `populateSession`: seeds the session with the cookie attributes that
 * express-session keeps inside every session, under the key `cookie`.
 *
 * The session (`$_SESSION`) is an explicit map and the ambient cookie
 * configuration (`session_get_cookie_params()`) an explicit argument.
 */
module CookieMetadata {
  import opened Wrappers

  /** A PHP value as it can sit in a session; arrays are ordered key/value lists. */
  datatype Value =
    | Null
    | Bool(b: bool)
    | Int(i: int)
    | Str(s: string)
    | Array(entries: seq<(string, Value)>)

  /** `$_SESSION`: session keys to values. */
  type Session = map<string, Value>

  /** What `session_get_cookie_params()` reports. */
  datatype CookieParams = CookieParams(
    lifetime: int,
    path: string,
    domain: string,
    secure: bool,
    httponly: bool,
    samesite: string)

  const CookieKey: string := "cookie"

  /** PHP's `isset` on an array entry: the key is present AND its value is not null. */
  predicate IsSet(session: Session, key: string) {
    key in session && session[key] != Null
  }

  /** The value stored under `name` in an array value, looking up the first entry with that key. */
  function Field(v: Value, name: string): (r: Option<Value>)
    requires v.Array?
    ensures r.None? <==> forall i :: 0 <= i < |v.entries| ==> v.entries[i].0 != name
    ensures r.Some? ==> exists i :: 0 <= i < |v.entries| && v.entries[i] == (name, r.value)
                                  && forall j :: 0 <= j < i ==> v.entries[j].0 != name
  {
    FieldIn(v.entries, name)
  }

  function FieldIn(entries: seq<(string, Value)>, name: string): (r: Option<Value>)
    ensures r.None? <==> forall i :: 0 <= i < |entries| ==> entries[i].0 != name
    ensures r.Some? ==> exists i :: 0 <= i < |entries| && entries[i] == (name, r.value)
                                  && forall j :: 0 <= j < i ==> entries[j].0 != name
    decreases |entries|
  {
    if |entries| == 0 then None
    else if entries[0].0 == name then Some(entries[0].1)
    else
      var r := FieldIn(entries[1..], name);
      assert forall i :: 1 <= i < |entries| ==> entries[i] == entries[1..][i - 1];
      if r.Some? then
        var i :| 0 <= i < |entries[1..]| && entries[1..][i] == (name, r.value)
                 && forall j :: 0 <= j < i ==> entries[1..][j].0 != name;
        assert entries[i + 1] == (name, r.value);
        assert forall j :: 0 <= j < i + 1 ==> entries[j].0 != name;
        r
      else r
  }

  /** The keys of an array value, in order. */
  function Keys(v: Value): seq<string>
    requires v.Array?
  {
    seq(|v.entries|, i requires 0 <= i < |v.entries| => v.entries[i].0)
  }

  /**
   * The record express-session expects under `cookie`: exactly the keys
   * `path`, `httpOnly` and `domain`, taken from the cookie parameters; the
   * lifetime, `secure` and `samesite` are not copied.
   */
  function CookieRecord(params: CookieParams): (v: Value)
    ensures v.Array? && Keys(v) == ["path", "httpOnly", "domain"]
    ensures Field(v, "path") == Some(Str(params.path))
    ensures Field(v, "httpOnly") == Some(Bool(params.httponly))
    ensures Field(v, "domain") == Some(Str(params.domain))
  {
    var entries := [("path", Str(params.path)), ("httpOnly", Bool(params.httponly)), ("domain", Str(params.domain))];
    assert "path" != "httpOnly" && "path" != "domain" && "httpOnly" != "domain" by {
      assert "path"[0] != "httpOnly"[0] && "path"[0] != "domain"[0] && "httpOnly"[0] != "domain"[0];
    }
    assert entries[1..] == [("httpOnly", Bool(params.httponly)), ("domain", Str(params.domain))];
    assert entries[1..][1..] == [("domain", Str(params.domain))];
    assert FieldIn(entries[1..][1..], "domain") == Some(Str(params.domain));
    assert FieldIn(entries[1..], "domain") == Some(Str(params.domain));
    assert FieldIn(entries[1..], "httpOnly") == Some(Bool(params.httponly));
    var v := Array(entries);
    assert Keys(v) == ["path", "httpOnly", "domain"] by {
      var ks := Keys(v);
      assert |ks| == 3 && ks[0] == "path" && ks[1] == "httpOnly" && ks[2] == "domain";
    }
    v
  }

  /**
   * `populateSession`: insert the cookie record unless `cookie` is already
   * set. A `cookie` entry holding null does not count as set (that is
   * `isset`), so it is replaced. Nothing else in the session changes.
   */
  function PopulateSession(session: Session, params: CookieParams): (r: Session)
    ensures r.Keys == session.Keys + {CookieKey}
    ensures IsSet(session, CookieKey) ==> r == session
    ensures !IsSet(session, CookieKey) ==> r[CookieKey] == CookieRecord(params)
    ensures IsSet(r, CookieKey)
    ensures forall k :: k in session && k != CookieKey ==> r[k] == session[k]
  {
    if IsSet(session, CookieKey) then session
    else session[CookieKey := CookieRecord(params)]
  }

  /**
   * A second call is a no-op, whatever cookie parameters it sees: the
   * record is written once per session and never overwritten.
   */
  lemma PopulateSessionTwice(session: Session, first: CookieParams, second: CookieParams)
    ensures PopulateSession(PopulateSession(session, first), second) == PopulateSession(session, first)
  {
  }
}
