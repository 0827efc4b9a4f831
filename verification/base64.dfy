/**
 * Base64 as PHP's `base64_encode` produces it: the standard alphabet of
 * section 4 of RFC 4648 (`A-Z a-z 0-9 + /`, not the URL-safe alphabet of
 * section 5), with `=` padding to a multiple of four characters.
 *
 * The signature of a session id is this encoding with every `=` removed.
 * A decoder is defined as the encoder's partner, and the round trip is
 * proved.
 */
module Base64 {
  import opened Wrappers

  /** An octet of a binary string (PHP strings are byte strings). */
  type byte = x: int | 0 <= x < 256

  /** A six-bit group, the unit one Base64 character carries. */
  type sextet = x: int | 0 <= x < 64

  const Pad: char := '='

  /** The 64 characters of the standard alphabet. */
  predicate IsAlphabetChar(c: char) {
    || ('A' <= c <= 'Z')
    || ('a' <= c <= 'z')
    || ('0' <= c <= '9')
    || c == '+'
    || c == '/'
  }

  /** Every character of `s` is from the 64-character alphabet. */
  predicate IsUnpadded(s: string) {
    forall i :: 0 <= i < |s| ==> IsAlphabetChar(s[i])
  }

  /** The alphabet character for a six-bit value (Table 1 of RFC 4648). */
  function CharOf(v: sextet): (c: char)
    ensures IsAlphabetChar(c)
  {
    if v < 26 then ('A' as int + v) as char
    else if v < 52 then ('a' as int + (v - 26)) as char
    else if v < 62 then ('0' as int + (v - 52)) as char
    else if v == 62 then '+'
    else '/'
  }

  /** The six-bit value of an alphabet character; `None` for any other character. */
  function ValueOf(c: char): (r: Option<sextet>)
    ensures r.Some? <==> IsAlphabetChar(c)
  {
    if 'A' <= c <= 'Z' then Some(c as int - 'A' as int)
    else if 'a' <= c <= 'z' then Some(c as int - 'a' as int + 26)
    else if '0' <= c <= '9' then Some(c as int - '0' as int + 52)
    else if c == '+' then Some(62)
    else if c == '/' then Some(63)
    else None
  }

  /** Reading back the character written for a value yields that value. */
  lemma ValueOfCharOf(v: sextet)
    ensures ValueOf(CharOf(v)) == Some(v)
  {
  }

  /** Three octets as four characters. */
  function EncodeTriple(b0: byte, b1: byte, b2: byte): (q: string)
    ensures |q| == 4 && IsUnpadded(q)
  {
    [CharOf(Cut0(b0)), CharOf(Cut1(b0, b1)), CharOf(Cut2(b1, b2)), CharOf(Cut3(b2))]
  }

  /** The final one or two octets, with two or one `=` of padding. */
  function EncodeTail(b: seq<byte>): (q: string)
    requires 1 <= |b| <= 2
    ensures |q| == 4
    ensures IsUnpadded(q[..|b| + 1])
    ensures q[|b| + 1..] == Repeat(Pad, 3 - |b|)
  {
    if |b| == 1 then
      [CharOf(Cut0(b[0])), CharOf(Cut1(b[0], 0)), Pad, Pad]
    else
      [CharOf(Cut0(b[0])), CharOf(Cut1(b[0], b[1])), CharOf(Cut2(b[1], 0)), Pad]
  }

  /** `base64_encode`: padded Base64 of a byte string. */
  function Encode(b: seq<byte>): string
    decreases |b|
  {
    if |b| == 0 then ""
    else if |b| < 3 then EncodeTail(b)
    else EncodeTriple(b[0], b[1], b[2]) + Encode(b[3..])
  }

  /** The number of `=` characters `Encode` appends for an input of length `n`. */
  function PadCount(n: nat): (k: nat)
    ensures k <= 2
  {
    (3 - n % 3) % 3
  }

  function Repeat(c: char, k: nat): (s: string)
    ensures |s| == k
    ensures forall i :: 0 <= i < k ==> s[i] == c
  {
    if k == 0 then "" else [c] + Repeat(c, k - 1)
  }

  /** The `=`-removal of `create_sid`: every `=` dropped, all other characters kept in order. */
  function StripPadding(s: string): (r: string)
    ensures |r| <= |s|
    ensures Pad !in r
    ensures forall c :: c in r <==> c in s && c != Pad
  {
    if |s| == 0 then ""
    else
      assert s == [s[0]] + s[1..];
      if s[0] == Pad then StripPadding(s[1..]) else [s[0]] + StripPadding(s[1..])
  }

  lemma {:induction false} StripPaddingAppend(s: string, t: string)
    ensures StripPadding(s + t) == StripPadding(s) + StripPadding(t)
    decreases |s|
  {
    if |s| == 0 {
      assert s + t == t;
    } else {
      assert (s + t)[1..] == s[1..] + t;
      StripPaddingAppend(s[1..], t);
    }
  }

  lemma StripPaddingUnpadded(s: string)
    requires IsUnpadded(s)
    ensures StripPadding(s) == s
  {
  }

  lemma StripPaddingPads(k: nat)
    ensures StripPadding(Repeat(Pad, k)) == ""
  {
  }

  /** Alphabet characters followed by padding: removing `=` leaves the characters. */
  lemma StripPaddingPadded(u: string, k: nat)
    requires IsUnpadded(u)
    ensures StripPadding(u + Repeat(Pad, k)) == u
  {
    StripPaddingAppend(u, Repeat(Pad, k));
    StripPaddingUnpadded(u);
    StripPaddingPads(k);
  }

  lemma UnpaddedAppend(u: string, v: string)
    requires IsUnpadded(u) && IsUnpadded(v)
    ensures IsUnpadded(u + v)
  {
    forall i | 0 <= i < |u + v|
      ensures IsAlphabetChar((u + v)[i])
    {
      if i < |u| { assert (u + v)[i] == u[i]; }
      else { assert (u + v)[i] == v[i - |u|]; }
    }
  }

  /** Four characters for every started group of three octets. */
  lemma {:induction false} EncodeLength(b: seq<byte>)
    ensures |Encode(b)| == 4 * ((|b| + 2) / 3)
    decreases |b|
  {
    if |b| == 0 {
    } else if |b| < 3 {
      TailCount(|b|);
    } else {
      EncodeLength(b[3..]);
      GroupCountStep(|b|);
      assert Encode(b) == EncodeTriple(b[0], b[1], b[2]) + Encode(b[3..]);
    }
  }

  lemma EncodeTailShape(b: seq<byte>)
    requires 1 <= |b| <= 2
    ensures IsUnpadded(StripPadding(EncodeTail(b)))
    ensures EncodeTail(b) == StripPadding(EncodeTail(b)) + Repeat(Pad, PadCount(|b|))
  {
    TailCount(|b|);
    var q := EncodeTail(b);
    var u := q[..|b| + 1];
    assert q == u + Repeat(Pad, PadCount(|b|));
    StripPaddingPadded(u, PadCount(|b|));
  }

  /**
   * The shape of `base64_encode`'s output: a run of alphabet characters
   * followed by exactly `PadCount(|b|)` padding characters. So removing every
   * `=` removes exactly the trailing padding and nothing else.
   */
  lemma {:induction false} EncodeShape(b: seq<byte>)
    ensures IsUnpadded(StripPadding(Encode(b)))
    ensures Encode(b) == StripPadding(Encode(b)) + Repeat(Pad, PadCount(|b|))
    decreases |b|
  {
    if |b| == 0 {
    } else if |b| < 3 {
      EncodeTailShape(b);
    } else {
      var head := EncodeTriple(b[0], b[1], b[2]);
      var rest := Encode(b[3..]);
      EncodeShape(b[3..]);
      var k := PadCount(|b|);
      GroupCountStep(|b|);
      var sr := StripPadding(rest);
      UnpaddedAppend(head, sr);
      assert head + rest == (head + sr) + Repeat(Pad, k);
      StripPaddingPadded(head + sr, k);
      assert Encode(b) == head + rest;
    }
  }

  /** One or two final octets make one group, padded to four characters. */
  lemma TailCount(n: nat)
    requires 1 <= n <= 2
    ensures (n + 2) / 3 == 1
    ensures PadCount(n) == 3 - n
  {
  }

  /** One more group of three octets adds four characters and leaves the padding alone. */
  lemma GroupCountStep(n: nat)
    requires n >= 3
    ensures PadCount(n - 3) == PadCount(n)
    ensures 4 * ((n - 3 + 2) / 3) + 4 == 4 * ((n + 2) / 3)
  {
  }

  /** The octets carried by consecutive sextets: six bits of the first and two of the next, ... */
  function Join0(c0: sextet, c1: sextet): byte { c0 * 4 + c1 / 16 }
  function Join1(c1: sextet, c2: sextet): byte { (c1 % 16) * 16 + c2 / 4 }
  function Join2(c2: sextet, c3: sextet): byte { (c2 % 4) * 64 + c3 }

  /** The sextets a triple of octets is cut into. */
  function Cut0(b0: byte): sextet { b0 / 4 }
  function Cut1(b0: byte, b1: byte): sextet { (b0 % 4) * 16 + b1 / 16 }
  function Cut2(b1: byte, b2: byte): sextet { (b1 % 16) * 4 + b2 / 64 }
  function Cut3(b2: byte): sextet { b2 % 64 }

  /** Joining the cut sextets gives back each octet. */
  lemma JoinCut(b0: byte, b1: byte, b2: byte)
    ensures Join0(Cut0(b0), Cut1(b0, b1)) == b0
    ensures Join1(Cut1(b0, b1), Cut2(b1, b2)) == b1
    ensures Join2(Cut2(b1, b2), Cut3(b2)) == b2
  {
  }

  /** The six-bit value of an alphabet character. */
  function Val(c: char): sextet
    requires IsAlphabetChar(c)
  {
    ValueOf(c).value
  }

  /** Four alphabet characters back to three octets; `None` if any is outside the alphabet. */
  function DecodeTriple(q: string): (r: Option<seq<byte>>)
    requires |q| == 4
    ensures r.Some? <==> IsUnpadded(q)
  {
    if IsUnpadded(q) then
      Some([Join0(Val(q[0]), Val(q[1])), Join1(Val(q[1]), Val(q[2])), Join2(Val(q[2]), Val(q[3]))])
    else None
  }

  /** The last group of an encoding: three octets, or one or two followed by padding. */
  function DecodeLast(q: string): (r: Option<seq<byte>>)
    requires |q| == 4
    ensures r.Some? ==> 1 <= |r.value| <= 3
  {
    if q[2] == Pad && q[3] == Pad then
      if IsAlphabetChar(q[0]) && IsAlphabetChar(q[1]) then Some([Join0(Val(q[0]), Val(q[1]))])
      else None
    else if q[3] == Pad then
      if IsAlphabetChar(q[0]) && IsAlphabetChar(q[1]) && IsAlphabetChar(q[2]) then
        Some([Join0(Val(q[0]), Val(q[1])), Join1(Val(q[1]), Val(q[2]))])
      else None
    else DecodeTriple(q)
  }

  /**
   * Padded Base64 back to bytes; `None` when the length is not a multiple of
   * four, a character is outside the alphabet, or padding appears anywhere
   * but at the end.
   */
  function Decode(s: string): Option<seq<byte>>
    decreases |s|
  {
    if |s| == 0 then Some([])
    else if |s| < 4 then None
    else if |s| == 4 then DecodeLast(s)
    else
      var h := DecodeTriple(s[..4]);
      var t := Decode(s[4..]);
      if h.Some? && t.Some? then Some(h.value + t.value) else None
  }

  lemma ValCharOf(v: sextet)
    ensures Val(CharOf(v)) == v
  {
    ValueOfCharOf(v);
  }

  /** A group of four alphabet characters decodes to the octets their sextets join into. */
  lemma DecodeTripleOf(x0: char, x1: char, x2: char, x3: char)
    requires IsAlphabetChar(x0) && IsAlphabetChar(x1) && IsAlphabetChar(x2) && IsAlphabetChar(x3)
    ensures DecodeTriple([x0, x1, x2, x3]) ==
      Some([Join0(Val(x0), Val(x1)), Join1(Val(x1), Val(x2)), Join2(Val(x2), Val(x3))])
  {
    assert IsUnpadded([x0, x1, x2, x3]);
  }

  lemma DecodeEncodeTriple(b: seq<byte>)
    requires |b| >= 3
    ensures DecodeTriple(EncodeTriple(b[0], b[1], b[2])) == Some(b[..3])
  {
    var b0, b1, b2 := b[0], b[1], b[2];
    assert [b0, b1, b2] == b[..3];
    var c0, c1, c2, c3 := Cut0(b0), Cut1(b0, b1), Cut2(b1, b2), Cut3(b2);
    var q := [CharOf(c0), CharOf(c1), CharOf(c2), CharOf(c3)];
    assert EncodeTriple(b0, b1, b2) == q;
    DecodeTripleOf(CharOf(c0), CharOf(c1), CharOf(c2), CharOf(c3));
    ValCharOf(c0);
    ValCharOf(c1);
    ValCharOf(c2);
    ValCharOf(c3);
    JoinCut(b0, b1, b2);
    assert DecodeTriple(q) == Some([b0, b1, b2]);
  }

  /** A final group with two padding characters carries one octet. */
  lemma DecodeLastOne(x0: char, x1: char)
    requires IsAlphabetChar(x0) && IsAlphabetChar(x1)
    ensures DecodeLast([x0, x1, Pad, Pad]) == Some([Join0(Val(x0), Val(x1))])
  {
  }

  /** A final group with one padding character carries two octets. */
  lemma DecodeLastTwo(x0: char, x1: char, x2: char)
    requires IsAlphabetChar(x0) && IsAlphabetChar(x1) && IsAlphabetChar(x2)
    ensures DecodeLast([x0, x1, x2, Pad]) == Some([Join0(Val(x0), Val(x1)), Join1(Val(x1), Val(x2))])
  {
  }

  lemma DecodeEncodeOne(b: seq<byte>)
    requires |b| == 1
    ensures DecodeLast(EncodeTail(b)) == Some(b)
  {
    var b0 := b[0];
    assert [b0] == b;
    var c0, c1 := Cut0(b0), Cut1(b0, 0);
    var q := [CharOf(c0), CharOf(c1), Pad, Pad];
    assert EncodeTail(b) == q;
    DecodeLastOne(CharOf(c0), CharOf(c1));
    ValCharOf(c0);
    ValCharOf(c1);
    JoinCut(b0, 0, 0);
    assert DecodeLast(q) == Some([b0]);
  }

  lemma DecodeEncodeTwo(b: seq<byte>)
    requires |b| == 2
    ensures DecodeLast(EncodeTail(b)) == Some(b)
  {
    var b0, b1 := b[0], b[1];
    assert [b0, b1] == b;
    var c0, c1, c2 := Cut0(b0), Cut1(b0, b1), Cut2(b1, 0);
    var q := [CharOf(c0), CharOf(c1), CharOf(c2), Pad];
    assert EncodeTail(b) == q;
    DecodeLastTwo(CharOf(c0), CharOf(c1), CharOf(c2));
    ValCharOf(c0);
    ValCharOf(c1);
    ValCharOf(c2);
    JoinCut(b0, b1, 0);
    assert DecodeLast(q) == Some([b0, b1]);
  }

  /** A final group without padding is an ordinary group of three octets. */
  lemma DecodeLastFull(q: string)
    requires |q| == 4 && IsUnpadded(q)
    ensures DecodeLast(q) == DecodeTriple(q)
  {
    assert IsAlphabetChar(q[2]) && IsAlphabetChar(q[3]);
  }

  /** Decoding an unpadded group followed by more text decodes the two in turn. */
  lemma DecodeAppend(q: string, t: string)
    requires |q| == 4 && |t| > 0
    ensures Decode(q + t) ==
      (if DecodeTriple(q).Some? && Decode(t).Some? then Some(DecodeTriple(q).value + Decode(t).value) else None)
  {
    assert (q + t)[..4] == q;
    assert (q + t)[4..] == t;
  }

  /** Decoding inverts `base64_encode` on every byte string. */
  lemma {:induction false} DecodeEncode(b: seq<byte>)
    ensures Decode(Encode(b)) == Some(b)
    decreases |b|
  {
    if |b| == 0 {
    } else if |b| == 1 {
      DecodeEncodeOne(b);
    } else if |b| == 2 {
      DecodeEncodeTwo(b);
    } else {
      var head := EncodeTriple(b[0], b[1], b[2]);
      var rest := Encode(b[3..]);
      assert Encode(b) == head + rest;
      DecodeEncodeTriple(b);
      if |b| == 3 {
        assert b[..3] == b;
        assert rest == [];
        assert Encode(b) == head;
        DecodeLastFull(head);
      } else {
        assert b[..3] + b[3..] == b;
        DecodeEncode(b[3..]);
        EncodeShape(b[3..]);
        DecodeAppend(head, rest);
      }
    }
  }

  /**
   * The signature text of a digest: `base64_encode` with every `=` removed.
   * It is drawn from the 64-character alphabet only (so it holds no `.` and
   * no `=`), ceil(4n / 3) characters for n octets.
   */
  function Unpadded(digest: seq<byte>): (sig: string)
    ensures IsUnpadded(sig)
    ensures |sig| == (4 * |digest| + 2) / 3
  {
    EncodeLength(digest);
    EncodeShape(digest);
    UnpaddedLength(|digest|);
    StripPadding(Encode(digest))
  }

  /** Dropping the padding loses nothing: putting it back and decoding recovers the digest. */
  lemma DecodeUnpadded(digest: seq<byte>)
    ensures Decode(Unpadded(digest) + Repeat(Pad, PadCount(|digest|))) == Some(digest)
  {
    EncodeShape(digest);
    DecodeEncode(digest);
  }

  /** Four characters per started group of three, less the padding: ceil(4n / 3). */
  lemma UnpaddedLength(n: nat)
    ensures 4 * ((n + 2) / 3) - PadCount(n) == (4 * n + 2) / 3
  {
    var k := n / 3;
    assert n == 3 * k + n % 3;
  }

  /** An HMAC-SHA256 digest (32 octets) yields a 43-character signature. */
  lemma Sha256SignatureLength(digest: seq<byte>)
    requires |digest| == 32
    ensures |Unpadded(digest)| == 43
  {
  }
}
