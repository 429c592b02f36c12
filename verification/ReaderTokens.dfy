/** Reader bearer tokens (src/auth/readerTokens.ts): printing 32 random bytes as unpadded base64url
    (section 5 of RFC 4648) and reading the Authorization header (section 2.1 of RFC 6750). */
module ReaderTokens {
  import opened Wrappers

  newtype byte = x: int | 0 <= x < 256

  const PREFIX: string := "aerdr_"

  /** TOKEN_RE: the prefix and 43 characters of the alphabet. */
  const BODY_LENGTH: nat := 43

  /** The base64url character of a six-bit value. */
  function Digit(v: int): (c: char)
    requires 0 <= v < 64
    ensures IsDigit(c)
  {
    if v < 26 then ('A' as int + v) as char
    else if v < 52 then ('a' as int + v - 26) as char
    else if v < 62 then ('0' as int + v - 52) as char
    else if v == 62 then '-' else '_'
  }

  predicate IsDigit(c: char) {
    'A' <= c <= 'Z' || 'a' <= c <= 'z' || '0' <= c <= '9' || c == '-' || c == '_'
  }

  function DigitValue(c: char): (v: int)
    requires IsDigit(c)
    ensures 0 <= v < 64 && Digit(v) == c
  {
    if 'A' <= c <= 'Z' then c as int - 'A' as int
    else if 'a' <= c <= 'z' then c as int - 'a' as int + 26
    else if '0' <= c <= '9' then c as int - '0' as int + 52
    else if c == '-' then 62 else 63
  }

  /** The four digits of a 24-bit number, and the number of four digits. */
  function Quad(n: int): (s: string)
    requires 0 <= n < 0x100_0000
    ensures |s| == 4 && AllDigits(s)
  {
    [Digit(n / 262144), Digit(n / 4096 % 64), Digit(n / 64 % 64), Digit(n % 64)]
  }

  predicate AllDigits(s: string) { forall i | 0 <= i < |s| :: IsDigit(s[i]) }

  function QuadValue(s: string): (n: int)
    requires |s| == 4 && AllDigits(s)
    ensures 0 <= n < 0x100_0000
  {
    DigitValue(s[0]) * 262144 + DigitValue(s[1]) * 4096 + DigitValue(s[2]) * 64 + DigitValue(s[3])
  }

  /** Three bytes as one number, and back. */
  function Number(a: byte, b: byte, c: byte): (n: int)
    ensures 0 <= n < 0x100_0000
  {
    a as int * 65536 + b as int * 256 + c as int
  }

  function Bytes(n: int): (r: seq<byte>)
    requires 0 <= n < 0x100_0000
    ensures |r| == 3
  {
    [(n / 65536) as byte, (n / 256 % 256) as byte, (n % 256) as byte]
  }

  /** toString('base64url'): three bytes make four digits; one or two last bytes make two or three. */
  function Encode(bytes: seq<byte>): string
    decreases |bytes|
  {
    if |bytes| == 0 then ""
    else if |bytes| == 1 then Quad(Number(bytes[0], 0, 0))[..2]
    else if |bytes| == 2 then Quad(Number(bytes[0], bytes[1], 0))[..3]
    else Quad(Number(bytes[0], bytes[1], bytes[2])) + Encode(bytes[3..])
  }

  /** Reading the digits back; a short last group is completed with zero digits. */
  function Decode(s: string): seq<byte>
    requires AllDigits(s)
    decreases |s|
  {
    if |s| < 2 then []
    else if |s| == 2 then Bytes(QuadValue([s[0], s[1], 'A', 'A']))[..1]
    else if |s| == 3 then Bytes(QuadValue([s[0], s[1], s[2], 'A']))[..2]
    else Bytes(QuadValue(s[..4])) + Decode(s[4..])
  }

  lemma DigitRoundTrip(v: int)
    requires 0 <= v < 64
    ensures DigitValue(Digit(v)) == v
  {
  }

  lemma Halves(n: int)
    requires n >= 0
    ensures n / 64 * 64 + n % 64 == n && n / 4096 == n / 64 / 64
  {
  }

  lemma QuadRoundTrip(n: int)
    requires 0 <= n < 0x100_0000
    ensures QuadValue(Quad(n)) == n
  {
    var a, b := n / 64, n / 4096;
    Halves(n);
    Halves(a);
    Halves(b);
    assert n / 262144 == b / 64;
    DigitRoundTrip(n / 262144);
    DigitRoundTrip(b % 64);
    DigitRoundTrip(a % 64);
    DigitRoundTrip(n % 64);
  }

  lemma Split256(q: int, r: int)
    requires 0 <= r < 256
    ensures (q * 256 + r) / 256 == q && (q * 256 + r) % 256 == r
  {
  }

  lemma Split65536(q: int, r: int)
    requires 0 <= r < 65536
    ensures (q * 65536 + r) / 65536 == q
  {
  }

  lemma BytesRoundTrip(a: byte, b: byte, c: byte)
    ensures Bytes(Number(a, b, c)) == [a, b, c]
  {
    var x, y, z := a as int, b as int, c as int;
    Split65536(x, y * 256 + z);
    Split256(x * 256 + y, z);
    Split256(x, y);
    assert Number(a, b, c) == (x * 256 + y) * 256 + z == x * 65536 + (y * 256 + z);
  }

  lemma Multiple64(q: int)
    ensures (q * 64) / 64 == q && (q * 64) % 64 == 0
  {
  }

  /** Numbers whose low bytes are zero end in zero digits. */
  lemma ZeroDigits(a: byte, b: byte)
    ensures Quad(Number(a, b, 0))[3] == 'A'
    ensures Quad(Number(a, 0, 0))[2] == 'A'
  {
    var x, y := a as int, b as int;
    Multiple64(x * 1024 + y * 4);
    assert Number(a, b, 0) == (x * 1024 + y * 4) * 64;
    Multiple64(x * 1024);
    Multiple64(x * 16);
    assert Number(a, 0, 0) == (x * 1024) * 64 && x * 1024 == (x * 16) * 64;
  }

  lemma {:induction false} EncodeDigits(bytes: seq<byte>)
    ensures AllDigits(Encode(bytes)) && |Encode(bytes)| == (4 * |bytes| + 2) / 3
    decreases |bytes|
  {
    if |bytes| >= 3 {
      EncodeDigits(bytes[3..]);
    }
  }

  /** Decoding undoes encoding, for any number of bytes. */
  lemma {:induction false} DecodeEncode(bytes: seq<byte>)
    ensures AllDigits(Encode(bytes)) && Decode(Encode(bytes)) == bytes
    decreases |bytes|
  {
    EncodeDigits(bytes);
    if |bytes| >= 3 {
      var group, rest := bytes[..3], bytes[3..];
      DecodeEncode(rest);
      DecodeGroup(group[0], group[1], group[2], Encode(rest));
      EncodeGroup(group, rest);
      assert bytes == group + rest;
    } else {
      DecodeEncodeLast(bytes);
    }
  }

  lemma EncodeGroup(group: seq<byte>, rest: seq<byte>)
    requires |group| == 3
    ensures Encode(group + rest) == Quad(Number(group[0], group[1], group[2])) + Encode(rest)
  {
    assert (group + rest)[3..] == rest;
  }

  lemma DecodeEncodeLast(bytes: seq<byte>)
    requires |bytes| <= 2
    ensures AllDigits(Encode(bytes)) && Decode(Encode(bytes)) == bytes
  {
    if |bytes| == 1 {
      DecodeEncodeShort(bytes[0], 0);
      assert bytes == [bytes[0]];
    } else if |bytes| == 2 {
      DecodeEncodeShort(bytes[0], bytes[1]);
      assert bytes == [bytes[0], bytes[1]];
    }
  }

  lemma DecodeGroup(a: byte, b: byte, c: byte, rest: string)
    requires AllDigits(rest)
    ensures AllDigits(Quad(Number(a, b, c)) + rest)
    ensures Decode(Quad(Number(a, b, c)) + rest) == [a, b, c] + Decode(rest)
  {
    var quad := Quad(Number(a, b, c));
    var s := quad + rest;
    assert s[..4] == quad && s[4..] == rest;
    QuadRoundTrip(Number(a, b, c));
    BytesRoundTrip(a, b, c);
  }

  lemma DecodeEncodeShort(a: byte, b: byte)
    ensures AllDigits(Encode([a])) && Decode(Encode([a])) == [a]
    ensures AllDigits(Encode([a, b])) && Decode(Encode([a, b])) == [a, b]
  {
    EncodeDigits([a]);
    EncodeDigits([a, b]);
    ZeroDigits(a, b);
    ZeroDigits(a, 0);
    var one, two := Quad(Number(a, 0, 0)), Quad(Number(a, b, 0));
    assert one == [one[0], one[1], 'A', 'A'] && two == [two[0], two[1], two[2], 'A'];
    QuadRoundTrip(Number(a, 0, 0));
    QuadRoundTrip(Number(a, b, 0));
    BytesRoundTrip(a, 0, 0);
    BytesRoundTrip(a, b, 0);
  }

  // ---------- The token ----------

  predicate IsToken(s: string) {
    && |s| == |PREFIX| + BODY_LENGTH && PREFIX <= s
    && forall i | |PREFIX| <= i < |s| :: IsDigit(s[i])
  }

  /** The token of 32 random bytes. */
  function TokenOf(random: seq<byte>): string {
    PREFIX + Encode(random)
  }

  lemma AfterPrefix(prefix: string, body: string)
    ensures (prefix + body)[|prefix|..] == body
    ensures forall i | |prefix| <= i < |prefix + body| :: (prefix + body)[i] == body[i - |prefix|]
  {
  }

  /** Thirty-two bytes always make a well-formed token, and different bytes different tokens. */
  lemma TokensAreFaithful(a: seq<byte>, b: seq<byte>)
    requires |a| == |b| == 32
    ensures IsToken(TokenOf(a)) && (TokenOf(a) == TokenOf(b) ==> a == b)
  {
    EncodeDigits(a);
    AfterPrefix(PREFIX, Encode(a));
    AfterPrefix(PREFIX, Encode(b));
    if TokenOf(a) == TokenOf(b) {
      assert Encode(a) == Encode(b);
      DecodeEncode(a);
      DecodeEncode(b);
    }
  }

  // ---------- The header ----------

  /** JavaScript's \s, which is also what trim removes. */
  predicate IsSpace(c: char) {
    || '\t' <= c <= '\r' || c == ' ' || c == '\U{00A0}' || c == '\U{1680}' || '\U{2000}' <= c <= '\U{200A}'
    || c == '\U{2028}' || c == '\U{2029}' || c == '\U{202F}' || c == '\U{205F}' || c == '\U{3000}' || c == '\U{FEFF}'
  }

  /** The white space characters by their numbers: tab to carriage return, space, and the wide ones. */
  lemma SpacesByNumber(c: char)
    ensures IsSpace(c) <==>
              || c as int in {9, 10, 11, 12, 13, 32, 0xA0, 0x1680, 0x2028, 0x2029, 0x202F, 0x205F, 0x3000, 0xFEFF}
              || 0x2000 <= c as int <= 0x200A
  {
  }

  predicate AllSpace(s: string) { forall i | 0 <= i < |s| :: IsSpace(s[i]) }

  predicate NoSpace(s: string) { forall i | 0 <= i < |s| :: !IsSpace(s[i]) }

  /** Length of the leading white space. */
  function Leading(s: string): (n: nat)
    ensures n <= |s| && (forall i | 0 <= i < n :: IsSpace(s[i])) && (n < |s| ==> !IsSpace(s[n]))
  {
    if s == "" || !IsSpace(s[0]) then 0 else
    var n := Leading(s[1..]);
    assert forall i | 0 < i < n + 1 :: s[i] == s[1..][i - 1];
    n + 1
  }

  /** Length without the trailing white space. */
  function Trailing(s: string): (n: nat)
    ensures n <= |s| && (forall i | n <= i < |s| :: IsSpace(s[i])) && (n > 0 ==> !IsSpace(s[n - 1]))
    decreases |s|
  {
    if s == "" || !IsSpace(s[|s| - 1]) then |s| else Trailing(s[..|s| - 1])
  }

  function Trim(s: string): string {
    var t := s[Leading(s)..];
    t[..Trailing(t)]
  }

  function Upper(c: char): char {
    if 'a' <= c <= 'z' then (c as int - 32) as char else c
  }

  /** Bearer in any mixture of case. */
  predicate IsScheme(s: string) {
    |s| == 6 && Upper(s[0]) == 'B' && Upper(s[1]) == 'E' && Upper(s[2]) == 'A'
    && Upper(s[3]) == 'R' && Upper(s[4]) == 'E' && Upper(s[5]) == 'R'
  }

  /** Each letter of the scheme is the capital or the small one. */
  lemma SchemeInAnyCase(s: string)
    ensures IsScheme(s) <==> |s| == 6 && forall i | 0 <= i < 6 :: s[i] == "BEARER"[i] || s[i] == "bearer"[i]
  {
    if |s| == 6 {
      forall i | 0 <= i < 6
        ensures Upper(s[i]) == "BEARER"[i] <==> s[i] == "BEARER"[i] || s[i] == "bearer"[i]
      {
        UpperOf(s[i], i);
      }
      assert "BEARER"[0] == 'B' && "BEARER"[1] == 'E' && "BEARER"[2] == 'A' && "BEARER"[3] == 'R' && "BEARER"[4] == 'E' && "BEARER"[5] == 'R';
    }
  }

  lemma UpperOf(c: char, i: nat)
    requires i < 6
    ensures Upper(c) == "BEARER"[i] <==> c == "BEARER"[i] || c == "bearer"[i]
  {
    assert i == 0 || i == 1 || i == 2 || i == 3 || i == 4 || i == 5;
  }

  /** A header may be absent, one string, or several. */
  datatype Header = Absent | One(value: string) | Many(values: seq<string>)

  /** The regular expression on a trimmed header: the scheme, white space, then one stretch without
      white space up to the end. */
  function BearerValue(s: string): Option<string> {
    if |s| < 6 || !IsScheme(s[..6]) then None else
    var rest := s[6..];
    var token := rest[Leading(rest)..];
    if Leading(rest) == 0 || token == "" || !NoSpace(token) then None else Some(token)
  }

  function ParseBearer(header: Header): Option<string> {
    if !header.One? then None else
    match BearerValue(Trim(header.value))
    case None => None
    case Some(token) => if IsToken(token) then Some(token) else None
  }

  /** Removing outer white space from a text that starts and ends without any. */
  lemma TrimExactly(before: string, core: string, after: string)
    requires AllSpace(before) && AllSpace(after)
    requires core != "" && !IsSpace(core[0]) && !IsSpace(core[|core| - 1])
    ensures Trim(before + core + after) == core
  {
    var s := before + core + after;
    assert s[|before|] == core[0];
    assert Leading(s) == |before|;
    var t := s[|before|..];
    assert t == core + after;
    assert t[|core| - 1] == core[|core| - 1];
    assert Trailing(t) == |core|;
  }

  /** What Trim removes on either side is white space. */
  lemma TrimRemovesSpace(s: string) returns (before: string, after: string)
    ensures AllSpace(before) && AllSpace(after) && s == before + Trim(s) + after
  {
    var n := Leading(s);
    var t := s[n..];
    var k := Trailing(t);
    before, after := s[..n], t[k..];
    assert t == t[..k] + after;
  }

  lemma BearerOf(scheme: string, gap: string, token: string)
    requires IsScheme(scheme) && gap != "" && AllSpace(gap) && token != "" && NoSpace(token)
    ensures BearerValue(scheme + gap + token) == Some(token)
  {
    var s := scheme + gap + token;
    assert s[..6] == scheme;
    var rest := s[6..];
    assert rest == gap + token;
    assert rest[|gap|] == token[0];
    assert Leading(rest) == |gap|;
    assert rest[|gap|..] == token;
  }

  lemma BearerSplits(s: string) returns (scheme: string, gap: string)
    requires BearerValue(s).Some?
    ensures IsScheme(scheme) && gap != "" && AllSpace(gap) && s == scheme + gap + BearerValue(s).value
  {
    var rest := s[6..];
    scheme, gap := s[..6], rest[..Leading(rest)];
    assert rest == gap + rest[Leading(rest)..];
  }

  lemma TokenHasNoSpace(token: string)
    requires IsToken(token)
    ensures NoSpace(token)
  {
    forall i | 0 <= i < |token| ensures !IsSpace(token[i]) {
      assert i < |PREFIX| ==> token[i] == PREFIX[i];
      assert PREFIX == ['a', 'e', 'r', 'd', 'r', '_'];
    }
  }

  /** What a header with this token looks like. */
  predicate Carries(s: string, token: string, before: string, scheme: string, gap: string, after: string) {
    && s == before + (scheme + gap + token) + after
    && AllSpace(before) && IsScheme(scheme) && gap != "" && AllSpace(gap) && IsToken(token) && AllSpace(after)
  }

  /** Every header of that form, whatever the case and the white space, yields its token. */
  lemma CarriedTokenIsParsed(s: string, token: string, before: string, scheme: string, gap: string, after: string)
    requires Carries(s, token, before, scheme, gap, after)
    ensures ParseBearer(One(s)) == Some(token)
  {
    TokenHasNoSpace(token);
    var core := scheme + gap + token;
    assert core[0] == scheme[0] && core[|core| - 1] == token[|token| - 1];
    TrimExactly(before, core, after);
    BearerOf(scheme, gap, token);
  }

  /** Parsing returns a token exactly when the header carries it. */
  lemma ParsesExactly(header: Header, token: string)
    ensures ParseBearer(header) == Some(token) <==>
            header.One? && exists before, scheme, gap, after :: Carries(header.value, token, before, scheme, gap, after)
  {
    if header.One? {
      var s := header.value;
      if before, scheme, gap, after :| Carries(s, token, before, scheme, gap, after) {
        CarriedTokenIsParsed(s, token, before, scheme, gap, after);
      }
      if ParseBearer(header) == Some(token) {
        var before, after := TrimRemovesSpace(s);
        var scheme, gap := BearerSplits(Trim(s));
        assert Carries(s, token, before, scheme, gap, after);
      }
    }
  }

  /** What is printed for 32 bytes is read back from any bearer header, and identifies the bytes. */
  lemma TokenRoundTrip(random: seq<byte>, before: string, scheme: string, gap: string, after: string)
    requires |random| == 32 && AllSpace(before) && IsScheme(scheme) && gap != "" && AllSpace(gap) && AllSpace(after)
    ensures var parsed := ParseBearer(One(before + (scheme + gap + TokenOf(random)) + after));
            && parsed == Some(TokenOf(random))
            && AllDigits(TokenOf(random)[|PREFIX|..]) && Decode(TokenOf(random)[|PREFIX|..]) == random
  {
    TokensAreFaithful(random, random);
    var token := TokenOf(random);
    CarriedTokenIsParsed(before + (scheme + gap + token) + after, token, before, scheme, gap, after);
    assert token[|PREFIX|..] == Encode(random);
    DecodeEncode(random);
  }
}
