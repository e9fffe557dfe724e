/**
 * The push-subscription key codec of frontend/src/lib/push.ts: base64url
 * without padding (RFC 4648, sections 4 and 5), built from the browser's btoa
 * and atob, whose behaviour is that of the WHATWG "forgiving-base64" rules.
 */
module PushKey {
  import opened Basics

  type sextet = x: int | 0 <= x < 64

  // ---------- characters ----------

  function StdChar(v: sextet): char {
    if v < 26 then (v + 65) as char
    else if v < 52 then (v + 71) as char
    else if v < 62 then (v - 4) as char
    else if v == 62 then '+' else '/'
  }

  function UrlChar(v: sextet): char {
    if v == 62 then '-' else if v == 63 then '_' else StdChar(v)
  }

  function StdSextet(c: char): Option<sextet> {
    if 'A' <= c <= 'Z' then Some(c as int - 65)
    else if 'a' <= c <= 'z' then Some(c as int - 71)
    else if '0' <= c <= '9' then Some(c as int + 4)
    else if c == '+' then Some(62)
    else if c == '/' then Some(63)
    else None
  }

  function UrlSextet(c: char): Option<sextet> {
    if c == '-' then Some(62) else if c == '_' then Some(63)
    else if c == '+' || c == '/' then None else StdSextet(c)
  }

  lemma CharRoundTrip(v: sextet)
    ensures StdSextet(StdChar(v)) == Some(v) && UrlSextet(UrlChar(v)) == Some(v)
    ensures StdChar(v) != '=' && UrlChar(v) != '=' && !IsSpace(StdChar(v))
    ensures StdChar(v) != '-' && StdChar(v) != '_'
    ensures Normal(UrlChar(v)) == StdChar(v) && Urlish(StdChar(v)) == UrlChar(v)
  {
  }

  lemma UrlSextetExact(c: char, v: sextet)
    ensures UrlSextet(c) == Some(v) <==> c == UrlChar(v)
  {
  }

  const UPPER: string := "ABCDEFGHIJKLMNOPQRSTUVWXYZ"
  const LOWER: string := "abcdefghijklmnopqrstuvwxyz"
  const DIGITS: string := "0123456789"

  /** The two alphabets of RFC 4648, which differ in the last two characters. */
  lemma Alphabets(v: sextet)
    ensures StdChar(v) == (UPPER + LOWER + DIGITS + "+/")[v] && UrlChar(v) == (UPPER + LOWER + DIGITS + "-_")[v]
  {
    assert v < 26 ==> UPPER[v] == (v + 65) as char;
    assert 26 <= v < 52 ==> LOWER[v - 26] == (v + 71) as char;
    assert 52 <= v < 62 ==> DIGITS[v - 52] == (v - 4) as char;
  }

  /** ASCII white space, which atob ignores. */
  predicate IsSpace(c: char) {
    c == ' ' || c == '\t' || c == '\n' || c == '\U{C}' || c == '\r'
  }

  /** A character of the URL alphabet as its standard counterpart, and the reverse; others are kept. */
  function Normal(c: char): char {
    if c == '-' then '+' else if c == '_' then '/' else c
  }

  function Urlish(c: char): char {
    if c == '+' then '-' else if c == '/' then '_' else c
  }

  function MapChars(f: char -> char, s: string): (r: string)
    ensures |r| == |s| && forall i :: 0 <= i < |s| ==> r[i] == f(s[i])
  {
    seq(|s|, i requires 0 <= i < |s| => f(s[i]))
  }

  // ---------- groups ----------

  /** Three bytes as four sextets, and back. */
  function Group(b0: byte, b1: byte, b2: byte): (v: seq<sextet>)
    ensures |v| == 4
  {
    [b0 / 4, b0 % 4 * 16 + b1 / 16, b1 % 16 * 4 + b2 / 64, b2 % 64]
  }

  function Ungroup(v0: sextet, v1: sextet, v2: sextet, v3: sextet): (b: Bytes)
    ensures |b| == 3
  {
    var x0: int, x1: int, x2: int, x3: int := v0, v1, v2, v3;
    [x0 * 4 + x1 / 16, x1 % 16 * 16 + x2 / 4, x2 % 4 * 64 + x3]
  }

  /** A group is one 24-bit number, cut into six bits at a time from the top. */
  lemma GroupIsOneNumber(b0: byte, b1: byte, b2: byte)
    ensures var v := Group(b0, b1, b2);
      b0 as int * 0x1_0000 + b1 as int * 0x100 + b2 as int
      == v[0] as int * 0x4_0000 + v[1] as int * 0x1000 + v[2] as int * 0x40 + v[3] as int
  {
  }

  lemma QuotientRemainder(q: nat, r: nat)
    ensures r < 4 ==> (q * 4 + r) / 4 == q && (q * 4 + r) % 4 == r
    ensures r < 16 ==> (q * 16 + r) / 16 == q && (q * 16 + r) % 16 == r
    ensures r < 64 ==> (q * 64 + r) / 64 == q && (q * 64 + r) % 64 == r
  {
  }

  lemma GroupInverse(b0: byte, b1: byte, b2: byte)
    ensures var v := Group(b0, b1, b2); Ungroup(v[0], v[1], v[2], v[3]) == [b0, b1, b2]
    ensures b2 == 0 ==> var v := Group(b0, b1, b2); v[3] == 0 && v[2] % 4 == 0
    ensures b2 == 0 && b1 == 0 ==> var v := Group(b0, b1, b2); v[2] == 0 && v[1] % 16 == 0
  {
    QuotientRemainder(b0 % 4, b1 / 16);
    QuotientRemainder(b1 % 16, b2 / 64);
    var v := Group(b0, b1, b2);
    assert v[1] / 16 == b0 % 4 && v[1] % 16 == b1 / 16;
    assert v[2] / 4 == b1 % 16 && v[2] % 4 == b2 / 64;
  }

  lemma UngroupInverse(v0: sextet, v1: sextet, v2: sextet, v3: sextet)
    ensures var b := Ungroup(v0, v1, v2, v3); Group(b[0], b[1], b[2]) == [v0, v1, v2, v3]
    ensures v3 == 0 && v2 % 4 == 0 ==> Ungroup(v0, v1, v2, v3)[2] == 0
    ensures v3 == 0 && v2 == 0 && v1 % 16 == 0 ==> Ungroup(v0, v1, v2, v3)[1..] == [0, 0]
  {
    var h1, l1, h2, l2 := v1 / 16, v1 % 16, v2 / 4, v2 % 4;
    assert v1 == h1 * 16 + l1 && v2 == h2 * 4 + l2;
    var b := Ungroup(v0, v1, v2, v3);
    assert b[0] == v0 * 4 + h1 && b[1] == l1 * 16 + h2 && b[2] == l2 * 64 + v3;
    QuotientRemainder(v0, h1);
    QuotientRemainder(l1, h2);
    QuotientRemainder(l2, v3);
  }

  /** The sextets of a byte string; the last one is filled up with zero bits. */
  function Sextets(b: Bytes): (v: seq<sextet>)
    ensures |v| == (|b| * 4 + 2) / 3
  {
    if b == [] then []
    else if |b| == 1 then Group(b[0], 0, 0)[..2]
    else if |b| == 2 then Group(b[0], b[1], 0)[..3]
    else Group(b[0], b[1], b[2]) + Sextets(b[3..])
  }

  /** The bytes of a sextet string; left-over bits are dropped, and a single left-over sextet is an error. */
  function Unsextets(v: seq<sextet>): Option<Bytes> {
    if v == [] then Some([])
    else if |v| == 1 then None
    else if |v| == 2 then Some(Ungroup(v[0], v[1], 0, 0)[..1])
    else if |v| == 3 then Some(Ungroup(v[0], v[1], v[2], 0)[..2])
    else match Unsextets(v[4..])
      case None => None
      case Some(rest) => Some(Ungroup(v[0], v[1], v[2], v[3]) + rest)
  }

  /** No bit is set that decoding would drop. */
  predicate CanonicalSextets(v: seq<sextet>) {
    && |v| % 4 != 1
    && (|v| % 4 == 2 ==> v[|v| - 1] % 16 == 0)
    && (|v| % 4 == 3 ==> v[|v| - 1] % 4 == 0)
  }

  lemma CanonicalTail(v: seq<sextet>)
    requires |v| >= 4
    ensures CanonicalSextets(v) <==> CanonicalSextets(v[4..])
  {
    assert |v| == |v[4..]| + 4;
    assert |v| % 4 == |v[4..]| % 4;
    if |v[4..]| > 0 {
      assert v[|v| - 1] == v[4..][|v[4..]| - 1];
    }
  }

  lemma {:induction false} SextetRoundTrip(b: Bytes)
    ensures Unsextets(Sextets(b)) == Some(b) && CanonicalSextets(Sextets(b))
  {
    hide Group, Ungroup;
    var v := Sextets(b);
    if |b| == 1 {
      GroupInverse(b[0], 0, 0);
      assert b == [b[0], 0, 0][..1];
    } else if |b| == 2 {
      GroupInverse(b[0], b[1], 0);
      assert b == [b[0], b[1], 0][..2];
    } else if |b| >= 3 {
      hide CanonicalSextets;
      GroupInverse(b[0], b[1], b[2]);
      SextetRoundTrip(b[3..]);
      assert v[4..] == Sextets(b[3..]);
      CanonicalTail(v);
      assert b == [b[0], b[1], b[2]] + b[3..];
    }
  }

  lemma {:induction false} SextetsOfDecoded(v: seq<sextet>)
    requires CanonicalSextets(v)
    ensures Unsextets(v).Some? && Sextets(Unsextets(v).value) == v
  {
    hide Group, Ungroup;
    if |v| == 2 {
      UngroupInverse(v[0], v[1], 0, 0);
      assert Ungroup(v[0], v[1], 0, 0)[1] == 0 && Ungroup(v[0], v[1], 0, 0)[2] == 0;
    } else if |v| == 3 {
      UngroupInverse(v[0], v[1], v[2], 0);
    } else if |v| >= 4 {
      CanonicalTail(v);
      UngroupInverse(v[0], v[1], v[2], v[3]);
      SextetsOfDecoded(v[4..]);
      var b := Unsextets(v).value;
      assert b[3..] == Unsextets(v[4..]).value;
      assert v == [v[0], v[1], v[2], v[3]] + v[4..];
    }
  }

  // ---------- btoa and atob ----------

  function Repeat(n: nat): (s: string)
    ensures |s| == n && forall i :: 0 <= i < n ==> s[i] == '='
  {
    seq(n, _ => '=')
  }

  function Encode(f: sextet -> char, v: seq<sextet>): (s: string)
    ensures |s| == |v| && forall i :: 0 <= i < |v| ==> s[i] == f(v[i])
  {
    seq(|v|, i requires 0 <= i < |v| => f(v[i]))
  }

  /** A string whose characters are the given bytes, and back. */
  function Chars(b: Bytes): (s: string)
    ensures |s| == |b| && forall i :: 0 <= i < |b| ==> s[i] == b[i] as char
  {
    seq(|b|, i requires 0 <= i < |b| => b[i] as char)
  }

  function CodeOf(c: char): byte
    requires c as int < 256
  {
    c as int
  }

  function Codes(s: string): (b: Bytes)
    requires forall i :: 0 <= i < |s| ==> s[i] as int < 256
    ensures |b| == |s| && forall i :: 0 <= i < |s| ==> b[i] == s[i] as int
  {
    seq(|s|, i requires 0 <= i < |s| => CodeOf(s[i]))
  }

  function Btoa(binary: string): string
    requires forall i :: 0 <= i < |binary| ==> binary[i] as int < 256
  {
    Encode(StdChar, Sextets(Codes(binary))) + Repeat((3 - |binary| % 3) % 3)
  }

  function WithoutSpaces(s: string): string {
    if s == [] then [] else (if IsSpace(s[0]) then [] else [s[0]]) + WithoutSpaces(s[1..])
  }

  function Ends(s: string): bool {
    s != [] && s[|s| - 1] == '='
  }

  /** Up to two padding characters go, and only from a length that is a multiple of four. */
  function WithoutPadding(s: string): string {
    if |s| % 4 != 0 || !Ends(s) then s
    else
      var t := s[..|s| - 1];
      if Ends(t) then t[..|t| - 1] else t
  }

  function SextetsIn(s: string): Option<seq<sextet>> {
    if s == [] then Some([])
    else match (StdSextet(s[0]), SextetsIn(s[1..]))
      case (Some(v), Some(rest)) => Some([v] + rest)
      case _ => None
  }

  /** None where atob throws. */
  function Atob(s: string): Option<string> {
    match SextetsIn(WithoutPadding(WithoutSpaces(s)))
    case None => None
    case Some(v) =>
      match Unsextets(v)
      case None => None
      case Some(b) => Some(Chars(b))
  }

  // ---------- the codec ----------

  function StripPadding(s: string): string {
    if Ends(s) then StripPadding(s[..|s| - 1]) else s
  }

  /** What encodeKey returns for a key buffer that is not null. */
  function EncodedKey(b: Bytes): string {
    StripPadding(MapChars(Urlish, Btoa(Chars(b))))
  }

  /** How many characters a length lacks to a multiple of four. */
  function Missing(n: nat): nat {
    (4 - n % 4) % 4
  }

  function DecodedKey(s: string): Option<string> {
    Atob(MapChars(Normal, s + Repeat(Missing(|s|))))
  }

  method EncodeKey(buffer: Option<Bytes>) returns (key: string)
    ensures key == if buffer.None? then "" else EncodedKey(buffer.value)
  {
    hide Btoa, StripPadding;
    if buffer.None? {
      return "";
    }
    var binary := "";
    for i := 0 to |buffer.value|
      invariant binary == Chars(buffer.value)[..i]
    {
      binary := binary + [buffer.value[i] as char];
    }
    assert binary == Chars(buffer.value);
    key := StripPadding(MapChars(Urlish, Btoa(binary)));
  }

  /** urlBase64ToUint8Array; `ok` is false where atob throws. */
  method UrlBase64ToUint8Array(base64: string) returns (ok: bool, output: array<byte>)
    ensures ok <==> DecodedKey(base64).Some?
    ensures ok ==> fresh(output) && Chars(output[..]) == DecodedKey(base64).value
  {
    var padded := base64 + Repeat(Missing(|base64|));
    var normalized := MapChars(Normal, padded);
    var raw := Atob(normalized);
    if raw.None? {
      output := new byte[0];
      return false, output;
    }
    output := new byte[|raw.value|](_ => 0);
    for index := 0 to |raw.value|
      invariant Chars(output[..index]) == raw.value[..index]
    {
      output[index] := raw.value[index] as int;
      assert output[..index + 1] == output[..index] + [output[index]];
    }
    assert output[..] == output[..|raw.value|];
    ok := true;
  }

  lemma {:induction false} StripEncoded(v: seq<sextet>, n: nat)
    ensures StripPadding(Encode(UrlChar, v) + Repeat(n)) == Encode(UrlChar, v)
    decreases n
  {
    var s := Encode(UrlChar, v) + Repeat(n);
    if n > 0 {
      assert s[..|s| - 1] == Encode(UrlChar, v) + Repeat(n - 1);
      StripEncoded(v, n - 1);
    } else {
      assert s == Encode(UrlChar, v);
      if v != [] {
        CharRoundTrip(v[|v| - 1]);
      }
    }
  }

  /** The encoded key is the URL alphabet over the sextets, nothing more. */
  lemma EncodedKeyIs(b: Bytes)
    ensures EncodedKey(b) == Encode(UrlChar, Sextets(b))
  {
    assert Codes(Chars(b)) == b;
    var v, n := Sextets(b), (3 - |b| % 3) % 3;
    forall i | 0 <= i < |v| ensures Urlish(StdChar(v[i])) == UrlChar(v[i]) {
      CharRoundTrip(v[i]);
    }
    assert MapChars(Urlish, Btoa(Chars(b))) == Encode(UrlChar, v) + Repeat(n);
    StripEncoded(v, n);
  }

  lemma {:induction false} NoSpaces(s: string)
    requires forall c :: c in s ==> !IsSpace(c)
    ensures WithoutSpaces(s) == s
  {
    if s != [] {
      NoSpaces(s[1..]);
    }
  }

  lemma {:induction false} SextetsInEncoded(v: seq<sextet>)
    ensures SextetsIn(Encode(StdChar, v)) == Some(v)
  {
    if v != [] {
      CharRoundTrip(v[0]);
      assert Encode(StdChar, v)[1..] == Encode(StdChar, v[1..]);
      SextetsInEncoded(v[1..]);
      assert v == [v[0]] + v[1..];
    }
  }

  /** What atob makes of a text that is not padded any more. */
  function Decoded(v: seq<sextet>): Option<string> {
    match Unsextets(v)
    case None => None
    case Some(b) => Some(Chars(b))
  }

  /** atob takes one or two padding characters off; any more stay behind and are an error. */
  lemma AtobPadded(v: seq<sextet>, n: nat)
    requires (|v| + n) % 4 == 0
    ensures Atob(Encode(StdChar, v) + Repeat(n)) == if n <= 2 then Decoded(v) else None
  {
    hide Unsextets, SextetsIn, StdChar, IsSpace, WithoutSpaces, WithoutPadding;
    var plain := Encode(StdChar, v);
    var s := plain + Repeat(n);
    forall i | 0 <= i < |v| ensures !IsSpace(plain[i]) && plain[i] != '=' {
      CharRoundTrip(v[i]);
    }
    EqualsIsNoSpace();
    NoSpaces(s);
    PaddingGoes(plain, n);
    if n <= 2 {
      SextetsInEncoded(v);
    } else {
      var left := plain + Repeat(n - 2);
      assert left[|plain|] == '=';
      SextetsInExact(left);
    }
  }

  /** Only strings over the alphabet have sextets, one for each character. */
  lemma {:induction false} SextetsInExact(s: string)
    ensures SextetsIn(s).Some? <==> forall i :: 0 <= i < |s| ==> StdSextet(s[i]).Some?
    ensures SextetsIn(s).Some? ==> |SextetsIn(s).value| == |s|
    ensures '=' in s ==> SextetsIn(s).None?
  {
    hide StdSextet;
    EqualsIsNoSpace();
    if s != [] {
      SextetsInExact(s[1..]);
      assert forall i :: 0 < i < |s| ==> s[i] == s[1..][i - 1];
      if SextetsIn(s).Some? {
        forall i | 0 <= i < |s| ensures StdSextet(s[i]).Some? {
          assert i > 0 ==> s[i] == s[1..][i - 1];
        }
      }
    }
  }

  lemma EqualsIsNoSpace()
    ensures !IsSpace('=') && StdSextet('=').None?
  {
  }

  lemma PaddingGoes(plain: string, n: nat)
    requires (|plain| + n) % 4 == 0
    requires forall i :: 0 <= i < |plain| ==> plain[i] != '='
    ensures WithoutPadding(plain + Repeat(n)) == if n <= 2 then plain else plain + Repeat(n - 2)
  {
    var s := plain + Repeat(n);
    assert |s| == |plain| + n;
    if n == 0 {
      assert s == plain;
    } else if n == 1 {
      assert s[..|s| - 1] == plain;
    } else {
      assert s[..|s| - 1][..|s| - 2] == plain + Repeat(n - 2);
      assert plain + Repeat(0) == plain;
    }
  }

  lemma NormalEquals()
    ensures Normal('=') == '='
  {
  }

  /** The decoder accepts up to as much padding as the text lacks, and adds what is missing of it. */
  lemma MissingFills(n: nat)
    ensures (n + Missing(n)) % 4 == 0 && Missing(n) <= 3 && (n % 4 != 1 ==> Missing(n) <= 2)
  {
  }

  lemma Alike(n: nat, a: nat, b: nat)
    requires (n + a) % 4 == 0 && (n + b) % 4 == 0 && a < b + 4 && b < a + 4
    ensures a == b
  {
    assert a - b == 4 * ((n + a) / 4 - (n + b) / 4);
  }

  lemma PaddingAccepted(n: nat, p: nat)
    requires n % 4 != 1
    ensures (n + p + Missing(n + p)) % 4 == 0 && (p + Missing(n + p) <= 2 <==> p <= Missing(n))
  {
    MissingFills(n);
    MissingFills(n + p);
    hide Missing;
    var a, b := p + Missing(n + p), Missing(n);
    if a <= 2 || p <= b {
      assert (n + a) % 4 == 0;
      if b >= a + 4 || a >= b + 4 {
        assert false;
      }
      Alike(n, a, b);
    }
  }

  lemma DecodedUrl(v: seq<sextet>, p: nat)
    requires |v| % 4 != 1
    ensures DecodedKey(Encode(UrlChar, v) + Repeat(p)) == if p <= Missing(|v|) then Decoded(v) else None
  {
    hide Decoded, Atob, StdChar, UrlChar, Normal, Missing;
    var n := Missing(|v| + p);
    PaddingAccepted(|v|, p);
    NormalEquals();
    forall i | 0 <= i < |v| ensures Normal(UrlChar(v[i])) == StdChar(v[i]) {
      CharRoundTrip(v[i]);
    }
    assert MapChars(Normal, Encode(UrlChar, v) + Repeat(p) + Repeat(n)) == Encode(StdChar, v) + Repeat(p + n);
    AtobPadded(v, p + n);
  }

  /** Decoding an encoded key gives the same bytes back, whatever they are. */
  lemma KeyRoundTrip(b: Bytes)
    ensures DecodedKey(EncodedKey(b)) == Some(Chars(b))
  {
    EncodedKeyIs(b);
    SextetRoundTrip(b);
    DecodedUrl(Sextets(b), 0);
    assert EncodedKey(b) + Repeat(0) == EncodedKey(b);
  }

  /** A canonical key: only URL-alphabet characters, a possible length, no stray bits in the last one. */
  predicate CanonicalKey(s: string) {
    && (forall i :: 0 <= i < |s| ==> UrlSextet(s[i]).Some?)
    && |s| % 4 != 1
    && (|s| % 4 == 2 ==> UrlSextet(s[|s| - 1]).value % 16 == 0)
    && (|s| % 4 == 3 ==> UrlSextet(s[|s| - 1]).value % 4 == 0)
  }

  lemma CanonicalKeyIs(s: string) returns (v: seq<sextet>)
    requires CanonicalKey(s)
    ensures s == Encode(UrlChar, v) && CanonicalSextets(v)
  {
    v := seq(|s|, i requires 0 <= i < |s| => UrlSextet(s[i]).value);
    forall i | 0 <= i < |s| ensures s[i] == UrlChar(v[i]) {
      UrlSextetExact(s[i], v[i]);
    }
  }

  lemma EncodedKeyCanonical(b: Bytes)
    ensures CanonicalKey(EncodedKey(b))
  {
    EncodedKeyIs(b);
    SextetRoundTrip(b);
    var v := Sextets(b);
    forall i | 0 <= i < |v| ensures UrlSextet(UrlChar(v[i])) == Some(v[i]) {
      CharRoundTrip(v[i]);
    }
  }

  /** The canonical keys are exactly the ones encodeKey can return. */
  lemma CanonicalExact(s: string)
    ensures CanonicalKey(s) <==> exists b :: EncodedKey(b) == s
  {
    if CanonicalKey(s) {
      var v := CanonicalKeyIs(s);
      SextetsOfDecoded(v);
      EncodedKeyIs(Unsextets(v).value);
    }
    forall b | EncodedKey(b) == s ensures CanonicalKey(s) {
      EncodedKeyCanonical(b);
    }
  }

  lemma CharsInjective(a: Bytes, b: Bytes)
    ensures Chars(a) == Chars(b) <==> a == b
  {
    if Chars(a) == Chars(b) {
      forall i | 0 <= i < |a| ensures a[i] == b[i] {
        assert Chars(a)[i] == Chars(b)[i];
        assert (a[i] as char) as int == (b[i] as char) as int;
      }
      assert |a| == |Chars(a)| == |b|;
    }
  }

  lemma {:induction false} UnsextetsExact(v: seq<sextet>)
    ensures Unsextets(v).Some? <==> |v| % 4 != 1
  {
    hide Ungroup;
    if |v| >= 4 {
      UnsextetsExact(v[4..]);
      assert |v| == |v[4..]| + 4;
    }
  }

  /** What is left after white space and padding is over the alphabet and of a possible length. */
  predicate Decodable(s: string) {
    var t := WithoutPadding(WithoutSpaces(MapChars(Normal, s + Repeat(Missing(|s|)))));
    |t| % 4 != 1 && forall i :: 0 <= i < |t| ==> StdSextet(t[i]).Some?
  }

  lemma DecodableExact(s: string)
    ensures Decodable(s) <==> exists b :: DecodedKey(s) == Some(Chars(b))
  {
    hide WithoutPadding, WithoutSpaces, SextetsIn, StdSextet, Unsextets, Missing;
    var t := WithoutPadding(WithoutSpaces(MapChars(Normal, s + Repeat(Missing(|s|)))));
    SextetsInExact(t);
    if SextetsIn(t).Some? {
      UnsextetsExact(SextetsIn(t).value);
      if Decodable(s) {
        assert DecodedKey(s) == Some(Chars(Unsextets(SextetsIn(t).value).value));
      }
    }
  }

  lemma {:induction false} StripSplits(s: string)
    ensures |StripPadding(s)| <= |s|
    ensures s == StripPadding(s) + Repeat(|s| - |StripPadding(s)|)
  {
    if Ends(s) {
      StripSplits(s[..|s| - 1]);
    }
  }

  /** A canonical string is the encoding of exactly one key. */
  lemma CanonicalEncodes(s: string, p: nat) returns (key: Bytes)
    requires CanonicalKey(s)
    ensures forall b :: EncodedKey(b) == s <==> b == key
    ensures DecodedKey(s + Repeat(p)) == if p <= Missing(|s|) then Some(Chars(key)) else None
  {
    hide Missing;
    var v := CanonicalKeyIs(s);
    SextetsOfDecoded(v);
    DecodedUrl(v, p);
    key := Unsextets(v).value;
    EncodedKeyIs(key);
    hide EncodedKey;
    forall b ensures EncodedKey(b) == s <==> b == key {
      if EncodedKey(b) == s {
        KeyRoundTrip(b);
        KeyRoundTrip(key);
        CharsInjective(b, key);
      }
    }
  }

  /**
   * A stored key that passes the comparison with the configured one should be
   * the key the configured one decodes to, and the other way round. For a
   * canonical key that holds exactly up to the padding it lacks, and for any
   * other exactly when it does not decode at all.
   */
  lemma ComparisonExact(configured: string)
    ensures var s := StripPadding(configured);
      (forall b :: EncodedKey(b) == s <==> DecodedKey(configured) == Some(Chars(b)))
      <==> if CanonicalKey(s) then |configured| - |s| <= Missing(|s|) else !Decodable(configured)
  {
    hide StripPadding, CanonicalKey, EncodedKey, DecodedKey, Decodable, Missing;
    var s := StripPadding(configured);
    StripSplits(configured);
    if CanonicalKey(s) {
      var key := CanonicalEncodes(s, |configured| - |s|);
      forall b ensures Chars(b) == Chars(key) <==> b == key {
        CharsInjective(b, key);
      }
      assert EncodedKey(key) == s;
      assert configured == s + Repeat(|configured| - |s|);
      if |configured| - |s| <= Missing(|s|) {
        assert forall b :: EncodedKey(b) == s <==> DecodedKey(configured) == Some(Chars(b));
      }
    } else {
      forall b ensures EncodedKey(b) != s {
        EncodedKeyCanonical(b);
      }
      DecodableExact(configured);
    }
  }

  lemma ZeroSextets(b: Bytes)
    requires |b| == 1 && b[0] == 0
    ensures Sextets(b)[0] == 0 && Sextets(b)[1] == 0
  {
    assert Sextets(b) == Group(b[0], 0, 0)[..2];
  }

  lemma ZeroText(v: seq<sextet>)
    requires |v| == 2 && v[0] == 0 && v[1] == 0
    ensures Encode(UrlChar, v) == "AA"
  {
  }

  lemma ZeroKey(b: Bytes)
    requires |b| == 1 && b[0] == 0
    ensures EncodedKey(b) == "AA"
  {
    hide EncodedKey, Sextets, Encode;
    EncodedKeyIs(b);
    ZeroSextets(b);
    ZeroText(Sextets(b));
  }

  /** A configured key with a stray bit in its last character decodes to the same byte but is not equal. */
  lemma StrayBit()
    ensures DecodedKey("AB") == Some(Chars([0])) && EncodedKey([0]) != StripPadding("AB")
  {
    hide EncodedKey, DecodedKey;
    var v: seq<sextet> := [0, 1];
    assert Ungroup(0, 1, 0, 0) == [0, 16, 0];
    assert [0, 16, 0][..1] == [0];
    assert v[0] == 0 && v[1] == 1;
    assert "AB" == Encode(UrlChar, v) + Repeat(0);
    DecodedUrl(v, 0);
    assert Unsextets(v) == Some([0]);
    ZeroKey([0]);
  }

  /** A configured key with one padding character too many is taken for equal but does not decode. */
  lemma OverPadded()
    ensures EncodedKey([0]) == StripPadding("AA===") && DecodedKey("AA===") == None
  {
    hide EncodedKey, DecodedKey, StripPadding;
    var v: seq<sextet> := [0, 0];
    ZeroText(v);
    assert "AA===" == "AA" + Repeat(3);
    StripEncoded(v, 3);
    DecodedUrl(v, 3);
    ZeroKey([0]);
  }
}
