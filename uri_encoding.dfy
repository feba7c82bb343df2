/** encodeURIComponent (ECMA-262, section 18.2.6.5 of the 2015-2020 editions), which requestData
    applies to every value it places in the proxy URI, and decodeURIComponent (section 18.2.6.3),
    the inverse a server applies when it reads the query back. Octets are escaped as in section
    2.1 of RFC 3986, after UTF-8 encoding (RFC 3629). */
module UriEncoding {
  import opened Wrappers

  /** The characters encodeURIComponent leaves alone: letters, digits and - _ . ! ~ * ' ( ) */
  predicate Unreserved(c: char)
  {
    ('A' <= c <= 'Z') || ('a' <= c <= 'z') || ('0' <= c <= '9') ||
    c == '-' || c == '_' || c == '.' || c == '!' || c == '~' || c == '*' ||
    c == '\'' || c == '(' || c == ')'
  }

  type Octet = b: int | 0 <= b < 256
  type Nibble = n: int | 0 <= n < 16

  /** Number of octets of the UTF-8 sequence that starts with lead octet `b`; 0 when `b` cannot
      start one. */
  function LeadLength(b: Octet): nat
  {
    if b < 0x80 then 1
    else if 0xC0 <= b < 0xE0 then 2
    else if 0xE0 <= b < 0xF0 then 3
    else if 0xF0 <= b < 0xF8 then 4
    else 0
  }

  predicate Continuation(b: Octet)
  {
    0x80 <= b < 0xC0
  }

  /** UTF-8 encoding of one Unicode scalar value, by successive divisions by 64. */
  function Utf8(c: char): (bytes: seq<Octet>)
    ensures 1 <= |bytes| <= 4 && LeadLength(bytes[0]) == |bytes|
    ensures forall i :: 1 <= i < |bytes| ==> Continuation(bytes[i])
  {
    var cp := c as int;
    var q1 := cp / 64;
    var q2 := q1 / 64;
    var q3 := q2 / 64;
    if cp < 0x80 then [cp]
    else if cp < 0x800 then [0xC0 + q1, 0x80 + cp % 64]
    else if cp < 0x10000 then [0xE0 + q2, 0x80 + q1 % 64, 0x80 + cp % 64]
    else [0xF0 + q3, 0x80 + q2 % 64, 0x80 + q1 % 64, 0x80 + cp % 64]
  }

  /** Decodes one complete UTF-8 sequence, rejecting bad continuation octets, overlong forms,
      surrogates and values above U+10FFFF, as decodeURIComponent does. */
  function Utf8Decode(bytes: seq<Octet>): Option<char>
    requires 1 <= |bytes| && LeadLength(bytes[0]) == |bytes|
  {
    if exists i :: 1 <= i < |bytes| && !Continuation(bytes[i]) then None
    else
      var b: seq<int> := bytes;
      var cp :=
        if |b| == 1 then b[0]
        else if |b| == 2 then (b[0] - 0xC0) * 64 + (b[1] - 0x80)
        else if |b| == 3 then ((b[0] - 0xE0) * 64 + (b[1] - 0x80)) * 64 + (b[2] - 0x80)
        else (((b[0] - 0xF0) * 64 + (b[1] - 0x80)) * 64 + (b[2] - 0x80)) * 64 + (b[3] - 0x80);
      var least: int := if |bytes| == 1 then 0 else if |bytes| == 2 then 0x80 else if |bytes| == 3 then 0x800 else 0x10000;
      if cp < least || 0x10FFFF < cp || (0xD800 <= cp < 0xE000) then None
      else Some(cp as char)
  }

  /** Upper-case hexadecimal digit, as encodeURIComponent writes escapes. */
  function HexDigit(n: Nibble): char
  {
    if n < 10 then ('0' as int + n) as char else ('A' as int + n - 10) as char
  }

  /** Value of a hexadecimal digit of either case. */
  function HexValue(c: char): Option<Nibble>
  {
    if '0' <= c <= '9' then Some(c as int - '0' as int)
    else if 'A' <= c <= 'F' then Some(c as int - 'A' as int + 10)
    else if 'a' <= c <= 'f' then Some(c as int - 'a' as int + 10)
    else None
  }

  /** The escape "%XY" of one octet. */
  function PercentOctet(b: Octet): string
  {
    ['%', HexDigit(b / 16), HexDigit(b % 16)]
  }

  function PercentOctets(bytes: seq<Octet>): (s: string)
    ensures |s| == 3 * |bytes|
    ensures forall i :: 0 <= i < |s| ==> Unreserved(s[i]) || s[i] == '%'
  {
    if bytes == [] then [] else PercentOctet(bytes[0]) + PercentOctets(bytes[1..])
  }

  function EncodeChar(c: char): (s: string)
    ensures forall i :: 0 <= i < |s| ==> Unreserved(s[i]) || s[i] == '%'
  {
    if Unreserved(c) then [c] else PercentOctets(Utf8(c))
  }

  /** encodeURIComponent. Its output consists of unreserved characters and the '%' of escapes
      only, so it never holds a delimiter of a query string. (A lone surrogate, on which the
      script's encoder throws, is not a value of `char`.) */
  function Encode(s: string): (r: string)
    ensures |r| >= |s|
    ensures forall i :: 0 <= i < |r| ==> Unreserved(r[i]) || r[i] == '%'
  {
    if s == [] then [] else EncodeChar(s[0]) + Encode(s[1..])
  }

  lemma EncodeHasNo(s: string, d: char)
    requires !Unreserved(d) && d != '%'
    ensures d !in Encode(s)
  {
    var r := Encode(s);
    forall i | 0 <= i < |r| ensures r[i] != d {}
  }

  /** Reads the escape "%XY" at the front of `t`. */
  function ReadOctet(t: string): Option<Octet>
  {
    if |t| < 3 || t[0] != '%' then None
    else match (HexValue(t[1]), HexValue(t[2]))
      case (Some(h), Some(l)) => Some(h as int * 16 + l as int)
      case _ => None
  }

  /** Reads `n` consecutive escapes at the front of `t`. */
  function ReadOctets(t: string, n: nat): (r: Option<seq<Octet>>)
    ensures r.Some? ==> |r.value| == n && 3 * n <= |t|
  {
    if n == 0 then Some([])
    else match ReadOctet(t)
      case None => None
      case Some(b) =>
        match ReadOctets(t[3..], n - 1)
        case None => None
        case Some(rest) => Some([b] + rest)
  }

  /** Decodes the character at the front of `t` and says how many characters it took: a
      character other than '%' stands for itself, '%' starts the escapes of one UTF-8 sequence. */
  function DecodeStep(t: string): (r: Option<(char, nat)>)
    requires t != []
    ensures r.Some? ==> 1 <= r.value.1 <= |t|
  {
    if t[0] != '%' then Some((t[0], 1))
    else match ReadOctet(t)
      case None => None
      case Some(lead) =>
        var n := LeadLength(lead);
        if n == 0 then None
        else match ReadOctets(t, n)
          case None => None
          case Some(bytes) =>
            match Utf8Decode(bytes)
            case None => None
            case Some(c) => Some((c, 3 * n))
  }

  /** decodeURIComponent; None where the script's decoder throws a URIError. */
  function Decode(t: string): Option<string>
    decreases |t|
  {
    if t == [] then Some([])
    else match DecodeStep(t)
      case None => None
      case Some((c, k)) =>
        match Decode(t[k..])
        case None => None
        case Some(rest) => Some([c] + rest)
  }

  lemma Utf8RoundTrip(c: char)
    ensures Utf8Decode(Utf8(c)) == Some(c)
  {
    var cp := c as int;
    var q1 := cp / 64;
    var q2 := q1 / 64;
    var q3 := q2 / 64;
    assert cp == q1 * 64 + cp % 64;
    assert q1 == q2 * 64 + q1 % 64;
    assert q2 == q3 * 64 + q2 % 64;
  }

  lemma ReadOctetsOfEscapes(bytes: seq<Octet>, rest: string)
    ensures ReadOctets(PercentOctets(bytes) + rest, |bytes|) == Some(bytes)
  {
    if bytes != [] {
      var b := bytes[0];
      var t := PercentOctets(bytes) + rest;
      assert t == PercentOctet(b) + (PercentOctets(bytes[1..]) + rest);
      assert b == b / 16 * 16 + b % 16;
      assert ReadOctet(t) == Some(b);
      assert t[3..] == PercentOctets(bytes[1..]) + rest;
      ReadOctetsOfEscapes(bytes[1..], rest);
      assert [b] + bytes[1..] == bytes;
    }
  }

  lemma DecodeStepEncodeChar(c: char, rest: string)
    ensures DecodeStep(EncodeChar(c) + rest) == Some((c, |EncodeChar(c)|))
  {
    if !Unreserved(c) {
      var bytes := Utf8(c);
      var t := EncodeChar(c) + rest;
      ReadOctetsOfEscapes(bytes, rest);
      ReadOctetsOfEscapes([bytes[0]], PercentOctets(bytes[1..]) + rest);
      assert t == PercentOctets([bytes[0]]) + (PercentOctets(bytes[1..]) + rest);
      assert ReadOctet(t) == Some(bytes[0]);
      Utf8RoundTrip(c);
    }
  }

  /** decodeURIComponent undoes encodeURIComponent: the escaping loses nothing. */
  lemma {:induction false} DecodeEncode(s: string)
    ensures Decode(Encode(s)) == Some(s)
  {
    if s != [] {
      var head := EncodeChar(s[0]);
      var t := Encode(s);
      assert t == head + Encode(s[1..]);
      DecodeStepEncodeChar(s[0], Encode(s[1..]));
      assert t[|head|..] == Encode(s[1..]);
      DecodeEncode(s[1..]);
      assert [s[0]] + s[1..] == s;
    }
  }

  /** Text made of unreserved characters only is left exactly as it is. */
  lemma {:induction false} EncodeUnreserved(s: string)
    requires forall i :: 0 <= i < |s| ==> Unreserved(s[i])
    ensures Encode(s) == s
  {
    if s != [] {
      EncodeUnreserved(s[1..]);
      assert [s[0]] + s[1..] == s;
    }
  }
}
