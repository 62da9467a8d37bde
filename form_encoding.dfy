/** application/x-www-form-urlencoded values as java.net.URLEncoder writes them
    with the UTF-8 charset (the HTML 4.01 form-encoding rules, section 17.13.4.1):
    'a'-'z', 'A'-'Z', '0'-'9', '.', '-', '*' and '_' stay as they are, a space
    becomes '+', and every other character becomes "%XX" for each byte of its
    UTF-8 encoding, with upper-case hex digits.

    Beside the encoder stands the decoder a form-reading server applies
    (split on '&', split each pair on its first '=', percent-decode, read the
    bytes as UTF-8), and the round trip that ties the two together. */
module FormEncoding {
  import opened Results

  type Byte = b: int | 0 <= b < 256

  // ---------------------------------------------------------------------
  // UTF-8
  // ---------------------------------------------------------------------

  predicate IsScalarValue(n: int)
  {
    0 <= n < 0xD800 || 0xE000 <= n < 0x110000
  }

  /** The UTF-8 bytes of one Unicode scalar value (RFC 3629, section 3). */
  function Utf8Char(c: char): (bs: seq<Byte>)
    ensures 1 <= |bs| <= 4
    ensures (c as int < 0x80) <==> (|bs| == 1)
    ensures |bs| == 1 ==> bs[0] == c as int
  {
    var n := c as int;
    if n < 0x80 then [n]
    else if n < 0x800 then [0xC0 + n / 64, 0x80 + n % 64]
    else if n < 0x10000 then [0xE0 + n / 4096, 0x80 + (n / 64) % 64, 0x80 + n % 64]
    else [0xF0 + n / 262144, 0x80 + (n / 4096) % 64, 0x80 + (n / 64) % 64, 0x80 + n % 64]
  }

  function Utf8Encode(s: string): (bs: seq<Byte>)
  {
    if s == [] then [] else Utf8Char(s[0]) + Utf8Encode(s[1..])
  }

  predicate IsContinuation(b: Byte)
  {
    0x80 <= b < 0xC0
  }

  function ConsChar(c: char, rest: Option<string>): (r: Option<string>)
  {
    if rest.Some? then Some([c] + rest.value) else None
  }

  /** Strict UTF-8 decoding: overlong forms, surrogates, values past U+10FFFF
      and truncated or stray continuation bytes are rejected. */
  function Utf8Decode(bs: seq<Byte>): (r: Option<string>)
    decreases |bs|
  {
    if bs == [] then Some([])
    else if bs[0] < 0x80 then ConsChar(bs[0] as char, Utf8Decode(bs[1..]))
    else if 0xC2 <= bs[0] < 0xE0 && |bs| >= 2 && IsContinuation(bs[1]) then
      ConsChar(((bs[0] as int - 0xC0) * 64 + (bs[1] as int - 0x80)) as char, Utf8Decode(bs[2..]))
    else if 0xE0 <= bs[0] < 0xF0 && |bs| >= 3 && IsContinuation(bs[1]) && IsContinuation(bs[2]) then
      var n := (bs[0] as int - 0xE0) * 4096 + (bs[1] as int - 0x80) * 64 + (bs[2] as int - 0x80);
      if 0x800 <= n && IsScalarValue(n) then ConsChar(n as char, Utf8Decode(bs[3..])) else None
    else if 0xF0 <= bs[0] < 0xF5 && |bs| >= 4
            && IsContinuation(bs[1]) && IsContinuation(bs[2]) && IsContinuation(bs[3]) then
      var n := (bs[0] as int - 0xF0) * 262144 + (bs[1] as int - 0x80) * 4096 + (bs[2] as int - 0x80) * 64 + (bs[3] as int - 0x80);
      if 0x10000 <= n < 0x110000 then ConsChar(n as char, Utf8Decode(bs[4..])) else None
    else None
  }

  lemma SixBitGroups(n: nat)
    ensures n / 4096 == (n / 64) / 64
    ensures n / 262144 == (n / 4096) / 64
  {
  }

  /** Decoding the bytes of one character gives that character back, and
      leaves what follows to be decoded on its own. */
  lemma Utf8DecodeChar(c: char, rest: seq<Byte>)
    ensures Utf8Decode(Utf8Char(c) + rest) == ConsChar(c, Utf8Decode(rest))
  {
    var n := c as int;
    var bs := Utf8Char(c) + rest;
    SixBitGroups(n);
    if n < 0x80 {
      assert bs[1..] == rest;
    } else if n < 0x800 {
      assert bs[2..] == rest;
      assert (bs[0] as int - 0xC0) * 64 + (bs[1] as int - 0x80) == n;
    } else if n < 0x10000 {
      assert bs[3..] == rest;
      assert (bs[0] as int - 0xE0) * 4096 + (bs[1] as int - 0x80) * 64 + (bs[2] as int - 0x80) == n;
    } else {
      assert bs[4..] == rest;
      assert (bs[0] as int - 0xF0) * 262144 + (bs[1] as int - 0x80) * 4096 + (bs[2] as int - 0x80) * 64 + (bs[3] as int - 0x80) == n;
    }
  }

  lemma {:induction false} Utf8RoundTrip(s: string)
    ensures Utf8Decode(Utf8Encode(s)) == Some(s)
  {
    if s != [] {
      Utf8DecodeChar(s[0], Utf8Encode(s[1..]));
      Utf8RoundTrip(s[1..]);
      assert [s[0]] + s[1..] == s;
    }
  }

  // ---------------------------------------------------------------------
  // Percent-encoding (URLEncoder.encode(value, "UTF-8"))
  // ---------------------------------------------------------------------

  /** Characters URLEncoder leaves unchanged. Note that '~' is not one of them. */
  predicate IsUnreserved(c: char)
  {
    'a' <= c <= 'z' || 'A' <= c <= 'Z' || '0' <= c <= '9' || c == '.' || c == '-' || c == '*' || c == '_'
  }

  /** Upper-case hex digit, as URLEncoder writes it. */
  function HexDigit(d: int): (c: char)
    requires 0 <= d < 16
    ensures IsUnreserved(c)
  {
    if d < 10 then (48 + d) as char else (55 + d) as char
  }

  function HexValue(c: char): (r: Option<int>)
    ensures r.Some? ==> 0 <= r.value < 16
  {
    if '0' <= c <= '9' then Some(c as int - 48)
    else if 'A' <= c <= 'F' then Some(c as int - 55)
    else if 'a' <= c <= 'f' then Some(c as int - 87)
    else None
  }

  function PercentBytes(bs: seq<Byte>): (r: string)
  {
    if bs == [] then [] else ['%', HexDigit(bs[0] / 16), HexDigit(bs[0] % 16)] + PercentBytes(bs[1..])
  }

  function EncodeChar(c: char): (r: string)
  {
    if IsUnreserved(c) then [c]
    else if c == ' ' then "+"
    else PercentBytes(Utf8Char(c))
  }

  /** URLEncoder.encode(s, "UTF-8"). */
  function UrlEncode(s: string): (r: string)
  {
    if s == [] then [] else EncodeChar(s[0]) + UrlEncode(s[1..])
  }

  /** Every character an encoded value can contain. */
  predicate IsFormSafe(c: char)
  {
    IsUnreserved(c) || c == '+' || c == '%'
  }

  lemma {:induction false} PercentBytesSafe(bs: seq<Byte>)
    ensures forall c :: c in PercentBytes(bs) ==> IsFormSafe(c)
  {
    if bs != [] {
      PercentBytesSafe(bs[1..]);
    }
  }

  /** An encoded value never contains '&', '=' or a space, so it cannot be
      mistaken for a pair separator, a key/value separator or a break. */
  lemma UrlEncodeNoSeparators(s: string)
    ensures '&' !in UrlEncode(s) && '=' !in UrlEncode(s) && ' ' !in UrlEncode(s)
  {
    UrlEncodeSafe(s);
  }

  /** Every character of an encoded value is unreserved, '+' or '%'. */
  lemma {:induction false} UrlEncodeSafe(s: string)
    ensures forall c :: c in UrlEncode(s) ==> IsFormSafe(c)
  {
    if s != [] {
      UrlEncodeSafe(s[1..]);
      if !IsUnreserved(s[0]) && s[0] != ' ' {
        PercentBytesSafe(Utf8Char(s[0]));
      }
    }
  }

  /** A value made only of unreserved characters is sent as it is. */
  lemma {:induction false} UrlEncodeUnreserved(s: string)
    requires forall c :: c in s ==> IsUnreserved(c)
    ensures UrlEncode(s) == s
  {
    if s != [] {
      assert forall c :: c in s[1..] ==> c in s;
      UrlEncodeUnreserved(s[1..]);
      assert [s[0]] + s[1..] == s;
    }
  }

  // ---------------------------------------------------------------------
  // Decoding, the inverse of UrlEncode
  // ---------------------------------------------------------------------

  function PrependBytes(bs: seq<Byte>, rest: Option<seq<Byte>>): (r: Option<seq<Byte>>)
  {
    if rest.Some? then Some(bs + rest.value) else None
  }

  /** '+' is a space, "%XX" one byte (either case of hex digit), any other
      character its own UTF-8 bytes; a '%' not followed by two hex digits is
      malformed. */
  function PercentDecode(s: string): (r: Option<seq<Byte>>)
    decreases |s|
  {
    if s == [] then Some([])
    else if s[0] == '+' then PrependBytes([0x20], PercentDecode(s[1..]))
    else if s[0] == '%' then
      if |s| >= 3 && HexValue(s[1]).Some? && HexValue(s[2]).Some? then
        PrependBytes([HexValue(s[1]).value * 16 + HexValue(s[2]).value], PercentDecode(s[3..]))
      else None
    else PrependBytes(Utf8Char(s[0]), PercentDecode(s[1..]))
  }

  /** Form-decoding of one key or value. */
  function FormDecode(s: string): (r: Option<string>)
  {
    var bytes := PercentDecode(s);
    if bytes.Some? then Utf8Decode(bytes.value) else None
  }

  lemma {:induction false} PercentDecodeBytes(bs: seq<Byte>, rest: string)
    ensures PercentDecode(PercentBytes(bs) + rest) == PrependBytes(bs, PercentDecode(rest))
  {
    if bs != [] {
      var b := bs[0];
      var t := PercentBytes(bs) + rest;
      var hi, lo := HexDigit(b / 16), HexDigit(b % 16);
      assert t == ['%', hi, lo] + (PercentBytes(bs[1..]) + rest);
      assert t[3..] == PercentBytes(bs[1..]) + rest;
      assert t[0] == '%' && t[1] == hi && t[2] == lo;
      assert HexValue(hi) == Some(b / 16) && HexValue(lo) == Some(b % 16);
      assert (b / 16) * 16 + b % 16 == b;
      PercentDecodeBytes(bs[1..], rest);
      assert [b] + bs[1..] == bs;
      var tail := PercentDecode(rest);
      if tail.Some? {
        assert [b] + (bs[1..] + tail.value) == bs + tail.value;
      }
      assert PercentDecode(t) == PrependBytes([b], PercentDecode(t[3..]));
    } else {
      assert PercentBytes(bs) + rest == rest;
      var tail := PercentDecode(rest);
      if tail.Some? {
        assert bs + tail.value == tail.value;
      }
    }
  }

  lemma PercentDecodeChar(c: char, rest: string)
    ensures PercentDecode(EncodeChar(c) + rest) == PrependBytes(Utf8Char(c), PercentDecode(rest))
  {
    var t := EncodeChar(c) + rest;
    if IsUnreserved(c) || c == ' ' {
      assert t[1..] == rest;
    } else {
      PercentDecodeBytes(Utf8Char(c), rest);
    }
  }

  lemma {:induction false} PercentDecodeEncode(s: string)
    ensures PercentDecode(UrlEncode(s)) == Some(Utf8Encode(s))
  {
    if s != [] {
      PercentDecodeChar(s[0], UrlEncode(s[1..]));
      PercentDecodeEncode(s[1..]);
    }
  }

  /** Decoding an encoded value gives the original value back. */
  lemma FormRoundTrip(s: string)
    ensures FormDecode(UrlEncode(s)) == Some(s)
  {
    PercentDecodeEncode(s);
    Utf8RoundTrip(s);
  }

  // ---------------------------------------------------------------------
  // Splitting a form body into key/value pairs
  // ---------------------------------------------------------------------

  /** Index of the first sep in s, or |s| when there is none. */
  function FirstIndex(s: string, sep: char): (i: nat)
    ensures i <= |s|
    ensures i < |s| ==> s[i] == sep
    ensures forall j :: 0 <= j < i ==> s[j] != sep
    decreases |s|
  {
    if s == [] then 0 else if s[0] == sep then 0 else 1 + FirstIndex(s[1..], sep)
  }

  function SplitOn(s: string, sep: char): (parts: seq<string>)
    ensures |parts| > 0
    decreases |s|
  {
    var i := FirstIndex(s, sep);
    if i == |s| then [s] else [s[..i]] + SplitOn(s[i + 1..], sep)
  }

  lemma FirstIndexAfter(a: string, sep: char, b: string)
    requires sep !in a
    ensures FirstIndex(a + [sep] + b, sep) == |a|
  {
    var s := a + [sep] + b;
    assert s[|a|] == sep;
  }

  lemma SplitOnSingle(a: string, sep: char)
    requires sep !in a
    ensures SplitOn(a, sep) == [a]
  {
  }

  lemma SplitOnCons(a: string, sep: char, b: string)
    requires sep !in a
    ensures SplitOn(a + [sep] + b, sep) == [a] + SplitOn(b, sep)
  {
    var s := a + [sep] + b;
    FirstIndexAfter(a, sep, b);
    assert s[..|a|] == a;
    assert s[|a| + 1..] == b;
  }

  /** Parts joined by sep, the inverse of SplitOn for parts without sep. */
  function JoinOn(parts: seq<string>, sep: char): (s: string)
    requires |parts| > 0
  {
    if |parts| == 1 then parts[0] else parts[0] + [sep] + JoinOn(parts[1..], sep)
  }

  /** Splitting parts that hold no separator, once joined, gives them back. */
  lemma {:induction false} SplitJoin(parts: seq<string>, sep: char)
    requires |parts| > 0
    requires forall i :: 0 <= i < |parts| ==> sep !in parts[i]
    ensures SplitOn(JoinOn(parts, sep), sep) == parts
  {
    if |parts| == 1 {
      SplitOnSingle(parts[0], sep);
    } else {
      SplitJoin(parts[1..], sep);
      SplitOnCons(parts[0], sep, JoinOn(parts[1..], sep));
    }
  }

  /** Each piece parsing to its field makes the whole list parse to the fields. */
  lemma {:induction false} ParsePairsEach(ps: seq<string>, fields: seq<(string, string)>)
    requires |ps| == |fields|
    requires forall i :: 0 <= i < |ps| ==> ParsePair(ps[i]) == Some(fields[i])
    ensures ParsePairs(ps) == Some(fields)
  {
    if ps != [] {
      ParsePairsEach(ps[1..], fields[1..]);
      assert [fields[0]] + fields[1..] == fields;
    }
  }

  /** One "key=value" pair, split on its first '='; both halves are decoded. */
  function ParsePair(p: string): (r: Option<(string, string)>)
  {
    var i := FirstIndex(p, '=');
    if i == |p| then None
    else
      var key := FormDecode(p[..i]);
      var value := FormDecode(p[i + 1..]);
      if key.Some? && value.Some? then Some((key.value, value.value)) else None
  }

  function ParsePairs(ps: seq<string>): (r: Option<seq<(string, string)>>)
  {
    if ps == [] then Some([])
    else
      var head := ParsePair(ps[0]);
      var tail := ParsePairs(ps[1..]);
      if head.Some? && tail.Some? then Some([head.value] + tail.value) else None
  }

  /** A whole form body: pairs separated by '&'. */
  function ParseForm(body: string): (r: Option<seq<(string, string)>>)
  {
    ParsePairs(SplitOn(body, '&'))
  }

  /** A pair written as key '=' encoded value, with a key of unreserved
      characters, parses back to the key and the original value. */
  lemma PairRoundTrip(key: string, value: string)
    requires forall c :: c in key ==> IsUnreserved(c)
    ensures ParsePair(key + "=" + UrlEncode(value)) == Some((key, value))
  {
    var p := key + "=" + UrlEncode(value);
    assert p == key + ['='] + UrlEncode(value);
    assert '=' !in key;
    FirstIndexAfter(key, '=', UrlEncode(value));
    assert p[..|key|] == key;
    assert p[|key| + 1..] == UrlEncode(value);
    UrlEncodeUnreserved(key);
    FormRoundTrip(key);
    FormRoundTrip(value);
  }

  /** A pair whose key and value are both unreserved characters parses as written. */
  lemma PlainPairParses(p: string, key: string, value: string)
    requires p == key + "=" + value
    requires forall c :: c in key ==> IsUnreserved(c)
    requires forall c :: c in value ==> IsUnreserved(c)
    ensures ParsePair(p) == Some((key, value))
  {
    UrlEncodeUnreserved(value);
    PairRoundTrip(key, value);
  }
}
