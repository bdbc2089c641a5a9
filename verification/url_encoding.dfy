/** Python's `urllib.parse.urlencode` with its default `quote_plus`, as the
    OAuth URL and the repository-listing query use it, and a strict decoder
    that reads the result back into bytes. */
module UrlEncoding {
  import opened Outcomes
  import opened Text

  type Byte = b: int | 0 <= b < 256

  /** The UTF-8 bytes of one Unicode scalar value. */
  function Utf8(c: char): (bs: seq<Byte>)
    ensures 1 <= |bs| <= 4
  {
    var cp := c as int;
    if cp < 0x80 then [cp]
    else if cp < 0x800 then [0xC0 + cp / 64, 0x80 + cp % 64]
    else if cp < 0x10000 then [0xE0 + cp / 4096, 0x80 + (cp / 64) % 64, 0x80 + cp % 64]
    else [0xF0 + cp / 262144, 0x80 + (cp / 4096) % 64, 0x80 + (cp / 64) % 64, 0x80 + cp % 64]
  }

  function Utf8String(s: string): seq<Byte>
    decreases |s|
  {
    if |s| == 0 then [] else Utf8(s[0]) + Utf8String(s[1..])
  }

  /** Characters `quote_plus` never escapes: ASCII letters, digits and `_.-~`. */
  predicate Unreserved(c: char)
  {
    ('A' <= c <= 'Z') || ('a' <= c <= 'z') || ('0' <= c <= '9') || c == '_' || c == '.' || c == '-' || c == '~'
  }

  /** What an encoded string is made of. */
  predicate EncodedChar(c: char)
  {
    Unreserved(c) || c == '+' || c == '%'
  }

  function HexDigit(d: int): (c: char)
    requires 0 <= d < 16
    ensures Unreserved(c)
  {
    if d < 10 then ('0' as int + d) as char else ('A' as int + d - 10) as char
  }

  predicate IsHex(c: char)
  {
    ('0' <= c <= '9') || ('A' <= c <= 'F')
  }

  function HexValue(c: char): (d: int)
    requires IsHex(c)
    ensures 0 <= d < 16
  {
    if c <= '9' then c as int - '0' as int else c as int - 'A' as int + 10
  }

  lemma HexRoundTrip(d: int)
    requires 0 <= d < 16
    ensures IsHex(HexDigit(d)) && HexValue(HexDigit(d)) == d
  {
  }

  /** `%XX` for every byte, upper-case hexadecimal. */
  function PercentBytes(bs: seq<Byte>): (r: string)
    ensures forall i :: 0 <= i < |r| ==> EncodedChar(r[i])
    decreases |bs|
  {
    if |bs| == 0 then ""
    else
      var rest := PercentBytes(bs[1..]);
      var r := ['%', HexDigit(bs[0] / 16), HexDigit(bs[0] % 16)] + rest;
      assert forall i :: 3 <= i < |r| ==> r[i] == rest[i - 3];
      r
  }

  /** `quote_plus` on one character: kept when unreserved, `+` for a space,
      otherwise its UTF-8 bytes percent-escaped. */
  function QuoteChar(c: char): (r: string)
    ensures forall i :: 0 <= i < |r| ==> EncodedChar(r[i])
  {
    if Unreserved(c) then [c]
    else if c == ' ' then "+"
    else PercentBytes(Utf8(c))
  }

  /** `quote_plus(s)`: the output uses only unreserved characters, `+` and `%`,
      so never `&`, `=`, `?` or `#`. */
  function QuotePlus(s: string): (r: string)
    ensures forall i :: 0 <= i < |r| ==> EncodedChar(r[i])
    decreases |s|
  {
    if |s| == 0 then ""
    else
      var head, rest := QuoteChar(s[0]), QuotePlus(s[1..]);
      var r := head + rest;
      assert forall i :: |head| <= i < |r| ==> r[i] == rest[i - |head|];
      r
  }

  lemma EncodedLacks(s: string, c: char)
    requires !EncodedChar(c)
    ensures c !in QuotePlus(s)
  {
    var r := QuotePlus(s);
    assert forall i :: 0 <= i < |r| ==> r[i] != c;
  }

  function Prepend(bs: seq<Byte>, o: Option<seq<Byte>>): Option<seq<Byte>>
  {
    if o.Some? then Some(bs + o.value) else None
  }

  /** Reads an encoded string back to bytes: `%XX` is one byte, `+` a space,
      any other character its UTF-8 bytes. A `%` not followed by two
      upper-case hex digits is refused. */
  function PercentDecode(s: string): Option<seq<Byte>>
    decreases |s|
  {
    if |s| == 0 then Some([])
    else if s[0] == '%' then
      if |s| >= 3 && IsHex(s[1]) && IsHex(s[2]) then
        Prepend([16 * HexValue(s[1]) + HexValue(s[2])], PercentDecode(s[3..]))
      else None
    else if s[0] == '+' then Prepend([0x20], PercentDecode(s[1..]))
    else Prepend(Utf8(s[0]), PercentDecode(s[1..]))
  }

  lemma {:induction false} DecodePercentBytes(bs: seq<Byte>, rest: string)
    ensures PercentDecode(PercentBytes(bs) + rest) == Prepend(bs, PercentDecode(rest))
    decreases |bs|
  {
    if |bs| > 0 {
      var b := bs[0];
      var tail := PercentBytes(bs[1..]) + rest;
      assert PercentBytes(bs) + rest == ['%', HexDigit(b / 16), HexDigit(b % 16)] + tail;
      DecodeEscape(b, tail);
      DecodePercentBytes(bs[1..], rest);
      PrependTwice([b], bs[1..], PercentDecode(rest));
      assert [b] + bs[1..] == bs;
    } else {
      assert PercentBytes(bs) + rest == rest;
      if PercentDecode(rest).Some? {
        assert bs + PercentDecode(rest).value == PercentDecode(rest).value;
      }
    }
  }

  /** A single `%XX` escape decodes to its byte. */
  lemma DecodeEscape(b: Byte, tail: string)
    ensures PercentDecode(['%', HexDigit(b / 16), HexDigit(b % 16)] + tail) == Prepend([b], PercentDecode(tail))
  {
    var s := ['%', HexDigit(b / 16), HexDigit(b % 16)] + tail;
    HexRoundTrip(b / 16);
    HexRoundTrip(b % 16);
    assert s[0] == '%' && s[1] == HexDigit(b / 16) && s[2] == HexDigit(b % 16);
    assert s[3..] == tail;
  }

  /** Prepending in two steps is prepending the concatenation. */
  lemma PrependTwice(a: seq<Byte>, b: seq<Byte>, o: Option<seq<Byte>>)
    ensures Prepend(a, Prepend(b, o)) == Prepend(a + b, o)
  {
    if o.Some? {
      assert a + (b + o.value) == (a + b) + o.value;
    }
  }

  lemma DecodeQuoteChar(c: char, rest: string)
    ensures PercentDecode(QuoteChar(c) + rest) == Prepend(Utf8(c), PercentDecode(rest))
  {
    if Unreserved(c) {
      assert ([c] + rest)[1..] == rest;
    } else if c == ' ' {
      assert ("+" + rest)[1..] == rest;
    } else {
      DecodePercentBytes(Utf8(c), rest);
    }
  }

  /** Decoding what `quote_plus` wrote gives back the UTF-8 bytes of the input. */
  lemma {:induction false} QuotePlusRoundTrip(s: string)
    ensures PercentDecode(QuotePlus(s)) == Some(Utf8String(s))
    decreases |s|
  {
    if |s| > 0 {
      QuotePlusRoundTrip(s[1..]);
      DecodeQuoteChar(s[0], QuotePlus(s[1..]));
    }
  }

  /** One `key=value` field of an encoded query. */
  function EncodePair(p: (string, string)): string
  {
    QuotePlus(p.0) + "=" + QuotePlus(p.1)
  }

  function EncodeFields(params: seq<(string, string)>): (r: seq<string>)
    ensures |r| == |params|
    ensures forall i :: 0 <= i < |r| ==> r[i] == EncodePair(params[i])
    decreases |params|
  {
    if |params| == 0 then [] else [EncodePair(params[0])] + EncodeFields(params[1..])
  }

  /** `urlencode(params)`: the fields in order, joined by `&`. No field holds
      an `&` of its own, so cutting the query at each `&` gives them back. */
  function UrlEncode(params: seq<(string, string)>): (r: string)
    ensures |params| == 0 ==> r == ""
    ensures |params| >= 1 ==> Split(r, '&') == EncodeFields(params)
  {
    var fields := EncodeFields(params);
    assert forall i :: 0 <= i < |fields| ==> '&' !in fields[i] by {
      forall i | 0 <= i < |fields|
        ensures '&' !in fields[i]
      {
        DecodeEncodedPair(params[i]);
      }
    }
    if |params| >= 1 then
      SplitJoin(fields, '&');
      Join(fields, '&')
    else Join(fields, '&')
  }

  function DecodePair(field: string): Option<(seq<Byte>, seq<Byte>)>
  {
    var kv := Split(field, '=');
    if |kv| != 2 then None
    else
      match (PercentDecode(kv[0]), PercentDecode(kv[1]))
      case (Some(k), Some(v)) => Some((k, v))
      case _ => None
  }

  function DecodeFields(fields: seq<string>): Option<seq<(seq<Byte>, seq<Byte>)>>
    decreases |fields|
  {
    if |fields| == 0 then Some([])
    else
      match (DecodePair(fields[0]), DecodeFields(fields[1..]))
      case (Some(p), Some(ps)) => Some([p] + ps)
      case _ => None
  }

  /** Reads a query string back into its decoded fields. */
  function ParseQuery(q: string): Option<seq<(seq<Byte>, seq<Byte>)>>
  {
    DecodeFields(Split(q, '&'))
  }

  /** The bytes each parameter should arrive as. */
  function Utf8Params(params: seq<(string, string)>): (r: seq<(seq<Byte>, seq<Byte>)>)
    ensures |r| == |params|
    ensures forall i :: 0 <= i < |params| ==> r[i] == (Utf8String(params[i].0), Utf8String(params[i].1))
    decreases |params|
  {
    if |params| == 0 then []
    else [(Utf8String(params[0].0), Utf8String(params[0].1))] + Utf8Params(params[1..])
  }

  lemma DecodeEncodedPair(p: (string, string))
    ensures '&' !in EncodePair(p)
    ensures DecodePair(EncodePair(p)) == Some((Utf8String(p.0), Utf8String(p.1)))
  {
    EncodedLacks(p.0, '&');
    EncodedLacks(p.1, '&');
    EncodedLacks(p.0, '=');
    EncodedLacks(p.1, '=');
    SplitAfterFree(QuotePlus(p.0), '=', QuotePlus(p.1));
    QuotePlusRoundTrip(p.0);
    QuotePlusRoundTrip(p.1);
  }

  lemma {:induction false} DecodeEncodedFields(params: seq<(string, string)>)
    ensures DecodeFields(EncodeFields(params)) == Some(Utf8Params(params))
    decreases |params|
  {
    if |params| > 0 {
      var fields := EncodeFields(params);
      DecodeEncodedPair(params[0]);
      DecodeEncodedFields(params[1..]);
      assert fields[1..] == EncodeFields(params[1..]);
    }
  }

  /** A non-empty parameter list survives `urlencode` and parsing: the same
      keys and values, in order, as UTF-8 bytes. */
  lemma UrlEncodeRoundTrip(params: seq<(string, string)>)
    requires |params| >= 1
    ensures ParseQuery(UrlEncode(params)) == Some(Utf8Params(params))
  {
    DecodeEncodedFields(params);
  }

  /** The encoded query has no `?` or `#`, so it cannot end the query part of a URL early. */
  lemma UrlEncodeStaysInQuery(params: seq<(string, string)>)
    ensures '?' !in UrlEncode(params) && '#' !in UrlEncode(params)
  {
    var fields := EncodeFields(params);
    forall i | 0 <= i < |fields|
      ensures '?' !in fields[i] && '#' !in fields[i]
    {
      EncodedLacks(params[i].0, '?');
      EncodedLacks(params[i].1, '?');
      EncodedLacks(params[i].0, '#');
      EncodedLacks(params[i].1, '#');
    }
    JoinLacks(fields, '&', '?');
    JoinLacks(fields, '&', '#');
  }

  lemma {:induction false} JoinLacks(parts: seq<string>, sep: char, c: char)
    requires c != sep
    requires forall i :: 0 <= i < |parts| ==> c !in parts[i]
    ensures c !in Join(parts, sep)
    decreases |parts|
  {
    if |parts| > 1 {
      JoinLacks(parts[1..], sep, c);
    }
  }
}
