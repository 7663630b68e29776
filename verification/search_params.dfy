/**
 * `new URLSearchParams(location.search).get(name)`: the application/x-www-form-urlencoded
 * parser of the WHATWG URL Standard. The query (without a leading `?`) is split on `&`, empty
 * pieces are dropped, each piece is split at its first `=`, `+` becomes a space, and each side is
 * percent-decoded leniently (a `%` not followed by two hexadecimal digits stays as it is) into
 * bytes that are then read as UTF-8, ill-formed parts becoming U+FFFD.
 *
 * The standard works on the UTF-8 bytes of the query; `&`, `=` and `+` are ASCII and never occur
 * inside the encoding of another character, so splitting the string first is equivalent.
 */
module SearchParams {
  import opened Wrappers
  import opened Hex
  import Utf8
  import UriComponent
  import Seqs

  /** The first position of `c` in `s`, or `|s|` when there is none. */
  function IndexOf(s: string, c: char): (i: nat)
    ensures i <= |s|
    ensures i < |s| ==> s[i] == c
    ensures forall j | 0 <= j < i :: s[j] != c
  {
    if |s| == 0 then 0
    else if s[0] == c then 0
    else 1 + IndexOf(s[1..], c)
  }

  /** The pieces of `s` between occurrences of `sep`, empty pieces included. */
  function Split(s: string, sep: char): (r: seq<string>)
    ensures |r| >= 1
    ensures sep !in s ==> r == [s]
    decreases |s|
  {
    var i := IndexOf(s, sep);
    if i == |s| then [s] else [s[..i]] + Split(s[i + 1..], sep)
  }

  function ReplacePlus(s: string): (r: string)
    ensures |r| == |s|
    ensures forall i | 0 <= i < |s| :: r[i] == if s[i] == '+' then ' ' else s[i]
  {
    if |s| == 0 then [] else [if s[0] == '+' then ' ' else s[0]] + ReplacePlus(s[1..])
  }

  predicate IsHexByte(b: Utf8.byte) {
    IsHexDigit(b as char)
  }

  /** Percent-decoding of bytes: every `%XX` becomes its byte, every other byte is kept. */
  function PercentDecodeBytes(bs: seq<Utf8.byte>): (r: seq<Utf8.byte>)
    ensures |r| <= |bs|
  {
    if |bs| >= 3 && bs[0] == '%' as int && IsHexByte(bs[1]) && IsHexByte(bs[2]) then
      [DigitValue(bs[1] as char) * 16 + DigitValue(bs[2] as char)] + PercentDecodeBytes(bs[3..])
    else if |bs| == 0 then []
    else [bs[0]] + PercentDecodeBytes(bs[1..])
  }

  /** One name or value: `+` to space, percent-decoding, UTF-8 decoding with replacement. */
  function DecodeComponent(s: string): string {
    Utf8.DecodeLossy(PercentDecodeBytes(Utf8.EncodeString(ReplacePlus(s))))
  }

  /** The name and value of one non-empty piece, split at its first `=`. */
  function ParsePiece(piece: string): (string, string) {
    var i := IndexOf(piece, '=');
    if i == |piece| then (DecodeComponent(piece), "")
    else (DecodeComponent(piece[..i]), DecodeComponent(piece[i + 1..]))
  }

  function ParsePieces(pieces: seq<string>): (r: seq<(string, string)>)
    ensures |r| <= |pieces|
  {
    if |pieces| == 0 then []
    else if pieces[0] == "" then ParsePieces(pieces[1..])
    else [ParsePiece(pieces[0])] + ParsePieces(pieces[1..])
  }

  /** `new URLSearchParams(search)`: the list of name-value pairs in order. */
  function Parse(search: string): (r: seq<(string, string)>)
    ensures search == "" || search == "?" ==> r == []
    ensures '&' !in search ==> |r| <= 1
  {
    var query := if |search| > 0 && search[0] == '?' then search[1..] else search;
    ParsePieces(Split(query, '&'))
  }

  /**
   * `params.get(name)`: the value of the first pair with that name, `None` for `null`; a later
   * pair with the same name is never consulted.
   */
  function Get(pairs: seq<(string, string)>, name: string): (r: Option<string>)
    ensures r.Some? <==> exists i | 0 <= i < |pairs| :: pairs[i].0 == name
    ensures r.Some? ==> exists i | 0 <= i < |pairs| ::
      pairs[i] == (name, r.value) && forall j | 0 <= j < i :: pairs[j].0 != name
  {
    if |pairs| == 0 then None
    else if pairs[0].0 == name then Some(pairs[0].1)
    else
      var r := Get(pairs[1..], name);
      assert (exists i | 0 <= i < |pairs| :: pairs[i].0 == name) <==>
             exists i | 0 <= i < |pairs[1..]| :: pairs[1..][i].0 == name by {
        if exists i | 0 <= i < |pairs| :: pairs[i].0 == name {
          var i :| 0 <= i < |pairs| && pairs[i].0 == name;
          assert pairs[1..][i - 1] == pairs[i];
        }
      }
      assert r.Some? ==> exists i | 0 <= i < |pairs| ::
        pairs[i] == (name, r.value) && forall j | 0 <= j < i :: pairs[j].0 != name by {
        if r.Some? {
          var i :| 0 <= i < |pairs[1..]| && pairs[1..][i] == (name, r.value)
            && forall j | 0 <= j < i :: pairs[1..][j].0 != name;
          assert pairs[i + 1] == pairs[1..][i];
          forall j | 0 <= j < i + 1
            ensures pairs[j].0 != name
          {
            if j > 0 {
              assert pairs[j] == pairs[1..][j - 1];
            }
          }
        }
      }
      r
  }

  lemma {:induction false} EncodeStringAppend(a: string, b: string)
    ensures Utf8.EncodeString(a + b) == Utf8.EncodeString(a) + Utf8.EncodeString(b)
  {
    if |a| == 0 {
      assert a + b == b;
    } else {
      assert (a + b)[0] == a[0];
      assert (a + b)[1..] == a[1..] + b;
      EncodeStringAppend(a[1..], b);
    }
  }

  lemma PercentDecodeEscapedByte(b: Utf8.byte, tail: seq<Utf8.byte>)
    ensures PercentDecodeBytes(Utf8.EncodeString(UriComponent.EscapeByte(b)) + tail) == [b] + PercentDecodeBytes(tail)
  {
    var t := UriComponent.EscapeByte(b);
    var et := Utf8.EncodeString(t);
    Utf8.EncodeAscii(t);
    assert (et + tail)[3..] == tail;
    assert et[1] as char == t[1] && et[2] as char == t[2];
  }

  lemma EncodeEscapesFirst(bs: seq<Utf8.byte>, rest: seq<Utf8.byte>)
    requires |bs| > 0
    ensures Utf8.EncodeString(UriComponent.EscapeBytes(bs)) + rest
         == Utf8.EncodeString(UriComponent.EscapeByte(bs[0]))
          + (Utf8.EncodeString(UriComponent.EscapeBytes(bs[1..])) + rest)
  {
    UriComponent.EscapeBytesFirst(bs);
    EncodeStringAppend(UriComponent.EscapeByte(bs[0]), UriComponent.EscapeBytes(bs[1..]));
    Seqs.AppendAssoc(Utf8.EncodeString(UriComponent.EscapeByte(bs[0])),
                     Utf8.EncodeString(UriComponent.EscapeBytes(bs[1..])), rest);
  }

  lemma {:induction false} PercentDecodeEscapes(bs: seq<Utf8.byte>, rest: seq<Utf8.byte>)
    ensures PercentDecodeBytes(Utf8.EncodeString(UriComponent.EscapeBytes(bs)) + rest) == bs + PercentDecodeBytes(rest)
  {
    if |bs| == 0 {
      assert Utf8.EncodeString(UriComponent.EscapeBytes(bs)) + rest == rest;
    } else {
      EncodeEscapesFirst(bs, rest);
      PercentDecodeEscapedByte(bs[0], Utf8.EncodeString(UriComponent.EscapeBytes(bs[1..])) + rest);
      PercentDecodeEscapes(bs[1..], rest);
      Seqs.AppendAssoc([bs[0]], bs[1..], PercentDecodeBytes(rest));
      assert [bs[0]] + bs[1..] == bs;
    }
  }

  /** Percent-decoding the ASCII bytes of `encodeURIComponent(s)` gives the UTF-8 bytes of `s`. */
  lemma {:induction false} PercentDecodeEncoded(s: string)
    ensures PercentDecodeBytes(Utf8.EncodeString(UriComponent.Encode(s))) == Utf8.EncodeString(s)
  {
    if |s| > 0 {
      var head := UriComponent.EncodeChar(s[0]);
      var tail := UriComponent.Encode(s[1..]);
      EncodeStringAppend(head, tail);
      PercentDecodeEncoded(s[1..]);
      if UriComponent.Unreserved(s[0]) {
        assert Utf8.EncodeString(head) == [s[0] as int];
      } else {
        PercentDecodeEscapes(Utf8.Encode(s[0]), Utf8.EncodeString(tail));
      }
    }
  }

  /** Text `encodeURIComponent` produced has no `+` to turn into a space. */
  lemma ReplacePlusEncoded(s: string)
    ensures ReplacePlus(UriComponent.Encode(s)) == UriComponent.Encode(s)
  {}

  /** The urlencoded parser reads `encodeURIComponent(s)` back as `s`. */
  lemma DecodeComponentEncoded(s: string)
    ensures DecodeComponent(UriComponent.Encode(s)) == s
  {
    ReplacePlusEncoded(s);
    PercentDecodeEncoded(s);
    Utf8.DecodeLossyEncodeString(s);
  }

  /** A query of one piece without `&` parses to that piece's pair alone. */
  lemma ParseOnePiece(query: string)
    requires |query| > 0 && '&' !in query
    ensures Parse("?" + query) == [ParsePiece(query)]
  {
    assert ("?" + query)[1..] == query;
  }

  /** A query `?name=<encodeURIComponent(value)>` yields `value` for `name`, if `name` is unreserved. */
  lemma GetSingleParam(name: string, value: string)
    requires |name| > 0 && forall i | 0 <= i < |name| :: UriComponent.Unreserved(name[i])
    ensures Get(Parse("?" + name + "=" + UriComponent.Encode(value)), name) == Some(value)
  {
    var e := UriComponent.Encode(value);
    var query := name + "=" + e;
    assert "?" + name + "=" + e == "?" + query;
    SplitPair(name, e);
    ParseOnePiece(query);
    DecodeComponentEncoded(name);
    DecodeComponentEncoded(value);
  }

  lemma SplitPair(name: string, e: string)
    requires forall i | 0 <= i < |name| :: UriComponent.Unreserved(name[i])
    requires forall i | 0 <= i < |e| :: UriComponent.Unreserved(e[i]) || e[i] == '%'
    ensures var query := name + "=" + e;
      && '&' !in query
      && IndexOf(query, '=') == |name|
      && query[..|name|] == UriComponent.Encode(name)
      && query[|name| + 1..] == e
  {
    NoAmpersand(name, e);
    assert '=' !in name;
    IndexOfSeparator(name, '=', e);
    PairPieces(name, e);
    UriComponent.EncodeUnchanged(name);
  }

  lemma PairPieces(name: string, e: string)
    ensures (name + "=" + e)[..|name|] == name && (name + "=" + e)[|name| + 1..] == e
  {}

  lemma NoAmpersand(name: string, e: string)
    requires forall i | 0 <= i < |name| :: UriComponent.Unreserved(name[i])
    requires forall i | 0 <= i < |e| :: UriComponent.Unreserved(e[i]) || e[i] == '%'
    ensures '&' !in name + "=" + e
  {
    var query := name + "=" + e;
    forall j | 0 <= j < |query|
      ensures query[j] != '&'
    {
      if j < |name| {
        assert query[j] == name[j];
      } else if j > |name| {
        assert query[j] == e[j - |name| - 1];
      }
    }
  }

  lemma {:induction false} IndexOfSeparator(a: string, c: char, b: string)
    requires c !in a
    ensures IndexOf(a + [c] + b, c) == |a|
  {
    if |a| > 0 {
      assert (a + [c] + b)[1..] == a[1..] + [c] + b;
      IndexOfSeparator(a[1..], c, b);
    }
  }
}
