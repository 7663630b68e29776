/**
 * `encodeURIComponent` and `decodeURIComponent` (ECMA-262 section 19.2.6, URI Handling
 * Functions): percent-encoding per section 2.1 of RFC 3986 of the UTF-8 bytes of every character
 * outside the unreserved set, and its strict inverse, which decodes every escape (its reserved
 * set is empty) and fails on a malformed one.
 */
module UriComponent {
  import opened Wrappers
  import opened Hex
  import Utf8
  import Seqs

  /** The characters `encodeURIComponent` copies unescaped: ASCII letters, digits and `-_.!~*'()`. */
  predicate Unreserved(c: char) {
    || ('A' <= c <= 'Z') || ('a' <= c <= 'z') || ('0' <= c <= '9')
    || c == '-' || c == '_' || c == '.' || c == '!' || c == '~' || c == '*' || c == '\'' || c == '(' || c == ')'
  }

  /** `%XX` with upper-case hexadecimal digits. */
  function EscapeByte(b: Utf8.byte): (t: string)
    ensures |t| == 3 && t[0] == '%' && IsHexDigit(t[1]) && IsHexDigit(t[2])
    ensures DigitValue(t[1]) * 16 + DigitValue(t[2]) == b
    ensures Unreserved(t[1]) && Unreserved(t[2])
  {
    ['%', UpperDigit(b / 16), UpperDigit(b % 16)]
  }

  function EscapeBytes(bs: seq<Utf8.byte>): (t: string)
    ensures |t| == 3 * |bs|
    ensures forall i | 0 <= i < |t| :: Unreserved(t[i]) || t[i] == '%'
  {
    if |bs| == 0 then [] else EscapeByte(bs[0]) + EscapeBytes(bs[1..])
  }

  function EncodeChar(c: char): string {
    if Unreserved(c) then [c] else EscapeBytes(Utf8.Encode(c))
  }

  /** `encodeURIComponent(s)`. The result uses only unreserved characters and `%`. */
  function Encode(s: string): (t: string)
    ensures forall i | 0 <= i < |t| :: Unreserved(t[i]) || t[i] == '%'
    ensures |t| >= |s|
  {
    if |s| == 0 then [] else EncodeChar(s[0]) + Encode(s[1..])
  }

  /** Encoding leaves `s` unchanged exactly when every character of `s` is unreserved. */
  lemma {:induction false} EncodeUnchanged(s: string)
    ensures Encode(s) == s <==> forall i | 0 <= i < |s| :: Unreserved(s[i])
  {
    if |s| > 0 {
      EncodeUnchanged(s[1..]);
      var t := Encode(s);
      assert t == EncodeChar(s[0]) + Encode(s[1..]);
      if Unreserved(s[0]) {
        assert t[1..] == Encode(s[1..]);
        assert s == [s[0]] + s[1..];
      } else {
        assert t[0] == '%';
      }
      assert (forall i | 0 <= i < |s| :: Unreserved(s[i])) <==>
             Unreserved(s[0]) && forall i | 0 <= i < |s[1..]| :: Unreserved(s[1..][i]);
    }
  }

  /** The byte an escape `%XX` at the front of `s` stands for; `None` when there is none. */
  function ReadByte(s: string): (r: Option<Utf8.byte>) {
    if |s| >= 3 && s[0] == '%' && IsHexDigit(s[1]) && IsHexDigit(s[2])
    then Some(DigitValue(s[1]) * 16 + DigitValue(s[2]))
    else None
  }

  /** The bytes of `n` consecutive escapes at the front of `s`; `None` unless all `n` are there. */
  function ReadBytes(s: string, n: nat): (r: Option<seq<Utf8.byte>>)
    ensures r.Some? ==> |r.value| == n && 3 * n <= |s|
  {
    if n == 0 then Some([])
    else match ReadByte(s)
      case None => None
      case Some(b) =>
        match ReadBytes(s[3..], n - 1)
        case None => None
        case Some(tail) => Some([b] + tail)
  }

  /** The number of leading one bits of `b`, with every count above 4 reported as 5. */
  function LeadingOnes(b: Utf8.byte): nat {
    if b < 0x80 then 0
    else if b < 0xC0 then 1
    else if b < 0xE0 then 2
    else if b < 0xF0 then 3
    else if b < 0xF8 then 4
    else 5
  }

  /**
   * Decodes the escape at the front of `s` into one character and the number of characters it
   * used: a byte below 80 stands alone; a lead byte with n leading ones must be followed by
   * n - 1 further escapes, and the n bytes together must be well-formed UTF-8.
   */
  function DecodeEscape(s: string): (r: Option<(char, nat)>)
    requires |s| > 0 && s[0] == '%'
    ensures r.Some? ==> 3 <= r.value.1 <= |s|
  {
    match ReadByte(s)
    case None => None
    case Some(b) =>
      var n := LeadingOnes(b);
      if n == 0 then Some((b as char, 3))
      else if n == 1 || n > 4 then None
      else
        match ReadBytes(s[3..], n - 1)
        case None => None
        case Some(tail) =>
          match Utf8.Decode([b] + tail)
          case None => None
          case Some(c) => Some((c, 3 * n))
  }

  /**
   * `decodeURIComponent(s)`; `None` where it throws `URIError`. A successful decode never
   * lengthens the text and strictly shortens any text that contains `%`.
   */
  function Decode(s: string): (r: Option<string>)
    ensures r.Some? ==> |r.value| <= |s|
    ensures r.Some? && '%' in s ==> |r.value| < |s|
    decreases |s|
  {
    if |s| == 0 then Some([])
    else if s[0] != '%' then
      assert '%' in s ==> '%' in s[1..] by {
        if '%' in s {
          var i :| 0 <= i < |s| && s[i] == '%';
          assert s[1..][i - 1] == '%';
        }
      }
      match Decode(s[1..])
      case None => None
      case Some(t) => Some([s[0]] + t)
    else
      match DecodeEscape(s)
      case None => None
      case Some(step) =>
        match Decode(s[step.1..])
        case None => None
        case Some(t) => Some([step.0] + t)
  }

  /** Text without `%` decodes to itself. */
  lemma {:induction false} DecodeWithoutPercent(s: string)
    requires '%' !in s
    ensures Decode(s) == Some(s)
  {
    if |s| > 0 {
      DecodeWithoutPercent(s[1..]);
      assert [s[0]] + s[1..] == s;
    }
  }

  /** Text with `%` never decodes to itself: decoding either fails or changes it. */
  lemma DecodeWithPercent(s: string)
    requires '%' in s
    ensures Decode(s) != Some(s)
  {}

  lemma {:induction false} ReadEscapedBytes(bs: seq<Utf8.byte>, rest: string)
    ensures ReadBytes(EscapeBytes(bs) + rest, |bs|) == Some(bs)
  {
    if |bs| > 0 {
      EscapesThen(bs, rest);
      ReadEscape(bs[0], EscapeBytes(bs[1..]) + rest);
      ReadEscapedBytes(bs[1..], rest);
      assert [bs[0]] + bs[1..] == bs;
    }
  }

  lemma LeadingOnesOfLead(w: seq<Utf8.byte>)
    requires Utf8.WellFormed(w)
    ensures LeadingOnes(w[0]) == if |w| == 1 then 0 else |w|
  {}

  /** An escaped lead byte followed by the escapes of its continuation bytes. */
  lemma DecodeEscapeMulti(s: string, w: seq<Utf8.byte>)
    requires 2 <= |w| <= 4 && ReadByte(s) == Some(w[0]) && LeadingOnes(w[0]) == |w|
    requires ReadBytes(s[3..], |w| - 1) == Some(w[1..])
    ensures DecodeEscape(s) == match Utf8.Decode(w)
      case None => None
      case Some(c) => Some((c, 3 * |w|))
  {
    assert [w[0]] + w[1..] == w;
  }

  lemma EscapeBytesFirst(bs: seq<Utf8.byte>)
    requires |bs| > 0
    ensures EscapeBytes(bs) == EscapeByte(bs[0]) + EscapeBytes(bs[1..])
  {}

  /** The escapes of `w` followed by `rest`, seen as the first escape and what follows it. */
  lemma EscapesThen(w: seq<Utf8.byte>, rest: string)
    requires |w| > 0
    ensures EscapeBytes(w) + rest == EscapeByte(w[0]) + (EscapeBytes(w[1..]) + rest)
  {
    EscapeBytesFirst(w);
    Seqs.AppendAssoc(EscapeByte(w[0]), EscapeBytes(w[1..]), rest);
  }

  lemma ReadEscape(b: Utf8.byte, more: string)
    ensures ReadByte(EscapeByte(b) + more) == Some(b)
    ensures (EscapeByte(b) + more)[3..] == more
  {}

  lemma ReadLeadByte(w: seq<Utf8.byte>, rest: string)
    requires |w| > 0
    ensures ReadByte(EscapeBytes(w) + rest) == Some(w[0])
  {
    EscapesThen(w, rest);
    ReadEscape(w[0], EscapeBytes(w[1..]) + rest);
  }

  lemma ReadContinuations(w: seq<Utf8.byte>, rest: string)
    requires |w| > 0
    ensures ReadBytes((EscapeBytes(w) + rest)[3..], |w| - 1) == Some(w[1..])
  {
    EscapesThen(w, rest);
    ReadEscape(w[0], EscapeBytes(w[1..]) + rest);
    ReadEscapedBytes(w[1..], rest);
  }

  lemma DecodeEscapeAscii(w: seq<Utf8.byte>, rest: string)
    requires Utf8.WellFormed(w) && |w| == 1
    ensures DecodeEscape(EscapeBytes(w) + rest) == Some((Utf8.Decode(w).value, 3))
  {
    ReadLeadByte(w, rest);
  }

  lemma DecodeEscapeMultibyte(w: seq<Utf8.byte>, rest: string)
    requires Utf8.WellFormed(w) && |w| > 1
    ensures DecodeEscape(EscapeBytes(w) + rest) == Some((Utf8.Decode(w).value, 3 * |w|))
  {
    ReadLeadByte(w, rest);
    ReadContinuations(w, rest);
    LeadingOnesOfLead(w);
    DecodeEscapeMulti(EscapeBytes(w) + rest, w);
  }

  /** The escapes of one character's UTF-8 bytes decode as that character. */
  lemma DecodeEscapeEncoded(c: char, rest: string)
    ensures var w := Utf8.Encode(c);
      DecodeEscape(EscapeBytes(w) + rest) == Some((c, 3 * |w|))
  {
    var w := Utf8.Encode(c);
    if |w| == 1 {
      DecodeEscapeAscii(w, rest);
    } else {
      DecodeEscapeMultibyte(w, rest);
    }
    Utf8.DecodeEncode(c);
  }

  /** One encoded character decodes back, whatever follows it. */
  lemma DecodeEncodeChar(c: char, rest: string)
    ensures Decode(EncodeChar(c) + rest) == match Decode(rest) case None => None case Some(t) => Some([c] + t)
  {
    var s := EncodeChar(c) + rest;
    if Unreserved(c) {
      assert s[1..] == rest;
    } else {
      var w := Utf8.Encode(c);
      DecodeEscapeEncoded(c, rest);
      assert s[0] == '%';
      assert s[3 * |w|..] == rest;
    }
  }

  /** `decodeURIComponent(encodeURIComponent(s)) == s` for every string. */
  lemma {:induction false} DecodeEncode(s: string)
    ensures Decode(Encode(s)) == Some(s)
  {
    if |s| > 0 {
      assert Encode(s) == EncodeChar(s[0]) + Encode(s[1..]);
      DecodeEncode(s[1..]);
      DecodeEncodeChar(s[0], Encode(s[1..]));
      assert [s[0]] + s[1..] == s;
    }
  }

  /**
   * A `%` that is not followed by two hexadecimal digits makes decoding fail, wherever it stands:
   * either an earlier escape already fails, or decoding reaches that `%` as the start of an
   * escape.
   */
  lemma {:induction false} DecodeBadEscape(a: string, b: string)
    requires !(|b| >= 2 && IsHexDigit(b[0]) && IsHexDigit(b[1]))
    ensures Decode(a + "%" + b) == None
    decreases |a|
  {
    var s := a + "%" + b;
    if |a| == 0 {
      assert s == "%" + b;
      assert ReadByte(s) == None;
    } else if a[0] != '%' {
      assert s[0] == a[0] && s[1..] == a[1..] + "%" + b;
      DecodeBadEscape(a[1..], b);
    } else {
      assert s[0] == '%';
      DecodeEscapeStops(a, b);
      match DecodeEscape(s)
      case None =>
      case Some(step) =>
        assert s[step.1..] == a[step.1..] + "%" + b;
        DecodeBadEscape(a[step.1..], b);
    }
  }

  /** An escape read at the front of `a + "%" + b` lies entirely within `a`. */
  lemma ReadByteStops(a: string, b: string)
    requires !(|b| >= 2 && IsHexDigit(b[0]) && IsHexDigit(b[1]))
    requires ReadByte(a + "%" + b).Some?
    ensures |a| >= 3 && (a + "%" + b)[3..] == a[3..] + "%" + b
  {
    var s := a + "%" + b;
    assert s[|a|] == '%' && s[|a| + 1..] == b;
  }

  lemma {:induction false} ReadBytesStops(a: string, b: string, n: nat)
    requires !(|b| >= 2 && IsHexDigit(b[0]) && IsHexDigit(b[1]))
    requires ReadBytes(a + "%" + b, n).Some?
    ensures 3 * n <= |a|
  {
    if n > 0 {
      ReadByteStops(a, b);
      ReadBytesStops(a[3..], b, n - 1);
    }
  }

  /** A successful escape at the front of `a + "%" + b` uses only characters of `a`. */
  lemma DecodeEscapeStops(a: string, b: string)
    requires !(|b| >= 2 && IsHexDigit(b[0]) && IsHexDigit(b[1]))
    requires |a| > 0 && a[0] == '%'
    ensures var s := a + "%" + b;
      DecodeEscape(s).Some? ==> DecodeEscape(s).value.1 <= |a|
  {
    var s := a + "%" + b;
    if DecodeEscape(s).Some? {
      ReadByteStops(a, b);
      var n := LeadingOnes(ReadByte(s).value);
      if n > 1 {
        ReadBytesStops(a[3..], b, n - 1);
      }
    }
  }

  /** An escape that decodes is read the same whatever text follows it. */
  lemma {:induction false} ReadBytesPrefix(x: string, t: string, n: nat)
    requires ReadBytes(x, n).Some?
    ensures ReadBytes(x + t, n) == ReadBytes(x, n)
  {
    if n > 0 {
      assert (x + t)[..3] == x[..3];
      assert (x + t)[3..] == x[3..] + t;
      ReadBytesPrefix(x[3..], t, n - 1);
    }
  }

  lemma DecodeEscapePrefix(x: string, t: string)
    requires |x| > 0 && x[0] == '%' && DecodeEscape(x).Some?
    ensures DecodeEscape(x + t) == DecodeEscape(x)
  {
    assert (x + t)[..3] == x[..3];
    assert (x + t)[3..] == x[3..] + t;
    var n := LeadingOnes(ReadByte(x).value);
    if n > 1 {
      ReadBytesPrefix(x[3..], t, n - 1);
    }
  }

  /** Decoding text that decodes on its own, followed by more text, decodes the two in turn. */
  lemma {:induction false} DecodeAppend(a: string, t: string)
    requires Decode(a).Some?
    ensures Decode(a + t) == match Decode(t)
      case None => None
      case Some(u) => Some(Decode(a).value + u)
    decreases |a|
  {
    if |a| == 0 {
      assert a + t == t;
      if Decode(t).Some? {
        assert Decode(a).value + Decode(t).value == Decode(t).value;
      }
    } else if a[0] != '%' {
      assert (a + t)[0] == a[0] && (a + t)[1..] == a[1..] + t;
      DecodeAppend(a[1..], t);
      if Decode(t).Some? {
        Seqs.AppendAssoc([a[0]], Decode(a[1..]).value, Decode(t).value);
      }
    } else {
      var step := DecodeEscape(a).value;
      DecodeEscapePrefix(a, t);
      assert (a + t)[step.1..] == a[step.1..] + t;
      DecodeAppend(a[step.1..], t);
      if Decode(t).Some? {
        Seqs.AppendAssoc([step.0], Decode(a[step.1..]).value, Decode(t).value);
      }
    }
  }

  /**
   * The other way decoding fails: after any text that decodes, an escape whose byte is a stray
   * continuation byte or no UTF-8 lead byte at all, a lead byte without its continuation
   * escapes, or escaped bytes that are not well-formed UTF-8 (an overlong form, a surrogate, a
   * value above U+10FFFF).
   */
  lemma DecodeInvalidUtf8(a: string, b: Utf8.byte, rest: string)
    requires Decode(a).Some?
    requires LeadingOnes(b) == 1 || LeadingOnes(b) > 4 ||
      (LeadingOnes(b) >= 2 && match ReadBytes(rest, LeadingOnes(b) - 1)
        case None => true
        case Some(tail) => !Utf8.WellFormed([b] + tail))
    ensures Decode(a + EscapeByte(b) + rest) == None
  {
    var t := EscapeByte(b) + rest;
    ReadEscape(b, rest);
    assert t[0] == '%';
    assert DecodeEscape(t) == None;
    Seqs.AppendAssoc(a, EscapeByte(b), rest);
    DecodeAppend(a, t);
  }

  /** Encoding distributes over concatenation. */
  lemma {:induction false} EncodeAppend(a: string, b: string)
    ensures Encode(a + b) == Encode(a) + Encode(b)
  {
    if |a| == 0 {
      assert a + b == b;
    } else {
      assert (a + b)[0] == a[0] && (a + b)[1..] == a[1..] + b;
      EncodeAppend(a[1..], b);
      Seqs.AppendAssoc(EncodeChar(a[0]), Encode(a[1..]), Encode(b));
    }
  }
}
