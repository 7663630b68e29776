/**
 * Concrete addresses: the one-field form `{ age: "30" }` travelling through the address bar, and a
 * stored value containing `%` that the address-bar loader as written loses on reload.
 */
module Scenarios {
  import opened Wrappers
  import opened FormState
  import opened UrlState
  import Json
  import UriComponent
  import Utf8
  import opened Hex

  lemma EncodeOne(c: char)
    ensures UriComponent.Encode([c]) == UriComponent.EncodeChar(c)
  {
    assert [c][1..] == [];
  }

  lemma EscapeAscii(c: char)
    requires !UriComponent.Unreserved(c) && c as int < 0x80
    ensures UriComponent.EncodeChar(c) == ['%', UpperDigit(c as int / 16), UpperDigit(c as int % 16)]
  {
    assert Utf8.Encode(c) == [c as int];
    UriComponent.EscapeBytesFirst([c as int]);
    assert [c as int][1..] == [];
  }

  lemma UpperDigits()
    ensures UpperDigit(2) == '2' && UpperDigit(3) == '3' && UpperDigit(7) == '7'
    ensures UpperDigit(10) == 'A' && UpperDigit(11) == 'B' && UpperDigit(13) == 'D'
  {}

  lemma EscapePunctuation()
    ensures UriComponent.EncodeChar('{') == "%7B"
    ensures UriComponent.EncodeChar('"') == "%22"
    ensures UriComponent.EncodeChar(':') == "%3A"
    ensures UriComponent.EncodeChar('}') == "%7D"
  {
    UpperDigits();
    EscapeAscii('{');
    EscapeAscii('"');
    EscapeAscii(':');
    EscapeAscii('}');
  }

  lemma EncodeTwo(c: char, d: char)
    ensures UriComponent.Encode([c, d]) == UriComponent.EncodeChar(c) + UriComponent.EncodeChar(d)
  {
    UriComponent.EncodeAppend([c], [d]);
    assert [c] + [d] == [c, d];
    EncodeOne(c);
    EncodeOne(d);
  }

  lemma EncodePunctuation()
    ensures UriComponent.Encode("{\"") == "%7B%22"
    ensures UriComponent.Encode("\":\"") == "%22%3A%22"
    ensures UriComponent.Encode("\"}") == "%22%7D"
  {
    EscapePunctuation();
    EncodeTwo('{', '"');
    EncodeTwo('"', '}');
    UriComponent.EncodeAppend("\":", "\"");
    EncodeTwo('"', ':');
    EncodeOne('"');
  }

  lemma StringifyAge30()
    ensures Json.Stringify([Entry("age", "30")]) == "{\"" + "age" + "\":\"" + "30" + "\"}"
  {
    assert forall i | 0 <= i < |"age"| :: Json.Plain("age"[i]);
    assert forall i | 0 <= i < |"30"| :: Json.Plain("30"[i]);
    Json.StringifySingle("age", "30");
  }

  lemma EncodeAsIs(s: string)
    requires forall i | 0 <= i < |s| :: UriComponent.Unreserved(s[i])
    ensures UriComponent.Encode(s) == s
  {
    UriComponent.EncodeUnchanged(s);
  }

  lemma EncodeAge30()
    ensures UriComponent.Encode("{\"" + "age" + "\":\"" + "30" + "\"}")
         == "%7B%22" + "age" + "%22%3A%22" + "30" + "%22%7D"
  {
    EncodeAsIs("age");
    EncodeAsIs("30");
    EncodePunctuation();
    UriComponent.EncodeAppend("{\"" + "age" + "\":\"" + "30", "\"}");
    UriComponent.EncodeAppend("{\"" + "age" + "\":\"", "30");
    UriComponent.EncodeAppend("{\"" + "age", "\":\"");
    UriComponent.EncodeAppend("{\"", "age");
  }

  lemma Flatten()
    ensures "?" + "data" + "=" + ("%7B%22" + "age" + "%22%3A%22" + "30" + "%22%7D")
         == "?data=%7B%22age%22%3A%2230%22%7D"
  {}

  lemma NoPercentAge30()
    ensures !Json.MentionsPercent([Entry("age", "30")])
  {
    var f := [Entry("age", "30")];
    assert '%' !in f[0].key && '%' !in f[0].value;
  }

  /** Setting the age to 30 writes `?data=%7B%22age%22%3A%2230%22%7D`, which loads back as `{ age: "30" }`. */
  lemma AgeThirty()
    ensures Query([Entry("age", "30")]) == "?data=%7B%22age%22%3A%2230%22%7D"
    ensures LoadAsWritten("?data=%7B%22age%22%3A%2230%22%7D") == [Entry("age", "30")]
    ensures Load("?data=%7B%22age%22%3A%2230%22%7D") == [Entry("age", "30")]
  {
    var f := [Entry("age", "30")];
    StringifyAge30();
    EncodeAge30();
    Flatten();
    NoPercentAge30();
    LoadAsWrittenQuery(f);
    LoadQuery(f);
  }

  lemma StringifyAge100()
    ensures Json.Stringify([Entry("age", "100%")]) == "{\"age\":\"100" + "%" + "\"}"
  {
    assert forall i | 0 <= i < |"age"| :: Json.Plain("age"[i]);
    assert forall i | 0 <= i < |"100%"| :: Json.Plain("100%"[i]);
    Json.StringifySingle("age", "100%");
  }

  lemma DecodeAge100()
    ensures UriComponent.Decode("{\"age\":\"100" + "%" + "\"}") == None
  {
    UriComponent.DecodeBadEscape("{\"age\":\"100", "\"}");
  }

  /**
   * A stored value `100%` does not survive a reload as written: the second percent-decoding
   * meets `%"}`, throws, and the whole form comes back empty. The corrected loader keeps it.
   */
  lemma PercentValueLost()
    ensures LoadAsWritten(Query([Entry("age", "100%")])) == []
    ensures Load(Query([Entry("age", "100%")])) == [Entry("age", "100%")]
  {
    var f := [Entry("age", "100%")];
    DataParamOfQuery(f);
    StringifyAge100();
    DecodeAge100();
    LoadQuery(f);
  }

  /** A bad `%` after a valid escape still makes `decodeURIComponent` throw. */
  lemma BadEscapeAfterEscape()
    ensures UriComponent.Decode("%41%\"}") == None
  {
    UriComponent.DecodeBadEscape("%41", "\"}");
    assert "%41" + "%" + "\"}" == "%41%\"}";
  }

  /** A lead byte whose continuation escape is missing makes `decodeURIComponent` throw. */
  lemma TruncatedSequence()
    ensures UriComponent.Decode("%C3") == None
  {
    assert UpperDigit(12) == 'C' && UpperDigit(3) == '3';
    assert UriComponent.EscapeByte(0xC3) == "%C3";
    UriComponent.DecodeInvalidUtf8("", 0xC3, "");
    assert "" + "%C3" + "" == "%C3";
  }

  /** The escaped UTF-8 form of a surrogate code point makes `decodeURIComponent` throw. */
  lemma EscapedSurrogate()
    ensures UriComponent.Decode("%ED%A0%80") == None
  {
    assert UpperDigit(14) == 'E' && UpperDigit(13) == 'D';
    assert UriComponent.EscapeByte(0xED) == "%ED";
    var rest := "%A0%80";
    assert UriComponent.ReadBytes(rest, 2) == Some([0xA0, 0x80]) by {
      assert UriComponent.ReadByte(rest) == Some(0xA0);
      assert rest[3..] == "%80";
      assert UriComponent.ReadByte("%80") == Some(0x80);
      assert "%80"[3..] == "";
      assert UriComponent.ReadBytes("%80"[3..], 0) == Some([]);
      var last: seq<Utf8.byte> := [0x80];
      assert last + [] == last;
      assert UriComponent.ReadBytes("%80", 1) == Some([0x80]);
      assert [0xA0] + [0x80] == [0xA0, 0x80];
    }
    assert UriComponent.LeadingOnes(0xED) == 3;
    var w: seq<Utf8.byte> := [0xED] + [0xA0, 0x80];
    assert w[0] == 0xED && w[1] == 0xA0 && !Utf8.Continues(0xED, 1, 0xA0);
    assert !Utf8.WellFormed(w);
    UriComponent.DecodeInvalidUtf8("", 0xED, rest);
    assert "" + "%ED" + rest == "%ED%A0%80";
  }
}
