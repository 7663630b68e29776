/**
 * `JSON.stringify` and `JSON.parse` restricted to the store's value: a flat object whose
 * property values are strings. Strings are escaped as section 7 of RFC 8259 allows and as
 * QuoteJSONString (ECMA-262 section 25.5.2.3) prescribes. The parser accepts the grammar of
 * RFC 8259 for such an object, whitespace and the escape forms included, with one exception: a
 * `\u` escape of a surrogate that is not half of a high-low pair is rejected, because a string
 * here is a sequence of Unicode scalar values and cannot hold a lone surrogate.
 */
module Json {
  import opened Wrappers
  import opened Hex
  import opened FormState
  import Seqs

  /** The escape `JSON.stringify` writes for one character of a string. */
  function EscapeChar(c: char): (t: string)
    ensures |t| >= 1
  {
    if c as int == 0x08 then "\\b"
    else if c as int == 0x09 then "\\t"
    else if c as int == 0x0A then "\\n"
    else if c as int == 0x0C then "\\f"
    else if c as int == 0x0D then "\\r"
    else if c == '"' then "\\\""
    else if c == '\\' then "\\\\"
    else if c as int < 0x20 then "\\u00" + [LowerDigit(c as int / 16), LowerDigit(c as int % 16)]
    else [c]
  }

  function EscapeString(s: string): string {
    if |s| == 0 then [] else EscapeChar(s[0]) + EscapeString(s[1..])
  }

  /** A JSON string literal for `s`. */
  function Quote(s: string): string {
    "\"" + EscapeString(s) + "\""
  }

  function Member(e: Entry): string {
    Quote(e.key) + ":" + Quote(e.value)
  }

  function Members(f: Form): string {
    if |f| == 0 then ""
    else if |f| == 1 then Member(f[0])
    else Member(f[0]) + "," + Members(f[1..])
  }

  /** `JSON.stringify(form)`: the properties in order, with no whitespace. */
  function Stringify(f: Form): (r: string)
    ensures |r| >= 2 && r[0] == '{' && r[|r| - 1] == '}'
    ensures r == "{}" <==> |f| == 0
  {
    "{" + Members(f) + "}"
  }

  /** The four whitespace characters of RFC 8259 section 2. */
  predicate IsWs(c: char) {
    c == ' ' || c == '\t' || c == '\n' || c == '\r'
  }

  function SkipWs(s: string): (r: string)
    ensures |r| <= |s|
    ensures |r| > 0 ==> !IsWs(r[0])
  {
    if |s| > 0 && IsWs(s[0]) then SkipWs(s[1..]) else s
  }

  /** The value of four hexadecimal digits at the front of `s`. */
  function ParseHex4(s: string): (r: Option<nat>)
    ensures r.Some? ==> r.value < 0x10000
  {
    if |s| >= 4 && IsHexDigit(s[0]) && IsHexDigit(s[1]) && IsHexDigit(s[2]) && IsHexDigit(s[3])
    then Some(DigitValue(s[0]) * 4096 + DigitValue(s[1]) * 256 + DigitValue(s[2]) * 16 + DigitValue(s[3]))
    else None
  }

  /**
   * The escape at the front of `s` (which starts with a backslash): the character it stands for
   * and the number of characters it used. A `\u` escape of a high surrogate must be followed by
   * a `\u` escape of a low surrogate, and the pair stands for one character.
   */
  function ParseEscape(s: string): (r: Option<(char, nat)>)
    requires |s| > 0 && s[0] == '\\'
    ensures r.Some? ==> 2 <= r.value.1 <= |s|
  {
    if |s| < 2 then None
    else if s[1] == '"' then Some(('"', 2))
    else if s[1] == '\\' then Some(('\\', 2))
    else if s[1] == '/' then Some(('/', 2))
    else if s[1] == 'b' then Some((0x08 as char, 2))
    else if s[1] == 'f' then Some((0x0C as char, 2))
    else if s[1] == 'n' then Some((0x0A as char, 2))
    else if s[1] == 'r' then Some((0x0D as char, 2))
    else if s[1] == 't' then Some((0x09 as char, 2))
    else if s[1] == 'u' then
      match ParseHex4(s[2..])
      case None => None
      case Some(u) =>
        if 0xD800 <= u < 0xDC00 then
          if |s| >= 8 && s[6] == '\\' && s[7] == 'u' then
            match ParseHex4(s[8..])
            case None => None
            case Some(l) =>
              if 0xDC00 <= l < 0xE000 then Some(((0x10000 + (u - 0xD800) * 0x400 + (l - 0xDC00)) as char, 12))
              else None
          else None
        else if 0xDC00 <= u < 0xE000 then None
        else Some((u as char, 6))
    else None
  }

  /** Puts `c` in front of the text of a successful parse. */
  function Prepend(c: char, r: Option<(string, string)>): Option<(string, string)> {
    match r
    case None => None
    case Some(p) => Some(([c] + p.0, p.1))
  }

  /** The characters of a string literal up to its closing quote, and the text after it. */
  function ParseChars(s: string): (r: Option<(string, string)>)
    ensures r.Some? ==> |r.value.1| < |s|
    decreases |s|
  {
    if |s| == 0 then None
    else if s[0] == '"' then Some(([], s[1..]))
    else if s[0] == '\\' then
      match ParseEscape(s)
      case None => None
      case Some(esc) => Prepend(esc.0, ParseChars(s[esc.1..]))
    else if s[0] as int < 0x20 then None
    else Prepend(s[0], ParseChars(s[1..]))
  }

  function ParseString(s: string): (r: Option<(string, string)>)
    ensures r.Some? ==> |r.value.1| < |s|
  {
    if |s| > 0 && s[0] == '"' then ParseChars(s[1..]) else None
  }

  /** `"key" ws : ws "value"` at the front of `s`. */
  function ParseMember(s: string): (r: Option<(Entry, string)>)
    ensures r.Some? ==> |r.value.1| < |s|
  {
    match ParseString(s)
    case None => None
    case Some(key) =>
      var t := SkipWs(key.1);
      if |t| > 0 && t[0] == ':' then
        match ParseString(SkipWs(t[1..]))
        case None => None
        case Some(value) => Some((Entry(key.0, value.0), value.1))
      else None
  }

  /**
   * The members of an object from the first one after `{` through the closing `}`. Each member
   * is assigned into `acc` as `JSON.parse` does: a repeated key keeps its first position and
   * takes its last value.
   */
  function ParseMembers(s: string, acc: Form): (r: Option<(Form, string)>)
    requires DistinctKeys(acc)
    ensures r.Some? ==> DistinctKeys(r.value.0) && |r.value.1| < |s|
    decreases |s|
  {
    match ParseMember(s)
    case None => None
    case Some(m) =>
      var acc' := Put(acc, m.0.key, m.0.value);
      var t := SkipWs(m.1);
      if |t| > 0 && t[0] == ',' then ParseMembers(SkipWs(t[1..]), acc')
      else if |t| > 0 && t[0] == '}' then Some((acc', t[1..]))
      else None
  }

  /**
   * `JSON.parse(text)` for a text that denotes an object with string values; `None` where
   * `JSON.parse` throws and for every other kind of JSON value.
   */
  function Parse(text: string): (r: Option<Form>)
    ensures r.Some? ==> DistinctKeys(r.value)
  {
    var s := SkipWs(text);
    if |s| > 0 && s[0] == '{' then
      var t := SkipWs(s[1..]);
      var obj := if |t| > 0 && t[0] == '}' then Some(([], t[1..])) else ParseMembers(t, []);
      match obj
      case None => None
      case Some(o) => if |SkipWs(o.1)| == 0 then Some(o.0) else None
    else None
  }

  lemma ParseEscapedChar(c: char, tail: string)
    requires EscapeChar(c)[0] == '\\'
    ensures ParseEscape(EscapeChar(c) + tail) == Some((c, |EscapeChar(c)|))
  {
    var s := EscapeChar(c) + tail;
    if c as int < 0x20 && c as int !in {0x08, 0x09, 0x0A, 0x0C, 0x0D} {
      assert s[2..6] == ['0', '0', LowerDigit(c as int / 16), LowerDigit(c as int % 16)];
      assert ParseHex4(s[2..]) == Some(c as int);
    }
  }

  /** A string's escaped text followed by a closing quote reads back as the string. */
  lemma {:induction false} ParseEscapeString(t: string, rest: string)
    ensures ParseChars(EscapeString(t) + "\"" + rest) == Some((t, rest))
  {
    if |t| == 0 {
      assert EscapeString(t) + "\"" + rest == "\"" + rest;
      assert ("\"" + rest)[1..] == rest;
    } else {
      var e := EscapeChar(t[0]);
      var tail := EscapeString(t[1..]) + "\"" + rest;
      assert EscapeString(t) + "\"" + rest == e + tail;
      ParseEscapeString(t[1..], rest);
      if e[0] == '\\' {
        ParseEscapedChar(t[0], tail);
        assert (e + tail)[|e|..] == tail;
      } else {
        assert e == [t[0]];
        assert (e + tail)[1..] == tail;
      }
      assert [t[0]] + t[1..] == t;
    }
  }

  lemma ParseQuote(t: string, rest: string)
    ensures ParseString(Quote(t) + rest) == Some((t, rest))
  {
    assert (Quote(t) + rest)[1..] == EscapeString(t) + "\"" + rest;
    ParseEscapeString(t, rest);
  }

  lemma ParseMemberOf(e: Entry, rest: string)
    ensures ParseMember(Member(e) + rest) == Some((e, rest))
  {
    var value := Quote(e.value) + rest;
    MemberText(e, rest);
    ParseQuote(e.key, [':'] + value);
    SkipWsAt(':', value);
    SkipWsFirst(value);
    ParseQuote(e.value, rest);
  }

  lemma MemberText(e: Entry, rest: string)
    ensures Member(e) + rest == Quote(e.key) + ([':'] + (Quote(e.value) + rest))
    ensures |Quote(e.value) + rest| > 0 && (Quote(e.value) + rest)[0] == '"'
  {}

  /** Assigning the next property of a form whose keys are distinct appends it. */
  lemma PutNext(acc: Form, g: Form)
    requires |g| > 0 && DistinctKeys(acc + g)
    ensures DistinctKeys(acc) && DistinctKeys(acc + [g[0]])
    ensures Put(acc, g[0].key, g[0].value) == acc + [g[0]]
  {
    var f := acc + g;
    assert acc == f[..|acc|];
    assert acc + [g[0]] == f[..|acc| + 1];
    PutNew(acc, g[0].key, g[0].value);
  }

  /** One member followed by a separator or the closing brace: the general step of the parse. */
  lemma ParseMembersStep(e: Entry, sep: char, after: string, acc: Form)
    requires DistinctKeys(acc) && (sep == ',' || sep == '}')
    ensures ParseMembers(Member(e) + ([sep] + after), acc) ==
      var acc' := Put(acc, e.key, e.value);
      if sep == ',' then ParseMembers(SkipWs(after), acc') else Some((acc', after))
  {
    ParseMemberOf(e, [sep] + after);
    SkipWsAt(sep, after);
  }

  /** Text that starts with a non-whitespace character has nothing to skip. */
  lemma SkipWsAt(c: char, after: string)
    requires !IsWs(c)
    ensures SkipWs([c] + after) == [c] + after
    ensures ([c] + after)[0] == c && ([c] + after)[1..] == after
  {}

  lemma {:induction false} ParseMembersOf(acc: Form, g: Form, rest: string)
    requires |g| > 0 && DistinctKeys(acc + g)
    ensures DistinctKeys(acc)
    ensures ParseMembers(Members(g) + "}" + rest, acc) == Some((acc + g, rest))
    decreases |g|
  {
    PutNext(acc, g);
    if |g| == 1 {
      assert g == [g[0]];
      assert Members(g) + "}" + rest == Member(g[0]) + (['}'] + rest);
      ParseMembersStep(g[0], '}', rest, acc);
    } else {
      assert g == [g[0]] + g[1..];
      ParseInnerMember(g[0], g[1..], rest, acc);
      Seqs.MoveFirst(acc, g);
      ParseMembersOf(acc + [g[0]], g[1..], rest);
    }
  }

  lemma ParseInnerMember(e: Entry, g: Form, rest: string, acc: Form)
    requires |g| > 0 && DistinctKeys(acc)
    ensures ParseMembers(Members([e] + g) + "}" + rest, acc) ==
            ParseMembers(Members(g) + "}" + rest, Put(acc, e.key, e.value))
  {
    var more := Members(g) + "}" + rest;
    assert ([e] + g)[1..] == g;
    assert Members([e] + g) + "}" + rest == Member(e) + ([','] + more);
    ParseMembersStep(e, ',', more, acc);
    assert more[0] == '"';
  }

  /** `JSON.parse(JSON.stringify(form))` gives back the form, properties in the same order. */
  lemma ParseStringify(f: Form)
    requires DistinctKeys(f)
    ensures Parse(Stringify(f)) == Some(f)
  {
    if |f| == 0 {
      assert Stringify(f) == "{}";
    } else {
      var body := Members(f) + "}";
      Seqs.AppendAssoc("{", Members(f), "}");
      MembersStart(f);
      assert body == Members(f) + "}" + "";
      assert [] + f == f;
      ParseMembersOf([], f, "");
      ParseObject(body, f);
    }
  }

  /** An object whose member list parses completely. */
  lemma ParseObject(body: string, f: Form)
    requires |body| > 0 && body[0] == '"' && ParseMembers(body, []) == Some((f, ""))
    ensures Parse("{" + body) == Some(f)
  {
    SkipWsAt('{', body);
    SkipWsFirst(body);
  }

  /** A non-empty member list starts with the opening quote of its first key. */
  lemma MembersStart(f: Form)
    requires |f| > 0
    ensures |Members(f)| > 0 && Members(f)[0] == '"'
  {}

  lemma SkipWsFirst(s: string)
    requires |s| > 0 && !IsWs(s[0])
    ensures SkipWs(s) == s
  {}

  /**
   * The room the members of `f` take inside the braces, counting one separator after each:
   * for a non-empty form, `|Members(f)| + 1`.
   */
  function Weight(f: Form): nat {
    if |f| == 0 then 0 else |Member(f[0])| + 1 + Weight(f[1..])
  }

  lemma {:induction false} MembersWeight(f: Form)
    requires |f| > 0
    ensures |Members(f)| + 1 == Weight(f)
  {
    if |f| > 1 {
      MembersWeight(f[1..]);
    }
  }

  /** Assigning a member grows the room the members take by at most that member and a separator. */
  lemma {:induction false} PutWeight(acc: Form, k: string, v: string)
    requires DistinctKeys(acc)
    ensures Weight(Put(acc, k, v)) <= Weight(acc) + |Member(Entry(k, v))| + 1
  {
    if |acc| > 0 {
      assert acc == [acc[0]] + acc[1..];
      DistinctCons(acc[0], acc[1..]);
      if acc[0].key == k {
        assert ([Entry(k, v)] + acc[1..])[1..] == acc[1..];
      } else {
        PutWeight(acc[1..], k, v);
        var t := Put(acc[1..], k, v);
        assert ([acc[0]] + t)[1..] == t;
      }
    }
  }

  lemma EscapeStringCons(c: char, v: string)
    ensures EscapeString([c] + v) == EscapeChar(c) + EscapeString(v)
  {
    assert ([c] + v)[1..] == v;
  }

  /** No escape is shorter than the one `JSON.stringify` writes for the same character. */
  lemma EscapeCharWithin(s: string)
    requires |s| > 0 && s[0] == '\\' && ParseEscape(s).Some?
    ensures |EscapeChar(ParseEscape(s).value.0)| <= ParseEscape(s).value.1
  {}

  /** A string literal takes at least as much text as its escaped form and closing quote. */
  lemma {:induction false} ParseCharsLength(s: string)
    requires ParseChars(s).Some?
    ensures |EscapeString(ParseChars(s).value.0)| + 1 + |ParseChars(s).value.1| <= |s|
    decreases |s|
  {
    if s[0] == '\\' {
      var esc := ParseEscape(s).value;
      EscapeCharWithin(s);
      ParseCharsLength(s[esc.1..]);
      EscapeStringCons(esc.0, ParseChars(s[esc.1..]).value.0);
    } else if s[0] != '"' {
      ParseCharsLength(s[1..]);
      EscapeStringCons(s[0], ParseChars(s[1..]).value.0);
    }
  }

  lemma ParseMemberLength(s: string)
    requires ParseMember(s).Some?
    ensures |Member(ParseMember(s).value.0)| + |ParseMember(s).value.1| <= |s|
  {
    var key := ParseString(s).value;
    ParseCharsLength(s[1..]);
    var t := SkipWs(key.1);
    var u := SkipWs(t[1..]);
    ParseCharsLength(u[1..]);
  }

  lemma {:induction false} ParseMembersWeight(s: string, acc: Form)
    requires DistinctKeys(acc) && ParseMembers(s, acc).Some?
    ensures Weight(ParseMembers(s, acc).value.0) + |ParseMembers(s, acc).value.1| <= Weight(acc) + |s|
    decreases |s|
  {
    var m := ParseMember(s).value;
    ParseMemberLength(s);
    PutWeight(acc, m.0.key, m.0.value);
    var t := SkipWs(m.1);
    if t[0] == ',' {
      ParseMembersWeight(SkipWs(t[1..]), Put(acc, m.0.key, m.0.value));
    }
  }

  /**
   * `JSON.stringify` writes the shortest text that parses to a form: whitespace, longer escapes
   * and repeated keys only add characters.
   */
  lemma ParseShortest(text: string)
    requires Parse(text).Some?
    ensures |Stringify(Parse(text).value)| <= |text|
  {
    var s := SkipWs(text);
    var t := SkipWs(s[1..]);
    if !(|t| > 0 && t[0] == '}') {
      ParseMembersWeight(t, []);
      var f := Parse(text).value;
      if |f| > 0 {
        MembersWeight(f);
      }
    }
  }

  /** Some key or value of the form contains `%`. */
  predicate MentionsPercent(f: Form) {
    exists i | 0 <= i < |f| :: '%' in f[i].key || '%' in f[i].value
  }

  /** Escaping neither introduces nor removes `%`. */
  lemma {:induction false} EscapeStringPercent(t: string)
    ensures '%' in EscapeString(t) <==> '%' in t
  {
    if |t| > 0 {
      EscapeStringPercent(t[1..]);
      assert t == [t[0]] + t[1..];
      var e := EscapeChar(t[0]);
      assert '%' in e <==> t[0] == '%';
      assert '%' in e + EscapeString(t[1..]) <==> '%' in e || '%' in EscapeString(t[1..]);
    }
  }

  lemma {:induction false} MembersPercent(f: Form)
    ensures '%' in Members(f) <==> MentionsPercent(f)
  {
    if |f| > 0 {
      var e := f[0];
      EscapeStringPercent(e.key);
      EscapeStringPercent(e.value);
      assert '%' in Member(e) <==> '%' in e.key || '%' in e.value;
      if |f| > 1 {
        MembersPercent(f[1..]);
        assert MentionsPercent(f) <==> ('%' in e.key || '%' in e.value) || MentionsPercent(f[1..]) by {
          if MentionsPercent(f[1..]) {
            var i :| 0 <= i < |f[1..]| && ('%' in f[1..][i].key || '%' in f[1..][i].value);
            assert f[i + 1] == f[1..][i];
          }
          if MentionsPercent(f) {
            var i :| 0 <= i < |f| && ('%' in f[i].key || '%' in f[i].value);
            if i > 0 {
              assert f[1..][i - 1] == f[i];
            }
          }
        }
      }
    }
  }

  /** The serialised text contains `%` exactly when some key or value does. */
  lemma StringifyPercent(f: Form)
    ensures '%' in Stringify(f) <==> MentionsPercent(f)
  {
    MembersPercent(f);
  }

  /** A character that `JSON.stringify` writes as itself. */
  predicate Plain(c: char) {
    c as int >= 0x20 && c != '"' && c != '\\'
  }

  lemma {:induction false} EscapePlain(s: string)
    requires forall i | 0 <= i < |s| :: Plain(s[i])
    ensures EscapeString(s) == s
  {
    if |s| > 0 {
      EscapePlain(s[1..]);
      assert s == [s[0]] + s[1..];
    }
  }

  /** The text of a one-property form whose key and value need no escaping. */
  lemma StringifySingle(k: string, v: string)
    requires forall i | 0 <= i < |k| :: Plain(k[i])
    requires forall i | 0 <= i < |v| :: Plain(v[i])
    ensures Stringify([Entry(k, v)]) == "{\"" + k + "\":\"" + v + "\"}"
  {
    QuotePlain(k);
    QuotePlain(v);
    assert Members([Entry(k, v)]) == Member(Entry(k, v));
  }

  lemma QuotePlain(s: string)
    requires forall i | 0 <= i < |s| :: Plain(s[i])
    ensures Quote(s) == "\"" + s + "\""
  {
    EscapePlain(s);
  }
}
