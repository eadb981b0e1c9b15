/** The JSON used on the SSE channel: `JSON.stringify` of flat objects whose
    values are strings, booleans or null, and a `JSON.parse` for exactly that
    subset of JSON (no numbers, arrays, nested objects or insignificant
    whitespace, which the server never emits). Strings are escaped as
    ECMAScript's QuoteJSONString does: `"` and `\` are backslash-escaped, the
    five named control characters use their short escapes, every other
    character below U+0020 becomes `\u00xx` with lower-case hex, and all
    other characters are written as themselves. */
module Json {
  import opened Wrappers
  import opened Text

  datatype Value = JString(str: string) | JBool(b: bool) | JNull
  datatype Member = Member(key: string, value: Value)
  type Object = seq<Member>

  /** Characters that RFC 8259 section 7 forbids unescaped inside a string. */
  predicate IsControl(c: char) {
    c < ' '
  }

  predicate NoControl(s: string) {
    forall c :: c in s ==> !IsControl(c)
  }

  // ---------------------------------------------------------------------------
  // Encoding (JSON.stringify)
  // ---------------------------------------------------------------------------

  function HexDigit(d: nat): char
    requires d < 16
  {
    "0123456789abcdef"[d]
  }

  function EscapeChar(c: char): (r: string)
    ensures |r| > 0 && NoControl(r)
    ensures r[0] == '\\' || (r == [c] && c != '"' && c != '\\' && !IsControl(c))
  {
    if c == '"' then "\\\""
    else if c == '\\' then "\\\\"
    else if c == '\U{0008}' then "\\b"
    else if c == '\U{000C}' then "\\f"
    else if c == '\n' then "\\n"
    else if c == '\r' then "\\r"
    else if c == '\t' then "\\t"
    else if IsControl(c) then "\\u00" + [HexDigit(c as int / 16), HexDigit(c as int % 16)]
    else [c]
  }

  /** The body of a JSON string literal for `s`, without the quotes. */
  function Escape(s: string): (r: string)
    ensures NoControl(r)
    ensures |r| >= |s|
  {
    if |s| == 0 then "" else EscapeChar(s[0]) + Escape(s[1..])
  }

  lemma NoControlAppend(a: string, b: string)
    requires NoControl(a) && NoControl(b)
    ensures NoControl(a + b)
  {
  }

  lemma LastOfAppend(a: string, b: string)
    requires |b| >= 1
    ensures (a + b)[|a + b| - 1] == b[|b| - 1]
  {
  }

  function Quote(s: string): (r: string)
    ensures NoControl(r) && |r| >= 2
  {
    "\"" + Escape(s) + "\""
  }

  function EncodeValue(v: Value): (r: string)
    ensures NoControl(r)
  {
    match v
    case JString(s) => Quote(s)
    case JBool(b) => if b then "true" else "false"
    case JNull => "null"
  }

  function EncodeMember(m: Member): (r: string)
    ensures NoControl(r) && |r| >= 3
  {
    Quote(m.key) + ":" + EncodeValue(m.value)
  }

  /** The members after the opening brace, each followed by `,` or, for the
      last one, the closing brace. */
  function EncodeMembers(ms: seq<Member>): (r: string)
    requires |ms| >= 1
    ensures NoControl(r)
    ensures |r| >= 2 && r[|r| - 1] == '}'
  {
    var first := EncodeMember(ms[0]);
    if |ms| == 1 then
      NoControlAppend(first, "}");
      LastOfAppend(first, "}");
      first + "}"
    else
      var rest := EncodeMembers(ms[1..]);
      NoControlAppend(first, ",");
      NoControlAppend(first + ",", rest);
      LastOfAppend(first + ",", rest);
      first + "," + rest
  }

  /** `JSON.stringify` of a flat object. The result never holds a raw control
      character, in particular no line feed, so it fits on one SSE line. */
  function Encode(o: Object): (r: string)
    ensures NoControl(r)
    ensures |r| >= 2 && r[0] == '{' && r[|r| - 1] == '}'
  {
    if |o| == 0 then "{}"
    else
      var body := EncodeMembers(o);
      NoControlAppend("{", body);
      LastOfAppend("{", body);
      "{" + body
  }

  // ---------------------------------------------------------------------------
  // Decoding (JSON.parse on the modelled subset)
  // ---------------------------------------------------------------------------

  function HexValue(c: char): Option<nat> {
    if '0' <= c <= '9' then Some(c as int - '0' as int)
    else if 'a' <= c <= 'f' then Some(c as int - 'a' as int + 10)
    else if 'A' <= c <= 'F' then Some(c as int - 'A' as int + 10)
    else None
  }

  /** The value of four hex digits. */
  function Hex4(s: string): (r: Option<nat>)
    requires |s| >= 4
    ensures r.Some? ==> r.value < 0x10000
  {
    match (HexValue(s[0]), HexValue(s[1]), HexValue(s[2]), HexValue(s[3]))
    case (Some(a), Some(b), Some(c), Some(d)) =>
      if a < 16 && b < 16 && c < 16 && d < 16 then Some(((a * 16 + b) * 16 + c) * 16 + d) else None
    case _ => None
  }

  /** One escape sequence at the start of `s`: the character it denotes and
      how many characters it spans. A `\u` escape of a UTF-16 surrogate is
      outside the modelled subset. */
  function Unescape(s: string): (r: Option<(char, nat)>)
    requires |s| >= 2 && s[0] == '\\'
    ensures r.Some? ==> 2 <= r.value.1 <= |s|
  {
    match s[1]
    case '"' => Some(('"', 2))
    case '\\' => Some(('\\', 2))
    case '/' => Some(('/', 2))
    case 'b' => Some(('\U{0008}', 2))
    case 'f' => Some(('\U{000C}', 2))
    case 'n' => Some(('\n', 2))
    case 'r' => Some(('\r', 2))
    case 't' => Some(('\t', 2))
    case 'u' =>
      if |s| < 6 then None
      else (
        match Hex4(s[2..6])
        case None => None
        case Some(v) => if 0xD800 <= v < 0xE000 then None else Some((v as char, 6)))
    case _ => None
  }

  /** A string literal body up to and including its closing quote: the
      decoded text and the input after the quote. */
  function ParseStringBody(s: string): (r: Option<(string, string)>)
    ensures r.Some? ==> |r.value.1| < |s|
    decreases |s|
  {
    if |s| == 0 then None
    else if s[0] == '"' then Some(("", s[1..]))
    else if s[0] == '\\' then
      if |s| < 2 then None
      else match Unescape(s)
        case None => None
        case Some((c, n)) =>
          match ParseStringBody(s[n..])
          case None => None
          case Some((t, rest)) => Some(([c] + t, rest))
    else if IsControl(s[0]) then None
    else match ParseStringBody(s[1..])
      case None => None
      case Some((t, rest)) => Some(([s[0]] + t, rest))
  }

  function ParseValue(s: string): (r: Option<(Value, string)>)
    ensures r.Some? ==> |r.value.1| < |s|
  {
    if |s| > 0 && s[0] == '"' then
      match ParseStringBody(s[1..])
      case None => None
      case Some((t, rest)) => Some((JString(t), rest))
    else if StartsWith(s, "true") then Some((JBool(true), s[4..]))
    else if StartsWith(s, "false") then Some((JBool(false), s[5..]))
    else if StartsWith(s, "null") then Some((JNull, s[4..]))
    else None
  }

  /** One `"key":value` member at the start of `s`, and the input after it. */
  function ParseMember(s: string): (r: Option<(Member, string)>)
    ensures r.Some? ==> |r.value.1| < |s|
  {
    if |s| == 0 || s[0] != '"' then None
    else match ParseStringBody(s[1..])
      case None => None
      case Some((key, r1)) =>
        if |r1| == 0 || r1[0] != ':' then None
        else match ParseValue(r1[1..])
          case None => None
          case Some((v, r2)) => Some((Member(key, v), r2))
  }

  /** Members after the opening brace, through the closing brace, which must
      end the input. */
  function ParseMembers(s: string): Option<seq<Member>>
    decreases |s|
  {
    match ParseMember(s)
    case None => None
    case Some((m, rest)) =>
      if rest == "}" then Some([m])
      else if |rest| > 0 && rest[0] == ',' then
        match ParseMembers(rest[1..])
        case None => None
        case Some(ms) => Some([m] + ms)
      else None
  }

  /** `JSON.parse` restricted to flat objects; `None` is a parse failure. */
  function Decode(s: string): Option<Object> {
    if s == "{}" then Some([])
    else if |s| > 0 && s[0] == '{' then ParseMembers(s[1..])
    else None
  }

  // ---------------------------------------------------------------------------
  // Round trip
  // ---------------------------------------------------------------------------

  lemma HexRoundTrip(d: nat)
    requires d < 16
    ensures HexValue(HexDigit(d)) == Some(d)
  {
  }

  lemma EscapedCharRoundTrip(c: char, tail: string)
    requires EscapeChar(c)[0] == '\\'
    ensures |EscapeChar(c) + tail| >= 2
    ensures Unescape(EscapeChar(c) + tail) == Some((c, |EscapeChar(c)|))
  {
    var e := EscapeChar(c);
    if IsControl(c) && c != '\U{0008}' && c != '\U{000C}' && c != '\n' && c != '\r' && c != '\t' {
      var s := e + tail;
      var hi, lo := c as int / 16, c as int % 16;
      HexRoundTrip(hi);
      HexRoundTrip(lo);
      HexRoundTrip(0);
      assert s[2..6] == ['0', '0', HexDigit(hi), HexDigit(lo)];
      assert Hex4(s[2..6]) == Some(c as int);
    }
  }

  /** An escape sequence in front of a parsable body adds its character. */
  lemma ParseEscapedStep(c: char, tail: string, t: string, rest: string)
    requires EscapeChar(c)[0] == '\\'
    requires ParseStringBody(tail) == Some((t, rest))
    ensures ParseStringBody(EscapeChar(c) + tail) == Some(([c] + t, rest))
  {
    var e := EscapeChar(c);
    var s := e + tail;
    EscapedCharRoundTrip(c, tail);
    assert s[|e|..] == tail;
    assert s[0] == '\\';
  }

  /** A plain character in front of a parsable body is kept. */
  lemma ParsePlainStep(c: char, tail: string, t: string, rest: string)
    requires c != '"' && c != '\\' && !IsControl(c)
    requires ParseStringBody(tail) == Some((t, rest))
    ensures ParseStringBody([c] + tail) == Some(([c] + t, rest))
  {
    assert ([c] + tail)[1..] == tail;
  }

  /** Parsing an escaped body followed by a closing quote recovers the text
      and stops right after the quote. */
  lemma {:induction false} StringRoundTrip(t: string, rest: string)
    ensures ParseStringBody(Escape(t) + "\"" + rest) == Some((t, rest))
    decreases |t|
  {
    if |t| == 0 {
      assert Escape(t) + "\"" + rest == "\"" + rest;
    } else {
      StringRoundTrip(t[1..], rest);
      StringRoundTripCons(t[0], t[1..], rest);
      assert [t[0]] + t[1..] == t;
    }
  }

  /** The inductive step of `StringRoundTrip`: one more character in front. */
  lemma StringRoundTripCons(c: char, t: string, rest: string)
    requires ParseStringBody(Escape(t) + "\"" + rest) == Some((t, rest))
    ensures ParseStringBody(Escape([c] + t) + "\"" + rest) == Some(([c] + t, rest))
  {
    var e := EscapeChar(c);
    var tail := Escape(t) + "\"" + rest;
    assert ([c] + t)[0] == c && ([c] + t)[1..] == t;
    assert Escape([c] + t) + "\"" + rest == e + tail;
    if e[0] == '\\' {
      ParseEscapedStep(c, tail, t, rest);
    } else {
      ParsePlainStep(c, tail, t, rest);
    }
  }

  /** A keyword at the start of the input is consumed whole. */
  lemma KeywordPrefix(w: string, rest: string)
    ensures StartsWith(w + rest, w) && (w + rest)[|w|..] == rest
  {
    assert (w + rest)[..|w|] == w;
  }

  lemma StringValueRoundTrip(t: string, rest: string)
    ensures ParseValue(EncodeValue(JString(t)) + rest) == Some((JString(t), rest))
  {
    var body := Escape(t) + "\"" + rest;
    StringRoundTrip(t, rest);
    QuoteShape(t, rest);
    ParseQuoted(body, t, rest);
  }

  lemma QuoteShape(t: string, rest: string)
    ensures EncodeValue(JString(t)) + rest == "\"" + (Escape(t) + "\"" + rest)
  {
  }

  /** A quote followed by a string body parses as that string. */
  lemma ParseQuoted(body: string, t: string, rest: string)
    requires ParseStringBody(body) == Some((t, rest))
    ensures ParseValue("\"" + body) == Some((JString(t), rest))
  {
    assert ("\"" + body)[1..] == body;
  }

  lemma TrueRoundTrip(rest: string)
    ensures ParseValue(EncodeValue(JBool(true)) + rest) == Some((JBool(true), rest))
  {
    KeywordPrefix("true", rest);
  }

  lemma FalseRoundTrip(rest: string)
    ensures ParseValue(EncodeValue(JBool(false)) + rest) == Some((JBool(false), rest))
  {
    var s := "false" + rest;
    KeywordPrefix("false", rest);
    assert s[0] == 'f';
    assert !StartsWith(s, "true") by { assert "true"[0] == 't'; }
  }

  lemma NullRoundTrip(rest: string)
    ensures ParseValue(EncodeValue(JNull) + rest) == Some((JNull, rest))
  {
    var s := "null" + rest;
    KeywordPrefix("null", rest);
    assert s[0] == 'n';
    assert !StartsWith(s, "true") by { assert "true"[0] == 't'; }
    assert !StartsWith(s, "false") by { assert "false"[0] == 'f'; }
  }

  lemma ValueRoundTrip(v: Value, rest: string)
    ensures ParseValue(EncodeValue(v) + rest) == Some((v, rest))
  {
    match v
    case JString(t) => StringValueRoundTrip(t, rest);
    case JBool(b) => if b { TrueRoundTrip(rest); } else { FalseRoundTrip(rest); }
    case JNull => NullRoundTrip(rest);
  }

  /** How a member is read: a quoted key, a colon, then a value. */
  lemma ParseMemberOf(s: string, key: string, r1: string, v: Value, after: string)
    requires |s| > 0 && s[0] == '"'
    requires ParseStringBody(s[1..]) == Some((key, r1))
    requires |r1| > 0 && r1[0] == ':' && ParseValue(r1[1..]) == Some((v, after))
    ensures ParseMember(s) == Some((Member(key, v), after))
  {
  }

  lemma MemberShape(m: Member, after: string)
    ensures EncodeMember(m) + after
            == "\"" + (Escape(m.key) + "\"" + (":" + (EncodeValue(m.value) + after)))
  {
    var q, e, c, ev := "\"", Escape(m.key), ":", EncodeValue(m.value);
    assert EncodeMember(m) == q + e + q + c + ev;
    AppendAssoc(q + e + q + c, ev, after);
    AppendAssoc(q + e + q, c, ev + after);
    AppendAssoc(q + e, q, c + (ev + after));
    AppendAssoc(q, e, q + (c + (ev + after)));
    AppendAssoc(e, q, c + (ev + after));
  }

  lemma MemberRoundTrip(m: Member, after: string)
    ensures ParseMember(EncodeMember(m) + after) == Some((m, after))
  {
    var r1 := ":" + (EncodeValue(m.value) + after);
    var s := EncodeMember(m) + after;
    MemberShape(m, after);
    assert s[1..] == Escape(m.key) + "\"" + r1;
    StringRoundTrip(m.key, r1);
    assert r1[1..] == EncodeValue(m.value) + after;
    ValueRoundTrip(m.value, after);
    ParseMemberOf(s, m.key, r1, m.value, after);
  }

  lemma ParseMembersLast(s: string, m: Member)
    requires ParseMember(s) == Some((m, "}"))
    ensures ParseMembers(s) == Some([m])
  {
  }

  lemma ParseMembersCons(s: string, m: Member, tail: string, ms: seq<Member>)
    requires ParseMember(s) == Some((m, "," + tail))
    requires ParseMembers(tail) == Some(ms)
    ensures ParseMembers(s) == Some([m] + ms)
  {
    var after := "," + tail;
    assert after != "}" by { assert |after| == 1 ==> tail == ""; assert after[0] == ','; }
    assert after[1..] == tail;
  }

  lemma MembersOne(ms: seq<Member>)
    requires |ms| == 1
    ensures ParseMembers(EncodeMembers(ms)) == Some(ms)
  {
    MemberRoundTrip(ms[0], "}");
    assert EncodeMembers(ms) == EncodeMember(ms[0]) + "}";
    ParseMembersLast(EncodeMembers(ms), ms[0]);
    assert [ms[0]] == ms;
  }

  lemma EncodeMembersCons(ms: seq<Member>)
    requires |ms| >= 2
    ensures EncodeMembers(ms) == EncodeMember(ms[0]) + ("," + EncodeMembers(ms[1..]))
  {
    AppendAssoc(EncodeMember(ms[0]), ",", EncodeMembers(ms[1..]));
  }

  lemma HeadTail(ms: seq<Member>)
    requires |ms| >= 1
    ensures [ms[0]] + ms[1..] == ms
  {
  }

  lemma MembersStep(ms: seq<Member>)
    requires |ms| >= 2
    requires ParseMembers(EncodeMembers(ms[1..])) == Some(ms[1..])
    ensures ParseMembers(EncodeMembers(ms)) == Some(ms)
  {
    var tail := EncodeMembers(ms[1..]);
    EncodeMembersCons(ms);
    MemberRoundTrip(ms[0], "," + tail);
    ParseMembersCons(EncodeMembers(ms), ms[0], tail, ms[1..]);
    HeadTail(ms);
  }

  lemma {:induction false} MembersRoundTrip(ms: seq<Member>)
    requires |ms| >= 1
    ensures ParseMembers(EncodeMembers(ms)) == Some(ms)
    decreases |ms|
  {
    if |ms| == 1 {
      MembersOne(ms);
    } else {
      MembersRoundTrip(ms[1..]);
      MembersStep(ms);
    }
  }

  /** `JSON.parse(JSON.stringify(o))` gives `o` back. */
  lemma RoundTrip(o: Object)
    ensures Decode(Encode(o)) == Some(o)
  {
    if |o| > 0 {
      var s := Encode(o);
      assert s[1..] == EncodeMembers(o);
      MembersRoundTrip(o);
      assert s != "{}" by {
        assert |EncodeMembers(o)| > 1;
      }
    }
  }
}
