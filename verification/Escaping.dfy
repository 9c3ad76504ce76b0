/** What the OAuth pages embed: HTML-escaped text, and a JSON payload inside a script. */
module Escaping {
  import opened Text

  // ---------------------------------------------------------------------------
  // html.escape, quotes included.

  function EscapeChar(c: char): string {
    match c
    case '&' => "&amp;"
    case '<' => "&lt;"
    case '>' => "&gt;"
    case '"' => "&quot;"
    case '\'' => "&#x27;"
    case _ => [c]
  }

  function HtmlEscape(s: string): string {
    if s == [] then [] else EscapeChar(s[0]) + HtmlEscape(s[1..])
  }

  /** The character reference at the front, and its length. */
  function Entity(s: string): Option<(char, nat)>
    ensures Entity(s).Some? ==> 0 < Entity(s).value.1 <= |s|
  {
    if "&amp;" <= s then Some(('&', 5))
    else if "&lt;" <= s then Some(('<', 4))
    else if "&gt;" <= s then Some(('>', 4))
    else if "&quot;" <= s then Some(('"', 6))
    else if "&#x27;" <= s then Some(('\'', 6))
    else None
  }

  /** The decoder of exactly what `HtmlEscape` writes: its five character references stand for their
      characters, anything else for itself. */
  function HtmlDecode(s: string): string
    decreases |s|
  {
    if s == [] then []
    else
      match Entity(s)
      case Some((c, n)) => [c] + HtmlDecode(s[n..])
      case None => [s[0]] + HtmlDecode(s[1..])
  }

  predicate IsMarkup(c: char) {
    c == '<' || c == '>' || c == '"' || c == '\''
  }

  /** Escaped text holds no markup character, and decodes to the original. */
  lemma {:induction false} HtmlRoundTrip(s: string)
    ensures HtmlDecode(HtmlEscape(s)) == s
    ensures forall c :: c in HtmlEscape(s) ==> !IsMarkup(c)
  {
    if s != [] {
      var head, rest := EscapeChar(s[0]), HtmlEscape(s[1..]);
      HtmlRoundTrip(s[1..]);
      EscapedHead(s[0], rest);
      NoMarkup(s[0]);
      assert s == [s[0]] + s[1..];
    }
  }

  lemma NoMarkup(c: char)
    ensures forall x :: x in EscapeChar(c) ==> !IsMarkup(x)
  {
  }

  lemma EscapedHead(c: char, rest: string)
    ensures HtmlDecode(EscapeChar(c) + rest) == [c] + HtmlDecode(rest)
  {
    EntityOfEscape(c, rest);
    var head := EscapeChar(c);
    assert (head + rest)[|head|..] == rest;
    hide Entity, EscapeChar;
  }

  /** The reader recognises what the writer wrote, and nothing else can begin with an ordinary character. */
  lemma EntityOfEscape(c: char, rest: string)
    ensures var head := EscapeChar(c);
            && head != []
            && (|head| > 1 ==> Entity(head + rest) == Some((c, |head|)))
            && (|head| == 1 ==> head == [c] && Entity(head + rest) == None)
  {
    var head := EscapeChar(c);
    var s := head + rest;
    assert head <= s && s[0] == head[0];
    if |head| > 1 {
      assert s[1] == head[1];
    }
  }

  // ---------------------------------------------------------------------------
  // json.dumps of a string, ASCII output.

  function HexDigit(n: nat): char
    requires n < 16
  {
    if n < 10 then '0' + n as char else 'a' + (n - 10) as char
  }

  function HexValue(c: char): Option<nat> {
    if '0' <= c <= '9' then Some((c - '0') as nat)
    else if 'a' <= c <= 'f' then Some((c - 'a') as nat + 10)
    else if 'A' <= c <= 'F' then Some((c - 'A') as nat + 10)
    else None
  }

  function Hex4(n: nat): string
    requires n < 0x1_0000
  {
    [HexDigit(n / 0x1000), HexDigit(n / 0x100 % 16), HexDigit(n / 16 % 16), HexDigit(n % 16)]
  }

  function UnicodeEscape(n: nat): string
    requires n < 0x1_0000
  {
    "\\u" + Hex4(n)
  }

  /** Above the basic plane a character is a surrogate pair. */
  function JsonChar(c: char): string {
    match c
    case '"' => "\\\""
    case '\\' => "\\\\"
    case '\n' => "\\n"
    case '\r' => "\\r"
    case '\t' => "\\t"
    case '\U{8}' => "\\b"
    case '\U{C}' => "\\f"
    case _ =>
      var n := c as nat;
      if ' ' <= c <= '~' then [c]
      else if n < 0x1_0000 then UnicodeEscape(n)
      else UnicodeEscape(0xD800 + (n - 0x1_0000) / 0x400) + UnicodeEscape(0xDC00 + (n - 0x1_0000) % 0x400)
  }

  function JsonChars(s: string): string {
    if s == [] then [] else JsonChar(s[0]) + JsonChars(s[1..])
  }

  /** What `json.dumps` writes around the escaped server name. */
  const TYPE_MEMBER := "\"" + "type" + "\": " + ("\"" + "mcp-auth-complete" + "\"")
  const SERVER_MEMBER := " " + ("\"" + "server" + "\": ") + "\""
  const PAYLOAD_HEAD := "{" + TYPE_MEMBER + "," + SERVER_MEMBER
  const PAYLOAD_TAIL := "\"}"

  function Dumped(server: string): string {
    PAYLOAD_HEAD + JsonChars(server) + PAYLOAD_TAIL
  }

  /** `str.replace("</", "<\\/")`: leftmost, not overlapping. */
  function Neutralised(s: string): string
    decreases |s|
  {
    if s == [] then []
    else if "</" <= s then "<\\/" + Neutralised(s[2..])
    else [s[0]] + Neutralised(s[1..])
  }

  function Payload(server: string): string {
    Neutralised(Dumped(server))
  }

  // ---------------------------------------------------------------------------
  // The JSON reader of section 7 of RFC 8259.

  datatype Read = Read(c: char, rest: string)

  function ReadHex4(s: string): Option<nat>
    ensures ReadHex4(s).Some? ==> |s| >= 4 && ReadHex4(s).value < 0x1_0000
  {
    if |s| < 4 then None
    else
      match (HexValue(s[0]), HexValue(s[1]), HexValue(s[2]), HexValue(s[3]))
      case (Some(a), Some(b), Some(c), Some(d)) => HexBound(a, b, c, d); Some(a * 0x1000 + b * 0x100 + c * 16 + d)
      case _ => None
  }

  lemma HexBound(a: nat, b: nat, c: nat, d: nat)
    ensures a < 16 && b < 16 && c < 16 && d < 16 ==> a * 0x1000 + b * 0x100 + c * 16 + d < 0x1_0000
  {
  }

  /** One character of a string, escaped or not; `None` at the closing quote and at anything illegal,
      such as half a surrogate pair. */
  function ReadChar(s: string): Option<Read>
    ensures ReadChar(s).Some? ==> |ReadChar(s).value.rest| < |s|
  {
    if s == [] || s[0] == '"' || s[0] < ' ' then None
    else if s[0] != '\\' then Some(Read(s[0], s[1..]))
    else if |s| < 2 then None
    else
      match s[1]
      case '"' => Some(Read('"', s[2..]))
      case '\\' => Some(Read('\\', s[2..]))
      case '/' => Some(Read('/', s[2..]))
      case 'b' => Some(Read('\U{8}', s[2..]))
      case 'f' => Some(Read('\U{C}', s[2..]))
      case 'n' => Some(Read('\n', s[2..]))
      case 'r' => Some(Read('\r', s[2..]))
      case 't' => Some(Read('\t', s[2..]))
      case 'u' => ReadUnicode(s[2..])
      case _ => None
  }

  function ReadUnicode(s: string): Option<Read>
    ensures ReadUnicode(s).Some? ==> |ReadUnicode(s).value.rest| < |s|
  {
    match ReadHex4(s)
    case None => None
    case Some(n) =>
      if n < 0xD800 || n >= 0xE000 then Some(Read(n as char, s[4..]))
      else if n >= 0xDC00 || |s| < 6 || s[4] != '\\' || s[5] != 'u' then None
      else
        match ReadHex4(s[6..])
        case Some(m) =>
          if 0xDC00 <= m < 0xE000
          then Some(Read((0x1_0000 + (n - 0xD800) * 0x400 + (m - 0xDC00)) as char, s[10..]))
          else None
        case None => None
  }

  /** The characters up to the closing quote, and what follows it. */
  function ReadString(s: string): Option<(string, string)>
    decreases |s|
  {
    if s != [] && s[0] == '"' then Some(("", s[1..]))
    else
      match ReadChar(s)
      case None => None
      case Some(r) =>
        match ReadString(r.rest)
        case None => None
        case Some((text, rest)) => Some(([r.c] + text, rest))
  }

  function SkipSpaces(s: string): string {
    if s != [] && s[0] in " \t\n\r" then SkipSpaces(s[1..]) else s
  }

  function ReadQuoted(s: string): Option<(string, string)> {
    if s == [] || s[0] != '"' then None else ReadString(s[1..])
  }

  datatype Member = Member(name: string, value: string)

  /** A name and a value that is a string, and what follows them. */
  function ReadMember(s: string): Option<(Member, string)> {
    match ReadQuoted(SkipSpaces(s))
    case None => None
    case Some((name, rest)) =>
      var rest := SkipSpaces(rest);
      if rest == [] || rest[0] != ':' then None
      else
        match ReadQuoted(SkipSpaces(rest[1..]))
        case None => None
        case Some((value, rest)) => Some((Member(name, value), SkipSpaces(rest)))
  }

  /** An object of two members whose values are strings. */
  function ReadObject(s: string): Option<(Member, Member)> {
    if s == [] || s[0] != '{' then None
    else
      match ReadMember(s[1..])
      case None => None
      case Some((first, rest)) =>
        if rest == [] || rest[0] != ',' then None
        else
          match ReadMember(rest[1..])
          case None => None
          case Some((second, rest)) => if rest == "}" then Some((first, second)) else None
  }

  lemma HexRoundTrip(n: nat)
    requires n < 0x1_0000
    ensures ReadHex4(Hex4(n)) == Some(n)
  {
    DigitRoundTrip(n / 0x1000);
    DigitRoundTrip(n / 0x100 % 16);
    DigitRoundTrip(n / 16 % 16);
    DigitRoundTrip(n % 16);
    HexSum(n);
    hide HexDigit, HexValue;
  }

  lemma HexSum(n: nat)
    ensures n / 0x1000 * 0x1000 + n / 0x100 % 16 * 0x100 + n / 16 % 16 * 16 + n % 16 == n
  {
    assert n / 0x100 == n / 0x1000 * 16 + n / 0x100 % 16;
    assert n / 16 == n / 0x100 * 16 + n / 16 % 16;
  }

  lemma DigitRoundTrip(n: nat)
    requires n < 16
    ensures HexValue(HexDigit(n)) == Some(n)
  {
  }

  lemma ReadHexPrefix(n: nat, rest: string)
    requires n < 0x1_0000
    ensures ReadHex4(Hex4(n) + rest) == Some(n) && (Hex4(n) + rest)[4..] == rest
  {
    HexRoundTrip(n);
    hide HexDigit, HexValue;
  }

  lemma BasicRoundTrip(n: nat, rest: string)
    requires n < 0xD800 || 0xE000 <= n < 0x1_0000
    ensures ReadChar(UnicodeEscape(n) + rest) == Some(Read(n as char, rest))
  {
    ReadHexPrefix(n, rest);
    var s := UnicodeEscape(n) + rest;
    assert s[2..] == Hex4(n) + rest;
    hide Hex4, ReadHex4;
    assert s[0] == '\\' && s[1] == 'u';
    assert ReadUnicode(s[2..]) == Some(Read(n as char, rest));
  }

  lemma EscapeShape(n: nat, rest: string)
    requires n < 0x1_0000
    ensures var s := UnicodeEscape(n) + rest; |s| >= 2 && s[0] == '\\' && s[1] == 'u' && s[2..] == Hex4(n) + rest
  {
    hide HexDigit;
  }

  /** A surrogate pair reads back as one character. */
  lemma PairRoundTrip(hi: nat, lo: nat, rest: string)
    requires 0xD800 <= hi < 0xDC00 && 0xDC00 <= lo < 0xE000
    ensures var n := 0x1_0000 + (hi - 0xD800) * 0x400 + (lo - 0xDC00);
            ReadChar(UnicodeEscape(hi) + UnicodeEscape(lo) + rest) == Some(Read(n as char, rest))
  {
    hide Hex4, ReadHex4, ReadUnicode, UnicodeEscape;
    var tail := UnicodeEscape(lo) + rest;
    EscapeShape(hi, tail);
    EscapeShape(lo, rest);
    ReadHexPrefix(hi, tail);
    ReadHexPrefix(lo, rest);
    PairTail(Hex4(hi) + tail, tail, hi, lo, rest);
    assert UnicodeEscape(hi) + UnicodeEscape(lo) + rest == UnicodeEscape(hi) + tail;
  }

  lemma PairTail(u: string, tail: string, hi: nat, lo: nat, rest: string)
    requires 0xD800 <= hi < 0xDC00 && 0xDC00 <= lo < 0xE000
    requires ReadHex4(u) == Some(hi) && u[4..] == tail && |tail| >= 2 && tail[0] == '\\' && tail[1] == 'u'
    requires ReadHex4(tail[2..]) == Some(lo) && tail[2..][4..] == rest
    ensures ReadUnicode(u) == Some(Read((0x1_0000 + (hi - 0xD800) * 0x400 + (lo - 0xDC00)) as char, rest))
  {
    hide ReadHex4;
    assert u[4] == tail[0] && u[5] == tail[1] && u[6..] == tail[2..];
    assert u[10..] == u[6..][4..];
  }

  lemma UnicodeRoundTrip(c: char, rest: string)
    requires !(' ' <= c <= '~')
    ensures var n := c as nat;
            var w := if n < 0x1_0000 then UnicodeEscape(n)
                     else UnicodeEscape(0xD800 + (n - 0x1_0000) / 0x400)
                          + UnicodeEscape(0xDC00 + (n - 0x1_0000) % 0x400);
            ReadChar(w + rest) == Some(Read(c, rest))
  {
    var n := c as nat;
    if n < 0x1_0000 {
      BasicRoundTrip(n, rest);
    } else {
      PairRoundTrip(0xD800 + (n - 0x1_0000) / 0x400, 0xDC00 + (n - 0x1_0000) % 0x400, rest);
    }
  }

  /** The reader reads back each character that the writer wrote. */
  lemma CharRoundTrip(c: char, rest: string)
    ensures ReadChar(JsonChar(c) + rest) == Some(Read(c, rest))
    ensures JsonChar(c) != [] && JsonChar(c)[0] != '"'
  {
    var w := JsonChar(c);
    if c == '"' || c == '\\' || c == '\n' || c == '\r' || c == '\t' || c == '\U{8}' || c == '\U{C}' {
      assert (w + rest)[2..] == rest && (w + rest)[1] == w[1];
    } else if ' ' <= c <= '~' {
      assert (w + rest)[1..] == rest;
    } else {
      UnicodeRoundTrip(c, rest);
    }
  }

  // ---------------------------------------------------------------------------
  // The replacement.

  lemma TagPrefix(s: string)
    ensures "</" <= s <==> |s| >= 2 && s[0] == '<' && s[1] == '/'
  {
  }

  lemma {:induction false} NeutralisedPlain(head: string, rest: string)
    requires '<' !in head
    ensures Neutralised(head + rest) == head + Neutralised(rest)
  {
    if head == [] {
      assert head + rest == rest;
    } else {
      var s := head + rest;
      assert s[0] == head[0] && s[1..] == head[1..] + rest;
      assert head[0] in head;
      NeutralisedPlain(head[1..], rest);
    }
  }

  /** The replacement leaves no `</`: it cannot create a new one. */
  lemma {:induction false} NoScriptEnd(s: string)
    ensures var out := Neutralised(s);
            && (forall i :: 0 <= i < |out| - 1 ==> !(out[i] == '<' && out[i + 1] == '/'))
            && (s != [] ==> out != [] && out[0] == s[0])
    decreases |s|
  {
    if s != [] {
      var out := Neutralised(s);
      if "</" <= s {
        NoScriptEnd(s[2..]);
        assert out == "<\\/" + Neutralised(s[2..]);
      } else {
        NoScriptEnd(s[1..]);
        assert out == [s[0]] + Neutralised(s[1..]);
        TagPrefix(s);
      }
    }
  }

  lemma JsonCharShape(c: char)
    ensures c != '<' ==> '<' !in JsonChar(c)
    ensures c != '/' ==> JsonChar(c)[0] != '/'
    ensures c == '<' || c == '/' ==> JsonChar(c) == [c]
  {
    if !(' ' <= c <= '~') {
      hide HexDigit;
      forall n: nat | n < 0x1_0000 ensures '<' !in UnicodeEscape(n) {
        HexIsPlain(n / 0x1000);
        HexIsPlain(n / 0x100 % 16);
        HexIsPlain(n / 16 % 16);
        HexIsPlain(n % 16);
      }
    }
  }

  lemma HexIsPlain(n: nat)
    requires n < 16
    ensures HexDigit(n) != '<'
  {
  }

  /** The string part of the payload, from any point on, reads back to the rest of the name. */
  lemma {:induction false} ServerRoundTrip(server: string)
    ensures ReadString(Neutralised(JsonChars(server) + PAYLOAD_TAIL)) == Some((server, "}"))
    decreases |server|
  {
    if server == [] {
      EmptyRead();
    } else if "</" <= server {
      ServerRoundTrip(server[2..]);
      TagRead(server);
    } else {
      ServerRoundTrip(server[1..]);
      PlainRead(server);
    }
  }

  lemma EmptyRead()
    ensures ReadString(Neutralised(JsonChars([]) + PAYLOAD_TAIL)) == Some(([], "}"))
  {
    assert JsonChars([]) + PAYLOAD_TAIL == PAYLOAD_TAIL;
    NeutralisedPlain(PAYLOAD_TAIL, []);
    assert PAYLOAD_TAIL + [] == PAYLOAD_TAIL;
    assert PAYLOAD_TAIL[1..] == "}";
  }

  lemma PlainRead(server: string)
    requires server != [] && !("</" <= server)
    requires ReadString(Neutralised(JsonChars(server[1..]) + PAYLOAD_TAIL)) == Some((server[1..], "}"))
    ensures ReadString(Neutralised(JsonChars(server) + PAYLOAD_TAIL)) == Some((server, "}"))
  {
    hide JsonChar, ReadChar, Neutralised, JsonChars, ReadString;
    var c := server[0];
    var rest := Neutralised(JsonChars(server[1..]) + PAYLOAD_TAIL);
    assert [c] + server[1..] == server;
    CharRoundTrip(c, rest);
    ReadFirst(JsonChar(c), c, rest);
    DumpedFirst(server);
    PlainStep(server);
  }

  lemma DumpedFirst(server: string)
    requires server != []
    ensures JsonChars(server) + PAYLOAD_TAIL == JsonChar(server[0]) + (JsonChars(server[1..]) + PAYLOAD_TAIL)
  {
    hide JsonChar;
  }

  lemma ReadFirst(w: string, c: char, rest: string)
    requires w != [] && w[0] != '"' && ReadChar(w + rest) == Some(Read(c, rest)) && ReadString(rest).Some?
    ensures ReadString(w + rest) == Some(([c] + ReadString(rest).value.0, ReadString(rest).value.1))
  {
    hide ReadChar;
    assert (w + rest)[0] == w[0];
  }

  lemma PlainStep(server: string)
    requires server != [] && !("</" <= server)
    ensures var after := JsonChars(server[1..]) + PAYLOAD_TAIL;
            Neutralised(JsonChar(server[0]) + after) == JsonChar(server[0]) + Neutralised(after)
  {
    var c := server[0];
    var after := JsonChars(server[1..]) + PAYLOAD_TAIL;
    JsonCharShape(c);
    if c == '<' {
      assert after[0] != '/' by {
        if |server| > 1 {
          JsonCharShape(server[1]);
          CharRoundTrip(server[1], "");
          assert after[0] == JsonChar(server[1])[0];
          TagPrefix(server);
        } else {
          assert after == PAYLOAD_TAIL;
        }
      }
      var s := [c] + after;
      TagPrefix(s);
      assert s[1] == after[0] && s[1..] == after;
    } else {
      NeutralisedPlain(JsonChar(c), after);
    }
  }

  lemma TagDumped(server: string)
    requires "</" <= server
    ensures JsonChars(server) == "</" + JsonChars(server[2..])
  {
    JsonCharShape('<');
    JsonCharShape('/');
    hide JsonChar;
    assert server[0] == '<' && server[1..][0] == '/' && server[1..][1..] == server[2..];
    assert JsonChars(server[1..]) == "/" + JsonChars(server[2..]);
  }

  lemma TagReplaced(rest: string)
    ensures Neutralised("</" + rest) == "<\\/" + Neutralised(rest)
  {
    assert ("</" + rest)[2..] == rest;
  }

  lemma TagWritten(server: string)
    requires "</" <= server
    ensures Neutralised(JsonChars(server) + PAYLOAD_TAIL) == "<\\/" + Neutralised(JsonChars(server[2..]) + PAYLOAD_TAIL)
  {
    hide Neutralised, JsonChars;
    var after := JsonChars(server[2..]) + PAYLOAD_TAIL;
    TagDumped(server);
    TagReplaced(after);
    assert JsonChars(server) + PAYLOAD_TAIL == "</" + after;
  }

  lemma TagReadBack(rest: string)
    ensures ReadChar("<\\/" + rest) == Some(Read('<', "\\/" + rest))
    ensures ReadChar("\\/" + rest) == Some(Read('/', rest))
  {
    var out, tail := "<\\/" + rest, "\\/" + rest;
    assert out[0] == '<' && out[1..] == tail;
    assert tail[0] == '\\' && tail[1] == '/' && tail[2..] == rest;
  }

  /** `</` is written `<\/`, which reads back as `</`. */
  lemma TagRead(server: string)
    requires "</" <= server
    requires ReadString(Neutralised(JsonChars(server[2..]) + PAYLOAD_TAIL)) == Some((server[2..], "}"))
    ensures ReadString(Neutralised(JsonChars(server) + PAYLOAD_TAIL)) == Some((server, "}"))
  {
    TagWritten(server);
    var rest := Neutralised(JsonChars(server[2..]) + PAYLOAD_TAIL);
    TagReadBack(rest);
    hide JsonChar, Neutralised, JsonChars, ReadChar;
    assert ReadString("\\/" + rest) == Some((['/'] + server[2..], "}"));
    assert ReadString("<\\/" + rest) == Some((['<'] + (['/'] + server[2..]), "}"));
    assert server == ['<'] + (['/'] + server[2..]);
  }

  predicate IsPlain(c: char) {
    ' ' <= c && c != '"' && c != '\\'
  }

  lemma PlainChar(c: char, tail: string)
    requires IsPlain(c)
    ensures ReadChar([c] + tail) == Some(Read(c, tail))
  {
    assert ([c] + tail)[1..] == tail;
  }

  lemma ClosingQuote(rest: string)
    ensures ReadString("\"" + rest) == Some(("", rest))
  {
    assert ("\"" + rest)[1..] == rest;
  }

  lemma FirstChar(text: string, end: string)
    requires text != []
    ensures text + end == [text[0]] + (text[1..] + end) && text == [text[0]] + text[1..]
    ensures text[0] in text && forall x :: x in text[1..] ==> x in text
  {
  }

  /** Text that needs no escape reads as it stands. */
  lemma {:induction false} PlainChars(text: string, rest: string)
    requires forall c :: c in text ==> IsPlain(c)
    ensures ReadString(text + ("\"" + rest)) == Some((text, rest))
  {
    hide ReadString, ReadChar;
    ClosingQuote(rest);
    if text == [] {
      assert text + ("\"" + rest) == "\"" + rest;
    } else {
      var end := "\"" + rest;
      FirstChar(text, end);
      PlainChars(text[1..], rest);
      PlainChar(text[0], text[1..] + end);
      ReadFirst([text[0]], text[0], text[1..] + end);
    }
  }

  lemma PlainText(text: string, rest: string)
    requires forall c :: c in text ==> IsPlain(c)
    ensures ReadQuoted("\"" + text + "\"" + rest) == Some((text, rest))
  {
    hide ReadString;
    PlainChars(text, rest);
    assert ("\"" + text + "\"" + rest)[1..] == text + ("\"" + rest);
  }

  lemma MemberText(name: string, tail: string)
    ensures ("\"" + name + "\"" + (": " + tail))[0] == '"'
    ensures "\"" + name + "\": " + tail == "\"" + name + "\"" + (": " + tail)
    ensures (": " + tail)[0] == ':' && (": " + tail)[1..] == " " + tail && (" " + tail)[1..] == tail
  {
  }

  /** A member with a plain name, its value read by the reader of strings. */
  lemma ReadNamed(name: string, tail: string, value: string, rest: string)
    requires forall c :: c in name ==> IsPlain(c)
    requires tail != [] && tail[0] == '"' && ReadQuoted(tail) == Some((value, rest))
    requires rest != [] && rest[0] !in " \t\n\r"
    ensures ReadMember("\"" + name + "\": " + tail) == Some((Member(name, value), rest))
  {
    var after := ": " + tail;
    var s := "\"" + name + "\"" + after;
    MemberText(name, tail);
    PlainText(name, after);
    hide ReadQuoted;
    assert SkipSpaces(" " + tail) == SkipSpaces(tail) == tail;
    assert SkipSpaces(s) == s && SkipSpaces(after) == after && SkipSpaces(rest) == rest;
  }

  lemma AfterSpace(s: string)
    requires s != [] && s[0] == '"'
    ensures ReadMember(" " + s) == ReadMember(s)
  {
    assert (" " + s)[1..] == s;
    assert SkipSpaces(" " + s) == s == SkipSpaces(s);
    hide ReadQuoted;
  }

  /** The last member of the payload, whose value is the escaped server name. */
  lemma ReadServerMember(server: string)
    ensures ReadMember(SERVER_MEMBER + Neutralised(JsonChars(server) + PAYLOAD_TAIL))
            == Some((Member("server", server), "}"))
  {
    var written := Neutralised(JsonChars(server) + PAYLOAD_TAIL);
    ServerRoundTrip(server);
    hide Neutralised, JsonChars, ReadString;
    var tail := "\"" + written;
    assert tail[1..] == written && ReadQuoted(tail) == Some((server, "}"));
    ReadNamed("server", tail, server, "}");
    hide ReadQuoted, ReadMember;
    AfterSpace("\"" + "server" + "\": " + tail);
    Regroup(" ", "\"" + "server" + "\": ", "\"", written);
  }

  lemma Regroup(a: string, b: string, c: string, d: string)
    ensures a + b + c + d == a + (b + (c + d))
  {
  }

  lemma {:induction false} JsonIsAscii(s: string)
    ensures forall c :: c in JsonChars(s) ==> ' ' <= c <= '~'
  {
    if s != [] {
      JsonIsAscii(s[1..]);
      CharIsAscii(s[0]);
      hide JsonChar;
    }
  }

  lemma CharIsAscii(c: char)
    ensures forall x :: x in JsonChar(c) ==> ' ' <= x <= '~'
  {
    forall n: nat, x | n < 0x1_0000 && x in UnicodeEscape(n) ensures ' ' <= x <= '~' {
      hide HexDigit;
      DigitIsAscii(n / 0x1000);
      DigitIsAscii(n / 0x100 % 16);
      DigitIsAscii(n / 16 % 16);
      DigitIsAscii(n % 16);
    }
    hide UnicodeEscape;
  }

  lemma DigitIsAscii(n: nat)
    requires n < 16
    ensures ' ' <= HexDigit(n) <= '~'
  {
  }

  lemma {:induction false} NeutralisedAscii(s: string)
    requires forall c :: c in s ==> ' ' <= c <= '~'
    ensures forall c :: c in Neutralised(s) ==> ' ' <= c <= '~'
    decreases |s|
  {
    if s != [] {
      assert s[0] in s;
      if "</" <= s {
        assert forall c :: c in s[2..] ==> c in s;
        NeutralisedAscii(s[2..]);
      } else {
        assert forall c :: c in s[1..] ==> c in s;
        NeutralisedAscii(s[1..]);
      }
    }
  }

  lemma PlainHead()
    ensures '<' !in PAYLOAD_HEAD
  {
  }

  lemma PayloadParts(server: string)
    ensures Payload(server) ==
            "{" + (TYPE_MEMBER + ("," + (SERVER_MEMBER + Neutralised(JsonChars(server) + PAYLOAD_TAIL))))
  {
    PlainHead();
    hide TYPE_MEMBER, SERVER_MEMBER, JsonChars, PAYLOAD_TAIL;
    var body := JsonChars(server) + PAYLOAD_TAIL;
    assert Dumped(server) == PAYLOAD_HEAD + body;
    NeutralisedPlain(PAYLOAD_HEAD, body);
    Regroup("{", TYPE_MEMBER, ",", SERVER_MEMBER + Neutralised(body));
    Regroup("{" + TYPE_MEMBER, ",", SERVER_MEMBER, Neutralised(body));
  }

  lemma ReadTwo(first: string, last: string, m1: Member, m2: Member)
    requires ReadMember(first + ("," + last)) == Some((m1, "," + last)) && ReadMember(last) == Some((m2, "}"))
    ensures ReadObject("{" + (first + ("," + last))) == Some((m1, m2))
  {
    hide ReadMember;
    assert ("{" + (first + ("," + last)))[1..] == first + ("," + last) && ("," + last)[1..] == last;
  }

  lemma ReadPlainMember(name: string, value: string, rest: string)
    requires forall c :: c in name ==> IsPlain(c)
    requires forall c :: c in value ==> IsPlain(c)
    requires rest != [] && rest[0] == ','
    ensures ReadMember("\"" + name + "\": " + ("\"" + value + "\"") + rest) == Some((Member(name, value), rest))
  {
    var tail := "\"" + value + "\"" + rest;
    PlainText(value, rest);
    hide ReadQuoted, ReadMember;
    ReadNamed(name, tail, value, rest);
    assert "\"" + name + "\": " + ("\"" + value + "\"") + rest == "\"" + name + "\": " + tail;
  }

  lemma ReadTypeMember(rest: string)
    requires rest != [] && rest[0] == ','
    ensures ReadMember(TYPE_MEMBER + rest) == Some((Member("type", "mcp-auth-complete"), rest))
  {
    hide ReadMember;
    ReadPlainMember("type", "mcp-auth-complete", rest);
  }

  lemma PayloadReads(server: string)
    ensures ReadObject(Payload(server)) == Some((Member("type", "mcp-auth-complete"), Member("server", server)))
  {
    hide Neutralised, JsonChars, ReadMember, ReadObject;
    PayloadParts(server);
    ReadServerMember(server);
    hide TYPE_MEMBER, SERVER_MEMBER, Payload;
    var last := SERVER_MEMBER + Neutralised(JsonChars(server) + PAYLOAD_TAIL);
    ReadTypeMember("," + last);
    ReadTwo(TYPE_MEMBER, last, Member("type", "mcp-auth-complete"), Member("server", server));
  }

  lemma DumpedIsAscii(server: string)
    ensures forall c :: c in Dumped(server) ==> ' ' <= c <= '~'
  {
    JsonIsAscii(server);
    hide JsonChars;
  }

  /** Script payload round trip: for every server name the payload is ASCII and holds no `</`, so it cannot
      close the script element, and it still decodes as a JSON object: the type of the message, and the
      original name. */
  lemma PayloadRoundTrip(server: string)
    ensures ReadObject(Payload(server)) == Some((Member("type", "mcp-auth-complete"), Member("server", server)))
    ensures var p := Payload(server);
            && (forall i :: 0 <= i < |p| - 1 ==> !(p[i] == '<' && p[i + 1] == '/'))
            && (forall c :: c in p ==> ' ' <= c <= '~')
  {
    PayloadReads(server);
    var d := Dumped(server);
    NoScriptEnd(d);
    DumpedIsAscii(server);
    hide Dumped, ReadObject;
    NeutralisedAscii(d);
    assert Payload(server) == Neutralised(d);
    hide Payload, Neutralised;
  }

  // ---------------------------------------------------------------------------
  // Comments.

  predicate HasComment(s: string) {
    s != [] && ("<!--" <= s || HasComment(s[1..]))
  }

  lemma {:induction false} CommentAfterPlain(head: string, rest: string)
    requires '<' !in head
    ensures HasComment(head + rest) <==> HasComment(rest)
  {
    if head == [] {
      assert head + rest == rest;
    } else {
      var s := head + rest;
      assert head[0] in head;
      assert s[0] == head[0] && s[1..] == head[1..] + rest;
      CommentAfterPlain(head[1..], rest);
    }
  }

  lemma CommentPrefix(s: string)
    ensures "<!--" <= s <==> |s| >= 4 && s[0] == '<' && s[1] == '!' && s[2] == '-' && s[3] == '-'
  {
  }

  function Written(server: string): string {
    Neutralised(JsonChars(server) + PAYLOAD_TAIL)
  }

  /** A plain character stands in the payload exactly where it stands in the name. */
  lemma PlainFirst(server: string, x: char)
    requires x == '!' || x == '-'
    ensures Written(server) != []
    ensures Written(server)[0] == x <==> server != [] && server[0] == x
    ensures server != [] && server[0] == x ==> Written(server)[1..] == Written(server[1..])
  {
    NoScriptEnd(JsonChars(server) + PAYLOAD_TAIL);
    if server != [] {
      var c := server[0];
      DumpedFirst(server);
      CharRoundTrip(c, "");
      FirstOfJson(c);
      if c == x {
        NeutralisedPlain([x], JsonChars(server[1..]) + PAYLOAD_TAIL);
      }
    } else {
      assert JsonChars(server) + PAYLOAD_TAIL == PAYLOAD_TAIL;
    }
  }

  lemma FirstOfJson(c: char)
    ensures JsonChar(c) != [] && (JsonChar(c)[0] == c || JsonChar(c)[0] == '\\')
    ensures c == '!' || c == '-' ==> JsonChar(c) == [c]
  {
  }

  /** After a kept `<` the payload goes on with a comment exactly when the name does. */
  lemma CommentAhead(server: string)
    ensures var w := Written(server);
            (|w| >= 3 && w[0] == '!' && w[1] == '-' && w[2] == '-') <==>
            (|server| >= 3 && server[0] == '!' && server[1] == '-' && server[2] == '-')
  {
    hide Written;
    PlainFirst(server, '!');
    if server != [] && server[0] == '!' {
      var s1 := server[1..];
      PlainFirst(s1, '-');
      assert Written(server)[1..] == Written(s1);
      if s1 != [] && s1[0] == '-' {
        PlainFirst(s1[1..], '-');
        assert Written(s1)[1..] == Written(s1[1..]);
      }
    }
  }

  /** The replacement neutralises `</` and nothing else: the written name holds `<!--` exactly when the name
      does. */
  lemma {:induction false} CommentWritten(server: string)
    ensures HasComment(Written(server)) <==> HasComment(server)
    decreases |server|
  {
    if server == [] {
      assert JsonChars([]) + PAYLOAD_TAIL == PAYLOAD_TAIL;
      NeutralisedPlain(PAYLOAD_TAIL, []);
      CommentAfterPlain(PAYLOAD_TAIL, []);
    } else if "</" <= server {
      CommentWritten(server[2..]);
      TagWritten(server);
      TagIsNoComment(server);
      BrokenTagIsNoComment(Written(server[2..]));
    } else {
      CommentWritten(server[1..]);
      CommentStep(server);
    }
  }

  lemma TagIsNoComment(server: string)
    requires "</" <= server
    ensures HasComment(server) <==> HasComment(server[2..])
  {
    TagPrefix(server);
    CommentPrefix(server);
    assert server[1..][1..] == server[2..] && server[1..][0] == '/';
  }

  lemma BrokenTagIsNoComment(rest: string)
    ensures HasComment("<\\/" + rest) <==> HasComment(rest)
  {
    var s := "<\\/" + rest;
    CommentPrefix(s);
    assert s[1] == '\\' && s[1..] == "\\/" + rest;
    CommentAfterPlain("\\/", rest);
  }

  lemma CommentStep(server: string)
    requires server != [] && !("</" <= server)
    requires HasComment(Written(server[1..])) <==> HasComment(server[1..])
    ensures HasComment(Written(server)) <==> HasComment(server)
  {
    var c, rest := server[0], Written(server[1..]);
    DumpedFirst(server);
    PlainStep(server);
    assert Written(server) == JsonChar(c) + rest;
    JsonCharShape(c);
    CommentPrefix(server);
    if c == '<' {
      CommentAhead(server[1..]);
      CommentPrefix(Written(server));
      assert Written(server)[1..] == rest;
    } else {
      CommentAfterPlain(JsonChar(c), rest);
    }
  }

  /** The payload holds no `<!--` exactly when the server name holds none. */
  lemma PayloadComment(server: string)
    ensures HasComment(Payload(server)) <==> HasComment(server)
  {
    var body := JsonChars(server) + PAYLOAD_TAIL;
    PlainHead();
    assert Dumped(server) == PAYLOAD_HEAD + body;
    NeutralisedPlain(PAYLOAD_HEAD, body);
    CommentAfterPlain(PAYLOAD_HEAD, Neutralised(body));
    CommentWritten(server);
  }
}
