/** The hclog JSON line printer, and a reader of JSON strings (section 7 of RFC 8259). */
module Log {
  import opened Wrappers

  // --- printing ---------------------------------------------------------------

  const HEX := "0123456789abcdef"

  /** How one character is written inside a JSON string. */
  function EscapeOf(c: char): string {
    if c == '"' then "\\\""
    else if c == '\\' then "\\\\"
    else if c == '\n' then "\\n"
    else if c == '\r' then "\\r"
    else if c == '\t' then "\\t"
    else if c < ' ' then "\\u" + ("00" + [HEX[c as int / 16], HEX[c as int % 16]])
    else [c]
  }

  function Escaped(raw: string): string {
    if raw == "" then "" else EscapeOf(raw[0]) + Escaped(raw[1..])
  }

  function Quoted(raw: string): string { "\"" + Escaped(raw) + "\"" }

  /** A string still open, with the first `i` characters written. */
  function Open(raw: string, i: nat): string
    requires i <= |raw|
  {
    "\"" + Escaped(raw[..i])
  }

  lemma {:induction false} EscapedAppend(front: string, c: char)
    ensures Escaped(front + [c]) == Escaped(front) + EscapeOf(c)
  {
    if front == "" {
      assert front + [c] == [c];
      assert Escaped([c]) == EscapeOf(c) + Escaped([c][1..]) == EscapeOf(c);
    } else {
      assert (front + [c])[1..] == front[1..] + [c];
      EscapedAppend(front[1..], c);
    }
  }

  lemma {:induction false} OpenMore(raw: string, i: nat)
    requires i < |raw|
    ensures Open(raw, i + 1) == Open(raw, i) + EscapeOf(raw[i])
  {
    assert raw[..i + 1] == raw[..i] + [raw[i]];
    EscapedAppend(raw[..i], raw[i]);
  }

  lemma {:induction false} OpenDone(raw: string)
    ensures Open(raw, 0) == "\"" && Open(raw, |raw|) + "\"" == Quoted(raw)
  {
    assert raw[..|raw|] == raw;
  }

  /** `json_string`. */
  method JsonString(raw: string) returns (s: string)
    ensures s == Quoted(raw)
  {
    OpenDone(raw);
    s := "\"";
    for i := 0 to |raw|
      invariant s == Open(raw, i)
    {
      OpenMore(raw, i);
      s := s + EscapeOf(raw[i]);
    }
    s := s + "\"";
  }

  type Member = (string, string)

  function MemberText(m: Member): string { Quoted(m.0) + ":" + m.1 }

  function MembersText(ms: seq<Member>): string {
    if ms == [] then "" else "," + MemberText(ms[0]) + MembersText(ms[1..])
  }

  /** The members of a line: the core fields, then the event's own. */
  function LineMembers(
    level: string, name: string, timestamp: string, message: string, fields: seq<Member>): (ms: seq<Member>)
    ensures |ms| == 4 + |fields| && forall i | 0 <= i < |fields| :: ms[4 + i] == fields[i]
    ensures ms[0] == ("@level", Quoted(level)) && ms[1] == ("@message", Quoted(message))
    ensures ms[2] == ("@module", Quoted(name)) && ms[3] == ("@timestamp", Quoted(timestamp))
  {
    [("@level", Quoted(level)), ("@message", Quoted(message)), ("@module", Quoted(name)),
     ("@timestamp", Quoted(timestamp))]
    + fields
  }

  /** The object so far, its first `n` members written. */
  function LineSoFar(ms: seq<Member>, n: nat): string
    requires 0 < n <= |ms|
  {
    "{" + MemberText(ms[0]) + MembersText(ms[1..n])
  }

  function ObjectText(ms: seq<Member>): string
    requires ms != []
  {
    LineSoFar(ms, |ms|) + "}"
  }

  lemma {:induction false} MembersAppend(front: seq<Member>, m: Member)
    ensures MembersText(front + [m]) == MembersText(front) + ("," + MemberText(m))
  {
    if front == [] {
      assert front + [m] == [m];
      assert MembersText([m]) == "," + MemberText(m) + MembersText([m][1..]);
    } else {
      assert (front + [m])[1..] == front[1..] + [m];
      MembersAppend(front[1..], m);
    }
  }

  lemma {:induction false} LineMore(ms: seq<Member>, n: nat)
    requires 0 < n < |ms|
    ensures LineSoFar(ms, n + 1) == LineSoFar(ms, n) + ("," + MemberText(ms[n]))
  {
    assert ms[1..n + 1] == ms[1..n] + [ms[n]];
    MembersAppend(ms[1..n], ms[n]);
  }

  lemma {:induction false} LineStart(ms: seq<Member>)
    requires ms != []
    ensures LineSoFar(ms, 1) == "{" + MemberText(ms[0])
  {
    assert ms[1..1] == [];
  }

  method PushMember(line: string, key: string, value: string) returns (s: string)
    ensures s == line + ("," + MemberText((key, value)))
  {
    var k := JsonString(key);
    s := line + ("," + (k + ":" + value));
  }

  /** `build_line`. */
  method BuildLine(level: string, name: string, timestamp: string, message: string, fields: seq<Member>)
    returns (s: string)
    ensures s == ObjectText(LineMembers(level, name, timestamp, message, fields))
  {
    ghost var ms := LineMembers(level, name, timestamp, message, fields);
    LineStart(ms);
    LineMore(ms, 1);
    LineMore(ms, 2);
    LineMore(ms, 3);
    var text := JsonString(level);
    var key := JsonString("@level");
    s := "{" + (key + ":" + text);
    text := JsonString(message);
    s := PushMember(s, "@message", text);
    text := JsonString(name);
    s := PushMember(s, "@module", text);
    text := JsonString(timestamp);
    s := PushMember(s, "@timestamp", text);
    for i := 0 to |fields|
      invariant s == LineSoFar(ms, 4 + i)
    {
      LineMore(ms, 4 + i);
      s := PushMember(s, fields[i].0, fields[i].1);
    }
    s := s + "}";
  }

  // --- reading ----------------------------------------------------------------

  function HexValue(c: char): Option<nat> {
    if '0' <= c <= '9' then Some(c as int - '0' as int)
    else if 'a' <= c <= 'f' then Some(c as int - 'a' as int + 10)
    else if 'A' <= c <= 'F' then Some(c as int - 'A' as int + 10)
    else None
  }

  /** Four hexadecimal digits. */
  function Hex4(s: string): Option<nat> {
    if |s| < 4 then None
    else
      match (HexValue(s[0]), HexValue(s[1]), HexValue(s[2]), HexValue(s[3]))
      case (Some(a), Some(b), Some(c), Some(d)) => Some(((a * 16 + b) * 16 + c) * 16 + d)
      case _ => None
  }

  predicate High(n: nat) { 0xD800 <= n < 0xDC00 }

  predicate Low(n: nat) { 0xDC00 <= n < 0xE000 }

  /** The character after `\u`: four digits, or a surrogate pair of two such escapes. */
  function ReadUnicode(s: string): (r: Option<(char, string)>)
    ensures r.Some? ==> |r.value.1| < |s|
  {
    match Hex4(s)
    case None => None
    case Some(n) =>
      if n < 0xD800 || 0xE000 <= n < 0x10000 then Some((n as char, s[4..]))
      else if High(n) && |s| >= 10 && s[4] == '\\' && s[5] == 'u' && Hex4(s[6..]).Some? && Low(Hex4(s[6..]).value) then
        Some(((0x10000 + (n - 0xD800) * 0x400 + (Hex4(s[6..]).value - 0xDC00)) as char, s[10..]))
      else None
  }

  /** The character after a backslash. */
  function ReadEscape(s: string): (r: Option<(char, string)>)
    ensures r.Some? ==> |r.value.1| < |s|
  {
    if s == "" then None
    else if s[0] == '"' || s[0] == '\\' || s[0] == '/' then Some((s[0], s[1..]))
    else if s[0] == 'b' then Some((8 as char, s[1..]))
    else if s[0] == 'f' then Some((12 as char, s[1..]))
    else if s[0] == 'n' then Some(('\n', s[1..]))
    else if s[0] == 'r' then Some(('\r', s[1..]))
    else if s[0] == 't' then Some(('\t', s[1..]))
    else if s[0] == 'u' then ReadUnicode(s[1..])
    else None
  }

  /** The rest of a string after its opening quote; control characters must be escaped. */
  function ReadBody(s: string): Option<(string, string)>
    decreases |s|
  {
    if s == "" then None
    else if s[0] == '"' then Some(("", s[1..]))
    else if s[0] == '\\' then
      (match ReadEscape(s[1..])
       case None => None
       case Some((c, rest)) => Prepend(c, ReadBody(rest)))
    else if s[0] < ' ' then None
    else Prepend(s[0], ReadBody(s[1..]))
  }

  /** A JSON string at the front of `s`: its text and what follows it. */
  function ReadString(s: string): Option<(string, string)> {
    if s == "" || s[0] != '"' then None else ReadBody(s[1..])
  }

  lemma {:induction false} HexRead(n: nat)
    requires n < 16
    ensures HexValue(HEX[n]) == Some(n)
  {
  }

  lemma {:induction false} ControlRead(c: char, rest: string)
    requires c < ' '
    ensures ReadUnicode("00" + [HEX[c as int / 16], HEX[c as int % 16]] + rest) == Some((c, rest))
  {
    var s := "00" + [HEX[c as int / 16], HEX[c as int % 16]] + rest;
    HexRead(c as int / 16);
    HexRead(c as int % 16);
    assert s[4..] == rest;
  }

  lemma {:induction false} ControlEscapeRead(digits: string, c: char, rest: string)
    requires c < ' ' && digits == "00" + [HEX[c as int / 16], HEX[c as int % 16]]
    ensures ReadBody("\\u" + digits + rest) == Prepend(c, ReadBody(rest))
  {
    var s := "\\u" + digits + rest;
    ControlRead(c, rest);
    assert s[1..] == "u" + (digits + rest);
    assert s[1..][1..] == digits + rest;
  }

  /** Reading what one character was written as. */
  lemma {:induction false} EscapeRead(c: char, rest: string)
    ensures ReadBody(EscapeOf(c) + rest) == Prepend(c, ReadBody(rest))
  {
    var s := EscapeOf(c) + rest;
    if c < ' ' && c != '\n' && c != '\r' && c != '\t' {
      ControlEscapeRead("00" + [HEX[c as int / 16], HEX[c as int % 16]], c, rest);
    } else if c == '"' || c == '\\' || c < ' ' {
      assert s[1..][1..] == rest;
    } else {
      assert s[1..] == rest;
    }
  }

  lemma {:induction false} EscapedRead(raw: string, rest: string)
    ensures ReadBody(Escaped(raw) + "\"" + rest) == Some((raw, rest))
  {
    if raw == "" {
      assert Escaped(raw) + "\"" + rest == "\"" + rest;
    } else {
      var tail := Escaped(raw[1..]) + "\"" + rest;
      assert Escaped(raw) + "\"" + rest == EscapeOf(raw[0]) + tail;
      EscapeRead(raw[0], tail);
      EscapedRead(raw[1..], rest);
      assert raw == [raw[0]] + raw[1..];
    }
  }

  /** Reading back what `json_string` wrote gives the text and stops at its end. */
  lemma {:induction false} QuotedRead(raw: string, rest: string)
    ensures ReadString(Quoted(raw) + rest) == Some((raw, rest))
  {
    assert (Quoted(raw) + rest)[1..] == Escaped(raw) + "\"" + rest;
    EscapedRead(raw, rest);
  }

  /** Nothing below a space is written raw, so no newline either. */
  lemma {:induction false} EscapedPrintable(raw: string)
    ensures forall c | c in Escaped(raw) :: c >= ' '
  {
    if raw != "" {
      EscapedPrintable(raw[1..]);
      EscapePrintable(raw[0]);
    }
  }

  lemma {:induction false} EscapePrintable(c: char)
    ensures forall d | d in EscapeOf(c) :: d >= ' '
  {
    if c == '"' || c == '\\' || c == '\n' || c == '\r' || c == '\t' {
      assert |EscapeOf(c)| == 2;
    } else if c < ' ' {
      HexPrintable(HEX[c as int / 16], HEX[c as int % 16]);
    }
  }

  lemma {:induction false} HexPrintable(a: char, b: char)
    requires a >= ' ' && b >= ' '
    ensures forall d | d in "\\u" + ("00" + [a, b]) :: d >= ' '
  {
  }

  // --- lines ------------------------------------------------------------------

  /** The characters of numbers and of the literal names. */
  predicate Plain(c: char) {
    '0' <= c <= '9' || 'a' <= c <= 'z' || 'A' <= c <= 'Z' || c == '-' || c == '+' || c == '.'
  }

  /** A value as the visitor pushes it: a quoted string, or a number or literal name. */
  ghost predicate Token(v: string) { v != "" && ((exists s :: v == Quoted(s)) || forall c | c in v :: Plain(c)) }

  function PlainRun(s: string): (n: nat)
    ensures n <= |s| && (forall i | 0 <= i < n :: Plain(s[i])) && (n < |s| ==> !Plain(s[n]))
  {
    if s == "" || !Plain(s[0]) then 0 else 1 + PlainRun(s[1..])
  }

  /** One value at the front of `s`, as written. */
  function ReadToken(s: string): Option<(string, string)> {
    if s != "" && s[0] == '"' then
      match ReadString(s)
      case None => None
      case Some((_, rest)) => if |rest| <= |s| then Some((s[..|s| - |rest|], rest)) else None
    else if PlainRun(s) == 0 then None
    else Some((s[..PlainRun(s)], s[PlainRun(s)..]))
  }

  /** One member at the front of `s`: key, colon, value. */
  function ReadMember(s: string): Option<(Member, string)> {
    match ReadString(s)
    case None => None
    case Some((key, after)) =>
      if after == "" || after[0] != ':' then None
      else
        match ReadToken(after[1..])
        case None => None
        case Some((value, rest)) => Some(((key, value), rest))
  }

  /** Further members up to the closing brace, which ends the text. */
  function ReadMembers(s: string): Option<seq<Member>>
    decreases |s|
  {
    if s == "}" then Some([])
    else if s == "" || s[0] != ',' then None
    else
      match ReadMember(s[1..])
      case None => None
      case Some((m, rest)) => if |rest| >= |s| then None else Consed(m, ReadMembers(rest))
  }

  function Consed(m: Member, r: Option<seq<Member>>): Option<seq<Member>> {
    match r
    case None => None
    case Some(ms) => Some([m] + ms)
  }

  function ReadLine(line: string): Option<seq<Member>> {
    if line == "" || line[0] != '{' then None
    else
      match ReadMember(line[1..])
      case None => None
      case Some((m, rest)) => Consed(m, ReadMembers(rest))
  }

  lemma {:induction false} TokenRead(v: string, rest: string)
    requires Token(v) && rest != "" && !Plain(rest[0])
    ensures ReadToken(v + rest) == Some((v, rest))
  {
    var s := v + rest;
    if t :| v == Quoted(t) {
      QuotedRead(t, rest);
      assert s[..|s| - |rest|] == v;
    } else {
      assert v[0] in v;
      assert forall i | 0 <= i < |v| :: s[i] == v[i] && v[i] in v;
      assert s[|v|] == rest[0];
      assert PlainRun(s) == |v|;
      assert s[..|v|] == v && s[|v|..] == rest;
    }
  }

  lemma {:induction false} MemberSplit(quoted: string, key: string, v: string, rest: string)
    requires ReadString(quoted + (":" + (v + rest))) == Some((key, ":" + (v + rest)))
    requires ReadToken(v + rest) == Some((v, rest))
    ensures ReadMember(quoted + ":" + v + rest) == Some(((key, v), rest))
  {
    var after := ":" + (v + rest);
    AfterFirst(":", v + rest);
    Associates(quoted + ":", v, rest);
    Associates(quoted, ":", v + rest);
    MemberParts(quoted + after, key, after, v, rest);
  }

  lemma {:induction false} Associates(a: string, b: string, c: string)
    ensures a + b + c == a + (b + c)
  {
  }

  lemma {:induction false} AfterFirst(c: string, s: string)
    requires |c| == 1
    ensures (c + s)[0] == c[0] && (c + s)[1..] == s
  {
  }

  lemma {:induction false} MemberParts(s: string, key: string, after: string, v: string, rest: string)
    requires ReadString(s) == Some((key, after)) && after != "" && after[0] == ':'
    requires ReadToken(after[1..]) == Some((v, rest))
    ensures ReadMember(s) == Some(((key, v), rest))
  {
  }

  lemma {:induction false} MemberRead(m: Member, rest: string)
    requires Token(m.1) && rest != "" && !Plain(rest[0])
    ensures ReadMember(MemberText(m) + rest) == Some((m, rest))
  {
    QuotedRead(m.0, ":" + (m.1 + rest));
    TokenRead(m.1, rest);
    MemberSplit(Quoted(m.0), m.0, m.1, rest);
  }

  /** A comma, a member and the rest of the line. */
  lemma {:induction false} CommaRead(text: string, m: Member, rest: string, tail: string)
    requires ReadMember(text + (rest + tail)) == Some((m, rest + tail))
    ensures ReadMembers("," + text + rest + tail) == Consed(m, ReadMembers(rest + tail))
    ensures ReadLine("{" + text + rest + tail) == Consed(m, ReadMembers(rest + tail))
  {
    var s, l := "," + text + rest + tail, "{" + text + rest + tail;
    assert s[1..] == l[1..] == text + (rest + tail);
    assert s[0] == ',' && l[0] == '{' && |s| > |rest + tail|;
  }

  /** What follows a member starts with a comma or is the brace. */
  lemma {:induction false} TailStarts(ms: seq<Member>)
    ensures MembersText(ms) + "}" != "" && !Plain((MembersText(ms) + "}")[0])
  {
    if ms != [] { assert MembersText(ms)[0] == ','; }
  }

  lemma {:induction false} MembersRead(ms: seq<Member>)
    requires forall i | 0 <= i < |ms| :: Token(ms[i].1)
    ensures ReadMembers(MembersText(ms) + "}") == Some(ms)
  {
    if ms == [] {
      assert "" + "}" == "}";
    } else {
      MembersRead(ms[1..]);
      TailStarts(ms[1..]);
      MemberRead(ms[0], MembersText(ms[1..]) + "}");
      CommaRead(MemberText(ms[0]), ms[0], MembersText(ms[1..]), "}");
      HeadAndTail(ms);
    }
  }

  lemma {:induction false} HeadAndTail(ms: seq<Member>)
    requires ms != []
    ensures Consed(ms[0], Some(ms[1..])) == Some(ms)
  {
    assert [ms[0]] + ms[1..] == ms;
  }

  /** A line of valid tokens reads back as exactly its members, in order. */
  lemma {:induction false} LineRead(ms: seq<Member>)
    requires ms != [] && forall i | 0 <= i < |ms| :: Token(ms[i].1)
    ensures ReadLine(ObjectText(ms)) == Some(ms)
  {
    MembersRead(ms[1..]);
    TailStarts(ms[1..]);
    MemberRead(ms[0], MembersText(ms[1..]) + "}");
    CommaRead(MemberText(ms[0]), ms[0], MembersText(ms[1..]), "}");
    HeadAndTail(ms);
    LineParts(ms);
  }

  lemma {:induction false} LineParts(ms: seq<Member>)
    requires ms != []
    ensures ObjectText(ms) == "{" + MemberText(ms[0]) + MembersText(ms[1..]) + "}"
  {
    assert ms[1..|ms|] == ms[1..];
  }

  predicate Printable(s: string) { forall c | c in s :: c >= ' ' }

  lemma {:induction false} MemberPrintable(m: Member)
    requires Token(m.1)
    ensures Printable(MemberText(m))
  {
    EscapedPrintable(m.0);
    if t :| m.1 == Quoted(t) { EscapedPrintable(t); }
  }

  lemma {:induction false} MembersPrintable(ms: seq<Member>)
    requires forall i | 0 <= i < |ms| :: Token(ms[i].1)
    ensures Printable(MembersText(ms))
  {
    if ms != [] {
      MemberPrintable(ms[0]);
      MembersPrintable(ms[1..]);
    }
  }

  lemma {:induction false} ObjectPrintable(ms: seq<Member>)
    requires ms != [] && forall i | 0 <= i < |ms| :: Token(ms[i].1)
    ensures Printable(ObjectText(ms))
  {
    MemberPrintable(ms[0]);
    MembersPrintable(ms[1..]);
    assert ms[1..|ms|] == ms[1..];
  }

  /** The core values are tokens by construction. */
  lemma {:induction false} LineTokens(
    level: string, name: string, timestamp: string, message: string, fields: seq<Member>)
    requires forall i | 0 <= i < |fields| :: Token(fields[i].1)
    ensures var ms := LineMembers(level, name, timestamp, message, fields); forall i | 0 <= i < |ms| :: Token(ms[i].1)
  {
    var ms := LineMembers(level, name, timestamp, message, fields);
    forall i | 0 <= i < |ms| ensures Token(ms[i].1) {
      if i >= 4 { assert ms[4 + (i - 4)] == fields[i - 4]; }
    }
  }

  /** Every line reads back as the core fields and then the event's own, in order, and
      is a single line whatever the texts in it. */
  lemma {:induction false} BuiltLineReads(
    level: string, name: string, timestamp: string, message: string, fields: seq<Member>)
    requires forall i | 0 <= i < |fields| :: Token(fields[i].1)
    ensures var ms := LineMembers(level, name, timestamp, message, fields);
            ReadLine(ObjectText(ms)) == Some(ms) && Printable(ObjectText(ms))
  {
    LineTokens(level, name, timestamp, message, fields);
    LineRead(LineMembers(level, name, timestamp, message, fields));
    ObjectPrintable(LineMembers(level, name, timestamp, message, fields));
  }
}
