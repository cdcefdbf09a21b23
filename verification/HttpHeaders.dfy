/**
 * Generating and parsing the header of an HTTP request
 * (src/net/NetHttpContent.cpp, section 4.2 of RFC 1945), and the round trip of
 * a whole request, form included.
 */
module HttpHeaders {
  import opened Collections
  import opened FormEncoding
  import opened HttpFraming
  import opened Tokenizer

  const ENDL := "\r\n"
  const CONTENT_LENGTH := "Content-Length"
  const CONTENT_TYPE := "Content-Type"
  const FORM := "application/x-www-form-urlencoded"

  datatype Field = Field(key: string, value: string)

  // ---------------------------------------------------------------- numbers

  function Digit(n: nat): (c: char)
    requires n < 10
    ensures '0' <= c <= '9'
  {
    '0' + n as char
  }

  /** A number printed in decimal. */
  function Decimal(n: nat): (s: string)
    ensures s != "" && forall c | c in s :: '0' <= c <= '9'
  {
    if n < 10 then [Digit(n)] else Decimal(n / 10) + [Digit(n % 10)]
  }

  /** The digits at the front of a text, read onto `sofar`. */
  function ReadDigits(s: string, sofar: nat): nat {
    if s == "" || !('0' <= s[0] <= '9') then sofar
    else ReadDigits(s[1..], 10 * sofar + (s[0] as nat - '0' as nat))
  }

  predicate Blank(c: char) {
    c == ' ' || '\t' <= c <= '\r'
  }

  /** atoi: blanks, a sign, digits; anything after those is ignored. */
  function ToInt(s: string): int {
    if s == "" then 0
    else if Blank(s[0]) then ToInt(s[1..])
    else if s[0] == '-' then 0 - ReadDigits(s[1..], 0)
    else if s[0] == '+' then ReadDigits(s[1..], 0)
    else ReadDigits(s, 0)
  }

  lemma {:induction false} ReadDigitsAppend(a: string, c: char, sofar: nat)
    requires '0' <= c <= '9' && forall x | x in a :: '0' <= x <= '9'
    ensures ReadDigits(a + [c], sofar) == 10 * ReadDigits(a, sofar) + (c as nat - '0' as nat)
  {
    if a == "" {
      assert (a + [c])[1..] == "";
    } else {
      assert a[0] in a && forall x | x in a[1..] :: x in a;
      assert (a + [c])[1..] == a[1..] + [c];
      ReadDigitsAppend(a[1..], c, 10 * sofar + (a[0] as nat - '0' as nat));
    }
  }

  lemma {:induction false} DecimalReads(n: nat)
    ensures ReadDigits(Decimal(n), 0) == n
  {
    if n < 10 {
      assert Decimal(n)[1..] == "";
    } else {
      DecimalReads(n / 10);
      ReadDigitsAppend(Decimal(n / 10), Digit(n % 10), 0);
    }
  }

  function Printed(i: int): string {
    if i < 0 then "-" + Decimal(-i) else Decimal(i)
  }

  lemma PrintedShape(i: int)
    ensures Printed(i) != "" && forall c | c in Printed(i) :: '0' <= c <= '9' || c == '-'
  {
  }

  /** Reading a printed number gives it back. */
  lemma ToIntUndoes(i: int)
    ensures ToInt(Printed(i)) == i
  {
    if i < 0 {
      assert Printed(i)[1..] == Decimal(-i);
      DecimalReads(-i);
    } else {
      assert Decimal(i)[0] in Decimal(i);
      DecimalReads(i);
    }
  }

  /** A size converted to a 32-bit int. */
  function Int32(n: nat): int {
    (n + 0x8000_0000) % 0x1_0000_0000 - 0x8000_0000
  }

  lemma Int32Fits(n: nat)
    ensures Int32(n) == n <==> n < 0x8000_0000
  {
  }

  // ---------------------------------------------------------------- fields

  /** The text from its first non-space on; a text of spaces stays as it is. */
  function TrimFront(s: string): string {
    if HasText(s) && s[0] == ' ' then TrimFront(s[1..]) else s
  }

  function TrimBack(s: string): string {
    if s != "" && s[|s| - 1] == ' ' then TrimBack(s[..|s| - 1]) else s
  }

  /** Something other than spaces; trimming a text of spaces at the back is undefined. */
  predicate HasText(s: string) {
    exists i | 0 <= i < |s| :: s[i] != ' '
  }

  function Trim(s: string): string {
    TrimBack(TrimFront(s))
  }

  function Lower(c: char): char {
    if 'A' <= c <= 'Z' then c - 'A' + 'a' else c
  }

  predicate Caseless(a: string, b: string) {
    |a| == |b| && forall i | 0 <= i < |a| :: Lower(a[i]) == Lower(b[i])
  }

  /** Keys are compared letter by letter without case, and in no other way loosely. */
  lemma CaselessSpells(a: string, b: string)
    ensures Caseless(a, b) <==> Spells(a, b)
  {
    if |a| == |b| {
      forall i | 0 <= i < |a|
        ensures Lower(a[i]) == Lower(b[i]) <==> SameLetter(a[i], b[i])
      {
      }
    }
  }

  predicate OccursAt(s: string, part: string, i: nat) {
    i + |part| <= |s| && s[i..i + |part|] == part
  }

  predicate Contains(s: string, part: string) {
    exists i: nat | i <= |s| :: OccursAt(s, part, i)
  }

  /** A content type is a form's, or has no parameter, or one with a '='. */
  predicate MimeParses(value: string) {
    || Contains(value, FORM)
    || IndexOf(value, ';') < 0
    || IndexOf(value[IndexOf(value, ';') + 1..], '=') >= 0
  }

  /** parseOneHeader; None when it fails or trimming is undefined. */
  function ParseField(line: string): Option<Field> {
    var p := IndexOf(line, ':');
    if p < 0 then None
    else
      var key, value := line[..p], line[p + 1..];
      if (key != "" && !HasText(key)) || (value != "" && !HasText(value)) then None
      else if Caseless(Trim(key), CONTENT_TYPE) && !MimeParses(Trim(value)) then None
      else Some(Field(Trim(key), Trim(value)))
  }

  function ParseFields(lines: seq<string>): Option<seq<Field>> {
    if lines == [] then Some([])
    else
      match (ParseField(lines[0]), ParseFields(lines[1..]))
      case (Some(f), Some(fs)) => Some([f] + fs)
      case _ => None
  }

  /** The value stored last under a key, whatever its case; empty when there is none. */
  function Lookup(fields: seq<Field>, key: string): string {
    if fields == [] then ""
    else
      var last := fields[|fields| - 1];
      if Caseless(last.key, key) then last.value else Lookup(fields[..|fields| - 1], key)
  }

  /** parseCommand, for requests and responses. */
  predicate CommandParses(command: string) {
    var words := Tokens(command, " ", true);
    && words != []
    && if words[0] == "POST" then |words| > 2 && words[1] != "" && '/' in words[2]
       else |words[0]| >= 4 && words[0][..4] == "HTTP" && '/' in words[0] && |words| > 1 && words[1] != ""
  }

  /** parseHeader: the fields of a header text. */
  function ParseHeader(header: string): Option<seq<Field>> {
    var lines := Tokens(header, ENDL, true);
    if lines == [] || !CommandParses(lines[0]) then None else ParseFields(lines[1..])
  }

  /** The announced length of the body; none when the header does not parse. */
  function ContentLength(header: string): Option<int> {
    match ParseHeader(header)
    case None => None
    case Some(fields) => Some(ToInt(Lookup(fields, CONTENT_LENGTH)))
  }

  /** The body of this header is taken for a form. */
  predicate AnnouncesForm(header: string) {
    match ParseHeader(header)
    case None => false
    case Some(fields) => exists i | 0 <= i < |fields| ::
      Caseless(fields[i].key, CONTENT_TYPE) && Contains(fields[i].value, FORM)
  }

  // ---------------------------------------------------------------- generating

  function Line(f: Field): string {
    f.key + [':'] + (" " + f.value)
  }

  /** generateHeader: each field on a line of its own. */
  function FieldLines(fields: seq<Field>): string {
    if fields == [] then ""
    else FieldLines(fields[..|fields| - 1]) + Line(fields[|fields| - 1]) + ENDL
  }

  function Command(path: string, version: string): string {
    "POST" + [' '] + (path + [' '] + ("HTTP/" + version))
  }

  /** What generate makes of a request, up to the blank line. */
  function HeaderText(path: string, version: string, fields: seq<Field>, length: int): string {
    Command(path, version) + ENDL + FieldLines(fields) + Line(Field(CONTENT_LENGTH, Printed(length)))
  }

  method GenerateHeader(fields: seq<Field>) returns (headers: string)
    ensures headers == FieldLines(fields)
  {
    headers := "";
    for i := 0 to |fields|
      invariant headers == FieldLines(fields[..i])
    {
      ghost var before := headers;
      headers := headers + fields[i].key;
      headers := headers + ":";
      headers := headers + " ";
      headers := headers + fields[i].value;
      headers := headers + ENDL;
      assert fields[..i + 1][..i] == fields[..i];
      assert headers == before + Line(fields[i]) + ENDL;
    }
    assert fields[..|fields|] == fields;
  }

  // ---------------------------------------------------------------- lines

  /** Text without line ends, and some. */
  predicate IsLine(s: string) {
    s != "" && '\r' !in s && '\n' !in s
  }

  function Join(lines: seq<string>): string {
    if lines == [] then ""
    else if |lines| == 1 then lines[0]
    else lines[0] + ENDL + Join(lines[1..])
  }

  predicate AllLines(lines: seq<string>) {
    lines != [] && forall i | 0 <= i < |lines| :: IsLine(lines[i])
  }

  lemma LineEndFields(a: string, b: string)
    ensures Fields(a + ENDL + b, ENDL) == Fields(a, ENDL) + ([""] + Fields(b, ENDL))
  {
    FieldsAtDelimiter("", '\n', b, ENDL);
    assert "" + ['\n'] + b == ['\n'] + b;
    FieldsAtDelimiter(a, '\r', ['\n'] + b, ENDL);
    assert a + ['\r'] + (['\n'] + b) == a + ENDL + b;
    assert Fields("", ENDL) == [""];
  }

  /** Joined lines, cut at line ends and stripped of empty fields, are the lines. */
  lemma {:induction false} JoinedFields(lines: seq<string>)
    requires AllLines(lines)
    ensures NonEmpty(Fields(Join(lines), ENDL)) == lines
    ensures Join(lines) != "" && Join(lines)[0] == lines[0][0]
  {
    hide Fields;
    var first := lines[0];
    assert IsLine(first);
    NoDelimiterOneField(first, ENDL);
    if |lines| > 1 {
      JoinedFields(lines[1..]);
      LineEndFields(first, Join(lines[1..]));
      LineThenOthers(first, Fields(Join(lines[1..]), ENDL));
      assert [first] + lines[1..] == lines;
    } else {
      LineThenOthers(first, []);
      assert NonEmpty([first]) == [first] + NonEmpty([]) == [first];
    }
  }

  lemma LineThenOthers(first: string, later: seq<string>)
    requires first != ""
    ensures NonEmpty([first] + ([""] + later)) == [first] + NonEmpty(later)
  {
    assert ([first] + ([""] + later))[1..] == [""] + later;
    assert ([""] + later)[1..] == later;
    assert [] + NonEmpty(later) == NonEmpty(later);
  }

  lemma JoinedTokens(lines: seq<string>)
    requires AllLines(lines)
    ensures Tokens(Join(lines), ENDL, true) == lines
  {
    JoinedFields(lines);
    assert IsLine(lines[0]) && lines[0][0] in lines[0];
    assert [] + lines == lines;
  }

  /** Joined lines hold no blank line and do not end in a line end. */
  lemma {:induction false} JoinedClosed(lines: seq<string>)
    requires AllLines(lines)
    ensures forall p :: !EndsAt(Join(lines), p)
    ensures var s := Join(lines); s != "" && s[0] != '\r' && s[|s| - 1] != '\n'
  {
    var s, first := Join(lines), lines[0];
    assert IsLine(first) && first[0] in first && first[|first| - 1] in first;
    if |lines| > 1 {
      var rest := Join(lines[1..]);
      JoinedClosed(lines[1..]);
      assert forall p | 0 <= p < |first| :: s[p] == first[p] && s[p] in first;
      assert s[|first| + 2] == rest[0];
      assert forall p | EndsAt(s, p) && p >= |first| + 2 :: EndsAt(rest, p - |first| - 2);
    } else {
      assert forall p | 0 <= p < |s| :: s[p] in first;
    }
  }

  lemma JoinedIsClosed(lines: seq<string>)
    requires AllLines(lines)
    ensures Closed(Join(lines))
  {
    JoinedClosed(lines);
    assert !EndsAt(Join(lines), FindEnd(Join(lines), 0));
  }

  lemma {:induction false} JoinSnoc(lines: seq<string>, last: string)
    requires lines != []
    ensures Join(lines + [last]) == Join(lines) + ENDL + last
  {
    assert (lines + [last])[1..] == lines[1..] + [last];
    if |lines| > 1 {
      JoinSnoc(lines[1..], last);
      Associative(lines[0] + ENDL, Join(lines[1..]) + ENDL, last);
      Associative(lines[0] + ENDL, Join(lines[1..]), ENDL);
    }
  }

  function LinesOf(fields: seq<Field>): (lines: seq<string>)
    ensures |lines| == |fields|
  {
    if fields == [] then [] else LinesOf(fields[..|fields| - 1]) + [Line(fields[|fields| - 1])]
  }

  lemma {:induction false} HeadJoined(command: string, fields: seq<Field>)
    ensures Join([command] + LinesOf(fields)) + ENDL == command + ENDL + FieldLines(fields)
  {
    if fields == [] {
      assert [command] + LinesOf(fields) == [command] && command + ENDL + "" == command + ENDL;
    } else {
      var n := |fields| - 1;
      var lines, last := [command] + LinesOf(fields[..n]), Line(fields[n]);
      HeadJoined(command, fields[..n]);
      JoinSnoc(lines, last);
      assert [command] + LinesOf(fields) == lines + [last];
      Associative(command + ENDL, FieldLines(fields[..n]), last);
      Associative(command + ENDL, FieldLines(fields[..n]) + last, ENDL);
    }
  }

  /** The lines of a generated header. */
  function HeaderLines(path: string, version: string, fields: seq<Field>, length: int): seq<string> {
    [Command(path, version)] + LinesOf(fields) + [Line(Field(CONTENT_LENGTH, Printed(length)))]
  }

  lemma HeaderIsJoined(path: string, version: string, fields: seq<Field>, length: int)
    ensures HeaderText(path, version, fields, length) == Join(HeaderLines(path, version, fields, length))
  {
    HeadJoined(Command(path, version), fields);
    JoinSnoc([Command(path, version)] + LinesOf(fields), Line(Field(CONTENT_LENGTH, Printed(length))));
  }

  // ---------------------------------------------------------------- round trip

  /** A word of the command line. */
  predicate IsWord(s: string) {
    IsLine(s) && ' ' !in s
  }

  /** A field that survives its own line: no line ends, no ':' in the key, text in both, a well-formed content type. */
  predicate Sendable(f: Field) {
    && IsLine(f.key) && IsLine(f.value) && ':' !in f.key && HasText(f.key) && HasText(f.value)
    && (Spells(Trim(f.key), CONTENT_TYPE) ==> MimeParses(Trim(f.value)))
  }

  lemma FieldParses(f: Field)
    requires Sendable(f)
    ensures ParseField(Line(f)) == Some(Field(Trim(f.key), Trim(f.value))) && IsLine(Line(f))
  {
    hide Trim, Caseless, Spells, MimeParses;
    LineIsLine(f);
    CaselessSpells(Trim(f.key), CONTENT_TYPE);
    hide IsLine;
    IndexOfAt(f.key, ':', " " + f.value);
    SpaceKeepsText(f.value);
  }

  lemma LineIsLine(f: Field)
    requires IsLine(f.key) && IsLine(f.value)
    ensures IsLine(Line(f)) && f.key != "" && f.value != ""
  {
  }

  lemma SpaceKeepsText(value: string)
    requires HasText(value)
    ensures HasText(" " + value) && Trim(" " + value) == Trim(value)
  {
    var i :| 0 <= i < |value| && value[i] != ' ';
    assert (" " + value)[i + 1] != ' ';
    assert (" " + value)[1..] == value;
  }

  function Trimmed(fields: seq<Field>): (r: seq<Field>)
    ensures |r| == |fields| && forall i | 0 <= i < |r| :: r[i] == Field(Trim(fields[i].key), Trim(fields[i].value))
  {
    if fields == [] then []
    else Trimmed(fields[..|fields| - 1]) + [Field(Trim(fields[|fields| - 1].key), Trim(fields[|fields| - 1].value))]
  }

  lemma {:induction false} ParseFieldsSnoc(lines: seq<string>, last: string)
    requires ParseFields(lines).Some? && ParseField(last).Some?
    ensures ParseFields(lines + [last]) == Some(ParseFields(lines).value + [ParseField(last).value])
  {
    hide ParseField;
    if lines == [] {
      assert lines + [last] == [last] && [last][1..] == [];
      assert [ParseField(last).value] + [] == [] + [ParseField(last).value];
    } else {
      ParseFieldsSnoc(lines[1..], last);
      assert (lines + [last])[1..] == lines[1..] + [last];
      var f, fs := ParseField(lines[0]).value, ParseFields(lines[1..]).value;
      Associative([f], fs, [ParseField(last).value]);
    }
  }

  lemma {:induction false} FieldsParse(fields: seq<Field>)
    requires forall i | 0 <= i < |fields| :: Sendable(fields[i])
    ensures ParseFields(LinesOf(fields)) == Some(Trimmed(fields))
    ensures forall i | 0 <= i < |fields| :: IsLine(LinesOf(fields)[i])
  {
    hide Sendable, Trim, ParseField, IsLine, Line;
    if fields != [] {
      var n := |fields| - 1;
      FieldsParse(fields[..n]);
      FieldParses(fields[n]);
      ParseFieldsSnoc(LinesOf(fields[..n]), Line(fields[n]));
    }
  }

  lemma LengthField(length: int)
    ensures var f := Field(CONTENT_LENGTH, Printed(length));
      Sendable(f) && Trim(f.key) == f.key && Trim(f.value) == f.value
  {
    hide Printed, Contains;
    PrintedShape(length);
    var s := Printed(length);
    assert s[0] in s && s[|s| - 1] in s;
    assert HasText(CONTENT_LENGTH) by {
      assert CONTENT_LENGTH[0] != ' ';
    }
  }

  lemma ThreeWords(a: string, b: string, c: string)
    requires IsWord(a) && IsWord(b) && IsWord(c)
    ensures Tokens(a + [' '] + (b + [' '] + c), " ", true) == [a, b, c]
  {
    NoDelimiterOneField(a, " ");
    NoDelimiterOneField(b, " ");
    NoDelimiterOneField(c, " ");
    FieldsAtDelimiter(b, ' ', c, " ");
    FieldsAtDelimiter(a, ' ', b + [' '] + c, " ");
    assert [a] + ([b] + [c]) == [a, b, c];
    assert Fields(a + [' '] + (b + [' '] + c), " ") == [a, b, c];
    hide Fields;
    WordsStay(a, b, c);
    assert [] + [a, b, c] == [a, b, c];
  }

  lemma CommandWords(path: string, version: string)
    requires IsWord(path) && IsWord(version)
    ensures Tokens(Command(path, version), " ", true) == ["POST", path, "HTTP/" + version]
  {
    hide Tokens;
    ThreeWords("POST", path, "HTTP/" + version);
  }

  lemma WordsStay(a: string, b: string, c: string)
    requires a != "" && b != "" && c != ""
    ensures NonEmpty([a, b, c]) == [a, b, c]
  {
    assert [a, b, c][1..] == [b, c] && [b, c][1..] == [c] && [c][1..] == [];
    assert NonEmpty([c]) == [c] && NonEmpty([b, c]) == [b] + [c];
  }

  lemma CommandIsParsed(path: string, version: string)
    requires IsWord(path) && IsWord(version)
    ensures CommandParses(Command(path, version)) && IsLine(Command(path, version))
  {
    CommandWords(path, version);
    assert ("HTTP/" + version)[4] == '/';
  }

  /** A generated header parses to its fields, trimmed, and then the length. */
  lemma HeaderParses(path: string, version: string, fields: seq<Field>, length: int)
    requires IsWord(path) && IsWord(version) && forall i | 0 <= i < |fields| :: Sendable(fields[i])
    ensures AllLines(HeaderLines(path, version, fields, length))
    ensures ParseHeader(HeaderText(path, version, fields, length))
      == Some(Trimmed(fields) + [Field(CONTENT_LENGTH, Printed(length))])
  {
    hide CommandParses, ParseFields, ParseHeader, Sendable, Trim, Command, Printed, Line, AllLines, HeaderText, Join;
    var lines := HeaderLines(path, version, fields, length);
    LinesAreLines(path, version, fields, length);
    LinesParse(fields, length);
    HeaderIsJoined(path, version, fields, length);
    CommandIsParsed(path, version);
    Surrounded(Command(path, version), LinesOf(fields), Line(Field(CONTENT_LENGTH, Printed(length))));
    JoinedParses(lines);
  }

  lemma Surrounded<T>(first: T, middle: seq<T>, last: T)
    ensures var all := [first] + middle + [last]; all[0] == first && all[1..] == middle + [last]
  {
  }

  lemma JoinedParses(lines: seq<string>)
    requires AllLines(lines) && CommandParses(lines[0])
    ensures ParseHeader(Join(lines)) == ParseFields(lines[1..])
  {
    hide CommandParses, ParseFields, IsLine, Join, Tokens;
    JoinedTokens(lines);
  }

  lemma LinesParse(fields: seq<Field>, length: int)
    requires forall i | 0 <= i < |fields| :: Sendable(fields[i])
    ensures var last := Field(CONTENT_LENGTH, Printed(length));
      ParseFields(LinesOf(fields) + [Line(last)]) == Some(Trimmed(fields) + [last])
  {
    hide ParseFields, ParseField, Sendable, Trim, Printed, LinesOf, Line;
    var last := Field(CONTENT_LENGTH, Printed(length));
    FieldsParse(fields);
    LengthField(length);
    FieldParses(last);
    ParseFieldsSnoc(LinesOf(fields), Line(last));
  }

  lemma LinesAreLines(path: string, version: string, fields: seq<Field>, length: int)
    requires IsWord(path) && IsWord(version) && forall i | 0 <= i < |fields| :: Sendable(fields[i])
    ensures AllLines(HeaderLines(path, version, fields, length))
  {
    hide CommandParses, ParseFields, ParseField, Sendable, Trim, Printed, Command, Line, LinesOf, IsLine;
    var last := Field(CONTENT_LENGTH, Printed(length));
    CommandIsParsed(path, version);
    FieldsParse(fields);
    LengthField(length);
    FieldParses(last);
    var lines := HeaderLines(path, version, fields, length);
    forall i | 0 <= i < |lines|
      ensures IsLine(lines[i])
    {
      if 0 < i < |lines| - 1 {
        assert lines[i] == LinesOf(fields)[i - 1];
      }
    }
  }

  /** Whatever the fields say, a Content-Length of their own included, the length read is the one generated last. */
  lemma LengthReads(path: string, version: string, fields: seq<Field>, length: int)
    requires IsWord(path) && IsWord(version) && forall i | 0 <= i < |fields| :: Sendable(fields[i])
    ensures ContentLength(HeaderText(path, version, fields, length)) == Some(length)
  {
    HeaderParses(path, version, fields, length);
    ToIntUndoes(length);
  }

  /**
   * A generated request, whatever follows it, is framed with its own header
   * and body exactly when the length of the body fits the 32-bit int it is
   * printed from.
   */
  lemma RequestRoundTrip(path: string, version: string, fields: seq<Field>, body: string, later: string)
    requires IsWord(path) && IsWord(version) && forall i | 0 <= i < |fields| :: Sendable(fields[i])
    ensures var header := HeaderText(path, version, fields, Int32(|body|));
      Framed(header + HEADER_END + body + later, ContentLength) == Request(header, body) <==> |body| < 0x8000_0000
  {
    var length := Int32(|body|);
    var header := HeaderText(path, version, fields, length);
    HeaderParses(path, version, fields, length);
    HeaderIsJoined(path, version, fields, length);
    JoinedIsClosed(HeaderLines(path, version, fields, length));
    LengthReads(path, version, fields, length);
    Int32Fits(|body|);
    FramedIs(header, body + later, length, ContentLength);
    Associative(header + HEADER_END, body, later);
    hide Framed, HeaderText, ContentLength, Int32;
    if length == |body| {
      assert (body + later)[..length] == body;
    }
  }

  lemma FormAnnounced(path: string, version: string, fields: seq<Field>, length: int)
    requires IsWord(path) && IsWord(version) && forall i | 0 <= i < |fields| :: Sendable(fields[i])
    ensures AnnouncesForm(HeaderText(path, version, fields, length)) <==> SaysForm(fields)
  {
    hide Sendable, Spells, Caseless, Contains, Trim, HeaderText, Printed;
    HeaderParses(path, version, fields, length);
    var parsed := Trimmed(fields) + [Field(CONTENT_LENGTH, Printed(length))];
    forall i | 0 <= i < |fields|
      ensures Caseless(parsed[i].key, CONTENT_TYPE) <==> Spells(Trim(fields[i].key), CONTENT_TYPE)
    {
      CaselessSpells(Trim(fields[i].key), CONTENT_TYPE);
    }
    LengthIsNoType();
    forall i | 0 <= i < |fields|
      ensures parsed[i] == Field(Trim(fields[i].key), Trim(fields[i].value))
    {
      assert parsed[i] == Trimmed(fields)[i];
    }
  }

  lemma LengthIsNoType()
    ensures !Caseless(CONTENT_LENGTH, CONTENT_TYPE)
  {
  }

  /** What the server makes of a connection: the queries of a form request, if that is what it gets. */
  function FormAnswer(c: Connection): Option<map<string, string>> {
    match Answer(c, ContentLength)
    case Rejected => None
    case Request(header, body) => if AnnouncesForm(header) then ParseForm(body, map[]) else None
  }

  /** The bytes of a form request and whatever follows it. */
  function FormStream(path: string, version: string, fields: seq<Field>, body: string, later: string): string {
    HeaderText(path, version, fields, Int32(|body|)) + HEADER_END + body + later
  }

  predicate SaysForm(fields: seq<Field>) {
    exists i | 0 <= i < |fields| ::
      Spells(Trim(fields[i].key), CONTENT_TYPE) && Contains(Trim(fields[i].value), FORM)
  }

  /**
   * A form request from end to end: generated from a 7-bit map and sent in any
   * pieces, it gives the server back the map exactly when its fields announce
   * a form, it is delivered, and nothing in the map has '+'.
   */
  lemma FormRequestRoundTrip(path: string, version: string, fields: seq<Field>,
    m: map<string, string>, keys: seq<string>, later: string, c: Connection)
    requires IsWord(path) && IsWord(version) && forall i | 0 <= i < |fields| :: Sendable(fields[i])
    requires SevenBitMap(m) && (forall k | k in keys :: k in m) && (forall k | k in m :: k in keys)
    requires |FormBody(m, keys)| < 0x8000_0000
    ensures var d := c.(stream := FormStream(path, version, fields, FormBody(m, keys), later));
      NulFree(d.stream) ==>
        (FormAnswer(d) == Some(m) <==> SaysForm(fields) && Delivered(d, ContentLength) && PlusFree(m))
  {
    hide FormBody, ParseForm, Framed, HeaderText, Delivered, NulFree, PlusFree, AnnouncesForm, Answer;
    var body := FormBody(m, keys);
    var d := c.(stream := FormStream(path, version, fields, body, later));
    if NulFree(d.stream) {
      AnswerIs(d, ContentLength);
      RequestRoundTrip(path, version, fields, body, later);
      FormAnnounced(path, version, fields, Int32(|body|));
      FormRoundTrip(m, keys);
    }
  }
}
