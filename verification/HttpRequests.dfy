/**
 * Requests as any client may write them: names of fields in any case, any
 * method, lengths as atoi takes them.  What src/net/NetHttpContent.cpp makes of
 * their header, and so src/net/NetHttpSerPost.cpp of the whole request.
 */
module HttpRequests {
  import opened Collections
  import opened FormEncoding
  import opened HttpFraming
  import opened HttpHeaders
  import opened Tokenizer

  // ---------------------------------------------------------------- names and values

  /** The field that counts for a name: the last one that spells it. */
  predicate LastSpelled(fields: seq<Field>, name: string, i: nat) {
    i < |fields| && Spells(fields[i].key, name) && forall j | i < j < |fields| :: !Spells(fields[j].key, name)
  }

  /** Looking up a name finds the value of the last field that spells it, in any case ... */
  lemma {:induction false} LookupFinds(fields: seq<Field>, name: string, i: nat)
    requires LastSpelled(fields, name, i)
    ensures Lookup(fields, name) == fields[i].value
  {
    hide Spells, Caseless;
    var n := |fields| - 1;
    CaselessSpells(fields[n].key, name);
    if i < n {
      LookupFinds(fields[..n], name, i);
    }
  }

  /** ... or nothing. */
  lemma {:induction false} LookupFails(fields: seq<Field>, name: string)
    requires forall i | 0 <= i < |fields| :: !Spells(fields[i].key, name)
    ensures Lookup(fields, name) == ""
  {
    hide Spells, Caseless;
    if fields != [] {
      CaselessSpells(fields[|fields| - 1].key, name);
      LookupFails(fields[..|fields| - 1], name);
    }
  }

  predicate Spaces(s: string) {
    forall c | c in s :: c == ' '
  }

  /** Trimming takes exactly the spaces at both ends. */
  lemma TrimIs(before: string, s: string, after: string)
    requires Spaces(before) && Spaces(after) && s != "" && s[0] != ' ' && s[|s| - 1] != ' '
    ensures Trim(before + s + after) == s
  {
    FrontIs(before, s + after);
    assert before + (s + after) == before + s + after;
    BackIs(s, after);
  }

  lemma {:induction false} FrontIs(before: string, s: string)
    requires Spaces(before) && s != "" && s[0] != ' '
    ensures TrimFront(before + s) == s && HasText(before + s)
  {
    assert (before + s)[|before|] != ' ';
    if before == "" {
      assert before + s == s;
    } else {
      assert before[0] in before;
      assert forall c | c in before[1..] :: c in before;
      FrontIs(before[1..], s);
      assert (before + s)[1..] == before[1..] + s;
    }
  }

  lemma {:induction false} BackIs(s: string, after: string)
    requires Spaces(after) && s != "" && s[|s| - 1] != ' '
    ensures TrimBack(s + after) == s
  {
    if after == "" {
      assert s + after == s;
    } else {
      var n := |after| - 1;
      assert after[n] in after;
      assert forall c | c in after[..n] :: c in after;
      BackIs(s, after[..n]);
      assert (s + after)[..|s| + n] == s + after[..n];
    }
  }

  /** Spaces, tabs, line ends, vertical tabs and form feeds. */
  predicate AllBlank(s: string) {
    forall c | c in s :: c as int == 32 || 9 <= c as int <= 13
  }

  predicate NoDigitFirst(s: string) {
    s == "" || !('0' <= s[0] <= '9')
  }

  lemma {:induction false} DigitsEnd(digits: string, tail: string, sofar: nat)
    requires (forall c | c in digits :: '0' <= c <= '9') && NoDigitFirst(tail)
    ensures ReadDigits(digits + tail, sofar) == ReadDigits(digits, sofar)
  {
    if digits == "" {
      assert digits + tail == tail;
    } else {
      assert digits[0] in digits && (digits + tail)[1..] == digits[1..] + tail;
      assert forall c | c in digits[1..] :: c in digits;
      DigitsEnd(digits[1..], tail, 10 * sofar + (digits[0] as nat - '0' as nat));
    }
  }

  lemma {:induction false} BlanksSkipped(blanks: string, s: string)
    requires AllBlank(blanks)
    ensures ToInt(blanks + s) == ToInt(s)
  {
    if blanks == "" {
      assert blanks + s == s;
    } else {
      assert blanks[0] in blanks && (blanks + s)[1..] == blanks[1..] + s;
      assert forall c | c in blanks[1..] :: c in blanks;
      BlanksSkipped(blanks[1..], s);
    }
  }

  /** A number is read off the front of a text: blanks, a sign or none, and digits up to the first other character. */
  lemma NumberReads(blanks: string, sign: string, n: nat, tail: string)
    requires AllBlank(blanks) && sign in ["", "+", "-"] && NoDigitFirst(tail)
    ensures ToInt(blanks + (sign + (Decimal(n) + tail))) == if sign == "-" then 0 - n else n
  {
    var s := sign + (Decimal(n) + tail);
    BlanksSkipped(blanks, s);
    DigitsEnd(Decimal(n), tail, 0);
    DecimalReads(n);
    assert Decimal(n)[0] in Decimal(n) && (Decimal(n) + tail)[0] == Decimal(n)[0];
    if sign == "" {
      assert s == Decimal(n) + tail;
    } else {
      assert s[1..] == Decimal(n) + tail;
    }
  }

  /** A text that starts otherwise is read as 0. */
  lemma NoNumberReads(blanks: string, s: string)
    requires AllBlank(blanks) && NoDigitFirst(s) && (s != "" ==> s[0] != '+' && s[0] != '-' && !AllBlank([s[0]]))
    ensures ToInt(blanks + s) == 0
  {
    BlanksSkipped(blanks, s);
  }

  /** Numbers are printed without leading zeros, and with a sign only if they are negative. */
  lemma PrintedPlainly(i: int)
    ensures Printed(i)[0] == '-' <==> i < 0
    ensures i > 0 ==> Printed(i)[0] != '0'
    ensures Printed(0) == "0"
  {
    if i != 0 {
      NoLeadingZero(if i < 0 then -i else i);
    }
  }

  lemma {:induction false} NoLeadingZero(n: nat)
    requires n > 0
    ensures '0' < Decimal(n)[0] <= '9'
  {
    if n >= 10 {
      NoLeadingZero(n / 10);
    }
  }

  ghost predicate Holds(s: string, part: string) {
    exists a, b :: s == a + part + b
  }

  lemma ContainsHolds(s: string, part: string)
    ensures Contains(s, part) <==> Holds(s, part)
  {
    if Contains(s, part) {
      var i: nat :| i <= |s| && OccursAt(s, part, i);
      assert s == s[..i] + part + s[i + |part|..];
    }
    if a, b :| s == a + part + b {
      assert OccursAt(s, part, |a|);
    }
  }

  // ---------------------------------------------------------------- the header

  function Words(words: seq<string>): string {
    if words == [] then "" else if |words| == 1 then words[0] else words[0] + [' '] + Words(words[1..])
  }

  predicate AllWords(words: seq<string>) {
    words != [] && forall i | 0 <= i < |words| :: IsWord(words[i])
  }

  lemma {:induction false} WordTokens(words: seq<string>)
    requires AllWords(words)
    ensures Tokens(Words(words), " ", true) == words
  {
    WordFields(words);
    assert IsWord(words[0]) && words[0][0] in words[0];
    assert Words(words)[0] == words[0][0] && [] + words == words;
  }

  lemma {:induction false} WordFields(words: seq<string>)
    requires AllWords(words)
    ensures NonEmpty(Fields(Words(words), " ")) == words
  {
    hide Fields;
    var first := words[0];
    assert IsWord(first);
    NoDelimiterOneField(first, " ");
    if |words| == 1 {
      assert NonEmpty([first]) == [first] + NonEmpty([]) == [first] == words;
    } else {
      var later := Fields(Words(words[1..]), " ");
      WordFields(words[1..]);
      FieldsAtDelimiter(first, ' ', Words(words[1..]), " ");
      assert ([first] + later)[1..] == later;
      assert [first] + words[1..] == words;
    }
  }

  /** A command line of words is taken for a request's, or a response's, in exactly these cases. */
  lemma CommandTaken(words: seq<string>)
    requires AllWords(words)
    ensures CommandParses(Words(words)) <==>
      || (words[0] == "POST" && |words| > 2 && '/' in words[2])
      || (words[0] != "POST" && "HTTP" <= words[0] && '/' in words[0] && |words| > 1)
  {
    hide Tokens, Words;
    WordTokens(words);
    assert |words| > 1 ==> IsWord(words[1]);
  }

  lemma ColonNeeded(line: string)
    requires ':' !in line
    ensures ParseField(line) == None
  {
  }

  /** A content type other than a form's, with a parameter after its first ';' that has no '='. */
  ghost predicate BadParameter(value: string) {
    !Holds(value, FORM) && exists a, b :: value == a + [';'] + b && ';' !in a && '=' !in b
  }

  predicate Trimmable(s: string) {
    s == "" || HasText(s)
  }

  /**
   * A line with a colon is read as what precedes and what follows its first
   * one, either of them possibly empty, unless it announces a content type
   * with a bad parameter.  Spaces alone are undefined in either.
   */
  lemma LineReads(key: string, value: string)
    requires ':' !in key
    ensures ParseField(key + [':'] + value) ==
      if !Trimmable(key) || !Trimmable(value) then None
      else if Spells(Trim(key), CONTENT_TYPE) && BadParameter(Trim(value)) then None
      else Some(Field(Trim(key), Trim(value)))
  {
    hide Trim, Contains, Spells, Caseless, MimeParses, BadParameter;
    IndexOfAt(key, ':', value);
    CaselessSpells(Trim(key), CONTENT_TYPE);
    ParameterFails(Trim(value));
  }

  lemma ParameterFails(value: string)
    ensures MimeParses(value) <==> !BadParameter(value)
  {
    hide Contains, Holds;
    ContainsHolds(value, FORM);
    var p := IndexOf(value, ';');
    if p >= 0 {
      var a, b := value[..p], value[p + 1..];
      assert value == a + [';'] + b;
      forall a', b' | value == a' + [';'] + b' && ';' !in a'
        ensures b' == b
      {
        IndexOfAt(a', ';', b');
      }
    }
  }

  /** A header parses as a whole, or not at all. */
  lemma {:induction false} FieldsFail(lines: seq<string>)
    ensures ParseFields(lines) == None <==> exists i | 0 <= i < |lines| :: ParseField(lines[i]) == None
  {
    hide ParseField;
    if lines != [] {
      FieldsFail(lines[1..]);
    }
  }

  /** The text of a request's header: the command and the fields, each on its line. */
  function Written(command: string, fields: seq<Field>): string {
    Join([command] + LinesOf(fields))
  }

  predicate AllSendable(fields: seq<Field>) {
    forall i | 0 <= i < |fields| :: Sendable(fields[i])
  }

  lemma WrittenParses(command: string, fields: seq<Field>)
    requires IsLine(command) && AllSendable(fields)
    ensures Closed(Written(command, fields))
    ensures ParseHeader(Written(command, fields)) == if CommandParses(command) then Some(Trimmed(fields)) else None
  {
    hide CommandParses, ParseFields, Sendable, Join, Tokens, IsLine;
    FieldsParse(fields);
    var lines := [command] + LinesOf(fields);
    assert lines[1..] == LinesOf(fields);
    assert AllLines(lines);
    JoinedTokens(lines);
    JoinedIsClosed(lines);
  }

  /** What the fields say of the body's length, their names in any case; the last one counts, and none says 0. */
  ghost predicate SaysLength(fields: seq<Field>, n: int) {
    if exists i: nat :: LastSpelled(fields, CONTENT_LENGTH, i)
    then exists i: nat :: LastSpelled(fields, CONTENT_LENGTH, i) && ToInt(fields[i].value) == n
    else n == 0
  }

  lemma {:induction false} SomeLast(fields: seq<Field>, name: string)
    ensures (exists i: nat :: LastSpelled(fields, name, i))
      || forall j | 0 <= j < |fields| :: !Spells(fields[j].key, name)
  {
    hide Spells;
    if fields != [] {
      var n := |fields| - 1;
      SomeLast(fields[..n], name);
      if Spells(fields[n].key, name) {
        assert LastSpelled(fields, name, n);
      } else if i: nat :| LastSpelled(fields[..n], name, i) {
        assert LastSpelled(fields, name, i);
      }
    }
  }

  lemma LengthSaid(fields: seq<Field>, n: int)
    requires SaysLength(fields, n)
    ensures ToInt(Lookup(fields, CONTENT_LENGTH)) == n
  {
    hide Spells;
    SomeLast(fields, CONTENT_LENGTH);
    if i: nat :| LastSpelled(fields, CONTENT_LENGTH, i) && ToInt(fields[i].value) == n {
      LookupFinds(fields, CONTENT_LENGTH, i);
    } else {
      LookupFails(fields, CONTENT_LENGTH);
    }
  }

  /**
   * A request is framed by what its command and fields say, however they spell
   * the names: with as many characters as the last Content-Length announces,
   * and not at all when the command is not taken or there are fewer.
   */
  lemma RequestFramed(command: string, fields: seq<Field>, n: int, rest: string)
    requires IsLine(command) && AllSendable(fields) && SaysLength(Trimmed(fields), n)
    ensures Framed(Written(command, fields) + HEADER_END + rest, ContentLength)
      == if CommandParses(command) && 0 <= n <= |rest| then Request(Written(command, fields), rest[..n]) else Rejected
  {
    hide CommandParses, Sendable, Spells, ParseHeader, Framed, FindEnd, Written;
    WrittenParses(command, fields);
    LengthSaid(Trimmed(fields), n);
    if CommandParses(command) {
      FramedIs(Written(command, fields), rest, n, ContentLength);
    } else {
      RefusedHeader(Written(command, fields), rest);
    }
  }

  lemma RefusedHeader(header: string, rest: string)
    requires Closed(header) && ParseHeader(header) == None
    ensures Framed(header + HEADER_END + rest, ContentLength) == Rejected
  {
    hide ParseHeader;
    HeaderEnds(header);
    var s := header + HEADER_END + rest;
    assert s[..|header| + 4] == header + HEADER_END;
    FindInPrefix(s, |header| + 4);
    assert s[..|header|] == header;
  }

  /** A body is taken for a form's exactly when a field named Content-Type, in any case, says so. */
  lemma FormRecognized(command: string, fields: seq<Field>)
    requires IsLine(command) && AllSendable(fields)
    ensures AnnouncesForm(Written(command, fields)) <==> CommandParses(command) && exists i | 0 <= i < |fields| ::
      Spells(Trim(fields[i].key), CONTENT_TYPE) && Holds(Trim(fields[i].value), FORM)
  {
    hide CommandParses, Sendable, Spells, Caseless, Contains, Holds, Trim, Written;
    WrittenParses(command, fields);
    forall i | 0 <= i < |fields|
      ensures Caseless(Trimmed(fields)[i].key, CONTENT_TYPE) <==> Spells(Trim(fields[i].key), CONTENT_TYPE)
      ensures Contains(Trim(fields[i].value), FORM) <==> Holds(Trim(fields[i].value), FORM)
    {
      ContainsHolds(Trim(fields[i].value), FORM);
      CaselessSpells(Trim(fields[i].key), CONTENT_TYPE);
    }
  }
}
