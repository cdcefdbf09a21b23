/**
 * URL encoding (src/net/NetHttpUtils.cpp) and form bodies
 * (src/net/NetHttpContent.cpp), for 7-bit text.
 */
module FormEncoding {
  import opened Collections
  import opened Tokenizer

  predicate SevenBit(s: string) {
    forall i | 0 <= i < |s| :: s[i] as int < 128
  }

  const DIGITS := "0123456789ABCDEF"

  predicate Plain(c: char) {
    || c in "$-_.+!*'(),"
    || 'a' <= c <= 'z' || 'A' <= c <= 'Z' || '0' <= c <= '9'
  }

  function EncodeChar(c: char): string
    requires c as int < 128
  {
    if c == ' ' then "+"
    else if Plain(c) then [c]
    else ['%', DIGITS[c as int / 16], DIGITS[c as int % 16]]
  }

  function UrlEncode(s: string): string
    requires SevenBit(s)
  {
    if s == "" then "" else EncodeChar(s[0]) + UrlEncode(s[1..])
  }

  /** Where strchr finds a hexadecimal digit of either case in the digit table; a NUL it finds at its end. */
  function HexValue(c: char): Option<nat> {
    if '0' <= c <= '9' then Some(c as nat - '0' as nat)
    else if 'A' <= c <= 'F' then Some(c as nat - 'A' as nat + 10)
    else if 'a' <= c <= 'f' then Some(c as nat - 'a' as nat + 10)
    else if c == '\0' then Some(16)
    else None
  }

  /** htoi; without a digit the original subtracts from a null pointer. */
  function Htoi(hi: char, low: char): Option<char> {
    match (HexValue(hi), HexValue(low))
    case (Some(h), Some(l)) => Some(((16 * h + l) % 256) as char)
    case _ => None
  }

  function Cons(c: char, rest: Option<string>): Option<string> {
    match rest
    case None => None
    case Some(s) => Some([c] + s)
  }

  /** urlDecode; a '%' without two characters after it is dropped. */
  function UrlDecode(s: string): Option<string> {
    if s == "" then Some("")
    else if s[0] == '+' then Cons(' ', UrlDecode(s[1..]))
    else if s[0] != '%' then Cons(s[0], UrlDecode(s[1..]))
    else if |s| < 3 then UrlDecode(s[1..])
    else
      match Htoi(s[1], s[2])
      case None => None
      case Some(c) => Cons(c, UrlDecode(s[3..]))
  }

  function PlusToSpace(s: string): string {
    if s == "" then "" else [if s[0] == '+' then ' ' else s[0]] + PlusToSpace(s[1..])
  }

  lemma DigitValue(n: nat)
    requires n < 16
    ensures HexValue(DIGITS[n]) == Some(n) && DIGITS[n] != '&' && DIGITS[n] != '='
  {
  }

  lemma EncodeCharDecodes(c: char, rest: string)
    requires c as int < 128
    ensures UrlDecode(EncodeChar(c) + rest) == Cons(if c == '+' then ' ' else c, UrlDecode(rest))
    ensures '&' !in EncodeChar(c) && '=' !in EncodeChar(c)
  {
    hide Htoi;
    if c == ' ' || Plain(c) {
      assert (EncodeChar(c) + rest)[1..] == rest;
    } else {
      EscapeDecodes(c, rest);
    }
  }

  lemma EscapeDecodes(c: char, rest: string)
    requires c as int < 128
    ensures var e := ['%', DIGITS[c as int / 16], DIGITS[c as int % 16]];
      UrlDecode(e + rest) == Cons(c, UrlDecode(rest)) && '&' !in e && '=' !in e
  {
    var n := c as int;
    DigitValue(n / 16);
    DigitValue(n % 16);
    assert Htoi(DIGITS[n / 16], DIGITS[n % 16]) == Some(c) by {
      hide UrlDecode;
      assert 16 * (n / 16) + n % 16 == n;
    }
    hide Htoi, HexValue;
    var e := ['%', DIGITS[n / 16], DIGITS[n % 16]] + rest;
    assert e[1] == DIGITS[n / 16] && e[2] == DIGITS[n % 16] && e[3..] == rest;
  }

  /** The digit table with the NUL that ends it, which strchr finds as well. */
  const TABLE := DIGITS + ['\0']

  predicate AtDigit(c: char, n: nat) {
    n < |TABLE| && SameLetter(c, TABLE[n])
  }

  /** An escape is read by the places of its characters in the digit table, letters in either case. */
  lemma EscapeReads(hi: char, low: char, h: nat, l: nat, rest: string)
    requires AtDigit(hi, h) && AtDigit(low, l)
    ensures UrlDecode(['%', hi, low] + rest) == Cons(((16 * h + l) % 256) as char, UrlDecode(rest))
  {
    DigitFound(hi, h);
    DigitFound(low, l);
    hide HexValue;
    var e := ['%', hi, low] + rest;
    assert e[1] == hi && e[2] == low && e[3..] == rest;
  }

  /** With a character that is not in the table it has no value. */
  lemma EscapeFails(hi: char, low: char, rest: string)
    requires (forall n :: !AtDigit(hi, n)) || (forall n :: !AtDigit(low, n))
    ensures UrlDecode(['%', hi, low] + rest) == None
  {
    DigitMissing(hi);
    DigitMissing(low);
    hide HexValue;
    var e := ['%', hi, low] + rest;
    assert e[1] == hi && e[2] == low && e[3..] == rest;
  }

  lemma DigitFound(c: char, n: nat)
    requires AtDigit(c, n)
    ensures HexValue(c) == Some(n)
  {
    if n < 16 {
      DigitValue(n);
      assert TABLE[n] == DIGITS[n];
    }
  }

  lemma DigitMissing(c: char)
    ensures HexValue(c) == None <==> forall n :: !AtDigit(c, n)
  {
    if n :| AtDigit(c, n) {
      DigitFound(c, n);
    }
    if HexValue(c).Some? {
      assert AtDigit(c, HexValue(c).value);
    }
  }

  /** A '%' without two characters after it is dropped. */
  lemma DanglingPercent(end: string)
    requires |end| < 2 && SevenBit(end) && forall c | c in end :: c != '+' && c != '%'
    ensures UrlDecode("%" + end) == Some(end)
  {
    assert ("%" + end)[1..] == end;
    if end != "" {
      assert end[0] in end && end[1..] == "" && [end[0]] + "" == end;
    }
  }

  predicate LetterOrDigit(c: char) {
    SameLetter(c, 'a') || 'b' <= c <= 'z' || 'B' <= c <= 'Z' || c in "0123456789"
  }

  /** The characters that section 2.2 of RFC 1738 calls safe and extra. */
  predicate Mark(c: char) {
    c in "$-_.+" || c in "!*'(),"
  }

  /** Letters, digits and marks are sent as they are, and nothing else is. */
  lemma {:induction false} SentAsIs(s: string)
    requires SevenBit(s)
    ensures UrlEncode(s) == s <==> forall c | c in s :: LetterOrDigit(c) || Mark(c)
    ensures |UrlEncode(s)| >= |s|
  {
    if s != "" {
      SentAsIs(s[1..]);
      var first, later := EncodeChar(s[0]), UrlEncode(s[1..]);
      PlainIs(s[0]);
      assert s == [s[0]] + s[1..];
      assert forall c :: c in s <==> c == s[0] || c in s[1..];
      if first == [s[0]] {
        assert (first + later)[1..] == later;
      } else if |first| == 1 {
        assert (first + later)[0] == first[0];
      }
    }
  }

  lemma PlainIs(c: char)
    requires c as int < 128
    ensures EncodeChar(c) == [c] <==> LetterOrDigit(c) || Mark(c)
    ensures |EncodeChar(c)| == 1 || (|EncodeChar(c)| == 3 && EncodeChar(c)[0] == '%')
  {
  }

  /** Decoding undoes encoding, but for each '+', which comes back as a space. */
  lemma {:induction false} UrlRoundTrip(s: string)
    requires SevenBit(s)
    ensures UrlDecode(UrlEncode(s)) == Some(PlusToSpace(s))
    ensures '&' !in UrlEncode(s) && '=' !in UrlEncode(s)
  {
    if s != "" {
      EncodeCharDecodes(s[0], UrlEncode(s[1..]));
      UrlRoundTrip(s[1..]);
    }
  }

  lemma {:induction false} PlusToSpaceIs(s: string)
    ensures '+' !in PlusToSpace(s)
    ensures PlusToSpace(s) == s <==> '+' !in s
  {
    if s != "" {
      PlusToSpaceIs(s[1..]);
      assert s == [s[0]] + s[1..];
    }
  }

  // ---------------------------------------------------------------- form bodies

  function Pair(k: string, v: string): string
    requires SevenBit(k) && SevenBit(v)
  {
    UrlEncode(k) + "=" + UrlEncode(v)
  }

  ghost predicate SevenBitMap(m: map<string, string>) {
    forall k | k in m :: SevenBit(k) && SevenBit(m[k])
  }

  /** The form branch of generate, over the keys in iteration order. */
  function FormBody(m: map<string, string>, keys: seq<string>): string
    requires SevenBitMap(m) && forall k | k in keys :: k in m
  {
    if keys == [] then "" else
      var n := |keys| - 1;
      var body := FormBody(m, keys[..n]);
      (if body == "" then "" else body + "&") + Pair(keys[n], m[keys[n]])
  }

  /** One token of a form: a pair if it has an '=', else nothing. None when decoding is undefined. */
  function ParsePair(token: string, queries: map<string, string>): Option<map<string, string>> {
    var p := IndexOf(token, '=');
    if p < 0 then Some(queries) else
      match (UrlDecode(token[..p]), UrlDecode(token[p + 1..]))
      case (Some(k), Some(v)) => Some(queries[k := v])
      case _ => None
  }

  function ParsePairs(tokens: seq<string>, queries: map<string, string>): Option<map<string, string>>
    decreases |tokens|
  {
    if tokens == [] then Some(queries) else
      match ParsePair(tokens[0], queries)
      case None => None
      case Some(q) => ParsePairs(tokens[1..], q)
  }

  /** The form branch of setRequestBody. */
  function ParseForm(body: string, queries: map<string, string>): Option<map<string, string>> {
    ParsePairs(Tokens(body, "&", true), queries)
  }

  function Pairs(m: map<string, string>, keys: seq<string>): seq<string>
    requires SevenBitMap(m) && forall k | k in keys :: k in m
  {
    if keys == [] then [] else [Pair(keys[0], m[keys[0]])] + Pairs(m, keys[1..])
  }

  lemma {:induction false} PairsSnoc(m: map<string, string>, keys: seq<string>)
    requires SevenBitMap(m) && keys != [] && forall k | k in keys :: k in m
    ensures var n := |keys| - 1; Pairs(m, keys) == Pairs(m, keys[..n]) + [Pair(keys[n], m[keys[n]])]
  {
    var n := |keys| - 1;
    if n > 0 {
      PairsSnoc(m, keys[1..]);
      assert keys[1..][..n - 1] == keys[..n][1..];
    }
  }

  lemma PairHasNoAmpersand(k: string, v: string)
    requires SevenBit(k) && SevenBit(v)
    ensures '&' !in Pair(k, v) && Pair(k, v) != ""
  {
    UrlRoundTrip(k);
    UrlRoundTrip(v);
  }

  /** The tokenizer finds in a generated body exactly its pairs. */
  lemma {:induction false} BodyFields(m: map<string, string>, keys: seq<string>)
    requires SevenBitMap(m) && keys != [] && forall k | k in keys :: k in m
    ensures Fields(FormBody(m, keys), "&") == Pairs(m, keys)
    ensures FormBody(m, keys) != "" && FormBody(m, keys)[0] != '&'
  {
    var n := |keys| - 1;
    var pair := Pair(keys[n], m[keys[n]]);
    PairHasNoAmpersand(keys[n], m[keys[n]]);
    NoDelimiterOneField(pair, "&");
    PairsSnoc(m, keys);
    if n > 0 {
      BodyFields(m, keys[..n]);
      var body := FormBody(m, keys[..n]);
      assert body + "&" + pair == body + ['&'] + pair;
      FieldsAtDelimiter(body, '&', pair, "&");
    } else {
      assert keys[..0] == [] && "" + pair == pair;
    }
  }

  lemma {:induction false} PairsNonEmpty(m: map<string, string>, keys: seq<string>)
    requires SevenBitMap(m) && forall k | k in keys :: k in m
    ensures NonEmpty(Pairs(m, keys)) == Pairs(m, keys)
  {
    if keys != [] {
      PairHasNoAmpersand(keys[0], m[keys[0]]);
      PairsNonEmpty(m, keys[1..]);
    }
  }

  lemma BodyTokens(m: map<string, string>, keys: seq<string>)
    requires SevenBitMap(m) && forall k | k in keys :: k in m
    ensures Tokens(FormBody(m, keys), "&", true) == Pairs(m, keys)
  {
    if keys == [] {
      TailOfNothing("&", true);
    } else {
      BodyFields(m, keys);
      PairsNonEmpty(m, keys);
      assert [] + Pairs(m, keys) == Pairs(m, keys);
    }
  }

  lemma PairParses(k: string, v: string, queries: map<string, string>)
    requires SevenBit(k) && SevenBit(v)
    ensures ParsePair(Pair(k, v), queries) == Some(queries[PlusToSpace(k) := PlusToSpace(v)])
  {
    UrlRoundTrip(k);
    UrlRoundTrip(v);
    IndexOfAt(UrlEncode(k), '=', UrlEncode(v));
  }

  /** The pairs of `m` at `keys`, every '+' a space, laid over `queries`. */
  function Spaced(m: map<string, string>, keys: seq<string>, queries: map<string, string>): map<string, string>
    requires forall k | k in keys :: k in m
    decreases |keys|
  {
    if keys == [] then queries
    else Spaced(m, keys[1..], queries[PlusToSpace(keys[0]) := PlusToSpace(m[keys[0]])])
  }

  lemma {:induction false} PairsParse(m: map<string, string>, keys: seq<string>, queries: map<string, string>)
    requires SevenBitMap(m) && forall k | k in keys :: k in m
    ensures ParsePairs(Pairs(m, keys), queries) == Some(Spaced(m, keys, queries))
    decreases |keys|
  {
    if keys != [] {
      PairParses(keys[0], m[keys[0]], queries);
      PairsParse(m, keys[1..], queries[PlusToSpace(keys[0]) := PlusToSpace(m[keys[0]])]);
    }
  }

  /** What a form comes back as, for every 7-bit map: its pairs with every '+' turned to a space. */
  lemma FormReads(m: map<string, string>, keys: seq<string>, queries: map<string, string>)
    requires SevenBitMap(m) && forall k | k in keys :: k in m
    ensures ParseForm(FormBody(m, keys), queries) == Some(Spaced(m, keys, queries))
  {
    BodyTokens(m, keys);
    PairsParse(m, keys, queries);
  }

  ghost predicate PlusFree(m: map<string, string>) {
    forall k | k in m :: '+' !in k && '+' !in m[k]
  }

  lemma {:induction false} SpacedPlusFree(m: map<string, string>, keys: seq<string>, queries: map<string, string>)
    requires PlusFree(queries) && forall k | k in keys :: k in m
    ensures PlusFree(Spaced(m, keys, queries))
    decreases |keys|
  {
    if keys != [] {
      PlusToSpaceIs(keys[0]);
      PlusToSpaceIs(m[keys[0]]);
      SpacedPlusFree(m, keys[1..], queries[PlusToSpace(keys[0]) := PlusToSpace(m[keys[0]])]);
    }
  }

  lemma {:induction false} SpacedSame(m: map<string, string>, keys: seq<string>, queries: map<string, string>)
    requires PlusFree(m) && forall k | k in keys :: k in m
    ensures Spaced(m, keys, queries) == queries + map k | k in keys :: m[k]
    decreases |keys|
  {
    if keys != [] {
      PlusToSpaceIs(keys[0]);
      PlusToSpaceIs(m[keys[0]]);
      SpacedSame(m, keys[1..], queries[keys[0] := m[keys[0]]]);
    }
  }

  /** A form of 7-bit pairs comes back unchanged exactly when no key and no value has a '+'. */
  lemma FormRoundTrip(m: map<string, string>, keys: seq<string>)
    requires SevenBitMap(m) && (forall k | k in keys :: k in m) && (forall k | k in m :: k in keys)
    ensures ParseForm(FormBody(m, keys), map[]) == Some(m) <==> PlusFree(m)
  {
    FormReads(m, keys, map[]);
    if PlusFree(m) {
      SpacedSame(m, keys, map[]);
      assert map[] + (map k | k in keys :: m[k]) == m;
    } else {
      SpacedPlusFree(m, keys, map[]);
    }
  }

  // ---------------------------------------------------------------- as the code runs

  lemma {:induction false} EncodeSnoc(s: string, i: nat)
    requires SevenBit(s) && i < |s|
    ensures UrlEncode(s[..i + 1]) == UrlEncode(s[..i]) + EncodeChar(s[i])
    decreases i
  {
    hide EncodeChar;
    if i == 0 {
      assert s[..1][1..] == "" && UrlEncode("") == "";
    } else {
      EncodeSnoc(s[1..], i - 1);
      assert s[1..][..i] == s[..i + 1][1..] && s[1..][..i - 1] == s[..i][1..];
    }
  }

  method EncodeUrl(input: string) returns (output: string)
    requires SevenBit(input)
    ensures output == UrlEncode(input)
  {
    output := "";
    var i := 0;
    while i < |input|
      invariant 0 <= i <= |input| && output == UrlEncode(input[..i])
    {
      hide UrlEncode;
      EncodeSnoc(input, i);
      var ch := input[i];
      if ch == ' ' {
        output := output + "+";
      } else if Plain(ch) {
        output := output + [ch];
      } else {
        output := output + ['%', DIGITS[ch as int / 16], DIGITS[ch as int % 16]];
      }
      assert output == UrlEncode(input[..i]) + EncodeChar(ch);
      i := i + 1;
    }
    assert input[..|input|] == input;
  }

  method DecodeUrl(input: string) returns (output: string)
    requires UrlDecode(input).Some?
    ensures Some(output) == UrlDecode(input)
  {
    output := "";
    var i := 0;
    ghost var result := UrlDecode(input).value;
    assert input[0..] == input && "" + result == result;
    while i < |input|
      invariant 0 <= i <= |input| && UrlDecode(input[i..]).Some?
      invariant output + UrlDecode(input[i..]).value == result
      decreases |input| - i
    {
      ghost var left, before := input[i..], output;
      var ch := input[i];
      i := i + 1;
      assert left[1..] == input[i..];
      if ch == '+' {
        output := output + " ";
      } else if ch == '%' {
        if i + 1 < |input| {
          assert left[3..] == input[i + 2..];
          var decoded := Htoi(input[i], input[i + 1]);
          output := output + [decoded.value];
          i := i + 2;
        }
      } else {
        output := output + [ch];
      }
      if output != before {
        Associative(before, output[|before|..], UrlDecode(input[i..]).value);
      }
    }
    assert input[|input|..] == "" && output + "" == output;
  }

  lemma FormBodySnoc(m: map<string, string>, keys: seq<string>, i: nat)
    requires SevenBitMap(m) && i < |keys| && forall k | k in keys :: k in m
    ensures var body := FormBody(m, keys[..i]);
      FormBody(m, keys[..i + 1]) == (if body == "" then "" else body + "&") + Pair(keys[i], m[keys[i]])
  {
    assert keys[..i + 1][..i] == keys[..i];
  }

  class HttpContent {
    var contentIsForm: bool
    var queries: map<string, string>
    var body: string

    static method AppendPair(text: string, k: string, v: string) returns (result: string)
      requires SevenBit(k) && SevenBit(v)
      ensures result == text + Pair(k, v)
    {
      var temp := EncodeUrl(k);
      result := text + temp;
      result := result + "=";
      temp := EncodeUrl(v);
      result := result + temp;
      Associative(text, UrlEncode(k), "=");
      Associative(text, UrlEncode(k) + "=", UrlEncode(v));
    }

    /** The body branch of generate, over the queries in iteration order. */
    method GenerateBody(keys: seq<string>) returns (result: string)
      requires SevenBitMap(queries) && forall k | k in keys :: k in queries
      ensures result == if contentIsForm then FormBody(queries, keys) else body
    {
      if !contentIsForm {
        return body;
      }
      result := "";
      var i := 0;
      while i < |keys|
        invariant 0 <= i <= |keys| && result == FormBody(queries, keys[..i])
      {
        hide Pair, SevenBit;
        FormBodySnoc(queries, keys, i);
        if result != "" {
          result := result + "&";
        }
        result := AppendPair(result, keys[i], queries[keys[i]]);
        i := i + 1;
      }
      assert keys[..|keys|] == keys;
    }

    method AddPair(token: string)
      requires ParsePair(token, queries).Some?
      modifies this`queries
      ensures Some(queries) == ParsePair(token, old(queries))
    {
      var p := IndexOf(token, '=');
      if p >= 0 {
        var key := DecodeUrl(token[..p]);
        var value := DecodeUrl(token[p + 1..]);
        queries := queries[key := value];
      }
    }

    method SetRequestBody(text: string)
      requires |text| < NPOS && (contentIsForm ==> ParseForm(text, queries).Some?)
      modifies this
      ensures contentIsForm == old(contentIsForm)
      ensures contentIsForm ==> Some(queries) == ParseForm(text, old(queries)) && body == old(body)
      ensures !contentIsForm ==> queries == old(queries) && body == text
    {
      if !contentIsForm {
        body := text;
        return;
      }
      var tok := new StringTokenizer(text, "&", true);
      ghost var result := ParsePairs(tok.Remaining(), queries);
      hide ParsePair, ParseForm;
      var more := tok.HasMoreTokens();
      while more
        invariant tok.Valid() && fresh(tok) && more == (tok.Remaining() != [])
        invariant ParsePairs(tok.Remaining(), queries) == result && result.Some?
        invariant contentIsForm && body == old(body)
        decreases |tok.Remaining()|
      {
        var token := tok.GetNextToken();
        AddPair(token);
        more := tok.HasMoreTokens();
      }
    }
  }
}
