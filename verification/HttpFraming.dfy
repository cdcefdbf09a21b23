/**
 * HTTP/1.0 request framing of src/net/NetHttpSerPost.cpp over a socket that
 * delivers its stream in arbitrary pieces (sections 4.2 and 7.2.2 of RFC 1945).
 */
module HttpFraming {
  import opened Collections

  const HEADER_END := "\r\n\r\n"
  const READ_SIZE: nat := 16 * 1024
  const BUFF_SIZE: nat := 1024

  /** The blank line that ends the headers starts at `p`. */
  predicate EndsAt(s: string, p: int) {
    0 <= p <= |s| - 4 && s[p] == '\r' && s[p + 1] == '\n' && s[p + 2] == '\r' && s[p + 3] == '\n'
  }

  /** The first header end in `s` from position `i` on, or -1. */
  function FindEnd(s: string, i: nat): (p: int)
    ensures p == -1 || (i <= p && EndsAt(s, p))
    ensures forall q | i <= q < (if p == -1 then |s| else p) :: !EndsAt(s, q)
    decreases |s| - i
  {
    if i >= |s| then -1 else if EndsAt(s, i) then i else FindEnd(s, i + 1)
  }

  /** A header end found in a part of a text is the first one of the whole. */
  lemma FindInPrefix(s: string, n: nat)
    requires n <= |s| && FindEnd(s[..n], 0) >= 0
    ensures FindEnd(s, 0) == FindEnd(s[..n], 0) <= n - 4
  {
    var p, q := FindEnd(s[..n], 0), FindEnd(s, 0);
    assert EndsAt(s, p);
    if q < p {
      assert EndsAt(s[..n], q);
    }
  }

  /** What the framing makes of a stream: a header and body to be served, or a 400 reply. */
  datatype Outcome = Request(header: string, body: string) | Rejected

  /**
   * The request at the front of a stream.  `parse` is parseHeader followed by
   * reading Content-Length; it yields nothing when the header is malformed.
   */
  function Framed(s: string, parse: string -> Option<int>): Outcome {
    var p := FindEnd(s, 0);
    if p < 0 then Rejected
    else
      match parse(s[..p])
      case None => Rejected
      case Some(n) =>
        if n < 0 || |s| - p - 4 < n then Rejected else Request(s[..p], s[p + 4..p + 4 + n])
  }

  function Min(a: nat, b: nat): nat { if a < b then a else b }

  /** What reaches a C string: everything before the first NUL. */
  function Visible(s: string): string {
    if s == "" || s[0] == '\0' then "" else [s[0]] + Visible(s[1..])
  }

  predicate NulFree(s: string) {
    '\0' !in s
  }

  lemma {:induction false} VisibleWhole(s: string)
    requires NulFree(s)
    ensures Visible(s) == s
  {
    if s != "" {
      assert s[0] in s;
      VisibleWhole(s[1..]);
    }
  }

  // ---------------------------------------------------------------- the connection

  /**
   * What the network does next: nothing arrives in time, at most so many
   * characters arrive (none: the peer has shut down), or receiving fails.
   */
  datatype Event = Quiet | Piece(most: nat) | Broken

  /** The characters on their way, what the network will do, and whether the socket still counts as connected. */
  datatype Connection = Connection(stream: string, script: seq<Event>, open: bool)

  /** A call of `read`: whether it fails, what it counts, what it appends, and the connection it leaves. */
  datatype Reply = Reply(ok: bool, count: nat, text: string, after: Connection)

  /** What the next piece takes, when one arrives. */
  function PieceSize(c: Connection, size: nat): (n: nat)
    ensures n <= size && n <= |c.stream|
    ensures n > 0 ==> c.script != [] && c.script[0].Piece?
  {
    if c.script == [] || !c.script[0].Piece? then 0
    else Min(Min(c.script[0].most, Min(size, BUFF_SIZE)), |c.stream|)
  }

  /** The receiving loop of `read`; the script running out breaks the connection. */
  function Receive(c: Connection, size: nat): (r: Reply)
    ensures |r.after.script| <= |c.script|
    ensures r.ok && size > 0 ==> |r.after.script| < |c.script|
    ensures r.count <= size
    decreases |c.script|
  {
    if size == 0 then Reply(true, 0, "", c)
    else if c.script == [] then Reply(false, 0, "", c.(open := false))
    else
      var later := c.script[1..];
      match c.script[0]
      case Quiet => Reply(true, 0, "", c.(script := later))
      case Broken => Reply(false, 0, "", c.(script := later, open := false))
      case Piece(most) =>
        var n := PieceSize(c, size);
        if n == 0 then Reply(true, 0, "", c.(script := later, open := false))
        else
          var r := Receive(c.(stream := c.stream[n..], script := later), size - n);
          Reply(r.ok, n + r.count, Visible(c.stream[..n]) + r.text, r.after)
  }

  function ReplyTo(c: Connection, size: nat): (r: Reply)
    ensures r.ok && size > 0 ==> |r.after.script| < |c.script|
    ensures r.count <= size
  {
    if c.open then Receive(c, size) else Reply(false, 0, "", c)
  }

  lemma Slices(s: string, k: nat, n: nat)
    requires k + n <= |s|
    ensures s[..k] + s[k..][..n] == s[..k + n] && s[k..][n..] == s[k + n..]
    ensures NulFree(s) ==> NulFree(s[..k]) && NulFree(s[k..])
  {
  }

  /** A read that ends before anything more arrives. */
  function Stopped(c: Connection): Reply {
    if c.script == [] then Reply(false, 0, "", c.(open := false))
    else
      var later := c.(script := c.script[1..]);
      match c.script[0]
      case Quiet => Reply(true, 0, "", later)
      case Broken => Reply(false, 0, "", later.(open := false))
      case Piece(_) => Reply(true, 0, "", later.(open := false))
  }

  lemma ReceiveNothing(c: Connection)
    ensures Receive(c, 0) == Reply(true, 0, "", c)
  {
  }

  lemma ReceiveUnfolds(c: Connection, size: nat)
    requires size > 0
    ensures var n := PieceSize(c, size);
      Receive(c, size) ==
        if n == 0 then Stopped(c)
        else
          var r := Receive(c.(stream := c.stream[n..], script := c.script[1..]), size - n);
          Reply(r.ok, n + r.count, Visible(c.stream[..n]) + r.text, r.after)
  {
  }

  /** Without NULs a read appends exactly what it takes off the stream. */
  lemma {:induction false} ReceiveTakes(c: Connection, size: nat)
    requires NulFree(c.stream)
    ensures var r := Receive(c, size);
      r.count <= |c.stream| && r.text == c.stream[..r.count] && r.after.stream == c.stream[r.count..]
    decreases |c.script|
  {
    hide Receive, Visible, NulFree, PieceSize;
    if size == 0 {
      ReceiveNothing(c);
      return;
    }
    ReceiveUnfolds(c, size);
    var n := PieceSize(c, size);
    if n > 0 {
      var c' := c.(stream := c.stream[n..], script := c.script[1..]);
      Slices(c.stream, n, 0);
      ReceiveTakes(c', size - n);
      Slices(c.stream, n, Receive(c', size - n).count);
      VisibleWhole(c.stream[..n]);
    }
  }

  lemma ReplyTakes(c: Connection, size: nat)
    requires NulFree(c.stream)
    ensures var r := ReplyTo(c, size);
      r.count <= |c.stream| && r.text == c.stream[..r.count] && r.after.stream == c.stream[r.count..]
  {
    ReceiveTakes(c, size);
  }

  // ---------------------------------------------------------------- what the server answers

  datatype Heard = Heard(text: string, after: Connection) | Lost

  /** getHttpHeader: read until the text holds a blank line. */
  function HeaderRead(c: Connection, text: string): Heard
    decreases |c.script|
  {
    if FindEnd(text, 0) >= 0 then Heard(text, c)
    else
      var r := ReplyTo(c, READ_SIZE);
      if r.ok then HeaderRead(r.after, text + r.text) else Lost
  }

  /** The body loop: read until nothing is missing; an empty read gives up. */
  function BodyRead(c: Connection, body: string, missing: int): Option<string>
    decreases |c.script|
  {
    if missing <= 0 then Some(body)
    else
      var r := ReplyTo(c, missing);
      if r.ok && r.count > 0 then BodyRead(r.after, body + r.text, missing - |r.text|) else None
  }

  /** The body for an announced length, from what came with the header on. */
  function BodyFor(c: Connection, start: string, length: int): Option<string> {
    if length >= |start| then BodyRead(c, start, length - |start|)
    // longer than announced: substr; a negative length, as a size, cuts nothing
    else if length >= 0 then Some(start[..length])
    else Some(start)
  }

  /** readRequest once `text` was read, with a blank line in it. */
  function Served(text: string, after: Connection, parse: string -> Option<int>): Outcome {
    var p := FindEnd(text, 0);
    if p < 0 then Rejected
    else
      match parse(text[..p])
      case None => Rejected
      case Some(n) =>
        match BodyFor(after, text[p + 4..], n)
        case None => Rejected
        // parseBody compares the announced length with the body's
        case Some(body) => if n == |body| then Request(text[..p], body) else Rejected
  }

  /** readRequest. */
  function Answer(c: Connection, parse: string -> Option<int>): Outcome {
    match HeaderRead(c, "")
    case Lost => Rejected
    case Heard(text, after) => Served(text, after, parse)
  }

  /** A closed socket, as a failure or the end of the stream leaves it, gives no request, whatever it would deliver. */
  lemma ClosedIsRejected(c: Connection, parse: string -> Option<int>)
    requires !c.open
    ensures Answer(c, parse) == Rejected
  {
  }

  // ---------------------------------------------------------------- when it is served

  /** The connection once `left` more characters have been read, empty reads included; None if a read fails first. */
  function PastHeader(c: Connection, left: int): Option<Connection>
    decreases |c.script|
  {
    if left <= 0 then Some(c)
    else
      var r := ReplyTo(c, READ_SIZE);
      if r.ok then PastHeader(r.after, left - r.count) else None
  }

  /** `left` more characters come without a failing or empty read. */
  predicate BodyComes(c: Connection, left: int)
    decreases |c.script|
  {
    left <= 0 || (var r := ReplyTo(c, left); r.ok && r.count > 0 && BodyComes(r.after, left - r.count))
  }

  /** With `k` characters read, the rest of the announced body comes. */
  predicate BodyDelivered(s: string, k: nat, after: Connection, parse: string -> Option<int>)
    requires FindEnd(s, 0) >= 0
  {
    var p := FindEnd(s, 0);
    match parse(s[..p])
    case None => false
    case Some(n) => BodyComes(after, p + 4 + n - k)
  }

  /** No read fails before the blank line, and none fails or comes back empty before the announced length is there. */
  predicate Delivered(c: Connection, parse: string -> Option<int>) {
    FindEnd(c.stream, 0) >= 0 &&
    match PastHeader(c, FindEnd(c.stream, 0) + 4)
    case None => false
    case Some(after) =>
      |after.stream| <= |c.stream| && BodyDelivered(c.stream, |c.stream| - |after.stream|, after, parse)
  }

  /** Text read so far and text to come: it holds a blank line exactly when it reaches the end of the first one. */
  lemma EndReached(s: string, n: nat)
    requires n <= |s|
    ensures FindEnd(s[..n], 0) >= 0 <==> 0 <= FindEnd(s, 0) <= n - 4
    ensures FindEnd(s[..n], 0) >= 0 ==> FindEnd(s[..n], 0) == FindEnd(s, 0)
  {
    if FindEnd(s[..n], 0) >= 0 {
      FindInPrefix(s, n);
    } else if 0 <= FindEnd(s, 0) <= n - 4 {
      assert EndsAt(s, FindEnd(s, 0));
      assert EndsAt(s[..n], FindEnd(s, 0));
    }
  }

  /** The header loop stops with exactly the text that is no longer on the stream. */
  lemma {:induction false} HeaderReadIs(s: string, k: nat, c: Connection)
    requires NulFree(s) && k <= |s| && c.stream == s[k..]
    ensures FindEnd(s, 0) < 0 ==> HeaderRead(c, s[..k]) == Lost
    ensures FindEnd(s, 0) >= 0 ==>
      match PastHeader(c, FindEnd(s, 0) + 4 - k)
      case None => HeaderRead(c, s[..k]) == Lost
      case Some(after) => HeardUpTo(s, |s| - |after.stream|, after, HeaderRead(c, s[..k]))
    decreases |c.script|
  {
    hide FindEnd, EndsAt, ReplyTo, NulFree;
    EndReached(s, k);
    var r := ReplyTo(c, READ_SIZE);
    if FindEnd(s[..k], 0) < 0 && r.ok {
      Slices(s, k, 0);
      ReplyTakes(c, READ_SIZE);
      Slices(s, k, r.count);
      HeaderReadIs(s, k + r.count, r.after);
    }
  }

  /** The first `n` characters of `s` were heard, the blank line among them, and the others are still to come. */
  ghost predicate HeardUpTo(s: string, n: int, after: Connection, heard: Heard) {
    0 <= FindEnd(s, 0) + 4 <= n <= |s| && after.stream == s[n..] && heard == Heard(s[..n], after)
  }

  /** The body loop succeeds exactly when the body comes, with exactly the missing characters. */
  lemma {:induction false} BodyReadIs(c: Connection, body: string, missing: nat)
    requires NulFree(c.stream)
    ensures BodyRead(c, body, missing).Some? <==> BodyComes(c, missing)
    ensures BodyComes(c, missing) ==>
      missing <= |c.stream| && BodyRead(c, body, missing) == Some(body + c.stream[..missing])
    decreases |c.script|
  {
    hide ReplyTo, NulFree;
    if missing > 0 {
      var r := ReplyTo(c, missing);
      ReplyTakes(c, missing);
      if r.ok && r.count > 0 {
        Slices(c.stream, r.count, 0);
        BodyReadIs(r.after, body + r.text, missing - r.count);
        if BodyComes(c, missing) {
          Associative(body, c.stream[..r.count], c.stream[r.count..][..missing - r.count]);
          Slices(c.stream, r.count, missing - r.count);
        }
      }
    } else {
      assert body + c.stream[..0] == body;
    }
  }

  lemma HeaderReadFromStart(c: Connection)
    requires NulFree(c.stream)
    ensures FindEnd(c.stream, 0) < 0 ==> HeaderRead(c, "") == Lost
    ensures FindEnd(c.stream, 0) >= 0 ==>
      match PastHeader(c, FindEnd(c.stream, 0) + 4)
      case None => HeaderRead(c, "") == Lost
      case Some(after) => HeardUpTo(c.stream, |c.stream| - |after.stream|, after, HeaderRead(c, ""))
  {
    hide FindEnd, EndsAt, HeaderRead, PastHeader, HeardUpTo, NulFree;
    assert c.stream[..0] == "" && c.stream[0..] == c.stream;
    HeaderReadIs(c.stream, 0, c);
  }

  /**
   * The server serves what the stream frames exactly when the reads deliver
   * it, however they cut the stream into pieces, and rejects otherwise.
   */
  lemma AnswerIs(c: Connection, parse: string -> Option<int>)
    requires NulFree(c.stream)
    ensures Answer(c, parse) == if Delivered(c, parse) then Framed(c.stream, parse) else Rejected
  {
    hide FindEnd, HeaderRead, PastHeader, BodyDelivered, HeardUpTo, Served, Framed, NulFree;
    HeaderReadFromStart(c);
    if FindEnd(c.stream, 0) >= 0 {
      var past := PastHeader(c, FindEnd(c.stream, 0) + 4);
      if past.Some? {
        ServedIs(c.stream, |c.stream| - |past.value.stream|, past.value, HeaderRead(c, ""), parse);
      }
    }
  }

  lemma ServedIs(s: string, k: int, after: Connection, heard: Heard, parse: string -> Option<int>)
    requires NulFree(s) && FindEnd(s, 0) >= 0 && HeardUpTo(s, k, after, heard)
    ensures heard.Heard? && |after.stream| <= |s|
    ensures Served(heard.text, heard.after, parse)
      == if BodyDelivered(s, k, after, parse) then Framed(s, parse) else Rejected
  {
    hide FindEnd, EndsAt, BodyFor, BodyComes, NulFree;
    var p := FindEnd(s, 0);
    EndReached(s, k);
    Slices(s, k, 0);
    assert s[..k][..p] == s[..p];
    if parse(s[..p]).Some? {
      BodyForIs(s, k, p + 4, after, parse(s[..p]).value);
      assert s[..k][p + 4..] == s[p + 4..k];
    }
  }

  /** The body taken from what was read beyond the header and from the stream. */
  lemma BodyForIs(s: string, k: nat, start: nat, after: Connection, n: int)
    requires NulFree(after.stream) && start <= k <= |s| && after.stream == s[k..]
    ensures n < 0 ==> BodyFor(after, s[start..k], n) == Some(s[start..k]) && BodyComes(after, start + n - k)
    ensures n >= 0 ==>
      if BodyComes(after, start + n - k)
      then start + n <= |s| && BodyFor(after, s[start..k], n) == Some(s[start..start + n])
      else BodyFor(after, s[start..k], n) == None
  {
    hide NulFree, BodyRead;
    if n >= k - start {
      BodyReadIs(after, s[start..k], start + n - k);
      if BodyComes(after, start + n - k) {
        Glue(s, start, k, start + n - k);
      }
    } else if n >= 0 {
      assert s[start..k][..n] == s[start..start + n];
    }
  }

  lemma Glue(s: string, start: nat, k: nat, n: nat)
    requires start <= k && k + n <= |s|
    ensures s[start..k] + s[k..][..n] == s[start..k + n]
  {
  }

  /** A framed request is rejected exactly when the reads do not deliver it. */
  lemma RejectedUnlessDelivered(c: Connection, parse: string -> Option<int>)
    requires NulFree(c.stream) && Framed(c.stream, parse).Request?
    ensures Answer(c, parse) == Rejected <==> !Delivered(c, parse)
    ensures Delivered(c, parse) ==> Answer(c, parse) == Framed(c.stream, parse)
  {
    AnswerIs(c, parse);
  }

  /** Any two ways of cutting a stream that deliver a request get the same answer. */
  lemma SegmentationIrrelevant(c: Connection, d: Connection, parse: string -> Option<int>)
    requires NulFree(c.stream) && c.stream == d.stream && Delivered(c, parse) && Delivered(d, parse)
    ensures Answer(c, parse) == Answer(d, parse) == Framed(c.stream, parse)
  {
    AnswerIs(c, parse);
    AnswerIs(d, parse);
  }

  /** Something arrives whenever the socket waits, as long as anything is left. */
  ghost predicate Flowing(c: Connection) {
    c.open && |c.script| > |c.stream| && forall e | e in c.script :: e.Piece? && e.most > 0
  }

  lemma {:induction false} FlowingReceives(c: Connection, size: nat)
    requires Flowing(c) && size > 0
    ensures var r := Receive(c, size);
      && r.ok && (c.stream != "" ==> r.count > 0) && r.count + |r.after.stream| == |c.stream|
      && (Flowing(r.after) || r.after.stream == "")
    decreases |c.script|
  {
    hide Visible;
    assert c.script[0] in c.script;
    var n := PieceSize(c, size);
    if 0 < n < size {
      FlowingReceives(c.(stream := c.stream[n..], script := c.script[1..]), size - n);
    }
  }

  lemma {:induction false} FlowingPastHeader(c: Connection, left: int)
    requires Flowing(c) && left <= |c.stream|
    ensures var past := PastHeader(c, left);
      && past.Some? && left <= |c.stream| - |past.value.stream|
      && (Flowing(past.value) || past.value.stream == "")
    decreases |c.script|
  {
    hide Receive;
    if left > 0 {
      FlowingReceives(c, READ_SIZE);
      var r := ReplyTo(c, READ_SIZE);
      if left > r.count {
        FlowingPastHeader(r.after, left - r.count);
      }
    }
  }

  lemma {:induction false} FlowingBody(c: Connection, left: int)
    requires Flowing(c) && left <= |c.stream|
    ensures BodyComes(c, left)
    decreases |c.script|
  {
    hide Receive;
    if left > 0 {
      FlowingReceives(c, left);
      var r := ReplyTo(c, left);
      if left > r.count {
        FlowingBody(r.after, left - r.count);
      }
    }
  }

  /** A framed request is served when its characters keep flowing, in pieces of any sizes. */
  lemma FlowingDelivers(c: Connection, parse: string -> Option<int>)
    requires Flowing(c) && Framed(c.stream, parse).Request?
    ensures Delivered(c, parse)
  {
    hide Flowing, PastHeader, FindEnd;
    var p := FindEnd(c.stream, 0);
    FlowingPastHeader(c, p + 4);
    var after := PastHeader(c, p + 4).value;
    var left := p + 4 + parse(c.stream[..p]).value - (|c.stream| - |after.stream|);
    if left > 0 {
      FlowingBody(after, left);
    }
  }

  function Silence(n: nat): seq<Event> {
    seq(n, _ => Quiet)
  }

  /** The header loop sits out any number of reads in which nothing arrives. */
  lemma SilenceChangesNothing(c: Connection, parse: string -> Option<int>, n: nat)
    requires c.open
    ensures Answer(c.(script := Silence(n) + c.script), parse) == Answer(c, parse)
  {
    SilentReads(c, n);
  }

  lemma {:induction false} SilentReads(c: Connection, n: nat)
    requires c.open
    ensures HeaderRead(c.(script := Silence(n) + c.script), "") == HeaderRead(c, "")
  {
    var silent := c.(script := Silence(n) + c.script);
    if n == 0 {
      assert silent.script == c.script;
    } else {
      assert silent.script[1..] == Silence(n - 1) + c.script;
      assert ReplyTo(silent, READ_SIZE) == Reply(true, 0, "", c.(script := Silence(n - 1) + c.script));
      SilentReads(c, n - 1);
    }
  }

  // ---------------------------------------------------------------- streams with NULs

  /** `script` brings all of `s`, in one read. */
  predicate DeliversAll(s: string, script: seq<Event>) {
    var r := Receive(Connection(s, script, true), |s|);
    r.ok && r.count == |s|
  }

  /** What a read of all of `s` appends. */
  function Shown(s: string, script: seq<Event>): string {
    Receive(Connection(s, script, true), |s|).text
  }

  /** Nothing but NULs follows a NUL. */
  predicate NulsLast(s: string) {
    forall i | 0 <= i < |s| - 1 && s[i] == '\0' :: s[i + 1] == '\0'
  }

  function WithoutNuls(s: string): string {
    if s == "" then "" else (if s[0] == '\0' then "" else [s[0]]) + WithoutNuls(s[1..])
  }

  function Singly(n: nat): seq<Event> {
    seq(n, _ => Piece(1))
  }

  lemma {:induction false} VisibleJoins(a: string, b: string)
    requires NulsLast(a + b)
    ensures Visible(a) + Visible(b) == Visible(a + b)
  {
    if a == "" {
      assert a + b == b;
    } else if a[0] == '\0' {
      AllNuls(a + b);
      assert b != "" ==> b[0] == (a + b)[|a|];
    } else {
      assert (a + b)[1..] == a[1..] + b;
      assert forall i | 0 <= i < |a[1..] + b| :: (a[1..] + b)[i] == (a + b)[i + 1];
      VisibleJoins(a[1..], b);
    }
  }

  lemma {:induction false} AllNuls(s: string)
    requires NulsLast(s) && (s == "" || s[0] == '\0')
    ensures forall i | 0 <= i < |s| :: s[i] == '\0'
  {
    if |s| > 1 {
      assert forall i | 0 <= i < |s[1..]| :: s[1..][i] == s[i + 1];
      AllNuls(s[1..]);
      assert forall i | 0 < i < |s| :: s[i] == s[1..][i - 1];
    }
  }

  lemma {:induction false} NulsLastShown(s: string, script: seq<Event>)
    requires NulsLast(s) && DeliversAll(s, script)
    ensures Shown(s, script) == Visible(s)
    decreases |script|
  {
    hide Receive, PieceSize, Visible;
    var c := Connection(s, script, true);
    if s == "" {
      ReceiveNothing(c);
      VisibleWhole(s);
    } else {
      ReceiveUnfolds(c, |s|);
      var n := PieceSize(c, |s|);
      assert forall i | 0 <= i < |s[n..]| :: s[n..][i] == s[i + n];
      NulsLastShown(s[n..], script[1..]);
      assert s[..n] + s[n..] == s;
      VisibleJoins(s[..n], s[n..]);
    }
  }

  /** One turn of the loop in which a piece of `n` arrives. */
  lemma PieceShown(s: string, n: nat, script: seq<Event>)
    requires 0 < n <= |s| && n <= 2 && DeliversAll(s[n..], script)
    ensures DeliversAll(s, [Piece(n)] + script)
    ensures Shown(s, [Piece(n)] + script) == Visible(s[..n]) + Shown(s[n..], script)
  {
    assert ([Piece(n)] + script)[1..] == script;
    ReceiveUnfolds(Connection(s, [Piece(n)] + script, true), |s|);
    hide Receive, Visible;
  }

  lemma {:induction false} SinglyShown(s: string)
    ensures DeliversAll(s, Singly(|s|)) && Shown(s, Singly(|s|)) == WithoutNuls(s)
  {
    hide Receive;
    if s == "" {
      ReceiveNothing(Connection(s, Singly(0), true));
    } else {
      hide Singly, Visible, Shown, DeliversAll;
      SinglyShown(s[1..]);
      PieceShown(s, 1, Singly(|s| - 1));
      SinglyUnfolds(|s|);
      assert s[..1] == [s[0]];
    }
  }

  lemma SinglyUnfolds(n: nat)
    requires n > 0
    ensures [Piece(1)] + Singly(n - 1) == Singly(n)
  {
  }

  /** All characters singly, but for those at `i` and `i + 1`. */
  function Paired(n: nat, i: nat): seq<Event>
    requires i + 1 < n
  {
    Singly(i) + ([Piece(2)] + Singly(n - i - 2))
  }

  lemma {:induction false} PairedShown(s: string, i: nat)
    requires i + 1 < |s| && s[i] == '\0' && s[i + 1] != '\0'
    ensures DeliversAll(s, Paired(|s|, i)) && |Shown(s, Paired(|s|, i))| < |WithoutNuls(s)|
    decreases i
  {
    hide Receive;
    if i == 0 {
      SinglyShown(s[2..]);
      PieceShown(s, 2, Singly(|s| - 2));
      assert Paired(|s|, 0) == [Piece(2)] + Singly(|s| - 2);
      assert Visible(s[..2]) == "" && s[1..][1..] == s[2..];
    } else {
      PairedShown(s[1..], i - 1);
      PieceShown(s, 1, Paired(|s| - 1, i - 1));
      assert Paired(|s|, i) == [Piece(1)] + Paired(|s| - 1, i - 1);
      assert s[..1] == [s[0]] && [s[0]][1..] == "";
    }
  }

  /** The way a stream is cut makes no difference to what is read of it exactly when its NULs come last. */
  lemma SegmentationMatters(s: string)
    ensures NulsLast(s) <==>
      forall a, b :: DeliversAll(s, a) && DeliversAll(s, b) ==> Shown(s, a) == Shown(s, b)
  {
    hide Receive;
    if NulsLast(s) {
      forall a, b | DeliversAll(s, a) && DeliversAll(s, b)
        ensures Shown(s, a) == Shown(s, b)
      {
        NulsLastShown(s, a);
        NulsLastShown(s, b);
      }
    } else {
      var i :| 0 <= i < |s| - 1 && s[i] == '\0' && s[i + 1] != '\0';
      SinglyShown(s);
      PairedShown(s, i);
      assert Shown(s, Singly(|s|)) != Shown(s, Paired(|s|, i));
    }
  }

  const NUL_STREAM := HEADER_END + "\0a"

  /** A request cut inside its NULs: the same stream is rejected in one piece of six and served in five and one. */
  lemma NulAnswersDiffer(parse: string -> Option<int>)
    requires parse("") == Some(1)
    ensures Answer(Connection(NUL_STREAM, [Piece(6), Quiet], true), parse) == Rejected
    ensures Answer(Connection(NUL_STREAM, [Piece(5), Piece(1), Quiet], true), parse) == Request("", "a")
  {
    var left := Connection("", [], true);
    WholeHeader();
    CutHeader();
    assert BodyRead(left, "", 1) == None;
    assert HEADER_END[..0] == "" && HEADER_END[4..] == "";
    assert (HEADER_END + "a")[..0] == "" && (HEADER_END + "a")[4..] == "a";
  }

  lemma WholeHeader()
    ensures HeaderRead(Connection(NUL_STREAM, [Piece(6), Quiet], true), "")
      == Heard(HEADER_END, Connection("", [], true))
    ensures FindEnd(HEADER_END, 0) == 0
  {
    var c := Connection(NUL_STREAM, [Piece(6), Quiet], true);
    var later := Connection("", [Quiet], true);
    hide Visible, Receive;
    ReceiveUnfolds(c, READ_SIZE);
    ReceiveUnfolds(later, READ_SIZE - 6);
    VisibleStops(HEADER_END, NUL_STREAM);
    assert NUL_STREAM[..6] == NUL_STREAM && NUL_STREAM[6..] == "";
    assert c.script[1..] == later.script && later.script[1..] == [];
    assert Receive(c, READ_SIZE) == Reply(true, 6, HEADER_END, Connection("", [], true));
    HeaderAtOnce(c, HEADER_END, Connection("", [], true));
  }

  lemma CutHeader()
    ensures HeaderRead(Connection(NUL_STREAM, [Piece(5), Piece(1), Quiet], true), "")
      == Heard(HEADER_END + "a", Connection("", [], true))
    ensures FindEnd(HEADER_END + "a", 0) == 0
  {
    var c := Connection(NUL_STREAM, [Piece(5), Piece(1), Quiet], true);
    var later, last := Connection("a", [Piece(1), Quiet], true), Connection("", [Quiet], true);
    hide Visible, Receive;
    ReceiveUnfolds(c, READ_SIZE);
    ReceiveUnfolds(later, READ_SIZE - 5);
    ReceiveUnfolds(last, READ_SIZE - 6);
    VisibleStops(HEADER_END, NUL_STREAM[..5]);
    VisibleWhole("a");
    assert NUL_STREAM[5..] == "a" && "a"[..1] == "a" && "a"[1..] == "";
    assert c.script[1..] == later.script && later.script[1..] == last.script && last.script[1..] == [];
    assert Receive(later, READ_SIZE - 5) == Reply(true, 1, "a", Connection("", [], true));
    assert Receive(c, READ_SIZE) == Reply(true, 6, HEADER_END + "a", Connection("", [], true));
    HeaderAtOnce(c, HEADER_END + "a", Connection("", [], true));
  }

  /** A header that the first read completes. */
  lemma HeaderAtOnce(c: Connection, text: string, after: Connection)
    requires c.open && Receive(c, READ_SIZE) == Reply(true, 6, text, after) && EndsAt(text, 0)
    ensures HeaderRead(c, "") == Heard(text, after) && FindEnd(text, 0) == 0
  {
    hide Receive;
    assert "" + text == text && FindEnd("", 0) == -1 && FindEnd(text, 0) == 0;
  }

  lemma {:induction false} VisibleStops(a: string, s: string)
    requires '\0' !in a && |a| < |s| && s[..|a|] == a && s[|a|] == '\0'
    ensures Visible(s) == a
  {
    if a != "" {
      assert s[0] == a[0] && a[0] in a;
      assert s[1..][..|a| - 1] == a[1..];
      VisibleStops(a[1..], s[1..]);
    }
  }

  // ---------------------------------------------------------------- as the code runs

  class Socket {
    var stream: string
    var script: seq<Event>
    var open: bool

    constructor (c: Connection)
      ensures State() == c
    {
      stream, script, open := c.stream, c.script, c.open;
    }

    function State(): Connection
      reads this
    {
      Connection(stream, script, open)
    }

    /** Append what arrives to `buffer`, piece by piece; a negative count is an error. */
    method Read(buffer: string, size: nat) returns (count: int, filled: string)
      modifies this
      ensures var r := ReplyTo(old(State()), size);
        count == (if r.ok then r.count else -1) && filled == buffer + r.text && State() == r.after
    {
      hide Receive, Visible, PieceSize;
      if !open {
        return -1, buffer;
      }
      ghost var all := Receive(State(), size);
      var total, toRead := 0, size;
      filled := buffer;
      while toRead > 0
        invariant total >= 0 && toRead >= 0 && open
        invariant var r := Receive(State(), toRead);
          r.ok == all.ok && total + r.count == all.count && filled + r.text == buffer + all.text && r.after == all.after
        decreases |script|
      {
        ReceiveUnfolds(State(), toRead);
        var n := PieceSize(State(), toRead);
        if n == 0 {
          var ok := Stop();
          return if ok then total else -1, filled;
        }
        ghost var later := Receive(Connection(stream[n..], script[1..], open), toRead - n);
        Associative(filled, Visible(stream[..n]), later.text);
        filled := filled + Visible(stream[..n]);
        stream, script := stream[n..], script[1..];
        total, toRead := total + n, toRead - n;
      }
      ReceiveNothing(State());
      count := total;
    }

    /** Nothing arrives: too late, shut down by the peer, or broken. */
    method Stop() returns (ok: bool)
      modifies this
      ensures State() == Stopped(old(State())).after && ok == Stopped(old(State())).ok
    {
      if script == [] {
        open := false;
        return false;
      }
      var event := script[0];
      script := script[1..];
      if event != Quiet {
        open := false;
      }
      ok := event != Broken;
    }
  }

  /** Read until the blank line that ends the headers is there. */
  method GetHttpHeader(sock: Socket) returns (ok: bool, data: string)
    modifies sock
    ensures ok == HeaderRead(old(sock.State()), "").Heard?
    ensures ok ==> HeaderRead(old(sock.State()), "") == Heard(data, sock.State())
    ensures ok ==> FindEnd(data, 0) >= 0
  {
    data := "";
    while FindEnd(data, 0) < 0
      invariant HeaderRead(sock.State(), data) == HeaderRead(old(sock.State()), "")
      decreases |sock.script|
    {
      var count: int;
      count, data := sock.Read(data, READ_SIZE);
      if count < 0 {
        return false, data;
      }
    }
    ok := true;
  }

  /** Read the body on until it has the announced length, or cut it to that length. */
  method CompleteBody(sock: Socket, start: string, length: int) returns (ok: bool, body: string)
    modifies sock
    ensures if ok then BodyFor(old(sock.State()), start, length) == Some(body)
      else BodyFor(old(sock.State()), start, length) == None
  {
    var numToRead := length - |start|;
    ok, body := true, start;
    if numToRead >= 0 {
      ghost var all := BodyRead(sock.State(), start, numToRead);
      while numToRead > 0 && ok
        invariant ok ==> BodyRead(sock.State(), body, numToRead) == all
        invariant !ok ==> all == None
        decreases |sock.script|, ok
      {
        ghost var r := ReplyTo(sock.State(), numToRead);
        assert "" + r.text == r.text;
        var count, text := sock.Read("", numToRead);
        if count > 0 {
          numToRead := numToRead - |text|;
          body := body + text;
        } else {
          ok := false;
        }
      }
    } else if length >= 0 {
      body := body[..length];
    }
  }

  /** readRequest computes the answer, on every stream and every script. */
  method ReadRequest(sock: Socket, parse: string -> Option<int>) returns (outcome: Outcome)
    modifies sock
    ensures outcome == Answer(old(sock.State()), parse)
  {
    var ok, text := GetHttpHeader(sock);
    if !ok {
      return Rejected;
    }
    var p := FindEnd(text, 0);
    var header, rest := text[..p], text[p + 4..];
    match parse(header)
    case None => { return Rejected; }
    case Some(n) => {
      var body: string;
      ok, body := CompleteBody(sock, rest, n);
      if ok && n == |body| {
        outcome := Request(header, body);
      } else {
        outcome := Rejected;
      }
    }
  }

  /** The header holds no blank line, and does not end in a line end that would complete one early. */
  predicate Closed(header: string) {
    var n := |header|;
    FindEnd(header, 0) < 0 && !(n >= 2 && header[n - 2] == '\r' && header[n - 1] == '\n')
  }

  /** A header followed by a blank line is found to end there exactly when it is closed. */
  lemma HeaderEnds(header: string)
    ensures FindEnd(header + HEADER_END, 0) == |header| <==> Closed(header)
  {
    var s, n := header + HEADER_END, |header|;
    var p := FindEnd(s, 0);
    assert EndsAt(s, n);
    assert forall q :: q + 4 <= n ==> (EndsAt(s, q) <==> EndsAt(header, q));
    if !Closed(header) {
      assert FindEnd(header, 0) >= 0 || EndsAt(s, n - 2);
    }
  }

  /** A closed header is framed with as much of what follows it as it announces. */
  lemma FramedIs(header: string, rest: string, length: int, parse: string -> Option<int>)
    requires Closed(header) && parse(header) == Some(length)
    ensures Framed(header + HEADER_END + rest, parse)
      == if 0 <= length <= |rest| then Request(header, rest[..length]) else Rejected
  {
    var s, n := header + HEADER_END + rest, |header|;
    HeaderEnds(header);
    assert s[..n + 4] == header + HEADER_END;
    FindInPrefix(s, n + 4);
    assert s[..n] == header;
    assert s[n + 4..] == rest;
    if 0 <= length <= |rest| {
      assert s[n + 4..n + 4 + length] == rest[..length];
    }
  }

  /** A well-formed message, whatever follows it, is framed as it was put together. */
  lemma FramedRoundTrip(header: string, body: string, later: string, parse: string -> Option<int>)
    requires Closed(header) && parse(header) == Some(|body|)
    ensures Framed(header + HEADER_END + body + later, parse) == Request(header, body)
  {
    FramedIs(header, body + later, |body|, parse);
    Associative(header + HEADER_END, body, later);
    assert (body + later)[..|body|] == body;
  }
}
