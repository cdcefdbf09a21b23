/**
 * The string tokenizer of h/util/UtilStringTokenizer.h in its default mode,
 * where any one of the pattern's characters delimits.
 */
module Tokenizer {
  import opened Collections

  const NPOS: nat := 0xFFFF_FFFF_FFFF_FFFF

  /** find_first_of: the first position from `from` on holding one of `delims`. */
  function FindFirstOf(s: string, delims: string, from: nat): (p: nat)
    requires |s| < NPOS
    ensures p == NPOS || (from <= p < |s| && s[p] in delims)
    ensures forall i | from <= i < p && i < |s| :: s[i] !in delims
    decreases |s| - from
  {
    if from >= |s| then NPOS
    else if s[from] in delims then from
    else FindFirstOf(s, delims, from + 1)
  }

  /** The string cut at every delimiter; there is always at least one field. */
  function Fields(s: string, delims: string): (fs: seq<string>)
    ensures fs != []
  {
    if s == "" then [""]
    else
      var later := Fields(s[1..], delims);
      if s[0] in delims then [""] + later else [[s[0]] + later[0]] + later[1..]
  }

  function NonEmpty(fs: seq<string>): seq<string> {
    if fs == [] then [] else (if fs[0] == "" then [] else [fs[0]]) + NonEmpty(fs[1..])
  }

  function DropTrailingEmpty(fs: seq<string>): seq<string> {
    if fs != [] && fs[|fs| - 1] == "" then fs[..|fs| - 1] else fs
  }

  /** What the tokenizer yields for the text from the start of a field on. */
  function Tail(s: string, delims: string, skip: bool): seq<string> {
    if skip then NonEmpty(Fields(s, delims)) else DropTrailingEmpty(Fields(s, delims))
  }

  /** What the tokenizer yields for a whole string. */
  function Tokens(s: string, delims: string, skip: bool): seq<string> {
    if skip then (if s != "" && s[0] in delims then [""] else []) + Tail(s, delims, skip)
    else Tail(s, delims, skip)
  }

  // ---------------------------------------------------------------- fields

  /** Without skipping, the tokens are the fields but for an empty one at the end. */
  lemma KeptTokens(s: string, delims: string)
    ensures Tokens(s, delims, false) + (if s == "" || s[|s| - 1] in delims then [""] else []) == Fields(s, delims)
  {
    LastField(s, delims);
    var fs := Fields(s, delims);
    assert fs == fs[..|fs| - 1] + [fs[|fs| - 1]];
  }

  lemma {:induction false} LastField(s: string, delims: string)
    ensures var fs := Fields(s, delims); fs[|fs| - 1] == "" <==> s == "" || s[|s| - 1] in delims
  {
    if s != "" {
      LastField(s[1..], delims);
    }
  }

  /** With skipping, they are the fields with text, after an empty first one if the text starts with a delimiter. */
  lemma SkippedTokens(s: string, delims: string)
    ensures var empty, some := if s != "" && s[0] in delims then [""] else [], Tokens(s, delims, true);
      && empty <= some && some[|empty|..] == NonEmpty(Fields(s, delims))
      && forall i | |empty| <= i < |some| :: some[i] != ""
  {
    var fs := NonEmpty(Fields(s, delims));
    AllNonEmpty(Fields(s, delims));
    assert [] + fs == fs && forall i | 0 <= i < |fs| :: fs[i] in fs;
  }

  lemma {:induction false} AllNonEmpty(fs: seq<string>)
    ensures forall f | f in NonEmpty(fs) :: f != ""
  {
    if fs != [] {
      AllNonEmpty(fs[1..]);
    }
  }

  lemma {:induction false} NoDelimiterOneField(s: string, delims: string)
    requires forall c | c in s :: c !in delims
    ensures Fields(s, delims) == [s]
  {
    if s != "" {
      assert s[0] in s;
      NoDelimiterOneField(s[1..], delims);
      assert [s[0]] + s[1..] == s;
    }
  }

  /** Cutting is compositional: with NoDelimiterOneField this determines Fields. */
  lemma {:induction false} FieldsAtDelimiter(a: string, d: char, b: string, delims: string)
    requires d in delims
    ensures Fields(a + [d] + b, delims) == Fields(a, delims) + Fields(b, delims)
  {
    var s := a + [d] + b;
    if a == "" {
      assert s[1..] == b;
      assert Fields(a, delims) == [""];
    } else {
      FieldsAtDelimiter(a[1..], d, b, delims);
      assert s[1..] == a[1..] + [d] + b && s[0] == a[0];
      var later, rest := Fields(a[1..], delims), Fields(b, delims);
      if a[0] in delims {
        Associative([""], later, rest);
      } else {
        assert (later + rest)[0] == later[0] && (later + rest)[1..] == later[1..] + rest;
        Associative([[a[0]] + later[0]], later[1..], rest);
      }
    }
  }

  lemma {:induction false} NonEmptyAppend(fs: seq<string>, gs: seq<string>)
    ensures NonEmpty(fs + gs) == NonEmpty(fs) + NonEmpty(gs)
  {
    if fs == [] {
      assert fs + gs == gs;
    } else {
      NonEmptyAppend(fs[1..], gs);
      assert (fs + gs)[1..] == fs[1..] + gs;
      Associative(if fs[0] == "" then [] else [fs[0]], NonEmpty(fs[1..]), NonEmpty(gs));
    }
  }

  /** The fields from position `i` on, when the next delimiter from there is at `p`. */
  lemma FieldsFrom(s: string, delims: string, i: nat, p: nat)
    requires |s| < NPOS && i <= |s| && p == FindFirstOf(s, delims, i)
    ensures p == NPOS ==> Fields(s[i..], delims) == [s[i..]]
    ensures p < |s| ==> Fields(s[i..], delims) == [s[i..p]] + Fields(s[p + 1..], delims)
  {
    if p == NPOS {
      NoDelimiterOneField(s[i..], delims);
    } else {
      NoDelimiterOneField(s[i..p], delims);
      FieldsAtDelimiter(s[i..p], s[p], s[p + 1..], delims);
      assert s[i..] == s[i..p] + [s[p]] + s[p + 1..];
    }
  }

  /** A token starting at `i`, and what follows it. */
  lemma TailFrom(s: string, delims: string, skip: bool, i: nat, p: nat)
    requires |s| < NPOS && i < |s| && p == FindFirstOf(s, delims, i) && (skip ==> p != i)
    ensures p == NPOS ==> Tail(s[i..], delims, skip) == [s[i..]]
    ensures p < |s| ==> Tail(s[i..], delims, skip) == [s[i..p]] + Tail(s[p + 1..], delims, skip)
  {
    hide Fields, FindFirstOf;
    FieldsFrom(s, delims, i, p);
    if p == NPOS {
      assert NonEmpty([s[i..]]) == [s[i..]] + NonEmpty([]);
    } else if skip {
      var later := Fields(s[p + 1..], delims);
      assert ([s[i..p]] + later)[1..] == later;
    }
  }

  lemma TailOfNothing(delims: string, skip: bool)
    ensures Tail("", delims, skip) == [] && Tokens("", delims, skip) == []
  {
    assert NonEmpty([""]) == NonEmpty([]);
  }

  lemma TailAtDelimiter(s: string, delims: string, i: nat)
    requires |s| < NPOS && i < |s| && s[i] in delims
    ensures Tail(s[i..], delims, true) == Tail(s[i + 1..], delims, true)
  {
    assert s[i..][1..] == s[i + 1..];
    NonEmptyAppend([""], Fields(s[i + 1..], delims));
  }

  // ---------------------------------------------------------------- the object

  class StringTokenizer {
    const str: string
    const tokens: string
    const skipDelimiters: bool
    var updated: bool
    var moreTokens: bool
    var currentPos: nat
    var nextPos: nat

    ghost predicate Valid()
      reads this
    {
      && |str| < NPOS
      && (!updated ==> moreTokens)
      && (!updated && currentPos == NPOS ==> nextPos == NPOS)
      && (nextPos == NPOS || (nextPos < |str| && str[nextPos] in tokens))
      && (updated && moreTokens ==>
          currentPos < |str| && (nextPos == NPOS || currentPos <= nextPos))
      && (!updated && currentPos != NPOS ==> currentPos < |str|)
    }

    /** What is left after a token that ends at the delimiter at `nextPos`. */
    ghost function After(): seq<string>
      reads this
      requires nextPos == NPOS || nextPos < |str|
    {
      if nextPos == NPOS then [] else Tail(str[nextPos + 1..], tokens, skipDelimiters)
    }

    ghost function Remaining(): seq<string>
      reads this
      requires Valid()
    {
      if !moreTokens then []
      else if updated then [Current()] + After()
      else if currentPos == NPOS then Tokens(str, tokens, skipDelimiters)
      else After()
    }

    function Current(): string
      reads this
      requires currentPos < |str| && (nextPos == NPOS || currentPos <= nextPos <= |str|)
    {
      if nextPos == NPOS then str[currentPos..] else str[currentPos..nextPos]
    }

    constructor (str: string, tokens: string, skipDelimiters: bool)
      requires |str| < NPOS
      ensures Valid() && Remaining() == Tokens(str, tokens, skipDelimiters)
    {
      this.str, this.tokens, this.skipDelimiters := str, tokens, skipDelimiters;
      updated, moreTokens, currentPos, nextPos := false, true, NPOS, NPOS;
    }

    /** Move the two positions to the next token, or past the end. */
    method Locate() returns (ghost first: bool)
      requires Valid() && !updated
      modifies this`currentPos, this`nextPos
      ensures nextPos == FindFirstOf(str, tokens, currentPos)
      ensures first ==> currentPos == 0 && old(Remaining()) == Tokens(str, tokens, skipDelimiters)
      ensures !first && currentPos > |str| ==> old(Remaining()) == []
      ensures !first && currentPos <= |str| ==>
        old(Remaining()) == Tail(str[currentPos..], tokens, skipDelimiters) &&
        (skipDelimiters ==> nextPos == NPOS || nextPos != currentPos)
    {
      hide Tail, Tokens;
      ghost var left, delimiter := Remaining(), nextPos;
      var atStart := nextPos == NPOS && currentPos == NPOS;
      first := atStart;
      if atStart {
        nextPos := 0;
      }
      currentPos := nextPos;
      nextPos := FindFirstOf(str, tokens, currentPos);
      if nextPos > 0 || !atStart {
        var delimiterCnt := 0;
        while nextPos <= |str| && currentPos == nextPos
          invariant nextPos == FindFirstOf(str, tokens, currentPos)
          invariant delimiterCnt == 0 ==> currentPos == if atStart then 0 else delimiter
          invariant delimiterCnt > 0 ==> !atStart && currentPos <= |str|
          invariant delimiterCnt > 0 ==> left == Tail(str[currentPos..], tokens, skipDelimiters)
          invariant !skipDelimiters ==> 0 <= delimiterCnt <= 1
          decreases |str| - currentPos
        {
          delimiterCnt := delimiterCnt + 1;
          if delimiterCnt > 1 && !skipDelimiters {
            break;
          }
          if delimiterCnt > 1 { TailAtDelimiter(str, tokens, currentPos); }
          currentPos := currentPos + 1;
          nextPos := FindFirstOf(str, tokens, currentPos);
        }
      }
    }

    method Advance() returns (more: bool)
      requires Valid()
      modifies this
      ensures Valid() && updated && more == moreTokens
      ensures Remaining() == old(Remaining()) && more == (Remaining() != [])
    {
      if updated {
        return moreTokens;
      }
      ghost var left := Remaining();
      ghost var first := Locate();
      updated := true;
      TailOfNothing(tokens, skipDelimiters);
      if currentPos >= |str| {
        moreTokens := false;
        assert currentPos == |str| ==> str[currentPos..] == "";
      } else {
        TokenStarts(first, left);
      }
      return moreTokens;
    }

    /** Where a token starts, the text from there yields that token and then the rest. */
    lemma TokenStarts(atStart: bool, left: seq<string>)
      requires |str| < NPOS && currentPos < |str| && nextPos == FindFirstOf(str, tokens, currentPos)
      requires if atStart then currentPos == 0 && left == Tokens(str, tokens, skipDelimiters)
        else left == Tail(str[currentPos..], tokens, skipDelimiters) && (skipDelimiters ==> nextPos != currentPos)
      ensures left == [Current()] + After()
    {
      assert str[0..] == str;
      if skipDelimiters && nextPos == currentPos {
        TailAtDelimiter(str, tokens, 0);
      } else {
        TailFrom(str, tokens, skipDelimiters, currentPos, nextPos);
      }
    }

    method HasMoreTokens() returns (more: bool)
      requires Valid()
      modifies this
      ensures Valid() && Remaining() == old(Remaining()) && more == (Remaining() != [])
    {
      if moreTokens {
        more := Advance();
      } else {
        more := false;
      }
    }

    method GetNextToken() returns (token: string)
      requires Valid()
      modifies this
      ensures Valid()
      ensures old(Remaining()) == [] ==> token == "" && Remaining() == []
      ensures old(Remaining()) != [] ==> token == old(Remaining())[0] && Remaining() == old(Remaining())[1..]
    {
      hide Tail, Tokens;
      var more := Advance();
      if more {
        updated := false;
        token := Current();
      } else {
        token := "";
      }
    }
  }

  /** The loop every client runs: it ends, and yields the tokens of the string. */
  method AllTokens(str: string, tokens: string, skipDelimiters: bool) returns (all: seq<string>)
    requires |str| < NPOS
    ensures all == Tokens(str, tokens, skipDelimiters)
  {
    var tok := new StringTokenizer(str, tokens, skipDelimiters);
    all := [];
    var more := tok.HasMoreTokens();
    while more
      invariant tok.Valid() && more == (tok.Remaining() != [])
      invariant all + tok.Remaining() == Tokens(str, tokens, skipDelimiters)
      decreases |tok.Remaining()|
    {
      ghost var left := tok.Remaining();
      var token := tok.GetNextToken();
      assert left == [token] + left[1..];
      Associative(all, [token], left[1..]);
      all := all + [token];
      more := tok.HasMoreTokens();
    }
  }
}
