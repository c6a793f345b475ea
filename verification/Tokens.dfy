/** What the scanner looks up: the words of a code stream, each with whether an
    opening parenthesis follows.  `Scan` follows the loops of `incbot_src_stream`
    with their line, column and preprocessor bookkeeping; `Tokens` is the plain
    maximal-munch tokeniser; `TokenAt` says which positions are tokens. */
module Tokens {
  import opened CStrings
  import opened Lists

  /** One lookup: the word, whether it looks like a call, and the line number kept for it. */
  datatype Use = Use(name: string, call: bool, lnr: nat)

  /** The length of the identifier characters at the head of `t`. */
  function IdLen(t: string): (n: nat)
    ensures n <= |t|
  {
    if t == "" || !IsIdChar(t[0]) then 0 else 1 + IdLen(t[1..])
  }

  function SpaceLen(t: string): (n: nat)
    ensures n <= |t|
  {
    if t == "" || !IsSpace(t[0]) then 0 else 1 + SpaceLen(t[1..])
  }

  // What the loops of the scanner leave.

  function DropWord(t: string): (r: string)
    ensures |r| <= |t|
    ensures t != "" && IsIdChar(t[0]) ==> |r| < |t|
  {
    if t == "" || !IsIdChar(t[0]) then t else DropWord(t[1..])
  }

  function DropSpaces(t: string): (r: string)
    ensures |r| <= |t| && (r != "" ==> !IsSpace(r[0]))
  {
    if t == "" || !IsSpace(t[0]) then t else DropSpaces(t[1..])
  }

  /** What is left behind the first newline, if there is one. */
  function DropLine(t: string): (r: Option<string>)
    ensures r.Some? ==> |r.value| < |t|
  {
    if t == "" then None else if t[0] == '\n' then Some(t[1..]) else DropLine(t[1..])
  }

  /** The first character after white space is an opening parenthesis. */
  predicate ParenFollows(t: string) {
    DropSpaces(t) != "" && DropSpaces(t)[0] == '('
  }

  /** It stands behind nothing but white space. */
  lemma {:induction false} ParenFollowsExact(t: string)
    ensures ParenFollows(t) <==> exists k :: 0 <= k < |t| && t[k] == '(' && forall i :: 0 <= i < k ==> IsSpace(t[i])
  {
    if t != "" && IsSpace(t[0]) {
      ParenFollowsExact(t[1..]);
      assert forall i :: 0 <= i < |t| - 1 ==> t[1..][i] == t[i + 1];
      if k :| 0 <= k < |t| && t[k] == '(' && forall i :: 0 <= i < k ==> IsSpace(t[i]) {
        assert t[1..][k - 1] == '(';
      }
      if k :| 0 <= k < |t| - 1 && t[1..][k] == '(' && forall i :: 0 <= i < k ==> IsSpace(t[1..][i]) {
        assert t[k + 1] == '(' && forall i :: 0 <= i < k + 1 ==> IsSpace(t[i]);
      }
    }
  }

  /** What is left once white space and the character after it were read, a character that
      starts the next word being pushed back. */
  function AfterLookahead(t: string): (r: string)
    ensures |r| <= |t|
  {
    var u := DropSpaces(t);
    if u == "" || IsIdStart(u[0]) then u else u[1..]
  }

  /** The lookups of the scanner on the code stream `t`. */
  function Scan(t: string, lnr: nat, col: nat, pp: bool): List<Use>
    decreases |t|, 1
  {
    if t == "" then Nil
    else
      var c := t[0];
      var lnr' := if c == '\n' then lnr + 1 else lnr;
      var col' := if c == '\n' then 0 else col + 1;
      var pp' := (c != '\n' && pp) || (col' == 1 && c == '#');
      if IsIdStart(c) then ScanWord(t, lnr', col', pp') else Scan(t[1..], lnr', col', pp')
  }

  /** The same from the first character of a word on; the rest of an `#include` line is skipped. */
  function ScanWord(t: string, lnr: nat, col: nat, pp: bool): List<Use>
    requires t != "" && IsIdStart(t[0])
    decreases |t|, 0
  {
    var n := IdLen(t);
    var name, u := t[..n], DropWord(t);
    var rest := AfterLookahead(u);
    if pp && name == "include" then
      match DropLine(rest)
      case None => Nil
      case Some(below) => Cons(Use(name, ParenFollows(u), lnr + 1), Scan(below, lnr + 2, 0, false))
    else
      Cons(Use(name, ParenFollows(u), lnr),
        if DropSpaces(u) == "" then Nil else Scan(rest, lnr, col + n - 1 + SpaceLen(u), pp))
  }

  /** Maximal munch: every word with whether a call follows; everything else is skipped. */
  function Tokens(t: string): List<Use>
    decreases |t|
  {
    if t == "" then Nil
    else if IsIdStart(t[0]) then
      var n := IdLen(t);
      Cons(Use(t[..n], ParenFollows(t[n..]), 0), Tokens(t[n..]))
    else Tokens(t[1..])
  }

  /** The uses without their line numbers. */
  function Unnumbered(us: List<Use>): List<Use> {
    match us
    case Nil => Nil
    case Cons(u, rest) => Cons(u.(lnr := 0), Unnumbered(rest))
  }

  // ---- Which positions are tokens

  /** Positions `i..j` of `t` are identifier characters. */
  predicate IdSpan(t: string, i: nat, j: nat) {
    i <= j <= |t| && forall k :: i <= k < j ==> IsIdChar(t[k])
  }

  /** No word that starts before `i` reaches `i`: only digits touch it from the left. */
  ghost predicate Fresh(t: string, i: nat) {
    i <= |t| && forall k :: 0 <= k < i && IdSpan(t, k, i) ==> !IsIdStart(t[k])
  }

  /** Positions `i..j` hold one token of `t`: a maximal run of identifier characters that
      begins with a letter or underscore after nothing but digits. */
  ghost predicate TokenAt(t: string, i: nat, j: nat) {
    && i < j
    && IdSpan(t, i, j)
    && IsIdStart(t[i])
    && Fresh(t, i)
    && (j == |t| || !IsIdChar(t[j]))
  }

  predicate Has(us: List<Use>, u: Use) {
    us.Cons? && (us.head == u || Has(us.tail, u))
  }

  lemma {:induction false} IdLenSpan(t: string, i: nat)
    requires i <= |t|
    ensures var j := i + IdLen(t[i..]);
      IdSpan(t, i, j) && (j == |t| || !IsIdChar(t[j]))
    decreases |t| - i
  {
    if i < |t| && IsIdChar(t[i]) {
      assert t[i..][1..] == t[i + 1..];
      IdLenSpan(t, i + 1);
    }
  }

  /** Where the word at `p` ends. */
  function WordEnd(t: string, p: nat): (q: nat)
    requires p <= |t|
    ensures p <= q <= |t|
  {
    p + IdLen(t[p..])
  }

  function Min(a: nat, b: nat): nat {
    if a < b then a else b
  }

  /** The tokeniser at `p`: one word and on behind it, or one character and on. */
  lemma TokensFrom(t: string, p: nat)
    requires p < |t|
    ensures !IsIdStart(t[p]) ==> Tokens(t[p..]) == Tokens(t[p + 1..])
    ensures var q := WordEnd(t, p);
      IsIdStart(t[p]) ==>
        Tokens(t[p..]) == Cons(Use(t[p..q], ParenFollows(t[q..]), 0), Tokens(t[Min(q + 1, |t|)..]))
  {
    var s, q := t[p..], WordEnd(t, p);
    assert s[1..] == t[p + 1..];
    if IsIdStart(t[p]) {
      assert s[q - p..] == t[q..] && s[..q - p] == t[p..q];
      IdLenSpan(t, p);
      assert q < |t| ==> t[q..][1..] == t[q + 1..];
    }
  }

  /** The next position the tokeniser comes to is fresh again. */
  lemma FreshNext(t: string, p: nat)
    requires Fresh(t, p) && p < |t|
    ensures !IsIdStart(t[p]) ==> Fresh(t, p + 1)
    ensures IsIdStart(t[p]) ==> Fresh(t, Min(WordEnd(t, p) + 1, |t|)) || WordEnd(t, p) == |t|
  {
    IdLenSpan(t, p);
    if !IsIdStart(t[p]) {
      forall k | 0 <= k < p + 1 && IdSpan(t, k, p + 1)
        ensures !IsIdStart(t[k])
      {
        assert k < p ==> IdSpan(t, k, p);
      }
    }
  }

  /** The word at a fresh position is a token, and the only one that begins before the next position. */
  lemma WordIsToken(t: string, p: nat, i: nat, j: nat)
    requires Fresh(t, p) && p < |t| && IsIdStart(t[p])
    ensures TokenAt(t, p, WordEnd(t, p))
    ensures p <= i <= WordEnd(t, p) && TokenAt(t, i, j) ==> i == p && j == WordEnd(t, p)
  {
    IdLenSpan(t, p);
    var q := WordEnd(t, p);
    assert q > p;
    if p <= i <= q && TokenAt(t, i, j) {
      if i > p {
        assert IdSpan(t, p, i);
      }
    }
  }

  /** Positions `i..j` hold the token `u`. */
  ghost predicate OccursAt(t: string, i: nat, j: nat, u: Use) {
    TokenAt(t, i, j) && u == Use(t[i..j], ParenFollows(t[j..]), 0)
  }

  // ---- In order, each once

  /** A token begins at `i`. */
  ghost predicate TokenStart(t: string, i: nat) {
    i < |t| && IsIdStart(t[i]) && Fresh(t, i)
  }

  /** Where tokens begin, from `p` on, from left to right. */
  ghost function Starts(t: string, p: nat): List<nat>
    requires p <= |t|
    decreases |t| - p
  {
    if p == |t| then Nil else if TokenStart(t, p) then Cons(p, Starts(t, p + 1)) else Starts(t, p + 1)
  }

  /** The uses that begin at `ps`. */
  ghost function UsesAt(t: string, ps: List<nat>): List<Use> {
    match ps
    case Nil => Nil
    case Cons(i, rest) =>
      if i > |t| then Nil
      else Cons(Use(t[i..WordEnd(t, i)], ParenFollows(t[WordEnd(t, i)..]), 0), UsesAt(t, rest))
  }

  /** Every token is where one begins, and reaches to the end of its word. */
  lemma TokenStartExact(t: string, i: nat, j: nat)
    ensures TokenAt(t, i, j) <==> TokenStart(t, i) && j == WordEnd(t, i)
  {
    if TokenStart(t, i) {
      WordIsToken(t, i, i, j);
    }
    if TokenAt(t, i, j) {
      WordIsToken(t, i, i, j);
    }
  }

  lemma {:induction false} StartsSkip(t: string, p: nat, q: nat)
    requires p <= q <= |t| && forall i :: p <= i < q ==> !TokenStart(t, i)
    ensures Starts(t, p) == Starts(t, q)
    decreases q - p
  {
    if p < q {
      StartsSkip(t, p + 1, q);
    }
  }

  lemma NoStartInWord(t: string, p: nat, i: nat)
    requires TokenStart(t, p) && p < i <= WordEnd(t, p)
    ensures !TokenStart(t, i)
  {
    IdLenSpan(t, p);
    assert IdSpan(t, p, i);
  }

  lemma {:induction false} TokensFromStarts(t: string, p: nat)
    requires Fresh(t, p)
    ensures Tokens(t[p..]) == UsesAt(t, Starts(t, p))
    decreases |t| - p
  {
    if p < |t| {
      TokensFrom(t, p);
      FreshNext(t, p);
      if IsIdStart(t[p]) {
        var next := Min(WordEnd(t, p) + 1, |t|);
        forall i | p < i < next
          ensures !TokenStart(t, i)
        {
          NoStartInWord(t, p, i);
        }
        StartsSkip(t, p + 1, next);
        if WordEnd(t, p) < |t| {
          TokensFromStarts(t, next);
        }
      } else {
        TokensFromStarts(t, p + 1);
      }
    }
  }

  /** The tokeniser lists the tokens of the text from left to right, each once. */
  lemma TokensInOrder(t: string)
    ensures Tokens(t) == UsesAt(t, Starts(t, 0))
  {
    assert t[0..] == t;
    TokensFromStarts(t, 0);
  }

  /** The use at a token start is listed. */
  lemma {:induction false} StartListed(t: string, p: nat, i: nat)
    requires p <= i && TokenStart(t, i)
    ensures Has(UsesAt(t, Starts(t, p)), Use(t[i..WordEnd(t, i)], ParenFollows(t[WordEnd(t, i)..]), 0))
    decreases i - p
  {
    if p < i {
      StartListed(t, p + 1, i);
    }
  }

  /** Whatever is listed is the use at a token start. */
  lemma {:induction false} ListedStart(t: string, p: nat, u: Use) returns (i: nat)
    requires p <= |t| && Has(UsesAt(t, Starts(t, p)), u)
    ensures TokenStart(t, i) && u == Use(t[i..WordEnd(t, i)], ParenFollows(t[WordEnd(t, i)..]), 0)
    decreases |t| - p
  {
    i := p;
    if p < |t| && !(TokenStart(t, p) && u == Use(t[p..WordEnd(t, p)], ParenFollows(t[WordEnd(t, p)..]), 0)) {
      i := ListedStart(t, p + 1, u);
    }
  }

  /** The tokeniser lists exactly the tokens of the text. */
  lemma TokensExact(t: string, u: Use)
    ensures Has(Tokens(t), u) <==> exists i, j :: OccursAt(t, i, j, u)
  {
    TokensInOrder(t);
    if Has(Tokens(t), u) {
      var i := ListedStart(t, 0, u);
      TokenStartExact(t, i, WordEnd(t, i));
      assert OccursAt(t, i, WordEnd(t, i), u);
    }
    if i: nat, j: nat :| OccursAt(t, i, j, u) {
      TokenStartExact(t, i, j);
      StartListed(t, 0, i);
    }
  }

  // ---- Words fit the identifier buffer

  const ID_SIZE: nat := 1024

  /** Every word looked up is shorter than the buffer, its terminator included. */
  predicate NamesFit(us: List<Use>) {
    us.Cons? ==> |us.head.name| < ID_SIZE && NamesFit(us.tail)
  }

  lemma WordFits(t: string, lnr: nat, col: nat, pp: bool)
    requires t != "" && IsIdStart(t[0]) && NamesFit(ScanWord(t, lnr, col, pp))
    ensures 0 < IdLen(t) < ID_SIZE && |AfterLookahead(DropWord(t))| < |t|
  {}

  /** Where the scanner stands in `u`: `c` is its first character and `rest` what follows,
      or it is at the end. */
  ghost predicate Splits(u: string, c: CInt, rest: string) {
    if c == EOF then u == "" && rest == "" else u != "" && u[0] == c.c && rest == u[1..]
  }

  // ---- Dropping is slicing

  lemma {:induction false} WordSplits(t: string)
    ensures DropWord(t) == t[IdLen(t)..]
  {
    if t != "" && IsIdChar(t[0]) {
      WordSplits(t[1..]);
      assert t[IdLen(t)..] == t[1..][IdLen(t) - 1..];
    }
  }

  // ---- What `#include` lines hide: every lookup is a token of the code stream, and every token is
  // ---- looked up unless it is on such a line

  /** Where the scanner goes on behind a word that ends at `q`. */
  function AfterPos(t: string, q: nat): (n: nat)
    requires q <= |t|
    ensures q <= n <= |t|
  {
    var s := q + SpaceLen(t[q..]);
    if s == |t| || IsIdStart(t[s]) then s else s + 1
  }

  /** Positions `i..j` hold the word `include`, and a `#` stands before it. */
  ghost predicate IncludeAt(t: string, i: nat, j: nat) {
    TokenAt(t, i, j) && t[i..j] == "include" && '#' in t[..i]
  }

  /** Position `i` is that of such a word `include`, or behind one on the same line. */
  ghost predicate OnIncludeLine(t: string, i: nat)
    requires i <= |t|
  {
    exists i0, j0 :: IncludeAt(t, i0, j0) && (i == i0 || Behind(t, j0, i))
  }

  ghost predicate Behind(t: string, q: nat, i: nat)
    requires i <= |t|
  {
    q <= |t| && AfterPos(t, q) <= i && '\n' !in t[AfterPos(t, q)..i]
  }

  /** No token `include` has a `#` before it, nor comes while a directive is open: streams without a
      `#`, and streams without a token `include`, are quiet. */
  ghost predicate Quiet(t: string, pp: bool) {
    forall i: nat, j: nat :: TokenAt(t, i, j) && t[i..j] == "include" ==> !pp && '#' !in t[..i]
  }

  lemma {:induction false} SpacesSplit(t: string)
    ensures DropSpaces(t) == t[SpaceLen(t)..]
    ensures forall k :: 0 <= k < SpaceLen(t) ==> IsSpace(t[k])
  {
    if t != "" && IsSpace(t[0]) {
      SpacesSplit(t[1..]);
      assert t[SpaceLen(t)..] == t[1..][SpaceLen(t) - 1..];
    }
  }

  lemma AfterPosExact(t: string, q: nat)
    requires q <= |t|
    ensures AfterLookahead(t[q..]) == t[AfterPos(t, q)..]
    ensures DropSpaces(t[q..]) == "" ==> AfterPos(t, q) == |t|
    ensures forall k :: q <= k < AfterPos(t, q) ==> !IsIdStart(t[k])
  {
    var u, s := t[q..], q + SpaceLen(t[q..]);
    SpacesSplit(u);
    assert u[SpaceLen(u)..] == t[s..];
    assert s < |t| ==> t[s..][1..] == t[s + 1..];
    forall k | q <= k < AfterPos(t, q)
      ensures !IsIdStart(t[k])
    {
      assert k < s ==> IsSpace(u[k - q]);
    }
  }

  /** Behind a word and its lookahead the scanner is at a fresh position again. */
  lemma FreshAfter(t: string, p: nat)
    requires Fresh(t, p) && p < |t| && IsIdStart(t[p]) && WordEnd(t, p) < |t|
    ensures Fresh(t, AfterPos(t, WordEnd(t, p)))
  {
    var q := WordEnd(t, p);
    var u := t[q..];
    IdLenSpan(t, p);
    SpacesSplit(u);
    var s := q + SpaceLen(u);
    if s == q {
      NotWithin(t, q + 1);
    } else {
      assert IsSpace(u[s - 1 - q]);
      NotWithin(t, s);
      if s < |t| {
        FreshNext(t, s);
      }
    }
  }

  /** No word reaches over a character that belongs to none. */
  lemma NotWithin(t: string, i: nat)
    requires 0 < i <= |t| && !IsIdChar(t[i - 1])
    ensures Fresh(t, i)
  {}

  /** Between a word and the next position there is no token. */
  lemma NoTokenBetween(t: string, p: nat, i: nat, j: nat)
    requires Fresh(t, p) && p < |t| && IsIdStart(t[p]) && p < i && TokenAt(t, i, j)
    ensures AfterPos(t, WordEnd(t, p)) <= i
  {
    WordIsToken(t, p, i, j);
    AfterPosExact(t, WordEnd(t, p));
  }

  lemma {:induction false} DropLineExact(t: string)
    ensures DropLine(t) == if LineEnd(t) == |t| then None else Some(t[LineEnd(t) + 1..])
  {
    if t != "" && t[0] != '\n' {
      DropLineExact(t[1..]);
      assert LineEnd(t) < |t| ==> t[1..][LineEnd(t)..] == t[LineEnd(t) + 1..];
    }
  }

  /** Where the scanner goes on behind the word at `p`, if it does. */
  function NextPos(t: string, p: nat, skip: bool): (m: Option<nat>)
    requires p < |t|
    ensures m.Some? ==> m.value <= |t|
  {
    var n := AfterPos(t, WordEnd(t, p));
    var end := n + LineEnd(t[n..]);
    if skip then if end == |t| then None else Some(end + 1)
    else if DropSpaces(t[WordEnd(t, p)..]) == "" then None
    else Some(n)
  }

  lemma NextPosFresh(t: string, p: nat, skip: bool)
    requires Fresh(t, p) && p < |t| && IsIdStart(t[p]) && NextPos(t, p, skip).Some?
    ensures p < NextPos(t, p, skip).value && Fresh(t, NextPos(t, p, skip).value)
  {
    var q := WordEnd(t, p);
    var n := AfterPos(t, q);
    IdLenSpan(t, p);
    assert q > p;
    if skip {
      assert t[n..][LineEnd(t[n..])] == '\n';
      NotWithin(t, NextPos(t, p, skip).value);
    } else {
      assert |t[q..]| > 0;
      FreshAfter(t, p);
    }
  }

  lemma SameLine(t: string, n: nat, i: nat)
    requires n <= i <= |t| && i - n <= LineEnd(t[n..])
    ensures '\n' !in t[n..i]
  {
    var line := t[n..][..LineEnd(t[n..])];
    LineEndWithin(t[n..]);
    assert t[n..i] == line[..i - n];
  }

  /** A token behind the word at `p` but before the next position is on an `#include` line. */
  lemma Skipped(t: string, p: nat, skip: bool, i: nat, j: nat)
    requires Fresh(t, p) && p < |t| && IsIdStart(t[p]) && p < i && TokenAt(t, i, j)
    requires NextPos(t, p, skip).Some? ==> i < NextPos(t, p, skip).value
    ensures skip && Behind(t, WordEnd(t, p), i)
  {
    var n := AfterPos(t, WordEnd(t, p));
    NoTokenBetween(t, p, i, j);
    AfterPosExact(t, WordEnd(t, p));
    if skip {
      var end := n + LineEnd(t[n..]);
      assert end < |t| ==> t[n..][end - n] == t[end];
      SameLine(t, n, i);
    }
  }

  /** One round of the scanner at `p`. */
  lemma ScanOther(t: string, p: nat, lnr: nat, col: nat, pp: bool) returns (lnr': nat, col': nat, pp': bool)
    requires p < |t| && !IsIdStart(t[p])
    ensures Scan(t[p..], lnr, col, pp) == Scan(t[p + 1..], lnr', col', pp')
    ensures pp' ==> pp || t[p] == '#'
  {
    var c := t[p..][0];
    assert t[p..][1..] == t[p + 1..];
    lnr' := if c == '\n' then lnr + 1 else lnr;
    col' := if c == '\n' then 0 else col + 1;
    pp' := (c != '\n' && pp) || (col' == 1 && c == '#');
  }

  /** What is left of the lookups behind a word. */
  ghost function Onward(t: string, m: Option<nat>, lnr: nat, col: nat, pp: bool): List<Use>
    requires m.Some? ==> m.value <= |t|
  {
    if m.None? then Nil else Scan(t[m.value..], lnr, col, pp)
  }

  lemma WordParts(t: string, p: nat)
    requires p < |t|
    ensures var s, q := t[p..], WordEnd(t, p);
      && s[..IdLen(s)] == t[p..q] && DropWord(s) == t[q..] && IdLen(s) == q - p
      && AfterLookahead(t[q..]) == t[AfterPos(t, q)..]
  {
    var s, q := t[p..], WordEnd(t, p);
    WordSplits(s);
    assert s[q - p..] == t[q..] && s[..q - p] == t[p..q];
    AfterPosExact(t, q);
  }

  lemma LineParts(t: string, n: nat)
    requires n <= |t|
    ensures var end := n + LineEnd(t[n..]); DropLine(t[n..]) == if end == |t| then None else Some(t[end + 1..])
  {
    var end := LineEnd(t[n..]);
    DropLineExact(t[n..]);
    assert end < |t[n..]| ==> t[n..][end + 1..] == t[n + end + 1..];
  }

  lemma ScanReads(t: string, p: nat, lnr: nat, col: nat, pp: bool)
    returns (skip: bool, ref_lnr: nat, lnr': nat, col': nat, pp': bool)
    requires p < |t| && IsIdStart(t[p])
    ensures skip ==> pp && t[p..WordEnd(t, p)] == "include"
    ensures pp' ==> pp
    ensures var q, m := WordEnd(t, p), NextPos(t, p, skip);
      ScanWord(t[p..], lnr, col, pp) ==
        if skip && m.None? then Nil
        else Cons(Use(t[p..q], ParenFollows(t[q..]), ref_lnr), Onward(t, m, lnr', col', pp'))
  {
    var q := WordEnd(t, p);
    skip := pp && t[p..q] == "include";
    if skip {
      ReadsInclude(t, p, lnr, col);
      ref_lnr, lnr', col', pp' := lnr + 1, lnr + 2, 0, false;
    } else {
      ReadsWord(t, p, lnr, col, pp);
      ref_lnr, lnr', col', pp' := lnr, lnr, col + (q - p) - 1 + SpaceLen(t[q..]), pp;
    }
  }

  lemma ReadsWord(t: string, p: nat, lnr: nat, col: nat, pp: bool)
    requires p < |t| && IsIdStart(t[p]) && !(pp && t[p..WordEnd(t, p)] == "include")
    ensures var q := WordEnd(t, p);
      q > p && ScanWord(t[p..], lnr, col, pp) ==
        Cons(Use(t[p..q], ParenFollows(t[q..]), lnr),
             Onward(t, NextPos(t, p, false), lnr, col + (q - p) - 1 + SpaceLen(t[q..]), pp))
  {
    WordParts(t, p);
  }

  lemma ReadsInclude(t: string, p: nat, lnr: nat, col: nat)
    requires p < |t| && IsIdStart(t[p]) && t[p..WordEnd(t, p)] == "include"
    ensures var q, m := WordEnd(t, p), NextPos(t, p, true);
      ScanWord(t[p..], lnr, col, true) ==
        if m.None? then Nil
        else Cons(Use(t[p..q], ParenFollows(t[q..]), lnr + 1), Onward(t, m, lnr + 2, 0, false))
  {
    WordParts(t, p);
    LineParts(t, AfterPos(t, WordEnd(t, p)));
    IncludeReads(t[p..], lnr, col);
  }

  lemma IncludeReads(s: string, lnr: nat, col: nat)
    requires s != "" && IsIdStart(s[0]) && s[..IdLen(s)] == "include"
    ensures var m := DropLine(AfterLookahead(DropWord(s)));
      ScanWord(s, lnr, col, true) ==
        if m.None? then Nil
        else Cons(Use(s[..IdLen(s)], ParenFollows(DropWord(s)), lnr + 1), Scan(m.value, lnr + 2, 0, false))
  {}

  lemma ScanAtWord(t: string, p: nat, lnr: nat, col: nat, pp: bool) returns (lnr': nat, col': nat, pp': bool)
    requires p < |t| && IsIdStart(t[p])
    ensures Scan(t[p..], lnr, col, pp) == ScanWord(t[p..], lnr', col', pp') && (pp' ==> pp)
  {
    var c := t[p..][0];
    lnr' := if c == '\n' then lnr + 1 else lnr;
    col' := if c == '\n' then 0 else col + 1;
    pp' := (c != '\n' && pp) || (col' == 1 && c == '#');
  }

  lemma HasCons(x: Use, xs: List<Use>, u: Use)
    ensures Has(Unnumbered(Cons(x, xs)), u) <==> x.(lnr := 0) == u || Has(Unnumbered(xs), u)
  {}

  /** Every lookup is a token of the stream. */
  lemma {:induction false} ScanSound(t: string, p: nat, lnr: nat, col: nat, pp: bool, u: Use)
    requires Fresh(t, p) && Has(Unnumbered(Scan(t[p..], lnr, col, pp)), u)
    ensures exists i, j :: OccursAt(t, i, j, u)
    decreases |t| - p
  {
    if p < |t| {
      if IsIdStart(t[p]) {
        var l, c, b := ScanAtWord(t, p, lnr, col, pp);
        var skip, r, l', c', b' := ScanReads(t, p, l, c, b);
        var m, q := NextPos(t, p, skip), WordEnd(t, p);
        WordIsToken(t, p, p, q);
        HasCons(Use(t[p..q], ParenFollows(t[q..]), r), Onward(t, m, l', c', b'), u);
        if u == Use(t[p..q], ParenFollows(t[q..]), 0) {
          assert OccursAt(t, p, q, u);
        } else if m.Some? {
          NextPosFresh(t, p, skip);
          ScanSound(t, m.value, l', c', b', u);
        }
      } else {
        var l, c, b := ScanOther(t, p, lnr, col, pp);
        FreshNext(t, p);
        ScanSound(t, p + 1, l, c, b, u);
      }
    }
  }

  lemma HashStays(t: string, p: nat, m: nat)
    requires p <= m <= |t| && '#' in t[..p]
    ensures '#' in t[..m]
  {
    var k :| 0 <= k < p && t[..p][k] == '#';
    assert t[..m][k] == '#';
  }

  /** Every token is looked up unless it is on an `#include` line. */
  lemma {:induction false} ScanComplete(t: string, p: nat, lnr: nat, col: nat, pp: bool, i: nat, j: nat, u: Use)
    requires Fresh(t, p) && p <= i && OccursAt(t, i, j, u) && !OnIncludeLine(t, i)
    requires pp ==> '#' in t[..p]
    ensures Has(Unnumbered(Scan(t[p..], lnr, col, pp)), u)
    decreases |t| - p
  {
    if IsIdStart(t[p]) {
      var l, c, b := ScanAtWord(t, p, lnr, col, pp);
      var skip, r, l', c', b' := ScanReads(t, p, l, c, b);
      var m, q := NextPos(t, p, skip), WordEnd(t, p);
      WordIsToken(t, p, i, j);
      HasCons(Use(t[p..q], ParenFollows(t[q..]), r), Onward(t, m, l', c', b'), u);
      assert skip ==> IncludeAt(t, p, q);
      if i > p {
        if m.Some? && m.value <= i {
          NextPosFresh(t, p, skip);
          if b' {
            HashStays(t, p, m.value);
          }
          ScanComplete(t, m.value, l', c', b', i, j, u);
        } else {
          Skipped(t, p, skip, i, j);
        }
      }
    } else {
      var l, c, b := ScanOther(t, p, lnr, col, pp);
      FreshNext(t, p);
      if b {
        HashNext(t, p);
      }
      ScanComplete(t, p + 1, l, c, b, i, j, u);
    }
  }

  lemma HashNext(t: string, p: nat)
    requires p < |t| && ('#' in t[..p] || t[p] == '#')
    ensures '#' in t[..p + 1]
  {
    assert t[..p + 1] == t[..p] + [t[p]];
  }

  // ---- On a quiet stream the scanner is the tokeniser

  lemma {:induction false} TokensSkipSpace(t: string)
    ensures Tokens(t) == Tokens(DropSpaces(t))
  {
    if t != "" && IsSpace(t[0]) {
      TokensSkipSpace(t[1..]);
    }
  }

  lemma TokensAfterLookahead(t: string)
    ensures Tokens(AfterLookahead(t)) == Tokens(t)
  {
    TokensSkipSpace(t);
  }

  lemma TokensAtWord(t: string, p: nat)
    requires p < |t| && IsIdStart(t[p])
    ensures var q := WordEnd(t, p);
      Tokens(t[p..]) == Cons(Use(t[p..q], ParenFollows(t[q..]), 0), Tokens(t[AfterPos(t, q)..]))
  {
    WordParts(t, p);
    WordSplits(t[p..]);
    TokensAfterLookahead(t[WordEnd(t, p)..]);
  }

  /** From `p` on the scanner looks up what the tokeniser lists. */
  ghost predicate Alike(t: string, p: nat, lnr: nat, col: nat, pp: bool) {
    p <= |t| && Unnumbered(Scan(t[p..], lnr, col, pp)) == Tokens(t[p..])
  }

  lemma AtEnd(t: string, q: nat)
    requires q <= |t| && DropSpaces(t[q..]) == ""
    ensures t[AfterPos(t, q)..] == ""
  {
    AfterPosExact(t, q);
  }

  /** A word that skips nothing is listed by both, and both go on behind it. */
  lemma AlikeBehind(t: string, p: nat, lnr: nat, col: nat, pp: bool)
    requires p < |t| && IsIdStart(t[p]) && !(pp && t[p..WordEnd(t, p)] == "include")
    ensures var q, m := WordEnd(t, p), NextPos(t, p, false);
      q > p && ((m.Some? ==> Alike(t, m.value, lnr, col + (q - p) - 1 + SpaceLen(t[q..]), pp))
        ==> Unnumbered(ScanWord(t[p..], lnr, col, pp)) == Tokens(t[p..]))
  {
    var q := WordEnd(t, p);
    ReadsWord(t, p, lnr, col, pp);
    TokensAtWord(t, p);
    if NextPos(t, p, false).None? {
      AtEnd(t, q);
    }
  }

  /** No directive can be open at a token `include`. */
  lemma NoneSkipped(t: string, p: nat, pp: bool, pp0: bool)
    requires Fresh(t, p) && Quiet(t, pp0) && (pp ==> pp0 || '#' in t[..p])
    requires p < |t| && IsIdStart(t[p])
    ensures !(pp && t[p..WordEnd(t, p)] == "include")
    ensures var m := NextPos(t, p, false);
      m.Some? ==> p < m.value && Fresh(t, m.value) && (pp ==> pp0 || '#' in t[..m.value])
  {
    WordIsToken(t, p, p, WordEnd(t, p));
    var m := NextPos(t, p, false);
    if m.Some? {
      NextPosFresh(t, p, false);
      if '#' in t[..p] {
        HashStays(t, p, m.value);
      }
    }
  }

  lemma AlikeAtWord(t: string, p: nat, lnr: nat, col: nat, pp: bool)
    returns (lnr': nat, col': nat, pp': bool)
    requires p < |t| && IsIdStart(t[p]) && !(pp && t[p..WordEnd(t, p)] == "include")
    ensures var m := NextPos(t, p, false);
      (m.Some? ==> Alike(t, m.value, lnr', col', pp')) ==> Alike(t, p, lnr, col, pp)
    ensures pp' ==> pp
  {
    var q := WordEnd(t, p);
    lnr', col', pp' := ScanAtWord(t, p, lnr, col, pp);
    AlikeBehind(t, p, lnr', col', pp');
    col' := col' + (q - p) - 1 + SpaceLen(t[q..]);
  }

  lemma AlikeAtOther(t: string, p: nat, lnr: nat, col: nat, pp: bool, pp0: bool)
    returns (lnr': nat, col': nat, pp': bool)
    requires Fresh(t, p) && (pp ==> pp0 || '#' in t[..p])
    requires p < |t| && !IsIdStart(t[p])
    ensures Alike(t, p + 1, lnr', col', pp') ==> Alike(t, p, lnr, col, pp)
    ensures Fresh(t, p + 1) && (pp' ==> pp0 || '#' in t[..p + 1])
  {
    lnr', col', pp' := ScanOther(t, p, lnr, col, pp);
    FreshNext(t, p);
    TokensFrom(t, p);
    if '#' in t[..p] || t[p] == '#' {
      HashNext(t, p);
    }
  }

  /** Whether a directive is open at `p` or was before, no token `include` follows. */
  lemma {:induction false} ScanFromIsTokens(t: string, p: nat, lnr: nat, col: nat, pp: bool, pp0: bool)
    requires Fresh(t, p) && Quiet(t, pp0) && (pp ==> pp0 || '#' in t[..p])
    ensures Alike(t, p, lnr, col, pp)
    decreases |t| - p
  {
    if p < |t| && IsIdStart(t[p]) {
      NoneSkipped(t, p, pp, pp0);
      var l, c, b := AlikeAtWord(t, p, lnr, col, pp);
      var m := NextPos(t, p, false);
      if m.Some? {
        ScanFromIsTokens(t, m.value, l, c, b, pp0);
      }
    } else if p < |t| {
      var l, c, b := AlikeAtOther(t, p, lnr, col, pp, pp0);
      ScanFromIsTokens(t, p + 1, l, c, b, pp0);
    }
  }

  /** On a stream in which no token `include` has a `#` before it, the scanner looks up exactly what
      the tokeniser lists, one by one. */
  lemma ScanIsTokens(t: string, lnr: nat, col: nat, pp: bool)
    requires Quiet(t, pp)
    ensures Unnumbered(Scan(t, lnr, col, pp)) == Tokens(t)
  {
    assert t[0..] == t;
    ScanFromIsTokens(t, 0, lnr, col, pp, pp);
  }

  lemma HashWithin(t: string, i: nat)
    requires i <= |t| && '#' in t[..i]
    ensures '#' in t
  {
    HashStays(t, i, |t|);
    assert t[..|t|] == t;
  }

  /** Both kinds of stream are quiet. */
  lemma QuietStreams(t: string)
    requires '#' !in t || forall i: nat, j: nat :: TokenAt(t, i, j) ==> t[i..j] != "include"
    ensures Quiet(t, false)
  {
    forall i: nat, j: nat | TokenAt(t, i, j) && t[i..j] == "include"
      ensures '#' !in t[..i]
    {
      if '#' in t[..i] {
        HashWithin(t, i);
      }
    }
  }
}
