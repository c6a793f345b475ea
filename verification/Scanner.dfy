/** The scanner: nested loops with pushback over the code filter. */
module Scanner {
  import opened CStrings
  import opened Files
  import opened Lists
  import opened CodeStream
  import opened Libcf
  import opened CodeFilter
  import opened IdTable
  import opened Tokens
  import opened References
  import opened Incbot

  /** Always true; as in `Dict`, it keeps the solver away from what no caller needs. */
  ghost predicate StreamOpened(k: int) {
    true
  }

  /** The filter between two steps of the scanner: `s` is still to come, and the buffer holds
      at most `n` entries. */
  ghost predicate Pulling(f: File, cf: Cf, ccv: Ccv, s: string, n: nat)
    reads f, cf, ccv, ccv.array_
  {
    forall k :: StreamOpened(k) ==> Ready(f, cf, ccv) && Stream(f, cf, ccv) == s && ccv.len <= n
  }

  /** `cf_getc` as the scanner uses it. */
  method Next(f: File, cf: Cf, ccv: Ccv, ghost s: string) returns (c: CInt, ghost rest: string)
    requires Pulling(f, cf, ccv, s, 2)
    modifies f, cf, ccv`len, ccv.array_
    ensures Pulling(f, cf, ccv, rest, 1) && Splits(s, c, rest)
  {
    assert StreamOpened(0);
    c := CfGetc(f, cf, ccv);
    rest := if s == "" then "" else s[1..];
  }

  /** `cf_ungetc` as the scanner uses it: there is always room, so the exit is never taken. */
  method PushBack(f: File, cf: Cf, ccv: Ccv, c: char, ghost u: string, ghost s: string)
    requires Pulling(f, cf, ccv, s, 1) && Splits(u, Ch(c), s)
    modifies ccv`len, ccv.array_
    ensures Pulling(f, cf, ccv, u, 2)
  {
    assert StreamOpened(0);
    UngetThenGet(ccv.Contents(), c, CodeRun(cf.state, f.Rest()));
    assert u == [c] + s;
    var rv := CfUngetc(c, ccv);
    if rv != 0 {
      assert false;
    }
  }

  /** After `n` characters of the word at the head of `t`, with `u` left. */
  ghost predicate InWord(t: string, n: nat, u: string) {
    n <= |t| && u == t[n..] && IdLen(t) == n + IdLen(u) && DropWord(u) == DropWord(t)
  }

  /** The loop that copies a word into the identifier buffer. */
  method ReadWord(f: File, cf: Cf, ccv: Ccv, idbuf: array<char>, ghost t: string, first: char, ghost s: string)
    returns (c: CInt, n: nat, ghost rest: string)
    requires Pulling(f, cf, ccv, s, 1) && idbuf.Length == ID_SIZE
    requires t != "" && t[0] == first && Splits(t, Ch(first), s) && IsIdStart(first) && IdLen(t) < ID_SIZE
    modifies f, cf, ccv`len, ccv.array_, idbuf
    ensures Pulling(f, cf, ccv, rest, 1) && Splits(DropWord(t), c, rest)
    ensures n == IdLen(t) < ID_SIZE && forall i :: 0 <= i < n ==> idbuf[i] == t[i]
  {
    ghost var u := s;
    idbuf[0] := first;
    n := 1;
    c, rest := Next(f, cf, ccv, s);
    while c != EOF && IsIdChar(c.c)
      invariant Pulling(f, cf, ccv, rest, 1) && Splits(u, c, rest)
      invariant 0 < n <= |t| && n <= IdLen(t) && InWord(t, n, u)
      invariant forall i :: 0 <= i < n ==> idbuf[i] == t[i]
      decreases IdLen(t) - n
    {
      assert u[1..] == t[n + 1..];
      idbuf[n] := c.c;
      n, u := n + 1, rest;
      c, rest := Next(f, cf, ccv, rest);
    }
    idbuf[n] := '\0';
  }

  /** The loop over white space after a word. */
  method SkipSpaces(f: File, cf: Cf, ccv: Ccv, ghost u: string, c0: CInt, ghost s: string)
    returns (c: CInt, k: nat, ghost rest: string)
    requires Pulling(f, cf, ccv, s, 1) && Splits(u, c0, s)
    modifies f, cf, ccv`len, ccv.array_
    ensures Pulling(f, cf, ccv, rest, 1) && Splits(DropSpaces(u), c, rest) && k == SpaceLen(u)
  {
    ghost var w := u;
    c, k, rest := c0, 0, s;
    while c != EOF && IsSpace(c.c)
      invariant Pulling(f, cf, ccv, rest, 1) && Splits(w, c, rest)
      invariant SpaceLen(u) == k + SpaceLen(w) && DropSpaces(w) == DropSpaces(u)
      decreases |w|
    {
      w := rest;
      c, rest := Next(f, cf, ccv, rest);
      k := k + 1;
    }
  }

  /** The loop that drops the rest of an `#include` line. */
  method SkipLine(f: File, cf: Cf, ccv: Ccv, ghost s: string) returns (c: CInt, ghost rest: string)
    requires Pulling(f, cf, ccv, s, 2)
    modifies f, cf, ccv`len, ccv.array_
    ensures Pulling(f, cf, ccv, rest, 1)
    ensures match DropLine(s) case None => c == EOF && rest == "" case Some(t) => c == Ch('\n') && rest == t
  {
    ghost var w := s;
    c, rest := Next(f, cf, ccv, s);
    while c != EOF && c != Ch('\n')
      invariant Pulling(f, cf, ccv, rest, 1) && Splits(w, c, rest) && DropLine(w) == DropLine(s)
      decreases |w|
    {
      w := rest;
      c, rest := Next(f, cf, ccv, rest);
    }
  }

  /** `strcmp(idbuf, "include") == 0` on a buffer that holds a word of `n` characters. */
  method IsInclude(idbuf: array<char>, n: nat) returns (r: bool)
    requires n < idbuf.Length
    ensures r <==> idbuf[..n] == "include"
  {
    r := idbuf[..n] == "include";
  }

  lemma Lookahead(u: string, c: CInt, rest: string)
    requires Splits(DropSpaces(u), c, rest)
    ensures AfterLookahead(u) == if c != EOF && IsIdStart(c.c) then DropSpaces(u) else rest
    ensures ParenFollows(u) <==> c == Ch('(')
    ensures c == EOF <==> DropSpaces(u) == ""
    ensures c != EOF ==> !IsSpace(c.c)
  {
  }

  /** One word, the white space behind it, and one character of lookahead, pushed back when it
      begins the next word. */
  method WordAndLookahead(f: File, cf: Cf, ccv: Ccv, idbuf: array<char>, ghost t: string, first: char, ghost s: string)
    returns (n: nat, k: nat, c: CInt, ghost rest: string)
    requires Pulling(f, cf, ccv, s, 1) && idbuf.Length == ID_SIZE
    requires t != "" && t[0] == first && Splits(t, Ch(first), s) && IsIdStart(first) && IdLen(t) < ID_SIZE
    modifies f, cf, ccv`len, ccv.array_, idbuf
    ensures Pulling(f, cf, ccv, rest, 2)
    ensures var u := DropWord(t);
      && n == IdLen(t) < ID_SIZE && idbuf[..n] == t[..n] && k == SpaceLen(u) && rest == AfterLookahead(u)
      && (c == Ch('(') <==> ParenFollows(u)) && (c == EOF <==> DropSpaces(u) == "") && c != Ch('\n')
  {
    ghost var u := DropWord(t);
    c, n, rest := ReadWord(f, cf, ccv, idbuf, t, first, s);
    assert idbuf[..n] == t[..n];
    c, k, rest := SkipSpaces(f, cf, ccv, u, c, rest);
    Lookahead(u, c, rest);
    if c != EOF && IsIdStart(c.c) {
      PushBack(f, cf, ccv, c.c, DropSpaces(u), rest);
      rest := DropSpaces(u);
    } else {
      MoreRoom(f, cf, ccv, rest);
    }
  }

  lemma MoreRoom(f: File, cf: Cf, ccv: Ccv, s: string)
    requires Pulling(f, cf, ccv, s, 1)
    ensures Pulling(f, cf, ccv, s, 2)
  {
    assert StreamOpened(0);
  }

  /** What is read for one word: the word, its lookahead, and the rest of its line when it is the
      word of an `#include`. */
  method WordAndLine(f: File, cf: Cf, ccv: Ccv, idbuf: array<char>, ghost t: string, first: char, ghost s: string,
                     pp: bool)
    returns (n: nat, k: nat, call: bool, include_: bool, c: CInt, ghost rest: string)
    requires Pulling(f, cf, ccv, s, 1) && idbuf.Length == ID_SIZE
    requires t != "" && t[0] == first && Splits(t, Ch(first), s) && IsIdStart(first) && IdLen(t) < ID_SIZE
    modifies f, cf, ccv`len, ccv.array_, idbuf
    ensures Pulling(f, cf, ccv, rest, 2) && |rest| <= |AfterLookahead(DropWord(t))|
    ensures n == IdLen(t) < ID_SIZE && idbuf[..n] == t[..n] && include_ == (pp && t[..n] == "include")
    ensures k == SpaceLen(DropWord(t)) && call == ParenFollows(DropWord(t))
    ensures var u := DropWord(t);
      if !include_ then rest == AfterLookahead(u) && c != Ch('\n') && (c == EOF <==> DropSpaces(u) == "")
      else match DropLine(AfterLookahead(u))
           case None => c == EOF && rest == ""
           case Some(below) => c == Ch('\n') && rest == below
  {
    n, k, c, rest := WordAndLookahead(f, cf, ccv, idbuf, t, first, s);
    call := c == Ch('(');
    var isInclude := IsInclude(idbuf, n);
    include_ := pp && isInclude;
    if include_ {
      c, rest := SkipLine(f, cf, ccv, rest);
      MoreRoom(f, cf, ccv, rest);
    }
  }

  /** One lookup: what is read, and the line and column bookkeeping. */
  method Word(f: File, cf: Cf, ccv: Ccv, idbuf: array<char>, ghost t: string, first: char, ghost s: string,
              lnr: nat, col: nat, pp: bool)
    returns (n: nat, call: bool, dropped: bool, c: CInt,
             ref_lnr: nat, lnr': nat, col': nat, pp': bool, ghost rest: string)
    requires Pulling(f, cf, ccv, s, 1) && idbuf.Length == ID_SIZE
    requires t != "" && t[0] == first && Splits(t, Ch(first), s) && IsIdStart(first)
    requires NamesFit(ScanWord(t, lnr, col, pp))
    modifies f, cf, ccv`len, ccv.array_, idbuf
    ensures Pulling(f, cf, ccv, rest, 2) && |rest| < |t| && n < ID_SIZE
    ensures dropped ==> c == EOF
    ensures ScanWord(t, lnr, col, pp)
         == if dropped then Nil
            else Cons(Use(idbuf[..n], call, ref_lnr), if c == EOF then Nil else Scan(rest, lnr', col', pp'))
  {
    WordFits(t, lnr, col, pp);
    var k, include_;
    n, k, call, include_, c, rest := WordAndLine(f, cf, ccv, idbuf, t, first, s, pp);
    dropped, lnr', col', pp' := false, lnr, col + n - 1 + k, pp;
    ref_lnr := lnr';
    if include_ {
      if c == EOF {
        return n, call, true, c, lnr', lnr', col', pp', rest;
      }
      lnr', col', pp' := lnr' + 1, 0, false;
    }
    ref_lnr := lnr';
    if c == Ch('\n') {
      lnr' := lnr' + 1;
    }
  }

  /** What is recorded for the entry that was found. */
  method RecordEntry(db: IdDatabase, refv: RefVector, idnr: nat, lnr: nat)
    requires db.Valid() && db.View().Valid() && idnr < |db.View().rows| && refv.Valid()
    modifies refv, refv.tab
    ensures refv.Valid() && (refv.tab == old(refv.tab) || fresh(refv.tab))
    ensures var row := old(db.View()).rows[idnr];
      refv.Refs() == if row.src1 != 0 && old(db.St()).strs[row.src1] != "" && row.typ != Keyword
                     then old(refv.Refs()) + [IncRef(row.sym, row.src1, idnr, lnr)] else old(refv.Refs())
  {
    var row := db.idv.tab[idnr];
    assert row == db.View().rows[idnr] && RowBounded(db.View().st, row);
    if row.src1 != 0 {
      var inc_sym := db.IncludeName(row.src1);
      if inc_sym != "" && row.typ != Keyword {
        refv.Add(IncRef(row.sym, row.src1, idnr, lnr));
      }
    }
  }

  /** The body of the scanner loop for one word: look it up, and record what it refers to. */
  method RecordUse(db: IdDatabase, refv: RefVector, name: string, call: bool, lnr: nat)
    requires db.Valid() && db.View().Valid() && HasEntry(db.View(), Use(name, call, lnr))
    requires refv.Valid() && {refv, refv.tab} !! db.Repr
    modifies db.Repr, refv, refv.tab
    ensures db.Valid() && fresh(db.Repr - old(db.Repr)) && old(db.Repr) <= db.Repr && db.View() == old(db.View())
    ensures refv.Valid() && (refv.tab == old(refv.tab) || fresh(refv.tab)) && {refv, refv.tab} !! db.Repr
    ensures refv.Refs() == Record1(db.View(), old(refv.Refs()), Use(name, call, lnr))
  {
    var idnr := db.Find(name, if call then CALL_MASK else OTHER_MASK);
    if idnr.Some? {
      assert RowBounded(db.View().st, db.View().rows[idnr.value]);
      RecordEntry(db, refv, idnr.value, lnr);
    }
  }

  // ---- The main loop

  /** Going on with `t` from here gives the references `r`. */
  ghost predicate Scanning(v: Tables, refs: seq<IncRef>, t: string, lnr: nat, col: nat, pp: bool, r: seq<IncRef>) {
    v.Valid() && NamesFit(Scan(t, lnr, col, pp)) && Yields(v, refs, Scan(t, lnr, col, pp), r)
  }

  lemma ScanningEnd(v: Tables, refs: seq<IncRef>, lnr: nat, col: nat, pp: bool, r: seq<IncRef>)
    requires Scanning(v, refs, "", lnr, col, pp, r)
    ensures refs == r
  {}

  /** After one round the references are `r`, or going on gives them. */
  lemma ScanningOn(v: Tables, refs: seq<IncRef>, t: string, lnr0: nat, col0: nat, pp0: bool,
                   word: bool, u: Use, stop: bool, rest: string, lnr: nat, col: nat, pp: bool, r: seq<IncRef>)
    requires Scanning(v, refs, t, lnr0, col0, pp0, r)
    requires Looks(Scan(t, lnr0, col0, pp0), word, u, stop, rest, lnr, col, pp)
    ensures word ==> HasEntry(v, u)
    ensures var refs' := if word then Record1(v, refs, u) else refs;
      if stop then refs' == r else Scanning(v, refs', rest, lnr, col, pp, r)
  {
    assert Recorded(v, Record1(v, refs, u), Nil) == Record1(v, refs, u);
  }

  /** The scanner's objects are apart from the tables'. */
  ghost predicate Apart(db: IdDatabase, refv: RefVector)
    reads db, db.Repr, refv
  {
    db.Valid() && refv.Valid() && {refv, refv.tab} !! db.Repr
  }

  /** What the scanner does with the character `c` that begins `t`: nothing, or one lookup, and then
      on with `rest` or no further. */
  ghost predicate Looks(us: List<Use>, word: bool, u: Use, stop: bool, rest: string, lnr: nat, col: nat, pp: bool) {
    && (stop ==> us == if word then Cons(u, Nil) else Nil)
    && (!stop ==> us == if word then Cons(u, Scan(rest, lnr, col, pp)) else Scan(rest, lnr, col, pp))
  }

  /** The body of the main loop up to the lookup, for the character `c` that begins `t`. */
  method Look(f: File, cf: Cf, ccv: Ccv, idbuf: array<char>, ghost t: string, c: char, ghost s: string,
              lnr0: nat, col0: nat, pp0: bool)
    returns (word: bool, name: string, call: bool, ref_lnr: nat,
             stop: bool, lnr: nat, col: nat, pp: bool, ghost rest: string)
    requires Pulling(f, cf, ccv, s, 1) && idbuf.Length == ID_SIZE && Splits(t, Ch(c), s)
    requires NamesFit(Scan(t, lnr0, col0, pp0))
    modifies f, cf, ccv`len, ccv.array_, idbuf
    ensures Pulling(f, cf, ccv, rest, 2) && |rest| < |t|
    ensures Looks(Scan(t, lnr0, col0, pp0), word, Use(name, call, ref_lnr), stop, rest, lnr, col, pp)
  {
    word, name, call, ref_lnr, stop := false, "", false, 0, false;
    lnr, col, pp := lnr0, col0, pp0;
    if c == '\n' {
      lnr, col, pp := lnr + 1, 0, false;
    } else {
      col := col + 1;
    }
    if col == 1 && c == '#' {
      pp := true;
    }
    if IsIdStart(c) {
      var n, dropped, c';
      n, call, dropped, c', ref_lnr, lnr, col, pp, rest := Word(f, cf, ccv, idbuf, t, c, s, lnr, col, pp);
      word, name, stop := !dropped, idbuf[..n], c' == EOF;
    } else {
      MoreRoom(f, cf, ccv, s);
      rest := s;
    }
  }

  /** The scanner's objects before a character that begins `t`, `s` being what follows it. */
  ghost predicate Placed(db: IdDatabase, refv: RefVector, f: File, cf: Cf, ccv: Ccv, idbuf: array<char>,
                         t: string, c: CInt, s: string, lnr: nat, col: nat, pp: bool, r: seq<IncRef>)
    reads db, db.Repr, refv, refv.tab, f, cf, ccv, ccv.array_
  {
    && Apart(db, refv) && {f, cf, ccv, ccv.array_, idbuf} !! db.Repr && idbuf.Length == ID_SIZE
    && Pulling(f, cf, ccv, s, 1) && Splits(t, c, s)
    && Scanning(db.View(), refv.Refs(), t, lnr, col, pp, r)
  }

  /** One round of the main loop: what is read, and the lookup. */
  method Round(db: IdDatabase, refv: RefVector, f: File, cf: Cf, ccv: Ccv, idbuf: array<char>,
               ghost t: string, c: char, ghost s: string, lnr0: nat, col0: nat, pp0: bool, ghost r: seq<IncRef>)
    returns (stop: bool, lnr: nat, col: nat, pp: bool, ghost rest: string)
    requires Placed(db, refv, f, cf, ccv, idbuf, t, Ch(c), s, lnr0, col0, pp0, r)
    modifies db.Repr, refv, refv.tab, f, cf, ccv`len, ccv.array_, idbuf
    ensures Apart(db, refv) && fresh(db.Repr - old(db.Repr)) && old(db.Repr) <= db.Repr && db.View() == old(db.View())
    ensures refv.tab == old(refv.tab) || fresh(refv.tab)
    ensures Pulling(f, cf, ccv, rest, 2) && |rest| < |t|
    ensures if stop then refv.Refs() == r else Scanning(db.View(), refv.Refs(), rest, lnr, col, pp, r)
  {
    ghost var v, refs := db.View(), refv.Refs();
    var word, name, call, ref_lnr;
    word, name, call, ref_lnr, stop, lnr, col, pp, rest := Look(f, cf, ccv, idbuf, t, c, s, lnr0, col0, pp0);
    ScanningOn(v, refs, t, lnr0, col0, pp0, word, Use(name, call, ref_lnr), stop, rest, lnr, col, pp, r);
    if word {
      RecordUse(db, refv, name, call, ref_lnr);
    }
  }

  /** One round, and the character that begins the next one. */
  method Turn(db: IdDatabase, refv: RefVector, f: File, cf: Cf, ccv: Ccv, idbuf: array<char>,
              ghost t: string, c: char, ghost s: string, lnr0: nat, col0: nat, pp0: bool, ghost r: seq<IncRef>)
    returns (stop: bool, lnr: nat, col: nat, pp: bool, c': CInt, ghost t': string, ghost rest: string)
    requires Placed(db, refv, f, cf, ccv, idbuf, t, Ch(c), s, lnr0, col0, pp0, r)
    modifies db.Repr, refv, refv.tab, f, cf, ccv`len, ccv.array_, idbuf
    ensures Apart(db, refv) && fresh(db.Repr - old(db.Repr)) && old(db.Repr) <= db.Repr && db.View() == old(db.View())
    ensures refv.tab == old(refv.tab) || fresh(refv.tab)
    ensures if stop then refv.Refs() == r
            else Pulling(f, cf, ccv, rest, 1) && Splits(t', c', rest) && |t'| < |t|
                 && Scanning(db.View(), refv.Refs(), t', lnr, col, pp, r)
  {
    stop, lnr, col, pp, t' := Round(db, refv, f, cf, ccv, idbuf, t, c, s, lnr0, col0, pp0, r);
    c', rest := EOF, t';
    if !stop {
      c', rest := Next(f, cf, ccv, t');
    }
  }

  /** The main loop of `incbot_src_stream`. */
  method Loop(db: IdDatabase, refv: RefVector, f: File, cf: Cf, ccv: Ccv, idbuf: array<char>,
              ghost t0: string, ghost r: seq<IncRef>)
    requires Apart(db, refv) && {f, cf, ccv, ccv.array_, idbuf} !! db.Repr
    requires Pulling(f, cf, ccv, t0, 2) && idbuf.Length == ID_SIZE
    requires Scanning(db.View(), refv.Refs(), t0, 0, 0, false, r)
    modifies db.Repr, refv, refv.tab, f, cf, ccv`len, ccv.array_, idbuf
    ensures Apart(db, refv) && fresh(db.Repr - old(db.Repr)) && old(db.Repr) <= db.Repr && db.View() == old(db.View())
    ensures (refv.tab == old(refv.tab) || fresh(refv.tab)) && refv.Refs() == r
  {
    ghost var v, t, rest := db.View(), t0, t0;
    var lnr, col, pp, stop, c := 0, 0, false, false, EOF;
    c, rest := Next(f, cf, ccv, t);
    while c != EOF
      invariant Apart(db, refv) && fresh(db.Repr - old(db.Repr)) && old(db.Repr) <= db.Repr
      invariant db.View() == v && (refv.tab == old(refv.tab) || fresh(refv.tab))
      invariant {f, cf, ccv, ccv.array_, idbuf} !! db.Repr
      invariant Pulling(f, cf, ccv, rest, 1) && Splits(t, c, rest)
      invariant Scanning(v, refv.Refs(), t, lnr, col, pp, r)
      decreases |t|
    {
      stop, lnr, col, pp, c, t, rest := Turn(db, refv, f, cf, ccv, idbuf, t, c.c, rest, lnr, col, pp, r);
      if stop {
        return;
      }
    }
    ScanningEnd(v, refv.Refs(), lnr, col, pp, r);
  }

  /** `incbot_src_stream`: the references recorded are those of the scanned code stream. */
  method ScanStream(db: IdDatabase, refv: RefVector, f: File)
    requires Apart(db, refv) && db.View().Valid() && f !in db.Repr
    requires f.pos <= |f.text| && NamesFit(Scan(CodeOf(f.Rest()), 0, 0, false))
    requires AllHaveEntries(db.View(), Scan(CodeOf(f.Rest()), 0, 0, false))
    modifies db.Repr, refv, refv.tab, f
    ensures Apart(db, refv) && fresh(db.Repr - old(db.Repr)) && old(db.Repr) <= db.Repr && db.View() == old(db.View())
    ensures refv.tab == old(refv.tab) || fresh(refv.tab)
    ensures refv.Refs() == Recorded(db.View(), old(refv.Refs()), Scan(CodeOf(old(f.Rest())), 0, 0, false))
  {
    ghost var t := CodeOf(f.Rest());
    ghost var r := Recorded(db.View(), refv.Refs(), Scan(t, 0, 0, false));
    var ccv := new Ccv();
    var cf := new Cf();
    var idbuf := new char[ID_SIZE];
    Loop(db, refv, f, cf, ccv, idbuf, t, r);
  }
}
