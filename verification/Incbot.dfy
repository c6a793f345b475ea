/** The tables of `incbot` and what works on them: the table reader, the searches and
    the scanner. */
module Incbot {
  import opened CStrings
  import opened Files
  import opened Interning
  import opened Lists
  import opened IdTable
  import opened Syncing
  import opened References
  import Dict
  import Hash

  const TABLE_SEGMENT_SIZE: nat := 64

  /** `id_table`: the committed entries, and behind them the one being filled in. */
  class IdVector {
    var tab: array<IdInfo>
    var sz: nat
    var len: nat
    ghost var stored: bool  // the entry behind the committed ones was written

    ghost predicate Valid()
      reads this
    {
      len <= sz == tab.Length && (stored ==> len < sz)
    }

    ghost function Rows(): seq<IdInfo>
      requires Valid()
      reads this, tab
    {
      tab[..len]
    }

    /** The entry being filled in; nothing is known of it before it is written. */
    ghost function Draft(): Option<IdInfo>
      requires Valid()
      reads this, tab
    {
      if stored then Some(tab[len]) else None
    }

    /** The entries that a lookup can reach when the dictionary holds the numbers below `ids`. */
    ghost function Live(ids: nat): seq<IdInfo>
      requires Valid()
      reads this, tab
    {
      if ids > len + 1 && stored then tab[..len + 1] else tab[..len]
    }

    constructor ()
      ensures Valid() && Rows() == [] && Draft() == None && fresh(tab)
    {
      tab := new IdInfo[TABLE_SEGMENT_SIZE](_ => VIRGIN);
      sz := TABLE_SEGMENT_SIZE;
      len := 0;
      stored := false;
    }

    /** `id_table_grow` when the table is full; no entry changes. */
    method NeedRoom()
      requires Valid()
      modifies this
      ensures Valid() && len == old(len) && Rows() == old(Rows()) && len < sz && Draft() == old(Draft())
      ensures tab == old(tab) || fresh(tab)
    {
      if len >= sz {
        var grown := new IdInfo[sz + TABLE_SEGMENT_SIZE](i requires 0 <= i reads this, tab =>
          if i < tab.Length then tab[i] else VIRGIN);
        tab := grown;
        sz := sz + TABLE_SEGMENT_SIZE;
      }
    }

    /** One field goes into the entry being filled in; field 0 starts that entry afresh. */
    method Put(fidx: nat, fld: string, nr: nat)
      requires Valid() && (fidx > 0 ==> stored)
      modifies this, tab
      ensures Valid() && Rows() == old(Rows()) && (tab == old(tab) || fresh(tab))
      ensures Draft() == Some(WithField(if fidx > 0 then old(Draft()).value else VIRGIN, fidx, fld, nr))
    {
      NeedRoom();
      tab[len] := WithField(tab[len], fidx, fld, nr);
      stored := true;
    }

    /** The entry filled in last is committed. */
    method Commit()
      requires Valid() && stored
      modifies this`len, this`stored
      ensures Valid() && Rows() == old(Rows()) + [old(Draft()).value] && Draft() == None
    {
      len := len + 1;
      stored := false;
    }
  }

  /** `ref_inc_table` */
  class RefVector {
    var tab: array<IncRef>
    var sz: nat
    var len: nat

    ghost predicate Valid()
      reads this
    {
      len <= sz == tab.Length
    }

    ghost function Refs(): seq<IncRef>
      requires Valid()
      reads this, tab
    {
      tab[..len]
    }

    constructor ()
      ensures Valid() && Refs() == [] && fresh(tab)
    {
      tab := new IncRef[TABLE_SEGMENT_SIZE](_ => IncRef(0, 0, 0, 0));
      sz := TABLE_SEGMENT_SIZE;
      len := 0;
    }

    /** `add_ref_inc_pair` */
    method Add(r: IncRef)
      requires Valid()
      modifies this, tab
      ensures Valid() && Refs() == old(Refs()) + [r] && (tab == old(tab) || fresh(tab))
    {
      if len >= sz {
        var grown := new IncRef[sz + TABLE_SEGMENT_SIZE](i requires 0 <= i reads this, tab =>
          if i < tab.Length then tab[i] else r);
        tab := grown;
        sz := sz + TABLE_SEGMENT_SIZE;
      }
      tab[len] := r;
      len := len + 1;
    }
  }

  // Always true; as in `Dict`, they keep the solver away from what no caller needs.

  ghost predicate TablesOpened(k: int) {
    true
  }

  ghost predicate CharOpened(k: int) {
    true
  }

  /** The globals that `init_tables` sets up for the identifier table. */
  class IdDatabase {
    const id_symtable: Dict.Dict
    const strtable: Dict.Dict
    const idv: IdVector

    ghost var Repr: set<object>

    /** The dictionaries are well formed and share nothing. */
    ghost predicate Separate()
      reads this, Repr
    {
      && this in Repr && idv in Repr && idv.tab in Repr && id_symtable in Repr && strtable in Repr
      && id_symtable.Repr <= Repr && strtable.Repr <= Repr
      && id_symtable.Valid() && strtable.Valid()
      && id_symtable.Repr !! strtable.Repr
      && {this, idv, idv.tab} !! id_symtable.Repr
      && {this, idv, idv.tab} !! strtable.Repr
    }

    ghost predicate Valid()
      reads this, Repr
    {
      && this in Repr && idv in Repr && idv.tab in Repr && id_symtable in Repr && strtable in Repr
      && idv.Valid() && Named()
      && forall k :: TablesOpened(k) ==> Separate()
    }

    /** Slot 0 of both dictionaries is there. */
    ghost predicate Named()
      reads id_symtable, strtable
    {
      |id_symtable.names| >= 1 && |strtable.names| >= 1
    }

    ghost function St(): Store
      requires Named()
      reads id_symtable, strtable
    {
      Dictionaries(id_symtable.names, strtable.names)
    }

    /** `init_tables` */
    constructor ()
      ensures Valid() && fresh(Repr)
      ensures St() == Dictionaries(["*POISON*"], ["*POISON*"]) && idv.Rows() == [] && idv.Draft() == None
    {
      id_symtable := new Dict.Dict(Hash.HashSymbol);
      strtable := new Dict.Dict(Hash.HashSymbol);
      idv := new IdVector();
      new;
      Repr := {this, idv, idv.tab} + id_symtable.Repr + strtable.Repr;
    }

    /** `dict_add` on the identifiers. */
    method AddName(fld: string) returns (nr: nat)
      requires Valid()
      modifies id_symtable.Repr, this`Repr
      ensures Valid() && fresh(Repr - old(Repr)) && old(Repr) <= Repr
      ensures (id_symtable.names, nr) == Intern(old(id_symtable.names), fld) && strtable.names == old(strtable.names)
      ensures unchanged(idv) && idv.tab[..] == old(idv.tab[..])
    {
      assert TablesOpened(0);
      nr := id_symtable.Add(fld);
      Repr := Repr + id_symtable.Repr;
    }

    /** `dict_add` on the other strings. */
    method AddString(fld: string) returns (nr: nat)
      requires Valid()
      modifies strtable.Repr, this`Repr
      ensures Valid() && fresh(Repr - old(Repr)) && old(Repr) <= Repr
      ensures (strtable.names, nr) == Intern(old(strtable.names), fld) && id_symtable.names == old(id_symtable.names)
      ensures unchanged(idv) && idv.tab[..] == old(idv.tab[..])
    {
      assert TablesOpened(0);
      nr := strtable.Add(fld);
      Repr := Repr + strtable.Repr;
    }

    /** The dictionary calls of `add_id_field`. */
    method InternText(fld: string, fidx: nat) returns (nr: nat)
      requires Valid()
      modifies Repr
      ensures Valid() && fresh(Repr - old(Repr)) && old(Repr) <= Repr
      ensures (St(), nr) == InternField(old(St()), fld, fidx)
      ensures unchanged(idv) && idv.tab[..] == old(idv.tab[..])
    {
      assert TablesOpened(0);
      nr := 0;
      if fidx == 2 {
        nr := AddName(fld);
      } else if 0 < fidx < 7 || (fidx == 7 && fld != "") {
        nr := AddString(fld);
      }
    }

    /** What `add_id_field` does with the entry. */
    method StoreField(fidx: nat, fld: string, nr: nat)
      requires Valid() && (fidx > 0 ==> idv.stored)
      modifies idv, idv.tab, this`Repr
      ensures Valid() && fresh(Repr - old(Repr)) && old(Repr) <= Repr && St() == old(St())
      ensures idv.Draft() == Some(WithField(if fidx > 0 then old(idv.Draft()).value else VIRGIN, fidx, fld, nr))
      ensures idv.Rows() == old(idv.Rows())
    {
      assert TablesOpened(0);
      idv.Put(fidx, fld, nr);
      Repr := Repr + {idv.tab};
    }

    /** `add_id_field`: the text in the buffer ends at its first NUL. */
    method AddIdField(buf: string, fidx: nat)
      requires Valid() && (fidx > 0 ==> idv.stored)
      modifies Repr
      ensures Valid() && fresh(Repr - old(Repr)) && old(Repr) <= Repr
      ensures var row := if fidx > 0 then old(idv.Draft()).value else VIRGIN;
        var (st', row') := AddField(old(St()), row, CStr(buf), fidx);
        St() == st' && idv.Draft() == Some(row')
      ensures idv.Rows() == old(idv.Rows())
    {
      var nr := InternText(CStr(buf), fidx);
      StoreField(fidx, CStr(buf), nr);
    }

    /** Inside a line: the finished fields are stored, the current one is in the buffer. */
    ghost predicate InLine(fbuf: array<char>, n: nat, fidx: nat, p: Parse, line: string)
      reads this, Repr, fbuf
    {
      && Valid() && !p.stopped
      && fbuf.Length == FBUF_SIZE && fbuf !in Repr
      && fidx == |Cut(line).0| && n < FBUF_SIZE && fbuf[..n] == Cut(line).1
      && St() == AddFields(p.st, Cut(line).0).0
      && idv.Rows() == p.rows
      && idv.Draft() == if fidx > 0 then Some(AddFields(p.st, Cut(line).0).1) else p.draft
    }

    /** The buffer is terminated and stored as field `fidx`. */
    method EndField(fbuf: array<char>, n: nat, fidx: nat, ghost p: Parse, ghost line: string)
      requires InLine(fbuf, n, fidx, p, line)
      modifies Repr, fbuf
      ensures Valid() && fresh(Repr - old(Repr)) && old(Repr) <= Repr && fbuf !in Repr
      ensures var (st, row) := AddFields(p.st, Fields(line));
        St() == st && idv.Draft() == Some(row) && idv.Rows() == p.rows
    {
      ghost var (done, cur) := Cut(line);
      fbuf[n] := '\0';
      assert fbuf[..] == cur + ['\0'] + fbuf[n + 1..];
      CStrTerminated(cur, fbuf[n + 1..]);
      AddFieldsSnoc(p.st, done, cur);
      AddIdField(fbuf[..], fidx);
    }

    /** A semicolon finishes one field. */
    method OnSemicolon(fbuf: array<char>, n: nat, fidx: nat, ghost p: Parse, ghost line: string)
      requires InLine(fbuf, n, fidx, p, line)
      modifies Repr, fbuf
      ensures fresh(Repr - old(Repr)) && old(Repr) <= Repr && InLine(fbuf, 0, fidx + 1, p, line + [';'])
    {
      CutSemicolon(line);
      EndField(fbuf, n, fidx, p, line);
    }

    /** The newline of a record: its last field is stored, and it is committed unless it is
        one over-long line too many. */
    method OnNewline(fbuf: array<char>, n: nat, fidx: nat, err_count: nat, ghost p: Parse, ghost line: string)
      returns (errs: nat, bail: bool, ghost p': Parse)
      requires InLine(fbuf, n, fidx, p, line) && err_count == p.errs
      modifies Repr, fbuf
      ensures fresh(Repr - old(Repr)) && old(Repr) <= Repr
      ensures p' == Take(p, Fields(line)) && errs == p'.errs && bail == p'.stopped
      ensures Valid() && St() == p'.st && idv.Rows() == p'.rows && idv.Draft() == p'.draft && fbuf !in Repr
    {
      errs, bail := err_count, false;
      ghost var st, row;
      st, row, p' := TakeParts(p, line);
      EndField(fbuf, n, fidx, p, line);
      if fidx >= NFLD {
        errs := errs + 1;
        if errs > ERR_LIMIT {
          return errs, true, p';
        }
      }
      idv.Commit();
    }

    lemma TakeParts(p: Parse, line: string) returns (st: Store, row: IdInfo, p': Parse)
      requires !p.stopped
      ensures p' == Take(p, Fields(line)) && (st, row) == AddFields(p.st, Fields(line))
      ensures var errs := if |Cut(line).0| >= NFLD then p.errs + 1 else p.errs;
        p' == if errs > ERR_LIMIT && |Cut(line).0| >= NFLD then Parse(st, p.rows, errs, true, Some(row))
              else Parse(st, p.rows + [row], errs, false, None)
    {
      st, row := AddFields(p.st, Fields(line)).0, AddFields(p.st, Fields(line)).1;
      p' := Take(p, Fields(line));
    }

    /** Any other character goes into the buffer. */
    method OnChar(fbuf: array<char>, n: nat, fidx: nat, c: char, ghost p: Parse, ghost line: string)
      requires InLine(fbuf, n, fidx, p, line) && c != ';' && |Cut(line + [c]).1| < FBUF_SIZE
      modifies fbuf
      ensures InLine(fbuf, n + 1, fidx, p, line + [c])
    {
      CutOther(line, c);
      if n < FBUF_SIZE {
        fbuf[n] := c;
      } else {
        assert false;
      }
    }

    /** A comment line is skipped: its newline is the next character, or the file ends. */
    method SkipComment(f: File, ghost p: Parse, ghost rest: string, ghost r: Parse) returns (c: CInt)
      requires f.pos <= |f.text| && Going(p, "", rest, r) && rest != "" && rest[0] == '#' && f.Rest() == rest[1..]
      modifies f
      ensures f.pos <= |f.text| && f.pos >= old(f.pos)
      ensures if c == EOF then Going(p, "", "", r) else c == Ch('\n') && Going(p, "", ['\n'] + f.Rest(), r)
    {
      GoingComment(p, rest, r);
      c := f.SkipLine();
      assert rest[1..][LineEnd(rest[1..])..] == rest[LineEnd(rest)..];
      if c != EOF {
        GoingBlank(p, f.Rest(), r);
      }
    }

    /** The newline of a record, and what is left to read behind it. */
    method EndLine(fbuf: array<char>, n: nat, fidx: nat, err_count: nat,
                   ghost p: Parse, ghost line: string, ghost rest: string, ghost r: Parse)
      returns (errs: nat, bail: bool, ghost p': Parse)
      requires InLine(fbuf, n, fidx, p, line) && err_count == p.errs
      requires Going(p, line, ['\n'] + rest, r) && line != ""
      modifies Repr, fbuf
      ensures Valid() && fresh(Repr - old(Repr)) && old(Repr) <= Repr && errs == p'.errs
      ensures if bail then r.stopped && St() == r.st && idv.Rows() == r.rows && idv.Draft() == r.draft
              else InLine(fbuf, 0, 0, p', "") && Going(p', "", rest, r)
    {
      GoingNewline(p, line, rest, r);
      errs, bail, p' := OnNewline(fbuf, n, fidx, err_count, p, line);
    }

    /** Where the loop of the reader stands: `line` was read of a line, and `rest` is still to come. */
    ghost predicate Stands(f: File, fbuf: array<char>, n: nat, fidx: nat, lcol: nat, errs: nat,
                           p: Parse, line: string, rest: string, r: Parse)
      reads this, Repr, fbuf, f
    {
      && f.pos <= |f.text| && f !in Repr && Valid() && errs == p.errs
      && forall k :: CharOpened(k) ==>
        InLine(fbuf, n, fidx, p, line) && (lcol == 0 <==> line == "") && Going(p, line, rest, r)
    }

    /** What comes when `c` was read from the file, or its end. */
    ghost function Coming(f: File, c: CInt): string
      requires f.pos <= |f.text|
      reads f
    {
      if c == EOF then "" else [c.c] + f.Rest()
    }

    /** One character of the table text, comment lines skipped. */
    method Fetch(f: File, fbuf: array<char>, n: nat, fidx: nat, lcol: nat, errs: nat,
                 ghost p: Parse, ghost line: string, ghost r: Parse) returns (c: CInt)
      requires f.pos <= |f.text| && Stands(f, fbuf, n, fidx, lcol, errs, p, line, f.Rest(), r)
      modifies f
      ensures f.pos <= |f.text| && f.pos >= old(f.pos) && (c != EOF ==> f.pos > old(f.pos))
      ensures Stands(f, fbuf, n, fidx, lcol, errs, p, line, Coming(f, c), r) && (lcol == 0 ==> c != Ch('#'))
    {
      assert CharOpened(0);
      ghost var rest := f.Rest();
      c := f.Getc();
      if c == Ch('#') && lcol == 0 {
        c := SkipComment(f, p, rest, r);
      } else {
        assert c != EOF ==> rest == [c.c] + f.Rest();
      }
    }

    /** What the loop of the reader does with one character. */
    method Feed(f: File, fbuf: array<char>, fbuf_len: nat, fidx: nat, lcol: nat, err_count: nat, c: char,
                ghost p: Parse, ghost line: string, ghost r: Parse)
      returns (n: nat, idx: nat, col: nat, errs: nat, bail: bool, ghost p': Parse, ghost line': string)
      requires f.pos <= |f.text|
      requires Stands(f, fbuf, fbuf_len, fidx, lcol, err_count, p, line, [c] + f.Rest(), r) && (lcol == 0 ==> c != '#')
      modifies Repr, fbuf
      ensures Valid() && fresh(Repr - old(Repr)) && old(Repr) <= Repr
      ensures if bail then r.stopped && St() == r.st && idv.Rows() == r.rows && idv.Draft() == r.draft
              else Stands(f, fbuf, n, idx, col, errs, p', line', f.Rest(), r)
    {
      assert CharOpened(0);
      n, idx, col, errs, bail, p', line' := fbuf_len, fidx, lcol + 1, err_count, false, p, line + [c];
      if c == '\n' {
        idx, col, line' := 0, 0, "";
        if lcol != 0 {
          errs, bail, p' := EndLine(fbuf, fbuf_len, fidx, err_count, p, line, f.Rest(), r);
          n := 0;
        } else {
          GoingNewline(p, line, f.Rest(), r);
        }
      } else {
        GoingOn(p, line, c, f.Rest(), r);
        if c == ';' {
          OnSemicolon(fbuf, fbuf_len, fidx, p, line);
          n, idx := 0, fidx + 1;
        } else {
          OnChar(fbuf, fbuf_len, fidx, c, p, line);
          n := fbuf_len + 1;
        }
      }
    }

    /** One round of the loop of the reader: a character is dealt with, and the next one fetched. */
    method Turn(f: File, fbuf: array<char>, fbuf_len: nat, fidx: nat, lcol: nat, err_count: nat, c: char,
                ghost p: Parse, ghost line: string, ghost r: Parse)
      returns (n: nat, idx: nat, col: nat, errs: nat, bail: bool, c': CInt, ghost p': Parse, ghost line': string)
      requires f.pos <= |f.text|
      requires Stands(f, fbuf, fbuf_len, fidx, lcol, err_count, p, line, [c] + f.Rest(), r) && (lcol == 0 ==> c != '#')
      modifies f, Repr, fbuf
      ensures Valid() && fresh(Repr - old(Repr)) && old(Repr) <= Repr && f.pos <= |f.text|
      ensures if bail then r.stopped && St() == r.st && idv.Rows() == r.rows && idv.Draft() == r.draft
              else Stands(f, fbuf, n, idx, col, errs, p', line', Coming(f, c'), r) && (col == 0 ==> c' != Ch('#'))
                   && (f.pos > old(f.pos) || c' == EOF)
      ensures f.pos >= old(f.pos)
    {
      n, idx, col, errs, bail, p', line' := Feed(f, fbuf, fbuf_len, fidx, lcol, err_count, c, p, line, r);
      c' := EOF;
      if !bail {
        c' := Fetch(f, fbuf, n, idx, col, errs, p', line', r);
      }
    }

    /** The loop of the reader, from the start of a line on. */
    method ReadLines(f: File, fbuf: array<char>, ghost p0: Parse, ghost r: Parse) returns (rv: int)
      requires f.pos <= |f.text| && Stands(f, fbuf, 0, 0, 0, 0, p0, "", f.Rest(), r)
      modifies f, Repr, fbuf
      ensures Valid() && fresh(Repr - old(Repr)) && old(Repr) <= Repr
      ensures St() == r.st && idv.Rows() == r.rows && idv.Draft() == r.draft && rv == ExitCode(r)
    {
      var fbuf_len, fidx, lcol, err_count, bail := 0, 0, 0, 0, false;
      ghost var p, line := p0, "";
      var c := Fetch(f, fbuf, fbuf_len, fidx, lcol, err_count, p, line, r);
      while c != EOF
        invariant fresh(Repr - old(Repr)) && old(Repr) <= Repr && f.pos <= |f.text|
        invariant Stands(f, fbuf, fbuf_len, fidx, lcol, err_count, p, line, Coming(f, c), r)
        invariant lcol == 0 ==> c != Ch('#')
        decreases |f.text| - f.pos, if c == EOF then 0 else 1
      {
        fbuf_len, fidx, lcol, err_count, bail, c, p, line :=
          Turn(f, fbuf, fbuf_len, fidx, lcol, err_count, c.c, p, line, r);
        if bail {
          return 2;
        }
      }
      LineEnded(f, fbuf, fbuf_len, fidx, lcol, err_count, p, line, r);
      rv := if err_count != 0 then 1 else 0;
    }

    /** `read_id_table_stream` */
    method ReadIdTableStream(f: File) returns (rv: int)
      requires Valid() && f.pos <= |f.text| && f !in Repr && FieldsFit(f.Rest())
      modifies f, Repr
      ensures Valid() && fresh(Repr - old(Repr)) && old(Repr) <= Repr
      ensures var r := ReadText(Parse(old(St()), old(idv.Rows()), 0, false, old(idv.Draft())), old(f.Rest()));
        St() == r.st && idv.Rows() == r.rows && idv.Draft() == r.draft && rv == ExitCode(r)
    {
      var fbuf := new char[FBUF_SIZE];
      ghost var p := Parse(St(), idv.Rows(), 0, false, idv.Draft());
      ghost var r := ReadText(p, f.Rest());
      GoingStart(p, f.Rest());
      rv := ReadLines(f, fbuf, p, r);
    }

    lemma LineEnded(f: File, fbuf: array<char>, n: nat, fidx: nat, lcol: nat, errs: nat,
                    p: Parse, line: string, r: Parse)
      requires Stands(f, fbuf, n, fidx, lcol, errs, p, line, "", r)
      ensures idv.Valid() && St() == r.st && idv.Rows() == r.rows && idv.Draft() == r.draft
      ensures ExitCode(r) == if p.errs > 0 then 1 else 0
    {
      assert CharOpened(0);
      GoingEnd(p, line, r);
    }

    // ---- Checking and searching

    /** The tables as lookups see them. */
    ghost function View(): Tables
      requires idv.Valid() && Named()
      reads id_symtable, strtable, idv, idv.tab
    {
      Tables(St(), idv.Live(|id_symtable.names|))
    }

    /** `verify_idtable`: false where the program gives up. */
    method VerifyIdTable() returns (ok: bool)
      requires Valid()
      ensures ok <==> InStep(idv.Rows())
    {
      var err_count, pos := 0, 0;
      while pos < idv.len
        invariant 0 <= pos <= idv.len && err_count >= 0
        invariant err_count == 0 <==> forall k :: 0 <= k < pos ==> idv.Rows()[k].sym == k + 1
      {
        var symnr := idv.tab[pos].sym;
        assert idv.Rows()[pos].sym == symnr;
        if symnr != pos + 1 {
          err_count := err_count + 1;
          if err_count >= 10 {
            return false;
          }
        }
        pos := pos + 1;
      }
      ok := err_count == 0;
    }

    /** `dict_find` on the identifiers. */
    method FindName(s: string) returns (symnr: nat)
      requires Valid()
      modifies id_symtable.Repr, this`Repr
      ensures Valid() && fresh(Repr - old(Repr)) && old(Repr) <= Repr
      ensures symnr == Lookup(id_symtable.names, s)
      ensures St() == old(St()) && unchanged(idv) && idv.tab[..] == old(idv.tab[..])
    {
      assert TablesOpened(0);
      symnr := id_symtable.Find(s);
      Repr := Repr + id_symtable.Repr;
    }

    /** `id_find` */
    method Find(s: string, mask: set<IdType>) returns (r: Option<nat>)
      requires Valid() && View().Valid() && Lookup(St().ids, s) <= |View().rows|
      modifies Repr
      ensures Valid() && fresh(Repr - old(Repr)) && old(Repr) <= Repr
      ensures View() == old(View()) && r == IdFind(View(), s, mask)
    {
      assert TablesOpened(0);
      var symnr := FindName(s);
      if symnr == 0 {
        return None;
      }
      var id_pos := symnr - 1;
      var t := idv.tab[id_pos].typ;
      if !Matches(t, mask) {
        return None;
      }
      return Some(id_pos);
    }

    /** `dict_getname_nr` on the string table. */
    method IncludeName(nr: nat) returns (s: string)
      requires Valid() && 0 < nr < |strtable.names|
      ensures s == strtable.names[nr]
    {
      assert TablesOpened(0);
      assert Dict.Opened(0);
      var name := strtable.GetNameNr(nr);
      return name.str;
    }

    /** `dict_getname_nr` on the identifiers. */
    method IdName(nr: nat) returns (s: string)
      requires Valid() && 0 < nr < |id_symtable.names|
      ensures s == id_symtable.names[nr]
    {
      assert TablesOpened(0);
      assert Dict.Opened(0);
      var name := id_symtable.GetNameNr(nr);
      return name.str;
    }

    /** `id_find_linear_search` */
    method FindLinearSearch(s: string, mask: set<IdType>) returns (r: Option<nat>)
      requires Valid() && Bounded(St(), idv.Rows())
      ensures r == FindFrom(St(), idv.Rows(), s, mask, 0)
    {
      assert TablesOpened(0);
      var pos := 0;
      while pos < idv.len
        invariant 0 <= pos <= idv.len
        invariant FindFrom(St(), idv.Rows(), s, mask, 0) == FindFrom(St(), idv.Rows(), s, mask, pos)
      {
        var row := idv.tab[pos];
        assert row == idv.Rows()[pos] && RowBounded(St(), row);
        assert Dict.Opened(0);
        var sym := id_symtable.GetNameNr(row.sym);
        if sym != Dict.Null && s == sym.str && Matches(row.typ, mask) {
          return Some(pos);
        }
        pos := pos + 1;
      }
      return None;
    }
  }
}
