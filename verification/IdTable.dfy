/** The identifier table: what its text means, line by line and field by field,
    and when the table is in step with the symbol dictionary. */
module IdTable {
  import opened CStrings
  import opened Interning
  import opened Lists

  const NFLD: nat := 8
  const ERR_LIMIT: nat := 10
  const FBUF_SIZE: nat := 1024

  /** `enum sym_type`: each constant is one bit.  `NoType` is 0, `Invalid` is -1, which has every bit. */
  datatype IdType = Unknown | Function | Typedef | Keyword | Constant | Var | Struct | NoType | Invalid

  const TYPE_ALL: set<IdType> := {Unknown, Function, Typedef, Keyword, Constant, Var, Struct}

  /** `(t & mask) != 0` for a mask of `sym_type` bits. */
  predicate Matches(t: IdType, mask: set<IdType>) {
    t in mask || (t == Invalid && mask != {})
  }

  /** `enum sym_type`, in as many bits as it uses. */
  function Bits(t: IdType): bv8 {
    match t
    case Unknown => 0x01
    case Function => 0x02
    case Typedef => 0x04
    case Keyword => 0x08
    case Constant => 0x10
    case Var => 0x20
    case Struct => 0x40
    case NoType => 0x00
    case Invalid => 0xFF
  }

  function MaskBits(mask: set<IdType>): bv8 {
    (if Unknown in mask then 0x01 else 0) | (if Function in mask then 0x02 else 0)
    | (if Typedef in mask then 0x04 else 0) | (if Keyword in mask then 0x08 else 0)
    | (if Constant in mask then 0x10 else 0) | (if Var in mask then 0x20 else 0) | (if Struct in mask then 0x40 else 0)
  }

  lemma MatchesExact(t: IdType, mask: set<IdType>)
    requires mask <= TYPE_ALL
    ensures Matches(t, mask) <==> Bits(t) & MaskBits(mask) != 0
  {
    if t == Invalid && mask != {} {
      var u :| u in mask;
    }
  }

  /** `encode_id_type` */
  function EncodeType(s: string): IdType {
    if s == "c" then Constant
    else if s == "f" then Function
    else if s == "k" then Keyword
    else if s == "s" then Struct
    else if s == "t" then Typedef
    else if s == "v" then Var
    else if s == "?" then Unknown
    else Invalid
  }

  function Letter(on: bool, c: char): string {
    if on then [c] else ""
  }

  /** `decode_id_type` on a mask of types. */
  function DecodeMask(mask: set<IdType>): string {
    Letter(Constant in mask, 'c') + Letter(Function in mask, 'f') + Letter(Keyword in mask, 'k')
    + Letter(Struct in mask, 's') + Letter(Typedef in mask, 't') + Letter(Var in mask, 'v')
    + Letter(Unknown in mask, '?')
  }

  /** `decode_id_type` on the type of an entry. */
  function DecodeType(t: IdType): string {
    if t == Invalid then "?" else DecodeMask({t})
  }

  lemma InEither(a: string, b: string, c: char)
    ensures c in a + b <==> c in a || c in b
  {}

  lemma InLetters(mask: set<IdType>, c: char)
    ensures c in DecodeMask(mask) <==>
      || (c == 'c' && Constant in mask) || (c == 'f' && Function in mask) || (c == 'k' && Keyword in mask)
      || (c == 's' && Struct in mask) || (c == 't' && Typedef in mask) || (c == 'v' && Var in mask)
      || (c == '?' && Unknown in mask)
  {
    var l1, l2, l3 := Letter(Constant in mask, 'c'), Letter(Function in mask, 'f'), Letter(Keyword in mask, 'k');
    var l4, l5, l6 := Letter(Struct in mask, 's'), Letter(Typedef in mask, 't'), Letter(Var in mask, 'v');
    InEither(l1, l2, c);
    InEither(l1 + l2, l3, c);
    InEither(l1 + l2 + l3, l4, c);
    InEither(l1 + l2 + l3 + l4, l5, c);
    InEither(l1 + l2 + l3 + l4 + l5, l6, c);
    InEither(l1 + l2 + l3 + l4 + l5 + l6, Letter(Unknown in mask, '?'), c);
  }

  /** A mask of types decodes to the letters that encode to its types. */
  lemma MaskLetters(mask: set<IdType>, c: char)
    requires mask <= TYPE_ALL
    ensures c in DecodeMask(mask) <==> EncodeType([c]) in mask
  {
    InLetters(mask, c);
    LetterType(c);
  }

  lemma LetterType(c: char)
    ensures EncodeType([c]) ==
      if c == 'c' then Constant else if c == 'f' then Function else if c == 'k' then Keyword
      else if c == 's' then Struct else if c == 't' then Typedef else if c == 'v' then Var
      else if c == '?' then Unknown else Invalid
  {
    assert [c][0] == c;
  }

  lemma DecodeSingle(t: IdType)
    ensures DecodeType(t) ==
      match t
      case Constant => "c"
      case Function => "f"
      case Keyword => "k"
      case Struct => "s"
      case Typedef => "t"
      case Var => "v"
      case Unknown | Invalid => "?"
      case NoType => ""
  {}

  lemma TypeEncodes(t: IdType)
    requires t in TYPE_ALL
    ensures EncodeType(DecodeType(t)) == t
  {
    DecodeSingle(t);
  }

  lemma LetterDecodes(s: string)
    ensures EncodeType(s) != Invalid <==> DecodeType(EncodeType(s)) == s
  {
    DecodeSingle(EncodeType(s));
  }

  /** Letters and types are each other's inverse; a text that is none of the letters is invalid. */
  lemma TypeLetters(t: IdType, s: string)
    ensures t in TYPE_ALL ==> EncodeType(DecodeType(t)) == t
    ensures EncodeType(s) != Invalid <==> DecodeType(EncodeType(s)) == s
  {
    if t in TYPE_ALL {
      TypeEncodes(t);
    }
    LetterDecodes(s);
  }

  /** `idinfo_t`, without the trace flag. */
  datatype IdInfo = IdInfo(sym: nat, typ: IdType, src1: nat, standard1: nat, standard2: nat,
                           man_sect: nat, man_path: nat, declare: nat)

  const VIRGIN: IdInfo := IdInfo(0, NoType, 0, 0, 0, 0, 0, 0)

  /** The two dictionaries: identifiers, and all other strings. */
  datatype Dictionaries = Dictionaries(ids: seq<string>, strs: seq<string>)

  /** Slot 0 of each is reserved. */
  type Store = d: Dictionaries | |d.ids| >= 1 && |d.strs| >= 1 witness Dictionaries([""], [""])

  ghost predicate Extends(st: Store, st': Store) {
    st.ids <= st'.ids && st.strs <= st'.strs
  }

  /** Where `add_id_field` interns the text of field `fidx`, and the number it gets; 0 for
      a field that is not interned. */
  function InternField(st: Store, fld: string, fidx: nat): (r: (Store, nat))
    ensures Extends(st, r.0)
  {
    if fidx == 2 then
      var (ids, nr) := Intern(st.ids, fld);
      (st.(ids := ids), nr)
    else if 0 < fidx < 7 || (fidx == 7 && fld != "") then
      var (strs, nr) := Intern(st.strs, fld);
      (st.(strs := strs), nr)
    else (st, 0)
  }

  /** The entry after field `fidx`. */
  function WithField(row: IdInfo, fidx: nat, fld: string, nr: nat): IdInfo {
    if fidx == 0 then VIRGIN.(typ := EncodeType(fld))
    else if fidx == 1 then row.(man_sect := nr)
    else if fidx == 2 then row.(sym := nr)
    else if fidx == 3 then row.(src1 := nr)
    else if fidx == 4 then row.(standard1 := nr)
    else if fidx == 5 then row.(standard2 := nr)
    else if fidx == 6 then row.(man_path := nr)
    else if fidx == 7 && fld != "" then row.(declare := nr)
    else row
  }

  /** `add_id_field` on the stored text of field `fidx`. */
  function AddField(st: Store, row: IdInfo, fld: string, fidx: nat): (r: (Store, IdInfo))
    ensures Extends(st, r.0)
  {
    var (st', nr) := InternField(st, fld, fidx);
    (st', WithField(row, fidx, fld, nr))
  }

  /** The fields of one line, in order; what the entry held before does not matter. */
  function AddFields(st: Store, flds: seq<string>): (r: (Store, IdInfo))
    ensures Extends(st, r.0)
  {
    if flds == [] then (st, VIRGIN)
    else
      var (st', row) := AddFields(st, flds[..|flds| - 1]);
      AddField(st', row, CStr(flds[|flds| - 1]), |flds| - 1)
  }

  /** A line cut at its semicolons: the finished fields, and the one being read. */
  function Cut(line: string): (seq<string>, string) {
    if line == "" then ([], "")
    else
      var (done, cur) := Cut(line[..|line| - 1]);
      var c := line[|line| - 1];
      if c == ';' then (done + [cur], "") else (done, cur + [c])
  }

  function Fields(line: string): (f: seq<string>)
    ensures |f| >= 1
  {
    Cut(line).0 + [Cut(line).1]
  }

  /** Blank lines and lines that begin with `#` are dropped. */
  predicate IsRecord(line: string) {
    line != "" && line[0] != '#'
  }

  type Record = seq<string>

  /** The fields of the finished lines, in order, blank lines and `#` lines dropped. */
  function Records(t: string): List<Record>
    decreases |t|
  {
    var n := LineEnd(t);
    if n == |t| then Nil
    else if IsRecord(t[..n]) then Cons(Fields(t[..n]), Records(t[n + 1..]))
    else Records(t[n + 1..])
  }

  /** The unfinished last line; empty when the text ends with a newline. */
  function LastLine(t: string): string
    decreases |t|
  {
    var n := LineEnd(t);
    if n == |t| then t else LastLine(t[n + 1..])
  }

  /** Where reading stands at the start of a line: the dictionaries, the committed entries, the
      errors so far, and what is stored in the entry behind the committed ones, if anything is. */
  datatype Parse = Parse(st: Store, rows: seq<IdInfo>, errs: nat, stopped: bool, draft: Option<IdInfo>)

  /** One record; the eleventh with too many fields ends the reading uncommitted. */
  function Take(p: Parse, rec: Record): (r: Parse) {
    var (st, row) := AddFields(p.st, rec);
    var errs := if |rec| > NFLD then p.errs + 1 else p.errs;
    if |rec| > NFLD && errs > ERR_LIMIT then Parse(st, p.rows, errs, true, Some(row))
    else Parse(st, p.rows + [row], errs, false, None)
  }

  function TakeAll(p: Parse, recs: List<Record>): (r: Parse)
    decreases recs
  {
    if p.stopped || recs.Nil? then p else TakeAll(Take(p, recs.head), recs.tail)
  }

  /** An unfinished last line is not committed, but its finished fields are stored. */
  function TakeTail(p: Parse, line: string): (r: Parse)
    ensures Extends(p.st, r.st) && r.rows == p.rows
  {
    if p.stopped || !IsRecord(line) || Cut(line).0 == [] then p
    else
      var (st, row) := AddFields(p.st, Cut(line).0);
      p.(st := st, draft := Some(row))
  }

  /** `read_id_table_stream`: the records, then what is left of the last line. */
  function ReadText(p: Parse, t: string): (r: Parse) {
    TakeTail(TakeAll(p, Records(t)), LastLine(t))
  }

  function ExitCode(p: Parse): int {
    if p.stopped then 2 else if p.errs > 0 then 1 else 0
  }

  /** The records that are committed when reading starts with `errs` errors: all of them, unless
      one has too many fields once too often. */
  function Committed(errs: nat, recs: List<Record>): List<Record>
    decreases recs
  {
    if recs.Nil? then Nil
    else
      var errs' := if |recs.head| > NFLD then errs + 1 else errs;
      if |recs.head| > NFLD && errs' > ERR_LIMIT then Nil else Cons(recs.head, Committed(errs', recs.tail))
  }

  /** The record at which reading stops, if it does. */
  function Stopper(errs: nat, recs: List<Record>): Option<Record>
    decreases recs
  {
    if recs.Nil? then None
    else
      var errs' := if |recs.head| > NFLD then errs + 1 else errs;
      if |recs.head| > NFLD && errs' > ERR_LIMIT then Some(recs.head) else Stopper(errs', recs.tail)
  }

  /** The fields that are stored but not committed: those of the record at which reading stops,
      or the finished ones of an unfinished last line. */
  function Loose(errs: nat, t: string): seq<string> {
    match Stopper(errs, Records(t))
    case Some(rec) => rec
    case None => if IsRecord(LastLine(t)) then Cut(LastLine(t)).0 else []
  }

  /** No field is too long for the field buffer and its terminator. */
  predicate FieldsFit(t: string)
    decreases |t|
  {
    var n := LineEnd(t);
    && (IsRecord(t[..n]) ==> forall i :: 0 <= i < |Fields(t[..n])| ==> |Fields(t[..n])[i]| < FBUF_SIZE)
    && (n < |t| ==> FieldsFit(t[n + 1..]))
  }

  // ---- Splitting is the inverse of joining

  function Join(flds: seq<string>): string
    requires |flds| >= 1
  {
    if |flds| == 1 then flds[0] else Join(flds[..|flds| - 1]) + ";" + flds[|flds| - 1]
  }

  lemma {:induction false} JoinOfFields(line: string)
    ensures Join(Fields(line)) == line
    ensures forall i :: 0 <= i < |Fields(line)| ==> ';' !in Fields(line)[i]
  {
    if line != "" {
      var init, c := line[..|line| - 1], line[|line| - 1];
      JoinOfFields(init);
      var (done, cur) := Cut(init);
      assert line == init + [c];
      if c == ';' {
        assert Fields(line)[..|done| + 1] == Fields(init);
      } else {
        assert Fields(line)[..|done|] == done && Fields(init)[..|done|] == done;
      }
    }
  }

  /** Characters that are no semicolon belong to the field being read. */
  lemma {:induction false} CutExtended(line: string, more: string)
    requires ';' !in more
    ensures Cut(line + more) == (Cut(line).0, Cut(line).1 + more)
  {
    if more == "" {
      assert line + more == line && Cut(line).1 + more == Cut(line).1;
    } else {
      var init, c := more[..|more| - 1], more[|more| - 1];
      CutExtended(line, init);
      assert line + more == line + init + [c] && Cut(line).1 + init + [c] == Cut(line).1 + more;
      CutOther(line + init, c);
    }
  }

  lemma {:induction false} FieldsOfJoin(flds: seq<string>)
    requires |flds| >= 1 && forall i :: 0 <= i < |flds| ==> ';' !in flds[i]
    ensures Fields(Join(flds)) == flds
  {
    var init, last := flds[..|flds| - 1], flds[|flds| - 1];
    if init == [] {
      assert "" + last == last && [last] == flds;
      CutExtended("", last);
    } else {
      FieldsOfJoin(init);
      CutSemicolon(Join(init));
      CutExtended(Join(init) + [';'], last);
      assert "" + last == last && init + [last] == flds;
    }
  }

  /** A record that can be written: its line is none of those dropped, and no field ends early. */
  predicate Writable(rec: Record) {
    && |rec| >= 1 && (forall i :: 0 <= i < |rec| ==> ';' !in rec[i])
    && '\n' !in Join(rec) && IsRecord(Join(rec))
  }

  predicate AllWritable(recs: List<Record>) {
    recs.Cons? ==> Writable(recs.head) && AllWritable(recs.tail)
  }

  /** The text of a table, one line for each record. */
  function TextOf(recs: List<Record>): string
    requires AllWritable(recs)
  {
    if recs.Nil? then "" else Join(recs.head) + ['\n'] + TextOf(recs.tail)
  }

  /** Reading a table text that was written from records gives those records. */
  lemma {:induction false} RecordsOfText(recs: List<Record>)
    requires AllWritable(recs)
    ensures Records(TextOf(recs)) == recs && LastLine(TextOf(recs)) == ""
  {
    if recs.Cons? {
      var line := Join(recs.head);
      RecordsOfText(recs.tail);
      FieldsOfJoin(recs.head);
      LineAtHead(line, TextOf(recs.tail));
    }
  }

  // ---- Reading back

  /** Field `i` of a record reads back from the number stored for it; an absent field is undefined. */
  ghost predicate Reads(names: seq<string>, nr: nat, rec: seq<string>, i: nat) {
    if i < |rec| then 0 < nr < |names| && names[nr] == CStr(rec[i]) else nr == 0
  }

  /** The number that field `i` of a line is stored as. */
  function FieldNr(row: IdInfo, i: nat): nat {
    match i
    case 1 => row.man_sect
    case 2 => row.sym
    case 3 => row.src1
    case 4 => row.standard1
    case 5 => row.standard2
    case 6 => row.man_path
    case 7 => row.declare
    case _ => 0
  }

  /** Field `i` reads back; an empty eighth field counts as absent. */
  ghost predicate FieldReads(st: Store, row: IdInfo, rec: Record, i: nat) {
    if i == 7 && |rec| > 7 && CStr(rec[7]) == "" then row.declare == 0
    else Reads(if i == 2 then st.ids else st.strs, FieldNr(row, i), rec, i)
  }

  ghost predicate RowReads(st: Store, row: IdInfo, rec: Record) {
    && |rec| >= 1
    && row.typ == EncodeType(CStr(rec[0]))
    && forall i :: 1 <= i <= 7 ==> FieldReads(st, row, rec, i)
  }

  /** Numbers keep their names while the dictionaries grow. */
  lemma RowReadsLater(st: Store, st': Store, row: IdInfo, rec: Record)
    requires RowReads(st, row, rec) && Extends(st, st')
    ensures RowReads(st', row, rec)
  {
    forall i | 1 <= i <= 7
      ensures FieldReads(st', row, rec, i)
    {
      assert FieldReads(st, row, rec, i);
    }
  }

  /** The field stored last reads back. */
  lemma NewFieldReads(st: Store, row: IdInfo, rec: Record, fld: string)
    requires 1 <= |rec| <= 7 && (|rec| == 7 ==> row.declare == 0)
    ensures var (st', row') := AddField(st, row, CStr(fld), |rec|); FieldReads(st', row', rec + [fld], |rec|)
  {}

  /** The other fields are left alone. */
  lemma OthersKept(row: IdInfo, n: nat, fld: string, nr: nat, i: nat)
    requires n >= 1 && 1 <= i <= 7 && i != n
    ensures FieldNr(WithField(row, n, fld, nr), i) == FieldNr(row, i)
    ensures WithField(row, n, fld, nr).declare == row.declare || n == 7
  {}

  lemma FieldReadsLonger(st: Store, st': Store, row: IdInfo, row': IdInfo, rec: Record, fld: string, i: nat)
    requires FieldReads(st, row, rec, i) && Extends(st, st') && i != |rec|
    requires FieldNr(row', i) == FieldNr(row, i)
    ensures FieldReads(st', row', rec + [fld], i)
  {}

  lemma OldFieldReads(st: Store, row: IdInfo, rec: Record, fld: string, i: nat)
    requires |rec| >= 1 && 1 <= i <= 7 && i != |rec| && FieldReads(st, row, rec, i)
    ensures var (st', row') := AddField(st, row, CStr(fld), |rec|); FieldReads(st', row', rec + [fld], i)
  {
    var (st', nr) := InternField(st, CStr(fld), |rec|);
    OthersKept(row, |rec|, CStr(fld), nr, i);
    FieldReadsLonger(st, st', row, WithField(row, |rec|, CStr(fld), nr), rec, fld, i);
  }

  lemma AddFieldReads(st: Store, row: IdInfo, rec: Record, fld: string)
    requires RowReads(st, row, rec)
    ensures var (st', row') := AddField(st, row, CStr(fld), |rec|); RowReads(st', row', rec + [fld])
  {
    var (st', row') := AddField(st, row, CStr(fld), |rec|);
    forall i | 1 <= i <= 7
      ensures FieldReads(st', row', rec + [fld], i)
    {
      assert FieldReads(st, row, rec, i);
      if i == |rec| {
        NewFieldReads(st, row, rec, fld);
      } else {
        OldFieldReads(st, row, rec, fld, i);
      }
    }
  }

  lemma {:induction false} AddFieldsReads(st: Store, rec: Record)
    requires |rec| >= 1
    ensures RowReads(AddFields(st, rec).0, AddFields(st, rec).1, rec)
  {
    var init, last := rec[..|rec| - 1], rec[|rec| - 1];
    if init != [] {
      var (st1, row1) := AddFields(st, init);
      AddFieldsReads(st, init);
      AddFieldReads(st1, row1, init, last);
      assert rec == init + [last];
    }
  }

  /** Reading only appends: to the dictionaries, and one entry for each record. */
  lemma {:induction false} TakeAllGrows(p: Parse, recs: List<Record>)
    ensures var r := TakeAll(p, recs);
      && Extends(p.st, r.st)
      && p.rows <= r.rows
      && (!r.stopped ==> !p.stopped && |r.rows| == |p.rows| + recs.Length())
    decreases recs
  {
    if !p.stopped && recs.Cons? {
      TakeAllGrows(Take(p, recs.head), recs.tail);
    }
  }

  /** Entry `n` reads back the record `rec`. */
  ghost predicate EntryReads(q: Parse, n: nat, rec: Record) {
    n < |q.rows| && RowReads(q.st, q.rows[n], rec)
  }

  /** The entry behind the committed ones reads back the fields `rec`. */
  ghost predicate DraftReads(q: Parse, rec: Record) {
    q.draft.Some? && RowReads(q.st, q.draft.value, rec)
  }

  lemma TakeReads(p: Parse, rec: Record, q: Parse)
    requires !Take(p, rec).stopped && |rec| >= 1
    requires Extends(Take(p, rec).st, q.st) && Take(p, rec).rows <= q.rows
    ensures EntryReads(q, |p.rows|, rec)
  {
    AddFieldsReads(p.st, rec);
    RowReadsLater(Take(p, rec).st, q.st, Take(p, rec).rows[|p.rows|], rec);
  }

  /** Going on from `p` with `recs` ends well, in `q`. */
  ghost predicate Reaches(p: Parse, recs: List<Record>, q: Parse) {
    TakeAll(p, recs) == q && !q.stopped
  }

  /** The first of several records: its entry reads back at the end, and `p1` goes on. */
  lemma FirstReads(p: Parse, recs: List<Record>, q: Parse) returns (p1: Parse)
    requires Reaches(p, recs, q) && recs.Cons?
    ensures Reaches(p1, recs.tail, q) && |p1.rows| == |p.rows| + 1
    ensures |recs.head| >= 1 ==> EntryReads(q, |p.rows|, recs.head)
  {
    TakeAllGrows(p, recs);
    p1 := Take(p, recs.head);
    TakeAllGrows(p1, recs.tail);
    if |recs.head| >= 1 {
      TakeReads(p, recs.head, q);
    }
  }

  lemma {:induction false} TakeAllReads(p: Parse, recs: List<Record>, q: Parse, k: nat)
    requires Reaches(p, recs, q) && k < recs.Length() && |recs.At(k)| >= 1
    ensures EntryReads(q, |p.rows| + k, recs.At(k))
    decreases recs
  {
    var p1 := FirstReads(p, recs, q);
    if k > 0 {
      TakeAllReads(p1, recs.tail, q, k - 1);
    }
  }

  lemma {:induction false} CommittedAt(errs: nat, recs: List<Record>, k: nat)
    requires k < Committed(errs, recs).Length()
    ensures k < recs.Length() && Committed(errs, recs).At(k) == recs.At(k)
    decreases recs
  {
    if k > 0 {
      CommittedAt(if |recs.head| > NFLD then errs + 1 else errs, recs.tail, k - 1);
    }
  }

  /** Reading commits the committed records, and then stores the stopping one, if there is one. */
  lemma {:induction false} TakeAllCommits(p: Parse, recs: List<Record>)
    requires !p.stopped
    ensures var q := TakeAll(p, Committed(p.errs, recs));
      && !q.stopped && (q.draft == if Committed(p.errs, recs).Nil? then p.draft else None)
      && match Stopper(p.errs, recs)
         case None => TakeAll(p, recs) == q
         case Some(rec) => |rec| > NFLD && TakeAll(p, recs) == Take(q, rec) && Take(q, rec).stopped
    decreases recs
  {
    if recs.Cons? && !Take(p, recs.head).stopped {
      TakeAllCommits(Take(p, recs.head), recs.tail);
    }
  }

  /** What reading a text comes to: the committed records, then the loose fields. */
  ghost predicate ComesTo(p: Parse, t: string, q: Parse) {
    var loose, r := Loose(p.errs, t), ReadText(p, t);
    && !q.stopped && r.rows == q.rows
    && r.st == AddFields(q.st, loose).0
    && r.draft == if loose == [] then q.draft else Some(AddFields(q.st, loose).1)
  }

  lemma ReadTextSplits(p: Parse, t: string) returns (q: Parse)
    requires !p.stopped
    ensures q == TakeAll(p, Committed(p.errs, Records(t))) && ComesTo(p, t, q)
    ensures q.draft == if Committed(p.errs, Records(t)).Nil? then p.draft else None
  {
    q := TakeAll(p, Committed(p.errs, Records(t)));
    TakeAllCommits(p, Records(t));
  }

  predicate NoneEmpty(recs: List<Record>) {
    recs.Cons? ==> |recs.head| >= 1 && NoneEmpty(recs.tail)
  }

  lemma {:induction false} RecordsNonEmpty(t: string)
    ensures NoneEmpty(Records(t))
    decreases |t|
  {
    var n := LineEnd(t);
    if n < |t| {
      RecordsNonEmpty(t[n + 1..]);
    }
  }

  lemma {:induction false} NonEmptyAt(recs: List<Record>, k: nat)
    requires NoneEmpty(recs) && k < recs.Length()
    ensures |recs.At(k)| >= 1
  {
    if k > 0 {
      NonEmptyAt(recs.tail, k - 1);
    }
  }

  /** Reading commits one entry for each committed record, and changes no earlier one. */
  lemma ReadTextGrows(p: Parse, t: string)
    requires !p.stopped
    ensures Extends(p.st, ReadText(p, t).st) && p.rows <= ReadText(p, t).rows
    ensures |ReadText(p, t).rows| == |p.rows| + Committed(p.errs, Records(t)).Length()
  {
    var q := ReadTextSplits(p, t);
    TakeAllGrows(p, Committed(p.errs, Records(t)));
  }

  lemma CommittedReads(p: Parse, t: string, k: nat)
    requires !p.stopped && k < Committed(p.errs, Records(t)).Length()
    ensures EntryReads(ReadText(p, t), |p.rows| + k, Committed(p.errs, Records(t)).At(k))
  {
    var recs := Committed(p.errs, Records(t));
    var q := ReadTextSplits(p, t);
    CommittedAt(p.errs, Records(t), k);
    RecordsNonEmpty(t);
    NonEmptyAt(Records(t), k);
    TakeAllReads(p, recs, q, k);
    RowReadsLater(q.st, ReadText(p, t).st, q.rows[|p.rows| + k], recs.At(k));
  }

  lemma LooseReads(p: Parse, t: string)
    requires !p.stopped && Loose(p.errs, t) != []
    ensures DraftReads(ReadText(p, t), Loose(p.errs, t))
  {
    var q := ReadTextSplits(p, t);
    AddFieldsReads(q.st, Loose(p.errs, t));
  }

  /** Every committed record gives one entry, in order, whose fields read back; nothing else is
      committed.  The loose fields, too, read back from the entry behind. */
  lemma ReadTextReads(p: Parse, t: string)
    requires !p.stopped
    ensures var r, recs, loose := ReadText(p, t), Committed(p.errs, Records(t)), Loose(p.errs, t);
      && p.rows <= r.rows && |r.rows| == |p.rows| + recs.Length()
      && (forall k: nat :: k < recs.Length() ==> EntryReads(r, |p.rows| + k, recs.At(k)))
      && (loose != [] ==> DraftReads(r, loose))
  {
    ReadTextGrows(p, t);
    forall k: nat | k < Committed(p.errs, Records(t)).Length()
      ensures EntryReads(ReadText(p, t), |p.rows| + k, Committed(p.errs, Records(t)).At(k))
    {
      CommittedReads(p, t, k);
    }
    if Loose(p.errs, t) != [] {
      LooseReads(p, t);
    }
  }

  /** The numbers the scanner uses name something. */
  ghost predicate Bounded(st: Store, rows: seq<IdInfo>) {
    forall k :: 0 <= k < |rows| ==> RowBounded(st, rows[k])
  }

  ghost predicate RowBounded(st: Store, row: IdInfo) {
    row.sym < |st.ids| && row.src1 < |st.strs|
  }

  lemma {:induction false} AddFieldsBounded(st: Store, flds: seq<string>)
    ensures RowBounded(AddFields(st, flds).0, AddFields(st, flds).1)
  {
    if flds != [] {
      AddFieldsBounded(st, flds[..|flds| - 1]);
    }
  }

  predicate AtMostEight(recs: List<Record>) {
    recs.Cons? ==> |recs.head| <= 8 && AtMostEight(recs.tail)
  }

  lemma {:induction false} NoStopper(errs: nat, recs: List<Record>)
    requires AtMostEight(recs)
    ensures Committed(errs, recs) == recs && Stopper(errs, recs) == None
  {
    if recs.Cons? {
      NoStopper(errs, recs.tail);
    }
  }

  /** With at most 8 fields a line everything is committed, nothing is reported, and reading never
      stops early. */
  lemma {:induction false} NeverStops(p: Parse, recs: List<Record>)
    requires !p.stopped && AtMostEight(recs)
    ensures Committed(p.errs, recs) == recs && Stopper(p.errs, recs) == None
    ensures !TakeAll(p, recs).stopped && TakeAll(p, recs).errs == p.errs
    decreases recs
  {
    if recs.Cons? {
      NeverStops(Take(p, recs.head), recs.tail);
    }
  }

  /** The number of records of more than 8 fields. */
  function LongLines(recs: List<Record>): (n: nat)
    ensures n == 0 <==> AtMostEight(recs)
  {
    if recs.Nil? then 0 else (if |recs.head| > 8 then 1 else 0) + LongLines(recs.tail)
  }

  /** Each of them is reported, and the eleventh ends the reading. */
  lemma {:induction false} LongLinesReported(p: Parse, recs: List<Record>)
    requires !p.stopped && p.errs <= 10
    ensures TakeAll(p, recs).stopped <==> p.errs + LongLines(recs) >= 11
    ensures !TakeAll(p, recs).stopped ==> TakeAll(p, recs).errs == p.errs + LongLines(recs)
    decreases recs
  {
    if recs.Cons? && !Take(p, recs.head).stopped {
      LongLinesReported(Take(p, recs.head), recs.tail);
    }
  }

  /** What reading a text returns: 2 with eleven lines of more than 8 fields or more, 1 with one to ten of
      them, 0 with none. */
  lemma ExitExact(p: Parse, t: string)
    requires !p.stopped && p.errs == 0
    ensures ExitCode(ReadText(p, t)) ==
      if LongLines(Records(t)) >= 11 then 2 else if LongLines(Records(t)) >= 1 then 1 else 0
  {
    LongLinesReported(p, Records(t));
  }

  /** Every record is committed, or all those before the one that is the eleventh of more than 8 fields. */
  lemma {:induction false} CommittedLines(errs: nat, recs: List<Record>) returns (more: List<Record>)
    requires errs <= 10
    ensures var stop := Stopper(errs, recs);
      if errs + LongLines(recs) <= 10 then stop == None && Committed(errs, recs) == recs
      else stop.Some? && |stop.value| > 8 && recs == Committed(errs, recs).Plus(Cons(stop.value, more))
           && errs + LongLines(Committed(errs, recs)) == 10
    decreases recs
  {
    more := Nil;
    if recs.Cons? {
      if |recs.head| > 8 && errs == 10 {
        more := recs.tail;
      } else {
        more := CommittedLines(if |recs.head| > 8 then errs + 1 else errs, recs.tail);
      }
    }
  }

  // ---- Reading a line at a time

  lemma LineAtHead(line: string, rest: string)
    requires '\n' !in line
    ensures var t := line + ['\n'] + rest;
      LineEnd(t) == |line| && t[..|line|] == line && t[|line| + 1..] == rest
  {
    var t := line + ['\n'] + rest;
    assert t[..|line|] == line;
    LineEndAt(t, |line|);
  }

  /** A finished line is dropped if it is blank or begins with `#`, and is a record otherwise. */
  lemma LineExact(line: string, rest: string)
    requires '\n' !in line
    ensures Records(line + ['\n'] + rest) ==
      if line == "" || line[0] == '#' then Records(rest) else Cons(Fields(line), Records(rest))
  {
    LineAtHead(line, rest);
  }

  /** A finished line is taken, and reading goes on behind it. */
  lemma ReadTextLine(p: Parse, line: string, rest: string)
    requires !p.stopped && '\n' !in line
    ensures ReadText(p, line + ['\n'] + rest)
         == ReadText(if IsRecord(line) then Take(p, Fields(line)) else p, rest)
  {
    LineAtHead(line, rest);
    assert LastLine(line + ['\n'] + rest) == LastLine(rest);
  }

  lemma FieldsFitLine(line: string, rest: string)
    requires '\n' !in line && FieldsFit(line + ['\n'] + rest)
    ensures FieldsFit(rest)
  {
    LineAtHead(line, rest);
  }

  lemma ReadTextEnd(p: Parse, line: string)
    requires !p.stopped && '\n' !in line
    ensures ReadText(p, line) == TakeTail(p, line)
  {
    assert line[..|line|] == line;
    LineEndAt(line, |line|);
  }

  /** Inside a line: `line` was read of it, `rest` is to come, and going on from `p` gives `r`. */
  ghost predicate Going(p: Parse, line: string, rest: string, r: Parse) {
    && !p.stopped
    && (line == "" || IsRecord(line)) && '\n' !in line
    && FieldsFit(line + rest)
    && ReadText(p, line + rest) == r
  }

  /** One more character of a record line. */
  lemma GoingOn(p: Parse, line: string, c: char, rest: string, r: Parse)
    requires Going(p, line, [c] + rest, r) && c != '\n' && (line == "" ==> c != '#')
    ensures Going(p, line + [c], rest, r) && |Cut(line + [c]).1| < FBUF_SIZE
  {
    assert line + ([c] + rest) == line + [c] + rest;
    FieldFits(line + [c], rest);
  }

  /** The end of the line. */
  lemma GoingNewline(p: Parse, line: string, rest: string, r: Parse)
    requires Going(p, line, ['\n'] + rest, r)
    ensures var p' := if IsRecord(line) then Take(p, Fields(line)) else p;
      if p'.stopped then r == p' else Going(p', "", rest, r)
    ensures line != "" ==> IsRecord(line)
  {
    NewlineJoins(line, rest);
    ReadTextLine(p, line, rest);
    FieldsFitLine(line, rest);
    GoingFrom(if IsRecord(line) then Take(p, Fields(line)) else p, rest, r);
  }

  lemma NewlineJoins(line: string, rest: string)
    ensures line + (['\n'] + rest) == line + ['\n'] + rest
  {}

  /** Behind a line reading starts anew, or has stopped. */
  lemma GoingFrom(p: Parse, rest: string, r: Parse)
    requires FieldsFit(rest) && ReadText(p, rest) == r
    ensures if p.stopped then r == p else Going(p, "", rest, r)
  {
    assert "" + rest == rest;
  }

  /** A blank line changes nothing. */
  lemma GoingBlank(p: Parse, rest: string, r: Parse)
    requires Going(p, "", rest, r)
    ensures Going(p, "", ['\n'] + rest, r)
  {
    assert "" + (['\n'] + rest) == "" + ['\n'] + rest && "" + rest == rest;
    ReadTextLine(p, "", rest);
    LineAtHead("", rest);
  }

  lemma CommentLine(p: Parse, s: string)
    requires s != "" && s[0] == '#' && LineEnd(s) < |s|
    ensures var rest := s[LineEnd(s) + 1..];
      ReadText(p, s) == ReadText(p, rest) && (FieldsFit(s) ==> FieldsFit(rest))
  {
    assert !IsRecord(s[..LineEnd(s)]);
    assert LastLine(s) == LastLine(s[LineEnd(s) + 1..]);
  }

  lemma LastComment(p: Parse, line: string)
    requires !p.stopped && '\n' !in line[..|line|] && !IsRecord(line)
    ensures ReadText(p, line) == p == ReadText(p, "") && FieldsFit("")
  {
    assert line[..|line|] == line;
    ReadTextEnd(p, line);
    ReadTextEnd(p, "");
    FieldsFitEmpty();
  }

  lemma GoingStart(p: Parse, t: string)
    requires !p.stopped && FieldsFit(t)
    ensures Going(p, "", t, ReadText(p, t))
  {
    assert "" + t == t;
  }

  lemma GoingAtStart(p: Parse, t: string, r: Parse)
    requires Going(p, "", t, r)
    ensures FieldsFit(t) && ReadText(p, t) == r
  {
    assert "" + t == t;
  }

  /** A `#` line changes nothing. */
  lemma GoingComment(p: Parse, s: string, r: Parse)
    requires Going(p, "", s, r) && s != "" && s[0] == '#'
    ensures var n := LineEnd(s); Going(p, "", if n == |s| then "" else s[n + 1..], r)
  {
    var n := LineEnd(s);
    GoingAtStart(p, s, r);
    if n == |s| {
      LineEndWithin(s);
      LastComment(p, s);
      GoingStart(p, "");
    } else {
      CommentLine(p, s);
      GoingStart(p, s[n + 1..]);
    }
  }

  lemma GoingEnd(p: Parse, line: string, r: Parse)
    requires Going(p, line, "", r)
    ensures r.st == AddFields(p.st, Cut(line).0).0 && r.rows == p.rows
    ensures r.draft == if Cut(line).0 == [] then p.draft else Some(AddFields(p.st, Cut(line).0).1)
    ensures ExitCode(r) == if p.errs > 0 then 1 else 0
  {
    assert line + "" == line;
    ReadTextEnd(p, line);
  }

  /** A field is finished by a semicolon. */
  lemma CutSemicolon(line: string)
    ensures Cut(line + [';']) == (Fields(line), "")
  {
    assert (line + [';'])[..|line|] == line;
  }

  lemma CutOther(line: string, c: char)
    requires c != ';'
    ensures Cut(line + [c]) == (Cut(line).0, Cut(line).1 + [c])
  {
    assert (line + [c])[..|line|] == line;
  }

  lemma AddFieldsSnoc(st: Store, done: seq<string>, cur: string)
    ensures var (st', row) := AddFields(st, done);
      AddFields(st, done + [cur]) == AddField(st', row, CStr(cur), |done|)
  {
    assert (done + [cur])[..|done|] == done;
  }

  lemma FieldsFitEmpty()
    ensures FieldsFit("")
  {}

  /** What was read of the current field begins that field of the whole line. */
  lemma {:induction false} CutExtends(line: string, more: string)
    ensures var (done, cur) := Cut(line); var (done', cur') := Cut(line + more);
      if done' == done then cur <= cur' else |done| < |done'| && cur <= done'[|done|]
  {
    if more == "" {
      assert line + more == line;
    } else {
      var init := more[..|more| - 1];
      assert (line + more)[..|line + more| - 1] == line + init;
      CutExtends(line, init);
    }
  }

  /** There is room in the field buffer for the field being read, and for its terminator. */
  lemma FieldFits(line: string, rest: string)
    requires IsRecord(line) && '\n' !in line && FieldsFit(line + rest)
    ensures |Cut(line).1| < FBUF_SIZE
  {
    var t := line + rest;
    var m := LineEnd(rest);
    var full := line + rest[..m];
    assert t[..|full|] == full;
    LineEndWithin(rest);
    LineEndAt(t, |full|);
    CutExtends(line, rest[..m]);
    var (done, cur) := Cut(line);
    assert cur <= Fields(full)[|done|];
  }
}
