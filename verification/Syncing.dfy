/** The identifier table and the identifier dictionary: when they are in step, when the dictionary
    runs ahead, and what an unfinished or an over-long line does to them. */
module Syncing {
  import opened CStrings
  import opened Interning
  import opened Lists
  import opened IdTable

  /** What `verify_idtable` tests: entry `k` holds symbol `k + 1`. */
  predicate InStep(rows: seq<IdInfo>) {
    forall k :: 0 <= k < |rows| ==> rows[k].sym == k + 1
  }

  /** In step, and just as long as the dictionary of distinct names. */
  ghost predicate Synced(ids: seq<string>, rows: seq<IdInfo>) {
    InStep(rows) && |ids| == |rows| + 1 && Distinct(ids)
  }

  /** The dictionary holds an identifier that is not committed. */
  predicate Ahead(p: Parse) {
    |p.st.ids| > |p.rows| + 1
  }

  /** The entries that were written and that a lookup can reach: the committed ones, and the one
      behind them while the dictionary is ahead. */
  function LiveRows(p: Parse): seq<IdInfo> {
    if Ahead(p) && p.draft.Some? then p.rows + [p.draft.value] else p.rows
  }

  /** Every identifier has its entry, committed or not. */
  ghost predicate Good(p: Parse) {
    Synced(p.st.ids, LiveRows(p))
  }

  /** The committed entries are in step; further identifiers may wait for their entries. */
  ghost predicate Accepting(p: Parse) {
    InStep(p.rows) && Distinct(p.st.ids) && |p.st.ids| > |p.rows|
  }

  /** The identifiers of the committed entries. */
  function Known(p: Parse): seq<string>
    requires |p.st.ids| > |p.rows|
  {
    p.st.ids[..|p.rows| + 1]
  }

  /** The identifiers that wait for their entries, in order. */
  function Waiting(p: Parse): seq<string>
    requires |p.st.ids| > |p.rows|
  {
    p.st.ids[|p.rows| + 1..]
  }

  /** Of all states in which the check succeeds, the good ones are those in which nothing waits, or
      one identifier whose entry was written behind the committed ones. */
  lemma GoodWaiting(p: Parse)
    requires Accepting(p)
    ensures Good(p)
       <==> Waiting(p) == [] || (|Waiting(p)| == 1 && p.draft.Some? && p.draft.value.sym == |p.rows| + 1)
  {
    if Ahead(p) && p.draft.Some? {
      assert LiveRows(p)[|p.rows|] == p.draft.value;
      assert LiveRows(p)[..|p.rows|] == p.rows;
    }
  }

  /** Every record has an identifier field. */
  predicate AllNamed(recs: List<Record>) {
    recs.Cons? ==> |recs.head| >= 3 && AllNamed(recs.tail)
  }

  /** The identifiers, in order. */
  function NamesOf(recs: List<Record>): seq<string>
    requires AllNamed(recs)
  {
    if recs.Nil? then [] else [CStr(recs.head[2])] + NamesOf(recs.tail)
  }

  /** The fields of one line: the third is interned, and its number becomes the symbol of the entry. */
  ghost predicate Brings(ids: seq<string>, flds: seq<string>, ids': seq<string>, sym: nat)
    requires |ids| >= 1
  {
    if |flds| < 3 then ids' == ids && sym == 0 else (ids', sym) == Intern(ids, CStr(flds[2]))
  }

  lemma {:induction false} AddFieldsIds(st: Store, flds: seq<string>)
    ensures Brings(st.ids, flds, AddFields(st, flds).0.ids, AddFields(st, flds).1.sym)
  {
    if flds != [] {
      AddFieldsIds(st, flds[..|flds| - 1]);
    }
  }

  // ---- One record

  /** Names that go on from the known ones: they come in the order of the waiting ones, and those
      behind the waiting ones are new. */
  ghost predicate GoesOn(known: seq<string>, waiting: seq<string>, names: seq<string>) {
    names <= waiting || (waiting <= names && Distinct(known + names))
  }

  /** What still waits after `n` more names. */
  function Left(waiting: seq<string>, n: nat): seq<string> {
    if n <= |waiting| then waiting[n..] else []
  }

  lemma GoesOnFirst(known: seq<string>, waiting: seq<string>, name: string)
    requires |known| >= 1 && Distinct(known + waiting)
    ensures GoesOn(known, waiting, [name])
       <==> if waiting == [] then Lookup(known, name) == 0 else name == waiting[0]
  {
    if waiting == [] {
      assert known + [] == known;
      var all, l := known + [name], Lookup(known, name);
      if l != 0 {
        assert all[|known|] == name == all[l];
      } else {
        InternDistinct(known, name);
      }
    } else if waiting == [name] {
      assert [name] <= waiting;
    }
  }

  lemma GoesOnRest(known: seq<string>, waiting: seq<string>, name: string, names: seq<string>)
    ensures GoesOn(known, waiting, [name] + names)
       <==> GoesOn(known, waiting, [name]) && GoesOn(known + [name], Left(waiting, 1), names)
  {
    assert known + ([name] + names) == known + [name] + names;
    if waiting == [] {
      if Distinct(known + [name] + names) {
        assert (known + [name] + names)[..|known| + 1] == known + [name];
      }
      assert known + [name] + [] == known + [name];
    } else {
      assert waiting == [waiting[0]] + waiting[1..];
      assert [name] + names <= waiting <==> name == waiting[0] && names <= waiting[1..];
      assert waiting <= [name] + names <==> name == waiting[0] && waiting[1..] <= names;
    }
  }

  /** The dictionary after one more identifier, and its number. */
  lemma NameInStep(p: Parse, name: string)
    requires Accepting(p)
    ensures Distinct(Intern(p.st.ids, name).0)
    ensures Intern(p.st.ids, name).1 == |p.rows| + 1 <==> GoesOn(Known(p), Waiting(p), [name])
    ensures GoesOn(Known(p), Waiting(p), [name]) ==> Intern(p.st.ids, name).0 == Known(p) + [name] + Left(Waiting(p), 1)
  {
    var ids := p.st.ids;
    assert Known(p) + Waiting(p) == ids;
    GoesOnFirst(Known(p), Waiting(p), name);
    InternDistinct(ids, name);
    if Waiting(p) != [] {
      LookupUnique(ids, |p.rows| + 1);
      assert Waiting(p)[0] == ids[|p.rows| + 1];
    } else {
      assert Known(p) == ids;
    }
  }

  /** One record: the table stays in step exactly when its identifier is there and goes on. */
  lemma RecordInStep(p: Parse, rec: Record)
    requires Accepting(p) && !Take(p, rec).stopped
    ensures var p1 := Take(p, rec);
      if |rec| >= 3 && GoesOn(Known(p), Waiting(p), [CStr(rec[2])]) then
        Accepting(p1) && Known(p1) == Known(p) + [CStr(rec[2])] && Waiting(p1) == Left(Waiting(p), 1)
      else !InStep(p1.rows)
  {
    var p1 := Take(p, rec);
    AddFieldsIds(p.st, rec);
    assert p1.rows[|p.rows|] == AddFields(p.st, rec).1;
    if |rec| >= 3 {
      NameInStep(p, CStr(rec[2]));
    }
  }

  lemma InStepEarlier(rows: seq<IdInfo>, rows': seq<IdInfo>)
    requires rows <= rows' && InStep(rows')
    ensures InStep(rows)
  {}

  // ---- Several records

  /** Every record has an identifier, and the identifiers go on from where the table is. */
  ghost predicate Follows(p: Parse, recs: List<Record>)
    requires |p.st.ids| > |p.rows|
  {
    AllNamed(recs) && GoesOn(Known(p), Waiting(p), NamesOf(recs))
  }

  /** `q` is `p` with the identifiers of the records committed. */
  ghost predicate Commits(p: Parse, recs: List<Record>, q: Parse)
    requires |p.st.ids| > |p.rows|
  {
    && AllNamed(recs) && Accepting(q)
    && Known(q) == Known(p) + NamesOf(recs)
    && Waiting(q) == Left(Waiting(p), |NamesOf(recs)|)
  }

  lemma FollowsCons(p: Parse, rec: Record, recs: List<Record>, p1: Parse)
    requires Accepting(p) && Accepting(p1) && |rec| >= 3
    requires Known(p1) == Known(p) + [CStr(rec[2])] && Waiting(p1) == Left(Waiting(p), 1)
    requires GoesOn(Known(p), Waiting(p), [CStr(rec[2])])
    ensures Follows(p, Cons(rec, recs)) <==> Follows(p1, recs)
  {
    if AllNamed(recs) {
      GoesOnRest(Known(p), Waiting(p), CStr(rec[2]), NamesOf(recs));
    }
  }

  lemma LeftLeft(known: seq<string>, waiting: seq<string>, name: string, names: seq<string>)
    ensures known + [name] + names == known + ([name] + names)
    ensures Left(Left(waiting, 1), |names|) == Left(waiting, |[name] + names|)
  {}

  lemma CommitsCons(p: Parse, rec: Record, recs: List<Record>, p1: Parse, q: Parse)
    requires Accepting(p) && Accepting(p1) && |rec| >= 3
    requires Known(p1) == Known(p) + [CStr(rec[2])] && Waiting(p1) == Left(Waiting(p), 1)
    requires Commits(p1, recs, q)
    ensures Commits(p, Cons(rec, recs), q)
  {
    LeftLeft(Known(p), Waiting(p), CStr(rec[2]), NamesOf(recs));
  }

  lemma FollowsNot(p: Parse, rec: Record, recs: List<Record>)
    requires Accepting(p) && (|rec| < 3 || !GoesOn(Known(p), Waiting(p), [CStr(rec[2])]))
    ensures !Follows(p, Cons(rec, recs))
  {
    if AllNamed(recs) && |rec| >= 3 {
      GoesOnRest(Known(p), Waiting(p), CStr(rec[2]), NamesOf(recs));
    }
  }

  lemma FollowsNil(p: Parse)
    requires Accepting(p)
    ensures Follows(p, Nil) && Commits(p, Nil, p)
  {
    assert Known(p) + [] == Known(p) && Left(Waiting(p), 0) == Waiting(p);
  }

  /** Several records: the table stays in step exactly when their identifiers go on. */
  lemma {:induction false} TakeAllInStep(p: Parse, recs: List<Record>)
    requires Accepting(p) && !TakeAll(p, recs).stopped
    ensures InStep(TakeAll(p, recs).rows) <==> Follows(p, recs)
    ensures InStep(TakeAll(p, recs).rows) ==> Commits(p, recs, TakeAll(p, recs))
    decreases recs
  {
    if recs.Nil? {
      FollowsNil(p);
    } else {
      TakeAllGrows(p, recs);
      var p1, rec := Take(p, recs.head), recs.head;
      TakeAllGrows(p1, recs.tail);
      RecordInStep(p, rec);
      if |rec| >= 3 && GoesOn(Known(p), Waiting(p), [CStr(rec[2])]) {
        FollowsCons(p, rec, recs.tail, p1);
        TakeAllInStep(p1, recs.tail);
        if InStep(TakeAll(p, recs).rows) {
          CommitsCons(p, rec, recs.tail, p1, TakeAll(p, recs));
        }
      } else {
        FollowsNot(p, rec, recs.tail);
        if InStep(TakeAll(p, recs).rows) {
          InStepEarlier(p1.rows, TakeAll(p, recs).rows);
        }
      }
    }
  }

  // ---- A whole text

  /** `verify_idtable` accepts a text exactly when what it commits goes on from where the table is. */
  lemma InStepExact(p: Parse, t: string)
    requires Accepting(p) && !p.stopped
    ensures InStep(ReadText(p, t).rows) <==> Follows(p, Committed(p.errs, Records(t)))
  {
    var q := ReadTextSplits(p, t);
    TakeAllInStep(p, Committed(p.errs, Records(t)));
  }

  lemma LookupIn(names: seq<string>, s: string)
    requires |names| >= 1
    ensures Lookup(names, s) != 0 <==> s in names[1..]
  {
    var l := Lookup(names, s);
    if l != 0 {
      assert names[1..][l - 1] == s;
    }
    if s in names[1..] {
      var j :| 0 <= j < |names| - 1 && names[1..][j] == s;
      LookupFirst(names, s, j + 1);
    }
  }

  /** The identifier that loose fields add to the dictionary, if they add one. */
  function Added(ids: seq<string>, loose: seq<string>): seq<string>
    requires |ids| >= 1
  {
    if |loose| >= 3 && CStr(loose[2]) !in ids[1..] then [CStr(loose[2])] else []
  }

  /** Loose fields on top of committed ones: one more identifier may wait. */
  lemma LooseWaits(q: Parse, loose: seq<string>, r: Parse)
    requires Accepting(q) && r.rows == q.rows && r.draft.Some?
    requires Brings(q.st.ids, loose, r.st.ids, r.draft.value.sym)
    ensures Accepting(r) && Known(r) == Known(q) && Waiting(r) == Waiting(q) + Added(q.st.ids, loose)
  {
    if |loose| >= 3 {
      LookupIn(q.st.ids, CStr(loose[2]));
      InternDistinct(q.st.ids, CStr(loose[2]));
    }
  }

  /** The entry behind the committed ones is that of the identifier the loose fields bring, old or new. */
  lemma LooseGood(q: Parse, loose: seq<string>, r: Parse)
    requires Accepting(q) && r.rows == q.rows && r.draft.Some?
    requires Brings(q.st.ids, loose, r.st.ids, r.draft.value.sym)
    ensures Accepting(r)
    ensures Good(r) <==> Waiting(q) == [] || (|loose| >= 3 && Waiting(q) == [CStr(loose[2])])
  {
    LooseWaits(q, loose, r);
    GoodWaiting(r);
    if |loose| >= 3 {
      NumberBrought(q, CStr(loose[2]));
    }
  }

  /** A waiting name is found at its place; with nothing waiting, a new name is put there. */
  lemma NumberBrought(q: Parse, name: string)
    requires Accepting(q)
    ensures |Waiting(q)| == 1 && name in q.st.ids[1..] ==>
      (Intern(q.st.ids, name).1 == |q.rows| + 1 <==> Waiting(q) == [name])
    ensures Waiting(q) == [] && name !in q.st.ids[1..] ==> Intern(q.st.ids, name).1 == |q.rows| + 1
  {
    var l := Lookup(q.st.ids, name);
    LookupIn(q.st.ids, name);
    if |Waiting(q)| == 1 {
      LookupUnique(q.st.ids, |q.rows| + 1);
      assert Waiting(q)[0] == q.st.ids[|q.rows| + 1];
    }
  }

  /** What waits behind the records of a text. */
  function LeftBy(p: Parse, recs: List<Record>): seq<string>
    requires |p.st.ids| > |p.rows| && AllNamed(recs)
  {
    Left(Waiting(p), |NamesOf(recs)|)
  }

  /** The identifiers in the dictionary behind the records of a text, slot 0 included. */
  function NamesAfter(p: Parse, recs: List<Record>): seq<string>
    requires |p.st.ids| > |p.rows| && AllNamed(recs)
  {
    Known(p) + NamesOf(recs) + LeftBy(p, recs)
  }

  /** The identifiers that wait after an accepted text: what its records left of those that waited
      before, and a new one that its loose fields bring.  So the dictionary is as long as the table
      exactly when the records left none and the loose fields bring no new one. */
  lemma WaitingExact(p: Parse, t: string)
    requires Accepting(p) && !p.stopped && InStep(ReadText(p, t).rows)
    ensures var r, recs := ReadText(p, t), Committed(p.errs, Records(t));
      && Accepting(r) && AllNamed(recs) && Known(r) == Known(p) + NamesOf(recs)
      && Waiting(r) == LeftBy(p, recs) + Added(NamesAfter(p, recs), Loose(p.errs, t))
      && (Synced(r.st.ids, r.rows) <==> Waiting(r) == [])
  {
    var recs := Committed(p.errs, Records(t));
    var q := ReadTextSplits(p, t);
    TakeAllInStep(p, recs);
    LooseOntoCommitted(p, recs, q, Loose(p.errs, t), ReadText(p, t));
  }

  lemma LooseOntoCommitted(p: Parse, recs: List<Record>, q: Parse, loose: seq<string>, r: Parse)
    requires Accepting(p) && Commits(p, recs, q)
    requires r.rows == q.rows && r.st == AddFields(q.st, loose).0
    requires loose != [] ==> r.draft == Some(AddFields(q.st, loose).1)
    ensures Accepting(r) && Known(r) == Known(p) + NamesOf(recs)
    ensures Waiting(r) == LeftBy(p, recs) + Added(NamesAfter(p, recs), loose)
  {
    assert q.st.ids == Known(q) + Waiting(q);
    if loose != [] {
      AddFieldsIds(q.st, loose);
      LooseWaits(q, loose, r);
    }
  }

  /** After an accepted text every identifier has its entry exactly when its records leave none that
      waits, or one whose entry was written last: by this text, or before it if this text is void. */
  lemma GoodExact(p: Parse, t: string)
    requires Accepting(p) && !p.stopped && InStep(ReadText(p, t).rows)
    ensures AllNamed(Committed(p.errs, Records(t)))
    ensures var recs, loose := Committed(p.errs, Records(t)), Loose(p.errs, t);
      var left := LeftBy(p, recs);
      Good(ReadText(p, t)) <==>
        || left == []
        || (if loose == [] then recs.Nil? && Good(p) else |loose| >= 3 && left == [CStr(loose[2])])
  {
    var r, recs, loose := ReadText(p, t), Committed(p.errs, Records(t)), Loose(p.errs, t);
    var q := ReadTextSplits(p, t);
    TakeAllInStep(p, recs);
    if loose != [] {
      AddFieldsIds(q.st, loose);
      LooseGood(q, loose, r);
    } else {
      GoodWaiting(r);
      GoodWaiting(p);
    }
  }

  // ---- Examples

  lemma NextField(line: string, done: seq<string>, fld: string)
    requires Cut(line) == (done, "") && ';' !in fld
    ensures Cut(line + fld + [';']) == (done + [fld], "")
  {
    CutExtended(line, fld);
    CutSemicolon(line + fld);
    assert "" + fld == fld;
  }

  lemma UnfinishedFields()
    ensures Cut("f;3;x;h;") == (["f", "3", "x", "h"], "")
  {
    NextField("", [], "f");
    assert "" + "f" + [';'] == "f;" && [] + ["f"] == ["f"];
    NextField("f;", ["f"], "3");
    assert "f;" + "3" + [';'] == "f;3;" && ["f"] + ["3"] == ["f", "3"];
    NextField("f;3;", ["f", "3"], "x");
    assert "f;3;" + "x" + [';'] == "f;3;x;" && ["f", "3"] + ["x"] == ["f", "3", "x"];
    NextField("f;3;x;", ["f", "3", "x"], "h");
    assert "f;3;x;" + "h" + [';'] == "f;3;x;h;" && ["f", "3", "x"] + ["h"] == ["f", "3", "x", "h"];
  }

  lemma UnfinishedLine()
    ensures Loose(0, "f;3;x;h;") == ["f", "3", "x", "h"] && Records("f;3;x;h;") == Nil
  {
    var t := "f;3;x;h;";
    UnfinishedFields();
    assert t[..8] == t;
    LineEndAt(t, 8);
  }

  lemma FinishedLine()
    ensures Records("f;3;x;h;" + ['\n']) == Cons(["f", "3", "x", "h", ""], Nil) && Loose(0, "f;3;x;h;" + ['\n']) == []
  {
    var line := "f;3;x;h;";
    UnfinishedFields();
    LineAtHead(line, "");
    assert line + ['\n'] + "" == line + ['\n'];
    assert ["f", "3", "x", "h"] + [""] == ["f", "3", "x", "h", ""];
    assert Records("") == Nil;
    NothingLoose(line + ['\n']);
  }

  lemma StartedLine()
    ensures Loose(0, "f;") == ["f"] && Records("f;") == Nil
  {
    NextField("", [], "f");
    assert "" + "f" + [';'] == "f;" && [] + ["f"] == ["f"] && "f;"[..2] == "f;";
    LineEndAt("f;", 2);
  }

  lemma OtherFields()
    ensures Cut("v;3;y;k;") == (["v", "3", "y", "k"], "")
  {
    NextField("", [], "v");
    assert "" + "v" + [';'] == "v;" && [] + ["v"] == ["v"];
    NextField("v;", ["v"], "3");
    assert "v;" + "3" + [';'] == "v;3;" && ["v"] + ["3"] == ["v", "3"];
    NextField("v;3;", ["v", "3"], "y");
    assert "v;3;" + "y" + [';'] == "v;3;y;" && ["v", "3"] + ["y"] == ["v", "3", "y"];
    NextField("v;3;y;", ["v", "3", "y"], "k");
    assert "v;3;y;" + "k" + [';'] == "v;3;y;k;" && ["v", "3", "y"] + ["k"] == ["v", "3", "y", "k"];
  }

  lemma OtherLine()
    ensures Loose(0, "v;3;y;k;") == ["v", "3", "y", "k"] && Records("v;3;y;k;") == Nil
  {
    var t := "v;3;y;k;";
    OtherFields();
    assert t[..8] == t;
    LineEndAt(t, 8);
  }

  /** An unfinished line that leaves the dictionary ahead of the table. */
  lemma UnfinishedLineGoesAhead(p: Parse)
    requires p.st == Dictionaries(["*POISON*"], ["*POISON*"]) && p.rows == [] && p.errs == 0 && !p.stopped
    ensures var r := ReadText(p, "f;3;x;h;"); InStep(r.rows) && Good(r) && Ahead(r) && !Synced(r.st.ids, r.rows)
  {
    UnfinishedLine();
    InStepExact(p, "f;3;x;h;");
    NewNameWaits(p, "f;3;x;h;", "x");
  }

  /** Loose fields on an empty table leave their identifier waiting, at its own entry. */
  lemma NewNameWaits(p: Parse, t: string, name: string)
    requires p.st == Dictionaries(["*POISON*"], ["*POISON*"]) && p.rows == [] && !p.stopped
    requires Committed(p.errs, Records(t)) == Nil && |Loose(p.errs, t)| >= 3 && CStr(Loose(p.errs, t)[2]) == name
    requires InStep(ReadText(p, t).rows)
    ensures Good(ReadText(p, t)) && Accepting(ReadText(p, t)) && Waiting(ReadText(p, t)) == [name]
  {
    assert NamesAfter(p, Nil)[1..] == [];
    WaitingExact(p, t);
    GoodExact(p, t);
  }

  /** A record that brings the one waiting identifier gives it its entry. */
  lemma WaitingWritten(p: Parse, t: string, rec: Record)
    requires Accepting(p) && !p.stopped && |rec| >= 3 && Waiting(p) == [CStr(rec[2])]
    requires Committed(p.errs, Records(t)) == Cons(rec, Nil)
    ensures InStep(ReadText(p, t).rows) && Good(ReadText(p, t))
  {
    OneName(rec);
    InStepExact(p, t);
    GoodExact(p, t);
  }

  lemma OneName(rec: Record)
    requires |rec| >= 3
    ensures AllNamed(Cons(rec, Nil)) && NamesOf(Cons(rec, Nil)) == [CStr(rec[2])]
  {
    assert NamesOf(Nil) == [];
  }

  lemma {:induction false} NoLastLine(t: string)
    requires t == "" || t[|t| - 1] == '\n'
    ensures LastLine(t) == ""
    decreases |t|
  {
    var n := LineEnd(t);
    if n < |t| {
      NoLastLine(t[n + 1..]);
    } else if t != "" {
      NoLineEnd(t);
    }
  }

  lemma {:induction false} NoLineEnd(t: string)
    requires LineEnd(t) == |t|
    ensures '\n' !in t
  {
    if t != "" {
      NoLineEnd(t[1..]);
    }
  }

  /** A text that ends with a newline and has at most 8 fields a line leaves nothing loose. */
  lemma NothingLoose(t: string)
    requires AtMostEight(Records(t)) && (t == "" || t[|t| - 1] == '\n')
    ensures Loose(0, t) == []
  {
    NoStopper(0, Records(t));
    NoLastLine(t);
  }
}
