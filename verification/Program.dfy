/** The whole program: identifier tables are read and checked, then each source text is
    scanned and the references found so far are printed. */
module Program {
  import opened CStrings
  import opened Files
  import opened Interning
  import opened Lists
  import opened IdTable
  import opened Syncing
  import opened Tokens
  import opened References
  import opened Emit
  import opened Incbot
  import opened Scanner
  import opened Show
  import opened Answers

  // ---- Reading the tables

  const START: Parse := Parse(Dictionaries(["*POISON*"], ["*POISON*"]), [], 0, false, None)

  /** The tables as lookups see them. */
  function TablesOf(p: Parse): Tables {
    Tables(p.st, LiveRows(p))
  }

  /** The next table is read with its own error count. */
  function Again(p: Parse): Parse {
    p.(errs := 0, stopped := false)
  }

  /** Several tables are read one after the other. */
  function ReadTables(texts: seq<string>): (p: Parse) {
    if texts == [] then START
    else ReadText(Again(ReadTables(texts[..|texts| - 1])), texts[|texts| - 1])
  }

  /** The program goes on to the source texts: the check after the last table named by an option
      succeeds.  Where none is named, that after the default table does, and reading it reported nothing. */
  predicate Accepted(options: seq<string>, default_: string) {
    if options != [] then InStep(ReadTables(options).rows)
    else InStep(ReadTables([default_]).rows) && ExitCode(ReadTables([default_])) == 0
  }

  /** Every record has 3 to 8 fields, and no identifier stands in two of them. */
  ghost predicate WellFormedTable(t: string) {
    Sized(Records(t), 3, 8)
    && forall i: nat, j: nat :: i < j < Records(t).Length() ==> IdAt(Records(t), i) != IdAt(Records(t), j)
  }

  /** Every record has at least `lo` and at most `hi` fields. */
  ghost predicate Sized(recs: List<Record>, lo: nat, hi: nat) {
    forall k: nat :: k < recs.Length() ==> SizedAt(recs, k, lo, hi)
  }

  ghost predicate SizedAt(recs: List<Record>, k: nat, lo: nat, hi: nat)
    requires k < recs.Length()
  {
    lo <= |recs.At(k)| <= hi
  }

  /** The identifier in record `k`, if it has one. */
  function IdAt(recs: List<Record>, k: nat): string
    requires k < recs.Length()
  {
    if |recs.At(k)| > 2 then CStr(recs.At(k)[2]) else ""
  }

  lemma SizedCons(recs: List<Record>, lo: nat, hi: nat)
    requires recs.Cons?
    ensures Sized(recs, lo, hi) <==> lo <= |recs.head| <= hi && Sized(recs.tail, lo, hi)
  {
    assert SizedAt(recs, 0, lo, hi) <==> lo <= |recs.head| <= hi;
    forall k: nat | k < recs.tail.Length()
      ensures SizedAt(recs.tail, k, lo, hi) <==> SizedAt(recs, k + 1, lo, hi)
    {}
    if lo <= |recs.head| <= hi && Sized(recs.tail, lo, hi) {
      forall k: nat | k < recs.Length()
        ensures SizedAt(recs, k, lo, hi)
      {
        assert k > 0 ==> SizedAt(recs.tail, k - 1, lo, hi);
      }
    }
  }

  lemma {:induction false} SizedExact(recs: List<Record>)
    ensures Sized(recs, 3, 8) <==> AtMostEight(recs) && AllNamed(recs)
  {
    if recs.Cons? {
      SizedCons(recs, 3, 8);
      SizedExact(recs.tail);
    }
  }

  lemma {:induction false} NamesAt(recs: List<Record>)
    requires AllNamed(recs)
    ensures |NamesOf(recs)| == recs.Length()
    ensures forall k: nat :: k < recs.Length() ==> NamesOf(recs)[k] == IdAt(recs, k)
  {
    if recs.Cons? {
      NamesAt(recs.tail);
      assert forall k: nat :: 0 < k < recs.Length() ==> IdAt(recs, k) == IdAt(recs.tail, k - 1);
    }
  }

  lemma DistinctBehind(names: seq<string>)
    ensures Distinct(["*POISON*"] + names) <==> forall i, j :: 0 <= i < j < |names| ==> names[i] != names[j]
  {
    var all := ["*POISON*"] + names;
    if Distinct(all) {
      forall i, j | 0 <= i < j < |names|
        ensures names[i] != names[j]
      {
        assert all[i + 1] == names[i] && all[j + 1] == names[j];
      }
    }
  }

  lemma WellFormedExact(t: string)
    ensures var recs := Records(t);
      WellFormedTable(t) <==> AtMostEight(recs) && AllNamed(recs) && Distinct(["*POISON*"] + NamesOf(recs))
  {
    var recs := Records(t);
    SizedExact(recs);
    if AllNamed(recs) {
      NamesAt(recs);
      DistinctBehind(NamesOf(recs));
    }
  }

  /** One table named by an option is accepted exactly when the records that it commits have an
      identifier each and no two the same, however many lines are too long. */
  lemma OptionExact(t: string)
    ensures var recs := Committed(0, Records(t));
      InStep(ReadText(START, t).rows) <==> AllNamed(recs) && Distinct(["*POISON*"] + NamesOf(recs))
  {
    var recs := Committed(0, Records(t));
    InStepExact(START, t);
    assert Known(START) == ["*POISON*"] && Waiting(START) == [];
    if AllNamed(recs) && NamesOf(recs) == [] {
      assert ["*POISON*"] + NamesOf(recs) == ["*POISON*"];
    }
  }

  lemma ReadOne(t: string)
    ensures ReadTables([t]) == ReadText(START, t)
  {
    assert [t][..0] == [];
    assert ReadTables([t][..0]) == START;
  }

  /** The default table is accepted exactly when it is well formed. */
  lemma DefaultExact(t: string)
    ensures Accepted([], t) <==> WellFormedTable(t)
  {
    ReadOne(t);
    OptionExact(t);
    WellFormedExact(t);
    ExitExact(START, t);
    if AtMostEight(Records(t)) {
      NeverStops(START, Records(t));
    }
  }

  /** After one accepted table every identifier has its entry, even if the text ends in the middle of
      a line or reading was given up. */
  lemma OneTableGood(t: string)
    requires InStep(ReadText(START, t).rows)
    ensures Good(ReadText(START, t))
  {
    GoodExact(START, t);
    assert Waiting(START) == [];
  }

  // ---- What reading keeps

  /** All numbers stored name something, and no string is held twice. */
  ghost predicate Sound(p: Parse) {
    && Bounded(p.st, p.rows)
    && (p.draft.Some? ==> RowBounded(p.st, p.draft.value))
    && Distinct(p.st.strs) && Distinct(p.st.ids)
  }

  lemma {:induction false} AddFieldsDistinct(st: Store, flds: seq<string>)
    requires Distinct(st.strs) && Distinct(st.ids)
    ensures Distinct(AddFields(st, flds).0.strs) && Distinct(AddFields(st, flds).0.ids)
  {
    if flds != [] {
      var init, last := flds[..|flds| - 1], CStr(flds[|flds| - 1]);
      AddFieldsDistinct(st, init);
      InternDistinct(AddFields(st, init).0.strs, last);
      InternDistinct(AddFields(st, init).0.ids, last);
    }
  }

  lemma TakeSound(p: Parse, rec: Record)
    requires Sound(p)
    ensures Sound(Take(p, rec))
  {
    AddFieldsBounded(p.st, rec);
    AddFieldsDistinct(p.st, rec);
  }

  lemma {:induction false} TakeAllSound(p: Parse, recs: List<Record>)
    requires Sound(p)
    ensures Sound(TakeAll(p, recs))
    decreases recs
  {
    if !p.stopped && recs.Cons? {
      TakeSound(p, recs.head);
      TakeAllSound(Take(p, recs.head), recs.tail);
    }
  }

  lemma TakeTailSound(p: Parse, line: string)
    requires Sound(p)
    ensures Sound(TakeTail(p, line))
  {
    AddFieldsBounded(p.st, Cut(line).0);
    AddFieldsDistinct(p.st, Cut(line).0);
  }

  lemma {:induction false} ReadTablesSound(texts: seq<string>)
    ensures Sound(ReadTables(texts))
  {
    if texts != [] {
      var init, t := texts[..|texts| - 1], texts[|texts| - 1];
      ReadTablesSound(init);
      TakeAllSound(Again(ReadTables(init)), Records(t));
      TakeTailSound(TakeAll(Again(ReadTables(init)), Records(t)), LastLine(t));
    }
  }

  // ---- Several tables

  lemma {:induction false} EarlierInStep(texts: seq<string>, n: nat)
    requires n <= |texts| && InStep(ReadTables(texts).rows)
    ensures InStep(ReadTables(texts[..n]).rows)
  {
    if n == |texts| {
      assert texts[..n] == texts;
    } else {
      var init, t := texts[..|texts| - 1], texts[|texts| - 1];
      var p := Again(ReadTables(init));
      TakeAllGrows(p, Records(t));
      InStepEarlier(p.rows, ReadTables(texts).rows);
      assert init[..n] == texts[..n];
      EarlierInStep(init, n);
    }
  }

  /** Wherever the check succeeds, the identifiers that are not committed wait for their entries. */
  lemma TablesAccepting(texts: seq<string>)
    requires InStep(ReadTables(texts).rows)
    ensures Accepting(ReadTables(texts))
  {
    ReadTablesSound(texts);
    var p := ReadTables(texts);
    if p.rows != [] {
      assert RowBounded(p.st, p.rows[|p.rows| - 1]);
    }
  }

  /** A further table is accepted exactly when those before it are, and its committed records go on
      from where they stopped. */
  lemma NextTableExact(texts: seq<string>, t: string)
    ensures InStep(ReadTables(texts).rows) ==> Accepting(ReadTables(texts))
    ensures InStep(ReadTables(texts + [t]).rows)
       <==> InStep(ReadTables(texts).rows) && Follows(ReadTables(texts), Committed(0, Records(t)))
  {
    assert (texts + [t])[..|texts|] == texts;
    if InStep(ReadTables(texts + [t]).rows) {
      EarlierInStep(texts + [t], |texts|);
    }
    if InStep(ReadTables(texts).rows) {
      TablesAccepting(texts);
      InStepExact(Again(ReadTables(texts)), t);
    }
  }

  /** Whether every identifier has its entry behind an accepted table: exactly when the records left
      none that waits, or one whose entry was written last. */
  lemma NextTableGood(texts: seq<string>, t: string)
    requires InStep(ReadTables(texts + [t]).rows)
    ensures AllNamed(Committed(0, Records(t))) && Accepting(ReadTables(texts))
    ensures var p, recs, loose := ReadTables(texts), Committed(0, Records(t)), Loose(0, t);
      var left := LeftBy(p, recs);
      Good(ReadTables(texts + [t])) <==>
        || left == []
        || (if loose == [] then recs.Nil? && Good(p) else |loose| >= 3 && left == [CStr(loose[2])])
  {
    assert (texts + [t])[..|texts|] == texts;
    NextTableExact(texts, t);
    TablesAccepting(texts);
    GoodExact(Again(ReadTables(texts)), t);
  }

  /** The identifiers that wait behind an accepted table. */
  lemma NextTableWaiting(texts: seq<string>, t: string)
    requires InStep(ReadTables(texts + [t]).rows)
    ensures AllNamed(Committed(0, Records(t))) && Accepting(ReadTables(texts)) && Accepting(ReadTables(texts + [t]))
    ensures var p, recs := ReadTables(texts), Committed(0, Records(t));
      Waiting(ReadTables(texts + [t])) == LeftBy(p, recs) + Added(NamesAfter(p, recs), Loose(0, t))
  {
    assert (texts + [t])[..|texts|] == texts;
    NextTableExact(texts, t);
    TablesAccepting(texts);
    WaitingExact(Again(ReadTables(texts)), t);
  }

  /** Two tables that are accepted although the second overwrites the entry of an identifier. */
  lemma OverwrittenEntry()
    ensures var options := ["f;3;x;h;"] + ["f;"];
      Accepted(options, "") && !Good(ReadTables(options))
      && Accepting(ReadTables(options)) && Waiting(ReadTables(options)) == ["x"]
  {
    var first := ["f;3;x;h;"];
    UnfinishedLine();
    OneUnfinished(first[0], ["f", "3", "x", "h"]);
    StartedLine();
    NextTableExact(first, "f;");
    FollowsNil(ReadTables(first));
    NextTableGood(first, "f;");
    NextTableWaiting(first, "f;");
  }

  /** A third table that gives the identifier its entry again. */
  lemma EntryWrittenAgain()
    ensures var options := ["f;3;x;h;"] + ["f;"] + ["f;3;x;h;" + ['\n']];
      Accepted(options, "") && Good(ReadTables(options))
  {
    var two, t := ["f;3;x;h;"] + ["f;"], "f;3;x;h;" + ['\n'];
    OverwrittenEntry();
    FinishedLine();
    WaitingServed(two, t, ["f", "3", "x", "h", ""]);
  }

  /** A table whose one record brings the one waiting identifier. */
  lemma WaitingServed(texts: seq<string>, t: string, rec: Record)
    requires Accepting(ReadTables(texts)) && |rec| >= 3 && Waiting(ReadTables(texts)) == [CStr(rec[2])]
    requires Records(t) == Cons(rec, Nil) && |rec| <= NFLD
    ensures InStep(ReadTables(texts + [t]).rows) && Good(ReadTables(texts + [t]))
  {
    assert (texts + [t])[..|texts|] == texts;
    assert Committed(0, Records(t)) == Cons(rec, Nil);
    WaitingWritten(Again(ReadTables(texts)), t, rec);
  }

  // ---- What the entries say

  /** What the scanner and the emitter rely on. */
  ghost predicate Prepared(v: Tables) {
    v.Valid() && Distinct(v.st.ids) && Distinct(v.st.strs) && Identified(v)
  }

  /** The tables are always prepared: both dictionaries without repetitions, all numbers in range, and
      an identifier wherever there is an include string. */
  lemma TablesPrepared(texts: seq<string>)
    ensures Prepared(TablesOf(ReadTables(texts)))
  {
    ReadTablesSound(texts);
    var v := TablesOf(ReadTables(texts));
    forall e | 0 <= e < |v.rows| && v.rows[e].src1 != 0
      ensures v.rows[e].sym != 0
    {
      EntryExact(texts, e);
    }
  }

  /** Where every identifier has its entry, every use finds it, and the answer is unique. */
  lemma GoodReached(texts: seq<string>, us: List<Use>)
    requires Good(ReadTables(texts))
    ensures var v := TablesOf(ReadTables(texts)); v.Valid() && AllHaveEntries(v, us) && Unambiguous(v, us)
  {
    ReadTablesSound(texts);
    SyncedHaveEntries(TablesOf(ReadTables(texts)), us);
    InStepUnambiguous(TablesOf(ReadTables(texts)), us);
  }

  /** The names whose entries were never written: those that wait, but for the first of them if an entry
      was written behind the committed ones. */
  function Unwritten(p: Parse): seq<string>
    requires |p.st.ids| > |p.rows|
  {
    if p.draft.Some? && Waiting(p) != [] then Waiting(p)[1..] else Waiting(p)
  }

  /** A use reaches an entry that was written exactly when its name is none of those. */
  lemma ReachedExact(p: Parse, u: Use)
    requires Accepting(p) && Sound(p)
    ensures TablesOf(p).Valid()
    ensures HasEntry(TablesOf(p), u) <==> u.name !in Unwritten(p)
  {
    assert Unwritten(p) == p.st.ids[|LiveRows(p)| + 1..];
    LookupBehind(p.st.ids, u.name, |LiveRows(p)| + 1);
  }

  lemma LookupBehind(names: seq<string>, s: string, n: nat)
    requires Distinct(names) && 1 <= n <= |names|
    ensures Lookup(names, s) >= n <==> s in names[n..]
  {
    var l := Lookup(names, s);
    if l >= n {
      assert names[n..][l - n] == s;
    }
    if s in names[n..] {
      var i :| 0 <= i < |names| - n && names[n..][i] == s;
      LookupUnique(names, n + i);
    }
  }

  /** A use of the name that waits first is taken for one of the entry stored last. */
  lemma WaitingRef(p: Parse, u: Use)
    requires Accepting(p) && Sound(p) && p.draft.Some? && Waiting(p) != [] && u.name == Waiting(p)[0]
    ensures TablesOf(p).Valid() && HasEntry(TablesOf(p), u)
    ensures RefOf(TablesOf(p), u) ==
      if Provides(TablesOf(p), |p.rows|, u.call)
      then Some(IncRef(p.draft.value.sym, p.draft.value.src1, |p.rows|, u.lnr)) else None
  {
    assert u.name == p.st.ids[|p.rows| + 1];
    LookupUnique(p.st.ids, |p.rows| + 1);
    assert TablesOf(p).rows[|p.rows|] == p.draft.value;
    MasksFit(p.draft.value.typ, u.call);
  }

  /** Entry `e` provides an include for some use. */
  ghost predicate Useful(v: ValidTables, e: nat)
    requires e < |v.rows|
  {
    exists call :: Provides(v, e, call)
  }

  /** While a name waits, the entry stored last and a committed one are those of the same identifier, and
      provide the same include string for it, but with types that are printed differently. */
  ghost predicate Clash(p: Parse)
    requires Sound(p)
  {
    Ahead(p) && p.draft.Some? && ClashAt(TablesOf(p), |p.rows|, p.draft.value.sym)
  }

  ghost predicate ClashAt(v: ValidTables, e: nat, sym: nat)
    requires e < |v.rows|
  {
    && 0 < sym <= e && KeyAt(v, e).Same(KeyAt(v, sym - 1)) && KeyAt(v, e) != KeyAt(v, sym - 1)
    && Useful(v, e) && Useful(v, sym - 1) && KeyOk(v, KeyAt(v, e))
  }

  /** Behind accepted tables every answer is unique exactly when no two entries clash. */
  lemma UniqueExact(texts: seq<string>)
    requires InStep(ReadTables(texts).rows)
    ensures Prepared(TablesOf(ReadTables(texts))) && Sound(ReadTables(texts))
    ensures Unique(TablesOf(ReadTables(texts))) <==> !Clash(ReadTables(texts))
  {
    var p := ReadTables(texts);
    TablesAccepting(texts);
    ReadTablesSound(texts);
    TablesPrepared(texts);
    if Clash(p) {
      ClashShows(p);
    } else {
      forall us: List<Use>, out, out' | Answer(TablesOf(p), us, out) && Answer(TablesOf(p), us, out')
        ensures out == out'
      {
        AnswerPrints(TablesOf(p), us, out);
        NoClashNoDoubt(p, us);
        AnswerUnique(TablesOf(p), us, us, out, out');
      }
    }
  }

  /** No lookups have two answers. */
  ghost predicate Unique(v: ValidTables) {
    forall us, out, out' :: Answer(v, us, out) && Answer(v, us, out') ==> out == out'
  }

  lemma NoClashNoDoubt(p: Parse, us: List<Use>)
    requires Accepting(p) && Sound(p) && !Clash(p) && Prints(TablesOf(p), us)
    ensures Unambiguous(TablesOf(p), us)
  {
    var v := TablesOf(p);
    forall k, k' | Needed(v, us, k) && Needed(v, us, k') && k.Same(k')
      ensures k == k'
    {
      var e, u := NeededEntry(v, us, k);
      var e', u' := NeededEntry(v, us, k');
      assert Useful(v, e) && Useful(v, e');
      assert e < |p.rows| ==> v.rows[e].sym == e + 1;
      assert e' < |p.rows| ==> v.rows[e'].sym == e' + 1;
    }
  }

  lemma ClashShows(p: Parse)
    requires Accepting(p) && Sound(p) && Clash(p) && Prepared(TablesOf(p))
    ensures !Unique(TablesOf(p))
  {
    var v, e, sym := TablesOf(p), |p.rows|, p.draft.value.sym;
    var call :| Provides(v, e, call);
    var call' :| Provides(v, sym - 1, call');
    var u, u' := Use(v.st.ids[e + 1], call, 0), Use(v.st.ids[sym], call', 0);
    var a := UseRecords(v, u, e);
    var b := UseRecords(v, u', sym - 1);
    LinesDiffer(v.rows[e].typ, v.rows[sym - 1].typ, call, call', v.st.ids[sym]);
    TwoAnswers(v, u, u', a, b);
  }

  lemma UseRecords(v: ValidTables, u: Use, e: nat) returns (r: IncRef)
    requires Prepared(v) && e < |v.rows| && e + 1 < |v.st.ids| && u.name == v.st.ids[e + 1] && Provides(v, e, u.call)
    ensures HasEntry(v, u) && RefOf(v, u) == Some(r) && KeyOf(v, r) == KeyAt(v, e)
  {
    LookupUnique(v.st.ids, e + 1);
    RefOfExact(v, u, e);
    r := RefOf(v, u).value;
  }

  /** Two uses whose references tie, but print differently. */
  lemma TwoAnswers(v: ValidTables, u: Use, u': Use, a: IncRef, b: IncRef)
    requires Prepared(v) && HasEntry(v, u) && HasEntry(v, u') && RefOf(v, u) == Some(a) && RefOf(v, u') == Some(b)
    requires KeyOk(v, KeyOf(v, a)) && KeyOk(v, KeyOf(v, b)) && KeyOf(v, a).Same(KeyOf(v, b))
    requires Line(v, KeyOf(v, a).imp) != Line(v, KeyOf(v, b).imp)
    ensures !Unique(v)
  {
    var us := Cons(u, Cons(u', Nil));
    TieShows(v, a, b);
    TwoHeld(v, u, u', a, b);
    SortedAnswer(v, [a, b], us);
    HoldsPermuted(v, [a, b], [b, a], us);
    SortedAnswer(v, [b, a], us);
  }

  lemma TwoHeld(v: ValidTables, u: Use, u': Use, a: IncRef, b: IncRef)
    requires Prepared(v) && HasEntry(v, u) && HasEntry(v, u') && RefOf(v, u) == Some(a) && RefOf(v, u') == Some(b)
    ensures Holds(v, [a, b], Cons(u, Cons(u', Nil)))
  {
    var us := Cons(u, Cons(u', Nil));
    assert AllHaveEntries(v, us) by {
      assert AllHaveEntries(v, Nil) && AllHaveEntries(v, Cons(u', Nil));
    }
    assert Recorded(v, [], us) == [a, b] by {
      assert Record1(v, [], u) == [a] && Record1(v, [a], u') == [a, b];
      assert Recorded(v, [a, b], Nil) == [a, b] && Recorded(v, [a], Cons(u', Nil)) == [a, b];
    }
    HoldsNothing(v);
    HoldsMore(v, [], Nil, us);
  }

  /** The records that the tables commit, in order. */
  function AllCommitted(texts: seq<string>): List<Record> {
    if texts == [] then Nil
    else AllCommitted(texts[..|texts| - 1]).Plus(Committed(0, Records(texts[|texts| - 1])))
  }

  /** The fields that were stored last without being committed, if nothing was committed since. */
  function LastLoose(texts: seq<string>): Option<Record> {
    if texts == [] then None
    else
      var t := texts[|texts| - 1];
      if Loose(0, t) != [] then Some(Loose(0, t))
      else if Committed(0, Records(t)).Nil? then LastLoose(texts[..|texts| - 1])
      else None
  }

  /** An entry keeps its fields while further tables are read. */
  lemma EntryKept(p: Parse, t: string, k: nat, rec: Record)
    requires !p.stopped && EntryReads(p, k, rec)
    ensures EntryReads(ReadText(p, t), k, rec)
  {
    ReadTextGrows(p, t);
    RowReadsLater(p.st, ReadText(p, t).st, p.rows[k], rec);
  }

  lemma DraftKept(p: Parse, t: string, rec: Record)
    requires !p.stopped && DraftReads(p, rec)
    requires Loose(p.errs, t) == [] && Committed(p.errs, Records(t)).Nil?
    ensures DraftReads(ReadText(p, t), rec)
  {
    var q := ReadTextSplits(p, t);
    ReadTextGrows(p, t);
    RowReadsLater(p.st, ReadText(p, t).st, p.draft.value, rec);
  }

  /** What is stored behind the committed entries. */
  ghost predicate StoredIs(p: Parse, loose: Option<Record>) {
    if loose.Some? then DraftReads(p, loose.value) else p.draft == None
  }

  lemma {:induction false} StoredExact(texts: seq<string>)
    ensures StoredIs(ReadTables(texts), LastLoose(texts))
  {
    if texts != [] {
      var init, t := texts[..|texts| - 1], texts[|texts| - 1];
      var p := Again(ReadTables(init));
      StoredExact(init);
      if Loose(0, t) != [] {
        LooseReads(p, t);
      }
      var q := ReadTextSplits(p, t);
      if Loose(0, t) == [] && Committed(0, Records(t)).Nil? && LastLoose(init).Some? {
        DraftKept(p, t, LastLoose(init).value);
      }
    }
  }

  /** The committed entries are those of the records, in order. */
  ghost predicate EntriesMatch(p: Parse, recs: List<Record>) {
    |p.rows| == recs.Length() && forall k: nat :: k < recs.Length() ==> EntryMatches(p, recs, k)
  }

  ghost predicate EntryMatches(p: Parse, recs: List<Record>, k: nat) {
    k < recs.Length() && EntryReads(p, k, recs.At(k))
  }

  /** Reading `t` keeps the entries `recs`. */
  lemma OldEntry(p: Parse, recs: List<Record>, more: List<Record>, t: string, k: nat)
    requires !p.stopped && EntryMatches(p, recs, k)
    ensures EntryMatches(ReadText(p, t), recs.Plus(more), k)
  {
    recs.PlusLength(more);
    recs.PlusAt(more, k);
    EntryKept(p, t, k, recs.At(k));
  }

  /** Reading `t` adds the entries that it commits. */
  lemma NewEntry(p: Parse, recs: List<Record>, more: List<Record>, t: string, k: nat)
    requires !p.stopped && |p.rows| == recs.Length() <= k
    requires more == Committed(p.errs, Records(t)) && k - recs.Length() < more.Length()
    ensures EntryMatches(ReadText(p, t), recs.Plus(more), k)
  {
    CommittedReads(p, t, k - recs.Length());
    JoinedMatches(ReadText(p, t), recs, more, k);
  }

  lemma JoinedMatches(r: Parse, recs: List<Record>, more: List<Record>, k: nat)
    requires recs.Length() <= k && k - recs.Length() < more.Length() && EntryReads(r, k, more.At(k - recs.Length()))
    ensures EntryMatches(r, recs.Plus(more), k)
  {
    recs.PlusLength(more);
    recs.PlusAt(more, k);
  }

  lemma MoreEntries(p: Parse, recs: List<Record>, t: string)
    requires !p.stopped && EntriesMatch(p, recs)
    ensures EntriesMatch(ReadText(p, t), recs.Plus(Committed(p.errs, Records(t))))
  {
    var more := Committed(p.errs, Records(t));
    recs.PlusLength(more);
    ReadTextGrows(p, t);
    forall k: nat | k < recs.Plus(more).Length()
      ensures EntryMatches(ReadText(p, t), recs.Plus(more), k)
    {
      if k < recs.Length() {
        assert EntryMatches(p, recs, k);
        OldEntry(p, recs, more, t, k);
      } else {
        NewEntry(p, recs, more, t, k);
      }
    }
  }

  lemma AgainMatches(p: Parse, recs: List<Record>)
    requires EntriesMatch(p, recs)
    ensures EntriesMatch(Again(p), recs)
  {
    forall k: nat | k < recs.Length()
      ensures EntryMatches(Again(p), recs, k)
    {
      assert EntryMatches(p, recs, k);
    }
  }

  lemma {:induction false} CommittedExact(texts: seq<string>)
    ensures EntriesMatch(ReadTables(texts), AllCommitted(texts))
  {
    if texts != [] {
      var init := texts[..|texts| - 1];
      CommittedExact(init);
      AgainMatches(ReadTables(init), AllCommitted(init));
      MoreEntries(Again(ReadTables(init)), AllCommitted(init), texts[|texts| - 1]);
    }
  }

  /** What entry `k` says, read off the fields of its line: its type, its identifier, and what it
      provides to which uses. */
  ghost predicate EntryOf(v: ValidTables, k: nat, rec: Record) {
    && k < |v.rows| && RowBounded(v.st, v.rows[k]) && |rec| >= 1
    && v.rows[k].typ == EncodeType(CStr(rec[0]))
    && (if |rec| > 2 then v.rows[k].sym != 0 && v.st.ids[v.rows[k].sym] == CStr(rec[2]) else v.rows[k].sym == 0)
    && (if |rec| > 3 then v.rows[k].src1 != 0 && v.st.strs[v.rows[k].src1] == CStr(rec[3]) else v.rows[k].src1 == 0)
    && forall call ::
         Provides(v, k, call) <==> |rec| > 3 && CStr(rec[3]) != "" && TypeFits(EncodeType(CStr(rec[0])), call)
  }

  lemma EntryFromRecord(v: ValidTables, k: nat, rec: Record)
    requires k < |v.rows| && RowReads(v.st, v.rows[k], rec)
    ensures EntryOf(v, k, rec)
  {
    assert FieldReads(v.st, v.rows[k], rec, 2) && FieldReads(v.st, v.rows[k], rec, 3);
    assert RowBounded(v.st, v.rows[k]);
  }

  /** The line from which entry `k` comes. */
  function LineOf(texts: seq<string>, k: nat): Record {
    if k < AllCommitted(texts).Length() then AllCommitted(texts).At(k)
    else if LastLoose(texts).Some? then LastLoose(texts).value else []
  }

  /** Whatever tables were read, the entries that lookups reach are those of the committed records
      and, while the dictionary is ahead, the one of the fields stored last. */
  lemma EntriesCounted(texts: seq<string>)
    ensures |TablesOf(ReadTables(texts)).rows|
         == AllCommitted(texts).Length() + if Ahead(ReadTables(texts)) && LastLoose(texts).Some? then 1 else 0
  {
    CommittedExact(texts);
    StoredExact(texts);
  }

  /** Each of them says what its line says, whichever table it comes from. */
  lemma EntryExact(texts: seq<string>, k: nat)
    requires k < |TablesOf(ReadTables(texts)).rows|
    ensures TablesOf(ReadTables(texts)).Valid() && EntryOf(TablesOf(ReadTables(texts)), k, LineOf(texts, k))
  {
    ReadTablesSound(texts);
    CommittedExact(texts);
    if k < AllCommitted(texts).Length() {
      assert EntryMatches(ReadTables(texts), AllCommitted(texts), k);
    } else {
      EntriesCounted(texts);
      StoredExact(texts);
    }
    EntryFromRecord(TablesOf(ReadTables(texts)), k, LineOf(texts, k));
  }

  lemma OneLetter(s: string)
    requires |s| == 1 && s[0] != '\0'
    ensures CStr(s) == s
  {}

  /** Two tables after which a use of `x` is recorded as a use of `y`. */
  lemma OtherNameRecorded(u: Use)
    requires u.name == "x" && !u.call
    ensures var options := ["f;3;x;h;"] + ["v;3;y;k;"];
      Accepted(options, "") && RecordedAs(TablesOf(ReadTables(options)), u, "y", "k")
  {
    UnfinishedLine();
    OtherLine();
    OneLetter("v");
    OneLetter("x");
    OneLetter("y");
    OneLetter("k");
    LetterType('v');
    assert |"x"| == 1 && "x"[0] != "y"[0];
    TwoUnfinished("f;3;x;h;", "v;3;y;k;", ["f", "3", "x", "h"], ["v", "3", "y", "k"], u);
  }

  /** Of two tables that end in unfinished lines, the second overwrites the entry of the first. */
  lemma TwoUnfinished(t: string, t': string, rec: Record, rec': Record, u: Use)
    requires Records(t) == Nil && Loose(0, t) == rec && Records(t') == Nil && Loose(0, t') == rec'
    requires |rec| >= 3 && |rec'| > 3 && CStr(rec[2]) != CStr(rec'[2]) && CStr(rec'[3]) != ""
    requires u.name == CStr(rec[2]) && TypeFits(EncodeType(CStr(rec'[0])), u.call)
    ensures Accepted([t] + [t'], "")
    ensures RecordedAs(TablesOf(ReadTables([t] + [t'])), u, CStr(rec'[2]), CStr(rec'[3]))
  {
    OneUnfinished(t, rec);
    MoreWait([t], t', rec');
    WaitingRecorded([t] + [t'], u, rec');
  }

  lemma OneUnfinished(t: string, rec: Record)
    requires Records(t) == Nil && Loose(0, t) == rec && |rec| >= 3
    ensures var p := ReadTables([t]);
      InStep(p.rows) && Accepting(p) && Waiting(p) == [CStr(rec[2])] && p.st.ids[1..] == [CStr(rec[2])]
  {
    ReadOne(t);
    InStepExact(START, t);
    NewNameWaits(START, t, CStr(rec[2]));
    var q := ReadTextSplits(START, t);
    assert Waiting(ReadTables([t])) == ReadTables([t]).st.ids[1..];
  }

  /** Loose fields with a new name: one more name waits. */
  lemma MoreWait(texts: seq<string>, t: string, loose: Record)
    requires InStep(ReadTables(texts).rows) && Records(t) == Nil && Loose(0, t) == loose && |loose| >= 3
    requires CStr(loose[2]) !in ReadTables(texts).st.ids[1..]
    ensures InStep(ReadTables(texts + [t]).rows) && LastLoose(texts + [t]) == Some(loose)
    ensures Accepting(ReadTables(texts)) && Accepting(ReadTables(texts + [t]))
    ensures Waiting(ReadTables(texts + [t])) == Waiting(ReadTables(texts)) + [CStr(loose[2])]
  {
    var p := ReadTables(texts);
    assert (texts + [t])[..|texts|] == texts;
    NextTableExact(texts, t);
    FollowsNil(p);
    NextTableWaiting(texts, t);
    assert NamesAfter(p, Nil) == p.st.ids;
  }

  ghost predicate RecordedAs(v: Tables, u: Use, name: string, inc: string) {
    && v.Valid() && RefOf(v, u).Some?
    && var r := RefOf(v, u).value; Names(v.st, r) && v.st.ids[r.ref_sym] == name && v.st.strs[r.inc_sym] == inc
  }

  /** A use of the name that waits first is recorded under the name of the fields stored last. */
  lemma WaitingRecorded(texts: seq<string>, u: Use, loose: Record)
    requires InStep(ReadTables(texts).rows) && Accepting(ReadTables(texts)) && LastLoose(texts) == Some(loose)
    requires Waiting(ReadTables(texts)) != [] && u.name == Waiting(ReadTables(texts))[0]
    requires |loose| > 3 && CStr(loose[3]) != "" && TypeFits(EncodeType(CStr(loose[0])), u.call)
    ensures RecordedAs(TablesOf(ReadTables(texts)), u, CStr(loose[2]), CStr(loose[3]))
  {
    var p := ReadTables(texts);
    ReadTablesSound(texts);
    EntriesCounted(texts);
    StoredExact(texts);
    EntryExact(texts, |p.rows|);
    WaitingRef(p, u);
  }

  /** Where a committed record stands among those of all tables. */
  lemma {:induction false} CommittedPlace(texts: seq<string>, i: nat, j: nat) returns (k: nat)
    requires i < |texts| && j < Committed(0, Records(texts[i])).Length()
    ensures k < AllCommitted(texts).Length() && AllCommitted(texts).At(k) == Committed(0, Records(texts[i])).At(j)
  {
    var init, last := texts[..|texts| - 1], Committed(0, Records(texts[|texts| - 1]));
    AllCommitted(init).PlusLength(last);
    if i < |init| {
      k := CommittedPlace(init, i, j);
    } else {
      k := AllCommitted(init).Length() + j;
    }
    AllCommitted(init).PlusAt(last, k);
  }

  /** Every committed record of every table has its entry. */
  lemma EveryRecordUsed(texts: seq<string>, i: nat, j: nat) returns (k: nat)
    requires i < |texts| && j < Committed(0, Records(texts[i])).Length()
    ensures TablesOf(ReadTables(texts)).Valid()
    ensures EntryOf(TablesOf(ReadTables(texts)), k, Committed(0, Records(texts[i])).At(j))
  {
    k := CommittedPlace(texts, i, j);
    EntriesCounted(texts);
    EntryExact(texts, k);
  }

  /** The default table holds one record, and one word is looked up, the identifier of that record. */
  lemma OneRecordAnswer(t: string, rec: Record, us: List<Use>, call: bool, out: string)
    requires Records(t) == Cons(rec, Nil) && Loose(0, t) == [] && 4 <= |rec| <= 8 && '|' !in CStr(rec[3])
    requires Unnumbered(us) == Cons(Use(CStr(rec[2]), call, 0), Nil)
    requires TablesOf(ReadTables([t])).Valid() && Answer(TablesOf(ReadTables([t])), us, out)
    ensures WellFormedTable(t)
    ensures out ==
      if CStr(rec[3]) != "" && TypeFits(EncodeType(CStr(rec[0])), call)
      then "#include <" + CStr(rec[3]) + ">\n" + ImportLine(EncodeType(CStr(rec[0])), CStr(rec[2]))
      else ""
  {
    var v, k := OneRecordTable(t, rec);
    OneRecordNeeds(v, rec, us, call, k);
    if CStr(rec[3]) != "" && TypeFits(EncodeType(CStr(rec[0])), call) {
      AnswerOfOne(v, us, k, out);
      PrintedLine(EncodeType(CStr(rec[0])), CStr(rec[2]));
    } else {
      AnswerOfNone(v, us, out);
    }
  }

  /** The only entry of a table is that of its record. */
  ghost predicate OnlyEntry(v: ValidTables, rec: Record, k: Key) {
    && |v.rows| == 1 && |v.st.ids| == 2 && EntryOf(v, 0, rec) && v.rows[0].sym == 1 && k == KeyAt(v, 0)
  }

  lemma OneRecordTable(t: string, rec: Record) returns (v: ValidTables, k: Key)
    requires Records(t) == Cons(rec, Nil) && Loose(0, t) == [] && 4 <= |rec| <= 8
    ensures WellFormedTable(t) && v == TablesOf(ReadTables([t])) && OnlyEntry(v, rec, k)
  {
    OneRecordFormed(t, rec);
    DefaultExact(t);
    ReadOne(t);
    OneTableGood(t);
    TablesPrepared([t]);
    OneCommitted(t, rec);
    EntriesCounted([t]);
    StoredExact([t]);
    EntryExact([t], 0);
    v := TablesOf(ReadTables([t]));
    k := KeyAt(v, 0);
  }

  lemma OneRecordFormed(t: string, rec: Record)
    requires Records(t) == Cons(rec, Nil) && 4 <= |rec| <= 8
    ensures WellFormedTable(t)
  {
    SizedCons(Cons(rec, Nil), 3, 8);
    assert Sized(Nil, 3, 8);
  }

  lemma OneCommitted(t: string, rec: Record)
    requires Records(t) == Cons(rec, Nil) && Loose(0, t) == [] && |rec| <= 8
    ensures AllCommitted([t]) == Cons(rec, Nil) && LastLoose([t]) == None
  {
    assert [t][..0] == [];
    assert Committed(0, Nil) == Nil;
    assert AllCommitted([]) == Nil;
  }

  lemma OneRecordNeeds(v: ValidTables, rec: Record, us: List<Use>, call: bool, k: Key)
    requires |rec| >= 4 && OnlyEntry(v, rec, k) && Unnumbered(us) == Cons(Use(CStr(rec[2]), call, 0), Nil)
    ensures forall k' :: Needed(v, us, k') <==>
      k' == k && CStr(rec[3]) != "" && TypeFits(EncodeType(CStr(rec[0])), call)
  {
    var u := Use(CStr(rec[2]), call, 0);
    forall k'
      ensures Needed(v, us, k') <==> k' == k && CStr(rec[3]) != "" && TypeFits(EncodeType(CStr(rec[0])), call)
    {
      NeededUnnumbered(v, us, k');
      assert Has(Unnumbered(us), u) && forall w :: Has(Unnumbered(us), w) ==> w == u;
      assert NeededFrom(v, u, 0, k') <==> k' == k && Provides(v, 0, call);
      assert NeededBy(v, u, k') <==> NeededFrom(v, u, 0, k');
    }
  }

  // ---- The program

  /** `read_id_table_file`; `ok` is false where the program ends with an error. */
  method ReadIdTableFile(db: IdDatabase, text: string) returns (rv: int, ok: bool)
    requires db.Valid() && FieldsFit(text)
    modifies db.Repr
    ensures db.Valid() && fresh(db.Repr - old(db.Repr)) && old(db.Repr) <= db.Repr
    ensures var r := ReadText(Parse(old(db.St()), old(db.idv.Rows()), 0, false, old(db.idv.Draft())), text);
      Stands(db, r) && rv == ExitCode(r) && (ok <==> InStep(r.rows))
  {
    var f := new File(text);
    assert f.Rest() == text;
    rv := db.ReadIdTableStream(f);
    ok := db.VerifyIdTable();
  }

  /** The program stands behind the reading of some tables. */
  ghost predicate Stands(db: IdDatabase, p: Parse)
    reads db, db.Repr
  {
    db.Valid() && db.St() == p.st && db.idv.Rows() == p.rows && db.idv.Draft() == p.draft
  }

  lemma StandsView(db: IdDatabase, p: Parse)
    requires Stands(db, p)
    ensures db.View() == TablesOf(p)
  {}

  /** One table more. */
  method NextTableFile(db: IdDatabase, texts: seq<string>, i: nat) returns (rv: int, ok: bool)
    requires i < |texts| && Stands(db, ReadTables(texts[..i])) && FieldsFit(texts[i])
    modifies db.Repr
    ensures Stands(db, ReadTables(texts[..i + 1])) && fresh(db.Repr - old(db.Repr)) && old(db.Repr) <= db.Repr
    ensures rv == ExitCode(ReadTables(texts[..i + 1])) && (ok <==> InStep(ReadTables(texts[..i + 1]).rows))
  {
    assert texts[..i + 1][..i] == texts[..i];
    rv, ok := ReadIdTableFile(db, texts[i]);
  }

  /** The tables in order; the first that fails the check ends the program. */
  method ReadTableFiles(db: IdDatabase, texts: seq<string>) returns (rv: int, ok: bool)
    requires Stands(db, START) && forall i :: 0 <= i < |texts| ==> FieldsFit(texts[i])
    modifies db.Repr
    ensures fresh(db.Repr - old(db.Repr)) && old(db.Repr) <= db.Repr
    ensures ok <==> InStep(ReadTables(texts).rows)
    ensures ok ==> Stands(db, ReadTables(texts)) && rv == ExitCode(ReadTables(texts))
  {
    var i := 0;
    rv := 0;
    while i < |texts|
      invariant i <= |texts| && fresh(db.Repr - old(db.Repr)) && old(db.Repr) <= db.Repr
      invariant Stands(db, ReadTables(texts[..i])) && InStep(ReadTables(texts[..i]).rows)
      invariant rv == ExitCode(ReadTables(texts[..i]))
    {
      rv, ok := NextTableFile(db, texts, i);
      if !ok {
        if InStep(ReadTables(texts).rows) {
          EarlierInStep(texts, i + 1);
        }
        return;
      }
      i := i + 1;
    }
    assert texts[..i] == texts;
    ok := true;
  }

  lemma HoldsPermuted(v: ValidTables, a: seq<IncRef>, b: seq<IncRef>, us: List<Use>)
    requires Holds(v, a, us) && multiset(a) == multiset(b)
    ensures Holds(v, b, us)
  {
    SameRefs(v, a, b);
  }

  /** `incbot_src_file` on one source text, and then all references found so far are printed.  `ok` is false where
      printing would read past an include string. */
  method OneFile(db: IdDatabase, refv: RefVector, text: string, ghost us: List<Use>) returns (ok: bool, out: string)
    requires Apart(db, refv) && Prepared(db.View()) && NamesFit(Uses(text)) && AllHaveEntries(db.View(), Uses(text))
    requires Holds(db.View(), refv.Refs(), us)
    modifies db.Repr, refv, refv.tab
    ensures Apart(db, refv) && fresh(db.Repr - old(db.Repr)) && old(db.Repr) <= db.Repr && db.View() == old(db.View())
    ensures refv.tab == old(refv.tab) || fresh(refv.tab)
    ensures Holds(db.View(), refv.Refs(), us.Plus(Uses(text)))
    ensures ok <==> Prints(db.View(), us.Plus(Uses(text)))
    ensures ok ==> Answer(db.View(), us.Plus(Uses(text)), out)
  {
    ghost var v, refs := db.View(), refv.Refs();
    var f := new File(text);
    assert f.Rest() == text;
    ScanStream(db, refv, f);
    HoldsMore(v, refs, us, Uses(text));
    ghost var found := refv.Refs();
    ok, out := ShowIncludes(db, refv);
    HoldsPermuted(v, found, refv.Refs(), us.Plus(Uses(text)));
    PrintsExact(v, refv.Refs(), us.Plus(Uses(text)));
    if ok {
      SortedAnswer(v, refv.Refs(), us.Plus(Uses(text)));
    }
  }

  /** The text printed after each source text answers for it and for all before it. */
  ghost predicate Answered(v: ValidTables, texts: seq<string>, outs: seq<string>) {
    |outs| <= |texts| && forall i :: 0 <= i < |outs| ==> Answer(v, AllUses(texts[..i + 1]), outs[i])
  }

  ghost predicate AllWordsFit(texts: seq<string>) {
    forall i :: 0 <= i < |texts| ==> NamesFit(Uses(texts[i]))
  }

  /** Where the loop over the files stands. */
  ghost predicate Progress(v: Tables, refs: seq<IncRef>, texts: seq<string>, outs: seq<string>) {
    && Prepared(v) && |outs| <= |texts|
    && Answered(v, texts, outs)
      && Holds(v, refs, AllUses(texts[..|outs|]))
      && Prints(v, AllUses(texts[..|outs|]))
  }

  /** The lookups up to and including the next text. */
  ghost function Next(texts: seq<string>, n: nat): List<Use>
    requires n < |texts|
  {
    AllUses(texts[..n]).Plus(Uses(texts[n]))
  }

  lemma NextUses(texts: seq<string>, n: nat)
    requires n < |texts|
    ensures AllUses(texts[..n + 1]) == Next(texts, n)
  {
    assert texts[..n + 1][..n] == texts[..n];
  }

  lemma ProgressMore(v: Tables, refs: seq<IncRef>, texts: seq<string>, outs: seq<string>,
                     refs': seq<IncRef>, out: string)
    requires Progress(v, refs, texts, outs) && |outs| < |texts|
    requires var us := Next(texts, |outs|); Answer(v, us, out) && Holds(v, refs', us) && Prints(v, us)
    ensures Progress(v, refs', texts, outs + [out])
  {
    NextUses(texts, |outs|);
  }

  /** What the loop over the files prints: everything, or everything before the first text for which
      something is needed that cannot be printed. */
  ghost predicate Outcome(v: ValidTables, texts: seq<string>, ok: bool, outs: seq<string>) {
    && Answered(v, texts, outs)
    && (ok <==> Prints(v, AllUses(texts)))
    && (if ok then |outs| == |texts| else |outs| < |texts| && !Prints(v, AllUses(texts[..|outs| + 1])))
  }

  lemma ProgressFails(v: Tables, refs: seq<IncRef>, texts: seq<string>, outs: seq<string>)
    requires Progress(v, refs, texts, outs) && |outs| < |texts| && !Prints(v, Next(texts, |outs|))
    ensures Outcome(v, texts, false, outs)
  {
    NextUses(texts, |outs|);
    var k :| Needed(v, Next(texts, |outs|), k) && !KeyOk(v, k);
    NeededEarlier(v, texts, |outs| + 1, k);
  }

  lemma {:induction false} EntriesAt(v: ValidTables, texts: seq<string>, i: nat)
    requires AllHaveEntries(v, AllUses(texts)) && i < |texts|
    ensures AllHaveEntries(v, Uses(texts[i]))
  {
    var init := texts[..|texts| - 1];
    EntriesPlus(v, AllUses(init), Uses(texts[|texts| - 1]));
    if i < |init| {
      EntriesAt(v, init, i);
    }
  }

  lemma {:induction false} EntriesPlus(v: ValidTables, a: List<Use>, b: List<Use>)
    requires AllHaveEntries(v, a.Plus(b))
    ensures AllHaveEntries(v, a) && AllHaveEntries(v, b)
    decreases a
  {
    if a.Cons? {
      EntriesPlus(v, a.tail, b);
    }
  }

  /** `incbot_all_files` */
  method AllFiles(db: IdDatabase, refv: RefVector, texts: seq<string>) returns (ok: bool, outs: seq<string>)
    requires Apart(db, refv) && Prepared(db.View()) && refv.Refs() == [] && AllWordsFit(texts)
    requires AllHaveEntries(db.View(), AllUses(texts))
    modifies db.Repr, refv, refv.tab
    ensures db.Valid() && db.View() == old(db.View())
    ensures Outcome(db.View(), texts, ok, outs)
  {
    ok, outs := true, [];
    HoldsNothing(db.View());
    while |outs| < |texts|
      invariant Apart(db, refv) && fresh(db.Repr - old(db.Repr)) && old(db.Repr) <= db.Repr
      invariant db.View() == old(db.View()) && (refv.tab == old(refv.tab) || fresh(refv.tab))
      invariant ok && Progress(db.View(), refv.Refs(), texts, outs)
      decreases |texts| - |outs|
    {
      ghost var refs := refv.Refs();
      EntriesAt(db.View(), texts, |outs|);
      var out;
      ok, out := OneFile(db, refv, texts[|outs|], AllUses(texts[..|outs|]));
      if !ok {
        ProgressFails(db.View(), refs, texts, outs);
        return;
      }
      ProgressMore(db.View(), refs, texts, outs, refv.Refs(), out);
      outs := outs + [out];
    }
    assert texts[..|texts|] == texts;
  }

  /** The tables behind the reading of some texts. */
  ghost function TablesAfter(texts: seq<string>): (v: Tables)
    ensures v == TablesOf(ReadTables(texts)) && Prepared(v)
  {
    TablesPrepared(texts);
    TablesOf(ReadTables(texts))
  }

  /** The tables named by options, or else the default table; if they are not accepted, the program ends. */
  method UseTables(options: seq<string>, default_: string) returns (db: IdDatabase, accepted: bool)
    requires FieldsFit(default_) && forall i :: 0 <= i < |options| ==> FieldsFit(options[i])
    ensures accepted <==> Accepted(options, default_)
    ensures accepted ==> db.Valid() && fresh(db.Repr)
    ensures accepted ==> db.View() == TablesAfter(if options != [] then options else [default_])
  {
    var used := if options != [] then options else [default_];
    db := new IdDatabase();
    var rv, ok := ReadTableFiles(db, used);
    accepted := ok && (options == [] ==> rv == 0);
    if accepted {
      StandsView(db, ReadTables(used));
    }
  }

  /** The default table leaves no identifier without its entry. */
  lemma DefaultReached(t: string, us: List<Use>)
    requires WellFormedTable(t)
    ensures AllHaveEntries(TablesAfter([t]), us)
  {
    DefaultExact(t);
    ReadOne(t);
    OneTableGood(t);
    GoodReached([t], us);
  }

  /** The program from table texts and source texts to printed texts.  Any number of tables may be named
      by options, and all of them are used; the default table is used where none is.  Tables named by
      options may leave identifiers whose entries were never written, which the source texts may not use. */
  method Run(options: seq<string>, default_: string, texts: seq<string>)
    returns (accepted: bool, ok: bool, outs: seq<string>)
    requires FieldsFit(default_) && (forall i :: 0 <= i < |options| ==> FieldsFit(options[i])) && AllWordsFit(texts)
    requires options != [] && InStep(ReadTables(options).rows) ==>
      AllHaveEntries(TablesAfter(options), AllUses(texts))
    ensures options != [] ==> (accepted <==> InStep(ReadTables(options).rows))
    ensures options != [] && accepted ==> Outcome(TablesAfter(options), texts, ok, outs)
    ensures options == [] ==> (accepted <==> WellFormedTable(default_))
    ensures options == [] && accepted ==> Outcome(TablesAfter([default_]), texts, ok, outs)
  {
    ok, outs := false, [];
    var db;
    db, accepted := UseTables(options, default_);
    DefaultExact(default_);
    if accepted {
      if options == [] {
        DefaultReached(default_, AllUses(texts));
      }
      var refv := new RefVector();
      ok, outs := AllFiles(db, refv, texts);
    }
  }
}
