/** What the symbol table means: an append-only list of names, slot 0 reserved,
    searched from slot 1 and extended only by names it does not hold yet. */
module Interning {

  /** The first slot from `k` on that holds `s`, or 0. */
  function LookupFrom(names: seq<string>, s: string, k: nat): (r: nat)
    requires 1 <= k <= |names|
    ensures r != 0 ==> k <= r < |names| && names[r] == s
    decreases |names| - k
  {
    if k == |names| then 0
    else if names[k] == s then k
    else LookupFrom(names, s, k + 1)
  }

  function Lookup(names: seq<string>, s: string): (r: nat)
    requires |names| >= 1
    ensures r != 0 ==> r < |names| && names[r] == s
  {
    LookupFrom(names, s, 1)
  }

  lemma {:induction false} LookupFromFirst(names: seq<string>, s: string, k: nat, j: nat)
    requires 1 <= k <= j < |names| && names[j] == s
    ensures 0 < LookupFrom(names, s, k) <= j
    decreases |names| - k
  {
    if names[k] != s {
      LookupFromFirst(names, s, k + 1, j);
    }
  }

  /** `Lookup` finds a name exactly when the table holds it, and then its first slot. */
  lemma LookupFirst(names: seq<string>, s: string, j: nat)
    requires 1 <= j < |names| && names[j] == s
    ensures 0 < Lookup(names, s) <= j
  {
    LookupFromFirst(names, s, 1, j);
  }

  /** No name is held twice. */
  ghost predicate Distinct(names: seq<string>) {
    forall i, j :: 1 <= i < j < |names| ==> names[i] != names[j]
  }

  /** The table and the number after `s` is added. */
  function Intern(names: seq<string>, s: string): (r: (seq<string>, nat))
    requires |names| >= 1
    ensures names <= r.0 && 0 < r.1 < |r.0| && r.0[r.1] == s
  {
    var k := Lookup(names, s);
    if k != 0 then (names, k) else (names + [s], |names|)
  }

  lemma InternDistinct(names: seq<string>, s: string)
    requires |names| >= 1 && Distinct(names)
    ensures Distinct(Intern(names, s).0)
  {
    if j: nat :| 1 <= j < |names| && names[j] == s {
      LookupFirst(names, s, j);
    }
  }

  /** Adding `ss` in order: the table, and the number each string was given. */
  function InternAll(names: seq<string>, ss: seq<string>): (r: (seq<string>, seq<nat>))
    requires |names| >= 1
    ensures names <= r.0 && |r.1| == |ss|
    ensures forall i :: 0 <= i < |ss| ==> r.1[i] < |r.0|
  {
    if ss == [] then (names, [])
    else
      var (names', nrs) := InternAll(names, ss[..|ss| - 1]);
      var (names'', nr) := Intern(names', ss[|ss| - 1]);
      (names'', nrs + [nr])
  }

  lemma LookupSnoc(names: seq<string>, t: string, s: string)
    requires |names| >= 1
    ensures Lookup(names + [t], s)
         == if Lookup(names, s) != 0 then Lookup(names, s) else if t == s then |names| else 0
  {
    var names' := names + [t];
    var r, l := Lookup(names', s), Lookup(names, s);
    if l != 0 {
      LookupFirst(names', s, l);
    }
    if 0 < r < |names| {
      LookupFirst(names, s, r);
    }
    if t == s {
      LookupFirst(names', s, |names|);
    }
  }

  /** In a table of distinct names a slot is found by its name and by nothing else. */
  lemma LookupUnique(names: seq<string>, k: nat)
    requires Distinct(names) && 1 <= k < |names|
    ensures Lookup(names, names[k]) == k
  {
    LookupFirst(names, names[k], k);
  }

  /** Interned numbers are faithful and stable, whatever is added before, between and after:
      every string reads back from its number, two strings share a number exactly when
      they are equal, and no name already in the table moves. */
  lemma {:induction false} InternAllFaithful(names: seq<string>, ss: seq<string>)
    requires |names| >= 1 && Distinct(names)
    ensures var (names', nrs) := InternAll(names, ss);
      && Distinct(names')
      && (forall i :: 0 <= i < |ss| ==> 0 < nrs[i] < |names'| && names'[nrs[i]] == ss[i])
      && (forall i, j :: 0 <= i < |ss| && 0 <= j < |ss| ==> (nrs[i] == nrs[j] <==> ss[i] == ss[j]))
  {
    if ss != [] {
      var init := ss[..|ss| - 1];
      InternAllFaithful(names, init);
      var (names', nrs) := InternAll(names, init);
      var (names'', nr) := Intern(names', ss[|ss| - 1]);
      InternDistinct(names', ss[|ss| - 1]);
      assert forall i :: 0 <= i < |init| ==> names''[nrs[i]] == ss[i];
    }
  }

  /** Number `k` is given out at position `i`, after smaller numbers only. */
  ghost predicate FirstGiven(nrs: seq<nat>, i: nat, k: nat) {
    i < |nrs| && nrs[i] == k && forall h :: 0 <= h < i ==> nrs[h] < k
  }

  /** The new numbers are dense and follow the order of first insertion: each new number
      was given to some string, and only smaller numbers were given before. */
  lemma {:induction false} InternAllDense(names: seq<string>, ss: seq<string>, k: nat)
    requires |names| >= 1
    requires |names| <= k < |InternAll(names, ss).0|
    ensures exists i :: FirstGiven(InternAll(names, ss).1, i, k)
  {
    if ss != [] {
      var init := ss[..|ss| - 1];
      var (names', nrs) := InternAll(names, init);
      if k < |names'| {
        InternAllDense(names, init, k);
        var i :| FirstGiven(nrs, i, k);
        assert FirstGiven(InternAll(names, ss).1, i, k);
      } else {
        assert FirstGiven(InternAll(names, ss).1, |init|, k);
      }
    }
  }
}
