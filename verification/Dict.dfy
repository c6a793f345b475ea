/** The symbol dictionary: strings in fixed-size segments that never move, found
    through the hash index or by a plain scan.  Every method is proved against
    `Interning` on the list of names, `names`. */
module Dict {
  import opened Interning
  import opened HashIndex

  const SEGMENT_SIZE: nat := 1024
  const OVFL_SEGMENT_SIZE: nat := 256

  /** `char *`: a string or a null pointer. */
  datatype CharPtr = Null | Ptr(str: string)

  /** Always true.  `forall k :: Opened(k) ==> P` means `P`, but the solver looks at `P` only where a
      proof mentions `Opened`: the heap shape below would otherwise come up in every proof about a
      dictionary. */
  ghost predicate Opened(k: int) {
    true
  }

  class HashMap {
    var tbl: array<Bucket>
    var ovfl: array?<Ovfl>
    var ovfl_sz: nat
    var ovfl_len: nat  // not meaningful before `ovfl` is allocated

    ghost predicate Valid()
      reads this, ovfl
    {
      && tbl.Length > 0
      && (ovfl != null ==> ovfl.Length == ovfl_sz && 1 <= ovfl_len <= ovfl_sz)
    }

    ghost function View(): Index
      requires Valid()
      reads this, tbl, ovfl
    {
      Index(tbl[..], if ovfl == null then [] else ovfl[..ovfl_len])
    }

    /** `hashmap_new(0)` */
    constructor ()
      ensures Valid() && fresh(tbl) && ovfl == null
      ensures View() == Index(seq(INIT_SIZE, _ => EMPTY_BUCKET), [])
    {
      tbl := new Bucket[INIT_SIZE](_ => EMPTY_BUCKET);
      ovfl := null;
      ovfl_sz := 0;
      ovfl_len := 0;
    }

    /** `append_ovfl`: one more unlinked entry; grown or not, no earlier entry changes. */
    method AppendOvfl(symnr: nat) returns (entnr: nat)
      requires Valid()
      modifies this, ovfl
      ensures Valid() && tbl == old(tbl) && ovfl != null && (ovfl == old(ovfl) || fresh(ovfl))
      ensures View().tbl == old(View().tbl)
      ensures View().ovfl == Allocated(old(View().ovfl)) + [Ovfl(symnr, 0)]
      ensures entnr == |View().ovfl| - 1
    {
      if ovfl == null {
        ovfl := new Ovfl[OVFL_SEGMENT_SIZE](_ => Ovfl(0, 0));
        ovfl_sz := OVFL_SEGMENT_SIZE;
        ovfl_len := 1;
      } else if ovfl_len >= ovfl_sz {
        var grown := new Ovfl[ovfl_sz + OVFL_SEGMENT_SIZE](i requires 0 <= i reads this, ovfl =>
          if ovfl != null && i < ovfl.Length then ovfl[i] else Ovfl(0, 0));
        ovfl := grown;
        ovfl_sz := ovfl_sz + OVFL_SEGMENT_SIZE;
      }
      entnr := ovfl_len;
      ovfl[entnr] := Ovfl(symnr, 0);
      ovfl_len := ovfl_len + 1;
    }

    /** The walk of `dict_symnr_add_hash` along a chain: the number is on it, or its last entry. */
    method FindInChainNr(ovfl: array<Ovfl>, ghost entries: seq<Ovfl>, chain: nat, symnr: nat)
      returns (found: bool, e: nat)
      requires LinksAscend(entries) && 0 < chain < |entries|
      requires |entries| <= ovfl.Length && ovfl[..|entries|] == entries
      ensures found <==> ChainSyms(entries, chain).Has(symnr)
      ensures !found ==> 0 < e < |entries| && entries[e].next == 0 && OnChain(entries, chain, e)
    {
      e := chain;
      if ovfl[e].symnr == symnr {
        return true, e;
      }
      while ovfl[e].next != 0
        invariant 0 < e < |entries| && OnChain(entries, chain, e)
        invariant ChainSyms(entries, chain).Has(symnr)
             <==> entries[e].next != 0 && ChainSyms(entries, entries[e].next).Has(symnr)
        decreases |entries| - e
      {
        OnChainNext(entries, chain, e);
        e := ovfl[e].next;
        if ovfl[e].symnr == symnr {
          return true, e;
        }
      }
      found := false;
    }

    /** `dict_symnr_add_hash` below the name: files the one number that is not filed yet,
        and leaves any other alone. */
    method File(symnr: nat, h: nat, ghost hash: HashFn, ghost names: seq<string>, ghost n: nat)
      requires Valid() && Indexes(hash, View(), names, n)
      requires 0 < symnr <= n && symnr < |names| && h == hash(names[symnr])
      modifies this, tbl, ovfl
      ensures Valid() && tbl == old(tbl) && (ovfl == old(ovfl) || (ovfl != null && fresh(ovfl)))
      ensures Indexes(hash, View(), names, if symnr == n then n + 1 else n)
      ensures symnr < n ==> View() == old(View())
    {
      var bktnr := h % tbl.Length;
      var bkt := tbl[bktnr];
      ghost var m := View();
      assert bktnr == BucketOf(hash, names[symnr], |m.tbl|) && bkt == m.tbl[bktnr];
      FiledBefore(hash, m, names, n, symnr, bktnr);
      var entnr := StopSlot(bkt, symnr);
      if entnr < ASSOCIATIVITY {
        if bkt.Ent(entnr).symnr == 0 {
          FileInSlot(hash, m, names, n);
          tbl[bktnr] := bkt.WithEnt(entnr, HashEnt(h, symnr));
          assert View().tbl == m.tbl[bktnr := bkt.WithEnt(entnr, HashEnt(h, symnr))];
        }
        return;
      }
      var found, e := false, 0;
      if bkt.chain != 0 {
        found, e := FindInChainNr(ovfl, m.ovfl, bkt.chain, symnr);
      }
      ContentHas(bkt, m.ovfl, symnr);
      if !found {
        FileOverflow(symnr, bktnr, e);
        FileInAllocated(hash, m, names, n, bktnr, e);
      }
    }

    /** The slot loop: it stops at the number itself or at the first free slot. */
    method StopSlot(bkt: Bucket, symnr: nat) returns (entnr: nat)
      requires symnr != 0 && (bkt.ent0.symnr == 0 ==> bkt.ent1.symnr == 0)
      ensures entnr <= FreeSlot(bkt)
      ensures entnr < FreeSlot(bkt) ==> bkt.Ent(entnr).symnr == symnr
      ensures entnr == FreeSlot(bkt) ==> bkt.ent0.symnr != symnr && bkt.ent1.symnr != symnr
    {
      entnr := 0;
      while entnr < ASSOCIATIVITY
        invariant entnr <= FreeSlot(bkt)
        invariant entnr > 0 ==> bkt.ent0.symnr != symnr
        invariant entnr > 1 ==> bkt.ent1.symnr != symnr
      {
        if bkt.Ent(entnr).symnr == 0 || bkt.Ent(entnr).symnr == symnr {
          return;
        }
        entnr := entnr + 1;
      }
    }

    /** `append_ovfl`, and the link to the new entry: behind entry `e`, or from the bucket. */
    method FileOverflow(symnr: nat, bktnr: nat, e: nat)
      requires Valid() && bktnr < tbl.Length && LinksAscend(View().ovfl)
      requires e == 0 || e < |View().ovfl|
      modifies this, tbl, ovfl
      ensures Valid() && tbl == old(tbl) && ovfl != null && (ovfl == old(ovfl) || fresh(ovfl))
      ensures View() == InOvfl(WithAllocated(old(View())), bktnr, e, symnr)
    {
      var entnr := AppendOvfl(symnr);
      if e == 0 {
        tbl[bktnr] := tbl[bktnr].(chain := entnr);
      } else {
        ovfl[e] := ovfl[e].(next := entnr);
      }
    }
  }

  class Dict {
    /** The hash function; nothing here depends on which one it is. */
    const hash: HashFn

    ghost var names: seq<string>
    ghost var index: Index
    ghost var Repr: set<object>

    var sv: seq<array<string>>
    var sz: nat
    var len: nat
    var hashtable: HashMap?

    /** The segments hold `names`. */
    ghost predicate ValidNames()
      reads this, Repr
    {
      && this in Repr
      && (forall k :: 0 <= k < |sv| ==> sv[k] in Repr && sv[k].Length == SEGMENT_SIZE)
      && (forall j, k :: 0 <= j < k < |sv| ==> sv[j] != sv[k])
      && sz == SEGMENT_SIZE * |sv|
      && 1 <= len == |names| <= sz
      && (forall k, o :: 0 <= k < |sv| && 0 <= o < SEGMENT_SIZE && k * SEGMENT_SIZE + o < len ==>
            sv[k][o] == names[k * SEGMENT_SIZE + o])
    }

    /** The hash index, once allocated, files the first `n` names. */
    ghost predicate ValidIndex(n: nat)
      reads this, Repr
    {
      && (hashtable == null ==> n == 1)
      && (hashtable != null ==>
            && hashtable in Repr && hashtable.tbl in Repr
            && (hashtable.ovfl != null ==> hashtable.ovfl in Repr)
            && hashtable.Valid()
            && hashtable.View() == index
            && Indexes(hash, index, names, n))
    }

    ghost predicate Consistent()
      reads this, Repr
    {
      ValidNames() && ValidIndex(len) && Distinct(names)
    }

    /** What holds between calls: every name is in the index. */
    ghost predicate Valid()
      reads this, Repr
      ensures Valid() ==> this in Repr
    {
      this in Repr && 1 <= len == |names| && forall k :: Opened(k) ==> Consistent()
    }

    /** `dict_new`: number 0 is reserved, so no search ever compares its name. */
    constructor (hash: HashFn)
      ensures Valid() && fresh(Repr)
      ensures names == ["*POISON*"] && this.hash == hash
    {
      this.hash := hash;
      var seg := new string[SEGMENT_SIZE](_ => "");
      seg[0] := "*POISON*";
      sv := [seg];
      sz := SEGMENT_SIZE;
      len := 1;
      hashtable := null;
      names := ["*POISON*"];
      Repr := {this, seg};
    }

    /** `dict_getname_nr` */
    method GetNameNr(symnr: nat) returns (name: CharPtr)
      requires ValidNames()
      requires symnr < len
      ensures name == if symnr == 0 then Null else Ptr(names[symnr])
    {
      var sym_seg := symnr / SEGMENT_SIZE;
      var sym_off := symnr - sym_seg * SEGMENT_SIZE;
      var entv := sv[sym_seg];
      if symnr == 0 {
        return Null;
      }
      return Ptr(entv[sym_off]);
    }

    /** `dict_find_linear` */
    method FindLinear(s: string) returns (symnr: nat)
      requires Valid()
      ensures symnr == Lookup(names, s)
    {
      assert Opened(0);
      symnr := 1;
      while symnr < len
        invariant 1 <= symnr <= len
        invariant Lookup(names, s) == LookupFrom(names, s, symnr)
      {
        var sym_seg := symnr / SEGMENT_SIZE;
        var sym_off := symnr - sym_seg * SEGMENT_SIZE;
        var entv := sv[sym_seg];
        if s == entv[sym_off] {
          return;
        }
        symnr := symnr + 1;
      }
      return 0;
    }

    /** The index is allocated on first use. */
    method NeedHashMap()
      requires Valid()
      modifies this
      ensures Valid() && fresh(Repr - old(Repr)) && old(Repr) <= Repr
      ensures names == old(names) && hashtable != null
    {
      assert Opened(0);
      if hashtable == null {
        var map_ := new HashMap();
        hashtable := map_;
        Repr := Repr + {map_, map_.tbl};
        index := map_.View();
        EmptyIndexes(hash, names);
      }
    }

    /** `dict_find_hash` without upsert: one bucket and its chain find what a scan finds. */
    method FindHash(s: string) returns (symnr: nat)
      requires Valid()
      modifies this
      ensures Valid() && fresh(Repr - old(Repr)) && old(Repr) <= Repr
      ensures names == old(names) && hashtable != null
      ensures symnr == Lookup(names, s)
    {
      assert Opened(0);
      NeedHashMap();
      symnr := FindInIndex(s);
    }

    method FindInIndex(s: string) returns (symnr: nat)
      requires Valid() && hashtable != null
      ensures symnr == Lookup(names, s)
    {
      assert Opened(0);
      var h := hash(s);
      var bktnr := h % hashtable.tbl.Length;
      var bkt := hashtable.tbl[bktnr];
      assert bktnr == BucketOf(hash, s, |index.tbl|) && bkt == index.tbl[bktnr];
      FindAgreesWithScan(hash, names, |index.tbl|, s);
      assert Holds(hash, bkt, index.ovfl, names, Members(hash, names, len, |index.tbl|, bktnr));
      var found;
      found, symnr := FindInSlots(s, h, bkt, index.ovfl);
      if !found {
        EntriesFiled(hash, index, names, len);
        symnr := FindInChain(s, hashtable.ovfl, index.ovfl, bkt.chain);
      }
    }

    /** The loop over the two slots of a bucket: found, certainly absent, or go on with the chain. */
    method FindInSlots(s: string, h: nat, bkt: Bucket, ghost ovfl: seq<Ovfl>) returns (done: bool, symnr: nat)
      requires ValidNames() && h == hash(s)
      requires Link(ovfl, bkt.chain) && Holds(hash, bkt, ovfl, names, Content(bkt, ovfl))
      ensures done ==> symnr == FirstMatch(Content(bkt, ovfl), names, s)
      ensures !done ==> bkt.chain != 0
      ensures !done ==> FirstMatch(Content(bkt, ovfl), names, s) == FirstMatch(ChainSyms(ovfl, bkt.chain), names, s)
    {
      var entnr := 0;
      while entnr < ASSOCIATIVITY
        invariant entnr <= ASSOCIATIVITY
        invariant entnr > 0 ==> bkt.ent0.symnr != 0
        invariant entnr > 1 ==> bkt.ent1.symnr != 0
        invariant FirstMatch(Content(bkt, ovfl), names, s) == FirstMatch(ContentFrom(bkt, ovfl, entnr), names, s)
      {
        symnr := bkt.Ent(entnr).symnr;
        if symnr == 0 {
          return true, 0;
        }
        if h == bkt.Ent(entnr).h {
          var sym := GetNameNr(symnr);
          if sym != Null && s == sym.str {
            return true, symnr;
          }
        }
        entnr := entnr + 1;
      }
      if bkt.chain == 0 {
        return true, 0;
      }
      return false, 0;
    }

    /** The walk along one overflow chain; the links ascend, so it ends. */
    method FindInChain(s: string, ovfl: array<Ovfl>, ghost entries: seq<Ovfl>, chain: nat) returns (symnr: nat)
      requires ValidNames() && LinksAscend(entries) && 0 < chain < |entries|
      requires |entries| <= ovfl.Length && ovfl[..|entries|] == entries
      requires forall e :: 0 < e < |entries| ==> 0 < entries[e].symnr < len
      ensures symnr == FirstMatch(ChainSyms(entries, chain), names, s)
    {
      var e := chain;
      symnr := ovfl[e].symnr;
      var sym := GetNameNr(symnr);
      if sym != Null && s == sym.str {
        return;
      }
      while ovfl[e].next != 0
        invariant 0 < e < |entries|
        invariant FirstMatch(ChainSyms(entries, chain), names, s)
               == if entries[e].next == 0 then 0 else FirstMatch(ChainSyms(entries, entries[e].next), names, s)
        decreases |entries| - e
      {
        e := ovfl[e].next;
        symnr := ovfl[e].symnr;
        sym := GetNameNr(symnr);
        if sym != Null && s == sym.str {
          return;
        }
      }
      return 0;
    }

    /** `dict_find`: the two searches never disagree, so the abort is never reached. */
    method Find(s: string) returns (symnr: nat)
      requires Valid()
      modifies this
      ensures Valid() && fresh(Repr - old(Repr)) && old(Repr) <= Repr
      ensures names == old(names) && hashtable != null
      ensures symnr == Lookup(names, s)
    {
      assert Opened(0);
      NeedHashMap();
      var hsymnr := FindHash(s);
      var lsymnr := FindLinear(s);
      if hsymnr != lsymnr {
        assert false;
      }
      return hsymnr;
    }

    /** `dict_grow`: one more segment; no name moves. */
    method Grow()
      requires ValidNames()
      modifies this`sv, this`sz, this`Repr
      ensures ValidNames() && fresh(Repr - old(Repr)) && old(Repr) <= Repr
      ensures sz == old(sz) + SEGMENT_SIZE
    {
      var seg := new string[SEGMENT_SIZE](_ => "");
      sv := sv + [seg];
      sz := sz + SEGMENT_SIZE;
      Repr := Repr + {seg};
    }

    /** The new name goes into the first free slot; every other slot stays. */
    method StoreName(s: string)
      requires ValidNames() && len < sz
      modifies this`len, this`names, sv[len / SEGMENT_SIZE]
      ensures ValidNames() && names == old(names) + [s]
    {
      var sym_seg := len / SEGMENT_SIZE;
      var sym_off := len - sym_seg * SEGMENT_SIZE;
      var entv := sv[sym_seg];
      entv[sym_off] := s;
      len := len + 1;
      names := names + [s];
    }

    /** `dict_append_symbol`: the index does not know the new name yet. */
    method AppendSymbol(s: string) returns (symnr: nat)
      requires ValidNames() && ValidIndex(len)
      modifies Repr
      ensures ValidNames() && ValidIndex(len - 1) && fresh(Repr - old(Repr)) && old(Repr) <= Repr
      ensures names == old(names) + [s] && symnr == old(len) && hashtable == old(hashtable)
    {
      if hashtable != null {
        IndexesLonger(hash, index, names, names + [s], len);
      }
      symnr := len;
      if symnr >= sz {
        Grow();
      }
      StoreName(s);
    }

    /** `dict_symnr_add_hash` */
    method SymnrAddHash(symnr: nat, ghost n: nat)
      requires ValidNames() && ValidIndex(n) && hashtable != null
      requires 0 < symnr <= n <= len && symnr < len
      modifies this`index, this`Repr, hashtable, hashtable.tbl, hashtable.ovfl
      ensures ValidNames() && ValidIndex(if symnr == n then n + 1 else n)
      ensures fresh(Repr - old(Repr)) && old(Repr) <= Repr
      ensures symnr < n ==> index == old(index)
    {
      var sym := GetNameNr(symnr);
      var h := hash(sym.str);
      hashtable.File(symnr, h, hash, names, n);
      index := hashtable.View();
      if hashtable.ovfl != null {
        Repr := Repr + {hashtable.ovfl};
      }
    }

    /** `dict_add` for a name that was not found: appended, then filed. */
    method AddNew(s: string) returns (symnr: nat)
      requires Valid() && hashtable != null && Lookup(names, s) == 0
      modifies Repr
      ensures Valid() && fresh(Repr - old(Repr)) && old(Repr) <= Repr
      ensures names == old(names) + [s] && symnr == |old(names)|
    {
      assert Opened(0);
      InternDistinct(names, s);
      symnr := AppendSymbol(s);
      SymnrAddHash(symnr, symnr);
    }

    /** `dict_add`: interning. */
    method Add(s: string) returns (symnr: nat)
      requires Valid()
      modifies Repr
      ensures Valid() && fresh(Repr - old(Repr)) && old(Repr) <= Repr
      ensures (names, symnr) == Intern(old(names), s)
    {
      symnr := Find(s);
      if symnr == 0 {
        symnr := AddNew(s);
      } else {
        assert Opened(0);
        SymnrAddHash(symnr, len);
      }
    }
  }
}
