/** The 32-bit hash of the symbol table, and why one changed character always
    changes it: every update of the hash loop is an injection of the 32-bit state.
    The wrap-around of `uint32_t` is written out as `% MOD`. */
module Hash {

  const MOD: int := 0x1_0000_0000

  type uint32 = n: int | 0 <= n < 0x1_0000_0000

  /** Exclusive or of the binary digits. */
  function Xor(a: nat, b: nat): (r: nat)
    ensures r == 0 <==> a == b
  {
    if a == 0 && b == 0 then 0
    else 2 * Xor(a / 2, b / 2) + (if a % 2 == b % 2 then 0 else 1)
  }

  /** `h >> k` */
  function Shr(h: nat, k: nat): (r: nat)
    ensures r <= h
    ensures k > 0 && h > 0 ==> r < h
  {
    if k == 0 then h else Shr(h / 2, k - 1)
  }

  function Pow2(n: nat): nat {
    if n == 0 then 1 else 2 * Pow2(n - 1)
  }

  lemma {:induction false} XorBelow(a: nat, b: nat, n: nat)
    requires a < Pow2(n) && b < Pow2(n)
    ensures Xor(a, b) < Pow2(n)
  {
    if n > 0 {
      XorBelow(a / 2, b / 2, n - 1);
    }
  }

  lemma Pow2Of32()
    ensures Pow2(32) == MOD
  {
    assert Pow2(8) == 0x100;
    assert Pow2(16) == 0x1_0000;
    assert Pow2(24) == 0x100_0000;
  }

  /** `h + (h << k)` modulo 2^32, with `m` for 1 + 2^k. */
  function Times(h: uint32, m: nat): uint32 {
    h * m % MOD
  }

  /** One character added: `h += c`. */
  function Plus(h: uint32, k: uint32): uint32 {
    (h + k) % MOD
  }

  /** `h ^ (h >> k)` */
  function XorShr(h: uint32, k: nat): uint32 {
    Pow2Of32();
    XorBelow(h, Shr(h, k), 32);
    Xor(h, Shr(h, k))
  }

  /** `s[i]` as it is added to a `uint32_t`: a signed 8-bit `char`, sign-extended. */
  function CharBits(c: char): uint32 {
    (if c as int < 128 then c as int else c as int - 256) % MOD
  }

  /** One round of the loop. */
  function Absorb(h: uint32, c: char): uint32 {
    XorShr(Times(Plus(h, CharBits(c)), 1025), 6)
  }

  /** The state after every character of `s`. */
  function State(s: string): uint32 {
    if s == "" then 0 else Absorb(State(s[..|s| - 1]), s[|s| - 1])
  }

  /** The mix after the loop. */
  function Finish(h: uint32): uint32 {
    Times(XorShr(Times(h, 9), 11), 32769)
  }

  function HashSymbol(s: string): (h: nat)
    ensures h < MOD
  {
    Finish(State(s))
  }

  /** `hash_symbol`: the loop computes `HashSymbol`. */
  method ComputeHash(s: string) returns (h: nat)
    ensures h == HashSymbol(s)
  {
    var hash: uint32 := 0;
    var i := 0;
    while i < |s|
      invariant i <= |s| && hash == State(s[..i])
    {
      assert s[..i + 1][..i] == s[..i];
      hash := Plus(hash, CharBits(s[i]));
      hash := Times(hash, 1025);  // hash + (hash << 10)
      hash := XorShr(hash, 6);
      i := i + 1;
    }
    assert s[..i] == s;
    hash := Times(hash, 9);  // hash + (hash << 3)
    hash := XorShr(hash, 11);
    hash := Times(hash, 32769);  // hash + (hash << 15)
    h := hash;
  }

  // ---- What the updates compute

  lemma ShrByThree(h: nat, k: nat)
    ensures Shr(h, k + 3) == Shr(h / 8, k)
  {
    assert Shr(h, k + 3) == Shr(h / 2, k + 2) == Shr(h / 2 / 2, k + 1) == Shr(h / 2 / 2 / 2, k);
  }

  /** Shifts to the right are quotients by powers of two. */
  lemma ShrBySix(h: nat)
    ensures Shr(h, 6) == h / 64
  {
    ShrByThree(h, 3);
    ShrByThree(h / 8, 0);
    Eighths(h);
  }

  lemma ShrByEleven(h: nat)
    ensures Shr(h, 11) == h / 2048
  {
    ShrByThree(h, 8);
    ShrByThree(h / 8, 5);
    Eighths(h);
    ShrByThree(h / 64, 2);
    assert Shr(h / 64 / 8, 2) == Shr(h / 64 / 8 / 2, 1) == h / 64 / 8 / 2 / 2;
    Quarters(h / 64);
  }

  lemma Eighths(h: nat)
    ensures h / 8 / 8 == h / 64
  {}

  lemma Quarters(h: nat)
    ensures h / 8 / 2 / 2 == h / 32
  {}

  /** Digit `n` of the binary representation. */
  function Digit(h: nat, n: nat): nat {
    if n == 0 then h % 2 else Digit(h / 2, n - 1)
  }

  /** Each binary digit of an exclusive or is set exactly where the digits differ. */
  lemma {:induction false} XorExact(a: nat, b: nat, n: nat)
    ensures Digit(Xor(a, b), n) == if Digit(a, n) == Digit(b, n) then 0 else 1
  {
    assert a == 0 && b == 0 ==> Xor(a / 2, b / 2) == 0;
    if n > 0 {
      XorExact(a / 2, b / 2, n - 1);
    }
  }

  lemma TimesExact(h: uint32, m: nat)
    ensures Times(h, 1 + m) == (h + h * m % MOD) % MOD
  {
    assert h * (1 + m) == h + h * m;
    var q := h * m / MOD;
    assert h + h * m == h + h * m % MOD + q * MOD;
    RemainderUnique(h + h * m, q + (h + h * m % MOD) / MOD, (h + h * m % MOD) % MOD);
  }

  /** `h << k` on 32 bits is the product with 2^k modulo 2^32, `h >> k` the quotient by 2^k.  One round adds
      the character, adds the sum shifted left by 10, and takes in that shifted right by 6. */
  lemma AbsorbExact(h: uint32, c: char)
    ensures var h1 := (h + CharBits(c)) % 0x1_0000_0000;
      var h2 := (h1 + h1 * 1024 % 0x1_0000_0000) % 0x1_0000_0000;
      Absorb(h, c) == Xor(h2, h2 / 64)
  {
    TimesExact(Plus(h, CharBits(c)), 1024);
    ShrBySix(Times(Plus(h, CharBits(c)), 1025));
  }

  /** The last mix shifts left by 3, right by 11, and left by 15. */
  lemma FinishExact(h: uint32, h1: uint32, h2: uint32)
    requires h1 == (h + h * 8 % 0x1_0000_0000) % 0x1_0000_0000 && h2 == Xor(h1, h1 / 2048)
    ensures Finish(h) == (h2 + h2 * 32768 % 0x1_0000_0000) % 0x1_0000_0000
  {
    FirstTimes(h);
    ShrByEleven(h1);
    FinishSteps(h, h1, h2);
    LastTimes(h2);
  }

  lemma FirstTimes(h: uint32)
    ensures Times(h, 9) == (h + h * 8 % 0x1_0000_0000) % 0x1_0000_0000
  {
    TimesExact(h, 8);
  }

  lemma LastTimes(h: uint32)
    ensures Times(h, 32769) == (h + h * 32768 % 0x1_0000_0000) % 0x1_0000_0000
  {
    TimesExact(h, 32768);
  }

  lemma FinishSteps(h: uint32, h1: uint32, h2: uint32)
    requires h1 == Times(h, 9) && h2 == XorShr(h1, 11)
    ensures Finish(h) == Times(h2, 32769)
  {}

  // ---- Each update is injective

  lemma {:induction false} ShrOfXor(a: nat, b: nat, k: nat)
    ensures Shr(Xor(a, b), k) == Xor(Shr(a, k), Shr(b, k))
  {
    if k > 0 {
      assert Xor(a, b) / 2 == Xor(a / 2, b / 2);
      ShrOfXor(a / 2, b / 2, k - 1);
    }
  }

  lemma {:induction false} XorCancels(a: nat, b: nat, c: nat)
    requires Xor(a, c) == Xor(b, c)
    ensures a == b
    decreases a + b + c
  {
    if a != 0 || b != 0 || c != 0 {
      assert Xor(a, c) / 2 == Xor(a / 2, c / 2) && Xor(b, c) / 2 == Xor(b / 2, c / 2);
      assert Xor(a, c) % 2 == (if a % 2 == c % 2 then 0 else 1);
      assert Xor(b, c) % 2 == (if b % 2 == c % 2 then 0 else 1);
      XorCancels(a / 2, b / 2, c / 2);
    }
  }

  /** The high digits of `h ^ (h >> k)` determine the high digits of `h`, and those the rest. */
  lemma {:induction false} XorShrInjective(g: nat, h: nat, k: nat)
    requires k > 0 && Xor(g, Shr(g, k)) == Xor(h, Shr(h, k))
    ensures g == h
    decreases g + h
  {
    if g > 0 || h > 0 {
      ShrOfXor(g, Shr(g, k), k);
      ShrOfXor(h, Shr(h, k), k);
      XorShrInjective(Shr(g, k), Shr(h, k), k);
      XorCancels(g, h, Shr(g, k));
    }
  }

  /** An odd multiplier has an inverse modulo 2^32. */
  lemma TimesInjective(g: uint32, h: uint32, m: nat, inv: nat)
    requires m * inv % MOD == 1 && Times(g, m) == Times(h, m)
    ensures g == h
  {
    TimesUndone(g, m, inv);
    TimesUndone(h, m, inv);
  }

  lemma TimesUndone(h: uint32, m: nat, inv: nat)
    requires m * inv % MOD == 1
    ensures Times(h, m) * inv % MOD == h
  {
    var q, k := h * m / MOD, m * inv / MOD;
    calc {
      Times(h, m) * inv;
      (h * m - q * MOD) * inv;
      h * m * inv - q * MOD * inv;
      h * (m * inv) - q * inv * MOD;
      h * (1 + k * MOD) - q * inv * MOD;
      h + (h * k - q * inv) * MOD;
    }
    RemainderUnique(Times(h, m) * inv, h * k - q * inv, h);
  }

  lemma RemainderUnique(n: int, q: int, r: uint32)
    requires n == r + q * MOD
    ensures n % MOD == r
  {}

  lemma PlusInjective(g: uint32, h: uint32, k: uint32)
    requires Plus(g, k) == Plus(h, k) || Plus(k, g) == Plus(k, h)
    ensures g == h
  {}

  lemma CharBitsInjective(c: char, d: char)
    requires c as int < 256 && d as int < 256 && CharBits(c) == CharBits(d)
    ensures c == d
  {}

  lemma RoundInjective(x: uint32, y: uint32)
    requires XorShr(Times(x, 1025), 6) == XorShr(Times(y, 1025), 6)
    ensures x == y
  {
    XorShrInjective(Times(x, 1025), Times(y, 1025), 6);
    TimesInjective(x, y, 1025, 0xc00f_fc01);
  }

  /** Different states stay different whatever character they absorb. */
  lemma AbsorbInjectiveInState(g: uint32, h: uint32, c: char)
    requires g != h
    ensures Absorb(g, c) != Absorb(h, c)
  {
    if Absorb(g, c) == Absorb(h, c) {
      RoundInjective(Plus(g, CharBits(c)), Plus(h, CharBits(c)));
      PlusInjective(g, h, CharBits(c));
    }
  }

  /** Different characters of C's 8-bit `char` take one state to different states. */
  lemma AbsorbInjectiveInChar(h: uint32, c: char, d: char)
    requires c as int < 256 && d as int < 256 && c != d
    ensures Absorb(h, c) != Absorb(h, d)
  {
    if Absorb(h, c) == Absorb(h, d) {
      RoundInjective(Plus(h, CharBits(c)), Plus(h, CharBits(d)));
      PlusInjective(CharBits(c), CharBits(d), h);
      CharBitsInjective(c, d);
    }
  }

  lemma MixInjective(x: uint32, y: uint32)
    requires Times(XorShr(x, 11), 32769) == Times(XorShr(y, 11), 32769)
    ensures x == y
  {
    TimesInjective(XorShr(x, 11), XorShr(y, 11), 32769, 0x3fff_8001);
    XorShrInjective(x, y, 11);
  }

  lemma FinishInjective(g: uint32, h: uint32)
    requires g != h
    ensures Finish(g) != Finish(h)
  {
    if Finish(g) == Finish(h) {
      MixInjective(Times(g, 9), Times(h, 9));
      TimesInjective(g, h, 9, 0x38e3_8e39);
    }
  }

  lemma StateSnoc(s: string, c: char)
    ensures State(s + [c]) == Absorb(State(s), c)
  {
    assert (s + [c])[..|s|] == s;
  }

  lemma {:induction false} StateInjective(p: string, c: char, d: char, q: string)
    requires c as int < 256 && d as int < 256 && c != d
    ensures State(p + [c] + q) != State(p + [d] + q)
  {
    if q == "" {
      assert p + [c] + q == p + [c] && p + [d] + q == p + [d];
      StateSnoc(p, c);
      StateSnoc(p, d);
      AbsorbInjectiveInChar(State(p), c, d);
    } else {
      var r, x := q[..|q| - 1], q[|q| - 1];
      var s, t := p + [c] + r, p + [d] + r;
      assert p + [c] + q == s + [x] && p + [d] + q == t + [x];
      StateInjective(p, c, d, r);
      StateSnoc(s, x);
      StateSnoc(t, x);
      AbsorbInjectiveInState(State(s), State(t), x);
    }
  }

  /** Changing exactly one character of a symbol always changes its 32-bit hash. */
  lemma OneCharacterChangesHash(p: string, c: char, d: char, q: string)
    requires c as int < 256 && d as int < 256 && c != d
    ensures HashSymbol(p + [c] + q) != HashSymbol(p + [d] + q)
  {
    StateInjective(p, c, d, q);
    FinishInjective(State(p + [c] + q), State(p + [d] + q));
  }
}
