/** C characters and strings: what `fgetc` returns, the `ctype` tests in the C
    locale, buffers read up to their NUL, and `strcmp`. */
module CStrings {

  /** The `int` that `fgetc` and `cf_getc` return: a character or `EOF`. */
  datatype CInt = EOF | Ch(c: char)

  predicate IsAlpha(c: char) {
    'a' <= c <= 'z' || 'A' <= c <= 'Z'
  }

  predicate IsDigit(c: char) {
    '0' <= c <= '9'
  }

  predicate IsSpace(c: char) {
    c == ' ' || 9 <= c as int <= 13
  }

  predicate IsIdStart(c: char) {
    IsAlpha(c) || c == '_'
  }

  predicate IsIdChar(c: char) {
    IsAlpha(c) || IsDigit(c) || c == '_'
  }

  /** The characters of a word are the 26 letters, small and capital, the ten digits and the underscore;
      a word begins with no digit.  White space is the blank and the five characters from tab to return. */
  lemma ClassesExact(c: char)
    ensures IsIdStart(c) <==> c in "abcdefghijklmnopqrstuvwxyz" || c in "ABCDEFGHIJKLMNOPQRSTUVWXYZ" || c == '_'
    ensures IsIdChar(c) <==> IsIdStart(c) || c in "0123456789"
    ensures IsSpace(c) <==> c in " \t\n\U{0B}\U{0C}\r"
  {
    CharRange("abcdefghijklmnopqrstuvwxyz", 'a', c);
    CharRange("ABCDEFGHIJKLMNOPQRSTUVWXYZ", 'A', c);
    CharRange("0123456789", '0', c);
  }

  /** Consecutive characters. */
  lemma CharRange(s: string, first: char, c: char)
    requires first < 'b' && |s| < 30 && forall k :: 0 <= k < |s| ==> s[k] == (first as int + k) as char
    ensures c in s <==> first as int <= c as int < first as int + |s|
  {
    if first as int <= c as int < first as int + |s| {
      assert s[c as int - first as int] == c;
    }
  }

  /** The string that starts at the head of a buffer: everything before the first NUL. */
  function CStr(buf: string): (s: string)
    ensures s <= buf && '\0' !in s
    ensures s == buf || (|s| < |buf| && buf[|s|] == '\0')
  {
    if buf == "" || buf[0] == '\0' then "" else [buf[0]] + CStr(buf[1..])
  }

  lemma {:induction false} CStrTerminated(s: string, rest: string)
    ensures CStr(s + ['\0'] + rest) == CStr(s)
  {
    var t := s + ['\0'] + rest;
    if s != "" {
      assert t[1..] == s[1..] + ['\0'] + rest;
      CStrTerminated(s[1..], rest);
    }
  }

  /** The length of the line at the head of `t`, its newline not included. */
  function LineEnd(t: string): (n: nat)
    ensures n <= |t|
    ensures n < |t| ==> t[n] == '\n'
  {
    if t == "" || t[0] == '\n' then 0 else 1 + LineEnd(t[1..])
  }

  lemma {:induction false} LineEndAt(t: string, n: nat)
    requires n <= |t| && '\n' !in t[..n] && (n < |t| ==> t[n] == '\n')
    ensures LineEnd(t) == n
  {
    if n > 0 {
      assert t[0] == t[..n][0];
      assert t[1..][..n - 1] == t[..n][1..];
      LineEndAt(t[1..], n - 1);
    }
  }

  lemma {:induction false} LineEndWithin(t: string)
    ensures '\n' !in t[..LineEnd(t)]
  {
    if t != "" && t[0] != '\n' {
      LineEndWithin(t[1..]);
      var n := LineEnd(t);
      assert t[..n] == [t[0]] + t[1..][..n - 1];
    }
  }

  /** `strcmp` on the characters before the terminators. */
  function StrCmp(a: string, b: string): (r: int)
    ensures r == 0 <==> a == b
  {
    if a == "" then (if b == "" then 0 else -1)
    else if b == "" then 1
    else if a[0] == b[0] then
      assert a == [a[0]] + a[1..] && b == [b[0]] + b[1..];
      StrCmp(a[1..], b[1..])
    else a[0] as int - b[0] as int
  }

  /** The order of a dictionary: `a` breaks off where `b` goes on, or has the smaller character where
      they first differ. */
  ghost predicate Below(a: string, b: string) {
    a < b || exists i: nat :: DiffersAt(a, b, i)
  }

  ghost predicate DiffersAt(a: string, b: string, i: nat) {
    i < |a| && i < |b| && a[..i] == b[..i] && a[i] < b[i]
  }

  lemma {:induction false} StrCmpExact(a: string, b: string)
    ensures StrCmp(a, b) < 0 <==> Below(a, b)
  {
    if a == "" || b == "" || a[0] != b[0] {
      assert a != "" && b != "" && a[0] < b[0] ==> DiffersAt(a, b, 0);
    } else {
      StrCmpExact(a[1..], b[1..]);
      BelowTails(a, b);
    }
  }

  lemma BelowTails(a: string, b: string)
    requires a != "" && b != "" && a[0] == b[0]
    ensures Below(a, b) <==> Below(a[1..], b[1..])
  {
    assert a == [a[0]] + a[1..] && b == [b[0]] + b[1..];
    forall i: nat
      ensures DiffersAt(a[1..], b[1..], i) <==> DiffersAt(a, b, i + 1)
    {
      if i < |a| - 1 && i < |b| - 1 {
        assert a[..i + 1] == [a[0]] + a[1..][..i] && b[..i + 1] == [b[0]] + b[1..][..i];
        assert a[..i + 1][1..] == a[1..][..i] && b[..i + 1][1..] == b[1..][..i];
      }
    }
    if exists i: nat :: DiffersAt(a, b, i) {
      var i: nat :| DiffersAt(a, b, i);
      assert DiffersAt(a[1..], b[1..], i - 1);
    }
  }

  lemma {:induction false} StrCmpAntisymmetric(a: string, b: string)
    ensures StrCmp(a, b) < 0 <==> StrCmp(b, a) > 0
  {
    if a != "" && b != "" && a[0] == b[0] {
      StrCmpAntisymmetric(a[1..], b[1..]);
    }
  }

  lemma {:induction false} StrCmpTransitive(a: string, b: string, c: string)
    requires StrCmp(a, b) <= 0 && StrCmp(b, c) <= 0
    ensures StrCmp(a, c) <= 0
    ensures StrCmp(a, c) == 0 ==> a == b == c
  {
    if a == "" || c == "" {
    } else if a[0] == b[0] == c[0] {
      StrCmpTransitive(a[1..], b[1..], c[1..]);
    }
  }
}
