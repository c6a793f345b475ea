/** Input files, read a character at a time. */
module Files {
  import opened CStrings

  /** An open file. */
  class File {
    const text: string
    var pos: nat

    constructor (text: string)
      ensures this.text == text && pos == 0
    {
      this.text := text;
      pos := 0;
    }

    ghost function Rest(): string
      requires pos <= |text|
      reads this
    {
      text[pos..]
    }

    /** `fgetc` */
    method Getc() returns (c: CInt)
      requires pos <= |text|
      modifies this
      ensures old(pos) <= pos <= |text|
      ensures if old(Rest()) == "" then c == EOF && Rest() == ""
              else c == Ch(old(Rest())[0]) && Rest() == old(Rest())[1..]
    {
      if pos == |text| {
        return EOF;
      }
      c := Ch(text[pos]);
      pos := pos + 1;
    }

    /** The loops that skip to the end of a line: the newline is read too. */
    method SkipLine() returns (c: CInt)
      requires pos <= |text|
      modifies this
      ensures old(pos) <= pos <= |text|
      ensures var s := old(Rest()); var n := LineEnd(s);
        if n == |s| then c == EOF && Rest() == "" else c == Ch('\n') && Rest() == s[n + 1..]
    {
      ghost var s := Rest();
      ghost var k := 0;
      c := Getc();
      while c != EOF && c != Ch('\n')
        invariant old(pos) <= pos <= |text| && k <= |s| && LineEnd(s) == k + LineEnd(s[k..])
        invariant if s[k..] == "" then c == EOF && Rest() == ""
                  else c == Ch(s[k]) && Rest() == s[k + 1..]
        decreases |s| - k
      {
        assert s[k..][1..] == s[k + 1..];
        c := Getc();
        k := k + 1;
      }
    }
  }
}
