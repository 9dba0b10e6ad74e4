/** The C library primitives the statement preparer uses (strlen, strcpy,
    strtok with a single-space delimiter, atoi), stated over bytes. A line of
    input is a byte sequence; the C string it holds is the part before the
    first NUL byte. */
module CStrings {

  newtype byte = x: int | 0 <= x < 256

  const NUL: byte := 0
  const SPACE: byte := 32
  const PLUS: byte := 43
  const MINUS: byte := 45
  const ZERO: byte := 48

  /** The bytes of an ASCII text (used for keywords and worked examples). */
  function Ascii(s: string): (r: seq<byte>)
    requires forall i :: 0 <= i < |s| ==> s[i] as int < 128
    ensures |r| == |s|
    ensures forall i :: 0 <= i < |s| ==> r[i] as int == s[i] as int
  {
    seq(|s|, i requires 0 <= i < |s| => s[i] as int as byte)
  }

  // ---------------------------------------------------------------------
  // strlen / strcpy: the C string held in a fixed buffer
  // ---------------------------------------------------------------------

  /** The C string a buffer holds: every byte before the first NUL, or the
      whole buffer when it has none. Its length is what strlen returns. */
  function CString(buf: seq<byte>): (s: seq<byte>)
    ensures NUL !in s
    ensures s <= buf
    ensures |s| < |buf| ==> buf[|s|] == NUL
  {
    if buf == [] || buf[0] == NUL then [] else [buf[0]] + CString(buf[1..])
  }

  /** A string followed by its terminator reads back as that string, whatever
      bytes come after the terminator. */
  lemma {:induction false} CStringOfTerminated(s: seq<byte>, tail: seq<byte>)
    requires NUL !in s
    ensures CString(s + [NUL] + tail) == s
  {
    if s != [] {
      assert (s + [NUL] + tail)[1..] == s[1..] + [NUL] + tail;
      CStringOfTerminated(s[1..], tail);
    }
  }

  /** A buffer without a terminator is read as a whole. */
  lemma {:induction false} CStringOfNulFree(s: seq<byte>)
    requires NUL !in s
    ensures CString(s) == s
  {
    if s != [] {
      assert s[0] in s;
      assert forall b <- s[1..] :: b in s;
      CStringOfNulFree(s[1..]);
    }
  }

  /** strcpy(dst, src) into a fixed-size buffer that can hold src and its
      terminator: the buffer then holds the C string src; the bytes after the
      terminator are the buffer's previous ones. */
  function Strcpy(dst: seq<byte>, src: seq<byte>): (r: seq<byte>)
    requires NUL !in src && |src| < |dst|
    ensures |r| == |dst|
    ensures CString(r) == src
    ensures r[|src| + 1..] == dst[|src| + 1..]
  {
    CStringOfTerminated(src, dst[|src| + 1..]);
    src + [NUL] + dst[|src| + 1..]
  }

  // ---------------------------------------------------------------------
  // strtok(_, " "): splitting on single spaces
  // ---------------------------------------------------------------------

  /** Length of the run of non-space bytes at the front of s. */
  function WordLength(s: seq<byte>): (n: nat)
    ensures n <= |s|
    ensures forall i :: 0 <= i < n ==> s[i] != SPACE
    ensures n < |s| ==> s[n] == SPACE
  {
    if s == [] || s[0] == SPACE then 0 else 1 + WordLength(s[1..])
  }

  /** The tokens that successive strtok(_, " ") calls return, in order:
      the maximal runs of non-space bytes (spaces at the ends and runs of
      spaces produce no empty token). */
  function Tokens(s: seq<byte>): (ts: seq<seq<byte>>)
    ensures forall t <- ts :: t != [] && SPACE !in t
    decreases |s|
  {
    if s == [] then []
    else if s[0] == SPACE then Tokens(s[1..])
    else
      var n := WordLength(s);
      [s[..n]] + Tokens(s[n..])
  }

  /** The tokens of a C string are C strings. */
  lemma {:induction false} TokensWithoutNul(s: seq<byte>)
    requires NUL !in s
    ensures forall t <- Tokens(s) :: NUL !in t
    decreases |s|
  {
    if s != [] {
      assert forall b <- s[1..] :: b in s;
      if s[0] == SPACE {
        TokensWithoutNul(s[1..]);
      } else {
        var n := WordLength(s);
        assert forall b <- s[..n] :: b in s;
        assert forall b <- s[n..] :: b in s;
        TokensWithoutNul(s[n..]);
      }
    }
  }

  /** Words joined by single spaces (how a command line is written). */
  function Unwords(ws: seq<seq<byte>>): (s: seq<byte>)
    ensures (forall w <- ws :: NUL !in w) ==> NUL !in s
  {
    if ws == [] then []
    else if |ws| == 1 then ws[0]
    else ws[0] + [SPACE] + Unwords(ws[1..])
  }

  predicate IsWord(w: seq<byte>)
  {
    w != [] && SPACE !in w
  }

  lemma WordLengthOfWord(w: seq<byte>, rest: seq<byte>)
    requires IsWord(w)
    requires rest == [] || rest[0] == SPACE
    ensures WordLength(w + rest) == |w|
  {
    var s := w + rest;
    assert forall i :: 0 <= i < |w| ==> s[i] == w[i] && w[i] in w;
    assert |w| < |s| ==> s[|w|] == rest[0];
  }

  /** Tokenising words written with single spaces gives the words back. */
  lemma {:induction false} TokensOfUnwords(ws: seq<seq<byte>>)
    requires forall w <- ws :: IsWord(w)
    ensures Tokens(Unwords(ws)) == ws
  {
    if |ws| == 1 {
      WordLengthOfWord(ws[0], []);
      assert ws[0][|ws[0]|..] == [];
      assert ws[0][..|ws[0]|] == ws[0];
    } else if |ws| > 1 {
      var rest := Unwords(ws[1..]);
      var s := ws[0] + [SPACE] + rest;
      assert s == ws[0] + ([SPACE] + rest);
      WordLengthOfWord(ws[0], [SPACE] + rest);
      assert s[..|ws[0]|] == ws[0];
      assert s[|ws[0]|..] == [SPACE] + rest;
      assert ([SPACE] + rest)[1..] == rest;
      TokensOfUnwords(ws[1..]);
      assert [ws[0]] + ws[1..] == ws;
    }
  }

  // ---------------------------------------------------------------------
  // atoi
  // ---------------------------------------------------------------------

  const INT_MIN: int := -0x8000_0000
  const INT_MAX: int := 0x7fff_ffff

  /** isspace in the C locale: space, \t, \n, \v, \f, \r. */
  predicate IsSpace(b: byte)
  {
    b == SPACE || 9 <= b <= 13
  }

  predicate IsDigit(b: byte)
  {
    ZERO <= b <= ZERO + 9
  }

  /** Number of bytes at the front of s that satisfy the predicate. */
  function LeadingSpaces(s: seq<byte>): (n: nat)
    ensures n <= |s|
    ensures forall i :: 0 <= i < n ==> IsSpace(s[i])
    ensures n < |s| ==> !IsSpace(s[n])
  {
    if s == [] || !IsSpace(s[0]) then 0 else 1 + LeadingSpaces(s[1..])
  }

  function LeadingDigits(s: seq<byte>): (n: nat)
    ensures n <= |s|
    ensures forall i :: 0 <= i < n ==> IsDigit(s[i])
    ensures n < |s| ==> !IsDigit(s[n])
  {
    if s == [] || !IsDigit(s[0]) then 0 else 1 + LeadingDigits(s[1..])
  }

  /** The value of a run of decimal digits, most significant first. */
  function DigitsValue(d: seq<byte>): nat
    requires forall i :: 0 <= i < |d| ==> IsDigit(d[i])
  {
    if d == [] then 0
    else
      assert IsDigit(d[|d| - 1]);
      DigitsValue(d[..|d| - 1]) * 10 + (d[|d| - 1] - ZERO) as int
  }

  /** The number a decimal text spells, as an unbounded integer: leading
      white space is skipped, an optional sign is read, then the longest run
      of digits; without digits the value is 0. */
  function DecimalValue(s: seq<byte>): (v: int)
    ensures var t := s[LeadingSpaces(s)..];
            && (t == [] || !(IsDigit(t[0]) || t[0] == PLUS || t[0] == MINUS) ==> v == 0)
            && (t != [] && t[0] == MINUS ==> v <= 0)
            && (t == [] || t[0] != MINUS ==> v >= 0)
  {
    var t := s[LeadingSpaces(s)..];
    if t != [] && (t[0] == PLUS || t[0] == MINUS) then
      var u := t[1..];
      var v: int := DigitsValue(u[..LeadingDigits(u)]);
      if t[0] == MINUS then -v else v
    else
      DigitsValue(t[..LeadingDigits(t)])
  }

  const LONG_MIN: int := -0x8000_0000_0000_0000
  const LONG_MAX: int := 0x7fff_ffff_ffff_ffff

  /** strtol(s, NULL, 10) with a 64-bit long: the decimal value, saturated
      to the range of long. */
  function Strtol(s: seq<byte>): (r: int)
    ensures LONG_MIN <= r <= LONG_MAX
    ensures LONG_MIN <= DecimalValue(s) <= LONG_MAX ==> r == DecimalValue(s)
    ensures DecimalValue(s) > LONG_MAX ==> r == LONG_MAX
    ensures DecimalValue(s) < LONG_MIN ==> r == LONG_MIN
  {
    var v := DecimalValue(s);
    if v < LONG_MIN then LONG_MIN else if v > LONG_MAX then LONG_MAX else v
  }

  /** The conversion of a long to a 32-bit int: the low 32 bits, read as
      two's complement. */
  function ToInt(x: int): (r: int)
    ensures INT_MIN <= r <= INT_MAX
    ensures (x - r) % 0x1_0000_0000 == 0
    ensures INT_MIN <= x <= INT_MAX ==> r == x
  {
    var m := x % 0x1_0000_0000;
    if m > INT_MAX then m - 0x1_0000_0000 else m
  }

  /** atoi as the GNU C library defines it: (int) strtol(s, NULL, 10). */
  function Atoi(s: seq<byte>): (r: int)
    ensures INT_MIN <= r <= INT_MAX
    ensures INT_MIN <= DecimalValue(s) <= INT_MAX ==> r == DecimalValue(s)
  {
    ToInt(Strtol(s))
  }

  /** The shortest decimal rendering of a natural number. */
  function Decimal(n: nat): (d: seq<byte>)
    ensures d != [] && forall i :: 0 <= i < |d| ==> IsDigit(d[i])
  {
    if n < 10 then [ZERO + n as byte] else Decimal(n / 10) + [ZERO + (n % 10) as byte]
  }

  lemma {:induction false} DigitsValueOfDecimal(n: nat)
    ensures DigitsValue(Decimal(n)) == n
  {
    var d := Decimal(n);
    if n >= 10 {
      assert d[..|d| - 1] == Decimal(n / 10);
      DigitsValueOfDecimal(n / 10);
    }
  }

  lemma LeadingDigitsOfDigits(d: seq<byte>, rest: seq<byte>)
    requires forall i :: 0 <= i < |d| ==> IsDigit(d[i])
    requires rest == [] || !IsDigit(rest[0])
    ensures LeadingDigits(d + rest) == |d| && (d + rest)[..|d|] == d
  {
    var s := d + rest;
    assert forall i :: 0 <= i < |d| ==> s[i] == d[i];
    assert |d| < |s| ==> s[|d|] == rest[0];
  }

  /** Reading a number back from what Decimal writes, with or without a
      minus sign, gives the number. */
  lemma DecimalValueOfDecimal(n: nat)
    ensures DecimalValue(Decimal(n)) == n
    ensures DecimalValue([MINUS] + Decimal(n)) == -(n as int)
  {
    var d := Decimal(n);
    DigitsValueOfDecimal(n);
    assert d == d + [];
    LeadingDigitsOfDigits(d, []);
    assert LeadingSpaces(d) == 0;
    var m := [MINUS] + d;
    assert LeadingSpaces(m) == 0;
    assert m[0..] == m && m[1..] == d;
  }

  /** atoi reads back what Decimal writes for every number an int holds,
      with or without a minus sign. */
  lemma AtoiOfDecimal(n: nat)
    requires n <= INT_MAX
    ensures Atoi(Decimal(n)) == n
    ensures Atoi([MINUS] + Decimal(n)) == -(n as int)
  {
    DecimalValueOfDecimal(n);
  }

  /** A number too large for an int but within a long is read modulo 2^32. */
  lemma AtoiOfLargeDecimal(n: nat)
    requires n <= LONG_MAX
    ensures Atoi(Decimal(n)) == ToInt(n)
  {
    DecimalValueOfDecimal(n);
  }
}
