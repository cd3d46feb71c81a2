/**
 * C character buffers as the diary engine uses them: fixed-size `char`
 * arrays holding zero-terminated text, compared with `strcmp`.
 */
module CStrings {

  /** One C `char`, as the byte it occupies in memory and on disk. */
  newtype byte = b: int | 0 <= b < 256

  /** The terminator of a C string. */
  const NUL: byte := 0

  /** True when no byte of `s` is a terminator: `s` is the text of a C string. */
  predicate NoNul(s: seq<byte>)
  {
    forall i | 0 <= i < |s| :: s[i] != NUL
  }

  /** A C string whose bytes are all its text (the `argv` strings, string literals). */
  type CStr = s: seq<byte> | NoNul(s)

  /**
   * The text a `char` buffer holds when read as a C string: every byte before
   * the first terminator. A buffer without a terminator yields all its bytes
   * (the model does not read past the buffer it is given).
   */
  function CString(buf: seq<byte>): (s: seq<byte>)
    ensures |s| <= |buf| && s == buf[..|s|]
    ensures NoNul(s)
    ensures |s| < |buf| ==> buf[|s|] == NUL
  {
    if buf == [] || buf[0] == NUL then []
    else [buf[0]] + CString(buf[1..])
  }

  /** `strcmp(a, b) == 0`: the two buffers hold the same C string. */
  predicate StrEqual(a: seq<byte>, b: seq<byte>)
    ensures NoNul(a) && NoNul(b) ==> (StrEqual(a, b) <==> a == b)
  {
    CString(a) == CString(b)
  }

  /** The bytes of an ASCII (or Latin-1) string literal, without its terminator. */
  function Ascii(s: string): (b: seq<byte>)
    requires forall i | 0 <= i < |s| :: s[i] as int < 256
    ensures |b| == |s|
    ensures forall i | 0 <= i < |s| :: b[i] as int == s[i] as int
  {
    seq(|s|, i requires 0 <= i < |s| => s[i] as int as byte)
  }

  /** A buffer that holds no terminator reads back whole. */
  lemma CStringOfText(s: seq<byte>)
    requires NoNul(s)
    ensures CString(s) == s
  {
  }

  /** Text followed by a terminator reads back as that text, whatever follows. */
  lemma {:induction false} CStringOfTerminated(s: seq<byte>, rest: seq<byte>)
    requires NoNul(s)
    ensures CString(s + [NUL] + rest) == s
  {
    if s != [] {
      assert (s + [NUL] + rest)[1..] == s[1..] + [NUL] + rest;
      CStringOfTerminated(s[1..], rest);
    }
  }

  /** Once a buffer holds a terminator, the bytes placed after it are never read. */
  lemma {:induction false} CStringStopsAtNul(a: seq<byte>, b: seq<byte>)
    requires !NoNul(a)
    ensures CString(a + b) == CString(a)
  {
    if a[0] != NUL {
      assert (a + b)[1..] == a[1..] + b;
      CStringStopsAtNul(a[1..], b);
    }
  }

  /** For C strings proper, `strcmp(a, b) == 0` is exactly equality of their text. */
  lemma StrEqualIsEquality(a: CStr, b: CStr)
    ensures StrEqual(a, b) <==> a == b
  {
    CStringOfText(a);
    CStringOfText(b);
  }
}
