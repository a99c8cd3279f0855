/** The two string operations of the script that the model needs:
    `String.prototype.trim` and `String.prototype.startsWith`. */
module Strings {

  /** The characters `trim` removes: WhiteSpace (tab, vertical tab, form feed,
      space, no-break space, byte order mark and the space separators) and
      LineTerminator (line feed, carriage return, line and paragraph
      separator). */
  predicate IsJsWhitespace(c: char) {
    var n := c as int;
    n == 0x09 || n == 0x0A || n == 0x0B || n == 0x0C || n == 0x0D || n == 0x20
    || n == 0xA0 || n == 0x1680 || (0x2000 <= n <= 0x200A)
    || n == 0x2028 || n == 0x2029 || n == 0x202F || n == 0x205F
    || n == 0x3000 || n == 0xFEFF
  }

  /** A string that neither starts nor ends with whitespace. */
  predicate IsTrimmed(s: string) {
    s == [] || (!IsJsWhitespace(s[0]) && !IsJsWhitespace(s[|s| - 1]))
  }

  /** Drops leading whitespace: the result is a suffix of `s`, what was
      dropped is all whitespace, and the result does not start with any. */
  function TrimStart(s: string): (r: string)
    ensures |r| <= |s| && r == s[|s| - |r|..]
    ensures forall i :: 0 <= i < |s| - |r| ==> IsJsWhitespace(s[i])
    ensures r == [] || !IsJsWhitespace(r[0])
    decreases |s|
  {
    if s != [] && IsJsWhitespace(s[0]) then TrimStart(s[1..]) else s
  }

  /** Drops trailing whitespace: the result is a prefix of `s`, what was
      dropped is all whitespace, and the result does not end with any. */
  function TrimEnd(s: string): (r: string)
    ensures |r| <= |s| && r == s[..|r|]
    ensures forall i :: |r| <= i < |s| ==> IsJsWhitespace(s[i])
    ensures r == [] || !IsJsWhitespace(r[|r| - 1])
    decreases |s|
  {
    if s != [] && IsJsWhitespace(s[|s| - 1]) then TrimEnd(s[..|s| - 1]) else s
  }

  /** `r` is `s` with only whitespace removed, and only at its two ends. */
  ghost predicate TrimmedSliceOf(r: string, s: string) {
    exists a, b :: 0 <= a <= b <= |s| && r == s[a..b]
      && (forall i :: 0 <= i < a ==> IsJsWhitespace(s[i]))
      && (forall i :: b <= i < |s| ==> IsJsWhitespace(s[i]))
  }

  /** Trimming the start and then the end leaves a slice of `s` with only
      whitespace outside it. */
  lemma TrimSlice(s: string)
    ensures TrimmedSliceOf(TrimEnd(TrimStart(s)), s)
  {
    var t := TrimStart(s);
    var a := |s| - |t|;
    var r := TrimEnd(t);
    assert r == s[a..a + |r|];
  }

  /** `s.trim()`: the slice of `s` left after removing whitespace at both
      ends. It is trimmed, and it leaves an already trimmed string alone. */
  function Trim(s: string): (r: string)
    ensures TrimmedSliceOf(r, s)
    ensures IsTrimmed(r)
    ensures |r| <= |s|
    ensures IsTrimmed(s) ==> r == s
  {
    TrimSlice(s);
    TrimEnd(TrimStart(s))
  }

  /** Trimming twice is trimming once; the stored marker is read back with
      `trim`, so this is what makes the written text compare equal. */
  lemma TrimIdempotent(s: string)
    ensures Trim(Trim(s)) == Trim(s)
  {
  }

  /** `s.startsWith(prefix)`. */
  predicate StartsWith(s: string, prefix: string) {
    |prefix| <= |s| && s[..|prefix|] == prefix
  }
}
