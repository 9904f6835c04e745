/**
 * The few pieces of the PHP runtime the library scripts lean on: an optional
 * value (a SQL column that may be NULL, a session key that may be unset) and
 * the built-in `trim`, which every form field passes through before it is
 * validated.
 */
module Php {

  datatype Option<T> = None | Some(value: T)

  /** The characters `trim` strips by default: space, tab, line feed,
      carriage return, NUL and vertical tab. */
  predicate IsTrimChar(c: char) {
    c == ' ' || c == '\t' || c == '\n' || c == '\r' || c == '\0' || c == '\U{0B}'
  }

  predicate AllTrimChars(s: string) {
    forall i :: 0 <= i < |s| ==> IsTrimChar(s[i])
  }

  /** The first index at or after i that does not hold a trim character
      (the end of the string if there is none). */
  function SkipLeading(s: string, i: nat): (n: nat)
    requires i <= |s|
    ensures i <= n <= |s|
    ensures forall k :: i <= k < n ==> IsTrimChar(s[k])
    ensures n == |s| || !IsTrimChar(s[n])
    decreases |s| - i
  {
    if i < |s| && IsTrimChar(s[i]) then SkipLeading(s, i + 1) else i
  }

  /** The index just past the last character before j that is not a trim
      character (0 if there is none). */
  function SkipTrailing(s: string, j: nat): (n: nat)
    requires j <= |s|
    ensures n <= j
    ensures forall k :: n <= k < j ==> IsTrimChar(s[k])
    ensures n == 0 || !IsTrimChar(s[n - 1])
  {
    if 0 < j && IsTrimChar(s[j - 1]) then SkipTrailing(s, j - 1) else j
  }

  /** `trim`: the string with its leading and trailing runs of trim
      characters removed. */
  function Trim(s: string): (r: string)
    ensures |r| <= |s|
    ensures r == [] || (!IsTrimChar(r[0]) && !IsTrimChar(r[|r| - 1]))
  {
    var i := SkipLeading(s, 0);
    if i == |s| then [] else s[i..SkipTrailing(s, |s|)]
  }

  /** What `trim` removes is a prefix and a suffix made of trim characters
      only; what it keeps is the contiguous middle of the input. */
  lemma TrimIsInfix(s: string) returns (i: nat)
    ensures i + |Trim(s)| <= |s|
    ensures Trim(s) == s[i..i + |Trim(s)|]
    ensures AllTrimChars(s[..i]) && AllTrimChars(s[i + |Trim(s)|..])
  {
    i := SkipLeading(s, 0);
    if i == |s| {
      i := 0;
      assert s[..0] == [];
      assert s[0..] == s;
    } else {
      var j := SkipTrailing(s, |s|);
      assert i < j;
      assert i + |Trim(s)| == j;
    }
  }

  /** A form field is blank after trimming exactly when it held nothing but
      trim characters. */
  lemma TrimEmptyIff(s: string)
    ensures Trim(s) == [] <==> AllTrimChars(s)
  {
  }

  /** A string that neither starts nor ends with a trim character comes
      back unchanged. */
  lemma TrimKeepsTrimmed(s: string)
    requires s == [] || (!IsTrimChar(s[0]) && !IsTrimChar(s[|s| - 1]))
    ensures Trim(s) == s
  {
  }

  /** Trimming twice is trimming once. */
  lemma TrimIdempotent(s: string)
    ensures Trim(Trim(s)) == Trim(s)
  {
  }
}
