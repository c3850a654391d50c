/** Python's `str.strip()` with no argument, which `process_file` applies to
    every sequence line before building its k-mer map. */
module Whitespace {

  /** The characters Python's `str.isspace` accepts: the ASCII controls TAB to CR,
      the four information separators, SPACE, NEL, NO-BREAK SPACE and the
      Unicode space and line/paragraph separators. */
  predicate IsSpace(c: char) {
    || ('\t' <= c <= '\r')
    || ('\U{1C}' <= c <= ' ')
    || c == '\U{85}'
    || c == '\U{A0}'
    || c == '\U{1680}'
    || ('\U{2000}' <= c <= '\U{200A}')
    || c == '\U{2028}'
    || c == '\U{2029}'
    || c == '\U{202F}'
    || c == '\U{205F}'
    || c == '\U{3000}'
  }

  /** Drops the leading whitespace. */
  function StripLeft(s: string): string {
    if |s| > 0 && IsSpace(s[0]) then StripLeft(s[1..]) else s
  }

  /** Drops the trailing whitespace. */
  function StripRight(s: string): string {
    if |s| > 0 && IsSpace(s[|s| - 1]) then StripRight(s[..|s| - 1]) else s
  }

  /** `s.strip()`: what is left after removing whitespace at both ends. */
  function Strip(s: string): string {
    StripRight(StripLeft(s))
  }

  /** `StripLeft` keeps a suffix of `s`, drops only whitespace, and leaves no
      whitespace at the front. */
  lemma {:induction false} StripLeftSpec(s: string)
    ensures |StripLeft(s)| <= |s| && StripLeft(s) == s[|s| - |StripLeft(s)|..]
    ensures forall i :: 0 <= i < |s| - |StripLeft(s)| ==> IsSpace(s[i])
    ensures StripLeft(s) == [] || !IsSpace(StripLeft(s)[0])
    decreases |s|
  {
    if |s| > 0 && IsSpace(s[0]) {
      StripLeftSpec(s[1..]);
    }
  }

  /** `StripRight` keeps a prefix of `s`, drops only whitespace, and leaves
      no whitespace at the back. */
  lemma {:induction false} StripRightSpec(s: string)
    ensures |StripRight(s)| <= |s| && StripRight(s) == s[..|StripRight(s)|]
    ensures forall i :: |StripRight(s)| <= i < |s| ==> IsSpace(s[i])
    ensures StripRight(s) == [] || !IsSpace(StripRight(s)[|StripRight(s)| - 1])
    decreases |s|
  {
    if |s| > 0 && IsSpace(s[|s| - 1]) {
      StripRightSpec(s[..|s| - 1]);
    }
  }

  /** `strip` keeps the infix `s[a..a + |r|]` where `a` counts the leading
      whitespace; everything removed is whitespace and the result has no
      whitespace at either end. */
  lemma {:induction false} StripSpec(s: string)
    ensures |Strip(s)| <= |StripLeft(s)| <= |s|
    ensures var r, a := Strip(s), |s| - |StripLeft(s)|;
      && a + |r| <= |s|
      && r == s[a..a + |r|]
      && (forall i :: 0 <= i < a ==> IsSpace(s[i]))
      && (forall i :: a + |r| <= i < |s| ==> IsSpace(s[i]))
      && (r == [] || (!IsSpace(r[0]) && !IsSpace(r[|r| - 1])))
  {
    StripLeftSpec(s);
    StripRightSpec(StripLeft(s));
  }

  /** A string with no whitespace at either end is left as it is. */
  lemma {:induction false} StripKeepsClean(s: string)
    requires s == [] || (!IsSpace(s[0]) && !IsSpace(s[|s| - 1]))
    ensures Strip(s) == s
  {
    if s != [] {
      assert StripLeft(s) == s;
      assert StripRight(s) == s;
    }
  }

  /** Stripping twice is stripping once. */
  lemma {:induction false} StripIdempotent(s: string)
    ensures Strip(Strip(s)) == Strip(s)
  {
    StripSpec(s);
    StripKeepsClean(Strip(s));
  }

  /** Trailing whitespace (such as the line terminator a text-mode read leaves
      on a line) is removed by `strip`: appending it changes nothing. */
  lemma {:induction false} StripDropsTrailingSpace(s: string, c: char)
    requires IsSpace(c)
    ensures Strip(s + [c]) == Strip(s)
  {
    var t := s + [c];
    StripLeftSpec(s);
    StripLeftSpec(t);
    if StripLeft(s) == [] {
      assert StripLeft(t) == [];
    } else {
      StripLeftAppend(s, [c]);
      assert StripLeft(t)[..|StripLeft(t)| - 1] == StripLeft(s);
    }
  }

  /** Leading-whitespace removal only touches the front: once `s` holds a
      non-whitespace character, appending to it commutes with the removal. */
  lemma {:induction false} StripLeftAppend(s: string, t: string)
    requires StripLeft(s) != []
    ensures StripLeft(s + t) == StripLeft(s) + t
    decreases |s|
  {
    if IsSpace(s[0]) {
      assert (s + t)[1..] == s[1..] + t;
      StripLeftAppend(s[1..], t);
    } else {
      assert (s + t)[0] == s[0];
    }
  }
}
