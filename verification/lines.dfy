/** Line structure of a string as JavaScript regular expressions see it:
    `.` never matches a line terminator, and under the `m` flag `^` matches
    at the start of the input and just after every line terminator. */
module Lines {

  /** The four LineTerminator code points of ECMAScript. */
  predicate IsLineTerminator(c: char) {
    c == '\n' || c == '\r' || c == '\U{2028}' || c == '\U{2029}'
  }

  predicate NoTerminator(s: string) {
    forall k :: 0 <= k < |s| ==> !IsLineTerminator(s[k])
  }

  /** `lit` occurs in `s` starting at index `i`. */
  predicate StartsAt(s: string, i: nat, lit: string) {
    i + |lit| <= |s| && s[i..i + |lit|] == lit
  }

  /** Position `i` is where `^` matches under the `m` flag. */
  predicate AtLineStart(s: string, i: nat) {
    i == 0 || (i <= |s| && IsLineTerminator(s[i - 1]))
  }

  /** The end of the line that contains index `i`: the first line terminator
      at or after `i`, or the end of the input. */
  function LineEnd(s: string, i: nat): (e: nat)
    requires i <= |s|
    ensures i <= e <= |s|
    ensures NoTerminator(s[i..e])
    ensures e < |s| ==> IsLineTerminator(s[e])
    decreases |s| - i
  {
    if i == |s| || IsLineTerminator(s[i]) then i else LineEnd(s, i + 1)
  }

  /** The subsequence of line terminators in `s`; a string with `n` of them has `n + 1` lines. */
  function Terminators(s: string): (t: string)
    ensures |t| <= |s|
    ensures forall k :: 0 <= k < |t| ==> IsLineTerminator(t[k])
  {
    if s == [] then []
    else (if IsLineTerminator(s[0]) then [s[0]] else []) + Terminators(s[1..])
  }

  function LineCount(s: string): nat {
    |Terminators(s)| + 1
  }

  lemma {:induction false} TerminatorsAppend(a: string, b: string)
    ensures Terminators(a + b) == Terminators(a) + Terminators(b)
    decreases |a|
  {
    if a == [] {
      assert a + b == b;
    } else {
      assert (a + b)[1..] == a[1..] + b;
      TerminatorsAppend(a[1..], b);
    }
  }

  lemma SliceSplit(s: string, i: nat, j: nat)
    requires i <= j <= |s|
    ensures s[i..] == s[i..j] + s[j..]
  {
  }

  lemma SliceOfSlice(s: string, a: nat, e: nat, x: nat, y: nat)
    requires a <= e <= |s| && x <= y <= e - a
    ensures s[a..e][x..y] == s[a + x..a + y]
  {
    assert forall k :: 0 <= k < y - x ==> s[a..e][x..y][k] == s[a + x + k];
  }

  lemma {:induction false} TerminatorsEmpty(s: string)
    ensures NoTerminator(s) <==> Terminators(s) == []
    decreases |s|
  {
    if s != [] {
      TerminatorsEmpty(s[1..]);
      if NoTerminator(s) {
        assert NoTerminator(s[1..]);
      }
    }
  }

  /** A line terminator never sits between `i` and the end of its line, so every
      index of a line has the same line end. */
  lemma {:induction false} LineEndWithinLine(s: string, i: nat, j: nat)
    requires i <= j <= |s|
    requires NoTerminator(s[i..j])
    ensures LineEnd(s, i) == LineEnd(s, j)
    decreases j - i
  {
    if i < j {
      assert s[i] == s[i..j][0];
      assert s[i + 1..j] == s[i..j][1..];
      LineEndWithinLine(s, i + 1, j);
    }
  }
}
