/**
 * The fragment of PCRE regular expressions that the widget's two postal-code
 * patterns use: a pattern anchored with `^` and `$` (no modifiers) whose body
 * is a sequence of character classes, each taken once, optionally (`?`) or a
 * fixed number of times (`{n}`). A capture group around the whole body does
 * not change whether `preg_match` finds a match, so it is not represented.
 */
module Preg {

  /** An inclusive range of characters inside `[...]`, such as `A-Z`. */
  datatype CharRange = CharRange(lo: char, hi: char)

  /** A bracket expression: the union of its ranges. */
  type CharClass = seq<CharRange>

  /** One element of a pattern body. */
  datatype Atom =
    | One(cls: CharClass)                   // `[...]`
    | Optional(cls: CharClass)              // `[...]?`
    | Exactly(cls: CharClass, count: nat)   // `[...]{count}`

  predicate InClass(cls: CharClass, c: char)
  {
    exists i :: 0 <= i < |cls| && cls[i].lo <= c <= cls[i].hi
  }

  /** True iff the whole of `s` is matched by the atoms `p`, in order. */
  predicate Matches(p: seq<Atom>, s: string)
    decreases |s|, |p|
  {
    if p == [] then s == []
    else match p[0]
      case One(cls) =>
        |s| > 0 && InClass(cls, s[0]) && Matches(p[1..], s[1..])
      case Optional(cls) =>
        (|s| > 0 && InClass(cls, s[0]) && Matches(p[1..], s[1..])) || Matches(p[1..], s)
      case Exactly(cls, n) =>
        if n == 0 then Matches(p[1..], s)
        else |s| > 0 && InClass(cls, s[0]) && Matches([Exactly(cls, n - 1)] + p[1..], s[1..])
  }

  predicate EndsInNewline(s: string)
  {
    |s| > 0 && s[|s| - 1] == '\n'
  }

  /** `s` without its final character, which is a newline. */
  function Chomp(s: string): (t: string)
    requires EndsInNewline(s)
    ensures t + "\n" == s
  {
    s[..|s| - 1]
  }

  /**
   * `preg_match('/^body$/', s)`: `^` anchors at the start of the subject and,
   * without the `D` modifier, `$` matches at the very end or just before a
   * newline that is the last character of the subject.
   */
  predicate PregMatchAnchored(p: seq<Atom>, s: string)
  {
    Matches(p, s) || (EndsInNewline(s) && Matches(p, Chomp(s)))
  }

  /** Matching a run of `n` single-class atoms: `|s| == n` and every character is in the class. */
  lemma {:induction false} ExactlyMeaning(cls: CharClass, n: nat, s: string)
    ensures Matches([Exactly(cls, n)], s) <==> |s| == n && forall i :: 0 <= i < |s| ==> InClass(cls, s[i])
    decreases n
  {
    if n == 0 {
      assert Matches([Exactly(cls, 0)], s) == Matches([], s);
    } else {
      assert [Exactly(cls, n - 1)] + [Exactly(cls, n)][1..] == [Exactly(cls, n - 1)];
      if |s| > 0 {
        ExactlyMeaning(cls, n - 1, s[1..]);
        assert forall i :: 1 <= i < |s| ==> s[i] == s[1..][i - 1];
      }
    }
  }
}
