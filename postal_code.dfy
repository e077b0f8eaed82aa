/**
 * The two postal-code patterns of the widget, written as patterns of the
 * `Preg` fragment exactly as the source spells them, and the positional
 * reading of each that the rest of the model reasons with.
 */
module PostalCode {
  import opened Preg

  predicate IsAsciiLetter(c: char) { 'A' <= c <= 'Z' || 'a' <= c <= 'z' }

  predicate IsAsciiDigit(c: char) { '0' <= c <= '9' }

  /** `[A-Za-z]` */
  const Letter: CharClass := [CharRange('A', 'Z'), CharRange('a', 'z')]
  /** `[0-9]`, and also `\d`, which without the `u` modifier means the ASCII digits */
  const Digit: CharClass := [CharRange('0', '9')]
  /** the literal space in ` ?` */
  const Space: CharClass := [CharRange(' ', ' ')]

  /** `/^[A-Za-z][0-9][A-Za-z] ?[0-9][A-Za-z][0-9]$/` */
  const CanadianPattern: seq<Atom> :=
    [One(Letter), One(Digit), One(Letter), Optional(Space), One(Digit), One(Letter), One(Digit)]

  /** `/^(\d{5})$/` */
  const ZipPattern: seq<Atom> := [Exactly(Digit, 5)]

  predicate MatchesCanadian(s: string) { PregMatchAnchored(CanadianPattern, s) }

  predicate MatchesZip(s: string) { PregMatchAnchored(ZipPattern, s) }

  /** What the save-time sanitiser keeps: either pattern matches. */
  predicate IsAcceptedPostalCode(s: string) { MatchesCanadian(s) || MatchesZip(s) }

  /** `A1A1A1` or `A1A 1A1`, letters of either case, nothing before or after. */
  predicate CanadianShape(s: string)
  {
    || (|s| == 6 && IsAsciiLetter(s[0]) && IsAsciiDigit(s[1]) && IsAsciiLetter(s[2])
                 && IsAsciiDigit(s[3]) && IsAsciiLetter(s[4]) && IsAsciiDigit(s[5]))
    || (|s| == 7 && IsAsciiLetter(s[0]) && IsAsciiDigit(s[1]) && IsAsciiLetter(s[2]) && s[3] == ' '
                 && IsAsciiDigit(s[4]) && IsAsciiLetter(s[5]) && IsAsciiDigit(s[6]))
  }

  /** Exactly five ASCII digits. */
  predicate ZipShape(s: string)
  {
    |s| == 5 && forall i :: 0 <= i < 5 ==> IsAsciiDigit(s[i])
  }

  lemma LetterClass(c: char)
    ensures InClass(Letter, c) <==> IsAsciiLetter(c)
  {
    if IsAsciiLetter(c) {
      if 'A' <= c <= 'Z' { assert Letter[0].lo <= c <= Letter[0].hi; }
      else { assert Letter[1].lo <= c <= Letter[1].hi; }
    }
  }

  lemma DigitClass(c: char)
    ensures InClass(Digit, c) <==> IsAsciiDigit(c)
  {
    if IsAsciiDigit(c) { assert Digit[0].lo <= c <= Digit[0].hi; }
  }

  lemma SpaceClass(c: char)
    ensures InClass(Space, c) <==> c == ' '
  {
    if c == ' ' { assert Space[0].lo <= c <= Space[0].hi; }
  }

  /** Unfolding one `One(cls)` atom at the head of a pattern. */
  lemma OneStep(p: seq<Atom>, s: string)
    requires p != [] && p[0].One?
    ensures Matches(p, s) <==> |s| > 0 && InClass(p[0].cls, s[0]) && Matches(p[1..], s[1..])
  {
  }

  /** The last three atoms, `[0-9][A-Za-z][0-9]`, match exactly "digit letter digit". */
  lemma {:induction false} TailMeaning(s: string)
    ensures Matches(CanadianPattern[4..], s) <==>
      |s| == 3 && IsAsciiDigit(s[0]) && IsAsciiLetter(s[1]) && IsAsciiDigit(s[2])
  {
    var p := CanadianPattern[4..];
    assert p[1..] == CanadianPattern[5..] && p[1..][1..] == CanadianPattern[6..] && p[1..][1..][1..] == [];
    OneStep(p, s);
    if |s| > 0 {
      DigitClass(s[0]);
      OneStep(p[1..], s[1..]);
      if |s| > 1 {
        LetterClass(s[1]);
        OneStep(p[1..][1..], s[1..][1..]);
        if |s| > 2 {
          DigitClass(s[2]);
          assert s[1..][1..][0] == s[2];
          assert |s[1..][1..][1..]| == |s| - 3;
        }
      }
    }
  }

  /** The pattern body without anchors-and-newline: exactly the positional Canadian shape. */
  lemma {:induction false} CanadianBodyMeaning(s: string)
    ensures Matches(CanadianPattern, s) <==> CanadianShape(s)
  {
    var p := CanadianPattern;
    assert p[1..][1..][1..] == p[3..] && p[3..][1..] == p[4..];
    OneStep(p, s);
    if |s| > 0 {
      LetterClass(s[0]);
      OneStep(p[1..], s[1..]);
      if |s| > 1 {
        DigitClass(s[1]);
        OneStep(p[1..][1..], s[1..][1..]);
        if |s| > 2 {
          LetterClass(s[2]);
          var rest := s[3..];
          assert s[1..][1..][0] == s[2] && s[1..][1..][1..] == rest;
          // `Optional(Space)`: either it eats a space, or it is skipped.
          assert Matches(p[3..], rest) <==>
            (|rest| > 0 && InClass(Space, rest[0]) && Matches(p[4..], rest[1..])) || Matches(p[4..], rest);
          TailMeaning(rest);
          if |rest| > 0 {
            SpaceClass(rest[0]);
            TailMeaning(rest[1..]);
          }
        }
      }
    }
  }

  lemma ZipBodyMeaning(s: string)
    ensures Matches(ZipPattern, s) <==> ZipShape(s)
  {
    ExactlyMeaning(Digit, 5, s);
    forall i | 0 <= i < |s| { DigitClass(s[i]); }
  }

  /** The Canadian pattern as `preg_match` applies it: the shape, or the shape followed by one final newline. */
  lemma CanadianPatternMeaning(s: string)
    ensures MatchesCanadian(s) <==> CanadianShape(s) || (EndsInNewline(s) && CanadianShape(Chomp(s)))
  {
    CanadianBodyMeaning(s);
    if EndsInNewline(s) { CanadianBodyMeaning(Chomp(s)); }
  }

  /** The ZIP pattern as `preg_match` applies it: five digits, or five digits and one final newline. */
  lemma ZipPatternMeaning(s: string)
    ensures MatchesZip(s) <==> ZipShape(s) || (EndsInNewline(s) && ZipShape(Chomp(s)))
  {
    ZipBodyMeaning(s);
    if EndsInNewline(s) { ZipBodyMeaning(Chomp(s)); }
  }

  /** No string matches both patterns: a Canadian code starts with a letter, a ZIP code with a digit. */
  lemma PatternsDisjoint(s: string)
    ensures !(MatchesCanadian(s) && MatchesZip(s))
  {
    CanadianPatternMeaning(s);
    ZipPatternMeaning(s);
    if EndsInNewline(s) && |s| > 1 {
      assert Chomp(s)[0] == s[0];
    }
  }

  /** An accepted code is 5 to 8 characters long, so it is never one of PHP's empty strings `""` and `"0"`. */
  lemma AcceptedLength(s: string)
    requires IsAcceptedPostalCode(s)
    ensures 5 <= |s| <= 8
  {
    CanadianPatternMeaning(s);
    ZipPatternMeaning(s);
  }

  /** Every character of an accepted code is an ASCII letter, an ASCII digit, a space or a newline. */
  predicate PostalChars(s: string)
  {
    forall i :: 0 <= i < |s| ==> IsAsciiLetter(s[i]) || IsAsciiDigit(s[i]) || s[i] == ' ' || s[i] == '\n'
  }

  lemma AcceptedChars(s: string)
    requires IsAcceptedPostalCode(s)
    ensures PostalChars(s)
  {
    CanadianPatternMeaning(s);
    ZipPatternMeaning(s);
    if EndsInNewline(s) {
      var t := Chomp(s);
      assert forall i :: 0 <= i < |t| ==> s[i] == t[i];
    }
  }

  /** The examples the widget is meant for: both spellings of a Canadian code, and a ZIP code. */
  lemma Examples()
    ensures MatchesCanadian("K1A0B1") && MatchesCanadian("k1a 0b1") && MatchesCanadian("K1A 0B1")
    ensures MatchesZip("90210") && !MatchesCanadian("90210")
    ensures !IsAcceptedPostalCode("ABCDE") && !IsAcceptedPostalCode("K1A  0B1") && !IsAcceptedPostalCode("9021")
    ensures MatchesCanadian("K1A0B1\n") && MatchesZip("90210\n") && !MatchesZip("90210\n\n")
  {
    CanadianPatternMeaning("K1A0B1");
    CanadianPatternMeaning("k1a 0b1");
    CanadianPatternMeaning("K1A 0B1");
    CanadianPatternMeaning("90210");
    ZipPatternMeaning("90210");
    CanadianPatternMeaning("ABCDE");
    ZipPatternMeaning("ABCDE");
    CanadianPatternMeaning("K1A  0B1");
    ZipPatternMeaning("K1A  0B1");
    CanadianPatternMeaning("9021");
    ZipPatternMeaning("9021");
    CanadianPatternMeaning("K1A0B1\n");
    assert Chomp("K1A0B1\n") == "K1A0B1";
    ZipPatternMeaning("90210\n");
    assert Chomp("90210\n") == "90210";
    ZipPatternMeaning("90210\n\n");
    assert Chomp("90210\n\n") == "90210\n";
  }
}
