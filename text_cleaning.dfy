/** The OCR text normaliser `clean_text` of app.py: first every newline that has
    no newline directly before or after it becomes a space (soft-wrapped lines are
    joined, blank-line paragraph breaks survive), then every "- " is deleted in one
    left-to-right scan (hyphenated line breaks are joined). */
module TextCleaning {

  /** s[i] is a newline with no newline immediately before or after it, i.e. a
      match of the pattern (?<!\n)\n(?!\n) at position i of s. */
  predicate LoneNewlineAt(s: string, i: nat)
    requires i < |s|
  {
    s[i] == '\n' && (i == 0 || s[i - 1] != '\n') && (i == |s| - 1 || s[i + 1] != '\n')
  }

  /** Every newline of s sits next to another newline. */
  predicate NoLoneNewline(s: string) {
    forall i :: 0 <= i < |s| ==> !LoneNewlineAt(s, i)
  }

  /** s contains no "- " (a hyphen directly followed by a space). */
  predicate NoHyphenSpace(s: string) {
    forall i :: 0 <= i < |s| - 1 ==> !(s[i] == '-' && s[i + 1] == ' ')
  }

  /** The first step: the regular-expression substitution. Lookbehind and
      lookahead see the original text and every match is one character long, so
      each position is decided on its own. */
  function JoinLines(s: string): string {
    seq(|s|, i requires 0 <= i < |s| => if LoneNewlineAt(s, i) then ' ' else s[i])
  }

  /** The second step: str.replace("- ", ""), which deletes the non-overlapping
      occurrences found scanning left to right and never rescans its own output. */
  function DropHyphenSpace(s: string): string {
    if |s| < 2 then s
    else if s[0] == '-' && s[1] == ' ' then DropHyphenSpace(s[2..])
    else [s[0]] + DropHyphenSpace(s[1..])
  }

  /** clean_text: join lines first, then drop hyphen-space pairs. */
  function CleanText(s: string): string {
    DropHyphenSpace(JoinLines(s))
  }

  /** Characters that the normaliser never touches: everything but hyphen, space
      and newline. */
  predicate IsSignificant(c: char) {
    c != '-' && c != ' ' && c != '\n'
  }

  /** The significant characters of s, in order. */
  function Significant(s: string): string {
    if s == [] then []
    else (if IsSignificant(s[0]) then [s[0]] else []) + Significant(s[1..])
  }

  // ---------------------------------------------------------------------------
  // The line-joining step

  /** Joining lines keeps the length, and leaves no lone newline behind. */
  lemma JoinLinesNoLoneNewline(s: string)
    ensures |JoinLines(s)| == |s|
    ensures NoLoneNewline(JoinLines(s))
  {
    var t := JoinLines(s);
    forall i | 0 <= i < |t| ensures !LoneNewlineAt(t, i) {
      if t[i] == '\n' {
        assert s[i] == '\n' && !LoneNewlineAt(s, i);
        if 0 < i && s[i - 1] == '\n' {
          assert !LoneNewlineAt(s, i - 1);
        } else {
          assert i + 1 < |s| && s[i + 1] == '\n';
          assert !LoneNewlineAt(s, i + 1);
        }
      }
    }
  }

  /** Text without newlines is left alone by the line-joining step. */
  lemma JoinLinesIdentity(s: string)
    requires '\n' !in s
    ensures JoinLines(s) == s
  {
  }

  /** Two strings that differ only where both hold insignificant characters have
      the same significant characters. */
  lemma {:induction false} SignificantPointwise(a: string, b: string)
    requires |a| == |b|
    requires forall i :: 0 <= i < |a| ==> a[i] == b[i] || (!IsSignificant(a[i]) && !IsSignificant(b[i]))
    ensures Significant(a) == Significant(b)
  {
    if a != [] {
      assert a[0] == b[0] || (!IsSignificant(a[0]) && !IsSignificant(b[0]));
      forall i | 0 <= i < |a[1..]|
        ensures a[1..][i] == b[1..][i] || (!IsSignificant(a[1..][i]) && !IsSignificant(b[1..][i]))
      {
        assert a[1..][i] == a[i + 1] && b[1..][i] == b[i + 1];
      }
      SignificantPointwise(a[1..], b[1..]);
    }
  }

  /** The line-joining step only turns newlines into spaces. */
  lemma JoinLinesKeepsSignificant(s: string)
    ensures Significant(JoinLines(s)) == Significant(s)
  {
    SignificantPointwise(JoinLines(s), s);
  }

  // ---------------------------------------------------------------------------
  // The hyphen-space deletion step

  /** Deleting "- " never lengthens the text; the length stays the same exactly
      when there is no "- " to delete, and then the text is unchanged. */
  lemma {:induction false} DropHyphenSpaceLength(s: string)
    ensures |DropHyphenSpace(s)| <= |s|
    ensures |DropHyphenSpace(s)| == |s| <==> NoHyphenSpace(s)
    ensures NoHyphenSpace(s) ==> DropHyphenSpace(s) == s
  {
    if |s| < 2 {
    } else if s[0] == '-' && s[1] == ' ' {
      DropHyphenSpaceLength(s[2..]);
      assert !NoHyphenSpace(s) by { assert s[0] == '-' && s[0 + 1] == ' '; }
    } else {
      DropHyphenSpaceLength(s[1..]);
      if NoHyphenSpace(s) {
        forall i | 0 <= i < |s[1..]| - 1 ensures !(s[1..][i] == '-' && s[1..][i + 1] == ' ') {
          assert s[1..][i] == s[i + 1] && s[1..][i + 1] == s[i + 1 + 1];
        }
      }
      if NoHyphenSpace(s[1..]) {
        forall i | 0 <= i < |s| - 1 ensures !(s[i] == '-' && s[i + 1] == ' ') {
          if 0 < i {
            assert s[i] == s[1..][i - 1] && s[i + 1] == s[1..][i];
          }
        }
      }
    }
  }

  /** Deleting "- " only ever removes hyphens and spaces. */
  lemma {:induction false} DropHyphenSpaceKeepsSignificant(s: string)
    ensures Significant(DropHyphenSpace(s)) == Significant(s)
  {
    if |s| < 2 {
    } else if s[0] == '-' && s[1] == ' ' {
      DropHyphenSpaceKeepsSignificant(s[2..]);
      assert s[1..][1..] == s[2..];
      assert Significant(s) == Significant(s[1..]) == Significant(s[2..]);
    } else {
      DropHyphenSpaceKeepsSignificant(s[1..]);
      var t := DropHyphenSpace(s[1..]);
      assert ([s[0]] + t)[1..] == t;
    }
  }

  /** The newline at s[i], if any, is next to another newline, or is s's first
      character and the text just before s ended in a newline. */
  ghost predicate PairedAt(before: bool, s: string, i: nat)
    requires i < |s|
  {
    s[i] == '\n' ==> (i == 0 && before) || (0 < i && s[i - 1] == '\n') || (i + 1 < |s| && s[i + 1] == '\n')
  }

  ghost predicate NewlinesPaired(before: bool, s: string) {
    forall i :: 0 <= i < |s| ==> PairedAt(before, s, i)
  }

  lemma NoLoneNewlineIsPaired(s: string)
    ensures NoLoneNewline(s) <==> NewlinesPaired(false, s)
  {
    if NoLoneNewline(s) {
      forall i | 0 <= i < |s| ensures PairedAt(false, s, i) {
        assert !LoneNewlineAt(s, i);
      }
    }
    if NewlinesPaired(false, s) {
      forall i | 0 <= i < |s| ensures !LoneNewlineAt(s, i) {
        assert PairedAt(false, s, i);
      }
    }
  }

  /** Deleting "- " removes no newline and never separates two adjacent
      newlines, so no lone newline appears. */
  lemma {:induction false} DropHyphenSpaceKeepsPairs(before: bool, s: string)
    requires NewlinesPaired(before, s)
    ensures NewlinesPaired(before, DropHyphenSpace(s))
    decreases |s|
  {
    if |s| < 2 {
    } else if s[0] == '-' && s[1] == ' ' {
      var u := s[2..];
      forall i | 0 <= i < |u| ensures PairedAt(before, u, i) {
        assert PairedAt(before, s, i + 2);
        if 0 < i { assert u[i - 1] == s[i + 1]; }
        if i + 1 < |u| { assert u[i + 1] == s[i + 3]; }
      }
      DropHyphenSpaceKeepsPairs(before, u);
    } else {
      var c := s[0];
      var u := s[1..];
      var cIsNewline := c == '\n';
      forall i | 0 <= i < |u| ensures PairedAt(cIsNewline, u, i) {
        assert PairedAt(before, s, i + 1);
        if 0 < i { assert u[i - 1] == s[i]; }
        if i + 1 < |u| { assert u[i + 1] == s[i + 2]; }
      }
      DropHyphenSpaceKeepsPairs(cIsNewline, u);
      var d := DropHyphenSpace(u);
      var r := [c] + d;
      assert DropHyphenSpace(s) == r;
      forall i | 0 <= i < |r| ensures PairedAt(before, r, i) {
        if i == 0 {
          if !before && c == '\n' {
            assert PairedAt(before, s, 0);
            assert u[0] == '\n';
            if |u| >= 2 {
              assert d == [u[0]] + DropHyphenSpace(u[1..]);
            }
            assert r[1] == d[0] == '\n';
          }
        } else {
          assert r[i] == d[i - 1];
          assert PairedAt(cIsNewline, d, i - 1);
          if i - 1 > 0 { assert r[i - 1] == d[i - 2]; }
          if i < |d| { assert r[i + 1] == d[i]; }
        }
      }
    }
  }

  // ---------------------------------------------------------------------------
  // clean_text

  /** clean_text never lengthens the text. */
  lemma CleanTextNeverLengthens(s: string)
    ensures |CleanText(s)| <= |s|
  {
    JoinLinesNoLoneNewline(s);
    DropHyphenSpaceLength(JoinLines(s));
  }

  /** The output of clean_text has no newline lacking a neighbouring newline. */
  lemma CleanTextNoLoneNewline(s: string)
    ensures NoLoneNewline(CleanText(s))
  {
    var t := JoinLines(s);
    JoinLinesNoLoneNewline(s);
    NoLoneNewlineIsPaired(t);
    DropHyphenSpaceKeepsPairs(false, t);
    NoLoneNewlineIsPaired(CleanText(s));
  }

  /** Text with no newline and no "- " passes through clean_text unchanged. */
  lemma CleanTextIdentity(s: string)
    requires '\n' !in s && NoHyphenSpace(s)
    ensures CleanText(s) == s
  {
    JoinLinesIdentity(s);
    DropHyphenSpaceLength(s);
  }

  /** clean_text only removes hyphens and spaces and turns newlines into
      spaces: every other character survives, in order. */
  lemma CleanTextKeepsSignificant(s: string)
    ensures Significant(CleanText(s)) == Significant(s)
  {
    JoinLinesKeepsSignificant(s);
    DropHyphenSpaceKeepsSignificant(JoinLines(s));
  }

  /** A text that does not start with "- " keeps its first character. */
  lemma DropHyphenSpaceKeepsFirst(s: string)
    requires s != [] && !(|s| >= 2 && s[0] == '-' && s[1] == ' ')
    ensures DropHyphenSpace(s) == [s[0]] + DropHyphenSpace(s[1..])
  {
  }

  lemma NoHyphenSpaceTail(s: string)
    requires s != [] && NoHyphenSpace(s)
    ensures NoHyphenSpace(s[1..])
  {
    var t := s[1..];
    forall i | 0 <= i < |t| - 1 ensures !(t[i] == '-' && t[i + 1] == ' ') {
      assert t[i] == s[i + 1] && t[i + 1] == s[i + 1 + 1];
    }
  }

  /** Deleting "- " from a text that starts with a part holding no "- " and
      not ending in a hyphen leaves that part alone. */
  lemma {:induction false} DropHyphenSpaceAppend(a: string, b: string)
    requires NoHyphenSpace(a) && (a == [] || a[|a| - 1] != '-')
    ensures DropHyphenSpace(a + b) == a + DropHyphenSpace(b)
  {
    if a == [] {
      assert a + b == b;
    } else {
      var s := a + b;
      var t := a[1..];
      assert s[0] == a[0] && s[1..] == t + b;
      if |a| >= 2 {
        assert !(a[0] == '-' && a[0 + 1] == ' ');
      }
      DropHyphenSpaceKeepsFirst(s);
      NoHyphenSpaceTail(a);
      DropHyphenSpaceAppend(t, b);
      assert [a[0]] + t == a;
    }
  }

  /** A single line break between two newline-free texts becomes a space. */
  lemma JoinLinesSingleBreak(x: string, y: string)
    requires '\n' !in x && '\n' !in y
    ensures JoinLines(x + "\n" + y) == x + " " + y
  {
    var s := x + "\n" + y;
    var t := x + " " + y;
    var j := JoinLines(s);
    forall i | 0 <= i < |s| ensures j[i] == t[i] {
      if i < |x| {
        assert s[i] == x[i] && x[i] in x;
      } else if i > |x| {
        assert s[i] == y[i - |x| - 1] && y[i - |x| - 1] in y;
      } else {
        assert i == 0 || s[i - 1] == x[i - 1];
        assert i == |s| - 1 || s[i + 1] == y[0];
      }
    }
  }

  /** A leading "- " is deleted. */
  lemma DropHyphenSpaceSkip(c: string)
    ensures DropHyphenSpace("- " + c) == DropHyphenSpace(c)
  {
    assert ("- " + c)[2..] == c;
  }

  /** A text without hyphens has nothing to delete. */
  lemma DropHyphenSpaceNoHyphen(c: string)
    requires '-' !in c
    ensures DropHyphenSpace(c) == c
  {
    assert NoHyphenSpace(c) by {
      forall i | 0 <= i < |c| - 1 ensures c[i] != '-' {
        assert c[i] in c;
      }
    }
    DropHyphenSpaceLength(c);
  }

  /** Deleting "- " after a hyphen-free text keeps the text. */
  lemma DropHyphenSpaceAfterWord(a: string, rest: string)
    requires '-' !in a
    ensures DropHyphenSpace(a + "- " + rest) == a + DropHyphenSpace(rest)
  {
    DropHyphenSpaceNoHyphen(a);
    DropHyphenSpaceLength(a);
    assert a == [] || a[|a| - 1] in a;
    assert a + "- " + rest == a + ("- " + rest);
    DropHyphenSpaceAppend(a, "- " + rest);
    DropHyphenSpaceSkip(rest);
  }

  /** A word hyphenated across a line break is joined: the break first becomes
      a space, and the "- " so formed is then deleted. The order of the two
      steps matters. */
  lemma CleanTextJoinsBrokenWord(a: string, b: string)
    requires '-' !in a && '-' !in b && '\n' !in a && '\n' !in b
    ensures CleanText(a + "-\n" + b) == a + b
  {
    assert '\n' !in a + "-" by { assert (a + "-")[..|a|] == a; }
    assert a + "-\n" + b == (a + "-") + "\n" + b;
    JoinLinesSingleBreak(a + "-", b);
    assert (a + "-") + " " + b == a + "- " + b;
    DropHyphenSpaceAfterWord(a, b);
    DropHyphenSpaceNoHyphen(b);
  }

  /** A word hyphenated with a space is joined, and a following single line
      break becomes a space. */
  lemma CleanTextJoinsSpacedWord(a: string, b: string, c: string)
    requires '-' !in a && '-' !in b && '-' !in c
    requires '\n' !in a && '\n' !in b && '\n' !in c
    ensures CleanText(a + "- " + b + "\n" + c) == a + b + " " + c
  {
    var x := a + "- " + b;
    assert '\n' !in x by {
      assert forall i :: 0 <= i < |x| ==> x[i] == (if i < |a| then a[i] else if i < |a| + 2 then "- "[i - |a|] else b[i - |a| - 2]);
    }
    JoinLinesSingleBreak(x, c);
    assert x + " " + c == a + "- " + (b + " " + c);
    DropHyphenSpaceAfterWord(a, b + " " + c);
    assert '-' !in b + " " + c by {
      assert forall i :: 0 <= i < |b + " " + c| ==> (b + " " + c)[i] == (if i < |b| then b[i] else if i == |b| then ' ' else c[i - |b| - 1]);
    }
    DropHyphenSpaceNoHyphen(b + " " + c);
  }

  /** A blank line between paragraphs is kept. */
  lemma CleanTextExample3()
    ensures CleanText("para one\n\npara two") == "para one\n\npara two"
  {
    var s := "para one\n\npara two";
    assert JoinLines(s) == s by {
      forall i | 0 <= i < |s| ensures !LoneNewlineAt(s, i) {
        if i != 8 && i != 9 { assert s[i] != '\n'; }
      }
    }
    assert DropHyphenSpace(s) == s by {
      assert NoHyphenSpace(s);
      DropHyphenSpaceAppend(s, "");
      assert s + "" == s;
    }
  }

  /** The deletion is a single pass: a "- " assembled by a deletion survives,
      so a second clean_text can change the text again. */
  lemma CleanTextNotIdempotent()
    ensures CleanText("--  ") == "- "
    ensures CleanText(CleanText("--  ")) == ""
  {
    assert JoinLines("--  ") == "--  ";
    assert JoinLines("- ") == "- ";
  }
}
