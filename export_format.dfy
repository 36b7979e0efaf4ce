/** The text layout of `export_pdf` in app.py: the output file is named after
    the upload without its extension, followed by "_pages_" and the selected page
    numbers joined by "_", and holds one block per selected page. */
module ExportFormat {
  import opened FileNames

  // ---------------------------------------------------------------------------
  // os.path.splitext(filename)[0], with '/' as the only separator

  /** Some character of p[lo..hi] is not a dot. */
  predicate HasNonDot(p: string, lo: int, hi: int)
    requires 0 <= lo <= hi <= |p|
  {
    exists i :: lo <= i < hi && p[i] != '.'
  }

  /** The path without its last extension. The extension starts at the last dot,
      and only when that dot is in the last path component and some character of
      that component before it is not a dot (so ".bashrc" has none). */
  function SplitExtRoot(p: string): (root: string)
    ensures root <= p
    ensures root != p ==> p[|root|] == '.' && '.' !in p[|root| + 1..] && '/' !in p[|root| + 1..]
    ensures root != p <==> exists i, j :: LastIndex(p, '/') < j < i < |p| && p[j] != '.' && p[i] == '.'
  {
    var sep := LastIndex(p, '/');
    var dot := LastIndex(p, '.');
    if dot > sep && HasNonDot(p, sep + 1, dot) then
      LastIndexAfter(p, '/', dot);
      p[..dot]
    else p
  }

  /** Nothing after the last c, nor after any later position, is a c. */
  lemma LastIndexAfter(s: string, c: char, k: int)
    requires LastIndex(s, c) < k < |s|
    ensures c !in s[k + 1..]
  {
    var j := LastIndex(s, c);
    if 0 <= j {
      assert s[k + 1..] == s[j + 1..][k - j..];
    }
  }

  /** The last c is at k when s[k] is a c and nothing after it is. */
  lemma LastIndexAt(s: string, c: char, k: nat)
    requires k < |s| && s[k] == c && c !in s[k + 1..]
    ensures LastIndex(s, c) == k
  {
  }

  lemma SplitExtRootExample1()
    ensures SplitExtRoot("report.pdf") == "report"
  {
    var p := "report.pdf";
    assert '/' !in p;
    LastIndexAt(p, '.', 6);
    assert HasNonDot(p, 0, 6) by { assert p[0] != '.'; }
  }

  lemma SplitExtRootExample2()
    ensures SplitExtRoot("x.tar.pdf") == "x.tar"
  {
    var p := "x.tar.pdf";
    assert '/' !in p;
    LastIndexAt(p, '.', 5);
    assert HasNonDot(p, 0, 5) by { assert p[0] != '.'; }
  }

  /** A leading dot does not start an extension. */
  lemma SplitExtRootExample3()
    ensures SplitExtRoot(".pdf") == ".pdf"
  {
    var p := ".pdf";
    assert '/' !in p;
    LastIndexAt(p, '.', 0);
  }

  // ---------------------------------------------------------------------------
  // str(page) for an int page number, and reading it back

  function DigitChar(d: int): char
    requires 0 <= d < 10
  {
    ('0' as int + d) as char
  }

  /** The decimal digits of n, most significant first, without leading zeros. */
  function NatToString(n: nat): string {
    if n < 10 then [DigitChar(n)] else NatToString(n / 10) + [DigitChar(n % 10)]
  }

  /** str(n): a minus sign before the digits of a negative number. */
  function IntToString(n: int): string {
    if n < 0 then "-" + NatToString(-n) else NatToString(n)
  }

  lemma {:induction false} NatToStringDigits(n: nat)
    ensures NatToString(n) != []
    ensures forall i :: 0 <= i < |NatToString(n)| ==> '0' <= NatToString(n)[i] <= '9'
  {
    if n >= 10 {
      NatToStringDigits(n / 10);
    }
  }

  /** A page number is written as a sign and digits, never with '_', the
      character that separates page numbers in an export's name. */
  lemma IntToStringShape(n: int)
    ensures IntToString(n) != []
    ensures '_' !in IntToString(n)
  {
    if n < 0 {
      NatToStringDigits(-n);
    } else {
      NatToStringDigits(n);
    }
  }

  /** The number written by a string of decimal digits. */
  function DigitsValue(s: string): int {
    if s == [] then 0 else DigitsValue(s[..|s| - 1]) * 10 + (s[|s| - 1] as int - '0' as int)
  }

  /** int(s) for what str() writes. */
  function ParseInt(s: string): int {
    if s != [] && s[0] == '-' then -DigitsValue(s[1..]) else DigitsValue(s)
  }

  lemma {:induction false} DigitsValueOfNat(n: nat)
    ensures DigitsValue(NatToString(n)) == n
  {
    if n >= 10 {
      var s := NatToString(n);
      DigitsValueOfNat(n / 10);
      assert s[..|s| - 1] == NatToString(n / 10);
    }
  }

  /** Reading back a page number written by str() gives the number. */
  lemma ParseIntToString(n: int)
    ensures ParseInt(IntToString(n)) == n
  {
    if n < 0 {
      DigitsValueOfNat(-n);
      assert IntToString(n)[1..] == NatToString(-n);
    } else {
      DigitsValueOfNat(n);
      NatToStringDigits(n);
    }
  }

  /** Distinct page numbers are written differently. */
  lemma IntToStringInjective(a: int, b: int)
    requires IntToString(a) == IntToString(b)
    ensures a == b
  {
    ParseIntToString(a);
    ParseIntToString(b);
  }

  // ---------------------------------------------------------------------------
  // sep.join(xs) and s.split(sep)

  function Join(sep: char, xs: seq<string>): (r: string)
    ensures xs != [] ==> xs[0] <= r
  {
    if xs == [] then []
    else if |xs| == 1 then xs[0]
    else xs[0] + [sep] + Join(sep, xs[1..])
  }

  /** str.split with a one-character separator: the pieces between separators,
      always at least one. */
  function Split(sep: char, s: string): (r: seq<string>)
    ensures r != []
  {
    if s == [] then [[]]
    else if s[0] == sep then [[]] + Split(sep, s[1..])
    else
      var t := Split(sep, s[1..]);
      [[s[0]] + t[0]] + t[1..]
  }

  lemma {:induction false} SplitWithoutSeparator(sep: char, x: string)
    requires sep !in x
    ensures Split(sep, x) == [x]
  {
    if x != [] {
      SplitWithoutSeparator(sep, x[1..]);
      assert [x[0]] + x[1..] == x;
    }
  }

  lemma {:induction false} SplitAfterPiece(sep: char, x: string, rest: string)
    requires sep !in x
    ensures Split(sep, x + [sep] + rest) == [x] + Split(sep, rest)
  {
    var s := x + [sep] + rest;
    if x == [] {
      assert s[0] == sep && s[1..] == rest;
    } else {
      assert s[0] == x[0] && s[1..] == x[1..] + [sep] + rest;
      SplitAfterPiece(sep, x[1..], rest);
      assert [x[0]] + x[1..] == x;
    }
  }

  /** Splitting a join gives back the pieces when no piece holds the
      separator. */
  lemma {:induction false} SplitJoin(sep: char, xs: seq<string>)
    requires xs != []
    requires forall i :: 0 <= i < |xs| ==> sep !in xs[i]
    ensures Split(sep, Join(sep, xs)) == xs
  {
    if |xs| == 1 {
      SplitWithoutSeparator(sep, xs[0]);
    } else {
      SplitJoin(sep, xs[1..]);
      SplitAfterPiece(sep, xs[0], Join(sep, xs[1..]));
      assert [xs[0]] + xs[1..] == xs;
    }
  }

  // ---------------------------------------------------------------------------
  // The export file

  /** map(str, pages) */
  function PageNames(pages: seq<int>): seq<string> {
    seq(|pages|, i requires 0 <= i < |pages| => IntToString(pages[i]))
  }

  /** The output filename built from the upload's name and the selection. */
  function ExportName(filename: string, pages: seq<int>): string {
    SplitExtRoot(filename) + "_pages_" + Join('_', PageNames(pages)) + ".txt"
  }

  /** The header line written before a page's text. */
  function PageHeader(page: int): string {
    "=== Page " + IntToString(page) + " ===\n"
  }

  /** The block written for one page. */
  function PageBlock(page: int, text: string): string {
    PageHeader(page) + text + "\n\n"
  }

  /** Selecting pages 1 and 3 of "report.pdf" writes "report_pages_1_3.txt"
      (see SplitExtRootExample1 for the root). */
  lemma ExportNameExample(filename: string)
    ensures ExportName(filename, [1, 3]) == SplitExtRoot(filename) + "_pages_1_3.txt"
  {
    assert PageNames([1, 3]) == ["1", "3"] by {
      assert IntToString(1) == "1" && IntToString(3) == "3";
    }
    assert Join('_', ["1", "3"]) == "1_3" by {
      assert Join('_', ["1", "3"]) == "1" + "_" + Join('_', ["3"]);
    }
  }

  /** Two different page selections of one upload never share an output
      file: the name spells out the selection, in order, repeats included. */
  lemma ExportNameInjective(filename: string, ps: seq<int>, qs: seq<int>)
    requires ExportName(filename, ps) == ExportName(filename, qs)
    ensures ps == qs
  {
    var root := SplitExtRoot(filename);
    var a := Join('_', PageNames(ps));
    var b := Join('_', PageNames(qs));
    var n := ExportName(filename, ps);
    assert n == root + "_pages_" + a + ".txt";
    assert n == root + "_pages_" + b + ".txt";
    assert |a| == |b|;
    assert a == n[|root| + 7..|n| - 4];
    assert b == n[|root| + 7..|n| - 4];
    JoinPageNamesInjective(ps, qs);
  }

  /** The joined page numbers spell out the selection. */
  lemma JoinPageNamesInjective(ps: seq<int>, qs: seq<int>)
    requires Join('_', PageNames(ps)) == Join('_', PageNames(qs))
    ensures ps == qs
  {
    var xs, ys := PageNames(ps), PageNames(qs);
    if ps != [] {
      IntToStringShape(ps[0]);
      assert xs[0] == IntToString(ps[0]);
    }
    if qs != [] {
      IntToStringShape(qs[0]);
      assert ys[0] == IntToString(qs[0]);
    }
    if ps != [] && qs != [] {
      forall i | 0 <= i < |xs| ensures '_' !in xs[i] {
        IntToStringShape(ps[i]);
      }
      forall i | 0 <= i < |ys| ensures '_' !in ys[i] {
        IntToStringShape(qs[i]);
      }
      SplitJoin('_', xs);
      SplitJoin('_', ys);
      forall i | 0 <= i < |ps| ensures ps[i] == qs[i] {
        assert xs[i] == IntToString(ps[i]) && ys[i] == IntToString(qs[i]);
        IntToStringInjective(ps[i], qs[i]);
      }
    }
  }
}
