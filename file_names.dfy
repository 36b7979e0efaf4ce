/** Upload filename checks of app.py: `allowed_file` accepts a name whose text
    after the last dot, lower-cased, is an allowed extension ("pdf"), and
    `get_uploaded_files` lists the accepted names of the upload folder in
    Python's string order. */
module FileNames {

  /** ALLOWED_EXTENSIONS. */
  const AllowedExtensions: set<string> := {"pdf"}

  /** The position of the last c in s, or -1 when s has none (str.rfind). */
  function LastIndex(s: string, c: char): (r: int)
    ensures -1 <= r < |s|
    ensures r == -1 <==> c !in s
    ensures 0 <= r ==> s[r] == c && c !in s[r + 1..]
  {
    if s == [] then -1
    else if s[|s| - 1] == c then |s| - 1
    else
      var k := LastIndex(s[..|s| - 1], c);
      assert 0 <= k ==> s[k + 1..] == s[..|s| - 1][k + 1..] + [s[|s| - 1]];
      assert s == s[..|s| - 1] + [s[|s| - 1]];
      k
  }

  /** ASCII lower-casing of one character. */
  function LowerChar(c: char): char {
    if 'A' <= c <= 'Z' then (c as int - 'A' as int + 'a' as int) as char else c
  }

  /** str.lower(), restricted to ASCII letters. */
  function Lower(s: string): string {
    seq(|s|, i requires 0 <= i < |s| => LowerChar(s[i]))
  }

  /** allowed_file: the name contains a dot and the text after the last dot,
      lower-cased, is an allowed extension (filename.rsplit('.', 1)[1]). */
  predicate AllowedFile(name: string) {
    '.' in name && Lower(name[LastIndex(name, '.') + 1..]) in AllowedExtensions
  }

  /** An independent description of the accepted names: the fourth character
      from the end is a dot and the last three spell "pdf" in any case. */
  lemma AllowedFileIff(name: string)
    ensures AllowedFile(name) <==>
      |name| >= 4 && name[|name| - 4] == '.' && Lower(name[|name| - 3..]) == "pdf"
  {
    if AllowedFile(name) {
      var k := LastIndex(name, '.');
      assert |Lower(name[k + 1..])| == 3;
      assert k == |name| - 4;
    }
    if |name| >= 4 && name[|name| - 4] == '.' && Lower(name[|name| - 3..]) == "pdf" {
      var tail := name[|name| - 3..];
      assert '.' !in tail by {
        forall i | 0 <= i < 3 ensures tail[i] != '.' {
          assert Lower(tail)[i] == LowerChar(tail[i]) == "pdf"[i];
        }
      }
      var k := LastIndex(name, '.');
      assert k == |name| - 4;
      assert name[k + 1..] == tail;
    }
  }

  /** Names the upload form accepts: the extension is matched in any case and
      only the last one counts. */
  lemma AllowedFileAccepts()
    ensures AllowedFile("a.PDF")
    ensures AllowedFile("x.tar.pdf")
    ensures AllowedFile(".pdf")
  {
    AllowedFileIff("a.PDF");
    assert Lower("PDF") == "pdf";
    AllowedFileIff("x.tar.pdf");
    assert Lower("pdf") == "pdf";
    AllowedFileIff(".pdf");
  }

  /** Names the upload form refuses: no dot, or another last extension. */
  lemma AllowedFileRejects()
    ensures !AllowedFile("pdf")
    ensures !AllowedFile("a.pdf.txt")
  {
    AllowedFileIff("pdf");
    AllowedFileIff("a.pdf.txt");
    assert "a.pdf.txt"[6..] == "txt";
    assert Lower("txt")[0] == 't';
  }

  // ---------------------------------------------------------------------------
  // Python's order on str: lexicographic by code point, a proper prefix first

  predicate StrLe(a: string, b: string) {
    if a == [] then true
    else if b == [] then false
    else if a[0] != b[0] then a[0] < b[0]
    else StrLe(a[1..], b[1..])
  }

  lemma {:induction false} StrLeTotal(a: string, b: string)
    ensures StrLe(a, b) || StrLe(b, a)
  {
    if a != [] && b != [] && a[0] == b[0] {
      StrLeTotal(a[1..], b[1..]);
    }
  }

  lemma {:induction false} StrLeAntisymmetric(a: string, b: string)
    requires StrLe(a, b) && StrLe(b, a)
    ensures a == b
  {
    if a != [] && b != [] {
      StrLeAntisymmetric(a[1..], b[1..]);
      assert a == [a[0]] + a[1..] && b == [b[0]] + b[1..];
    }
  }

  lemma {:induction false} StrLeTransitive(a: string, b: string, c: string)
    requires StrLe(a, b) && StrLe(b, c)
    ensures StrLe(a, c)
  {
    if a != [] && b != [] && c != [] && a[0] == b[0] == c[0] {
      StrLeTransitive(a[1..], b[1..], c[1..]);
    }
  }

  /** Each name is ordered before the next one. */
  predicate Sorted(s: seq<string>) {
    forall i :: 0 < i < |s| ==> StrLe(s[i - 1], s[i])
  }

  /** Insert x into a sorted list, before the first element it is ordered
      before. */
  function Insert(x: string, s: seq<string>): (r: seq<string>)
    requires Sorted(s)
    ensures Sorted(r)
    ensures multiset(r) == multiset(s) + multiset{x}
    ensures r[0] == x || (s != [] && r[0] == s[0])
  {
    if s == [] then [x]
    else if StrLe(x, s[0]) then [x] + s
    else
      var t := Insert(x, s[1..]);
      StrLeTotal(x, s[0]);
      assert s == [s[0]] + s[1..];
      [s[0]] + t
  }

  /** sorted(): an insertion sort, which yields the sorted arrangement of its
      input (there is only one, see SortedUnique). */
  function Sort(s: seq<string>): (r: seq<string>)
    ensures Sorted(r)
    ensures multiset(r) == multiset(s)
  {
    if s == [] then []
    else
      assert s == [s[0]] + s[1..];
      Insert(s[0], Sort(s[1..]))
  }

  /** In a sorted list the first element is ordered before every element. */
  lemma {:induction false} SortedFirstIsLeast(s: seq<string>, j: nat)
    requires Sorted(s) && j < |s|
    ensures StrLe(s[0], s[j])
  {
    if j == 0 {
      StrLeTotal(s[0], s[0]);
    } else {
      SortedFirstIsLeast(s, j - 1);
      StrLeTransitive(s[0], s[j - 1], s[j]);
    }
  }

  lemma SortedTail(s: seq<string>)
    requires Sorted(s) && s != []
    ensures Sorted(s[1..])
  {
    forall i | 0 < i < |s[1..]| ensures StrLe(s[1..][i - 1], s[1..][i]) {
      assert s[1..][i - 1] == s[i] && s[1..][i] == s[i + 1];
    }
  }

  lemma MultisetTail(s: seq<string>)
    requires s != []
    ensures multiset(s[1..]) == multiset(s) - multiset{s[0]}
  {
    assert s == [s[0]] + s[1..];
  }

  /** Two nonempty sorted lists with the same elements start alike. */
  lemma SortedSameFirst(a: seq<string>, b: seq<string>)
    requires Sorted(a) && Sorted(b) && multiset(a) == multiset(b) && a != []
    ensures b != [] && a[0] == b[0]
  {
    assert a[0] in multiset(b);
    var j :| 0 <= j < |b| && b[j] == a[0];
    assert b[0] in multiset(a);
    var k :| 0 <= k < |a| && a[k] == b[0];
    SortedFirstIsLeast(a, k);
    SortedFirstIsLeast(b, j);
    StrLeAntisymmetric(a[0], b[0]);
  }

  /** Two sorted lists with the same elements are equal: the listing's order
      is fully determined by its contents. */
  lemma {:induction false} SortedUnique(a: seq<string>, b: seq<string>)
    requires Sorted(a) && Sorted(b) && multiset(a) == multiset(b)
    ensures a == b
  {
    if a == [] {
      assert |b| == |multiset(b)| == 0;
    } else {
      SortedSameFirst(a, b);
      MultisetTail(a);
      MultisetTail(b);
      SortedTail(a);
      SortedTail(b);
      SortedUnique(a[1..], b[1..]);
      assert a == [a[0]] + a[1..] && b == [b[0]] + b[1..];
    }
  }

  /** The comprehension [f for f in listing if allowed_file(f)]. */
  function AcceptedNames(listing: seq<string>): (r: seq<string>)
    ensures forall x :: multiset(r)[x] == if AllowedFile(x) then multiset(listing)[x] else 0
  {
    if listing == [] then []
    else
      assert listing == [listing[0]] + listing[1..];
      (if AllowedFile(listing[0]) then [listing[0]] else []) + AcceptedNames(listing[1..])
  }

  /** get_uploaded_files, given the folder listing: exactly the accepted names,
      each as often as it is listed, in sorted order. */
  function UploadedFiles(listing: seq<string>): (r: seq<string>)
    ensures Sorted(r)
    ensures forall x :: x in r <==> x in listing && AllowedFile(x)
    ensures forall x :: multiset(r)[x] == if AllowedFile(x) then multiset(listing)[x] else 0
  {
    var r := Sort(AcceptedNames(listing));
    assert forall x :: x in r <==> x in multiset(r);
    assert forall x :: x in listing <==> x in multiset(listing);
    r
  }

  /** Any sorted list holding exactly the accepted names is the listing shown. */
  lemma UploadedFilesUnique(listing: seq<string>, shown: seq<string>)
    requires Sorted(shown)
    requires forall x :: multiset(shown)[x] == if AllowedFile(x) then multiset(listing)[x] else 0
    ensures shown == UploadedFiles(listing)
  {
    var r := UploadedFiles(listing);
    assert multiset(shown) == multiset(r);
    SortedUnique(shown, r);
  }
}
