/** `generateAuthorReport`: the listed books grouped by their author's name,
    one line "<name>: <count> books" per name. */
module AuthorReport {
  import opened Outcomes
  import opened Entities
  import opened Text
  import opened Sequences

  /** Grouping does not throw: every book has an author, and every author a
      name (a null classifier key is refused by `groupingBy`). */
  predicate Authored(books: seq<Book>)
  {
    forall i :: 0 <= i < |books| ==> AuthorName(books[i]).Some?
  }

  /** The classifier applied to every listed book, in listing order. */
  function AuthorNames(books: seq<Book>): (r: seq<string>)
    requires Authored(books)
    ensures |r| == |books|
    ensures forall i :: 0 <= i < |books| ==> Some(r[i]) == AuthorName(books[i])
  {
    if books == [] then []
    else [AuthorName(books[0]).value] + AuthorNames(books[1..])
  }

  /** The number of books whose author has the name `n`. */
  function CountBy(books: seq<Book>, n: string): nat
  {
    if books == [] then 0
    else (if AuthorName(books[0]) == Some(n) then 1 else 0) + CountBy(books[1..], n)
  }

  /** The count of a group is the multiplicity of its key among the classifier values. */
  lemma {:induction false} CountByMultiplicity(books: seq<Book>, n: string)
    requires Authored(books)
    ensures CountBy(books, n) == multiset(AuthorNames(books))[n]
  {
    if books != [] {
      CountByMultiplicity(books[1..], n);
      assert AuthorNames(books) == [AuthorName(books[0]).value] + AuthorNames(books[1..]);
    }
  }

  /** The distinct values of `s`, each once, in order of first occurrence.
      (The group order of the source's hash map is left open; see the README.) */
  function Keys(s: seq<string>): (r: seq<string>)
    ensures forall n :: n in r <==> n in s
    ensures Distinct(r)
  {
    if s == [] then []
    else
      var d := Keys(s[..|s| - 1]);
      var x := s[|s| - 1];
      assert s == s[..|s| - 1] + [x];
      if x in d then d else d + [x]
  }

  /** One line of the report. */
  function Line(name: string, count: nat): string
  {
    name + ": " + NatToString(count) + " books"
  }

  /** The lines for the groups `keys`, each with its count in `m`. */
  function Lines(keys: seq<string>, m: multiset<string>): (r: seq<string>)
    ensures |r| == |keys|
    ensures forall i :: 0 <= i < |keys| ==> r[i] == Line(keys[i], m[keys[i]])
  {
    if keys == [] then [] else [Line(keys[0], m[keys[0]])] + Lines(keys[1..], m)
  }

  /** The report: one line per distinct author name. */
  function Report(books: seq<Book>): seq<string>
    requires Authored(books)
  {
    var names := AuthorNames(books);
    Lines(Keys(names), multiset(names))
  }

  /** Where the maximal run of digits at the end of `s` begins. */
  function DigitsStart(s: string): (k: nat)
    ensures k <= |s|
    ensures forall i :: k <= i < |s| ==> IsDigit(s[i])
    ensures k == 0 || !IsDigit(s[k - 1])
  {
    if s == [] || !IsDigit(s[|s| - 1]) then |s|
    else DigitsStart(s[..|s| - 1])
  }

  /** Reads a report line back into its name and count. */
  function ParseLine(l: string): Option<(string, nat)>
  {
    if |l| < 6 || l[|l| - 6..] != " books" then None
    else
      var body := l[..|l| - 6];
      var k := DigitsStart(body);
      if k == |body| || k < 2 || body[k - 2..k] != ": " then None
      else Some((body[..k - 2], ParseDigits(body[k..])))
  }

  /** A run of digits after a non-digit is exactly the trailing digit run. */
  lemma {:induction false} DigitsStartAfter(p: string, d: string)
    requires p == [] || !IsDigit(p[|p| - 1])
    requires forall i :: 0 <= i < |d| ==> IsDigit(d[i])
    ensures DigitsStart(p + d) == |p|
  {
    if d == [] {
      assert p + d == p;
    } else {
      var s := p + d;
      assert s[..|s| - 1] == p + d[..|d| - 1];
      DigitsStartAfter(p, d[..|d| - 1]);
    }
  }

  /** Parsing a line gives back the name and the count it was made from. */
  lemma ParseLineRoundTrip(name: string, count: nat)
    ensures ParseLine(Line(name, count)) == Some((name, count))
  {
    var l := Line(name, count);
    var p := name + ": ";
    var digits := NatToString(count);
    assert l == p + digits + " books";
    assert l[..|l| - 6] == p + digits;
    assert l[|l| - 6..] == " books";
    DigitsStartAfter(p, digits);
    var body := l[..|l| - 6];
    assert body[..|p|] == p && body[|p|..] == digits;
    assert body[|p| - 2..|p|] == ": ";
    assert body[..|p| - 2] == name;
    ParseNatToString(count);
  }

  /** Different groups or different counts never give the same line. */
  lemma LineInjective(n1: string, c1: nat, n2: string, c2: nat)
    requires Line(n1, c1) == Line(n2, c2)
    ensures n1 == n2 && c1 == c2
  {
    ParseLineRoundTrip(n1, c1);
    ParseLineRoundTrip(n2, c2);
  }

  /** A line is in the report exactly when its name is an author's name of a
      listed book and its count is the number of that author's books. */
  lemma ReportLines(books: seq<Book>, name: string, count: nat)
    requires Authored(books)
    ensures Line(name, count) in Report(books) <==>
      name in AuthorNames(books) && count == CountBy(books, name)
  {
    var names := AuthorNames(books);
    var keys := Keys(names);
    var r := Report(books);
    CountByMultiplicity(books, name);
    if Line(name, count) in r {
      var i :| 0 <= i < |r| && r[i] == Line(name, count);
      LineInjective(keys[i], multiset(names)[keys[i]], name, count);
    }
    if name in names && count == CountBy(books, name) {
      var i :| 0 <= i < |keys| && keys[i] == name;
      assert r[i] == Line(name, count);
    }
  }

  /** Every line of the report is different, and there is one per distinct name. */
  lemma ReportDistinct(books: seq<Book>)
    requires Authored(books)
    ensures Distinct(Report(books))
    ensures |Report(books)| == |set n | n in AuthorNames(books)|
  {
    var names := AuthorNames(books);
    var keys := Keys(names);
    var r := Report(books);
    forall i, j | 0 <= i < j < |r| ensures r[i] != r[j] {
      if r[i] == r[j] {
        LineInjective(keys[i], multiset(names)[keys[i]], keys[j], multiset(names)[keys[j]]);
      }
    }
    DistinctCardinality(keys);
    assert (set n | n in keys) == (set n | n in names);
  }

  /** The total of the counts `m` gives to `keys`. */
  function Total(keys: seq<string>, m: multiset<string>): nat
  {
    if keys == [] then 0 else Total(keys[..|keys| - 1], m) + m[keys[|keys| - 1]]
  }

  /** One more occurrence of `x` raises the total by one if `x` is a key. */
  lemma {:induction false} TotalAddOne(keys: seq<string>, m: multiset<string>, x: string)
    requires Distinct(keys)
    ensures Total(keys, m + multiset{x}) == Total(keys, m) + (if x in keys then 1 else 0)
  {
    if keys != [] {
      var init := keys[..|keys| - 1];
      assert keys == init + [keys[|keys| - 1]];
      TotalAddOne(init, m, x);
      assert x in keys <==> x in init || x == keys[|keys| - 1];
      assert !(x in init && x == keys[|keys| - 1]);
    }
  }

  /** Grouping counts every classifier value once. */
  lemma {:induction false} KeysTotal(s: seq<string>)
    ensures Total(Keys(s), multiset(s)) == |s|
  {
    if s != [] {
      var init, x := s[..|s| - 1], s[|s| - 1];
      assert s == init + [x];
      KeysTotal(init);
      var d := Keys(init);
      TotalAddOne(d, multiset(init), x);
      if x !in d {
        assert (d + [x])[..|d|] == d;
      }
    }
  }

  /** The counts read back from `lines`, added up; a line that does not
      parse adds nothing. */
  function ReadTotal(lines: seq<string>): nat
  {
    if lines == [] then 0
    else
      var l := lines[|lines| - 1];
      ReadTotal(lines[..|lines| - 1]) + (match ParseLine(l) case Some(p) => p.1 case None => 0)
  }

  /** The counts read back from the lines are the counts they were made from. */
  lemma {:induction false} ReadTotalLines(keys: seq<string>, m: multiset<string>)
    ensures ReadTotal(Lines(keys, m)) == Total(keys, m)
  {
    if keys != [] {
      var n := |keys|;
      var init := keys[..n - 1];
      var ls := Lines(keys, m);
      assert ls[..n - 1] == Lines(init, m);
      ParseLineRoundTrip(keys[n - 1], m[keys[n - 1]]);
      ReadTotalLines(init, m);
    }
  }

  /** The counts written in the report's lines add up to the number of listed
      books. */
  lemma ReportTotal(books: seq<Book>)
    requires Authored(books)
    ensures ReadTotal(Report(books)) == |books|
  {
    var names := AuthorNames(books);
    ReadTotalLines(Keys(names), multiset(names));
    KeysTotal(names);
  }
}
