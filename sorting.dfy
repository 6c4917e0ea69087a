/** `sortBooksByTitle` and `sortBooksByPublicationDate`: a stable sort of
    `findAll` by a comparator on one field. */
module BookSort {
  import opened Entities
  import opened Text

  /** The field a sort compares. */
  datatype SortKey = ByTitle | ByPublicationDate

  /** The book has the field; comparing a book without it throws. */
  predicate HasKey(key: SortKey, b: Book)
  {
    match key
    case ByTitle => b.fields.title.Some?
    case ByPublicationDate => b.fields.publicationDate.Some?
  }

  /** `Date.compareTo`: the sign of the difference of the millisecond counts. */
  function CompareMillis(x: int, y: int): int
  {
    if x < y then -1 else if x == y then 0 else 1
  }

  /** The comparator passed to `sorted`. */
  function Compare(key: SortKey, a: Book, b: Book): int
    requires HasKey(key, a) && HasKey(key, b)
  {
    match key
    case ByTitle => CompareTo(a.fields.title.value, b.fields.title.value)
    case ByPublicationDate => CompareMillis(a.fields.publicationDate.value, b.fields.publicationDate.value)
  }

  /** The two books have equal fields. */
  predicate SameKey(key: SortKey, a: Book, b: Book)
  {
    match key
    case ByTitle => a.fields.title == b.fields.title
    case ByPublicationDate => a.fields.publicationDate == b.fields.publicationDate
  }

  /** The comparator is antisymmetric and reports zero exactly on equal fields. */
  lemma CompareAntisymmetric(key: SortKey, a: Book, b: Book)
    requires HasKey(key, a) && HasKey(key, b)
    ensures Compare(key, b, a) == -Compare(key, a, b)
    ensures Compare(key, a, b) == 0 <==> SameKey(key, a, b)
  {
    if key.ByTitle? {
      CompareToAntisymmetric(a.fields.title.value, b.fields.title.value);
      CompareToZero(a.fields.title.value, b.fields.title.value);
    }
  }

  /** The comparator's "not after" is transitive. */
  lemma CompareTransitive(key: SortKey, a: Book, b: Book, c: Book)
    requires HasKey(key, a) && HasKey(key, b) && HasKey(key, c)
    requires Compare(key, a, b) <= 0 && Compare(key, b, c) <= 0
    ensures Compare(key, a, c) <= 0
  {
    if key.ByTitle? {
      CompareToTransitive(a.fields.title.value, b.fields.title.value, c.fields.title.value);
    }
  }

  /** Every book in `s` has the field. */
  predicate Keyed(key: SortKey, s: seq<Book>)
  {
    forall b :: b in s ==> HasKey(key, b)
  }

  /** Sorting `s` does not throw: `Arrays.sort` compares nothing when there are
      fewer than two elements, and otherwise compares every element. */
  predicate Sortable(key: SortKey, s: seq<Book>)
  {
    |s| <= 1 || Keyed(key, s)
  }

  /** No book comes after a later one. */
  predicate Sorted(key: SortKey, s: seq<Book>)
    requires Sortable(key, s)
  {
    forall i, j :: 0 <= i < j < |s| ==> Compare(key, s[i], s[j]) <= 0
  }

  /** Inserting `x` into `s` before the first book it does not come after. */
  function Insert(key: SortKey, x: Book, s: seq<Book>): (r: seq<Book>)
    requires s == [] || (HasKey(key, x) && Keyed(key, s))
    ensures |r| == |s| + 1
    ensures forall b :: b in r <==> b == x || b in s
    ensures multiset(r) == multiset(s) + multiset{x}
  {
    if s == [] || Compare(key, x, s[0]) <= 0 then [x] + s
    else
      assert s == [s[0]] + s[1..];
      [s[0]] + Insert(key, x, s[1..])
  }

  /** The sort: a permutation of its input. */
  function Sort(key: SortKey, s: seq<Book>): (r: seq<Book>)
    requires Sortable(key, s)
    ensures |r| == |s|
    ensures forall b :: b in r <==> b in s
    ensures multiset(r) == multiset(s)
  {
    if s == [] then []
    else
      assert s == [s[0]] + s[1..];
      Insert(key, s[0], Sort(key, s[1..]))
  }

  /** `h` comes after no book of `t`. */
  predicate NotAfterAny(key: SortKey, h: Book, t: seq<Book>)
    requires HasKey(key, h) && Keyed(key, t)
  {
    forall b :: b in t ==> Compare(key, h, b) <= 0
  }

  lemma SortedTail(key: SortKey, s: seq<Book>)
    requires s != [] && Keyed(key, s) && Sorted(key, s)
    ensures Sorted(key, s[1..])
    ensures NotAfterAny(key, s[0], s[1..])
  {
    forall b | b in s[1..] ensures Compare(key, s[0], b) <= 0 {
      var k :| 0 <= k < |s[1..]| && s[1..][k] == b;
      assert s[k + 1] == b;
    }
  }

  lemma ConsSorted(key: SortKey, h: Book, t: seq<Book>)
    requires HasKey(key, h) && Keyed(key, t)
    requires Sorted(key, t) && NotAfterAny(key, h, t)
    ensures Keyed(key, [h] + t) && Sorted(key, [h] + t)
  {
    var r := [h] + t;
    forall i, j | 0 <= i < j < |r| ensures Compare(key, r[i], r[j]) <= 0 {
      assert r[j] == t[j - 1];
      if i > 0 {
        assert r[i] == t[i - 1];
      } else {
        assert t[j - 1] in t;
      }
    }
  }

  lemma {:induction false} InsertSorted(key: SortKey, x: Book, s: seq<Book>)
    requires HasKey(key, x) && Keyed(key, s)
    requires Sorted(key, s)
    ensures Sorted(key, Insert(key, x, s))
  {
    if s == [] {
    } else if Compare(key, x, s[0]) <= 0 {
      SortedTail(key, s);
      forall b | b in s ensures Compare(key, x, b) <= 0 {
        if b != s[0] {
          assert b in s[1..];
          CompareTransitive(key, x, s[0], b);
        }
      }
      ConsSorted(key, x, s);
    } else {
      CompareAntisymmetric(key, x, s[0]);
      SortedTail(key, s);
      InsertSorted(key, x, s[1..]);
      var t := Insert(key, x, s[1..]);
      assert NotAfterAny(key, s[0], t);
      ConsSorted(key, s[0], t);
    }
  }

  /** The sort's result is ordered by the comparator. */
  lemma {:induction false} SortSorted(key: SortKey, s: seq<Book>)
    requires Sortable(key, s)
    ensures Sorted(key, Sort(key, s))
  {
    if |s| > 1 {
      SortSorted(key, s[1..]);
      InsertSorted(key, s[0], Sort(key, s[1..]));
    }
  }

  /** The books of `s` whose field equals that of `x`, in their order in `s`. */
  function Ties(key: SortKey, s: seq<Book>, x: Book): seq<Book>
  {
    if s == [] then []
    else (if SameKey(key, s[0], x) then [s[0]] else []) + Ties(key, s[1..], x)
  }

  lemma {:induction false} InsertTies(key: SortKey, y: Book, t: seq<Book>, x: Book)
    requires HasKey(key, y) && Keyed(key, t)
    ensures Ties(key, Insert(key, y, t), x) == (if SameKey(key, y, x) then [y] else []) + Ties(key, t, x)
  {
    if t == [] || Compare(key, y, t[0]) <= 0 {
      var r := [y] + t;
      assert r[1..] == t;
    } else {
      InsertTies(key, y, t[1..], x);
      CompareAntisymmetric(key, y, t[0]);
      TiesSwap(key, t[0], y, Insert(key, y, t[1..]), t[1..], x);
    }
  }

  /** The step of `InsertTies` past a book `t0` that sorts strictly before `y`. */
  lemma TiesSwap(key: SortKey, t0: Book, y: Book, r': seq<Book>, t': seq<Book>, x: Book)
    requires !(SameKey(key, t0, x) && SameKey(key, y, x))
    requires Ties(key, r', x) == (if SameKey(key, y, x) then [y] else []) + Ties(key, t', x)
    ensures Ties(key, [t0] + r', x) == (if SameKey(key, y, x) then [y] else []) + Ties(key, [t0] + t', x)
  {
    var r, t := [t0] + r', [t0] + t';
    assert r[1..] == r' && t[1..] == t';
  }

  /** The sort is stable: books with equal fields keep their listed order. */
  lemma {:induction false} SortStable(key: SortKey, s: seq<Book>, x: Book)
    requires Keyed(key, s)
    ensures Ties(key, Sort(key, s), x) == Ties(key, s, x)
  {
    if s != [] {
      SortStable(key, s[1..], x);
      InsertTies(key, s[0], Sort(key, s[1..]), x);
    }
  }
}
