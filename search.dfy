/** `searchBooks`: the case-insensitive substring filter over `findAll`, in
    the null-guarded form of `service/impl` and the unguarded form of
    `serviceImpl`. */
module BookSearch {
  import opened Outcomes
  import opened Entities
  import opened Text
  import opened Sequences

  /** A present field whose lower-cased text contains the lower-cased term. */
  predicate FieldMatches(field: Option<string>, term: string)
  {
    field.Some? && Contains(Lower(field.value), Lower(term))
  }

  /** The filter of the guarded search: title, author name or publisher name
      matches, absent fields never match. */
  predicate Matches(b: Book, term: string)
  {
    FieldMatches(b.fields.title, term) || FieldMatches(AuthorName(b), term) || FieldMatches(PublisherName(b), term)
  }

  /** The guarded search over the listed books. */
  function Search(books: seq<Book>, term: string): (r: seq<Book>)
    ensures forall b :: b in r <==> b in books && Matches(b, term)
    ensures |r| <= |books|
  {
    if books == [] then []
    else (if Matches(books[0], term) then [books[0]] else []) + Search(books[1..], term)
  }

  /** The search keeps the books in their listed order. */
  lemma {:induction false} SearchIsSubsequence(books: seq<Book>, term: string)
    ensures IsSubsequence(Search(books, term), books)
  {
    if books != [] {
      SearchIsSubsequence(books[1..], term);
      var rest := Search(books[1..], term);
      if Matches(books[0], term) {
        assert Search(books, term) == [books[0]] + rest;
      } else {
        assert Search(books, term) == rest;
        SubsequenceOfTail(rest, books);
      }
    }
  }

  /** Each matching book occurs in the result as often as it is listed, and no
      other book occurs. */
  lemma {:induction false} SearchMultiplicity(books: seq<Book>, term: string, b: Book)
    ensures multiset(Search(books, term))[b] == if Matches(b, term) then multiset(books)[b] else 0
  {
    if books != [] {
      SearchMultiplicity(books[1..], term, b);
      assert books == [books[0]] + books[1..];
    }
  }

  /** The search is case-insensitive: terms that agree after lower-casing find
      the same books. */
  lemma {:induction false} SearchCaseInsensitive(books: seq<Book>, t1: string, t2: string)
    requires Lower(t1) == Lower(t2)
    ensures Search(books, t1) == Search(books, t2)
  {
    if books != [] {
      SearchCaseInsensitive(books[1..], t1, t2);
    }
  }

  /** A book whose title, author name or publisher name contains the term as
      written is found. */
  lemma ExactOccurrenceMatches(b: Book, term: string)
    requires || (b.fields.title.Some? && Contains(b.fields.title.value, term))
             || (AuthorName(b).Some? && Contains(AuthorName(b).value, term))
             || (PublisherName(b).Some? && Contains(PublisherName(b).value, term))
    ensures Matches(b, term)
  {
    if b.fields.title.Some? && Contains(b.fields.title.value, term) {
      ContainsLower(b.fields.title.value, term);
    } else if AuthorName(b).Some? && Contains(AuthorName(b).value, term) {
      ContainsLower(AuthorName(b).value, term);
    } else {
      ContainsLower(PublisherName(b).value, term);
    }
  }

  /** Every field the unguarded filter dereferences is present: the title
      always, the author and its name when the title does not match, the
      publisher and its name when neither the title nor the author matches. */
  predicate UnguardedDefined(b: Book, term: string)
  {
    && b.fields.title.Some?
    && (|| Contains(Lower(b.fields.title.value), Lower(term))
        || (&& b.fields.author.Some?
            && b.fields.author.value.fields.name.Some?
            && (|| Contains(Lower(b.fields.author.value.fields.name.value), Lower(term))
                || (b.fields.publisher.Some? && b.fields.publisher.value.fields.name.Some?))))
  }

  /** The filter of the unguarded search, where it does not throw. */
  predicate UnguardedMatches(b: Book, term: string)
    requires UnguardedDefined(b, term)
  {
    || Contains(Lower(b.fields.title.value), Lower(term))
    || Contains(Lower(b.fields.author.value.fields.name.value), Lower(term))
    || Contains(Lower(b.fields.publisher.value.fields.name.value), Lower(term))
  }

  /** The unguarded search; defined only when no listed book makes it throw. */
  function SearchUnguarded(books: seq<Book>, term: string): seq<Book>
    requires forall i :: 0 <= i < |books| ==> UnguardedDefined(books[i], term)
  {
    if books == [] then []
    else (if UnguardedMatches(books[0], term) then [books[0]] else []) + SearchUnguarded(books[1..], term)
  }

  /** Where the unguarded search does not throw, it finds what the guarded one
      finds. */
  lemma {:induction false} UnguardedSearchAgrees(books: seq<Book>, term: string)
    requires forall i :: 0 <= i < |books| ==> UnguardedDefined(books[i], term)
    ensures SearchUnguarded(books, term) == Search(books, term)
  {
    if books != [] {
      assert UnguardedMatches(books[0], term) == Matches(books[0], term);
      UnguardedSearchAgrees(books[1..], term);
    }
  }
}
