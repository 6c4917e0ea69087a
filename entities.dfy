/** The three JPA entities, reduced to the fields the services read or write.
    An entity is its (possibly not yet assigned) identity plus its other fields. */
module Entities {
  import opened Outcomes

  /** An entity as the services see it: `id` is `None` until the store assigns one. */
  datatype Entity<F> = Entity(id: Option<int>, fields: F)

  /** The record of an author or a publisher: the services read and write
      only its name. */
  datatype NameData = NameData(name: Option<string>)

  /** A book; `publicationDate` is a `java.util.Date` as its millisecond count,
      and the author and publisher are the referenced entities as loaded. */
  datatype BookData = BookData(
    title: Option<string>,
    publicationDate: Option<int>,
    author: Option<Author>,
    publisher: Option<Publisher>)

  type Author = Entity<NameData>

  type Publisher = Entity<NameData>

  type Book = Entity<BookData>

  /** The name of the book's author, if the book has an author with a name. */
  function AuthorName(b: Book): Option<string>
  {
    if b.fields.author.Some? then b.fields.author.value.fields.name else None
  }

  /** The name of the book's publisher, if it has a publisher with a name. */
  function PublisherName(b: Book): Option<string>
  {
    if b.fields.publisher.Some? then b.fields.publisher.value.fields.name else None
  }

  /** The `s == null || s.isEmpty()` test the book service applies to titles and
      search terms. */
  predicate MissingText(s: Option<string>)
  {
    s.None? || s.value == ""
  }
}
