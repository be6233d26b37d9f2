/**
 * The two records of the books service. The wire shapes (DTOs) and the
 * persisted shapes (entities) carry the same fields, and the mapper between
 * them copies field by field, so one datatype stands for both.
 */
module Entities {
  import opened Wrappers

  /** An author; `id` is the primary key, assigned by the store when absent. */
  datatype Author = Author(id: Option<int>, name: Option<string>, age: Option<int>)

  /** A book; `isbn` is the client-supplied primary key. */
  datatype Book = Book(isbn: Option<string>, title: Option<string>, author: Option<Author>)

  /** Null-coalescing: a given (non-null) value wins, an absent one keeps the current value. */
  function Coalesce<T>(given: Option<T>, current: Option<T>): (r: Option<T>)
    ensures given.Some? ==> r == given
    ensures given.None? ==> r == current
    ensures r.Some? <==> given.Some? || current.Some?
  {
    if given.Some? then given else current
  }

  /**
   * The record a partial update of `existing` with `patch` stores: every
   * non-null updatable field of the patch (name, age) overwrites the stored
   * one; the id and the null fields are kept.
   */
  function PatchAuthor(existing: Author, patch: Author): (merged: Author)
    ensures merged.id == existing.id
    ensures merged == existing <==>
      (patch.name.None? || patch.name == existing.name) && (patch.age.None? || patch.age == existing.age)
  {
    existing.(name := Coalesce(patch.name, existing.name), age := Coalesce(patch.age, existing.age))
  }

  /** As PatchAuthor, for the updatable fields of a book (title, author). */
  function PatchBook(existing: Book, patch: Book): (merged: Book)
    ensures merged.isbn == existing.isbn
    ensures merged == existing <==>
      (patch.title.None? || patch.title == existing.title) && (patch.author.None? || patch.author == existing.author)
  {
    existing.(title := Coalesce(patch.title, existing.title), author := Coalesce(patch.author, existing.author))
  }

  /** A patch field that is present overwrites; one that is null preserves; the key never changes. */
  lemma PatchAuthorFields(existing: Author, patch: Author)
    ensures PatchAuthor(existing, patch).id == existing.id
    ensures patch.name.Some? ==> PatchAuthor(existing, patch).name == patch.name
    ensures patch.name.None? ==> PatchAuthor(existing, patch).name == existing.name
    ensures patch.age.Some? ==> PatchAuthor(existing, patch).age == patch.age
    ensures patch.age.None? ==> PatchAuthor(existing, patch).age == existing.age
  {
  }

  lemma PatchBookFields(existing: Book, patch: Book)
    ensures PatchBook(existing, patch).isbn == existing.isbn
    ensures patch.title.Some? ==> PatchBook(existing, patch).title == patch.title
    ensures patch.title.None? ==> PatchBook(existing, patch).title == existing.title
    ensures patch.author.Some? ==> PatchBook(existing, patch).author == patch.author
    ensures patch.author.None? ==> PatchBook(existing, patch).author == existing.author
  {
  }

  /** Sending the same patch twice stores the same record as sending it once. */
  lemma PatchAuthorIdempotent(existing: Author, patch: Author)
    ensures PatchAuthor(PatchAuthor(existing, patch), patch) == PatchAuthor(existing, patch)
  {
  }

  lemma PatchBookIdempotent(existing: Book, patch: Book)
    ensures PatchBook(PatchBook(existing, patch), patch) == PatchBook(existing, patch)
  {
  }

  /** A patch whose updatable fields are all null changes nothing. */
  lemma EmptyPatchAuthorKeeps(existing: Author, id: Option<int>)
    ensures PatchAuthor(existing, Author(id, None, None)) == existing
  {
  }

  lemma EmptyPatchBookKeeps(existing: Book, isbn: Option<string>)
    ensures PatchBook(existing, Book(isbn, None, None)) == existing
  {
  }

  /**
   * A patch that gives every updatable field stores the same record as a full
   * update with that body under the existing key.
   */
  lemma FullPatchAuthorReplaces(existing: Author, patch: Author)
    requires patch.name.Some? && patch.age.Some?
    ensures PatchAuthor(existing, patch) == patch.(id := existing.id)
  {
  }

  lemma FullPatchBookReplaces(existing: Book, patch: Book)
    requires patch.title.Some? && patch.author.Some?
    ensures PatchBook(existing, patch) == patch.(isbn := existing.isbn)
  {
  }

  /** Two patches in a row act as one patch in which the later one's given fields win. */
  lemma PatchAuthorSequential(existing: Author, first: Author, second: Author)
    ensures PatchAuthor(PatchAuthor(existing, first), second)
         == PatchAuthor(existing, PatchAuthor(first, second))
  {
  }

  lemma PatchBookSequential(existing: Book, first: Book, second: Book)
    ensures PatchBook(PatchBook(existing, first), second)
         == PatchBook(existing, PatchBook(first, second))
  {
  }
}
