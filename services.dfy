/**
 * The service layer: thin pass-throughs to the repositories, plus the book
 * save that forces the path isbn onto the entity, and the field-level
 * null-coalescing partial updates.
 */
module Services {
  import opened Wrappers
  import opened Entities
  import opened Repositories

  class AuthorService {
    const repo: AuthorRepository

    ghost predicate Valid()
      reads repo
    {
      repo.Valid()
    }

    constructor (repo: AuthorRepository)
      ensures this.repo == repo
    {
      this.repo := repo;
    }

    /** Upserts `a` and returns the stored record. */
    method SaveAuthor(a: Author) returns (saved: Author)
      requires Valid()
      modifies repo
      ensures Valid()
      ensures saved.id.Some? && saved == a.(id := saved.id)
      ensures a.id.Some? ==> saved == a
      ensures a.id.None? ==> saved.id.value !in old(repo.authors)
      ensures repo.authors == old(repo.authors)[saved.id.value := saved]
    {
      saved := repo.Save(a);
    }

    /** Every stored author. */
    method FindAll() returns (all: seq<Author>)
      requires Valid()
      ensures |all| == |repo.authors|
      ensures forall a :: a in all <==> a in repo.authors.Values
      ensures NoDuplicates(all)
    {
      all := repo.FindAll();
    }

    method FindOne(id: int) returns (found: Option<Author>)
      ensures found.Some? <==> id in repo.authors
      ensures found.Some? ==> found.value == repo.authors[id]
    {
      found := repo.FindById(id);
    }

    /** True exactly when FindOne(id) would find a record. */
    method IsPresent(id: int) returns (present: bool)
      ensures present <==> id in repo.authors
    {
      present := repo.ExistsById(id);
    }

    /**
     * Loads the author stored under `id`, overwrites its name and age with
     * the patch's non-null ones, stores and returns the result. A missing id
     * fails with "Author does not exist." and leaves the table as it was.
     */
    method PartialUpdateAuthor(id: int, patch: Author) returns (r: Result<Author, string>)
      requires Valid()
      modifies repo
      ensures Valid()
      ensures r.Success? <==> id in old(repo.authors)
      ensures r.Success? ==> r.value == PatchAuthor(old(repo.authors)[id], patch) && r.value.id == Some(id)
      ensures r.Success? ==> repo.authors == old(repo.authors)[id := r.value]
      ensures r.Failure? ==> r.error == "Author does not exist." && repo.authors == old(repo.authors)
    {
      var existing := repo.FindById(id);
      if existing.Some? {
        var existingAuthor := existing.value;
        if patch.name.Some? {
          existingAuthor := existingAuthor.(name := patch.name);
        }
        if patch.age.Some? {
          existingAuthor := existingAuthor.(age := patch.age);
        }
        var _ := repo.Save(existingAuthor);
        r := Success(existingAuthor);
      } else {
        r := Failure("Author does not exist.");
      }
    }

    /** Removes `id`; deleting an absent id is not an error. */
    method Delete(id: int)
      requires Valid()
      modifies repo
      ensures Valid()
      ensures repo.authors == old(repo.authors) - {id}
    {
      repo.DeleteById(id);
    }
  }

  class BookService {
    const repo: BookRepository

    ghost predicate Valid()
      reads repo
    {
      repo.Valid()
    }

    constructor (repo: BookRepository)
      ensures this.repo == repo
    {
      this.repo := repo;
    }

    /**
     * Stores `b` under the key `isbn`, whatever isbn `b` carried, and returns
     * the stored record.
     */
    method SaveBook(isbn: string, b: Book) returns (saved: Book)
      requires Valid()
      modifies repo
      ensures Valid()
      ensures saved == b.(isbn := Some(isbn))
      ensures repo.books == old(repo.books)[isbn := saved]
    {
      var entity := b.(isbn := Some(isbn));
      saved := repo.Save(entity);
    }

    /** Every stored book. */
    method FindAll() returns (all: seq<Book>)
      requires Valid()
      ensures |all| == |repo.books|
      ensures forall b :: b in all <==> b in repo.books.Values
      ensures NoDuplicates(all)
    {
      all := repo.FindAll();
    }

    method FindOne(isbn: string) returns (found: Option<Book>)
      ensures found.Some? <==> isbn in repo.books
      ensures found.Some? ==> found.value == repo.books[isbn]
    {
      found := repo.FindById(isbn);
    }

    /** True exactly when FindOne(isbn) would find a record. */
    method IsPresent(isbn: string) returns (present: bool)
      ensures present <==> isbn in repo.books
    {
      present := repo.ExistsById(isbn);
    }

    /**
     * Loads the book stored under `isbn`, overwrites its title and author with
     * the patch's non-null ones, stores and returns the result. A missing isbn
     * fails with "Book does not exist." and leaves the table as it was.
     */
    method PartialUpdate(isbn: string, patch: Book) returns (r: Result<Book, string>)
      requires Valid()
      modifies repo
      ensures Valid()
      ensures r.Success? <==> isbn in old(repo.books)
      ensures r.Success? ==> r.value == PatchBook(old(repo.books)[isbn], patch) && r.value.isbn == Some(isbn)
      ensures r.Success? ==> repo.books == old(repo.books)[isbn := r.value]
      ensures r.Failure? ==> r.error == "Book does not exist." && repo.books == old(repo.books)
    {
      var existing := repo.FindById(isbn);
      if existing.Some? {
        var existingBook := existing.value;
        if patch.title.Some? {
          existingBook := existingBook.(title := patch.title);
        }
        if patch.author.Some? {
          existingBook := existingBook.(author := patch.author);
        }
        var _ := repo.Save(existingBook);
        r := Success(existingBook);
      } else {
        r := Failure("Book does not exist.");
      }
    }

    /** Removes `isbn` only; an absent isbn is not an error. */
    method Delete(isbn: string)
      requires Valid()
      modifies repo
      ensures Valid()
      ensures repo.books == old(repo.books) - {isbn}
    {
      repo.DeleteById(isbn);
    }
  }
}
