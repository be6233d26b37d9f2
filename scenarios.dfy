/**
 * Clients of the model that replay what the repository and controller
 * integration tests exercise, for all inputs where the tests use one.
 * Each works on a fresh store unless it is handed one.
 */
module Scenarios {
  import opened Wrappers
  import opened Entities
  import opened Repositories
  import opened Services
  import opened Controllers

  /** In a sequence without duplicates every element occurs exactly once. */
  lemma {:induction false} OccursOnce<T>(s: seq<T>, x: T)
    requires NoDuplicates(s)
    ensures multiset(s)[x] == if x in s then 1 else 0
  {
    if s != [] {
      assert NoDuplicates(s[1..]);
      OccursOnce(s[1..], x);
      assert s == [s[0]] + s[1..];
      assert s[0] !in s[1..];
    }
  }

  /** Two duplicate-free sequences with the same members are permutations of each other. */
  lemma SameMembersPermutation<T>(r: seq<T>, s: seq<T>)
    requires NoDuplicates(r) && NoDuplicates(s)
    requires forall x :: x in r <==> x in s
    ensures multiset(r) == multiset(s)
  {
    forall x
      ensures multiset(r)[x] == multiset(s)[x]
    {
      OccursOnce(r, x);
      OccursOnce(s, x);
    }
  }

  /** Inserting a new key adds exactly its value to the stored values. */
  lemma ValuesAfterInsert(m: map<int, Author>, k: int, v: Author)
    requires k !in m
    ensures forall a :: a in m[k := v].Values <==> a in m.Values || a == v
  {
    forall a | a in m[k := v].Values
      ensures a in m.Values || a == v
    {
      var j := KeyOf(m[k := v], a);
      if j != k {
        assert m[j] == a;
      }
    }
    forall a | a in m.Values
      ensures a in m[k := v].Values
    {
      var j := KeyOf(m, a);
      assert m[k := v][j] == a;
    }
    assert m[k := v][k] == v;
  }

  /**
   * Saving authors with pairwise distinct ids into an empty table and then
   * listing it yields exactly those authors, each once, in some order.
   */
  method ListSavedAuthors(authors: seq<Author>) returns (listed: seq<Author>)
    requires forall i :: 0 <= i < |authors| ==> authors[i].id.Some?
    requires forall i, j :: 0 <= i < j < |authors| ==> authors[i].id != authors[j].id
    ensures multiset(listed) == multiset(authors)
  {
    var repo := new AuthorRepository();
    var i := 0;
    while i < |authors|
      invariant 0 <= i <= |authors|
      invariant repo.Valid()
      invariant forall a :: a in repo.authors.Values <==> a in authors[..i]
    {
      var k := authors[i].id.value;
      assert k !in repo.authors by {
        forall x | x in repo.authors
          ensures x != k
        {
          var a := repo.authors[x];
          assert a in repo.authors.Values;
          var j :| 0 <= j < i && authors[j] == a;
          assert authors[j].id == Some(x);
        }
      }
      ValuesAfterInsert(repo.authors, k, authors[i]);
      var _ := repo.Save(authors[i]);
      assert authors[..i + 1] == authors[..i] + [authors[i]];
      i := i + 1;
    }
    assert authors[..i] == authors;
    listed := repo.FindAll();
    SameMembersPermutation(listed, authors);
  }

  /** Ages 49, 28 and 54 stored; the query with bound 50 answers the first two only. */
  method AgeLessThanScenario() returns (young: set<Author>)
    ensures young == {Author(Some(1), Some("Jane Foster"), Some(49)), Author(Some(2), Some("Kim Dokja"), Some(28))}
  {
    var repo := new AuthorRepository();
    var jane := Author(Some(1), Some("Jane Foster"), Some(49));
    var kim := Author(Some(2), Some("Kim Dokja"), Some(28));
    var cross := Author(Some(3), Some("Cross Shakti"), Some(54));
    var _ := repo.Save(jane);
    var _ := repo.Save(kim);
    var _ := repo.Save(cross);
    assert repo.authors == map[1 := jane, 2 := kim, 3 := cross];
    young := repo.AgeLessThan(50);
    assert jane in young && kim in young;
  }

  /** After a save, looking the record up by its id finds it. */
  method SaveThenFindAuthor(repo: AuthorRepository, a: Author) returns (found: Option<Author>)
    requires repo.Valid()
    modifies repo
    ensures found.Some? && found.value.name == a.name && found.value.age == a.age
    ensures a.id.Some? ==> found == Some(a)
  {
    var saved := repo.Save(a);
    found := repo.FindById(saved.id.value);
  }

  /** Saving again under a stored id replaces the record: the lookup sees the new fields. */
  method UpdateThenFindAuthor(repo: AuthorRepository, a: Author, name: string) returns (found: Option<Author>)
    requires repo.Valid() && a.id.Some?
    modifies repo
    ensures found == Some(a.(name := Some(name)))
  {
    var _ := repo.Save(a);
    var _ := repo.Save(a.(name := Some(name)));
    found := repo.FindById(a.id.value);
  }

  /** After a delete, the lookup finds nothing. */
  method DeleteThenFindAuthor(repo: AuthorRepository, id: int) returns (found: Option<Author>)
    requires repo.Valid()
    modifies repo
    ensures found == None
  {
    repo.DeleteById(id);
    found := repo.FindById(id);
  }

  /** The book table keeps the same round trips. */
  method SaveThenFindBook(repo: BookRepository, b: Book) returns (found: Option<Book>)
    requires repo.Valid() && b.isbn.Some?
    modifies repo
    ensures found == Some(b)
  {
    var _ := repo.Save(b);
    found := repo.FindById(b.isbn.value);
  }

  /** POST answers 201 with a record that has an id and the posted fields; GET by that id answers 200 with it. */
  method CreateThenGetAuthor(dto: Author) returns (created: Response<Author>, got: Response<Author>)
    ensures created.status == StatusCreated && created.body.Some?
    ensures created.body.value.id.Some?
    ensures created.body.value.name == dto.name && created.body.value.age == dto.age
    ensures got == Response(StatusOk, created.body)
  {
    var repo := new AuthorRepository();
    var service := new AuthorService(repo);
    var controller := new AuthorController(service);
    created := controller.CreateAuthor(dto);
    got := controller.GetAuthor(created.body.value.id.value);
  }

  /** A PATCH that gives only a name keeps the stored age (and id). */
  method PatchNameKeepsAge(stored: Author, name: string) returns (patched: Response<Author>)
    requires stored.id.Some?
    ensures patched == Response(StatusOk, Some(stored.(name := Some(name))))
  {
    var repo := new AuthorRepository();
    var service := new AuthorService(repo);
    var controller := new AuthorController(service);
    var _ := controller.CreateAuthor(stored);
    patched := controller.PartialUpdateAuthor(stored.id.value, Author(None, Some(name), None));
  }

  /** On an empty table GET, PUT and PATCH answer 404 and DELETE answers 204. */
  method MissingAuthor(id: int, dto: Author) returns (got: Response<Author>, put: Response<Author>,
                                                     patched: Response<Author>, deleted: Response<Author>)
    ensures got.status == StatusNotFound && put.status == StatusNotFound
    ensures patched.status == StatusNotFound && deleted.status == StatusNoContent
  {
    var repo := new AuthorRepository();
    var service := new AuthorService(repo);
    var controller := new AuthorController(service);
    got := controller.GetAuthor(id);
    put := controller.FullUpdateAuthor(id, dto);
    patched := controller.PartialUpdateAuthor(id, dto);
    deleted := controller.DeleteAuthor(id);
  }

  /**
   * PUT on a fresh isbn answers 201; PUT again with another title answers
   * 200, and GET then answers the new title under the path isbn.
   */
  method PutBookTwice(isbn: string, dto: Book, title: string)
    returns (first: Response<Book>, second: Response<Book>, got: Response<Book>)
    ensures first.status == StatusCreated && second.status == StatusOk
    ensures got == Response(StatusOk, Some(dto.(isbn := Some(isbn), title := Some(title))))
  {
    var repo := new BookRepository();
    var service := new BookService(repo);
    var controller := new BookController(service);
    first := controller.CreateUpdateBook(isbn, dto);
    second := controller.CreateUpdateBook(isbn, dto.(title := Some(title)));
    got := controller.GetBook(isbn);
  }

  /** Deleting a book that was stored answers 204 and a later GET answers 404. */
  method DeleteBookThenGet(isbn: string, dto: Book) returns (deleted: Response<Book>, got: Response<Book>)
    ensures deleted.status == StatusNoContent && got.status == StatusNotFound
  {
    var repo := new BookRepository();
    var service := new BookService(repo);
    var controller := new BookController(service);
    var _ := controller.CreateUpdateBook(isbn, dto);
    deleted := controller.DeleteBook(isbn);
    got := controller.GetBook(isbn);
  }
}
