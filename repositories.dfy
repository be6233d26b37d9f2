/**
 * The keyed tables behind the service: authors keyed by a numeric id, books
 * keyed by their isbn. Saving is an upsert by primary key, deleting an absent
 * key does nothing, and the author table answers one derived query,
 * "authors younger than n".
 */
module Repositories {
  import opened Wrappers
  import opened Entities

  /** No two positions of `s` hold the same element. */
  ghost predicate NoDuplicates<T>(s: seq<T>)
  {
    forall i, j :: 0 <= i < j < |s| ==> s[i] != s[j]
  }

  /** The authors of `authors` whose age is known and strictly below `age`. */
  function AuthorsYoungerThan(authors: map<int, Author>, age: int): (young: set<Author>)
    ensures young <= authors.Values
    ensures forall a :: a in young ==> a.age.Some? && a.age.value < age
  {
    set k | k in authors && authors[k].age.Some? && authors[k].age.value < age :: authors[k]
  }

  /** The query returns stored authors only, each one younger than the bound, and all of them. */
  lemma AuthorsYoungerThanExactly(authors: map<int, Author>, age: int)
    ensures forall a :: a in AuthorsYoungerThan(authors, age) ==>
      a in authors.Values && a.age.Some? && a.age.value < age
    ensures forall k :: k in authors && authors[k].age.Some? && authors[k].age.value < age ==>
      authors[k] in AuthorsYoungerThan(authors, age)
    ensures forall a :: a in authors.Values && a.age.Some? && a.age.value < age ==>
      a in AuthorsYoungerThan(authors, age)
  {
    forall a | a in authors.Values && a.age.Some? && a.age.value < age
      ensures a in AuthorsYoungerThan(authors, age)
    {
      var k := KeyOf(authors, a);
    }
  }

  /** Raising the bound never drops an author from the answer. */
  lemma AuthorsYoungerThanMonotone(authors: map<int, Author>, age: int, age': int)
    requires age <= age'
    ensures AuthorsYoungerThan(authors, age) <= AuthorsYoungerThan(authors, age')
  {
  }

  /** An author whose age is unknown (null) is never younger than any bound. */
  lemma AuthorsYoungerThanSkipsUnknownAge(authors: map<int, Author>, age: int, k: int)
    requires k in authors && authors[k].age.None?
    ensures authors[k] !in AuthorsYoungerThan(authors, age)
  {
  }

  /** Some key of a non-empty key set: the order in which the store enumerates its rows. */
  method PickKey<K>(keys: set<K>) returns (k: K)
    requires keys != {}
    ensures k in keys
  {
    k :| k in keys;
  }

  /** A key under which `v` is stored. */
  ghost function KeyOf<K, V>(m: map<K, V>, v: V): (k: K)
    requires v in m.Values
    ensures k in m && m[k] == v
  {
    var k :| k in m && m[k] == v; k
  }

  /** The author table. `nextId` plays the part of the store's identity generator. */
  class AuthorRepository {
    var authors: map<int, Author>
    var nextId: int

    /** Every record is filed under its own id, and the generator is past every id in use. */
    ghost predicate Valid()
      reads this
    {
      forall k :: k in authors ==> authors[k].id == Some(k) && k < nextId
    }

    constructor ()
      ensures Valid() && authors == map[]
    {
      authors := map[];
      nextId := 1;
    }

    /**
     * Upsert: a record with an id replaces whatever is stored under it (or
     * is inserted there); a record without one gets a fresh id.
     */
    method Save(a: Author) returns (saved: Author)
      requires Valid()
      modifies this
      ensures Valid()
      ensures saved.id.Some? && saved == a.(id := saved.id)
      ensures a.id.Some? ==> saved == a
      ensures a.id.None? ==> saved.id.value !in old(authors)
      ensures authors == old(authors)[saved.id.value := saved]
    {
      var key: int;
      if a.id.Some? {
        key := a.id.value;
      } else {
        key := nextId;
      }
      saved := a.(id := Some(key));
      authors := authors[key := saved];
      if nextId <= key {
        nextId := key + 1;
      }
    }

    method FindById(id: int) returns (found: Option<Author>)
      ensures found.Some? <==> id in authors
      ensures found.Some? ==> found.value == authors[id]
    {
      if id in authors {
        found := Some(authors[id]);
      } else {
        found := None;
      }
    }

    method ExistsById(id: int) returns (present: bool)
      ensures present <==> id in authors
    {
      present := id in authors;
    }

    /** Removes `id` if stored; deleting an absent id is a no-op, not an error. */
    method DeleteById(id: int)
      requires Valid()
      modifies this
      ensures Valid()
      ensures authors == old(authors) - {id}
    {
      authors := authors - {id};
    }

    /** Every stored author exactly once, in no particular order. */
    method FindAll() returns (all: seq<Author>)
      requires Valid()
      ensures |all| == |authors|
      ensures forall a :: a in all <==> a in authors.Values
      ensures NoDuplicates(all)
    {
      all := [];
      var pending := authors.Keys;
      while pending != {}
        invariant pending <= authors.Keys
        invariant |all| == |authors.Keys| - |pending|
        invariant forall i :: 0 <= i < |all| ==>
          all[i].id.Some? && all[i].id.value in authors && all[i].id.value !in pending
          && authors[all[i].id.value] == all[i]
        invariant forall k :: k in authors && k !in pending ==> authors[k] in all
        invariant NoDuplicates(all)
        decreases pending
      {
        var k := PickKey(pending);
        all := all + [authors[k]];
        pending := pending - {k};
      }
      forall a | a in authors.Values
        ensures a in all
      {
        var k := KeyOf(authors, a);
      }
    }

    /** The stored authors strictly younger than `age`; an unknown (null) age never qualifies. */
    function AgeLessThan(age: int): (young: set<Author>)
      reads this
      ensures forall a :: a in young <==> a in authors.Values && a.age.Some? && a.age.value < age
    {
      AuthorsYoungerThanExactly(authors, age);
      AuthorsYoungerThan(authors, age)
    }
  }

  /** The book table. */
  class BookRepository {
    var books: map<string, Book>

    /** Every record is filed under its own isbn. */
    ghost predicate Valid()
      reads this
    {
      forall k :: k in books ==> books[k].isbn == Some(k)
    }

    constructor ()
      ensures Valid() && books == map[]
    {
      books := map[];
    }

    /** Upsert by isbn; the isbn is not generated, so the record must carry one. */
    method Save(b: Book) returns (saved: Book)
      requires Valid()
      requires b.isbn.Some?
      modifies this
      ensures Valid()
      ensures saved == b
      ensures books == old(books)[b.isbn.value := b]
    {
      books := books[b.isbn.value := b];
      saved := b;
    }

    method FindById(isbn: string) returns (found: Option<Book>)
      ensures found.Some? <==> isbn in books
      ensures found.Some? ==> found.value == books[isbn]
    {
      if isbn in books {
        found := Some(books[isbn]);
      } else {
        found := None;
      }
    }

    method ExistsById(isbn: string) returns (present: bool)
      ensures present <==> isbn in books
    {
      present := isbn in books;
    }

    /** Removes `isbn` if stored; an absent isbn is a no-op. */
    method DeleteById(isbn: string)
      requires Valid()
      modifies this
      ensures Valid()
      ensures books == old(books) - {isbn}
    {
      books := books - {isbn};
    }

    /** Every stored book exactly once, in no particular order. */
    method FindAll() returns (all: seq<Book>)
      requires Valid()
      ensures |all| == |books|
      ensures forall b :: b in all <==> b in books.Values
      ensures NoDuplicates(all)
    {
      all := [];
      var pending := books.Keys;
      while pending != {}
        invariant pending <= books.Keys
        invariant |all| == |books.Keys| - |pending|
        invariant forall i :: 0 <= i < |all| ==>
          all[i].isbn.Some? && all[i].isbn.value in books && all[i].isbn.value !in pending
          && books[all[i].isbn.value] == all[i]
        invariant forall k :: k in books && k !in pending ==> books[k] in all
        invariant NoDuplicates(all)
        decreases pending
      {
        var k := PickKey(pending);
        all := all + [books[k]];
        pending := pending - {k};
      }
      forall b | b in books.Values
        ensures b in all
      {
        var k := KeyOf(books, b);
      }
    }
  }
}
