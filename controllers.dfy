/**
 * The HTTP handlers' decision logic: each handler answers a status code and
 * an optional body. Not-found pre-checks come before any update, the book PUT
 * reports 201 or 200 from the state before its save, and deletes always
 * answer 204.
 */
module Controllers {
  import opened Wrappers
  import opened Entities
  import opened Repositories
  import opened Services

  const StatusOk: int := 200
  const StatusCreated: int := 201
  const StatusNoContent: int := 204
  const StatusNotFound: int := 404

  /** What a handler answers: a status code and, possibly, a body. */
  datatype Response<+T> = Response(status: int, body: Option<T>)

  class AuthorController {
    const service: AuthorService

    ghost predicate Valid()
      reads service.repo
    {
      service.Valid()
    }

    constructor (service: AuthorService)
      ensures this.service == service
    {
      this.service := service;
    }

    /** POST: stores the body (a fresh id when it carries none) and answers 201 with the stored record. */
    method CreateAuthor(dto: Author) returns (resp: Response<Author>)
      requires Valid()
      modifies service.repo
      ensures Valid()
      ensures resp.status == StatusCreated && resp.body.Some?
      ensures resp.body.value.id.Some? && resp.body.value == dto.(id := resp.body.value.id)
      ensures dto.id.Some? ==> resp.body.value == dto
      ensures dto.id.None? ==> resp.body.value.id.value !in old(service.repo.authors)
      ensures service.repo.authors == old(service.repo.authors)[resp.body.value.id.value := resp.body.value]
    {
      var saved := service.SaveAuthor(dto);
      resp := Response(StatusCreated, Some(saved));
    }

    /** GET one: 200 with the stored author, or 404 without a body. */
    method GetAuthor(id: int) returns (resp: Response<Author>)
      ensures id in service.repo.authors ==> resp == Response(StatusOk, Some(service.repo.authors[id]))
      ensures id !in service.repo.authors ==> resp == Response(StatusNotFound, None)
    {
      var found := service.FindOne(id);
      if found.Some? {
        resp := Response(StatusOk, Some(found.value));
      } else {
        resp := Response(StatusNotFound, None);
      }
    }

    /**
     * PUT: 404 and nothing stored when the id is absent; otherwise the path id
     * is forced onto the body, which replaces the stored record, and the
     * answer is 200 with it.
     */
    method FullUpdateAuthor(id: int, dto: Author) returns (resp: Response<Author>)
      requires Valid()
      modifies service.repo
      ensures Valid()
      ensures id !in old(service.repo.authors) ==>
        resp == Response(StatusNotFound, None) && service.repo.authors == old(service.repo.authors)
      ensures id in old(service.repo.authors) ==>
        resp == Response(StatusOk, Some(dto.(id := Some(id))))
        && service.repo.authors == old(service.repo.authors)[id := dto.(id := Some(id))]
    {
      var present := service.IsPresent(id);
      if !present {
        resp := Response(StatusNotFound, None);
        return;
      }
      var body := dto.(id := Some(id));
      var saved := service.SaveAuthor(body);
      resp := Response(StatusOk, Some(saved));
    }

    /**
     * PATCH: 404 and nothing stored when the id is absent, so the service's
     * failure is never reached from here; otherwise 200 with the merged author.
     */
    method PartialUpdateAuthor(id: int, dto: Author) returns (resp: Response<Author>)
      requires Valid()
      modifies service.repo
      ensures Valid()
      ensures id !in old(service.repo.authors) ==>
        resp == Response(StatusNotFound, None) && service.repo.authors == old(service.repo.authors)
      ensures id in old(service.repo.authors) ==>
        resp == Response(StatusOk, Some(PatchAuthor(old(service.repo.authors)[id], dto)))
        && service.repo.authors == old(service.repo.authors)[id := resp.body.value]
    {
      var present := service.IsPresent(id);
      if !present {
        resp := Response(StatusNotFound, None);
        return;
      }
      var r := service.PartialUpdateAuthor(id, dto);
      resp := Response(StatusOk, Some(r.value));
    }

    /** DELETE: removes the id if stored and answers 204 either way. */
    method DeleteAuthor(id: int) returns (resp: Response<Author>)
      requires Valid()
      modifies service.repo
      ensures Valid()
      ensures resp == Response(StatusNoContent, None)
      ensures service.repo.authors == old(service.repo.authors) - {id}
    {
      service.Delete(id);
      resp := Response(StatusNoContent, None);
    }
  }

  class BookController {
    const service: BookService

    ghost predicate Valid()
      reads service.repo
    {
      service.Valid()
    }

    constructor (service: BookService)
      ensures this.service == service
    {
      this.service := service;
    }

    /**
     * PUT: stores the body under the path isbn (whatever isbn it carried) and
     * answers 200 if the isbn was stored before the call, 201 if it was not,
     * with the body as stored.
     */
    method CreateUpdateBook(isbn: string, dto: Book) returns (resp: Response<Book>)
      requires Valid()
      modifies service.repo
      ensures Valid()
      ensures resp.status == if isbn in old(service.repo.books) then StatusOk else StatusCreated
      ensures resp.body == Some(dto.(isbn := Some(isbn)))
      ensures service.repo.books == old(service.repo.books)[isbn := dto.(isbn := Some(isbn))]
    {
      var entity := dto;
      var bookExists := service.IsPresent(isbn);
      var saved := service.SaveBook(isbn, entity);
      // saveBook assigns the path isbn to the caller's own entity before storing it
      entity := entity.(isbn := Some(isbn));
      if bookExists {
        resp := Response(StatusOk, Some(entity));
      } else {
        resp := Response(StatusCreated, Some(saved));
      }
    }

    /** GET one: 200 with the stored book, or 404 without a body. */
    method GetBook(isbn: string) returns (resp: Response<Book>)
      ensures isbn in service.repo.books ==> resp == Response(StatusOk, Some(service.repo.books[isbn]))
      ensures isbn !in service.repo.books ==> resp == Response(StatusNotFound, None)
    {
      var found := service.FindOne(isbn);
      if found.Some? {
        resp := Response(StatusOk, Some(found.value));
      } else {
        resp := Response(StatusNotFound, None);
      }
    }

    /** PATCH: 404 and nothing stored when the isbn is absent; otherwise 200 with the merged book. */
    method PartialUpdateBook(isbn: string, dto: Book) returns (resp: Response<Book>)
      requires Valid()
      modifies service.repo
      ensures Valid()
      ensures isbn !in old(service.repo.books) ==>
        resp == Response(StatusNotFound, None) && service.repo.books == old(service.repo.books)
      ensures isbn in old(service.repo.books) ==>
        resp == Response(StatusOk, Some(PatchBook(old(service.repo.books)[isbn], dto)))
        && resp.body.value.isbn == Some(isbn)
        && service.repo.books == old(service.repo.books)[isbn := resp.body.value]
    {
      var present := service.IsPresent(isbn);
      if !present {
        resp := Response(StatusNotFound, None);
        return;
      }
      var r := service.PartialUpdate(isbn, dto);
      resp := Response(StatusOk, Some(r.value));
    }

    /** DELETE: removes the isbn if stored and answers 204 either way. */
    method DeleteBook(isbn: string) returns (resp: Response<Book>)
      requires Valid()
      modifies service.repo
      ensures Valid()
      ensures resp == Response(StatusNoContent, None)
      ensures service.repo.books == old(service.repo.books) - {isbn}
    {
      service.Delete(isbn);
      resp := Response(StatusNoContent, None);
    }
  }
}
