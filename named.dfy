/** `AuthorServiceImpl` and `PublisherServiceImpl`: create, list, get, update
    and delete of an entity whose only modelled field is its name. Both
    packages hold the same code for each entity, so one class stands for both
    copies, and the entity kind chooses the messages. */
module NamedServices {
  import opened Outcomes
  import opened Entities
  import opened Text
  import opened Store
  import opened ServiceSteps
  import opened ExceptionHandler

  datatype Kind = AuthorKind | PublisherKind

  function KindName(k: Kind): string
  {
    match k
    case AuthorKind => "Author"
    case PublisherKind => "Publisher"
  }

  /** The exception thrown for an id the store does not hold. */
  function NotFoundError(k: Kind, id: int): ServiceError
  {
    ResourceNotFound(KindName(k) + " not found with id " + IntToString(id))
  }

  /** The exception a refused `save` is translated into. */
  function AlreadyExists(k: Kind): ServiceError
  {
    DataIntegrity(KindName(k) + " with this name already exists")
  }

  /** A not-found message names its kind and its id: no two differ only in
      wording. */
  lemma NotFoundIdentifies(k1: Kind, i1: int, k2: Kind, i2: int)
    requires NotFoundError(k1, i1) == NotFoundError(k2, i2)
    ensures k1 == k2 && i1 == i2
  {
    var m1, m2 := NotFoundError(k1, i1).message, NotFoundError(k2, i2).message;
    assert m1[0] == KindName(k1)[0] && m2[0] == KindName(k2)[0];
    var p := KindName(k1) + " not found with id ";
    assert m1[|p|..] == IntToString(i1) && m2[|p|..] == IntToString(i2);
    IntToStringInjective(i1, i2);
  }

  /** A lookup of a missing id answers 404 with the not-found message as body;
      a refused create answers 409. */
  lemma ErrorResponses<F>(k: Kind, t: Table<F>, id: int, e: Entity<F>, message: string)
    ensures id !in t.rows ==>
      Handle(GetStep(t, id, NotFoundError(k, id)).error)
        == Response(NotFound, KindName(k) + " not found with id " + IntToString(id))
    ensures Handle(SaveStep(t, e, Rejects(message), AlreadyExists(k)).result.error)
        == Response(Conflict, KindName(k) + " with this name already exists")
  {
  }

  /** A service bean over one repository of authors or of publishers. */
  class NamedService {
    const kind: Kind
    const repo: Repository<NameData>

    constructor (kind: Kind, repo: Repository<NameData>)
      ensures this.kind == kind && this.repo == repo
    {
      this.kind := kind;
      this.repo := repo;
    }

    /** `createAuthor` / `createPublisher`. */
    method Create(e: Entity<NameData>, v: Verdict) returns (r: Result<Entity<NameData>>)
      requires repo.Valid()
      modifies repo
      ensures repo.Valid()
      ensures repo.calls == old(repo.calls) + [SaveCall(e)]
      ensures Step(r, repo.Snapshot()) == SaveStep(old(repo.Snapshot()), e, v, AlreadyExists(kind))
    {
      var w := repo.Save(e, v);
      match w
      case Written(saved) => r := Ok(saved);
      case IntegrityViolation(_) => r := Err(AlreadyExists(kind));
    }

    /** `getAllAuthors` / `getAllPublishers`. */
    method GetAll() returns (r: seq<Entity<NameData>>)
      requires repo.Valid()
      modifies repo`calls
      ensures repo.Valid()
      ensures repo.calls == old(repo.calls) + [FindAllCall]
      ensures r == Listing(repo.Snapshot())
    {
      r := repo.FindAll();
    }

    /** `getAuthorById` / `getPublisherById`. */
    method GetById(id: int) returns (r: Result<Entity<NameData>>)
      modifies repo`calls
      ensures repo.calls == old(repo.calls) + [FindByIdCall(id)]
      ensures r == GetStep(repo.Snapshot(), id, NotFoundError(kind, id))
    {
      var found := repo.FindById(id);
      match found
      case None => r := Err(NotFoundError(kind, id));
      case Some(e) => r := Ok(e);
    }

    /** `updateAuthor` / `updatePublisher`: the found entity takes the name of
        `details` (the only field of the record) and is saved. */
    method Update(id: int, details: Entity<NameData>, v: Verdict) returns (r: Result<Entity<NameData>>)
      requires repo.Valid()
      modifies repo
      ensures repo.Valid()
      ensures repo.calls == old(repo.calls) + [FindByIdCall(id)]
        + (if id in old(repo.rows) then [SaveCall(Entity(Some(id), details.fields))] else [])
      ensures Step(r, repo.Snapshot())
        == UpdateStep(old(repo.Snapshot()), id, details.fields, v, NotFoundError(kind, id), AlreadyExists(kind))
    {
      var found := repo.FindById(id);
      if found.None? {
        r := Err(NotFoundError(kind, id));
        return;
      }
      var e := found.value.(fields := details.fields);
      var w := repo.Save(e, v);
      match w
      case Written(saved) => r := Ok(saved);
      case IntegrityViolation(_) => r := Err(AlreadyExists(kind));
    }

    /** `deleteAuthor` / `deletePublisher`: a refused delete is not caught. */
    method Delete(id: int, v: Verdict) returns (r: Result<()>)
      requires repo.Valid()
      modifies repo
      ensures repo.Valid()
      ensures repo.calls == old(repo.calls) + [ExistsByIdCall(id)]
        + (if id in old(repo.rows) then [DeleteByIdCall(id)] else [])
      ensures Step(r, repo.Snapshot()) == DeleteStep(old(repo.Snapshot()), id, v, NotFoundError(kind, id), Propagate)
    {
      var present := repo.ExistsById(id);
      if !present {
        r := Err(NotFoundError(kind, id));
        return;
      }
      var w := repo.DeleteById(id, v);
      match w
      case Written(_) => r := Ok(());
      case IntegrityViolation(m) => r := Err(Unexpected(m));
    }
  }
}
