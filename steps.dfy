/** The create / get / update / delete pattern every service repeats, as pure
    transitions from the store's table before a call to its answer and the
    table after it. A thrown service exception is an `Err`; a store write the
    store refuses (a `DataIntegrityViolationException`) rolls the transaction
    back and leaves the table as it was. */
module ServiceSteps {
  import opened Outcomes
  import opened Entities
  import opened Store

  /** The answer of one service call and the table it leaves behind. */
  datatype Step<T, F> = Step(result: Result<T>, table: Table<F>)

  /** What a service does when the store refuses a delete: let the store's
      exception through (it reaches the catch-all handler), or replace it by
      the given error. */
  datatype OnRefusal = Propagate | Translate(error: ServiceError)

  /** `save(entity)`, with a refusal reported as `conflict`. */
  function SaveStep<F>(t: Table<F>, e: Entity<F>, v: Verdict, conflict: ServiceError): (s: Step<Entity<F>, F>)
    ensures v.Rejects? <==> s.result == Err(conflict)
    ensures v.Rejects? ==> s.table == t
  {
    if v.Rejects? then Step(Err(conflict), t)
    else Step(Ok(Saved(t, e)), AfterSave(t, e))
  }

  /** `findById(id)`, with an absent id reported as `notFound`. */
  function GetStep<F>(t: Table<F>, id: int, notFound: ServiceError): (r: Result<Entity<F>>)
    ensures r.Ok? <==> id in t.rows
    ensures r.Ok? ==> r.value == Entity(Some(id), t.rows[id])
    ensures r.Err? ==> r.error == notFound
  {
    match Lookup(t, id)
    case None => Err(notFound)
    case Some(e) => Ok(e)
  }

  /** `findById(id)`, then `save` of the found entity with its fields replaced
      by `fields`. */
  function UpdateStep<F>(t: Table<F>, id: int, fields: F, v: Verdict, notFound: ServiceError, conflict: ServiceError): (s: Step<Entity<F>, F>)
    ensures s.result.Err? ==> s.table == t
    ensures id !in t.rows ==> s.result == Err(notFound)
    ensures id in t.rows && v.Rejects? ==> s.result == Err(conflict)
    ensures id in t.rows && v.Accepts? ==> s.result == Ok(Entity(Some(id), fields))
  {
    if id !in t.rows then Step(Err(notFound), t)
    else SaveStep(t, Entity(Some(id), fields), v, conflict)
  }

  /** An existence check on `id`, then `deleteById(id)`. */
  function DeleteStep<F>(t: Table<F>, id: int, v: Verdict, notFound: ServiceError, onRefusal: OnRefusal): (s: Step<(), F>)
    ensures s.result.Err? ==> s.table == t
    ensures id !in t.rows ==> s.result == Err(notFound)
    ensures id in t.rows && v.Rejects? && onRefusal.Propagate? ==> s.result == Err(Unexpected(v.message))
    ensures id in t.rows && v.Rejects? && onRefusal.Translate? ==> s.result == Err(onRefusal.error)
    ensures id in t.rows && v.Accepts? ==> s.result == Ok(()) && s.table == AfterDelete(t, id)
  {
    if id !in t.rows then Step(Err(notFound), t)
    else if v.Accepts? then Step(Ok(()), AfterDelete(t, id))
    else match onRefusal
      case Propagate => Step(Err(Unexpected(v.message)), t)
      case Translate(error) => Step(Err(error), t)
  }

  /** Every step keeps the table well formed. */
  lemma StepsWellFormed<F>(t: Table<F>, e: Entity<F>, id: int, fields: F, v: Verdict, err: ServiceError, onRefusal: OnRefusal)
    requires WellFormed(t)
    ensures WellFormed(SaveStep(t, e, v, err).table)
    ensures WellFormed(UpdateStep(t, id, fields, v, err, err).table)
    ensures WellFormed(DeleteStep(t, id, v, err, onRefusal).table)
  {
    SaveWellFormed(t, e);
    SaveWellFormed(t, Entity(Some(id), fields));
    DeleteWellFormed(t, id);
  }

  /** Create-then-get: a created entity is found under the id it came back
      with, and is listed; a new entity is appended to the listing. */
  lemma CreateThenGet<F>(t: Table<F>, e: Entity<F>, conflict: ServiceError, notFound: ServiceError)
    requires WellFormed(t)
    ensures var s := SaveStep(t, e, Accepts, conflict);
      && s.result.Ok? && s.result.value.id.Some?
      && s.result.value.fields == e.fields
      && GetStep(s.table, s.result.value.id.value, notFound) == s.result
      && s.result.value in Listing(s.table)
      && (!IsStored(t, e) ==> Listing(s.table) == Listing(t) + [s.result.value])
  {
    SaveThenLookup(t, e);
    SaveListing(t, e);
    ListingIsLookup(AfterSave(t, e));
  }

  /** Update-then-get: the id finds the new fields, every other id finds what
      it found before, and the listing keeps its length and order of ids. */
  lemma UpdateThenGet<F>(t: Table<F>, id: int, fields: F, conflict: ServiceError, notFound: ServiceError)
    requires WellFormed(t) && id in t.rows
    ensures var s := UpdateStep(t, id, fields, Accepts, notFound, conflict);
      && GetStep(s.table, id, notFound) == Ok(Entity(Some(id), fields))
      && (forall k :: k != id ==> GetStep(s.table, k, notFound) == GetStep(t, k, notFound))
      && |Listing(s.table)| == |Listing(t)|
      && (forall i :: 0 <= i < |Listing(t)| ==> Listing(s.table)[i].id == Listing(t)[i].id)
  {
    var e := Entity(Some(id), fields);
    SaveListing(t, e);
    var l, l' := Listing(t), Listing(AfterSave(t, e));
    forall i | 0 <= i < |l| ensures l'[i].id == l[i].id {
    }
  }

  /** Delete-then-get: the id is no longer found, every other id finds what it
      found before, and the listing loses exactly that entity. */
  lemma DeleteThenGet<F>(t: Table<F>, id: int, notFound: ServiceError, onRefusal: OnRefusal)
    requires WellFormed(t) && id in t.rows
    ensures var s := DeleteStep(t, id, Accepts, notFound, onRefusal);
      && GetStep(s.table, id, notFound) == Err(notFound)
      && (forall k :: k != id ==> GetStep(s.table, k, notFound) == GetStep(t, k, notFound))
      && WellFormed(s.table)
      && |Listing(s.table)| == |Listing(t)| - 1
      && (forall e :: e in Listing(s.table) <==> e in Listing(t) && e.id != Some(id))
  {
    DeleteThenLookup(t, id);
  }

  /** A second delete of the same id reports it missing and changes nothing. */
  lemma DeleteTwice<F>(t: Table<F>, id: int, v: Verdict, notFound: ServiceError, onRefusal: OnRefusal)
    requires WellFormed(t) && id in t.rows
    ensures var s := DeleteStep(t, id, Accepts, notFound, onRefusal);
      DeleteStep(s.table, id, v, notFound, onRefusal) == Step(Err(notFound), s.table)
  {
    DeleteThenLookup(t, id);
  }

  /** An update that writes the fields already stored changes nothing. */
  lemma UpdateIdempotent<F>(t: Table<F>, id: int, v: Verdict, notFound: ServiceError, conflict: ServiceError)
    requires WellFormed(t) && id in t.rows && v.Accepts?
    ensures UpdateStep(t, id, t.rows[id], v, notFound, conflict).table == t
  {
    assert t.rows[id := t.rows[id]] == t.rows;
  }
}
