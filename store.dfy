/** The persistence boundary the services call (`JpaRepository`): a table from
    id to record, kept in insertion order, with an identity counter. The store's
    transitions are pure functions on `Table`; `Repository` is the stateful
    object the services hold, and it records every call made on it. */
module Store {
  import opened Outcomes
  import opened Entities
  import opened Sequences

  /** The contents of one table: the records by id, the ids in the order
      `findAll` lists them, and the next identity value to hand out. */
  datatype Table<F> = Table(rows: map<int, F>, order: seq<int>, nextId: int)

  /** `order` lists every stored id exactly once, and every stored id is below
      the identity counter. */
  predicate WellFormed<F>(t: Table<F>)
  {
    && Distinct(t.order)
    && (forall k :: k in t.rows ==> k in t.order)
    && (forall i :: 0 <= i < |t.order| ==> t.order[i] in t.rows)
    && (forall k :: k in t.rows ==> k < t.nextId)
  }

  /** `findById`. */
  function Lookup<F>(t: Table<F>, id: int): Option<Entity<F>>
  {
    if id in t.rows then Some(Entity(Some(id), t.rows[id])) else None
  }

  /** `findAll`. */
  function Listing<F>(t: Table<F>): seq<Entity<F>>
    requires WellFormed(t)
  {
    seq(|t.order|, i requires 0 <= i < |t.order| => Entity(Some(t.order[i]), t.rows[t.order[i]]))
  }

  /** The entity names a stored row, so `save` updates that row. */
  predicate IsStored<F>(t: Table<F>, e: Entity<F>)
  {
    e.id.Some? && e.id.value in t.rows
  }

  /** What `save` returns: the entity itself when it updates a stored row, and
      otherwise the entity under a freshly generated id. */
  function Saved<F>(t: Table<F>, e: Entity<F>): Entity<F>
  {
    if IsStored(t, e) then e else Entity(Some(t.nextId), e.fields)
  }

  /** The table after a successful `save`. */
  function AfterSave<F>(t: Table<F>, e: Entity<F>): Table<F>
  {
    if IsStored(t, e) then t.(rows := t.rows[e.id.value := e.fields])
    else Table(t.rows[t.nextId := e.fields], t.order + [t.nextId], t.nextId + 1)
  }

  /** `s` without the value `k`. */
  function Without(s: seq<int>, k: int): (r: seq<int>)
    ensures forall x :: x in r <==> x in s && x != k
    ensures |r| <= |s|
  {
    if s == [] then []
    else if s[0] == k then Without(s[1..], k)
    else [s[0]] + Without(s[1..], k)
  }

  /** Removing a value keeps a sequence free of repetitions. */
  lemma {:induction false} WithoutDistinct(s: seq<int>, k: int)
    requires Distinct(s)
    ensures Distinct(Without(s, k))
  {
    if s != [] {
      WithoutDistinct(s[1..], k);
      assert s[0] !in s[1..];
    }
  }

  /** The table after a successful `deleteById`. */
  function AfterDelete<F>(t: Table<F>, id: int): Table<F>
  {
    Table(t.rows - {id}, Without(t.order, id), t.nextId)
  }

  /** `findAll` lists exactly what `findById` finds, once per stored id. */
  lemma ListingIsLookup<F>(t: Table<F>)
    requires WellFormed(t)
    ensures forall e :: e in Listing(t) <==> e.id.Some? && Lookup(t, e.id.value) == Some(e)
    ensures forall i, j :: 0 <= i < j < |Listing(t)| ==> Listing(t)[i].id != Listing(t)[j].id
    ensures |Listing(t)| == |t.rows|
  {
    var l := Listing(t);
    forall e: Entity<F> | e.id.Some? && Lookup(t, e.id.value) == Some(e) ensures e in l {
      var k := e.id.value;
      assert k in t.order;
      var i :| 0 <= i < |t.order| && t.order[i] == k;
      assert l[i] == e;
    }
    DistinctCardinality(t.order);
    forall x | x in t.order ensures x in t.rows {
      var i :| 0 <= i < |t.order| && t.order[i] == x;
    }
    var ids := set x | x in t.order;
    assert forall x :: x in ids <==> x in t.rows.Keys;
    assert ids == t.rows.Keys;
  }

  /** `save` keeps the table well formed. */
  lemma SaveWellFormed<F>(t: Table<F>, e: Entity<F>)
    requires WellFormed(t)
    ensures WellFormed(AfterSave(t, e))
  {
    if !IsStored(t, e) {
      var o := t.order + [t.nextId];
      assert t.nextId !in t.order;
      forall i, j | 0 <= i < j < |o| ensures o[i] != o[j] {
        if j == |o| - 1 { assert o[i] in t.order; }
      }
    }
  }

  /** Create-then-get: the id `save` returns finds what `save` returned, and
      every other id finds what it found before. */
  lemma SaveThenLookup<F>(t: Table<F>, e: Entity<F>)
    requires WellFormed(t)
    ensures Saved(t, e).id.Some?
    ensures Lookup(AfterSave(t, e), Saved(t, e).id.value) == Some(Saved(t, e))
    ensures forall k :: k != Saved(t, e).id.value ==> Lookup(AfterSave(t, e), k) == Lookup(t, k)
  {
  }

  /** `save` of a stored entity returns it unchanged and adds no row; `save` of
      any other entity assigns an id no stored row has and adds exactly one row. */
  lemma SaveIdentity<F>(t: Table<F>, e: Entity<F>)
    requires WellFormed(t)
    ensures IsStored(t, e) ==> Saved(t, e) == e && |AfterSave(t, e).rows| == |t.rows|
    ensures !IsStored(t, e) ==> Saved(t, e).id.value !in t.rows && |AfterSave(t, e).rows| == |t.rows| + 1
  {
  }

  /** `findAll` after `save`: an update replaces the entry in place, an insert
      appends the new entity at the end. */
  lemma SaveListing<F>(t: Table<F>, e: Entity<F>)
    requires WellFormed(t)
    ensures WellFormed(AfterSave(t, e))
    ensures IsStored(t, e) ==>
      && |Listing(AfterSave(t, e))| == |Listing(t)|
      && forall i :: 0 <= i < |Listing(t)| ==>
           Listing(AfterSave(t, e))[i] == if Listing(t)[i].id == e.id then e else Listing(t)[i]
    ensures !IsStored(t, e) ==> Listing(AfterSave(t, e)) == Listing(t) + [Saved(t, e)]
  {
    SaveWellFormed(t, e);
    var l, l' := Listing(t), Listing(AfterSave(t, e));
    if !IsStored(t, e) {
      assert t.nextId !in t.rows;
      forall i | 0 <= i < |l| ensures l'[i] == l[i] {
        assert t.order[i] in t.rows;
      }
    }
  }

  /** `deleteById` keeps the table well formed. */
  lemma DeleteWellFormed<F>(t: Table<F>, id: int)
    requires WellFormed(t)
    ensures WellFormed(AfterDelete(t, id))
  {
    WithoutDistinct(t.order, id);
    var o := Without(t.order, id);
    forall i | 0 <= i < |o| ensures o[i] in t.rows - {id} {
      assert o[i] in o;
    }
  }

  /** After `deleteById`, the id finds nothing, every other id finds what it
      found before, and `findAll` lists the other entries. */
  lemma DeleteThenLookup<F>(t: Table<F>, id: int)
    requires WellFormed(t)
    ensures Lookup(AfterDelete(t, id), id) == None
    ensures forall k :: k != id ==> Lookup(AfterDelete(t, id), k) == Lookup(t, k)
    ensures WellFormed(AfterDelete(t, id))
    ensures forall e :: e in Listing(AfterDelete(t, id)) <==> e in Listing(t) && e.id != Some(id)
    ensures id in t.rows ==> |Listing(AfterDelete(t, id))| == |Listing(t)| - 1
  {
    DeleteWellFormed(t, id);
    ListingIsLookup(t);
    ListingIsLookup(AfterDelete(t, id));
  }

  /** One call made on a repository, as a mock would record it. */
  datatype Call<F> =
    | FindAllCall
    | FindByIdCall(id: int)
    | ExistsByIdCall(id: int)
    | SaveCall(entity: Entity<F>)
    | DeleteByIdCall(id: int)

  /** The store's answer to a write: it accepts it, or it raises a
      `DataIntegrityViolationException` with the given message (a uniqueness or
      referential constraint the model does not otherwise represent). */
  datatype Verdict = Accepts | Rejects(message: string)

  /** The outcome of a write. */
  datatype Written<T> = Written(value: T) | IntegrityViolation(message: string)

  /** A repository bean: the table it holds and the log of calls made on it. */
  class Repository<F> {
    var rows: map<int, F>
    var order: seq<int>
    var nextId: int
    ghost var calls: seq<Call<F>>

    function Snapshot(): Table<F>
      reads this
    {
      Table(rows, order, nextId)
    }

    ghost predicate Valid()
      reads this
    {
      WellFormed(Snapshot())
    }

    constructor ()
      ensures Valid()
      ensures rows == map[] && order == [] && calls == []
    {
      rows, order, nextId := map[], [], 1;
      calls := [];
    }

    method FindAll() returns (r: seq<Entity<F>>)
      requires Valid()
      modifies this`calls
      ensures Valid()
      ensures calls == old(calls) + [FindAllCall]
      ensures r == Listing(Snapshot())
    {
      var o, m := order, rows;
      r := seq(|o|, i requires 0 <= i < |o| => Entity(Some(o[i]), m[o[i]]));
      calls := calls + [FindAllCall];
    }

    method FindById(id: int) returns (r: Option<Entity<F>>)
      modifies this`calls
      ensures calls == old(calls) + [FindByIdCall(id)]
      ensures r == Lookup(Snapshot(), id)
    {
      if id in rows {
        r := Some(Entity(Some(id), rows[id]));
      } else {
        r := None;
      }
      calls := calls + [FindByIdCall(id)];
    }

    method ExistsById(id: int) returns (b: bool)
      modifies this`calls
      ensures calls == old(calls) + [ExistsByIdCall(id)]
      ensures b <==> Lookup(Snapshot(), id).Some?
    {
      b := id in rows;
      calls := calls + [ExistsByIdCall(id)];
    }

    method Save(e: Entity<F>, verdict: Verdict) returns (r: Written<Entity<F>>)
      requires Valid()
      modifies this
      ensures Valid()
      ensures calls == old(calls) + [SaveCall(e)]
      ensures verdict.Rejects? ==> r == IntegrityViolation(verdict.message) && Snapshot() == old(Snapshot())
      ensures verdict.Accepts? ==> r == Written(Saved(old(Snapshot()), e)) && Snapshot() == AfterSave(old(Snapshot()), e)
    {
      calls := calls + [SaveCall(e)];
      if verdict.Rejects? {
        r := IntegrityViolation(verdict.message);
        return;
      }
      SaveWellFormed(Snapshot(), e);
      if e.id.Some? && e.id.value in rows {
        rows := rows[e.id.value := e.fields];
        r := Written(e);
      } else {
        var id := nextId;
        rows, order, nextId := rows[id := e.fields], order + [id], nextId + 1;
        r := Written(Entity(Some(id), e.fields));
      }
    }

    method DeleteById(id: int, verdict: Verdict) returns (r: Written<()>)
      requires Valid()
      modifies this
      ensures Valid()
      ensures calls == old(calls) + [DeleteByIdCall(id)]
      ensures verdict.Rejects? ==> r == IntegrityViolation(verdict.message) && Snapshot() == old(Snapshot())
      ensures verdict.Accepts? ==> r == Written(()) && Snapshot() == AfterDelete(old(Snapshot()), id)
    {
      calls := calls + [DeleteByIdCall(id)];
      if verdict.Rejects? {
        r := IntegrityViolation(verdict.message);
        return;
      }
      DeleteWellFormed(Snapshot(), id);
      rows, order := rows - {id}, Without(order, id);
      r := Written(());
    }
  }
}
