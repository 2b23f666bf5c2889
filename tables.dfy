/** A database collection: documents keyed by `_id`, together with the order in
    which the collection returns them (insertion order), which decides what
    `findOne` yields when several documents match. */
module Tables {
  import opened Http
  import opened Foreign

  datatype Table<T> = Table(order: seq<Id>, rows: map<Id, T>) {

    /** The order lists every key exactly once. */
    ghost predicate Valid() {
      && (forall i, j :: 0 <= i < j < |order| ==> order[i] != order[j])
      && (forall k :: k in rows <==> k in order)
    }

    /** `Model.create`: a new document with a fresh id, returned last. */
    function Insert(id: Id, v: T): (t: Table<T>)
      ensures Valid() && id !in rows ==> t.Valid()
      ensures t.rows == rows[id := v] && t.order == order + [id]
    {
      Table(order + [id], rows[id := v])
    }

    /** Overwriting the document stored under an existing id; its place in the order stays. */
    function Put(id: Id, v: T): (t: Table<T>)
      ensures Valid() && id in rows ==> t.Valid()
      ensures t.rows == rows[id := v] && t.order == order
    {
      Table(order, rows[id := v])
    }

    /** `findByIdAndDelete`: the document under `id` is gone and every other one stays. */
    function Remove(id: Id): (t: Table<T>)
      ensures t.rows.Keys == rows.Keys - {id}
      ensures forall k :: k in t.rows ==> t.rows[k] == rows[k]
    {
      Table(Without(order, id), rows - {id})
    }

    /** Removing keeps the order without repetitions and one entry shorter when the
        id was stored. */
    lemma RemoveKeepsValid(id: Id)
      requires Valid()
      ensures Remove(id).Valid()
      ensures |Remove(id).order| == |order| - (if id in rows then 1 else 0)
    {
      RemoveDistinct(order, id);
    }

    /** `findOne(filter)`: the first document in collection order satisfying `p`. */
    function FindFirst(p: T -> bool): (r: Option<Id>)
      ensures r.Some? ==> r.value in rows && p(rows[r.value])
      ensures Valid() ==> (r.None? <==> forall k :: k in rows ==> !p(rows[k]))
    {
      FirstIn(order, p)
    }

    /** The first id of `ids` naming a stored document that satisfies `p`; only the
        ids before it are skipped. */
    function FirstIn(ids: seq<Id>, p: T -> bool): (r: Option<Id>)
      ensures r.Some? ==> r.value in ids && r.value in rows && p(rows[r.value])
      ensures r.Some? ==> exists i :: 0 <= i < |ids| && ids[i] == r.value
                                      && forall j :: 0 <= j < i ==> !(ids[j] in rows && p(rows[ids[j]]))
      ensures r.None? ==> forall i :: 0 <= i < |ids| && ids[i] in rows ==> !p(rows[ids[i]])
    {
      if ids == [] then None
      else if ids[0] in rows && p(rows[ids[0]]) then Some(ids[0])
      else
        var r := FirstIn(ids[1..], p);
        if r.Some? then
          var i :| 0 <= i < |ids[1..]| && ids[1..][i] == r.value
                   && forall j :: 0 <= j < i ==> !(ids[1..][j] in rows && p(rows[ids[1..][j]]));
          assert ids[i + 1] == r.value;
          assert forall j :: 0 <= j < i + 1 ==> !(ids[j] in rows && p(rows[ids[j]])) by {
            forall j | 0 <= j < i + 1 ensures !(ids[j] in rows && p(rows[ids[j]])) {
              if j > 0 { assert ids[j] == ids[1..][j - 1]; }
            }
          }
          r
        else r
    }

    /** `find()`: every document, in collection order. */
    function All(): (r: seq<T>)
      requires Valid()
      ensures |r| == |order|
      ensures forall i :: 0 <= i < |order| ==> r[i] == rows[order[i]]
    {
      seq(|order|, i requires 0 <= i < |order| => rows[order[i]])
    }
  }

  function Without(ids: seq<Id>, id: Id): (r: seq<Id>)
    ensures forall k :: k in r <==> k in ids && k != id
  {
    if ids == [] then []
    else if ids[0] == id then Without(ids[1..], id)
    else [ids[0]] + Without(ids[1..], id)
  }

  /** Dropping an id from a list without repetitions keeps it without repetitions
      and shortens it by one exactly when the id was there. */
  lemma {:induction false} RemoveDistinct(ids: seq<Id>, id: Id)
    requires forall i, j :: 0 <= i < j < |ids| ==> ids[i] != ids[j]
    ensures forall i, j :: 0 <= i < j < |Without(ids, id)| ==> Without(ids, id)[i] != Without(ids, id)[j]
    ensures |Without(ids, id)| == |ids| - (if id in ids then 1 else 0)
  {
    if ids != [] {
      var rest := ids[1..];
      assert forall i, j :: 0 <= i < j < |rest| ==> rest[i] != rest[j] by {
        forall i, j | 0 <= i < j < |rest| ensures rest[i] != rest[j] {
          assert rest[i] == ids[i + 1] && rest[j] == ids[j + 1];
        }
      }
      RemoveDistinct(rest, id);
      if ids[0] == id {
        assert id !in rest by {
          forall j | 0 <= j < |rest| ensures rest[j] != id { assert rest[j] == ids[j + 1]; }
        }
      } else {
        assert ids[0] !in Without(rest, id) by {
          forall j | 0 <= j < |rest| ensures rest[j] != ids[0] { assert rest[j] == ids[j + 1]; }
        }
        assert id in ids <==> id in rest;
      }
    }
  }
}
