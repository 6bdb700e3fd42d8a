/** One MongoDB collection as the catalog handlers see it: documents keyed
    by id, plus the natural (insertion) order in which an unsorted `find`
    returns them. */
module Tables {

  /** Document ids (Mongo ObjectIds), compared as the strings the request
      carries. */
  type Id = string

  datatype Option<+T> = None | Some(value: T)

  datatype Table<R> = Table(rows: map<Id, R>, order: seq<Id>)

  predicate Distinct(ids: seq<Id>) {
    forall i, j :: 0 <= i < j < |ids| ==> ids[i] != ids[j]
  }

  /** The natural order lists every stored id exactly once. */
  predicate Valid<R>(t: Table<R>) {
    && Distinct(t.order)
    && (forall k :: k in t.order ==> k in t.rows)
    && (forall k :: k in t.rows ==> k in t.order)
  }

  function Empty<R>(): (t: Table<R>)
    ensures Valid(t) && |t.rows| == 0
  {
    Table(map[], [])
  }

  /** `save` of a new document under a freshly generated id. */
  function Insert<R>(t: Table<R>, id: Id, r: R): (t': Table<R>)
    requires Valid(t) && id !in t.rows
    ensures Valid(t')
    ensures t'.rows == t.rows[id := r]
    ensures |t'.rows| == |t.rows| + 1
  {
    Table(t.rows[id := r], t.order + [id])
  }

  /** `ids` with every occurrence of `id` taken out, the rest kept in order. */
  function Without(ids: seq<Id>, id: Id): (r: seq<Id>)
    ensures forall k :: k in r <==> k in ids && k != id
    ensures Distinct(ids) ==> Distinct(r)
    ensures id !in ids ==> r == ids
    ensures |r| <= |ids|
  {
    if ids == [] then []
    else if ids[0] == id then Without(ids[1..], id)
    else
      var rest := Without(ids[1..], id);
      assert Distinct(ids) ==> ids[0] !in ids[1..] && Distinct(ids[1..]);
      [ids[0]] + rest
  }

  /** `findByIdAndRemove`: removing an id that is not stored is a no-op. */
  function Remove<R>(t: Table<R>, id: Id): (t': Table<R>)
    requires Valid(t)
    ensures Valid(t')
    ensures t'.rows == t.rows - {id}
    ensures id in t.rows ==> |t'.rows| == |t.rows| - 1
    ensures id !in t.rows ==> t' == t
  {
    if id !in t.rows then t
    else
      assert (t.rows - {id}).Keys == t.rows.Keys - {id};
      Table(t.rows - {id}, Without(t.order, id))
  }

  /** `findByIdAndUpdate` without upsert: the document under `id` is
      replaced and keeps its id and its place in the natural order; an id
      that is not stored matches nothing. */
  function Replace<R>(t: Table<R>, id: Id, r: R): (t': Table<R>)
    requires Valid(t)
    ensures Valid(t')
    ensures t'.order == t.order
    ensures id in t.rows ==> t'.rows == t.rows[id := r]
    ensures id !in t.rows ==> t' == t
  {
    if id in t.rows then Table(t.rows[id := r], t.order) else t
  }

  /** `findById`. */
  function Find<R>(t: Table<R>, id: Id): (r: Option<R>)
    ensures r.Some? <==> id in t.rows
    ensures r.Some? ==> r.value == t.rows[id]
  {
    if id in t.rows then Some(t.rows[id]) else None
  }

  /** `find(filter)` as a set of documents: the sub-map whose documents
      satisfy `p`. */
  function Where<R>(t: Table<R>, p: R -> bool): (m: map<Id, R>)
    ensures forall k :: k in m <==> k in t.rows && p(t.rows[k])
    ensures forall k :: k in m ==> m[k] == t.rows[k]
  {
    Filter(t.rows, p)
  }

  /** The entries of `rows` whose documents satisfy `p`. */
  function Filter<R>(rows: map<Id, R>, p: R -> bool): map<Id, R> {
    map k | k in rows && p(rows[k]) :: rows[k]
  }

  /** A `save` under a fresh id adds the new document to a filter's result
      exactly when the filter selects it. */
  lemma WhereOfInsert<R>(t: Table<R>, id: Id, r: R, p: R -> bool)
    requires Valid(t) && id !in t.rows
    ensures id !in Where(t, p)
    ensures Where(Insert(t, id, r), p) == if p(r) then Where(t, p)[id := r] else Where(t, p)
  {
    FilterOfStore(t.rows, id, r, p);
  }

  /** A remove takes the id out of every filter's result and changes
      nothing else in it. */
  lemma WhereOfRemove<R>(t: Table<R>, id: Id, p: R -> bool)
    requires Valid(t)
    ensures Where(Remove(t, id), p) == Where(t, p) - {id}
  {
    FilterOfRemove(t.rows, id, p);
  }

  /** An update in place keeps the id in a filter's result, under its new
      document, exactly when the filter selects the new document. */
  lemma WhereOfReplace<R>(t: Table<R>, id: Id, r: R, p: R -> bool)
    requires Valid(t) && id in t.rows
    ensures Where(Replace(t, id, r), p) == if p(r) then Where(t, p)[id := r] else Where(t, p) - {id}
  {
    FilterOfReplace(t.rows, id, r, p);
  }

  lemma FilterOfStore<R>(rows: map<Id, R>, id: Id, r: R, p: R -> bool)
    requires id !in rows
    ensures id !in Filter(rows, p)
    ensures Filter(rows[id := r], p) == if p(r) then Filter(rows, p)[id := r] else Filter(rows, p)
  {
  }

  lemma FilterOfReplace<R>(rows: map<Id, R>, id: Id, r: R, p: R -> bool)
    ensures Filter(rows[id := r], p) == if p(r) then Filter(rows, p)[id := r] else Filter(rows, p) - {id}
  {
  }

  lemma FilterOfRemove<R>(rows: map<Id, R>, id: Id, p: R -> bool)
    ensures Filter(rows - {id}, p) == Filter(rows, p) - {id}
  {
  }

  /** The documents in natural order, each paired with its id. */
  function Entries<R>(t: Table<R>): (es: seq<(Id, R)>)
    requires Valid(t)
    ensures |es| == |t.order|
    ensures forall i :: 0 <= i < |es| ==> es[i].0 == t.order[i] && es[i].1 == t.rows[t.order[i]]
  {
    seq(|t.order|, i requires 0 <= i < |t.order| => (t.order[i], t.rows[t.order[i]]))
  }

  /** The number of ids in `ids` whose documents satisfy `p`, one at a time,
      the way the store's `count(filter)` scans a collection. */
  function CountIn<R>(ids: seq<Id>, rows: map<Id, R>, p: R -> bool): nat
    requires forall k :: k in ids ==> k in rows
  {
    if ids == [] then 0
    else (if p(rows[ids[0]]) then 1 else 0) + CountIn(ids[1..], rows, p)
  }

  /** The scanned count of distinct ids is the size of the set they select. */
  lemma {:induction false} CountInIsSetSize<R>(ids: seq<Id>, rows: map<Id, R>, p: R -> bool)
    requires Distinct(ids)
    requires forall k :: k in ids ==> k in rows
    ensures CountIn(ids, rows, p) == |set k | k in ids && p(rows[k])|
  {
    if ids != [] {
      var rest := ids[1..];
      assert Distinct(rest);
      CountInIsSetSize(rest, rows, p);
      var all := set k | k in ids && p(rows[k]);
      var tail := set k | k in rest && p(rows[k]);
      assert ids[0] !in rest;
      if p(rows[ids[0]]) {
        assert all == tail + {ids[0]};
      } else {
        assert all == tail;
      }
    }
  }

  /** `count(filter)`: the scan over the natural order counts exactly the
      documents the filter selects. */
  function Count<R>(t: Table<R>, p: R -> bool): (n: nat)
    requires Valid(t)
    ensures n == |Where(t, p)|
  {
    CountInIsSetSize(t.order, t.rows, p);
    var m := Where(t, p);
    assert m.Keys == set k | k in t.order && p(t.rows[k]);
    CountIn(t.order, t.rows, p)
  }

  /** `findOne(filter)`: the first id in `ids` whose document satisfies `p`. */
  function FirstWhere<R>(ids: seq<Id>, rows: map<Id, R>, p: R -> bool): (r: Option<Id>)
    requires forall k :: k in ids ==> k in rows
    ensures r.Some? ==> r.value in ids && p(rows[r.value])
    ensures r.None? <==> forall k :: k in ids ==> !p(rows[k])
    ensures r.Some? ==> exists i :: 0 <= i < |ids| && ids[i] == r.value && NoneBefore(ids, rows, p, i)
  {
    if ids == [] then None
    else if p(rows[ids[0]]) then
      assert NoneBefore(ids, rows, p, 0);
      Some(ids[0])
    else
      var r := FirstWhere(ids[1..], rows, p);
      assert r.Some? ==> exists i :: 0 <= i < |ids| && ids[i] == r.value && NoneBefore(ids, rows, p, i) by {
        if r.Some? {
          var i :| 0 <= i < |ids[1..]| && ids[1..][i] == r.value && NoneBefore(ids[1..], rows, p, i);
          assert NoneBefore(ids, rows, p, i + 1);
        }
      }
      r
  }

  /** No id before position `i` of `ids` has a document satisfying `p`. */
  predicate NoneBefore<R>(ids: seq<Id>, rows: map<Id, R>, p: R -> bool, i: int)
    requires forall k :: k in ids ==> k in rows
    requires 0 <= i <= |ids|
  {
    forall j :: 0 <= j < i ==> !p(rows[ids[j]])
  }

  /** `populate` of an id array: the referenced documents that exist;
      dangling ids are dropped. */
  function Resolve<R>(ids: seq<Id>, t: Table<R>): (rs: seq<(Id, R)>)
    ensures |rs| <= |ids|
    ensures forall e :: e in rs ==> e.0 in ids && e.0 in t.rows && e.1 == t.rows[e.0]
    ensures forall k :: k in ids && k in t.rows ==> (k, t.rows[k]) in rs
  {
    if ids == [] then []
    else if ids[0] in t.rows then [(ids[0], t.rows[ids[0]])] + Resolve(ids[1..], t)
    else Resolve(ids[1..], t)
  }
}
