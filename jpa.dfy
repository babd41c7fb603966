/** The part of Spring Data JPA the services rely on: a repository's table of
    rows keyed by generated id, with `save`, `findById`, `existsById`,
    `deleteById` and `count`. */
module Jpa {
  import opened Wrappers
  import RowOrder
  import Paging

  /** One repository: its rows by id and the next id the database hands out.
      `idOf` reads an entity's id and `withId` sets it. */
  class Table<E(!new)> {
    var rows: map<int, E>
    var nextId: int
    const idOf: E -> Option<int>
    const withId: (E, int) -> E

    ghost predicate Valid()
      reads this
    {
      && nextId >= 1
      && (forall k :: k in rows ==> 1 <= k < nextId && idOf(rows[k]) == Some(k))
      && (forall e, k :: idOf(withId(e, k)) == Some(k))
    }

    constructor (idOf: E -> Option<int>, withId: (E, int) -> E)
      requires forall e, k :: idOf(withId(e, k)) == Some(k)
      ensures Valid() && rows == map[] && nextId == 1
      ensures this.idOf == idOf && this.withId == withId
    {
      this.idOf := idOf;
      this.withId := withId;
      rows := map[];
      nextId := 1;
    }

    /** `repository.save(e)`: an entity whose id names a stored row replaces
        that row; any other entity is inserted under a newly generated id. */
    method Save(e: E) returns (saved: E)
      requires Valid()
      modifies this
      ensures Valid()
      ensures Saved(old(rows), old(nextId), e) == (saved, rows, nextId)
      ensures idOf(saved).Some? && idOf(saved).value in rows && rows[idOf(saved).value] == saved
    {
      var id := idOf(e);
      if id.Some? && id.value in rows {
        saved := e;
        rows := rows[id.value := e];
      } else {
        saved := withId(e, nextId);
        rows := rows[nextId := saved];
        nextId := nextId + 1;
      }
    }

    /** The rollback of a `@Transactional` method that throws: the rows go
        back to the snapshot taken when it began; ids the database already
        handed out are not handed out again. */
    method Restore(snapshot: map<int, E>)
      requires Valid()
      requires forall k :: k in snapshot ==> 1 <= k < nextId && idOf(snapshot[k]) == Some(k)
      modifies this
      ensures Valid()
      ensures rows == snapshot && nextId == old(nextId)
    {
      rows := snapshot;
    }

    /** The saved entity, the rows and the next id after `save(e)`. */
    ghost function Saved(before: map<int, E>, next: int, e: E): (after: (E, map<int, E>, int))
      reads this
    {
      var id := idOf(e);
      if id.Some? && id.value in before then (e, before[id.value := e], next)
      else (withId(e, next), before[next := withId(e, next)], next + 1)
    }

    /** `repository.deleteById(k)`: the row goes, every other row stays. */
    method DeleteById(k: int)
      requires Valid()
      modifies this
      ensures Valid()
      ensures rows == old(rows) - {k} && nextId == old(nextId)
    {
      rows := rows - {k};
    }
  }

  /** Saving an entity whose id is not stored creates a row under a key that
      was free, and leaves every earlier row as it was. */
  lemma InsertKeepsOthers<E(!new)>(t: Table<E>, e: E)
    requires t.Valid()
    requires t.idOf(e).None? || t.idOf(e).value !in t.rows
    ensures var (saved, after, next) := t.Saved(t.rows, t.nextId, e);
            && t.nextId !in t.rows
            && t.idOf(saved) == Some(t.nextId)
            && after.Keys == t.rows.Keys + {t.nextId}
            && (forall k :: k in t.rows ==> after[k] == t.rows[k])
            && next == t.nextId + 1
  {
  }

  /** `findById(k)`: the row, whatever its active flag. */
  function FindById<E>(rows: map<int, E>, k: int): (r: Option<E>)
    ensures r.Some? <==> k in rows
    ensures r.Some? ==> r.value == rows[k]
  {
    if k in rows then Some(rows[k]) else None
  }

  /** `findAll()`: every row, in id order. */
  function FindAll<E>(rows: map<int, E>): (r: seq<E>)
    ensures |r| == |rows|
    ensures forall k :: k in rows ==> rows[k] in r
    ensures forall i :: 0 <= i < |r| ==> RowOrder.Ascending(rows.Keys)[i] in rows && r[i] == rows[RowOrder.Ascending(rows.Keys)[i]]
  {
    assert RowOrder.Select(rows, (e: E) => true) == rows.Keys;
    RowOrder.QueryEntries(rows, (e: E) => true, RowOrder.Ascending(rows.Keys));
    RowOrder.Query(rows, (e: E) => true)
  }

  /** The kept rows in the order a `Pageable`'s sort asks for. Only
      `id DESC` is applied as a sort: it puts the largest id first; any
      other sort reads the rows smallest id first. */
  function Ordered<E>(rows: map<int, E>, keep: E -> bool, sort: seq<Paging.Order>): (all: seq<E>)
    ensures |all| == |RowOrder.Select(rows, keep)|
    ensures forall i :: 0 <= i < |all| ==> keep(all[i])
    ensures forall k :: k in rows && keep(rows[k]) ==> rows[k] in all
  {
    if sort == [Paging.Order(Paging.Desc, "id")] then RowOrder.QueryIdDescending(rows, keep)
    else RowOrder.Query(rows, keep)
  }

  /** Under `id DESC` the kept rows are read by their ids, largest first. */
  lemma {:induction false} OrderedIdDescending<E>(rows: map<int, E>, keep: E -> bool)
    ensures Ordered(rows, keep, [Paging.Order(Paging.Desc, "id")]) == RowOrder.RowsAt(rows, RowOrder.Descending(RowOrder.Select(rows, keep)))
  {
  }

  /** A paged query sorted by `id DESC`: entry `i` of the page is the row
      with the `i`-th largest id from the start of the page. */
  lemma {:induction false} PagedIdDescending<E>(rows: map<int, E>, keep: E -> bool, pageable: Paging.PageRequest, ids: seq<int>, lo: nat)
    requires pageable.sort == [Paging.Order(Paging.Desc, "id")]
    requires ids == RowOrder.Descending(RowOrder.Select(rows, keep))
    requires lo == Paging.Start(|ids|, pageable)
    ensures |PagedQuery(rows, keep, pageable).content| == Paging.End(|ids|, pageable) - lo
    ensures forall i :: 0 <= i < |PagedQuery(rows, keep, pageable).content| ==>
              ids[lo + i] in rows && PagedQuery(rows, keep, pageable).content[i] == rows[ids[lo + i]]
  {
    var all := Ordered(rows, keep, pageable.sort);
    OrderedIdDescending(rows, keep);
    var hi := Paging.End(|ids|, pageable);
    assert PagedQuery(rows, keep, pageable).content == all[lo..hi];
    SliceOfRows(rows, ids, lo, hi);
  }

  /** A slice of the rows read by a list of ids is read by the slice of the ids. */
  lemma {:induction false} SliceOfRows<E>(rows: map<int, E>, ids: seq<int>, lo: nat, hi: nat)
    requires forall i :: 0 <= i < |ids| ==> ids[i] in rows
    requires lo <= hi <= |ids|
    ensures var slice := RowOrder.RowsAt(rows, ids)[lo..hi];
            forall i :: 0 <= i < hi - lo ==> ids[lo + i] in rows && slice[i] == rows[ids[lo + i]]
  {
  }

  /** A paged query: the page the `Pageable` selects from the kept rows in
      the order it asks for. */
  function PagedQuery<E>(rows: map<int, E>, keep: E -> bool, pageable: Paging.PageRequest): (p: Paging.Page<E>)
    ensures p.totalElements == |RowOrder.Select(rows, keep)|
    ensures |p.content| <= pageable.size
    ensures forall i :: 0 <= i < |p.content| ==> keep(p.content[i])
    ensures p.pageable == pageable
    ensures p == Paging.PageOf(Ordered(rows, keep, pageable.sort), pageable)
  {
    var all := Ordered(rows, keep, pageable.sort);
    Paging.PageKeeps(all, pageable, keep);
    Paging.PageOf(all, pageable)
  }

  /** A paged query whose JPQL says `ORDER BY id DESC`: the kept rows,
      largest id first, then the page, whatever sort the `Pageable` asks for. */
  function PagedQueryIdDescending<E>(rows: map<int, E>, keep: E -> bool, pageable: Paging.PageRequest): (p: Paging.Page<E>)
    ensures p.totalElements == |RowOrder.Select(rows, keep)|
    ensures |p.content| <= pageable.size
    ensures forall i :: 0 <= i < |p.content| ==> keep(p.content[i])
    ensures p == Paging.PageOf(RowOrder.QueryIdDescending(rows, keep), pageable)
  {
    var all := RowOrder.QueryIdDescending(rows, keep);
    Paging.PageKeeps(all, pageable, keep);
    Paging.PageOf(all, pageable)
  }

  /** A query ordered `id DESC` in its JPQL: entry `i` of the page is the
      row with the `i`-th largest kept id from the start of the page. */
  lemma {:induction false} PagedQueryIdDescendingEntries<E>(rows: map<int, E>, keep: E -> bool, pageable: Paging.PageRequest, ids: seq<int>, lo: nat)
    requires ids == RowOrder.Descending(RowOrder.Select(rows, keep))
    requires lo == Paging.Start(|ids|, pageable)
    ensures |PagedQueryIdDescending(rows, keep, pageable).content| == Paging.End(|ids|, pageable) - lo
    ensures forall i :: 0 <= i < |PagedQueryIdDescending(rows, keep, pageable).content| ==>
              ids[lo + i] in rows && PagedQueryIdDescending(rows, keep, pageable).content[i] == rows[ids[lo + i]]
  {
    var all := RowOrder.RowsAt(rows, ids);
    assert RowOrder.QueryIdDescending(rows, keep) == all;
    assert PagedQueryIdDescending(rows, keep, pageable) == Paging.PageOf(all, pageable);
    PageOfRows(rows, ids, pageable, lo);
  }

  /** The page of the rows read by a list of ids: entry `i` is the row of
      the id `i` places after the page's start. */
  lemma {:induction false} PageOfRows<E>(rows: map<int, E>, ids: seq<int>, pageable: Paging.PageRequest, lo: nat)
    requires forall i :: 0 <= i < |ids| ==> ids[i] in rows
    requires lo == Paging.Start(|ids|, pageable)
    ensures |Paging.PageOf(RowOrder.RowsAt(rows, ids), pageable).content| == Paging.End(|ids|, pageable) - lo
    ensures forall i :: 0 <= i < |Paging.PageOf(RowOrder.RowsAt(rows, ids), pageable).content| ==>
              ids[lo + i] in rows && Paging.PageOf(RowOrder.RowsAt(rows, ids), pageable).content[i] == rows[ids[lo + i]]
  {
    var all := RowOrder.RowsAt(rows, ids);
    var p := Paging.PageOf(all, pageable);
    var hi := Paging.End(|ids|, pageable);
    assert p.content == all[lo..hi];
    forall i | 0 <= i < |p.content|
      ensures ids[lo + i] in rows && p.content[i] == rows[ids[lo + i]]
    {
      assert p.content[i] == all[lo + i];
    }
  }

  /** A first page at least as large as the result holds every kept row. */
  lemma {:induction false} FirstPageHoldsAll<E>(rows: map<int, E>, keep: E -> bool, pageable: Paging.PageRequest, k: int)
    requires pageable.page == 0 && pageable.size >= |RowOrder.Select(rows, keep)|
    requires k in rows && keep(rows[k])
    ensures rows[k] in PagedQuery(rows, keep, pageable).content
  {
    var all := Ordered(rows, keep, pageable.sort);
    assert Paging.PageOf(all, pageable).content == all[0..|all|];
    assert all[0..|all|] == all;
  }

  /** A soft delete: the active row `id`, if there is one, saved back with
      its active flag cleared. Whether there was one, and the rows after. */
  function SoftDelete<E>(rows: map<int, E>, id: int, isActive: E -> bool, deactivate: E -> E): (r: (bool, map<int, E>))
    ensures r.0 <==> id in rows && isActive(rows[id])
    ensures r.0 ==> r.1 == rows[id := deactivate(rows[id])]
    ensures !r.0 ==> r.1 == rows
  {
    if id in rows && isActive(rows[id]) then (true, rows[id := deactivate(rows[id])]) else (false, rows)
  }

  /** Once deleted, a row is no longer found and a second delete returns
      false and changes nothing; no other row is touched. */
  lemma {:induction false} SoftDeleteTwice<E>(rows: map<int, E>, id: int, isActive: E -> bool, deactivate: E -> E)
    requires forall e :: !isActive(deactivate(e))
    ensures var after := SoftDelete(rows, id, isActive, deactivate).1;
            && after.Keys == rows.Keys
            && (id in after ==> !isActive(after[id]))
            && (forall k :: k in rows && k != id ==> after[k] == rows[k])
            && SoftDelete(after, id, isActive, deactivate) == (false, after)
  {
    var after := SoftDelete(rows, id, isActive, deactivate).1;
    if id in rows && isActive(rows[id]) {
      assert !isActive(deactivate(rows[id]));
    }
  }

}
