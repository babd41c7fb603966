/** `com.fiuni.patients.service.AbstractBaseService`: generic soft-delete
    CRUD over one repository and one mapper. Its `delete` reaches the active
    flag through reflection; here the entity type supplies how that flag is
    read and cleared. */
module FiuniBaseService {
  import opened Wrappers
  import RowOrder
  import Paging
  import Jpa

  /** The three mapper operations the service calls. */
  datatype Mapper<!E, !Req, Res> = Mapper(toEntity: Req -> E, toDto: E -> Res, updateEntity: (E, Req) -> E)

  class AbstractBaseService<E(!new), Req(!new), Res> {
    const repository: Jpa.Table<E>
    const mapper: Mapper<E, Req, Res>
    /** `isActive`, as the repository's `findByIdAndIsActiveTrue` reads it. */
    const isActive: E -> bool
    /** The reflective `setActive(false)` / `setIsActive(false)`. The
        reflection is best effort: for an entity it finds neither setter on,
        this leaves the flag as it was, and the row is saved all the same. */
    const deactivate: E -> E

    /** The mapper's merge and the reflective clearing both keep an
        entity's id. */
    ghost predicate Valid()
      reads this, repository
    {
      && repository.Valid()
      && (forall e, r :: repository.idOf(mapper.updateEntity(e, r)) == repository.idOf(e))
      && (forall e :: repository.idOf(deactivate(e)) == repository.idOf(e))
    }

    constructor (repository: Jpa.Table<E>, mapper: Mapper<E, Req, Res>, isActive: E -> bool, deactivate: E -> E)
      requires repository.Valid()
      requires forall e, r :: repository.idOf(mapper.updateEntity(e, r)) == repository.idOf(e)
      requires forall e :: repository.idOf(deactivate(e)) == repository.idOf(e)
      ensures Valid()
      ensures this.repository == repository && this.mapper == mapper
      ensures this.isActive == isActive && this.deactivate == deactivate
    {
      this.repository := repository;
      this.mapper := mapper;
      this.isActive := isActive;
      this.deactivate := deactivate;
    }

    /** `getAll(pageable)`: a page of the active rows, mapped. */
    function GetAll(pageable: Paging.PageRequest): (page: Paging.Page<Res>)
      reads this, repository
      ensures page.totalElements == |RowOrder.Select(repository.rows, isActive)|
      ensures |page.content| <= pageable.size
      ensures page.pageable == pageable
      ensures page.content == Paging.Map(Paging.PageOf(Jpa.Ordered(repository.rows, isActive, pageable.sort), pageable).content, mapper.toDto)
    {
      Paging.MapContent(Jpa.PagedQuery(repository.rows, isActive, pageable), mapper.toDto)
    }

    /** `getById(id)`: present exactly for an active row. */
    function GetById(id: int): (r: Option<Res>)
      reads this, repository
      ensures r.Some? <==> id in repository.rows && isActive(repository.rows[id])
      ensures r.Some? ==> r.value == mapper.toDto(repository.rows[id])
    {
      if id in repository.rows && isActive(repository.rows[id]) then Some(mapper.toDto(repository.rows[id])) else None
    }

    /** `create(request)`: the mapped entity is saved and the saved entity
        returned mapped. */
    method Create(request: Req) returns (res: Res)
      requires Valid()
      modifies repository
      ensures Valid()
      ensures var (saved, rows, next) := repository.Saved(old(repository.rows), old(repository.nextId), mapper.toEntity(request));
              && repository.rows == rows && repository.nextId == next && res == mapper.toDto(saved)
    {
      var entity := mapper.toEntity(request);
      var saved := repository.Save(entity);
      res := mapper.toDto(saved);
    }

    /** `update(id, request)`: empty without an active row; otherwise the
        row merged with the request is saved back under its id. */
    method Update(id: int, request: Req) returns (res: Option<Res>)
      requires Valid()
      modifies repository
      ensures Valid()
      ensures repository.nextId == old(repository.nextId)
      ensures res.None? <==> !(id in old(repository.rows) && isActive(old(repository.rows)[id]))
      ensures res.None? ==> repository.rows == old(repository.rows)
      ensures res.Some? ==> var merged := mapper.updateEntity(old(repository.rows)[id], request);
              && repository.rows == old(repository.rows)[id := merged]
              && res == Some(mapper.toDto(merged))
    {
      if !(id in repository.rows && isActive(repository.rows[id])) {
        return None;
      }
      var entity := repository.rows[id];
      var merged := mapper.updateEntity(entity, request);
      var saved := repository.Save(merged);
      return Some(mapper.toDto(saved));
    }

    /** `delete(id)`: false without an active row; otherwise the row is
        saved back after the reflective clearing and the answer is true,
        whether or not the clearing found a setter. */
    method Delete(id: int) returns (deleted: bool)
      requires Valid()
      modifies repository
      ensures Valid()
      ensures repository.nextId == old(repository.nextId)
      ensures (deleted, repository.rows) == Jpa.SoftDelete(old(repository.rows), id, isActive, deactivate)
    {
      if !(id in repository.rows && isActive(repository.rows[id])) {
        return false;
      }
      var entity := repository.rows[id];
      var saved := repository.Save(deactivate(entity));
      return true;
    }

    /** `getAllAsList()`: every active row, mapped, in id order. */
    function GetAllAsList(): (r: seq<Res>)
      reads this, repository
      ensures |r| == |RowOrder.Select(repository.rows, isActive)|
      ensures forall k :: k in repository.rows && isActive(repository.rows[k]) ==> mapper.toDto(repository.rows[k]) in r
      ensures forall i :: 0 <= i < |r| ==>
                RowOrder.Ascending(RowOrder.Select(repository.rows, isActive))[i] in repository.rows &&
                r[i] == mapper.toDto(repository.rows[RowOrder.Ascending(RowOrder.Select(repository.rows, isActive))[i]])
    {
      MappedQuery(mapper.toDto, repository.rows, isActive, RowOrder.Ascending(RowOrder.Select(repository.rows, isActive)));
      Paging.Map(RowOrder.Query(repository.rows, isActive), mapper.toDto)
    }
  }

  /** The mapped rows of a query without ORDER BY: each kept row's mapping
      occurs, and entry `i` is the mapping of the row with the `i`-th
      smallest kept id. */
  lemma {:induction false} MappedQuery<E, R>(toDto: E -> R, rows: map<int, E>, keep: E -> bool, ids: seq<int>)
    requires ids == RowOrder.Ascending(RowOrder.Select(rows, keep))
    ensures |Paging.Map(RowOrder.Query(rows, keep), toDto)| == |ids|
    ensures forall k :: k in rows && keep(rows[k]) ==> toDto(rows[k]) in Paging.Map(RowOrder.Query(rows, keep), toDto)
    ensures forall i :: 0 <= i < |ids| ==> ids[i] in rows && Paging.Map(RowOrder.Query(rows, keep), toDto)[i] == toDto(rows[ids[i]])
  {
    var q := RowOrder.Query(rows, keep);
    RowOrder.QueryEntries(rows, keep, ids);
    var r := Paging.Map(q, toDto);
    forall i | 0 <= i < |ids|
      ensures ids[i] in rows && r[i] == toDto(rows[ids[i]])
    {
      assert q[i] == rows[ids[i]];
    }
    forall k | k in rows && keep(rows[k])
      ensures toDto(rows[k]) in r
    {
      assert k in ids;
      var i := RowOrder.IndexOf(ids, k);
      assert r[i] == toDto(rows[k]);
    }
  }
}
