/** `com.example.patients.service.base.AbstractBaseService`: generic CRUD
    over one repository and one `GenericMapper`. Unlike the `fiuni` base
    service it deletes rows for good and reads rows whatever their active
    flag. */
module ExampleBaseService {
  import opened Wrappers
  import opened Failures
  import RowOrder
  import Paging
  import Jpa

  /** The two conversions of a `GenericMapper`; its list conversions map
      them over a list. */
  datatype GenericMapper<!E, !D> = GenericMapper(toEntity: D -> E, toDto: E -> D)

  /** `toDtoList(entities)`: one DTO per entity, in order. */
  function ToDtoList<E, D>(mapper: GenericMapper<E, D>, entities: seq<E>): (r: seq<D>)
    ensures |r| == |entities|
    ensures forall i :: 0 <= i < |entities| ==> r[i] == mapper.toDto(entities[i])
  {
    Paging.Map(entities, mapper.toDto)
  }

  class AbstractBaseService<E(!new), D(!new)> {
    const repository: Jpa.Table<E>
    const mapper: GenericMapper<E, D>

    ghost predicate Valid()
      reads this, repository
    {
      repository.Valid()
    }

    constructor (repository: Jpa.Table<E>, mapper: GenericMapper<E, D>)
      requires repository.Valid()
      ensures Valid()
      ensures this.repository == repository && this.mapper == mapper
    {
      this.repository := repository;
      this.mapper := mapper;
    }

    /** `save(dto)`: the mapped entity is saved and the saved entity
        returned mapped. */
    method Save(dto: D) returns (r: D)
      requires Valid()
      modifies repository
      ensures Valid()
      ensures var (saved, rows, next) := repository.Saved(old(repository.rows), old(repository.nextId), mapper.toEntity(dto));
              && repository.rows == rows && repository.nextId == next && r == mapper.toDto(saved)
    {
      var entity := mapper.toEntity(dto);
      var savedEntity := repository.Save(entity);
      r := mapper.toDto(savedEntity);
    }

    /** `findById(id)`: the row mapped, active or not. */
    function FindById(id: int): (r: Option<D>)
      reads this, repository
      ensures r.Some? <==> id in repository.rows
      ensures r.Some? ==> r.value == mapper.toDto(repository.rows[id])
    {
      match Jpa.FindById(repository.rows, id)
      case None => None
      case Some(e) => Some(mapper.toDto(e))
    }

    /** `findByIdOrThrow(id)`: what `findById` finds, or "Entity not found". */
    function FindByIdOrThrow(id: int): (r: Result<D, Failure>)
      reads this, repository
      ensures r.Fail? <==> id !in repository.rows
      ensures r.Fail? ==> r.error == NotFound(AnyEntity, id)
      ensures r.Ok? ==> Some(r.value) == FindById(id)
    {
      match FindById(id)
      case None => Fail(NotFound(AnyEntity, id))
      case Some(d) => Ok(d)
    }

    /** `findAll(pageable)`: a page of every row, mapped. */
    function FindAllPage(pageable: Paging.PageRequest): (page: Paging.Page<D>)
      reads this, repository
      ensures page.totalElements == |repository.rows|
      ensures |page.content| <= pageable.size
      ensures page.pageable == pageable
      ensures page.content == ToDtoList(mapper, Paging.PageOf(Jpa.Ordered(repository.rows, (e: E) => true, pageable.sort), pageable).content)
    {
      assert RowOrder.Select(repository.rows, (e: E) => true) == repository.rows.Keys;
      Paging.MapContent(Jpa.PagedQuery(repository.rows, (e: E) => true, pageable), mapper.toDto)
    }

    /** `findAll()`: every row, mapped, smallest id first. */
    function FindAll(): (r: seq<D>)
      reads this, repository
      ensures |r| == |repository.rows|
      ensures forall k :: k in repository.rows ==> mapper.toDto(repository.rows[k]) in r
      ensures forall i :: 0 <= i < |r| ==>
                RowOrder.Ascending(repository.rows.Keys)[i] in repository.rows &&
                r[i] == mapper.toDto(repository.rows[RowOrder.Ascending(repository.rows.Keys)[i]])
    {
      MappedRows(mapper, repository.rows, RowOrder.Ascending(repository.rows.Keys));
      ToDtoList(mapper, Jpa.FindAll(repository.rows))
    }

    /** `deleteById(id)`: "Entity not found" without a row; otherwise the
        row is deleted for good and the answer is true. */
    method DeleteById(id: int) returns (r: Result<bool, Failure>)
      requires Valid()
      modifies repository
      ensures Valid()
      ensures repository.nextId == old(repository.nextId)
      ensures r.Fail? <==> id !in old(repository.rows)
      ensures r.Fail? ==> r.error == NotFound(AnyEntity, id) && repository.rows == old(repository.rows)
      ensures r.Ok? ==> r.value && repository.rows == old(repository.rows) - {id}
    {
      if !Exists(id) {
        return Fail(NotFound(AnyEntity, id));
      }
      repository.DeleteById(id);
      return Ok(true);
    }

    /** `exists(id)`: whether a row has this id, active or not. */
    function Exists(id: int): (r: bool)
      reads this, repository
      ensures r <==> FindById(id).Some?
    {
      id in repository.rows
    }

    /** `count()`: the number of rows, active or not. */
    function Count(): (n: nat)
      reads this, repository
      ensures n == |FindAll()|
    {
      |repository.rows|
    }

    /** `update(id, dto)`: "Entity not found" without a row `id`; otherwise
        the mapped DTO is saved as it is. The path id is only checked: the
        entity is saved under the id the DTO carries, so a DTO without one
        inserts a new row and leaves row `id` as it was. */
    method Update(id: int, dto: D) returns (r: Result<D, Failure>)
      requires Valid()
      modifies repository
      ensures Valid()
      ensures r.Fail? <==> id !in old(repository.rows)
      ensures r.Fail? ==> r.error == NotFound(AnyEntity, id) && repository.rows == old(repository.rows)
                          && repository.nextId == old(repository.nextId)
      ensures r.Ok? ==> var (saved, rows, next) := repository.Saved(old(repository.rows), old(repository.nextId), mapper.toEntity(dto));
                        && repository.rows == rows && repository.nextId == next && r.value == mapper.toDto(saved)
    {
      if !Exists(id) {
        return Fail(NotFound(AnyEntity, id));
      }
      var entity := mapper.toEntity(dto);
      var savedEntity := repository.Save(entity);
      return Ok(mapper.toDto(savedEntity));
    }
  }

  /** The mapped list of every row: each row's mapping occurs, and entry
      `i` is the mapping of the row with the `i`-th smallest id. */
  lemma {:induction false} MappedRows<E, D>(mapper: GenericMapper<E, D>, rows: map<int, E>, ids: seq<int>)
    requires ids == RowOrder.Ascending(rows.Keys)
    ensures |ToDtoList(mapper, Jpa.FindAll(rows))| == |ids|
    ensures forall k :: k in rows ==> mapper.toDto(rows[k]) in ToDtoList(mapper, Jpa.FindAll(rows))
    ensures forall i :: 0 <= i < |ids| ==> ids[i] in rows && ToDtoList(mapper, Jpa.FindAll(rows))[i] == mapper.toDto(rows[ids[i]])
  {
    var all := Jpa.FindAll(rows);
    var r := ToDtoList(mapper, all);
    assert |all| == |ids|;
    forall i | 0 <= i < |ids|
      ensures ids[i] in rows && r[i] == mapper.toDto(rows[ids[i]])
    {
      assert all[i] == rows[ids[i]];
    }
    forall k | k in rows
      ensures mapper.toDto(rows[k]) in r
    {
      assert k in ids;
      var i := RowOrder.IndexOf(ids, k);
      assert r[i] == mapper.toDto(rows[k]);
    }
  }

  /** An update whose DTO maps to an entity without a stored id inserts a
      new row under a fresh key and leaves the row it was asked to update,
      and every other row, as they were. */
  lemma {:induction false} UpdateWithoutIdInserts<E(!new)>(t: Jpa.Table<E>, id: int, e: E)
    requires t.Valid() && id in t.rows
    requires t.idOf(e).None? || t.idOf(e).value !in t.rows
    ensures var (saved, after, next) := t.Saved(t.rows, t.nextId, e);
            && t.nextId !in t.rows && t.nextId != id
            && after.Keys == t.rows.Keys + {t.nextId}
            && after[id] == t.rows[id]
            && (forall k :: k in t.rows ==> after[k] == t.rows[k])
            && |after| == |t.rows| + 1
  {
    var (saved, after, next) := t.Saved(t.rows, t.nextId, e);
    assert t.nextId !in t.rows;
    assert after == t.rows[t.nextId := saved];
  }

  /** Deleting removes exactly one row: it is no longer found and the count
      drops by one. */
  lemma {:induction false} DeleteRemovesOne<E>(rows: map<int, E>, id: int)
    requires id in rows
    ensures Jpa.FindById(rows - {id}, id).None?
    ensures |rows - {id}| == |rows| - 1
    ensures forall k :: k in rows && k != id ==> Jpa.FindById(rows - {id}, k) == Jpa.FindById(rows, k)
  {
    assert rows.Keys == (rows - {id}).Keys + {id};
  }
}
