/** Spring Data's `PageRequest`, `Sort` and `Page`, and the `map` of a stream
    or a page through a mapper that may throw. */
module Paging {
  import opened Wrappers
  import opened Failures

  type Positive = n: int | n >= 1 witness 1

  datatype Direction = Asc | Desc

  /** `Sort.Order`: a direction and a property name. */
  datatype Order = Order(direction: Direction, property: string)

  /** A `Pageable`; an empty `sort` is `Sort.unsorted()`. */
  datatype PageRequest = PageRequest(page: nat, size: Positive, sort: seq<Order>)

  /** `PageRequest.of(page, size, sort)`, which rejects a negative page and a
      size below one. */
  function PageRequestOf(page: int, size: int, sort: seq<Order>): (r: Result<PageRequest, Failure>)
    ensures r.Ok? <==> page >= 0 && size >= 1
    ensures r.Fail? ==> r.error == IllegalArgument
    ensures r.Ok? ==> r.value.page == page && r.value.size == size && r.value.sort == sort
  {
    if page >= 0 && size >= 1 then Ok(PageRequest(page, size, sort)) else Fail(IllegalArgument)
  }

  /** A `Page`: the slice of the full result the request selects, and the
      size of the full result. */
  datatype Page<T> = Page(content: seq<T>, totalElements: nat, pageable: PageRequest)

  function Start(n: nat, request: PageRequest): (lo: nat)
    ensures lo <= n
  {
    if request.page * request.size < n then request.page * request.size else n
  }

  function End(n: nat, request: PageRequest): (hi: nat)
    ensures Start(n, request) <= hi <= n
    ensures hi - Start(n, request) <= request.size
  {
    var lo := Start(n, request);
    if lo + request.size < n then lo + request.size else n
  }

  /** The page `request` selects from the full, ordered result `all`. */
  function PageOf<T>(all: seq<T>, request: PageRequest): (p: Page<T>)
    ensures |p.content| <= request.size
    ensures p.totalElements == |all|
    ensures p.content == all[Start(|all|, request)..End(|all|, request)]
  {
    Page(all[Start(|all|, request)..End(|all|, request)], |all|, request)
  }

  /** A page keeps what every row of the full result has. */
  lemma {:induction false} PageKeeps<T>(all: seq<T>, request: PageRequest, keep: T -> bool)
    requires forall i :: 0 <= i < |all| ==> keep(all[i])
    ensures var p := PageOf(all, request); forall i :: 0 <= i < |p.content| ==> keep(p.content[i])
  {
    var p := PageOf(all, request);
    var lo := Start(|all|, request);
    assert forall i :: 0 <= i < |p.content| ==> p.content[i] == all[lo + i];
  }

  /** `stream().map(f)` / `Page.map(f)` where `f` may throw: the first
      failure in order, otherwise every element mapped. */
  function MapAll<T, U, E>(xs: seq<T>, f: T -> Result<U, E>): (r: Result<seq<U>, E>)
    ensures r.Ok? <==> forall i :: 0 <= i < |xs| ==> f(xs[i]).Ok?
    ensures r.Ok? ==> |r.value| == |xs| && forall i :: 0 <= i < |xs| ==> r.value[i] == f(xs[i]).value
  {
    if xs == [] then Ok([])
    else
      match f(xs[0])
      case Fail(e) => Fail(e)
      case Ok(y) =>
        match MapAll(xs[1..], f)
        case Fail(e) => Fail(e)
        case Ok(ys) =>
          assert forall i :: 1 <= i < |xs| ==> xs[i] == xs[1..][i - 1];
          Ok([y] + ys)
  }

  /** `Page.map(f)` for a mapper that may throw. */
  function MapPage<T, U, E>(p: Page<T>, f: T -> Result<U, E>): (r: Result<Page<U>, E>)
    ensures r.Ok? <==> MapAll(p.content, f).Ok?
    ensures r.Ok? ==> (r.value.totalElements == p.totalElements && r.value.pageable == p.pageable &&
                       r.value.content == MapAll(p.content, f).value)
  {
    match MapAll(p.content, f)
    case Ok(ys) => Ok(Page(ys, p.totalElements, p.pageable))
    case Fail(e) => Fail(e)
  }

  /** `stream().map(f)` for a mapper that cannot throw. */
  function Map<T, U>(xs: seq<T>, f: T -> U): (r: seq<U>)
    ensures |r| == |xs| && forall i :: 0 <= i < |xs| ==> r[i] == f(xs[i])
  {
    seq(|xs|, i requires 0 <= i < |xs| => f(xs[i]))
  }

  /** Mapping a prefix gives the prefix of the mapping. */
  lemma {:induction false} MapPrefix<T, U>(xs: seq<T>, f: T -> U, i: nat)
    requires i <= |xs|
    ensures Map(xs, f)[..i] == Map(xs[..i], f)
  {
  }

  /** Mapping a concatenation maps each half. */
  lemma {:induction false} MapAppend<T, U>(xs: seq<T>, ys: seq<T>, f: T -> U)
    ensures Map(xs + ys, f) == Map(xs, f) + Map(ys, f)
  {
    var l, r := Map(xs + ys, f), Map(xs, f) + Map(ys, f);
    assert forall i :: 0 <= i < |xs| ==> (xs + ys)[i] == xs[i];
    assert forall i :: |xs| <= i < |xs| + |ys| ==> (xs + ys)[i] == ys[i - |xs|];
  }

  function MapContent<T, U>(p: Page<T>, f: T -> U): (r: Page<U>)
    ensures r.totalElements == p.totalElements && r.pageable == p.pageable
    ensures |r.content| == |p.content| && forall i :: 0 <= i < |p.content| ==> r.content[i] == f(p.content[i])
  {
    Page(Map(p.content, f), p.totalElements, p.pageable)
  }
}
