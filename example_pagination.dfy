/** `com.example.patients.dto.PaginationRequest` and
    `com.example.patients.util.PaginationUtil`: a request body's page, size
    and sort tokens of the form "field,direction" turned into a `Pageable`.
    An empty order list stands for `Sort.unsorted()`. */
module ExamplePagination {
  import opened Wrappers
  import opened Failures
  import opened JavaText
  import Paging

  /** `PaginationRequest`; each field may be null. */
  datatype PaginationRequest = PaginationRequest(page: Option<int>, size: Option<int>, sort: Option<seq<Option<string>>>)

  /** The no-argument constructor: page 0, size 20, no sort list. */
  const DefaultRequest := PaginationRequest(Some(0), Some(20), None)

  /** `new PaginationRequest(page, size)`, which leaves the sort list null. */
  function PaginationRequestOf(page: Option<int>, size: Option<int>): (r: PaginationRequest)
    ensures r.page == page && r.size == size && r.sort.None?
  {
    DefaultRequest.(page := page, size := size)
  }

  /** The bean-validation constraints of the fields: `@NotNull @Min(0)` on
      the page and `@NotNull @Min(1)` on the size. */
  predicate Valid(r: PaginationRequest) {
    r.page.Some? && r.page.value >= 0 && r.size.Some? && r.size.value >= 1
  }

  // ---------------------------------------------------------- sort tokens

  /** The orders a token contributes, as a list of at most one. */
  function Listed(order: Option<Paging.Order>): (r: seq<Paging.Order>)
    ensures r == [] <==> order.None?
    ensures order.Some? ==> r == [order.value]
  {
    if order.Some? then [order.value] else []
  }

  /** A token made only of commas, which `split(",")` turns into no part. */
  predicate CommasOnly(token: Option<string>) {
    token.Some? && token.value != [] && forall j :: 0 <= j < |token.value| ==> token.value[j] == ','
  }

  /** A token whose text before the first comma, trimmed, is not empty
      but holds only whitespace that `trim` keeps (such as U+3000), which
      `new Sort.Order` refuses for want of text. */
  predicate NoTextField(token: Option<string>) {
    token.Some? && var field := Trim(CommaParts(token.value)[0]); field != [] && !HasText(field)
  }

  /** A token on which `createSort` throws. */
  predicate Unsortable(token: Option<string>) {
    CommasOnly(token) || NoTextField(token)
  }

  /** One pass of the loop of `createSort`: nothing for a null or blank
      token or for an empty field; reading the first part of a token made
      only of commas throws, and so does `new Sort.Order` on a field without
      text. The field is the trimmed first comma part, and the direction is
      DESC exactly when the second part, trimmed and lower cased, reads
      "desc". */
  function ParseToken(token: Option<string>): (r: Result<Option<Paging.Order>, Failure>)
    ensures r.Fail? ==> r.error == IndexOutOfBounds || r.error == IllegalArgument
  {
    if token.None? || Trim(token.value) == [] then Ok(None)
    else
      var parts := JavaSplitComma(token.value);
      if parts == [] then Fail(IndexOutOfBounds)
      else
        var field := Trim(parts[0]);
        if field == [] then Ok(None)
        else
          var direction := if |parts| > 1 && Lower(Trim(parts[1])) == "desc" then Paging.Desc else Paging.Asc;
          if !HasText(field) then Fail(IllegalArgument)
          else Ok(Some(Paging.Order(direction, field)))
  }

  /** A sort property as `createSort` builds it: non-empty, without a comma,
      without blanks at either end, and with some character that is not
      whitespace. */
  predicate FieldName(s: string) {
    s != [] && ',' !in s && !IsTrimmed(s[0]) && !IsTrimmed(s[|s| - 1]) && HasText(s)
  }

  /** Every order a token yields names a field. */
  lemma {:induction false} ParsedFieldIsName(token: Option<string>)
    requires ParseToken(token).Ok? && ParseToken(token).value.Some?
    ensures FieldName(ParseToken(token).value.value.property)
  {
    ParsedOrderShape(token);
    FirstPartTrimmed(token.value);
  }

  /** An order a token yields has the trimmed first part as its property,
      and that property has text. */
  lemma {:induction false} ParsedOrderShape(token: Option<string>)
    requires ParseToken(token).Ok? && ParseToken(token).value.Some?
    ensures token.Some? && JavaSplitComma(token.value) != []
    ensures var field := Trim(JavaSplitComma(token.value)[0]);
            ParseToken(token).value.value.property == field && field != [] && HasText(field)
  {
  }

  /** The trimmed first part of `split(",")` has no comma and no blank at
      either end. */
  lemma {:induction false} FirstPartTrimmed(t: string)
    requires JavaSplitComma(t) != [] && Trim(JavaSplitComma(t)[0]) != []
    ensures var field := Trim(JavaSplitComma(t)[0]);
            ',' !in field && !IsTrimmed(field[0]) && !IsTrimmed(field[|field| - 1])
  {
    var parts := JavaSplitComma(t);
    assert parts == CommaParts(t)[..|parts|];
    NoCommaAfterTrim(parts[0]);
    TrimmedEnds(parts[0]);
  }

  lemma {:induction false} NoCommaAfterTrim(s: string)
    requires ',' !in s
    ensures ',' !in Trim(s)
  {
    var t := TrimStart(s);
    var u := TrimEnd(t);
  }

  lemma {:induction false} TrimmedEnds(s: string)
    requires Trim(s) != []
    ensures !IsTrimmed(Trim(s)[0]) && !IsTrimmed(Trim(s)[|Trim(s)| - 1])
  {
    var t := TrimStart(s);
    var u := TrimEnd(t);
    assert u[0] == t[0];
  }

  /** The orders of a list of token results in list order, or the first
      failure among them. */
  function Gathered(results: seq<Result<Option<Paging.Order>, Failure>>): (r: Result<seq<Paging.Order>, Failure>)
    ensures r.Ok? ==> |r.value| <= |results|
    ensures r.Fail? ==> exists i :: 0 <= i < |results| && results[i] == Fail(r.error)
    ensures (exists i :: 0 <= i < |results| && results[i].Fail?) ==> r.Fail?
    decreases |results|
  {
    if results == [] then Ok([])
    else
      var init := results[..|results| - 1];
      assert forall i :: 0 <= i < |init| ==> init[i] == results[i];
      var earlier :- Gathered(init);
      var order :- results[|results| - 1];
      Ok(earlier + Listed(order))
  }

  /** Every order gathered comes from one of the results. */
  lemma {:induction false} GatheredFrom(results: seq<Result<Option<Paging.Order>, Failure>>)
    requires Gathered(results).Ok?
    ensures forall k :: 0 <= k < |Gathered(results).value| ==>
              exists i :: 0 <= i < |results| && results[i] == Ok(Some(Gathered(results).value[k]))
    decreases |results|
  {
    if results != [] {
      var init, last := results[..|results| - 1], results[|results| - 1];
      GatheredFrom(init);
      var earlier := Gathered(init).value;
      forall k | 0 <= k < |Gathered(results).value|
        ensures exists i :: 0 <= i < |results| && results[i] == Ok(Some(Gathered(results).value[k]))
      {
        if k < |earlier| {
          var i :| 0 <= i < |init| && init[i] == Ok(Some(earlier[k]));
          assert results[i] == init[i];
        } else {
          assert results[|results| - 1] == Ok(Some(Gathered(results).value[k]));
        }
      }
    }
  }

  /** Gathering two lists one after the other is gathering their
      concatenation: the orders keep the order of the results. */
  lemma {:induction false} GatheredAppend(xs: seq<Result<Option<Paging.Order>, Failure>>, ys: seq<Result<Option<Paging.Order>, Failure>>)
    ensures Gathered(xs + ys) == (match Gathered(xs)
                                  case Fail(e) => Fail(e)
                                  case Ok(a) => match Gathered(ys)
                                                case Fail(e) => Fail(e)
                                                case Ok(b) => Ok(a + b))
    decreases |ys|
  {
    if ys == [] {
      assert xs + ys == xs;
      if Gathered(xs).Ok? {
        assert Gathered(xs).value + [] == Gathered(xs).value;
      }
    } else {
      var init, last := ys[..|ys| - 1], ys[|ys| - 1];
      assert (xs + ys)[..|xs + ys| - 1] == xs + init;
      assert (xs + ys)[|xs + ys| - 1] == last;
      GatheredAppend(xs, init);
      if Gathered(xs).Ok? && Gathered(init).Ok? && last.Ok? {
        var a, b := Gathered(xs).value, Gathered(init).value;
        assert a + (b + Listed(last.value)) == (a + b) + Listed(last.value);
      }
    }
  }

  /** `createSort(sortList)` over a list (a null list reads as empty): the
      token's orders in list order, or the failure of the first token that
      throws. */
  function SortOf(tokens: seq<Option<string>>): (r: Result<seq<Paging.Order>, Failure>)
    ensures r.Fail? ==> r.error == IndexOutOfBounds || r.error == IllegalArgument
    ensures r.Ok? ==> |r.value| <= |tokens|
  {
    Gathered(Paging.Map(tokens, ParseToken))
  }

  /** `createSort` reads past the end of a token's parts exactly when the
      token is not blank and `split(",")` leaves nothing of it, and refuses
      its field exactly when the trimmed first part is not empty but has no
      text. */
  lemma {:induction false} ParseTokenFailShape(token: Option<string>)
    ensures ParseToken(token) == Fail(IndexOutOfBounds) <==>
              token.Some? && Trim(token.value) != [] && JavaSplitComma(token.value) == []
    ensures ParseToken(token) == Fail(IllegalArgument) <==>
              && token.Some? && Trim(token.value) != [] && JavaSplitComma(token.value) != []
              && Trim(JavaSplitComma(token.value)[0]) != [] && !HasText(Trim(JavaSplitComma(token.value)[0]))
  {
  }

  /** The field without text, read off the split the loop makes. */
  lemma {:induction false} NoTextFieldShape(token: Option<string>)
    ensures NoTextField(token) <==>
              && token.Some? && Trim(token.value) != [] && JavaSplitComma(token.value) != []
              && Trim(JavaSplitComma(token.value)[0]) != [] && !HasText(Trim(JavaSplitComma(token.value)[0]))
  {
    if token.Some? {
      var t := token.value;
      var first, split := CommaParts(t)[0], JavaSplitComma(t);
      SplitEmptyIffOnlyCommas(t);
      if split == [] {
        OnlyCommasSplitIntoEmpties(t);
        assert first == [];
      } else {
        assert split[0] == first;
        FirstPartIsPrefix(t);
        TrimEmptyIffBlank(t);
        TrimEmptyIffBlank(first);
        assert forall i :: 0 <= i < |first| ==> first[i] == t[i];
      }
    }
  }

  /** A token is made only of commas exactly when it is not blank and
      `split(",")` leaves nothing of it. */
  lemma {:induction false} CommasOnlyShape(token: Option<string>)
    ensures CommasOnly(token) <==> token.Some? && Trim(token.value) != [] && JavaSplitComma(token.value) == []
  {
    if token.Some? {
      var t := token.value;
      TrimEmptyIffBlank(t);
      SplitEmptyIffOnlyCommas(t);
      if CommasOnly(token) {
        assert !IsTrimmed(t[0]);
      }
    }
  }

  /** A token reads past the end of its parts exactly when it is made only
      of commas, has its field refused exactly when that field has no text,
      and throws in no other case. */
  lemma {:induction false} ParseTokenFailsIff(token: Option<string>)
    ensures ParseToken(token) == Fail(IndexOutOfBounds) <==> CommasOnly(token)
    ensures ParseToken(token) == Fail(IllegalArgument) <==> NoTextField(token)
    ensures ParseToken(token).Fail? <==> Unsortable(token)
  {
    ParseTokenFailShape(token);
    CommasOnlyShape(token);
    NoTextFieldShape(token);
  }

  /** The whole list throws exactly when one of its tokens throws, wherever
      it stands. */
  lemma {:induction false} SortOfFailsIff(tokens: seq<Option<string>>)
    ensures SortOf(tokens).Fail? <==> exists i :: 0 <= i < |tokens| && Unsortable(tokens[i])
  {
    var results := Paging.Map(tokens, ParseToken);
    forall i | 0 <= i < |tokens| ensures results[i].Fail? <==> Unsortable(tokens[i]) {
      ParseTokenFailsIff(tokens[i]);
    }
    if SortOf(tokens).Fail? {
      var i :| 0 <= i < |results| && results[i] == Fail(SortOf(tokens).error);
      assert Unsortable(tokens[i]);
    }
  }

  /** Every order of the list names a field. */
  lemma {:induction false} SortedFieldsAreNames(tokens: seq<Option<string>>)
    requires SortOf(tokens).Ok?
    ensures forall k :: 0 <= k < |SortOf(tokens).value| ==> FieldName(SortOf(tokens).value[k].property)
  {
    var results := Paging.Map(tokens, ParseToken);
    GatheredFrom(results);
    forall k | 0 <= k < |SortOf(tokens).value| ensures FieldName(SortOf(tokens).value[k].property) {
      var i :| 0 <= i < |results| && results[i] == Ok(Some(SortOf(tokens).value[k]));
      ParsedFieldIsName(tokens[i]);
    }
  }

  /** Sorting two lists one after the other is sorting their
      concatenation: the orders keep the order of the tokens. */
  lemma {:induction false} SortOfAppend(xs: seq<Option<string>>, ys: seq<Option<string>>)
    ensures SortOf(xs + ys) == (match SortOf(xs)
                                case Fail(e) => Fail(e)
                                case Ok(a) => match SortOf(ys)
                                              case Fail(e) => Fail(e)
                                              case Ok(b) => Ok(a + b))
  {
    Paging.MapAppend(xs, ys, ParseToken);
    GatheredAppend(Paging.Map(xs, ParseToken), Paging.Map(ys, ParseToken));
  }

  /** A list of one token gives that token's order, if any. */
  lemma {:induction false} SortOfOne(token: Option<string>)
    ensures SortOf([token]) == (match ParseToken(token)
                                case Fail(e) => Fail(e)
                                case Ok(o) => Ok(Listed(o)))
  {
    var results := Paging.Map([token], ParseToken);
    assert results == [ParseToken(token)];
    GatheredOne(ParseToken(token));
  }

  /** Gathering one result gives its orders or its failure. */
  lemma {:induction false} GatheredOne(x: Result<Option<Paging.Order>, Failure>)
    ensures Gathered([x]) == (match x
                              case Fail(e) => Fail(e)
                              case Ok(o) => Ok(Listed(o)))
  {
    assert [x][..0] == [];
    if x.Ok? {
      assert [] + Listed(x.value) == Listed(x.value);
    }
  }

  /** One more token extends the orders of the tokens before it. */
  lemma {:induction false} SortOfStep(tokens: seq<Option<string>>, i: nat)
    requires i < |tokens| && SortOf(tokens[..i]).Ok?
    ensures SortOf(tokens[..i + 1]) == (match ParseToken(tokens[i])
                                        case Fail(e) => Fail(e)
                                        case Ok(o) => Ok(SortOf(tokens[..i]).value + Listed(o)))
  {
    var results := Paging.Map(tokens[..i + 1], ParseToken);
    assert results[..|results| - 1] == Paging.Map(tokens[..i], ParseToken);
    assert results[|results| - 1] == ParseToken(tokens[i]);
  }

  /** A token that throws makes the whole list throw, whatever follows it,
      and with its own exception when no token before it throws. */
  lemma {:induction false} FailureIsFinal(tokens: seq<Option<string>>, i: nat)
    requires i < |tokens| && ParseToken(tokens[i]).Fail?
    ensures SortOf(tokens).Fail?
    ensures SortOf(tokens[..i]).Ok? ==> SortOf(tokens) == Fail(ParseToken(tokens[i]).error)
  {
    assert Paging.Map(tokens, ParseToken)[i].Fail?;
    if SortOf(tokens[..i]).Ok? {
      FirstFailure(tokens, i, ParseToken(tokens[i]).error);
    }
  }

  /** The failure of the first token that throws is the list's failure. */
  lemma {:induction false} FirstFailure(tokens: seq<Option<string>>, i: nat, e: Failure)
    requires i < |tokens| && ParseToken(tokens[i]) == Fail(e) && SortOf(tokens[..i]).Ok?
    ensures SortOf(tokens) == Fail(e)
  {
    Paging.MapPrefix(tokens, ParseToken, i);
    GatheredFirstFailure(Paging.Map(tokens, ParseToken), i);
  }

  /** The first failure among the results is the one gathered. */
  lemma {:induction false} GatheredFirstFailure(results: seq<Result<Option<Paging.Order>, Failure>>, i: nat)
    requires i < |results| && results[i].Fail? && Gathered(results[..i]).Ok?
    ensures Gathered(results) == Fail(results[i].error)
  {
    var head := results[..i + 1];
    assert head[..|head| - 1] == results[..i];
    assert head[|head| - 1] == results[i];
    GatheredAppend(head, results[i + 1..]);
    assert head + results[i + 1..] == results;
  }

  /** The field is the trimmed text before the first comma, and the
      direction is DESC exactly when the text after it, up to the next
      comma, trimmed and lower cased, reads "desc". */
  lemma {:induction false} TokenParts(t: string)
    requires ParseToken(Some(t)).Ok? && ParseToken(Some(t)).value.Some?
    ensures var o := ParseToken(Some(t)).value.value;
            var parts := CommaParts(t);
            && o.property == Trim(parts[0])
            && (o.direction == Paging.Desc <==> |parts| > 1 && Lower(Trim(parts[1])) == "desc")
  {
    var split, parts := JavaSplitComma(t), CommaParts(t);
    assert t != [];
    assert split[0] == parts[0];
    if |split| <= 1 < |parts| {
      assert forall i :: |split| <= i < |parts| ==> parts[i] == [];
      assert parts[1] == [];
      assert Trim([]) == [];
      assert Lower([]) == [];
    }
    if |split| > 1 {
      assert split[1] == parts[1];
    }
  }

  /** The field is read from the text before the first comma. */
  lemma {:induction false} FieldIsBeforeFirstComma(t: string)
    requires ParseToken(Some(t)).Ok? && ParseToken(Some(t)).value.Some?
    ensures var k := |CommaParts(t)[0]|;
            && k <= |t| && (k < |t| ==> t[k] == ',')
            && ParseToken(Some(t)).value.value.property == Trim(t[..k])
  {
    TokenParts(t);
    FirstPartIsPrefix(t);
  }

  /** One pass of the loop of `createSort` on the token `sortStr`: `None`
      where the loop continues, the order it adds otherwise. */
  method SortToken(sortStr: Option<string>) returns (r: Result<Option<Paging.Order>, Failure>)
    ensures r == ParseToken(sortStr)
  {
    if sortStr.None? || Trim(sortStr.value) == [] {
      return Ok(None);
    }
    var parts := JavaSplitComma(sortStr.value);
    if parts == [] {
      return Fail(IndexOutOfBounds);
    }
    var field := Trim(parts[0]);
    if field == [] {
      return Ok(None);
    }
    var direction := Paging.Asc;
    if |parts| > 1 {
      var directionStr := Lower(Trim(parts[1]));
      if directionStr == "desc" {
        direction := Paging.Desc;
      }
    }
    if !HasText(field) {
      return Fail(IllegalArgument);
    }
    return Ok(Some(Paging.Order(direction, field)));
  }

  /** `createSort(sortList)`, token by token. */
  method CreateSort(sortList: Option<seq<Option<string>>>) returns (r: Result<seq<Paging.Order>, Failure>)
    ensures r == SortOf(sortList.GetOr([]))
  {
    if sortList.None? || sortList.value == [] {
      return Ok([]);
    }
    var tokens := sortList.value;
    var orders: seq<Paging.Order> := [];
    var i := 0;
    while i < |tokens|
      invariant 0 <= i <= |tokens|
      invariant SortOf(tokens[..i]) == Ok(orders)
    {
      SortOfStep(tokens, i);
      var order := SortToken(tokens[i]);
      if order.Fail? {
        FailureIsFinal(tokens, i);
        return Fail(order.error);
      }
      assert orders + Listed(order.value) == if order.value.Some? then orders + [order.value.value] else orders;
      if order.value.Some? {
        orders := orders + [order.value.value];
      }
      i := i + 1;
    }
    assert tokens[..|tokens|] == tokens;
    return Ok(orders);
  }

  // ------------------------------------------------------------ toPageable

  /** `toPageable(request)`: page 0, size 20, unsorted for a null request;
      otherwise a null page reads as 0 and a null size as 20, the sort
      tokens are parsed first and `PageRequest.of` then rejects a negative
      page or a size below one. */
  function PageableOf(request: Option<PaginationRequest>): (r: Result<Paging.PageRequest, Failure>)
    ensures request.None? ==> r == Ok(Paging.PageRequest(0, 20, []))
    ensures request.Some? ==> var q := request.value;
              && (SortOf(q.sort.GetOr([])).Fail? ==> r == Fail(SortOf(q.sort.GetOr([])).error))
              && (SortOf(q.sort.GetOr([])).Ok? ==>
                    (r.Ok? <==> q.page.GetOr(0) >= 0 && q.size.GetOr(20) >= 1) &&
                    (r.Fail? ==> r.error == IllegalArgument) &&
                    (r.Ok? ==> r.value == Paging.PageRequest(q.page.GetOr(0), q.size.GetOr(20), SortOf(q.sort.GetOr([])).value)))
  {
    match request
    case None => Ok(Paging.PageRequest(0, 20, []))
    case Some(q) =>
      var sort :- SortOf(q.sort.GetOr([]));
      Paging.PageRequestOf(q.page.GetOr(0), q.size.GetOr(20), sort)
  }

  method ToPageable(request: Option<PaginationRequest>) returns (r: Result<Paging.PageRequest, Failure>)
    ensures r == PageableOf(request)
  {
    if request.None? {
      return Ok(Paging.PageRequest(0, 20, []));
    }
    var q := request.value;
    var page := if q.page.Some? then q.page.value else 0;
    var size := if q.size.Some? then q.size.value else 20;
    var sort := CreateSort(q.sort);
    if sort.Fail? {
      return Fail(sort.error);
    }
    r := Paging.PageRequestOf(page, size, sort.value);
  }

  /** A request that meets its field constraints always yields a page
      request unless a sort token throws; one without a sort list is
      unsorted, and the default request pages like no request at all. */
  lemma {:induction false} ValidRequestPages(q: PaginationRequest)
    requires Valid(q) && !exists i :: 0 <= i < |q.sort.GetOr([])| && Unsortable(q.sort.GetOr([])[i])
    ensures PageableOf(Some(q)).Ok?
    ensures q.sort.None? ==> PageableOf(Some(q)).value.sort == []
    ensures PageableOf(Some(DefaultRequest)) == PageableOf(None)
  {
    SortOfFailsIff(q.sort.GetOr([]));
  }
}
