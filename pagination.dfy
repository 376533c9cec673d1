/** The paging of the movie lists: the `page` and `limit` query parameters
    (`GET /api/movies` caps the limit at 50, `GET /admin/movies` at 100), the
    offset of the `LIMIT ? OFFSET ?` query, the `pagination` object of the
    reply, and the filter conditions and bind values `getMovies` pushes. */
module Pagination {
  import opened Wrappers
  import opened JsText

  const DefaultPage: string := "1"
  const DefaultLimit: string := "20"
  /** The cap on `limit` of the public movie list. */
  const PublicLimitCap := 50
  /** The cap on `limit` of the admin movie list. */
  const AdminLimitCap := 100

  /** `parseInt(param || '1')`; `None` is `NaN`. */
  function PageParam(raw: Option<string>): Option<int> {
    ParseInt(Or(raw, DefaultPage))
  }

  /** `Math.min(parseInt(param || '20'), cap)`; `NaN` stays `NaN`. */
  function LimitParam(raw: Option<string>, cap: int): (r: Option<int>)
    ensures r.Some? ==> r.value <= cap
  {
    match ParseInt(Or(raw, DefaultLimit))
    case None => None
    case Some(v) => Some(if v <= cap then v else cap)
  }

  /** `(page - 1) * limit`, the number of rows skipped. */
  function Offset(page: int, limit: int): int {
    (page - 1) * limit
  }

  /** `Math.ceil(total / limit)`; `None` when `limit` is 0 (the division
      gives `Infinity` or `NaN`, written `null`). */
  function Pages(total: int, limit: int): Option<int> {
    if limit == 0 then None
    else if limit > 0 then Some((total + limit - 1) / limit)
    else Some(total / limit)
  }

  /** `page * limit < total`. */
  predicate HasNext(page: int, limit: int, total: int) {
    page * limit < total
  }

  /** `page > 1`. */
  predicate HasPrev(page: int) {
    page > 1
  }

  /** The `pagination` object of the reply. `NaN` (`None`) makes both
      comparisons false. */
  datatype PageInfo = PageInfo(page: Option<int>, limit: Option<int>, total: int, pages: Option<int>,
                               hasNext: bool, hasPrev: bool)

  function PaginationOf(page: Option<int>, limit: Option<int>, total: int): PageInfo {
    PageInfo(page, limit, total,
      if limit.Some? then Pages(total, limit.value) else None,
      page.Some? && limit.Some? && HasNext(page.value, limit.value, total),
      page.Some? && HasPrev(page.value))
  }

  lemma DecimalOneAndTwenty()
    ensures Decimal(1) == DefaultPage && Decimal(20) == DefaultLimit
  {
    assert Decimal(20) == Decimal(2) + [DecimalDigit(0)];
  }

  /** Without the parameter (or with an empty one) the first page and 20 rows. */
  lemma Defaults(raw: Option<string>, cap: int)
    requires !Present(raw) && cap >= 20
    ensures PageParam(raw) == Some(1)
    ensures LimitParam(raw, cap) == Some(20)
  {
    DecimalOneAndTwenty();
    ParseIntDecimal(1);
    ParseIntDecimal(20);
  }

  /** A written number of rows is taken up to the cap and cut to it beyond. */
  lemma LimitClamped(n: nat, cap: int)
    ensures LimitParam(Some(Decimal(n)), cap) == Some(if n <= cap then n else cap)
  {
    ParseIntDecimal(n);
  }

  /** With a positive limit the page count is the least number of pages that
      holds every row: the pages before the last do not, the last does. */
  lemma PagesCoverTotal(total: nat, limit: int)
    requires limit > 0
    ensures Pages(total, limit).Some?
    ensures var p := Pages(total, limit).value;
      && p >= 0
      && total <= p * limit
      && (total > 0 ==> (p - 1) * limit < total)
      && (total == 0 ==> p == 0)
  {
    var p := (total + limit - 1) / limit;
    var r := (total + limit - 1) % limit;
    assert total + limit - 1 == p * limit + r;
    assert p * limit == total + limit - 1 - r;
    assert (p - 1) * limit == total - 1 - r;
  }

  /** For a negative limit the count is still the ceiling of the quotient. */
  lemma PagesNegativeLimit(total: int, limit: int)
    requires limit < 0
    ensures var p := Pages(total, limit).value;
      p * limit <= total < (p - 1) * limit
  {
    var p := total / limit;
    var r := total % limit;
    assert total == p * limit + r;
    assert (p - 1) * limit == p * limit - limit;
  }

  /** `has_next` says exactly that the page is not the last one. */
  lemma HasNextIffNotLast(page: int, limit: int, total: nat)
    requires limit > 0
    ensures HasNext(page, limit, total) <==> page < Pages(total, limit).value
  {
    PagesCoverTotal(total, limit);
    var p := Pages(total, limit).value;
    if page < p {
      assert page <= p - 1;
      MulMonotone(page, p - 1, limit);
      assert (p - 1) * limit == p * limit - limit;
    } else {
      MulMonotone(p, page, limit);
    }
  }

  lemma MulMonotone(a: int, b: int, limit: int)
    requires a <= b && limit > 0
    ensures a * limit <= b * limit
  {
    assert b * limit - a * limit == (b - a) * limit;
  }

  /** Row `i` of the ordered result (from 0) is on page `i / limit + 1` and on
      no other page. */
  lemma RowOnExactlyOnePage(i: nat, limit: int, page: int)
    requires limit > 0 && page >= 1
    ensures var home := i / limit + 1;
      && home >= 1
      && Offset(home, limit) <= i < Offset(home, limit) + limit
      && (Offset(page, limit) <= i < Offset(page, limit) + limit <==> page == home)
  {
    var home := i / limit + 1;
    assert i == (home - 1) * limit + i % limit;
    if page < home {
      MulMonotone(page, home - 1, limit);
      assert Offset(page, limit) + limit == page * limit;
    } else if page > home {
      MulMonotone(home, page - 1, limit);
    }
  }

  /** With `limit=0` there is no page count, and every page claims a next
      page as long as there is any row. */
  lemma ZeroLimit(page: int, total: int)
    ensures Pages(total, 0) == None
    ensures HasNext(page, 0, total) <==> total > 0
  {
  }

  /** A filter condition of the movie list. */
  datatype Filter = GenreIs | YearIs | TextMatches {
    /** The number of `?` placeholders in the condition's SQL text. */
    function Placeholders(): nat {
      match this
      case GenreIs => 1
      case YearIs => 1
      case TextMatches => 3
    }

    /** The position of the condition in the `WHERE` clause when present. */
    function Rank(): nat {
      match this
      case GenreIs => 0
      case YearIs => 1
      case TextMatches => 2
    }
  }

  /** A value bound to a placeholder. */
  datatype BindValue = Text(text: string) | Number(number: Option<int>)

  function PlaceholderCount(conditions: seq<Filter>): nat {
    if conditions == [] then 0
    else PlaceholderCount(conditions[..|conditions| - 1]) + conditions[|conditions| - 1].Placeholders()
  }

  /** `%search%`, the `LIKE` pattern. */
  function SearchPattern(search: string): string {
    "%" + search + "%"
  }

  /** The condition a filter adds when its parameter is given. */
  function Part(given: bool, f: Filter): seq<Filter> {
    if given then [f] else []
  }

  /** The conditions of `getMovies`, in the order they are pushed. */
  function Conditions(genre: Option<string>, year: Option<string>, search: Option<string>): seq<Filter> {
    Part(Present(genre), GenreIs) + Part(Present(year), YearIs) + Part(Present(search), TextMatches)
  }

  /** The value bound for the genre condition. */
  function GenreValues(genre: Option<string>): seq<BindValue> {
    if Present(genre) then [Text(genre.value)] else []
  }

  /** The value bound for the year condition: the year as `parseInt` reads it. */
  function YearValues(year: Option<string>): seq<BindValue> {
    if Present(year) then [Number(ParseInt(year.value))] else []
  }

  /** The three values bound for the search condition. */
  function SearchValues(search: Option<string>): seq<BindValue> {
    if Present(search) then var t := Text(SearchPattern(search.value)); [t, t, t] else []
  }

  /** The bind values of `getMovies`, in the order they are pushed. */
  function Params(genre: Option<string>, year: Option<string>, search: Option<string>): seq<BindValue> {
    GenreValues(genre) + YearValues(year) + SearchValues(search)
  }

  /** The `whereConditions` and `params` pushes of `getMovies`. */
  method BuildFilters(genre: Option<string>, year: Option<string>, search: Option<string>)
    returns (conditions: seq<Filter>, params: seq<BindValue>)
    ensures conditions == Conditions(genre, year, search) && params == Params(genre, year, search)
  {
    conditions, params := [], [];
    if Present(genre) {
      conditions, params := conditions + [GenreIs], params + GenreValues(genre);
    }
    assert conditions == Part(Present(genre), GenreIs) && params == GenreValues(genre);
    if Present(year) {
      conditions, params := conditions + [YearIs], params + YearValues(year);
    }
    assert conditions == Part(Present(genre), GenreIs) + Part(Present(year), YearIs);
    assert params == GenreValues(genre) + YearValues(year);
    if Present(search) {
      conditions, params := conditions + [TextMatches], params + SearchValues(search);
    }
  }

  /** Each filter that was given is in the `WHERE` clause, and no other. */
  lemma ConditionsPresent(genre: Option<string>, year: Option<string>, search: Option<string>)
    ensures var conditions := Conditions(genre, year, search);
      && (GenreIs in conditions <==> Present(genre))
      && (YearIs in conditions <==> Present(year))
      && (TextMatches in conditions <==> Present(search))
  {
  }

  /** The conditions come in the order genre, year, search, each at most once. */
  lemma ConditionsOrdered(genre: Option<string>, year: Option<string>, search: Option<string>)
    ensures var conditions := Conditions(genre, year, search);
      forall i, j :: 0 <= i < j < |conditions| ==> conditions[i].Rank() < conditions[j].Rank()
  {
    var conditions := Conditions(genre, year, search);
    var g := Part(Present(genre), GenreIs);
    forall i, j | 0 <= i < j < |conditions|
      ensures conditions[i].Rank() < conditions[j].Rank()
    {
      if i < |g| {
        assert conditions[i] == GenreIs && conditions[j] != GenreIs;
      } else {
        assert conditions[i] == YearIs && conditions[j] == TextMatches;
      }
    }
  }

  /** The genre value is bound first and the search pattern fills the last
      three placeholders. */
  lemma ParamsPlaced(genre: Option<string>, year: Option<string>, search: Option<string>)
    ensures var params := Params(genre, year, search);
      && (Present(genre) ==> params[0] == Text(genre.value))
      && (Present(search) ==> |params| >= 3 && params[|params| - 3..] == SearchValues(search))
  {
    var params := Params(genre, year, search);
    var before := GenreValues(genre) + YearValues(year);
    assert params == before + SearchValues(search);
  }

  lemma {:induction false} PlaceholderCountAppend(a: seq<Filter>, b: seq<Filter>)
    ensures PlaceholderCount(a + b) == PlaceholderCount(a) + PlaceholderCount(b)
  {
    if b != [] {
      var last := |b| - 1;
      assert (a + b)[..|a + b| - 1] == a + b[..last];
      PlaceholderCountAppend(a, b[..last]);
    } else {
      assert a + b == a;
    }
  }

  lemma PlaceholderCountPart(given: bool, f: Filter)
    ensures PlaceholderCount(Part(given, f)) == if given then f.Placeholders() else 0
  {
    if given {
      assert [f][..0] == [];
    }
  }

  /** Every `?` of the `WHERE` clause gets exactly one bind value. */
  lemma PlaceholdersMatchParams(genre: Option<string>, year: Option<string>, search: Option<string>)
    ensures PlaceholderCount(Conditions(genre, year, search)) == |Params(genre, year, search)|
  {
    var g, y, s := Part(Present(genre), GenreIs), Part(Present(year), YearIs), Part(Present(search), TextMatches);
    PlaceholderCountAppend(g + y, s);
    PlaceholderCountAppend(g, y);
    PlaceholderCountPart(Present(genre), GenreIs);
    PlaceholderCountPart(Present(year), YearIs);
    PlaceholderCountPart(Present(search), TextMatches);
  }
}
