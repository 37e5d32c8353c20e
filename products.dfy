/** The product table of the catalogue service and the two operations of
    ProductsService that only read it: findOne (an available-only lookup that
    fails with a "not found" RPC error) and findAll (offset pagination over the
    available rows, with its meta block).

    The store is a sequence of rows in its natural order. The store primitives
    the service uses (count and findMany and findFirst with `available: true`,
    update by id) are the functions Available, Window, FindOne and UpdateWhere
    below. */
module Products {

  datatype Option<T> = None | Some(value: T)

  /** The payload of the RPC exception: a message and an HTTP-style status. */
  datatype RpcError = RpcError(message: string, status: int)

  datatype Result<T> = Success(value: T) | Failure(error: RpcError)

  /** HttpStatus.BAD_REQUEST, the status findOne reports for a missing product. */
  const BAD_REQUEST: int := 400

  /** The descriptive fields of a CreateProductDto, stored verbatim. */
  datatype Details = Details(name: string, price: real)

  /** One row of the product table. */
  datatype Product = Product(id: int, details: Details, available: bool)

  /** An UpdateProductDto: every descriptive field is optional, and the payload
      may carry an id of its own. */
  datatype UpdateProductDto = UpdateProductDto(id: Option<int>, name: Option<string>, price: Option<real>)

  /** The `data` argument of the store's update: the fields to overwrite. */
  datatype ProductData = ProductData(name: Option<string>, price: Option<real>, available: Option<bool>)

  /** A PaginationDto: both fields may be absent. */
  datatype PaginationDto = PaginationDto(page: Option<int>, limit: Option<int>)

  datatype Meta = Meta(total: nat, page: int, lastPage: nat)

  /** What findAll returns: one page of rows and the meta block. */
  datatype ProductPage = ProductPage(data: seq<Product>, meta: Meta)

  function Min(a: int, b: int): int { if a <= b then a else b }

  // ---------------------------------------------------------------------------
  // Decimal rendering of an id, as a template literal renders an integer number

  function DigitChar(d: nat): char
    requires d < 10
  {
    ('0' as int + d) as char
  }

  function DigitValue(c: char): int { c as int - '0' as int }

  /** The decimal digits of n, most significant first, without leading zeros. */
  function Digits(n: nat): (s: string)
    ensures |s| >= 1
    ensures forall i | 0 <= i < |s| :: '0' <= s[i] <= '9'
    ensures s[0] == '0' ==> n == 0 && |s| == 1
  {
    if n < 10 then [DigitChar(n)] else Digits(n / 10) + [DigitChar(n % 10)]
  }

  /** Reads a string of decimal digits back as a number. */
  function ParseDigits(s: string): int
  {
    if s == [] then 0 else ParseDigits(s[..|s| - 1]) * 10 + DigitValue(s[|s| - 1])
  }

  /** Reads the rendering of a (possibly negative) integer back. */
  function ParseDecimal(s: string): int
  {
    if |s| > 0 && s[0] == '-' then -ParseDigits(s[1..]) else ParseDigits(s)
  }

  /** The shape in which a template literal renders an integer of magnitude
      below 10^21: an optional '-', then at least one decimal digit, with no
      leading zero (so no "-0" either). */
  predicate IsDecimal(s: string)
  {
    var start := if |s| > 0 && s[0] == '-' then 1 else 0;
    && start < |s|
    && (forall i | start <= i < |s| :: '0' <= s[i] <= '9')
    && (s[start] == '0' ==> |s| == 1)
  }

  lemma {:induction false} ParseDigitsInverse(n: nat)
    ensures ParseDigits(Digits(n)) == n
  {
    if n >= 10 {
      ParseDigitsInverse(n / 10);
      var s := Digits(n);
      assert s[..|s| - 1] == Digits(n / 10);
    }
  }

  /** Digits without a leading zero are the rendering of the number they read as. */
  lemma {:induction false} DigitsOfParse(s: string)
    requires |s| >= 1 && forall i | 0 <= i < |s| :: '0' <= s[i] <= '9'
    requires s[0] == '0' ==> |s| == 1
    ensures ParseDigits(s) >= 0 && Digits(ParseDigits(s)) == s
  {
    var init := s[..|s| - 1];
    var d := DigitValue(s[|s| - 1]);
    if |s| == 1 {
      assert init == [];
      assert s == [DigitChar(d)];
    } else {
      DigitsOfParse(init);
      var p := ParseDigits(init);
      assert init[0] == s[0];
      assert (p * 10 + d) / 10 == p && (p * 10 + d) % 10 == d;
      assert s == init + [DigitChar(d)];
    }
  }

  /** `${id}`: the decimal rendering of id, with a leading '-' when negative. */
  function DecimalString(n: int): (s: string)
    ensures IsDecimal(s)
    ensures (s[0] == '-') == (n < 0)
    ensures ParseDecimal(s) == n
  {
    if n < 0 then
      ParseDigitsInverse(-n);
      assert ("-" + Digits(-n))[1..] == Digits(-n);
      "-" + Digits(-n)
    else
      ParseDigitsInverse(n);
      Digits(n)
  }

  /** The rendering is the only string of that shape that reads back as n. */
  lemma DecimalStringUnique(s: string, n: int)
    requires IsDecimal(s) && ParseDecimal(s) == n
    ensures s == DecimalString(n)
  {
    if s[0] == '-' {
      var t := s[1..];
      DigitsOfParse(t);
      var m := ParseDigits(t);
      assert m != 0 by {
        assert Digits(0) == "0";
      }
      assert n == -m;
      assert DecimalString(n) == "-" + Digits(m);
      assert s == "-" + t;
    } else {
      DigitsOfParse(s);
    }
  }

  const NOT_FOUND_PREFIX: string := "Product with id "
  const NOT_FOUND_SUFFIX: string := " not found"

  /** The error findOne raises for an id with no available row. */
  function NotFound(id: int): (e: RpcError)
    ensures e.status == BAD_REQUEST
    ensures |e.message| > |NOT_FOUND_PREFIX| + |NOT_FOUND_SUFFIX|
    ensures e.message[..|NOT_FOUND_PREFIX|] == NOT_FOUND_PREFIX
    ensures e.message[|e.message| - |NOT_FOUND_SUFFIX|..] == NOT_FOUND_SUFFIX
    ensures var middle := e.message[|NOT_FOUND_PREFIX|..|e.message| - |NOT_FOUND_SUFFIX|];
            IsDecimal(middle) && ParseDecimal(middle) == id
  {
    var digits := DecimalString(id);
    var message := NOT_FOUND_PREFIX + digits + NOT_FOUND_SUFFIX;
    assert message[|NOT_FOUND_PREFIX|..|message| - |NOT_FOUND_SUFFIX|] == digits;
    RpcError(message, BAD_REQUEST)
  }

  /** Two not-found errors are equal exactly when they name the same id. */
  lemma NotFoundNamesId(a: int, b: int)
    ensures NotFound(a) == NotFound(b) <==> a == b
  {
    if NotFound(a) == NotFound(b) {
      var m := NotFound(a).message;
      assert ParseDecimal(m[|NOT_FOUND_PREFIX|..|m| - |NOT_FOUND_SUFFIX|]) == a;
    }
  }

  // ---------------------------------------------------------------------------
  // Store primitives over the table

  /** The id of row i. UniqueIds quantifies over this term rather than over
      `rows[i].id`, so its quantifier fires only where a proof names a row by
      IdAt, which keeps the verifier from instantiating it on every index. */
  function IdAt(rows: seq<Product>, i: nat): int
    requires i < |rows|
  {
    rows[i].id
  }

  /** Ids are the table's primary key. */
  ghost predicate UniqueIds(rows: seq<Product>)
  {
    forall i, j | 0 <= i < j < |rows| :: IdAt(rows, i) != IdAt(rows, j)
  }

  /** Under unique ids, row k is the only row with its id. */
  lemma OnlyRowWithId(rows: seq<Product>, k: nat)
    requires UniqueIds(rows) && k < |rows|
    ensures forall i | 0 <= i < |rows| && i != k :: rows[i].id != rows[k].id
  {
    forall i | 0 <= i < |rows| && i != k
      ensures rows[i].id != rows[k].id
    {
      if i < k {
        assert IdAt(rows, i) != IdAt(rows, k);
      } else {
        assert IdAt(rows, k) != IdAt(rows, i);
      }
    }
  }

  /** The rows `where: { available: true }` selects, in store order. */
  function Available(rows: seq<Product>): (r: seq<Product>)
    ensures |r| <= |rows|
    ensures forall p :: p in r <==> p in rows && p.available
  {
    if rows == [] then []
    else if rows[0].available then [rows[0]] + Available(rows[1..])
    else Available(rows[1..])
  }

  /** `count({ where: { available: true } })` counts every available row with its
      multiplicity and no other row. */
  lemma {:induction false} AvailableCount(rows: seq<Product>, p: Product)
    ensures multiset(Available(rows))[p] == if p.available then multiset(rows)[p] else 0
  {
    if rows != [] {
      AvailableCount(rows[1..], p);
      assert rows == [rows[0]] + rows[1..];
      assert multiset(rows) == multiset{rows[0]} + multiset(rows[1..]);
    }
  }

  /** The rows findMany returns for `skip` and `take`: at most `take` rows,
      starting at position `skip`. */
  function Window(s: seq<Product>, skip: nat, take: nat): (r: seq<Product>)
    ensures |r| == if skip >= |s| then 0 else Min(take, |s| - skip)
    ensures forall i | 0 <= i < |r| :: r[i] == s[skip + i]
  {
    if skip >= |s| then [] else s[skip..skip + Min(take, |s| - skip)]
  }

  /** The row `p` becomes under the store's update with `data`: the fields
      present in `data` are overwritten, the id never is. */
  function Apply(p: Product, data: ProductData): (r: Product)
    ensures r.id == p.id
    ensures data.name.Some? ==> r.details.name == data.name.value
    ensures data.price.Some? ==> r.details.price == data.price.value
    ensures data.available.Some? ==> r.available == data.available.value
    ensures data.name.None? ==> r.details.name == p.details.name
    ensures data.price.None? ==> r.details.price == p.details.price
    ensures data.available.None? ==> r.available == p.available
    ensures data == ProductData(None, None, None) ==> r == p
  {
    Product(
      p.id,
      Details(
        if data.name.Some? then data.name.value else p.details.name,
        if data.price.Some? then data.price.value else p.details.price),
      if data.available.Some? then data.available.value else p.available)
  }

  /** The table after `update({ where: { id }, data })`: every row with that id
      is rewritten by `data`, every other row is left as it was, no row moves. */
  function UpdateWhere(rows: seq<Product>, id: int, data: ProductData): (r: seq<Product>)
    ensures |r| == |rows|
    ensures forall i | 0 <= i < |rows| :: r[i] == if rows[i].id == id then Apply(rows[i], data) else rows[i]
  {
    if rows == [] then []
    else [if rows[0].id == id then Apply(rows[0], data) else rows[0]] + UpdateWhere(rows[1..], id, data)
  }

  /** `const { id: __, ...data } = updateProductDto`: the payload without its id. */
  function StripId(dto: UpdateProductDto): (r: ProductData)
    ensures r.available.None?
    ensures r.name == dto.name && r.price == dto.price
    ensures forall p :: Apply(p, r).id == p.id && Apply(p, r).available == p.available
  {
    ProductData(dto.name, dto.price, None)
  }

  /** The data remove passes to the store: `{ available: false }`. */
  function SoftDelete(): (r: ProductData)
    ensures forall p :: Apply(p, r) == p.(available := false)
  {
    ProductData(None, None, Some(false))
  }

  // ---------------------------------------------------------------------------
  // findOne

  /** A row findOne can see for this id. */
  predicate Visible(p: Product, id: int)
  {
    p.id == id && p.available
  }

  /** An update whose data leaves `available` alone never changes under which
      id a row is visible. */
  lemma UpdateKeepsRowVisible(p: Product, data: ProductData, id: int)
    requires data.available.None?
    ensures Visible(Apply(p, data), id) <==> Visible(p, id)
  {
  }

  /** A soft-deleted row is visible under no id. */
  lemma SoftDeletedRowIsInvisible(p: Product, id: int)
    ensures !Visible(Apply(p, SoftDelete()), id)
  {
  }

  /** findOne(id): the first row with this id that is available, or the
      not-found error. */
  function FindOne(rows: seq<Product>, id: int): (r: Result<Product>)
    ensures r.Success? <==> exists i | 0 <= i < |rows| :: Visible(rows[i], id)
    ensures r.Success? ==> r.value in rows && Visible(r.value, id)
    ensures r.Failure? ==> r.error == NotFound(id)
  {
    if rows == [] then Failure(NotFound(id))
    else if Visible(rows[0], id) then Success(rows[0])
    else FindOne(rows[1..], id)
  }

  /** With unique ids, findOne finds the one row that carries the id, if it is
      available. */
  lemma FindOneUnique(rows: seq<Product>, id: int, k: nat)
    requires UniqueIds(rows)
    requires k < |rows| && rows[k].id == id
    ensures FindOne(rows, id) == if rows[k].available then Success(rows[k]) else Failure(NotFound(id))
  {
    var r := FindOne(rows, id);
    if r.Success? {
      OnlyRowWithId(rows, k);
    }
  }

  // ---------------------------------------------------------------------------
  // findAll

  /** Both page and limit, when given, are at least 1. */
  predicate ValidPagination(q: PaginationDto)
  {
    (q.page.Some? ==> q.page.value >= 1) && (q.limit.Some? ==> q.limit.value >= 1)
  }

  /** `paginationDto.page ?? 1` */
  function PageOf(q: PaginationDto): (r: int)
    ensures q.page.None? ==> r == 1
    ensures q.page.Some? ==> r == q.page.value
    ensures ValidPagination(q) ==> r >= 1
  {
    if q.page.Some? then q.page.value else 1
  }

  /** `paginationDto.limit ?? 10` */
  function LimitOf(q: PaginationDto): (r: int)
    ensures q.limit.None? ==> r == 10
    ensures q.limit.Some? ==> r == q.limit.value
    ensures ValidPagination(q) ==> r >= 1
  {
    if q.limit.Some? then q.limit.value else 10
  }

  /** `(page - 1) * limit`: the number of available rows before the page. */
  function Offset(q: PaginationDto): (r: nat)
    requires ValidPagination(q)
    ensures PageOf(q) == 1 ==> r == 0
    ensures PageOf(q) > 1 ==> r >= LimitOf(q)
  {
    if PageOf(q) > 1 then
      MulMonotone(1, PageOf(q) - 1, LimitOf(q));
      (PageOf(q) - 1) * LimitOf(q)
    else
      0
  }

  /** `Math.ceil(total / limit)` on integers. */
  function CeilDiv(total: nat, limit: int): (r: nat)
    requires limit >= 1
    ensures r * limit >= total
    ensures r == 0 || (r - 1) * limit < total
  {
    var r := (total + limit - 1) / limit;
    assert r * limit + (total + limit - 1) % limit == total + limit - 1;
    r
  }

  /** findAll(paginationDto): the page of available rows at offset
      (page - 1) * limit, with the count of available rows and the last page. */
  function FindAll(rows: seq<Product>, q: PaginationDto): (r: ProductPage)
    requires ValidPagination(q)
    ensures r.meta.page == PageOf(q)
    ensures r.meta.total == |Available(rows)|
    ensures r.meta.lastPage == CeilDiv(r.meta.total, LimitOf(q))
    ensures |r.data| <= LimitOf(q)
    ensures |r.data| == if Offset(q) >= r.meta.total then 0 else Min(LimitOf(q), r.meta.total - Offset(q))
    ensures forall i | 0 <= i < |r.data| ::
              Offset(q) + i < r.meta.total && r.data[i] == Available(rows)[Offset(q) + i]
  {
    var limit := LimitOf(q);
    var total := |Available(rows)|;
    ProductPage(Window(Available(rows), Offset(q), limit), Meta(total, PageOf(q), CeilDiv(total, limit)))
  }

  lemma MulMonotone(a: int, b: int, limit: int)
    requires a <= b && limit >= 1
    ensures a * limit <= b * limit
  {
    assert b * limit - a * limit == (b - a) * limit;
  }

  lemma PastLastPage(total: nat, limit: int, page: int, last: nat)
    requires limit >= 1 && last * limit >= total && page > last
    ensures (page - 1) * limit >= total
  {
    MulMonotone(last, page - 1, limit);
  }

  /** The page (counted from 0) and the slot of position j, for a positive
      limit. The lemma hands them back as plain numbers tied to j only by
      `page * limit + slot == j`, so the proofs about pages that use it never
      see `j / limit` or `j % limit`, which the solver handles badly inside
      them. */
  lemma PageAndSlot(j: nat, limit: int) returns (page: nat, slot: nat)
    requires limit >= 1
    ensures page == j / limit && slot == j % limit
    ensures page * limit + slot == j && slot < limit
  {
    page, slot := j / limit, j % limit;
  }

  /** Position j of the available rows is `j % limit` places into page
      `j / limit + 1`. */
  lemma OffsetOfRow(j: nat, limit: int)
    requires limit >= 1
    ensures Offset(PaginationDto(Some(j / limit + 1), Some(limit))) + j % limit == j
    ensures j % limit < limit
  {
    var page, slot := PageAndSlot(j, limit);
  }

  lemma PageOfRow(total: nat, limit: int, last: nat, page: nat, j: nat)
    requires limit >= 1 && last * limit >= total && j < total && page * limit <= j
    ensures page + 1 <= last
  {
    if last < page + 1 {
      MulMonotone(last, page, limit);
    }
  }

  /** Without page and limit, findAll lists the first ten available rows. */
  lemma {:induction false} FindAllDefaults(rows: seq<Product>)
    ensures var r := FindAll(rows, PaginationDto(None, None));
            && r.meta == Meta(|Available(rows)|, 1, CeilDiv(|Available(rows)|, 10))
            && r.data == Available(rows)[..Min(10, |Available(rows)|)]
  {
    var r := FindAll(rows, PaginationDto(None, None));
    assert Offset(PaginationDto(None, None)) == 0;
    assert r.data == Available(rows)[..Min(10, |Available(rows)|)];
  }

  /** A page holds rows of the table, and only available ones. */
  lemma PageHoldsOnlyAvailableRows(rows: seq<Product>, q: PaginationDto)
    requires ValidPagination(q)
    ensures forall p | p in FindAll(rows, q).data :: p in rows && p.available
  {
    var r := FindAll(rows, q);
    forall p | p in r.data
      ensures p in rows && p.available
    {
      var i :| 0 <= i < |r.data| && r.data[i] == p;
      assert p in Available(rows);
    }
  }

  /** A page past the last one has no rows. */
  lemma PageBeyondLastIsEmpty(rows: seq<Product>, q: PaginationDto)
    requires ValidPagination(q)
    requires PageOf(q) > FindAll(rows, q).meta.lastPage
    ensures FindAll(rows, q).data == []
  {
    var r := FindAll(rows, q);
    PastLastPage(r.meta.total, LimitOf(q), PageOf(q), r.meta.lastPage);
  }

  /** When some row is available, the last page holds between 1 and limit rows. */
  lemma LastPageIsFilled(rows: seq<Product>, q: PaginationDto)
    requires ValidPagination(q)
    requires |Available(rows)| > 0
    requires PageOf(q) == FindAll(rows, q).meta.lastPage
    ensures 1 <= |FindAll(rows, q).data| <= LimitOf(q)
  {
  }

  /** Position `slot` of a page holds the available row `slot` places after the
      page's offset, whenever that row exists. */
  lemma SlotOnPage(rows: seq<Product>, q: PaginationDto, slot: nat)
    requires ValidPagination(q) && slot < LimitOf(q) && Offset(q) + slot < |Available(rows)|
    ensures slot < |FindAll(rows, q).data|
    ensures FindAll(rows, q).data[slot] == Available(rows)[Offset(q) + slot]
  {
  }

  /** The page of position j of the available rows is never past the last page. */
  lemma RowPageIsNotPastLast(rows: seq<Product>, limit: int, j: nat)
    requires limit >= 1 && j < |Available(rows)|
    ensures j / limit + 1 <= FindAll(rows, PaginationDto(Some(j / limit + 1), Some(limit))).meta.lastPage
  {
    var page, slot := PageAndSlot(j, limit);
    var r := FindAll(rows, PaginationDto(Some(page + 1), Some(limit)));
    PageOfRow(r.meta.total, limit, r.meta.lastPage, page, j);
  }

  /** Every available row is listed: the row at position j of the available rows
      is on page j / limit + 1, at position j % limit. */
  lemma EveryAvailableRowIsListed(rows: seq<Product>, limit: int, j: nat)
    requires limit >= 1 && j < |Available(rows)|
    ensures var r := FindAll(rows, PaginationDto(Some(j / limit + 1), Some(limit)));
            j % limit < |r.data| && r.data[j % limit] == Available(rows)[j]
  {
    OffsetOfRow(j, limit);
    SlotOnPage(rows, PaginationDto(Some(j / limit + 1), Some(limit)), j % limit);
  }

}
