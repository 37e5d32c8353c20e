/** ProductsService: the product table it works on and its three operations that
    change the table (create, update, remove). The two that only read it,
    findOne and findAll, are the functions Products.FindOne and Products.FindAll
    of the table. */
module Service {
  import opened Products
  import Lifecycle

  class ProductsService {
    /** The product table, in the store's natural order. */
    var products: seq<Product>
    /** The id the store gives the next created row (an autoincrement key). */
    var nextId: int

    /** Ids are unique and every id is below the next one the store hands out. */
    ghost predicate Valid()
      reads this
    {
      && nextId >= 1
      && UniqueIds(products)
      && forall i | 0 <= i < |products| :: products[i].id < nextId
    }

    /** An empty table. */
    constructor ()
      ensures Valid() && products == [] && nextId == 1
    {
      products := [];
      nextId := 1;
    }

    /** create(createProductDto): the store inserts one available row with the
        given fields under a fresh id and returns it. */
    method Create(dto: Details) returns (product: Product)
      requires Valid()
      modifies this
      ensures Valid()
      ensures product.details == dto && product.available
      ensures forall i | 0 <= i < |old(products)| :: old(products)[i].id != product.id
      ensures products == old(products) + [product]
      ensures FindOne(products, product.id) == Success(product)
    {
      product := Product(nextId, dto, true);
      products := products + [product];
      nextId := nextId + 1;
      Lifecycle.CreatedRowIsFound(old(products), product);
      Lifecycle.AppendKeepsIdsUnique(old(products), product);
    }

    /** update(id, updateProductDto): the payload loses its id, findOne(id)
        guards, then the store overwrites the given fields of the row with the
        path id and returns it. */
    method Update(id: int, dto: UpdateProductDto) returns (r: Result<Product>)
      requires Valid()
      modifies this
      ensures Valid() && nextId == old(nextId)
      ensures FindOne(old(products), id).Failure? ==> r == Failure(NotFound(id)) && products == old(products)
      ensures FindOne(old(products), id).Success? ==>
                && products == UpdateWhere(old(products), id, StripId(dto))
                && r == Success(Apply(FindOne(old(products), id).value, StripId(dto)))
                && r.value.id == id
                && (dto.name.Some? ==> r.value.details.name == dto.name.value)
                && (dto.price.Some? ==> r.value.details.price == dto.price.value)
                && (dto.name.None? ==> r.value.details.name == FindOne(old(products), id).value.details.name)
                && (dto.price.None? ==> r.value.details.price == FindOne(old(products), id).value.details.price)
                && FindOne(products, id) == r
      ensures |products| == |old(products)|
    {
      var data := StripId(dto);
      var found := FindOne(products, id);
      if found.Failure? {
        return Failure(found.error);
      }
      products := UpdateWhere(products, id, data);
      r := Success(Apply(found.value, data));
      Lifecycle.UpdateKeepsTable(old(products), id, data, nextId);
      Lifecycle.UpdatedRowIsFound(old(products), id, dto);
    }

    /** remove(id): findOne(id) guards, then the store sets `available` to false
        on the row with that id and returns it; no row leaves the table. */
    method Remove(id: int) returns (r: Result<Product>)
      requires Valid()
      modifies this
      ensures Valid() && nextId == old(nextId)
      ensures FindOne(old(products), id).Failure? ==> r == Failure(NotFound(id)) && products == old(products)
      ensures FindOne(old(products), id).Success? ==>
                && products == UpdateWhere(old(products), id, SoftDelete())
                && r == Success(FindOne(old(products), id).value.(available := false))
                && r.value in products
                && FindOne(products, id) == Failure(NotFound(id))
      ensures |products| == |old(products)|
    {
      var found := FindOne(products, id);
      if found.Failure? {
        return Failure(found.error);
      }
      products := UpdateWhere(products, id, SoftDelete());
      r := Success(Apply(found.value, SoftDelete()));
      Lifecycle.SoftDeletedRowStays(old(products), id);
      Lifecycle.SoftDeleteHidesId(old(products), id);
      Lifecycle.UpdateKeepsTable(old(products), id, SoftDelete(), nextId);
    }
  }

  /** remove is not safely repeatable: when the first call succeeds the second
      fails with the not-found error, and when the first fails so does the second. */
  method RemoveTwice(service: ProductsService, id: int) returns (first: Result<Product>, second: Result<Product>)
    requires service.Valid()
    modifies service
    ensures first.Success? ==> second == Failure(NotFound(id))
    ensures first.Failure? ==> second == first
  {
    first := service.Remove(id);
    second := service.Remove(id);
  }

  /** The catalogue's life from an empty table: findAll on the empty table, then
      create "Widget" at price 10, find it, remove it, and afterwards findOne,
      a second remove and findAll no longer see it. */
  method WidgetLifecycle()
    returns (empty: ProductPage, created: Product, found: Result<Product>, removed: Result<Product>,
             lookup: Result<Product>, again: Result<Product>, listing: ProductPage)
    ensures empty == ProductPage([], Meta(0, 1, 0))
    ensures created.details == Details("Widget", 10.0) && created.available
    ensures found == Success(created)
    ensures removed == Success(created.(available := false))
    ensures lookup == Failure(NotFound(created.id)) && again == Failure(NotFound(created.id))
    ensures listing == ProductPage([], Meta(0, 1, 0))
  {
    var service := new ProductsService();
    empty := FindAll(service.products, PaginationDto(Some(1), Some(10)));
    created := service.Create(Details("Widget", 10.0));
    found := FindOne(service.products, created.id);
    removed := service.Remove(created.id);
    lookup := FindOne(service.products, created.id);
    again := service.Remove(created.id);
    listing := FindAll(service.products, PaginationDto(None, None));
  }
}
