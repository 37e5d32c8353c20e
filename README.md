# Product catalogue service, modelled in Dafny

This project models `ProductsService` of a small product-catalogue microservice.
The service keeps one table of products. It offers five operations:

- `create` inserts a row.
- `findAll` lists the available rows one page at a time, with a meta block.
- `findOne` looks up one available row by id, or fails with a "not found" RPC error.
- `update` strips any `id` from its payload, guards with `findOne`, then overwrites the given fields.
- `remove` guards with `findOne`, then soft-deletes: it sets `available` to false and keeps the row.

A row exists, for every operation, only while its `available` flag is true.

Layout:

- `products.dfy`, module `Products`.
  - The data: `Product`, the DTOs, the RPC error and the page result.
  - The store primitives as functions over the table (a `seq<Product>` in the store's natural order): `Available`, `Window`, `UpdateWhere`.
  - The two read operations, `FindOne` and `FindAll`, with the not-found error and its message.
  - The pagination lemmas.
- `lifecycle.dfy`, module `Lifecycle`: lemmas about what create, update and remove do to what `FindOne` and `FindAll` report.
- `service.dfy`, module `Service`.
  - The class `ProductsService`. It owns the table (`products`) and the store's id counter (`nextId`).
  - The methods `Create`, `Update` and `Remove` change the table in place. Each is specified by the store functions.
  - `RemoveTwice` and `WidgetLifecycle` are clients that show what callers can conclude.

The read operations are functions of the table, so they cannot change it.

## Model

| member | source | states |
|---|---|---|
| `Products.DecimalString` | src/products/products.service.ts:57 | `${id}` is an optional '-' (present exactly when the id is negative) followed by decimal digits with no leading zero, and it reads back as the id. |
| `Products.DecimalStringUnique` | src/products/products.service.ts:57 | Any string of that shape that reads back as n is exactly the rendering of n, so the shape and the value together fix the text. |
| `Products.NotFound` | src/products/products.service.ts:56-59 | The error has status 400 (BAD_REQUEST). Its message starts with "Product with id " and ends with " not found". The text between them has the shape of a rendered integer and reads back as the requested id, so it is exactly `${id}`. |
| `Products.NotFoundNamesId` | src/products/products.service.ts:56-59 | Two not-found errors are equal if and only if they name the same id. |
| `Products.Available` | src/products/products.service.ts:35-37 | The rows selected by `available: true` are exactly the available rows of the table, and there are no more of them than rows. |
| `Products.AvailableCount` | src/products/products.service.ts:29 | The count `total` counts every available row, with its multiplicity, and no unavailable row. |
| `Products.PageOf` | src/products/products.service.ts:26 | `page ?? 1`: the given page, or 1 when absent; at least 1 for a valid query. |
| `Products.LimitOf` | src/products/products.service.ts:27 | `limit ?? 10`: the given limit, or 10 when absent; at least 1 for a valid query. |
| `Products.Offset` | src/products/products.service.ts:38 | `skip` is 0 on page 1, and on any later page at least one full page of rows is skipped. |
| `Products.Window` | src/products/products.service.ts:38-39 | `skip`/`take` give at most `take` rows. Row i of the result is row `skip + i` of the input. The result is empty when `skip` is past the end. |
| `Products.CeilDiv` | src/products/products.service.ts:31 | `lastPage` is the ceiling of `total / limit`: the least r with `r * limit >= total`. |
| `Products.FindAll` | src/products/products.service.ts:24-48 | `meta.page` is the requested page, or 1 when absent. `meta.total` is the number of available rows. `meta.lastPage` is `ceil(total / limit)`. `data` has at most `limit` rows. Its size is exactly what is left after the offset `(page - 1) * limit`, capped at `limit`. Row i is available row `(page - 1) * limit + i`, in store order. |
| `Products.FindAllDefaults` | src/products/products.service.ts:26-27 | With no page and no limit, findAll lists the first ten available rows, with page 1 and `lastPage = ceil(total / 10)`. |
| `Products.PageHoldsOnlyAvailableRows` | src/products/products.service.ts:34-40 | Every row on a page is a row of the table, and an available one. |
| `Products.PageBeyondLastIsEmpty` | src/products/products.service.ts:31-40 | A page past `lastPage` has empty `data`. |
| `Products.LastPageIsFilled` | src/products/products.service.ts:31-40 | When some row is available, the page `lastPage` holds between 1 and `limit` rows. |
| `Products.SlotOnPage` | src/products/products.service.ts:34-40 | When the available row `slot` places after the offset exists, position `slot` of the page holds it. |
| `Products.RowPageIsNotPastLast` | src/products/products.service.ts:29-31 | The page of every available row, `j / limit + 1`, is at most `lastPage`. |
| `Products.EveryAvailableRowIsListed` | src/products/products.service.ts:34-40 | Available row j appears on page `j / limit + 1`, at position `j % limit`. |
| `Products.FindOne` | src/products/products.service.ts:50-62 | Succeeds if and only if some row has the id and is available. The row it returns is in the table, has the id and is available. Otherwise it fails with the not-found error for that id. |
| `Products.FindOneUnique` | src/products/products.service.ts:51-54 | With unique ids, findOne returns the row carrying the id when that row is available, and fails when it is soft-deleted. |
| `Products.Apply` | src/products/products.service.ts:69-72 | The store's update of one row never changes its id. Each field given in the data (name, price, `available`) is written to the row, each field absent from it keeps the row's value, and empty data changes nothing. The same function gives remove's update at lines 87-90. |
| `Products.StripId` | src/products/products.service.ts:66 | The payload minus its id keeps the name and price, carries no `available`, and applied to any row keeps that row's id and flag. |
| `Products.SoftDelete` | src/products/products.service.ts:89 | `{ available: false }` applied to any row clears the flag and changes nothing else. |
| `Products.UpdateKeepsRowVisible` | src/products/products.service.ts:53 | Data without `available` never changes whether a row is visible to findOne under an id. |
| `Products.SoftDeletedRowIsInvisible` | src/products/products.service.ts:53 | A row after `{ available: false }` is visible to findOne under no id. |
| `Products.UpdateWhere` | src/products/products.service.ts:69-72 | The store's update by id keeps the number of rows and the model's row order. It rewrites only the rows with that id and leaves every other row as it was. |
| `Lifecycle.AvailableAppend` | src/products/products.service.ts:17-19 | An inserted available row becomes the last available row. |
| `Lifecycle.FindOneAppend` | src/products/products.service.ts:17-19 | After an insert, findOne returns what it returned before. Otherwise it returns the new row when that row is visible under the id. |
| `Lifecycle.AppendKeepsIdsUnique` | src/products/products.service.ts:17-19 | Inserting a row under an id no row has keeps ids unique. |
| `Lifecycle.CreatedRowIsFound` | src/products/products.service.ts:15-22 | A created row under a fresh id is what findOne returns for that id. findOne answers every other id as before. The available rows gain exactly that row, at the end. |
| `Lifecycle.UpdateKeepsVisibility` | src/products/products.service.ts:66-72 | An update whose data has no `available` leaves visibility alone: the available rows after it are the available rows before it, updated the same way. |
| `Lifecycle.UpdateLeavesOtherIds` | src/products/products.service.ts:69-72 | Updating one id changes nothing findOne reports for any other id. |
| `Lifecycle.UpdateKeepsIdsUnique` | src/products/products.service.ts:69-72 | The store's update keeps ids unique. |
| `Lifecycle.UpdateKeepsTable` | src/products/products.service.ts:69-72 | After the store's update, ids are still unique and below the store's next id, and the number of rows is unchanged. |
| `Lifecycle.UpdatedRowIsFound` | src/products/products.service.ts:64-73 | After a guarded update, findOne(id) returns the updated row. That row keeps the path id whatever id the payload carried. |
| `Lifecycle.SoftDeleteCount` | src/products/products.service.ts:87-90 | Soft-deleting an id removes one row from the available ones exactly when findOne found that id. |
| `Lifecycle.SoftDeleteHidesId` | src/products/products.service.ts:87-90 | After the store sets `available` to false on an id, findOne(id) fails with the not-found error. So after a successful remove(id), a second remove(id) fails. |
| `Lifecycle.SoftDeletedRowStays` | src/products/products.service.ts:87-90 | After remove(id) succeeds, the row findOne found is still in the table, with only `available` cleared. |
| `Lifecycle.SoftDeleteMembership` | src/products/products.service.ts:87-90 | After a soft delete of an id, a row is available exactly when it was available before and has another id. |
| `Lifecycle.RemovedRowIsHidden` | src/products/products.service.ts:75-94 | After remove(id) succeeds, the available rows are the earlier ones without that id, and there is exactly one fewer. |
| `Lifecycle.RemovedRowIsNotListed` | src/products/products.service.ts:87-90 | After remove(id) succeeds, no page of findAll lists that id, and `meta.total` drops by one. |
| `Service.ProductsService.Create` | src/products/products.service.ts:15-22 | create adds one available row with the given fields, under an id no earlier row has. It leaves earlier rows untouched, returns the stored row, and findOne finds it. |
| `Service.ProductsService.Update` | src/products/products.service.ts:64-73 | When findOne(id) fails, update fails with that error and the table is unchanged. Otherwise the table is the store's update by id with the payload minus its id. The result is the updated row: its id is the path id, it takes the payload's name and price where given and keeps the found row's where not, and findOne(id) returns it. |
| `Service.ProductsService.Remove` | src/products/products.service.ts:75-94 | When findOne(id) fails, remove fails with that error and the table is unchanged. Otherwise the table is the store's update by id with `{ available: false }`. The result is the found row with only `available` cleared, and it stays in the table. Afterwards findOne(id) fails. |
| `Service.RemoveTwice` | src/products/products.service.ts:79-90 | remove is not safely repeatable. After a successful remove(id), a second one fails with not-found. A failed one fails again in the same way. |
| `Service.WidgetLifecycle` | src/products/products.service.ts:15-94 | On an empty table, findAll gives `{data: [], meta: {total: 0, page: 1, lastPage: 0}}`. A created "Widget" is found, and remove returns it with `available` false. After that, findOne and a second remove fail with not-found, and findAll lists nothing. |

## Left out

- The database engine and the ORM are left out. The product table is an in-memory sequence in insertion order, which stands for the store's natural order. Ids come from a counter (`nextId`) that only grows, and a created row starts with `available = true`. The schema that sets these defaults is not part of this model, so they are assumptions about the store.
- Row order is an assumption about the store. `findMany` at line 34 has no `orderBy`, so the source promises no order. The model fixes one order and uses it for the count, for every page query and across updates. `Products.EveryAvailableRowIsListed`, `Products.SlotOnPage` and `Products.LastPageIsFilled` hold under that assumption; a store that orders rows differently between two page queries can skip or repeat rows.
- Store failures are left out: constraint violations, connectivity errors, and the store's own error when `update` finds no row. Only the not-found error of findOne is modelled. In the sequential model the store's update always finds the guarded row.
- The RPC transport, the `RpcException` class and dependency injection are left out. The exception is the `RpcError` datatype: a message and a status.
- `console.log(id)` in remove is output only and is not modelled.
- async/await and concurrency are left out. That includes the race between the guard read and the later write in update and remove. The model is sequential.
- `Products.FindAll` requires page and limit to be at least 1 when given. The source rejects neither a zero nor a negative limit. With `limit = 0` the page is empty (`take: 0`), and `Math.ceil(total / 0)` is Infinity when total > 0 and NaN when total = 0. With a negative limit the store reads the negative `take` as counting back from the end of the list, and `Math.ceil(total / limit)` is 0 or negative. A page below 1 with a positive limit gives a negative `skip`, which the store rejects. Fractional page or limit values are not modelled.
- `Products.DecimalString` renders ids as integers. A JavaScript number of magnitude 10^21 or more is written by `${id}` in exponent form ("1e+21"), and a fractional or NaN id in its own form; ids are taken to be integers of smaller magnitude.
- `Products.CeilDiv` is exact integer ceiling division. The source divides in floating point before `Math.ceil`. The two agree while the row count stays below 2^53.
- DTO validation is left out. `CreateProductDto` and `UpdateProductDto` are not part of this model. Their descriptive fields are a name and a price, kept opaque. The update payload has no `available` field, so an update can neither soft-delete nor restore a row.
- The commented-out hard delete in remove is not used by the source and is not modelled.
- `findOne` and `findAll` are functions of the table rather than methods of the class. Only reading is modelled, so they cannot change the table.
- The source names the count of available rows `totalPages` (line 29), but the value is a row count, and it is reported as `meta.total`.
