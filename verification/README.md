# Inventory and product services: a Dafny model

This project models the logic of two small CRUD services.

**Inventory service.** It keeps inventory items. Each item has a product code, a quantity, an optional warehouse location and a product id. The service supports:
- lookup by id or by product code, which raises NotFound when nothing matches;
- full-record update and delete;
- a signed delta adjustment of a quantity, which refuses to go below zero;
- a stock check that turns an unknown code into `false`;
- a strict low-stock query.

**Product service.** It keeps products: a name, a description, a price, a category and a stock quantity. It has CRUD, three read-only filters, and `isProductInStock`, which calls the inventory service's check-stock endpoint. Its exception handler maps raised errors to HTTP statuses.

Everything is a pure function over an immutable store. The store is `Table<R>`: a map from store-assigned id to record, plus the id the next insert receives. Ids come from an identity column and are never reused. A mutating call returns a `Txn`: the store afterwards, and the record it returned or the error it raised. A raised error always comes with the unchanged input store, which is how the transactional rollback is modelled. Records are split into an id and their columns (`Details`). Request bodies are separate datatypes whose fields may be null (`Option`). Bean validation is a predicate (`Valid`) together with the list of field violations it reports.

Modules follow the source:
- `InventoryModel`, `InventoryRepository`, `InventoryService` and `InventoryController` for the inventory service;
- `ProductModel`, `ProductRepository`, `ProductService` and `GlobalExceptionHandler` for the product service;
- `StockCheck` for the one call between the two services;
- `InventoryProperties` and `ProductProperties` for lemmas that relate several calls;
- helpers: `Wrappers`, `JavaInt`, `Text`, `Errors` and `Table`.

Points where the model makes Java or framework behaviour explicit:
- `updateInventoryQuantity` computes `quantity + change` with Java's 32-bit `int` addition, which wraps around (`JavaInt.Add`). When the store holds no negative quantity, the call succeeds exactly when the mathematical sum lies in `0 ..= 2^31-1`, and then it stores that sum (`AdjustSucceedsIff`). A sum above the `int` range wraps negative, so the call is refused with "Cannot reduce quantity below zero" even though the change is positive (`AdjustOverflowRefused`). The store invariant survives either way.
- `@NotBlank` is the validator's trim-based test: a string is blank when every character is at or below U+0020.
- A derived query whose argument is null (`findByCategory`, `findByWarehouseLocation`) compares with `IS NULL`. That is why those arguments are `Option`s in the repository.
- In `isProductInStock`, a body that maps `inStock` to JSON null unboxes to a `NullPointerException`. That exception is thrown inside the `try`, so the result is `false`.
- Query results are sequences in ascending id order. The source promises no order, so the contracts state membership only, and that each row appears once.

## Model

| member | source | states |
|---|---|---|
| JavaInt.Add | inventory-service/src/main/java/com/example/inventory/service/InventoryService.java:103 | Java `int` addition: the exact sum when it fits, otherwise the sum shifted by 2^32 |
| Text.NatToString | inventory-service/src/main/java/com/example/inventory/service/InventoryService.java:42 | an id concatenated into a message renders as non-empty decimal digits without a leading zero |
| Text.NatToStringRoundTrip | src/main/java/com/example/joblearning/service/ProductService.java:48 | reading the rendered id back gives the id, so distinct ids give distinct NotFound messages |
| Text.Lower | src/main/java/com/example/joblearning/repository/ProductRepository.java:40 | `LOWER` keeps the length, maps each character to its lower-case form, and leaves no upper-case ASCII letter |
| Text.IsBlank | inventory-service/src/main/java/com/example/inventory/model/InventoryItem.java:33 | `@NotBlank`'s test: a string is blank when every character is at or below U+0020 |
| Text.BlankIffTrimmedEmpty | src/main/java/com/example/joblearning/model/Product.java:34 | a string is blank exactly when `String.trim` leaves nothing of it |
| Text.LowerIdempotent | src/main/java/com/example/joblearning/repository/ProductRepository.java:40 | applying `LOWER` twice is the same as applying it once |
| Text.ContainsIffOccurs | src/main/java/com/example/joblearning/repository/ProductRepository.java:40 | `LIKE '%q%'` holds exactly when `q` occurs at some position of the name |
| Text.ContainsLower | src/main/java/com/example/joblearning/repository/ProductRepository.java:40-41 | an occurrence of the query in the name survives lower-casing both sides |
| Table.Find | inventory-service/src/main/java/com/example/inventory/service/InventoryService.java:41 | `findById` finds a row exactly when the id is stored, and then it is the stored row |
| Table.Select | inventory-service/src/main/java/com/example/inventory/repository/InventoryRepository.java:17-38 | a derived query returns every stored row satisfying its condition, and nothing else; when rows are told apart by identity, each is listed once |
| InventoryModel.Valid | inventory-service/src/main/java/com/example/inventory/model/InventoryItem.java:33-43 | the bean constraints: non-blank code, non-null quantity of at least 0, non-null product id; the location is unconstrained |
| InventoryModel.Violations | inventory-service/src/main/java/com/example/inventory/model/InventoryItem.java:33-43 | no violation exactly when the body is valid; a blank or missing code, a missing quantity, a negative quantity and a missing product id each give their own message; no other error is reported; at most one error per field |
| InventoryModel.Accept | inventory-service/src/main/java/com/example/inventory/model/InventoryItem.java:29-43 | a validated body becomes stored columns that serialise back to the same body and satisfy the constraints |
| InventoryModel.SoundMeans | inventory-service/src/main/java/com/example/inventory/model/InventoryItem.java:33-38 | stored columns pass validation exactly when the code is non-blank and the quantity is at least 0 |
| InventoryModel.AcceptToBody | inventory-service/src/main/java/com/example/inventory/model/InventoryItem.java:29-43 | accepting a record's own body gives back the same columns |
| InventoryRepository.WellFormedInjective | inventory-service/src/main/java/com/example/inventory/model/InventoryItem.java:29-31 | records carry their own key as id, so no two keys hold the same record |
| InventoryRepository.FindAll | inventory-service/src/main/java/com/example/inventory/repository/InventoryRepository.java:17 | every stored record, and only those, each listed once |
| InventoryRepository.FindByProductCode | inventory-service/src/main/java/com/example/inventory/repository/InventoryRepository.java:22 | empty exactly when no record has the code; otherwise a stored record with that code, which is the only one |
| InventoryRepository.FindByProductId | inventory-service/src/main/java/com/example/inventory/repository/InventoryRepository.java:27 | exactly the records whose product id equals the argument, each listed once |
| InventoryRepository.FindByWarehouseLocation | inventory-service/src/main/java/com/example/inventory/repository/InventoryRepository.java:32 | exactly the records whose location equals the argument, where null selects the records without a location, each listed once |
| InventoryRepository.FindByQuantityLessThan | inventory-service/src/main/java/com/example/inventory/repository/InventoryRepository.java:37 | exactly the records whose quantity is strictly below the argument, each listed once |
| InventoryService.GetAllInventoryItems | inventory-service/src/main/java/com/example/inventory/service/InventoryService.java:32-34 | every stored record, and only those, each listed once |
| InventoryService.GetInventoryItemById | inventory-service/src/main/java/com/example/inventory/service/InventoryService.java:40-43 | succeeds exactly when the id is stored, returning that record; otherwise NotFound with the id in the message |
| InventoryService.GetInventoryItemByProductCode | inventory-service/src/main/java/com/example/inventory/service/InventoryService.java:49-52 | succeeds exactly when some record has the code, returning a stored record with that code; otherwise NotFound naming the code |
| InventoryService.GetInventoryItemsByProductId | inventory-service/src/main/java/com/example/inventory/service/InventoryService.java:57-59 | exactly the records referring to the product, each listed once |
| InventoryService.CreateInventoryItem | inventory-service/src/main/java/com/example/inventory/service/InventoryService.java:65-67 | the columns are stored under an id not in use before, the returned record carries it, and no other record changes |
| InventoryService.UpdateInventoryItem | inventory-service/src/main/java/com/example/inventory/service/InventoryService.java:74-83 | an absent id raises NotFound and writes nothing; otherwise the record keeps its id, all four columns come from the payload, and only that record changes |
| InventoryService.DeleteInventoryItem | inventory-service/src/main/java/com/example/inventory/service/InventoryService.java:90-93 | an absent id raises NotFound and writes nothing; otherwise exactly that id is removed and the other records are untouched |
| InventoryService.UpdateInventoryQuantity | inventory-service/src/main/java/com/example/inventory/service/InventoryService.java:100-110 | unknown code: NotFound and no write; a 32-bit sum below zero raises IllegalArgument and writes nothing; otherwise only that record's quantity becomes the sum |
| InventoryService.IsInStock | inventory-service/src/main/java/com/example/inventory/service/InventoryService.java:115-122 | false for an unknown code whatever is required; otherwise exactly whether the quantity is at least the required amount |
| InventoryService.GetLowStockItems | inventory-service/src/main/java/com/example/inventory/service/InventoryService.java:127-129 | exactly the records strictly below the threshold, each listed once |
| InventoryProperties.AdjustPreservesInvariant | inventory-service/src/main/java/com/example/inventory/service/InventoryService.java:103-109 | for any delta, the adjustment keeps every stored quantity non-negative, every code non-blank and codes unique |
| InventoryProperties.AdjustSucceedsIff | inventory-service/src/main/java/com/example/inventory/service/InventoryService.java:101-109 | with no negative quantity stored, the adjustment succeeds iff `0 <= old + change <= 2^31-1`; it then stores `old + change`, and on failure the store is unchanged with the below-zero error |
| InventoryProperties.AdjustOverflowRefused | inventory-service/src/main/java/com/example/inventory/service/InventoryService.java:103-105 | adding 1 to a quantity of 2^31-1 overflows and is refused with the below-zero message, leaving the store unchanged |
| InventoryProperties.UpdatePreservesInvariant | inventory-service/src/main/java/com/example/inventory/service/InventoryService.java:74-83 | updating with validated columns keeps the store invariant |
| InventoryProperties.CreatePreservesInvariant | inventory-service/src/main/java/com/example/inventory/service/InventoryService.java:65-67 | creating with validated columns keeps the store invariant |
| InventoryProperties.DeletePreservesInvariant | inventory-service/src/main/java/com/example/inventory/service/InventoryService.java:90-93 | deleting keeps the store invariant and the uniqueness of codes |
| InventoryProperties.CreateThenGet | inventory-service/src/main/java/com/example/inventory/service/InventoryService.java:40-67 | fetching the id a create returned gives the created record |
| InventoryProperties.DeleteThenGet | inventory-service/src/main/java/com/example/inventory/service/InventoryService.java:40-93 | after a delete, fetching that id raises NotFound |
| InventoryProperties.LowStockAtZeroIsEmpty | inventory-service/src/main/java/com/example/inventory/repository/InventoryRepository.java:37 | with no negative quantity stored, the low-stock query for threshold 0 returns nothing |
| InventoryProperties.LowStockIsStrict | inventory-service/src/main/java/com/example/inventory/repository/InventoryRepository.java:37 | a record whose quantity equals the threshold is not reported as low stock |
| InventoryProperties.InStockAtBoundary | inventory-service/src/main/java/com/example/inventory/service/InventoryService.java:118 | a required amount equal to the stored quantity is in stock |
| InventoryProperties.Scenario | inventory-service/src/main/java/com/example/inventory/service/InventoryService.java:100-122 | with PROD-001 at 10: taking 15 is refused and leaves 10; taking 10 leaves 0; then 1 unit is not in stock |
| InventoryController.CreateItem | inventory-service/src/main/java/com/example/inventory/controller/InventoryController.java:77-81 | an invalid body raises the validation error before the service runs and the store is unchanged; a valid one is stored under a fresh id, with columns that serialise back to the body, and answered with 201 and the record |
| InventoryController.UpdateItem | inventory-service/src/main/java/com/example/inventory/controller/InventoryController.java:87-91 | validation first, then NotFound for an absent id; otherwise 200 with the record under the same id holding the body's columns |
| InventoryController.DeleteItem | inventory-service/src/main/java/com/example/inventory/controller/InventoryController.java:97-101 | 204 with no body once exactly that id is removed and the other records are untouched, or NotFound with the store unchanged |
| InventoryController.PatchItemQuantity | inventory-service/src/main/java/com/example/inventory/controller/InventoryController.java:107-119 | a missing or null `quantityChange` answers 400 and leaves the store unchanged; otherwise the value goes unchanged to the service, and its record is answered with 200 or its error propagates |
| InventoryController.CheckItemStock | inventory-service/src/main/java/com/example/inventory/controller/InventoryController.java:125-132 | always 200 with a map whose only key is `inStock`, equal to the stock check for the quantity, which defaults to 1 |
| InventoryController.LowStockItems | inventory-service/src/main/java/com/example/inventory/controller/InventoryController.java:138-142 | 200 with exactly the records below the threshold, which defaults to 5, each listed once |
| InventoryController.Handle | inventory-service/src/main/java/com/example/inventory/controller/InventoryController.java:24-143 | a raised error leaves the store unchanged; read-only endpoints never change it; a body failing validation is rejected before the service runs; statuses are among 200, 201, 204 and 400 |
| InventoryController.HandlePreservesInvariant | inventory-service/src/main/java/com/example/inventory/controller/InventoryController.java:77-119 | no request can make a stored quantity negative or a code blank |
| ProductModel.Valid | src/main/java/com/example/joblearning/model/Product.java:34-41 | the bean constraints: non-blank name, non-null positive price; the other fields are unconstrained |
| ProductModel.Violations | src/main/java/com/example/joblearning/model/Product.java:34-41 | no violation exactly when the name is non-blank and the price is present and positive; each failing field gives its own message and no other error is reported; at most one error per field |
| ProductModel.Accept | src/main/java/com/example/joblearning/model/Product.java:30-45 | a validated body becomes stored columns that serialise back to the same body; description, category and stock quantity pass through unconstrained |
| ProductRepository.WellFormedInjective | src/main/java/com/example/joblearning/model/Product.java:30-32 | products carry their own key as id, so no two keys hold the same product |
| ProductRepository.FindAll | src/main/java/com/example/joblearning/repository/ProductRepository.java:19 | every stored product, and only those, each listed once |
| ProductRepository.FindByCategory | src/main/java/com/example/joblearning/repository/ProductRepository.java:25 | exactly the products whose category equals the argument, each listed once |
| ProductRepository.FindByPriceLessThan | src/main/java/com/example/joblearning/repository/ProductRepository.java:30 | exactly the products strictly cheaper than the argument, each listed once |
| ProductRepository.FindByStockQuantityGreaterThan | src/main/java/com/example/joblearning/repository/ProductRepository.java:35 | exactly the products with a stock quantity strictly above the argument; a null quantity never qualifies, each listed once |
| ProductRepository.SearchByNameContainingIgnoreCase | src/main/java/com/example/joblearning/repository/ProductRepository.java:40-41 | exactly the products whose lower-cased name contains the lower-cased query, each listed once |
| ProductRepository.SearchIgnoresCase | src/main/java/com/example/joblearning/repository/ProductRepository.java:40-41 | a query and its lower-cased form find the same products |
| ProductRepository.SearchFindsVerbatim | src/main/java/com/example/joblearning/repository/ProductRepository.java:40-41 | a product whose name contains the query verbatim is found |
| ProductRepository.SearchEmptyFindsAll | src/main/java/com/example/joblearning/repository/ProductRepository.java:40-41 | the empty query finds every product |
| ProductService.GetAllProducts | src/main/java/com/example/joblearning/service/ProductService.java:38-40 | every stored product, and only those, each listed once |
| ProductService.GetProductById | src/main/java/com/example/joblearning/service/ProductService.java:46-49 | succeeds exactly when the id is stored, returning that product; otherwise NotFound with the id in the message |
| ProductService.CreateProduct | src/main/java/com/example/joblearning/service/ProductService.java:55-57 | the payload is stored under an id not in use before, and the returned product carries it |
| ProductService.UpdateProduct | src/main/java/com/example/joblearning/service/ProductService.java:64-74 | an absent id raises NotFound and writes nothing; otherwise the id is kept and all five columns come from the payload |
| ProductService.DeleteProduct | src/main/java/com/example/joblearning/service/ProductService.java:81-84 | an absent id raises NotFound and writes nothing; otherwise exactly that id is removed |
| ProductService.GetProductsByCategory | src/main/java/com/example/joblearning/service/ProductService.java:89-91 | exactly the products in the category, each listed once |
| ProductService.GetProductsWithPriceLessThan | src/main/java/com/example/joblearning/service/ProductService.java:96-98 | exactly the products strictly cheaper than the limit, each listed once |
| ProductService.SearchProductsByName | src/main/java/com/example/joblearning/service/ProductService.java:103-105 | exactly the products whose name contains the query, ignoring case, each listed once |
| ProductService.IsProductInStock | src/main/java/com/example/joblearning/service/ProductService.java:115-128 | true iff the call succeeded and the body maps `inStock` to true; a failed call, a null body, a missing key or a null value all give false |
| GlobalExceptionHandler.FieldMap | src/main/java/com/example/joblearning/exception/GlobalExceptionHandler.java:50-55 | the map holds exactly the fields that have an error, each with its last error's message |
| GlobalExceptionHandler.LastMessageExists | src/main/java/com/example/joblearning/exception/GlobalExceptionHandler.java:50-55 | a field has an entry exactly when some error names it |
| GlobalExceptionHandler.LaterOverwrites | src/main/java/com/example/joblearning/exception/GlobalExceptionHandler.java:51-55 | a later error on the same field overwrites an earlier one |
| GlobalExceptionHandler.Render | src/main/java/com/example/joblearning/exception/GlobalExceptionHandler.java:29-74 | NotFound gives 404 with its message; a validation failure gives 400 with the field map; every other error gives 500 with its message; the mapping is total |
| ProductProperties.MutationsPreserveInvariant | src/main/java/com/example/joblearning/service/ProductService.java:55-84 | create, update and delete with validated columns keep every stored product valid |
| ProductProperties.CreateThenGet | src/main/java/com/example/joblearning/service/ProductService.java:46-57 | fetching the id a create returned gives the created product |
| ProductProperties.MissingProductIs404 | src/main/java/com/example/joblearning/exception/GlobalExceptionHandler.java:29-40 | get, update and delete of an absent product raise NotFound with the store unchanged, which the handler answers with 404 and the service's message |
| ProductProperties.InvalidBodyIs400 | src/main/java/com/example/joblearning/exception/GlobalExceptionHandler.java:45-57 | an invalid product body answers 400 with an entry for exactly the failing fields, each carrying its constraint's message |
| ProductProperties.EntriesAreFields | src/main/java/com/example/joblearning/exception/GlobalExceptionHandler.java:50-55 | the 400 body for a product names no field other than `name` and `price` |
| ProductProperties.NameEntry | src/main/java/com/example/joblearning/exception/GlobalExceptionHandler.java:50-55 | the 400 body has a `name` entry exactly when the name is missing or blank, carrying the required message |
| ProductProperties.PriceEntry | src/main/java/com/example/joblearning/exception/GlobalExceptionHandler.java:50-55 | the 400 body has a `price` entry exactly when the price is missing or not positive, carrying the message of the failing constraint |
| ProductProperties.FieldMapOfDistinct | src/main/java/com/example/joblearning/exception/GlobalExceptionHandler.java:50-55 | when no two errors share a field, the map has exactly the named fields with their messages |
| StockCheck.Transport | src/main/java/com/example/joblearning/client/InventoryClient.java:27-30 | the client reads a reply only from a successful 2xx answer; a 2xx map body arrives key for key, with no value null |
| StockCheck.CrossServiceAgreement | src/main/java/com/example/joblearning/service/ProductService.java:115-128 | asked against a live inventory, the product-side check equals the inventory's own stock check, with the quantity defaulting to 1 |
| StockCheck.UnknownCodeNotInStock | src/main/java/com/example/joblearning/service/ProductService.java:115-121 | a code the inventory does not know reads as not in stock, not as an error |

## Left out

- HTTP routing, JSON (de)serialisation and the bean-validation machinery. Requests and responses are datatypes, and validation is a predicate.
- `ProductController`: it only routes to the service with fixed status codes.
- The Feign transport of `InventoryClient` and all network behaviour. The reply of the remote call is an input (`ProductService.Remote`). `StockCheck.Transport` says how a controller outcome reaches the client.
- JPA persistence and `@Transactional`. Each operation is atomic on an immutable store.
- Concurrency. The source has no locking around the read-modify-write of a quantity.
- Application bootstrap.
- The timestamp and request description of the error body. A raised error carries only its message.
- The inventory service's own exception handler. It is not part of this model, so no status is stated for errors the inventory controller raises.
- Floating-point price semantics (NaN, infinities, rounding). The price is a `real` and is only compared.
- The `long` range of ids. Ids are unbounded naturals, and negative path ids are not modelled.
- An `id` in a request body. With a non-null id, JPA's `save` would merge into an existing row. Bodies in the model have no id, and every create is an insert under a fresh id.
- Service calls that bypass controller validation with a null product code, quantity or product id, or a null product name or price. The stored record types cannot hold those nulls.
- Non-field (global) validation errors. The handler's cast to `FieldError` would fail on them.
- A null `requiredQuantity` given straight to `isInStock`. The controller always supplies one (default 1).
- A null `quantityChange` given straight to `updateInventoryQuantity`, which fails on unboxing. The controller rejects a missing or null value with 400 before calling the service, so the service parameter is a plain `int32`.
- Duplicate product codes. Lookups by code require `CodesUnique`. The behaviour with duplicates is not modelled.
- `LIKE` wildcards (`%`, `_`) inside the search string, and case mapping beyond ASCII in `LOWER`.
- Table.Select: states which rows a query returns and that each appears once, not their order. The model lists them in id order, and the source promises no order.
