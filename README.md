# EFC persistence core in Dafny

This project models the persistence layer of the EFC console application:

- **the generic repository** (`BaseRepository`): Create, GetAll, GetOne, Update, Delete and Exists over one table, each swallowing store failures into `null` or `false`;
- **the two hydrating repositories** (`UserRepository`, `ProductRepository`), which attach four dependent rows to each root row through its foreign keys. The user's four references are required, so its join is an inner join: a user naming a missing row is not returned. The product's are nullable, so its join is a left join;
- **the two coordinators** (`UserService`, `ProductService`), which turn one flat DTO operation into an ordered series of writes to five tables and read roots back as flat DTOs.

The store is a set of tables. A table is a sequence of rows in store order plus the next identity value. A `Schema` per table says:

- which field is the key;
- whether the store generates the key when a row carries the default 0;
- which pairs of rows collide on a unique index (`Email` for users, `RoleName` for roles).

`Consistent` is what the store guarantees of a table: unique keys below the identity counter, no generated key equal to 0, and no unique-index collisions.

The modules follow the source layout:

- `Entities` and `Dtos` — the rows and the flat views.
- `Repositories` — the base repository.
  - Reads are functions over a `Table`.
  - Writes are functions `CreateStep`, `UpdateStep` and `DeleteStep` returning the new table and the result.
  - The class `BaseRepository` holds `rows` and `nextKey` and changes them in place, proved against those functions.
- `Contexts` — the schemas of the two stores, and the filters the coordinators pass.
- `UserRepositories` and `ProductRepositories` — the joins.
- `UserServices` and `ProductServices` — the coordinators.
  - Each mutating method is proved equal to a specification function of the store before the call (`CreateUserSpec`, …).
  - The lemmas state what those functions do: guards, what is appended or overwritten, round trips through the read path, and preservation of `ValidUserDb` / `ValidProductDb`.

Several behaviours of the source are modelled as written, and proved as such:

- **`UpdateUser` writes nothing on a consistent store and reports success whenever a password is given.** It never awaits its lookup, and it filters on the default keys of freshly built entities. See `UpdateUserWritesNothing`.
- **`DeleteProduct` can remove the wrong product.** It removes the first product sharing the fetched product's *price reference*, which may be a different product. See `DeleteProductRemoves` and the concrete case `DeleteProductRemovesOther`.
- **At most one product with ProductId 0.** `ProductId` is neither set nor generated, so `CreateProduct` stores every product with ProductId 0. Once a product with ProductId 0 exists, it stores no further product, yet still reports success. See `CreateProductAfterDefaultId` and `CreateProductTwice`.
- **The coordinators ignore the results of `Create`.** Examples:
  - a refused role insert leaves the user pointing at role 0, which the inner join never returns, although `CreateUser` reported success (`CreateUserTakenRole`);
  - an unreachable store still makes `CreateProduct` report success (`CreateProductOffline`).
- **Only `CreateUser` upper-cases the role name.** `UpdateUser` passes it un-upper-cased to a role update that matches no row.

`fault` stands for the store throwing on every call of one operation, for example because the database cannot be reached.

## Model

| member | source | states |
|---|---|---|
| Repositories.FirstIndexSpec | Shared/Repositories/BaseRepository.cs:48-61 | the index found is a matching row with no matching row before it; none is found exactly when no row matches |
| Repositories.GetAll | Shared/Repositories/BaseRepository.cs:34-47 | exactly the table's rows, or None exactly when the store throws |
| Repositories.GetOneFindsFirst | Shared/Repositories/BaseRepository.cs:48-61 | GetOne returns the first row satisfying the predicate; None exactly when the store throws or no row satisfies it |
| Repositories.ExistsIff | Shared/Repositories/BaseRepository.cs:97-106 | Exists holds exactly when the store answers and some row satisfies the predicate |
| Repositories.LookupFinds | Shared/Repositories/ProductRepository.cs:16-20 | the joined row carries the foreign key and is stored; it is absent exactly when the key is null or no row has it |
| Repositories.CreateAppends | Shared/Repositories/BaseRepository.cs:17-32 | a successful Create appends the row, with a fresh generated key when it had the default one, and returns it; a refused Create leaves the table unchanged and is refused exactly on a store failure, a taken key or a unique-index collision |
| Repositories.CreateKeepsConsistent | Shared/Repositories/BaseRepository.cs:17-32 | Create preserves table consistency |
| Repositories.UpdateOverwritesFirst | Shared/Repositories/BaseRepository.cs:63-79 | Update overwrites the first matching row and leaves every other row; it writes nothing when nothing matches, and a key change or collision is refused |
| Repositories.UpdateKeepsConsistent | Shared/Repositories/BaseRepository.cs:63-79 | Update preserves table consistency |
| Repositories.DeleteRemovesFirst | Shared/Repositories/BaseRepository.cs:80-95 | Delete removes exactly the first matching row and reports true; it reports false with the table unchanged when nothing matches or the store throws |
| Repositories.DeleteKeepsConsistent | Shared/Repositories/BaseRepository.cs:80-95 | Delete preserves table consistency |
| Repositories.CreateThenGetOne | Shared_tests/Repositories_tests/ProductRepository_test.cs:21-39 | after a Create, GetOne with a predicate the created row satisfies finds a satisfying row, the created one when no earlier row satisfied it, and Exists holds |
| Repositories.DeleteThenNotExists | Shared/Repositories/BaseRepository.cs:80-106 | when at most one row satisfies the predicate, no row satisfies it after the Delete |
| Repositories.DeleteByKey | Shared/Repositories/BaseRepository.cs:80-95 | deleting by key equality on a consistent table leaves exactly the rows with other keys |
| Repositories.DeleteByRef | Shared/Repositories/BaseRepository.cs:80-95 | deleting by a nullable reference leaves exactly the rows it does not name; a null reference removes nothing |
| Repositories.UpdateByKey | Shared/Repositories/BaseRepository.cs:63-79 | updating by key equality with values keeping the key overwrites exactly that row |
| Repositories.LookupUnique | Shared/Repositories/UserRepository.cs:17-21 | on a consistent table, the join by a row's key finds that row |
| Repositories.BaseRepository.constructor | Shared/Repositories/BaseRepository.cs:11-14 | a repository wraps the consistent table its context already holds |
| Repositories.BaseRepository.Create | Shared/Repositories/BaseRepository.cs:17-32 | Add then SaveChanges: the new table and the result are CreateStep's, and a consistent table stays consistent |
| Repositories.BaseRepository.Update | Shared/Repositories/BaseRepository.cs:63-79 | first-match lookup then SetValues: the new table and the result are UpdateStep's, and a consistent table stays consistent |
| Repositories.BaseRepository.Delete | Shared/Repositories/BaseRepository.cs:80-95 | first-match lookup then Remove: the new table and the result are DeleteStep's, and a consistent table stays consistent |
| Contexts.SchemasLawful | Shared/Contexts/ProductDataContext.cs:32-95 | every table's key setter and key reader agree |
| Contexts.EmptyStoresValid | Shared/Contexts/ProductDataContext.cs:32-95 | a fresh database with every table empty and every identity counter at 1 meets the store invariant |
| UserRepositories.LoadHydrates | Shared/Repositories/UserRepository.cs:17-21 | a user is loaded exactly when its profile, address, role and phone number references all name stored rows, and then each attached row is the stored row with that key |
| UserRepositories.JoinAllSound | Shared/Repositories/UserRepository.cs:17-21 | every joined user is a given row with its dependents attached |
| UserRepositories.JoinAllComplete | Shared/Repositories/UserRepository.cs:17-21 | every given row whose references resolve is joined, by position |
| UserRepositories.JoinAllAppend | Shared/Repositories/UserRepository.cs:17-21 | the join keeps store order: appending a user appends its loaded form exactly when its references resolve |
| UserRepositories.GetAll | Shared/Repositories/UserRepository.cs:13-30 | None exactly on a store failure |
| UserRepositories.GetAllHydrates | Shared/Repositories/UserRepository.cs:13-30 | every user GetAll returns is stored and hydrated, and a stored user is returned exactly when its four references resolve |
| UserRepositories.GetOneHydrates | Shared/Repositories/UserRepository.cs:32-49 | the first user that both resolves and matches the predicate, hydrated; None exactly when the store throws or no resolving user matches |
| UserRepositories.GetOneByEmail | Shared_tests/Repositories_tests/UserRepository_test.cs:78-99 | GetOne by a stored user's email returns exactly that user loaded when its references resolve, and nothing otherwise |
| ProductRepositories.LoadHydrates | Shared/Repositories/ProductRepository.cs:16-20 | each attached category, manufacturer, price and production record is the stored row the nullable foreign key names, absent exactly when the key is null or names no row |
| ProductRepositories.GetAll | Shared/Repositories/ProductRepository.cs:12-29 | one loaded product per stored product, in store order; None exactly on a store failure |
| ProductRepositories.GetAllHydrates | Shared/Repositories/ProductRepository.cs:12-29 | each product GetAll returns is the stored row at that position, hydrated |
| ProductRepositories.GetOneHydrates | Shared/Repositories/ProductRepository.cs:31-48 | the first product matching the predicate, hydrated; None exactly when the store throws or none matches |
| ProductRepositories.GetOneById | Shared/Repositories/ProductRepository.cs:31-48 | GetOne by a stored product's ProductId returns exactly that product, loaded |
| UserServices.ToUpper | Shared/Services/UserService.cs:47 | same length, no lower-case ASCII letter left, other characters kept, lower-case letters shifted to upper case |
| UserServices.DigestExists | Shared/Services/UserService.cs:175-180 | a Base64 HMACSHA256 digest shape is inhabited |
| UserServices.CheckIfUserExistsIff | Shared/Services/UserService.cs:165-174 | true exactly when the store answers and a stored user has the email |
| UserServices.UserService.constructor | Shared/Services/UserService.cs:11-18 | the service holds the five given repositories over their tables |
| UserServices.UserService.GenerateSecurePassword | Shared/Services/UserService.cs:175-180 | a digest for a given password, nothing for a null one |
| UserServices.UserService.CreateUser | Shared/Services/UserService.cs:21-66 | the new store and the result are CreateUserSpec's for some digest |
| UserServices.UserService.GetAllUsers | Shared/Services/UserService.cs:68-99 | one view per joined user, in GetAll's order, with no password; None exactly when the read fails |
| UserServices.UserService.UpdateUser | Shared/Services/UserService.cs:100-142 | the new store and the result are UpdateUserSpec's for some digest |
| UserServices.UserService.DeleteUser | Shared/Services/UserService.cs:143-164 | the new store and the result are DeleteUserSpec's |
| UserServices.CreateUserKeepsValid | Shared/Services/UserService.cs:21-66 | CreateUser keeps every user-store table consistent |
| UserServices.UpdateUserKeepsValid | Shared/Services/UserService.cs:100-142 | UpdateUser keeps every user-store table consistent |
| UserServices.DeleteUserKeepsValid | Shared/Services/UserService.cs:143-164 | DeleteUser keeps every user-store table consistent |
| UserServices.CreateUserResult | Shared/Services/UserService.cs:25-64 | success exactly when the email is not found and a password is given; a taken email writes nothing |
| UserServices.CreateUserOffline | Shared/Services/UserService.cs:21-66 | with the store unreachable nothing changes, yet success is reported whenever a password is given |
| UserServices.CreateUserAdds | Shared/Services/UserService.cs:27-60 | one address, phone number and profile with the DTO's fields under fresh keys; the upper-cased role unless that name is taken; with a password, a user referring to them and carrying the digest |
| UserServices.CreateUserRoundTrip | Shared/Services/UserService.cs:27-60 | looking the new user up by email gives back the DTO with the role upper-cased and no password |
| UserServices.CreateUserTakenRole | Shared/Services/UserService.cs:45-59 | with the role name taken, success is reported and the new user is stored referring to role 0, so it is neither found by email nor listed by GetAll |
| UserServices.UpdateUserWritesNothing | Shared/Services/UserService.cs:105-137 | on a consistent store nothing changes and the result is whether a password was given |
| UserServices.DeleteUserMiss | Shared/Services/UserService.cs:147-163 | on a store failure, or when no user with the email has all four references resolved, nothing changes and the result is false |
| UserServices.DeleteUserRemovesAggregate | Shared/Services/UserService.cs:147-156 | for a stored user whose references resolve, exactly the rows with its user, address, phone, profile and role keys are removed; the result is true and the email is gone |
| ProductServices.CheckIfProductExistsIff | Shared/Services/ProductService.cs:190-199 | true exactly when the store answers and a stored product has the name |
| ProductServices.GetOneProduct | Shared/Services/ProductService.cs:89-117 | a view found only when the store answers, carrying the asked name, no ProductId and no production date |
| ProductServices.GetOneProductMiss | Shared/Services/ProductService.cs:94-116 | on a store failure or unknown name, no view |
| ProductServices.GetOneProductHit | Shared/Services/ProductService.cs:94-108 | the first product with the name gives its description and quantity with its stored category's and manufacturer's names and price; nothing exactly when one of those three cannot be found |
| ProductServices.ProductService.constructor | Shared/Services/ProductService.cs:8-14 | the service holds the five given repositories over their tables |
| ProductServices.ProductService.CreateProduct | Shared/Services/ProductService.cs:16-59 | the new store and the result are CreateProductSpec's |
| ProductServices.ProductService.GetAllProducts | Shared/Services/ProductService.cs:60-88 | one view per stored product in order; None exactly when the read fails or some product lacks a category, manufacturer or price |
| ProductServices.ProductService.UpdateProduct | Shared/Services/ProductService.cs:118-167 | the new store and the result are UpdateProductSpec's |
| ProductServices.ProductService.DeleteProduct | Shared/Services/ProductService.cs:168-189 | the new store and the result are DeleteProductSpec's |
| ProductServices.CreateProductKeepsValid | Shared/Services/ProductService.cs:16-59 | CreateProduct keeps every product-store table consistent |
| ProductServices.UpdateProductKeepsValid | Shared/Services/ProductService.cs:118-167 | UpdateProduct keeps every product-store table consistent |
| ProductServices.DeleteProductKeepsValid | Shared/Services/ProductService.cs:168-189 | DeleteProduct keeps every product-store table consistent |
| ProductServices.CreateProductResult | Shared/Services/ProductService.cs:20-57 | success exactly when the existence check is false; a taken name writes nothing |
| ProductServices.CreateProductOffline | Shared/Services/ProductService.cs:16-59 | with the store unreachable nothing changes and success is reported |
| ProductServices.CreateProductAdds | Shared/Services/ProductService.cs:22-53 | one category, manufacturer, undated price and production record with the DTO's fields under fresh keys, and a product with ProductId 0 referring to them unless ProductId 0 is taken |
| ProductServices.CreateProductAfterDefaultId | Shared/Services/ProductService.cs:42-52 | once a product with ProductId 0 exists, CreateProduct leaves the products unchanged, and on reported success the product is absent |
| ProductServices.CreateProductLeavesDefaultId | Shared/Services/ProductService.cs:42-52 | a successful CreateProduct leaves a product with ProductId 0 stored |
| ProductServices.CreateProductTwice | Shared/Services/ProductService.cs:42-53 | after one CreateProduct the next one never changes the products, even when it reports success |
| ProductServices.CreateProductRoundTrip | Shared/Services/ProductService.cs:22-53 | looking the new product up by name gives back the DTO without ProductId and production date |
| ProductServices.UpdateProductResult | Shared/Services/ProductService.cs:123-166 | success exactly when a product has the ProductId and all four of its references are non-null; a miss or a null category reference writes nothing |
| ProductServices.UpdateProductRewritesDependents | Shared/Services/ProductService.cs:127-150 | the four rows the product refers to are overwritten with the DTO's fields, the price losing its date; success is reported |
| ProductServices.UpdateProductRewritesRoot | Shared/Services/ProductService.cs:151-162 | the product row is overwritten with the DTO's name, description and quantity only when its ProductId is 0, and is otherwise unchanged |
| ProductServices.DeleteProductMiss | Shared/Services/ProductService.cs:172-188 | on a store failure or unknown name nothing changes and the result is false |
| ProductServices.DeleteProductRemoves | Shared/Services/ProductService.cs:172-181 | exactly the dependents the found product names are removed, and the first product sharing its price reference, which is the found one only when no earlier product shares it |
| ProductServices.DeleteProductRemovesOther | Shared/Services/ProductService.cs:179 | with two products without a price, deleting "B" removes "A" and keeps "B" |

## Left out

- **The store engine.**
  - Entity Framework change tracking is not modelled. In particular, a row whose insert was refused stays tracked and makes later saves on the same context fail again; here every repository call is independent.
  - Foreign keys are not enforced.
  - Tracked dependents do not have their references nulled when a referenced row is deleted; that nulling would change the filter `DeleteProduct` uses on line 179.
  - SQL defaults (`getdate()` for price and production dates), column lengths and type mappings are not modelled.
  - Keys, unique indexes and the filters (`EmailIs`, `ProductNameIs` and the others) compare exactly. A database collation can make the email and product-name comparisons case-insensitive; that is not modelled.
  - Cascade deletes are not modelled. Under the store's default cascade on the required user references, deleting a role or an address would also delete the other users referring to it. `DeleteUserRemovesAggregate` keeps those users.
- **Concurrency and logging.** `async`/`Task` is not modelled: every call runs to completion in order. The un-awaited lookup in `UpdateUser` is treated as a value that is never null; its possible interleaving with the next call on the same context is not modelled. `Debug.WriteLine` logging is dropped.
- **UserServices.CreateUserTakenRole:** states the outcome on a store that enforces the role-name index but not foreign keys. On SQL Server the user insert also breaks the foreign key to role 0, and the refused role stays tracked, so the user is not stored at all, yet `CreateUser` still reports success. The in-memory provider enforces neither, so there the duplicate role is stored.
- **UserServices.UserService.GenerateSecurePassword:** HMACSHA256 under a fresh random key is modelled as an arbitrary 44-character Base64 digest. The cryptography is not modelled, and the digest is not tied to the password.
- **UserServices.ToUpper:** upper-cases ASCII letters only; culture-sensitive Unicode casing is not modelled.
- **Values.** `Guid` keys are integers with 0 for `Guid.Empty`; `decimal` prices and `DateOnly` dates are opaque integers.
- **Nulls in the DTOs.** A null in a non-nullable DTO string field other than the password is not modelled.
- **Failures.** A store failure is one flag per operation: either every call of that operation throws or none does.
- **Hydrating repositories.** They are modelled as functions over the whole store rather than as subclasses of the base repository class. Their reads do not take part in the repository objects' state.
- **The store invariant.** Each repository method keeps its table `Valid` when it was. The service methods do not carry the invariant: it is proved on their specification functions, by the `…KeepsValid` lemmas.
- **Category and Manufacturer.** Their rows are modelled as an identity key and a name, the only fields `ProductService` reads or writes (Shared/Services/ProductService.cs:22-30, 77-78).
- **GetOneUser.** The user tests call it, but UserService does not define it, so it is not modelled.
- **Impossible test expectations.** Test assertions the code cannot satisfy are not modelled, for example the updated fields expected by the `UpdateUser` test.
- **The console application.** Its menus, prompts and wiring are interactive I/O.
