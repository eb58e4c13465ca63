/** The two stores (Shared/Contexts): which tables they hold, how each table's key behaves,
    and the unique indexes. Also the field-equality filters the coordinators pass to the
    repositories. */
module Contexts {
  import opened Wrappers
  import opened Entities
  import opened Repositories

  // ---- DataContext: identity keys, a generated Guid for users, unique Email and RoleName ----

  const AddressSchema: Schema<Address> :=
    Schema((a: Address) => a.addressId, (a: Address, k: int) => a.(addressId := k), true,
           (a: Address, b: Address) => false)

  const PhoneNumberSchema: Schema<PhoneNumber> :=
    Schema((n: PhoneNumber) => n.phoneNumberId, (n: PhoneNumber, k: int) => n.(phoneNumberId := k), true,
           (a: PhoneNumber, b: PhoneNumber) => false)

  const ProfileSchema: Schema<Profile> :=
    Schema((p: Profile) => p.profileId, (p: Profile, k: int) => p.(profileId := k), true,
           (a: Profile, b: Profile) => false)

  const RoleSchema: Schema<Role> :=
    Schema((r: Role) => r.roleId, (r: Role, k: int) => r.(roleId := k), true,
           (a: Role, b: Role) => a.roleName == b.roleName)

  const UserSchema: Schema<User> :=
    Schema((u: User) => u.userId, (u: User, k: int) => u.(userId := k), true,
           (a: User, b: User) => a.email == b.email)

  // ---- ProductDataContext: identity keys, a ProductId that is never generated ----

  const CategorySchema: Schema<Category> :=
    Schema((c: Category) => c.categoryId, (c: Category, k: int) => c.(categoryId := k), true,
           (a: Category, b: Category) => false)

  const ManufacturerSchema: Schema<Manufacturer> :=
    Schema((m: Manufacturer) => m.manufacturerId, (m: Manufacturer, k: int) => m.(manufacturerId := k), true,
           (a: Manufacturer, b: Manufacturer) => false)

  const PriceSchema: Schema<Price> :=
    Schema((p: Price) => p.priceId, (p: Price, k: int) => p.(priceId := k), true,
           (a: Price, b: Price) => false)

  const ProductionSchema: Schema<ProductionInformation> :=
    Schema((p: ProductionInformation) => p.productionId,
           (p: ProductionInformation, k: int) => p.(productionId := k), true,
           (a: ProductionInformation, b: ProductionInformation) => false)

  const ProductSchema: Schema<Product> :=
    Schema((p: Product) => p.productId, (p: Product, k: int) => p.(productId := k), false,
           (a: Product, b: Product) => false)

  datatype UserDb = UserDb(addresses: Table<Address>, phoneNumbers: Table<PhoneNumber>, profiles: Table<Profile>,
                           roles: Table<Role>, users: Table<User>)

  datatype ProductDb = ProductDb(categories: Table<Category>, manufacturers: Table<Manufacturer>,
                                 prices: Table<Price>, products: Table<Product>,
                                 productions: Table<ProductionInformation>)

  ghost predicate ValidUserDb(db: UserDb)
  {
    && Consistent(AddressSchema, db.addresses)
    && Consistent(PhoneNumberSchema, db.phoneNumbers)
    && Consistent(ProfileSchema, db.profiles)
    && Consistent(RoleSchema, db.roles)
    && Consistent(UserSchema, db.users)
  }

  ghost predicate ValidProductDb(db: ProductDb)
  {
    && Consistent(CategorySchema, db.categories)
    && Consistent(ManufacturerSchema, db.manufacturers)
    && Consistent(PriceSchema, db.prices)
    && Consistent(ProductSchema, db.products)
    && Consistent(ProductionSchema, db.productions)
  }

  /** Every schema sets and reads back the same key. */
  lemma SchemasLawful()
    ensures Lawful(AddressSchema) && Lawful(PhoneNumberSchema) && Lawful(ProfileSchema)
    ensures Lawful(RoleSchema) && Lawful(UserSchema)
    ensures Lawful(CategorySchema) && Lawful(ManufacturerSchema) && Lawful(PriceSchema)
    ensures Lawful(ProductionSchema) && Lawful(ProductSchema)
  {
  }

  /** A freshly created database, every table empty and every identity counter at 1, meets
      the store invariant. */
  lemma EmptyStoresValid()
    ensures ValidUserDb(UserDb(Table([], 1), Table([], 1), Table([], 1), Table([], 1), Table([], 1)))
    ensures ValidProductDb(ProductDb(Table([], 1), Table([], 1), Table([], 1), Table([], 1), Table([], 1)))
  {
    SchemasLawful();
  }

  // ---- filters ----

  function EmailIs(email: string): User -> bool { (u: User) => u.email == email }
  function UserIdIs(id: int): User -> bool { (u: User) => u.userId == id }
  function AddressIdIs(id: int): Address -> bool { (a: Address) => a.addressId == id }
  function PhoneNumberIdIs(id: int): PhoneNumber -> bool { (n: PhoneNumber) => n.phoneNumberId == id }
  function ProfileIdIs(id: int): Profile -> bool { (p: Profile) => p.profileId == id }
  function RoleIdIs(id: int): Role -> bool { (r: Role) => r.roleId == id }

  /** `x.ProductName == name`. */
  function ProductNameIs(name: string): Product -> bool { (p: Product) => p.productName == name }
  /** `x.ProductId == id`. */
  function ProductIdIs(id: int): Product -> bool { (p: Product) => p.productId == id }
  /** `x.PriceId == fk` between two nullable ints: two nulls are equal. */
  function PriceRefIs(fk: Option<int>): Product -> bool { (p: Product) => p.priceId == fk }
  /** `x.CategoryId == fk` between a key and a nullable int: null matches no row. */
  function CategoryIdIs(fk: Option<int>): Category -> bool { (c: Category) => fk == Some(c.categoryId) }
  function ManufacturerIdIs(fk: Option<int>): Manufacturer -> bool { (m: Manufacturer) => fk == Some(m.manufacturerId) }
  function PriceIdIs(fk: Option<int>): Price -> bool { (p: Price) => fk == Some(p.priceId) }
  function ProductionIdIs(fk: Option<int>): ProductionInformation -> bool {
    (p: ProductionInformation) => fk == Some(p.productionId)
  }
}
