/** The rows of the two stores (Shared/Entities). Every `int` key is a store identity
    column; a `Guid` key is modelled as an `int` as well, with 0 standing for `Guid.Empty`.
    `decimal` prices and `DateOnly` dates are opaque `int` scalars. Navigation properties
    are not part of a row: the hydrating repositories attach them (see LoadedUser and
    LoadedProduct). */
module Entities {
  import opened Wrappers

  // ---- the user store (DataContext) ----

  datatype Address = Address(addressId: int, streetName: Option<string>, postalCode: Option<string>, city: Option<string>)

  datatype PhoneNumber = PhoneNumber(phoneNumberId: int, phoneNumber: Option<string>)

  datatype Profile = Profile(profileId: int, firstName: string, lastName: string)

  /** `roleName` carries a unique index. */
  datatype Role = Role(roleId: int, roleName: string)

  /** `userId` is a Guid the store generates; `email` carries a unique index. */
  datatype User = User(userId: int, profileId: int, addressId: int, roleId: int, phoneNumberId: int,
                       email: string, password: string)

  /** A user row with the four dependents `Include` attaches. The four references are
      required, so the join is an inner join and every loaded user has all four. */
  datatype LoadedUser = LoadedUser(user: User, profile: Profile, address: Address,
                                   role: Role, phoneNumber: PhoneNumber)

  // ---- the product store (ProductDataContext) ----

  datatype Category = Category(categoryId: int, categoryName: string)

  datatype Manufacturer = Manufacturer(manufacturerId: int, manufacturerName: string)

  datatype Price = Price(priceId: int, productPrice: int, priceDate: Option<int>)

  datatype ProductionInformation = ProductionInformation(productionId: int, productionDate: Option<int>)

  /** `productId` is a Guid the store never generates; the four references are nullable. */
  datatype Product = Product(productId: int, productName: string, productDescription: string,
                             quantityInStock: int, categoryId: Option<int>, manufacturerId: Option<int>,
                             productionId: Option<int>, priceId: Option<int>)

  /** A product row with its four `Include`d dependents. */
  datatype LoadedProduct = LoadedProduct(product: Product, category: Option<Category>,
                                         manufacturer: Option<Manufacturer>, price: Option<Price>,
                                         production: Option<ProductionInformation>)
}
