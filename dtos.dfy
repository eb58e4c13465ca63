/** The flat views the coordinators accept and return (Shared/Dtos). */
module Dtos {
  import opened Wrappers

  /** `password` is the one field declared non-nullable that is modelled as optional:
      GetAllUsers never fills it in. */
  datatype UserDto = UserDto(firstName: string, lastName: string, email: string, password: Option<string>,
                             roleName: string, phoneNumber: Option<string>, streetName: Option<string>,
                             postalCode: Option<string>, city: Option<string>)

  datatype ProductDto = ProductDto(productId: int, productName: string, productDescription: string,
                                   quantityInStock: int, productionDate: Option<int>, categoryName: string,
                                   manufacturerName: string, productPrice: int)
}
