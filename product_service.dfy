/** ProductService (Shared/Services/ProductService.cs): turns one flat ProductDto operation
    into writes to the category, manufacturer, price, production and product tables, and
    reads products back as flat ProductDtos. Each mutating operation is specified by a
    function of the store before the call (CreateProductSpec, UpdateProductSpec,
    DeleteProductSpec); the lemmas below state what those functions do. `fault` stands for
    the store throwing on every call of the operation. */
module ProductServices {
  import opened Wrappers
  import opened Entities
  import opened Dtos
  import opened Repositories
  import opened Contexts
  import ProductRepositories

  /** CheckIfProductExistsAsync (ProductService.cs:190-199). */
  function CheckIfProductExists(db: ProductDb, productName: string, fault: bool): bool
  {
    Repositories.Exists(db.products, ProductNameIs(productName), fault)
  }

  /** A product is reported to exist exactly when the store answers and a stored product has
      the name. */
  lemma CheckIfProductExistsIff(db: ProductDb, productName: string, fault: bool)
    ensures CheckIfProductExists(db, productName, fault) <==>
      !fault && exists j :: 0 <= j < |db.products.rows| && db.products.rows[j].productName == productName
  {
    ExistsIff(db.products, ProductNameIs(productName), fault);
  }

  /** Every dependent the projections dereference is attached; the production record is not
      read. */
  predicate Shown(lp: LoadedProduct)
  {
    lp.category.Some? && lp.manufacturer.Some? && lp.price.Some?
  }

  /** The flat view GetAllProducts and GetOneProduct build (ProductService.cs:72-80, 98-106);
      neither the ProductId nor the production date is copied. */
  function ProductView(lp: LoadedProduct): ProductDto
    requires Shown(lp)
  {
    ProductDto(0, lp.product.productName, lp.product.productDescription, lp.product.quantityInStock, None,
               lp.category.value.categoryName, lp.manufacturer.value.manufacturerName, lp.price.value.productPrice)
  }

  /** GetOneProduct (ProductService.cs:89-117): the view of the first product carrying the
      given product's name; None on a miss, a failed read, or a missing category,
      manufacturer or price. */
  function GetOneProduct(db: ProductDb, product: Product, fault: bool): (r: Option<ProductDto>)
    ensures r.Some? ==> !fault && r.value.productName == product.productName
    ensures r.Some? ==> r.value.productId == 0 && r.value.productionDate.None?
  {
    match ProductRepositories.GetOne(db, ProductNameIs(product.productName), fault)
    case None => None
    case Some(lp) => if Shown(lp) then Some(ProductView(lp)) else None
  }

  /** Some stored product has the default ProductId 0. */
  predicate HasDefaultId(db: ProductDb)
  {
    exists j :: 0 <= j < |db.products.rows| && db.products.rows[j].productId == 0
  }

  // ---- the write paths, as functions of the store ----

  /** CreateProduct (ProductService.cs:16-59). The product gets no ProductId, and the store
      never generates one. */
  function CreateProductSpec(db: ProductDb, dto: ProductDto, fault: bool): Step<ProductDb, bool>
  {
    if CheckIfProductExists(db, dto.productName, fault) then Step(db, false)
    else
      var c := CreateStep(CategorySchema, db.categories, Category(0, dto.categoryName), fault);
      var m := CreateStep(ManufacturerSchema, db.manufacturers, Manufacturer(0, dto.manufacturerName), fault);
      var pr := CreateStep(PriceSchema, db.prices, Price(0, dto.productPrice, None), fault);
      var pi := CreateStep(ProductionSchema, db.productions, ProductionInformation(0, dto.productionDate), fault);
      var p := Product(0, dto.productName, dto.productDescription, dto.quantityInStock,
                       Some(KeyAfter(CategorySchema, c.result)), Some(KeyAfter(ManufacturerSchema, m.result)),
                       Some(KeyAfter(ProductionSchema, pi.result)), Some(KeyAfter(PriceSchema, pr.result)));
      Step(ProductDb(c.state, m.state, pr.state, CreateStep(ProductSchema, db.products, p, fault).state, pi.state), true)
  }

  /** UpdateProduct (ProductService.cs:118-167). Each dependent is overwritten by the key the
      found product refers to; a null reference makes the cast before that update throw, so
      the updates already made stay and the result is false. The product itself is
      overwritten by a row with the default ProductId. */
  function UpdateProductSpec(db: ProductDb, dto: ProductDto, fault: bool): Step<ProductDb, bool>
  {
    match ProductRepositories.GetOne(db, ProductIdIs(dto.productId), fault)
    case None => Step(db, false)
    case Some(found) =>
      var f := found.product;
      if f.categoryId.None? then Step(db, false)
      else
        var c := UpdateStep(CategorySchema, db.categories, CategoryIdIs(f.categoryId),
                            Category(f.categoryId.value, dto.categoryName), fault);
        var db1 := db.(categories := c.state);
        if f.manufacturerId.None? then Step(db1, false)
        else
          var m := UpdateStep(ManufacturerSchema, db.manufacturers, ManufacturerIdIs(f.manufacturerId),
                              Manufacturer(f.manufacturerId.value, dto.manufacturerName), fault);
          var db2 := db1.(manufacturers := m.state);
          if f.priceId.None? then Step(db2, false)
          else
            var pr := UpdateStep(PriceSchema, db.prices, PriceIdIs(f.priceId),
                                 Price(f.priceId.value, dto.productPrice, None), fault);
            var db3 := db2.(prices := pr.state);
            if f.productionId.None? then Step(db3, false)
            else
              var pi := UpdateStep(ProductionSchema, db.productions, ProductionIdIs(f.productionId),
                                   ProductionInformation(f.productionId.value, dto.productionDate), fault);
              var p := Product(0, dto.productName, dto.productDescription, dto.quantityInStock,
                               f.categoryId, f.manufacturerId, f.productionId, f.priceId);
              var pp := UpdateStep(ProductSchema, db.products, ProductIdIs(f.productId), p, fault);
              Step(db3.(productions := pi.state, products := pp.state), true)
  }

  /** DeleteProduct (ProductService.cs:168-189): deletes the dependents by the keys read off
      the product found by name, then the first product with the same price reference. */
  function DeleteProductSpec(db: ProductDb, dto: ProductDto, fault: bool): Step<ProductDb, bool>
  {
    match ProductRepositories.GetOne(db, ProductNameIs(dto.productName), fault)
    case None => Step(db, false)
    case Some(found) =>
      var f := found.product;
      Step(ProductDb(DeleteStep(db.categories, CategoryIdIs(f.categoryId), fault).state,
                     DeleteStep(db.manufacturers, ManufacturerIdIs(f.manufacturerId), fault).state,
                     DeleteStep(db.prices, PriceIdIs(f.priceId), fault).state,
                     DeleteStep(db.products, PriceRefIs(f.priceId), fault).state,
                     DeleteStep(db.productions, ProductionIdIs(f.productionId), fault).state),
           true)
  }

  // ---- the coordinator object ----

  class ProductService {
    const productRepository: BaseRepository<Product>
    const productionInformationRepository: BaseRepository<ProductionInformation>
    const priceRepository: BaseRepository<Price>
    const manufacturerRepository: BaseRepository<Manufacturer>
    const categoryRepository: BaseRepository<Category>

    function Db(): ProductDb
      reads productRepository, productionInformationRepository, priceRepository, manufacturerRepository,
            categoryRepository
    {
      ProductDb(categoryRepository.State(), manufacturerRepository.State(), priceRepository.State(),
                productRepository.State(), productionInformationRepository.State())
    }

    ghost predicate Valid()
      reads productRepository, productionInformationRepository, priceRepository, manufacturerRepository,
            categoryRepository
    {
      && productRepository.schema == ProductSchema
      && productionInformationRepository.schema == ProductionSchema
      && priceRepository.schema == PriceSchema
      && manufacturerRepository.schema == ManufacturerSchema
      && categoryRepository.schema == CategorySchema
    }

    constructor (productRepository: BaseRepository<Product>,
                 productionInformationRepository: BaseRepository<ProductionInformation>,
                 priceRepository: BaseRepository<Price>, manufacturerRepository: BaseRepository<Manufacturer>,
                 categoryRepository: BaseRepository<Category>)
      requires productRepository.schema == ProductSchema && productionInformationRepository.schema == ProductionSchema
      requires priceRepository.schema == PriceSchema && manufacturerRepository.schema == ManufacturerSchema
      requires categoryRepository.schema == CategorySchema
      ensures Valid()
      ensures this.productRepository == productRepository
      ensures this.productionInformationRepository == productionInformationRepository
      ensures this.priceRepository == priceRepository && this.manufacturerRepository == manufacturerRepository
      ensures this.categoryRepository == categoryRepository
    {
      this.productRepository := productRepository;
      this.productionInformationRepository := productionInformationRepository;
      this.priceRepository := priceRepository;
      this.manufacturerRepository := manufacturerRepository;
      this.categoryRepository := categoryRepository;
    }

    method CreateProduct(products: ProductDto, fault: bool) returns (r: bool)
      requires Valid()
      modifies productRepository, productionInformationRepository, priceRepository, manufacturerRepository,
               categoryRepository
      ensures Step(Db(), r) == CreateProductSpec(old(Db()), products, fault)
    {
      ghost var db := Db();
      if CheckIfProductExists(Db(), products.productName, fault) {
        return false;
      }
      var category := Category(0, products.categoryName);
      var c := categoryRepository.Create(category, fault);
      ghost var categories := categoryRepository.State();
      var manufacturer := Manufacturer(0, products.manufacturerName);
      var m := manufacturerRepository.Create(manufacturer, fault);
      ghost var manufacturers := manufacturerRepository.State();
      var price := Price(0, products.productPrice, None);
      var pr := priceRepository.Create(price, fault);
      ghost var prices := priceRepository.State();
      var productionInformation := ProductionInformation(0, products.productionDate);
      var pi := productionInformationRepository.Create(productionInformation, fault);
      ghost var productions := productionInformationRepository.State();
      var product := Product(0, products.productName, products.productDescription, products.quantityInStock,
                             Some(KeyAfter(CategorySchema, c)), Some(KeyAfter(ManufacturerSchema, m)),
                             Some(KeyAfter(ProductionSchema, pi)), Some(KeyAfter(PriceSchema, pr)));
      var created := productRepository.Create(product, fault);
      assert Db() == ProductDb(categories, manufacturers, prices, productRepository.State(), productions);
      r := true;
    }

    /** GetAllProducts (ProductService.cs:60-88): one view per stored product, in store order,
        or None when the read fails or some product lacks a dependent the projection
        dereferences. */
    method GetAllProducts(fault: bool) returns (r: Option<seq<ProductDto>>)
      ensures var loaded := ProductRepositories.GetAll(Db(), fault);
        r.Some? <==> loaded.Some? && forall i :: 0 <= i < |loaded.value| ==> Shown(loaded.value[i])
      ensures r.Some? ==> |r.value| == |productRepository.rows|
      ensures r.Some? ==> forall i :: 0 <= i < |r.value| ==>
        var lp := ProductRepositories.GetAll(Db(), fault).value[i];
        Shown(lp) && lp.product == productRepository.rows[i] && r.value[i] == ProductView(lp)
    {
      var result := ProductRepositories.GetAll(Db(), fault);
      if result.None? {
        return None;
      }
      var items := result.value;
      var products: seq<ProductDto> := [];
      for i := 0 to |items|
        invariant |products| == i
        invariant forall k :: 0 <= k < i ==> Shown(items[k]) && products[k] == ProductView(items[k])
      {
        var item := items[i];
        if !Shown(item) {
          return None;
        }
        products := products + [ProductView(item)];
      }
      r := Some(products);
    }

    method UpdateProduct(products: ProductDto, fault: bool) returns (r: bool)
      requires Valid()
      modifies productRepository, productionInformationRepository, priceRepository, manufacturerRepository,
               categoryRepository
      ensures Step(Db(), r) == UpdateProductSpec(old(Db()), products, fault)
    {
      ghost var db := Db();
      var found := ProductRepositories.GetOne(Db(), ProductIdIs(products.productId), fault);
      if found.None? {
        return false;
      }
      var existing := found.value.product;
      if existing.categoryId.None? {
        return false;
      }
      var category := Category(existing.categoryId.value, products.categoryName);
      var c := categoryRepository.Update(CategoryIdIs(existing.categoryId), category, fault);
      ghost var db1 := db.(categories := categoryRepository.State());
      assert Db() == db1;
      if existing.manufacturerId.None? {
        return false;
      }
      var manufacturer := Manufacturer(existing.manufacturerId.value, products.manufacturerName);
      var m := manufacturerRepository.Update(ManufacturerIdIs(existing.manufacturerId), manufacturer, fault);
      ghost var db2 := db1.(manufacturers := manufacturerRepository.State());
      assert Db() == db2;
      if existing.priceId.None? {
        return false;
      }
      var price := Price(existing.priceId.value, products.productPrice, None);
      var pr := priceRepository.Update(PriceIdIs(existing.priceId), price, fault);
      ghost var db3 := db2.(prices := priceRepository.State());
      assert Db() == db3;
      if existing.productionId.None? {
        return false;
      }
      var productionInformation := ProductionInformation(existing.productionId.value, products.productionDate);
      var pi := productionInformationRepository.Update(ProductionIdIs(existing.productionId), productionInformation, fault);
      ghost var productions := productionInformationRepository.State();
      var product := Product(0, products.productName, products.productDescription, products.quantityInStock,
                             existing.categoryId, existing.manufacturerId, existing.productionId, existing.priceId);
      var p := productRepository.Update(ProductIdIs(existing.productId), product, fault);
      assert Db() == db3.(productions := productions, products := productRepository.State());
      r := true;
    }

    method DeleteProduct(product: ProductDto, fault: bool) returns (r: bool)
      requires Valid()
      modifies productRepository, productionInformationRepository, priceRepository, manufacturerRepository,
               categoryRepository
      ensures Step(Db(), r) == DeleteProductSpec(old(Db()), product, fault)
    {
      ghost var db := Db();
      var found := ProductRepositories.GetOne(Db(), ProductNameIs(product.productName), fault);
      if found.None? {
        return false;
      }
      var productEntity := found.value.product;
      var c := categoryRepository.Delete(CategoryIdIs(productEntity.categoryId), fault);
      ghost var categories := categoryRepository.State();
      var m := manufacturerRepository.Delete(ManufacturerIdIs(productEntity.manufacturerId), fault);
      ghost var manufacturers := manufacturerRepository.State();
      var pr := priceRepository.Delete(PriceIdIs(productEntity.priceId), fault);
      ghost var prices := priceRepository.State();
      var pi := productionInformationRepository.Delete(ProductionIdIs(productEntity.productionId), fault);
      ghost var productions := productionInformationRepository.State();
      var p := productRepository.Delete(PriceRefIs(productEntity.priceId), fault);
      assert Db() == ProductDb(categories, manufacturers, prices, productRepository.State(), productions);
      r := true;
    }
  }

  // ---- what the reads return ----

  /** GetOneProduct finds nothing when the store throws or no product has the name. */
  lemma GetOneProductMiss(db: ProductDb, product: Product, fault: bool)
    requires fault || forall j :: 0 <= j < |db.products.rows| ==> db.products.rows[j].productName != product.productName
    ensures GetOneProduct(db, product, fault).None?
  {
    ProductRepositories.GetOneHydrates(db, ProductNameIs(product.productName), fault);
  }

  /** For the first product with the name, GetOneProduct yields its name, description and
      quantity with the names of the category and manufacturer and the price its references
      point at, and yields nothing exactly when one of those three is missing. */
  lemma GetOneProductHit(db: ProductDb, product: Product, i: nat)
    requires i < |db.products.rows| && db.products.rows[i].productName == product.productName
    requires forall j :: 0 <= j < i ==> db.products.rows[j].productName != product.productName
    ensures var p := db.products.rows[i];
            var r := GetOneProduct(db, product, false);
      && (r.None? <==>
            (p.categoryId.None? || forall c :: c in db.categories.rows ==> Some(c.categoryId) != p.categoryId) ||
            (p.manufacturerId.None? || forall m :: m in db.manufacturers.rows ==> Some(m.manufacturerId) != p.manufacturerId) ||
            (p.priceId.None? || forall x :: x in db.prices.rows ==> Some(x.priceId) != p.priceId))
      && (r.Some? ==>
            r.value.productDescription == p.productDescription && r.value.quantityInStock == p.quantityInStock &&
            (exists c :: c in db.categories.rows && Some(c.categoryId) == p.categoryId && r.value.categoryName == c.categoryName) &&
            (exists m :: m in db.manufacturers.rows && Some(m.manufacturerId) == p.manufacturerId &&
                         r.value.manufacturerName == m.manufacturerName) &&
            (exists x :: x in db.prices.rows && Some(x.priceId) == p.priceId && r.value.productPrice == x.productPrice))
  {
    var p := db.products.rows[i];
    FirstIndexSpec(db.products.rows, ProductNameIs(product.productName));
    assert FirstIndex(db.products.rows, ProductNameIs(product.productName)) == Some(i);
    ProductRepositories.LoadHydrates(db, p);
  }

  // ---- what the writes do to the store ----

  lemma CreateProductKeepsValid(db: ProductDb, dto: ProductDto, fault: bool)
    requires ValidProductDb(db)
    ensures ValidProductDb(CreateProductSpec(db, dto, fault).state)
  {
    if !CheckIfProductExists(db, dto.productName, fault) {
      var c := CreateStep(CategorySchema, db.categories, Category(0, dto.categoryName), fault);
      var m := CreateStep(ManufacturerSchema, db.manufacturers, Manufacturer(0, dto.manufacturerName), fault);
      var pr := CreateStep(PriceSchema, db.prices, Price(0, dto.productPrice, None), fault);
      var pi := CreateStep(ProductionSchema, db.productions, ProductionInformation(0, dto.productionDate), fault);
      CreateKeepsConsistent(CategorySchema, db.categories, Category(0, dto.categoryName), fault);
      CreateKeepsConsistent(ManufacturerSchema, db.manufacturers, Manufacturer(0, dto.manufacturerName), fault);
      CreateKeepsConsistent(PriceSchema, db.prices, Price(0, dto.productPrice, None), fault);
      CreateKeepsConsistent(ProductionSchema, db.productions, ProductionInformation(0, dto.productionDate), fault);
      var p := Product(0, dto.productName, dto.productDescription, dto.quantityInStock,
                       Some(KeyAfter(CategorySchema, c.result)), Some(KeyAfter(ManufacturerSchema, m.result)),
                       Some(KeyAfter(ProductionSchema, pi.result)), Some(KeyAfter(PriceSchema, pr.result)));
      CreateKeepsConsistent(ProductSchema, db.products, p, fault);
    }
  }

  lemma UpdateProductKeepsValid(db: ProductDb, dto: ProductDto, fault: bool)
    requires ValidProductDb(db)
    ensures ValidProductDb(UpdateProductSpec(db, dto, fault).state)
  {
    match ProductRepositories.GetOne(db, ProductIdIs(dto.productId), fault)
    case None =>
    case Some(found) =>
      var f := found.product;
      if f.categoryId.Some? {
        UpdateKeepsConsistent(CategorySchema, db.categories, CategoryIdIs(f.categoryId),
                              Category(f.categoryId.value, dto.categoryName), fault);
      }
      if f.manufacturerId.Some? {
        UpdateKeepsConsistent(ManufacturerSchema, db.manufacturers, ManufacturerIdIs(f.manufacturerId),
                              Manufacturer(f.manufacturerId.value, dto.manufacturerName), fault);
      }
      if f.priceId.Some? {
        UpdateKeepsConsistent(PriceSchema, db.prices, PriceIdIs(f.priceId), Price(f.priceId.value, dto.productPrice, None), fault);
      }
      if f.productionId.Some? {
        UpdateKeepsConsistent(ProductionSchema, db.productions, ProductionIdIs(f.productionId),
                              ProductionInformation(f.productionId.value, dto.productionDate), fault);
      }
      var p := Product(0, dto.productName, dto.productDescription, dto.quantityInStock,
                       f.categoryId, f.manufacturerId, f.productionId, f.priceId);
      UpdateKeepsConsistent(ProductSchema, db.products, ProductIdIs(f.productId), p, fault);
  }

  lemma DeleteProductKeepsValid(db: ProductDb, dto: ProductDto, fault: bool)
    requires ValidProductDb(db)
    ensures ValidProductDb(DeleteProductSpec(db, dto, fault).state)
  {
    match ProductRepositories.GetOne(db, ProductNameIs(dto.productName), fault)
    case None =>
    case Some(found) =>
      var f := found.product;
      DeleteKeepsConsistent(CategorySchema, db.categories, CategoryIdIs(f.categoryId), fault);
      DeleteKeepsConsistent(ManufacturerSchema, db.manufacturers, ManufacturerIdIs(f.manufacturerId), fault);
      DeleteKeepsConsistent(PriceSchema, db.prices, PriceIdIs(f.priceId), fault);
      DeleteKeepsConsistent(ProductSchema, db.products, PriceRefIs(f.priceId), fault);
      DeleteKeepsConsistent(ProductionSchema, db.productions, ProductionIdIs(f.productionId), fault);
  }

  /** CreateProduct reports success exactly when the existence check answers false, and a
      taken name writes nothing (ProductService.cs:20, 57). */
  lemma CreateProductResult(db: ProductDb, dto: ProductDto, fault: bool)
    ensures CreateProductSpec(db, dto, fault).result <==> !CheckIfProductExists(db, dto.productName, fault)
    ensures (exists j :: 0 <= j < |db.products.rows| && db.products.rows[j].productName == dto.productName) && !fault ==>
      CreateProductSpec(db, dto, fault).state == db
  {
    CheckIfProductExistsIff(db, dto.productName, fault);
  }

  /** With the store unreachable the existence check answers false and every Create is
      swallowed: nothing changes, yet CreateProduct reports success. */
  lemma CreateProductOffline(db: ProductDb, dto: ProductDto)
    ensures CreateProductSpec(db, dto, true) == Step(db, true)
  {
  }

  /** On a consistent store with the name free, CreateProduct appends one category,
      manufacturer, price (without a date) and production record carrying the DTO's fields
      under fresh keys, and a product with ProductId 0 referring to them, unless a product
      with ProductId 0 is already stored, in which case the product insert is refused. */
  lemma CreateProductAdds(db: ProductDb, dto: ProductDto)
    requires ValidProductDb(db)
    requires !CheckIfProductExists(db, dto.productName, false)
    ensures var st := CreateProductSpec(db, dto, false);
      && st.result
      && st.state.categories.rows == db.categories.rows + [Category(db.categories.nextKey, dto.categoryName)]
      && st.state.manufacturers.rows == db.manufacturers.rows + [Manufacturer(db.manufacturers.nextKey, dto.manufacturerName)]
      && st.state.prices.rows == db.prices.rows + [Price(db.prices.nextKey, dto.productPrice, None)]
      && st.state.productions.rows == db.productions.rows + [ProductionInformation(db.productions.nextKey, dto.productionDate)]
      && st.state.products.rows == db.products.rows +
           (if HasDefaultId(db) then []
            else [Product(0, dto.productName, dto.productDescription, dto.quantityInStock,
                          Some(db.categories.nextKey), Some(db.manufacturers.nextKey),
                          Some(db.productions.nextKey), Some(db.prices.nextKey))])
  {
    CreateAppends(CategorySchema, db.categories, Category(0, dto.categoryName), false);
    CreateAppends(ManufacturerSchema, db.manufacturers, Manufacturer(0, dto.manufacturerName), false);
    CreateAppends(PriceSchema, db.prices, Price(0, dto.productPrice, None), false);
    CreateAppends(ProductionSchema, db.productions, ProductionInformation(0, dto.productionDate), false);
    var p := Product(0, dto.productName, dto.productDescription, dto.quantityInStock,
                     Some(db.categories.nextKey), Some(db.manufacturers.nextKey),
                     Some(db.productions.nextKey), Some(db.prices.nextKey));
    CreateAppends(ProductSchema, db.products, p, false);
  }

  /** Once a product with ProductId 0 is stored, CreateProduct leaves the product table as
      it was, and when it reports success the product it was asked to create is not there. */
  lemma CreateProductAfterDefaultId(db: ProductDb, dto: ProductDto)
    requires ValidProductDb(db) && HasDefaultId(db)
    ensures var st := CreateProductSpec(db, dto, false);
      && st.state.products == db.products
      && (st.result ==> !CheckIfProductExists(st.state, dto.productName, false))
  {
    CheckIfProductExistsIff(db, dto.productName, false);
    if !CheckIfProductExists(db, dto.productName, false) {
      CreateProductAdds(db, dto);
      CheckIfProductExistsIff(CreateProductSpec(db, dto, false).state, dto.productName, false);
    }
  }

  /** Every successful CreateProduct leaves a product with ProductId 0 in the store: the one
      it adds, or the one that made its insert fail. */
  lemma CreateProductLeavesDefaultId(db: ProductDb, dto: ProductDto)
    requires ValidProductDb(db) && !CheckIfProductExists(db, dto.productName, false)
    ensures HasDefaultId(CreateProductSpec(db, dto, false).state)
  {
    CreateProductAdds(db, dto);
    var st := CreateProductSpec(db, dto, false).state;
    if !HasDefaultId(db) {
      assert st.products.rows[|db.products.rows|].productId == 0;
    } else {
      var j :| 0 <= j < |db.products.rows| && db.products.rows[j].productId == 0;
      assert st.products.rows[j].productId == 0;
    }
  }

  /** ProductId is never generated, so after one product has been created every later
      CreateProduct leaves the product table as it was, even when it reports success. */
  lemma CreateProductTwice(db: ProductDb, first: ProductDto, second: ProductDto)
    requires ValidProductDb(db)
    requires !CheckIfProductExists(db, first.productName, false)
    ensures var s1 := CreateProductSpec(db, first, false);
            var s2 := CreateProductSpec(s1.state, second, false);
      && s1.result
      && s2.state.products == s1.state.products
      && (s2.result ==> !CheckIfProductExists(s2.state, second.productName, false))
  {
    CreateProductResult(db, first, false);
    CreateProductKeepsValid(db, first, false);
    CreateProductLeavesDefaultId(db, first);
    CreateProductAfterDefaultId(CreateProductSpec(db, first, false).state, second);
  }

  /** Creating a product into a store holding no product with ProductId 0 and looking it up
      by name yields the DTO back without its ProductId and production date. */
  lemma CreateProductRoundTrip(db: ProductDb, dto: ProductDto, product: Product)
    requires ValidProductDb(db)
    requires !CheckIfProductExists(db, dto.productName, false) && !HasDefaultId(db)
    requires product.productName == dto.productName
    ensures var st := CreateProductSpec(db, dto, false);
      && st.result
      && GetOneProduct(st.state, product, false) == Some(dto.(productId := 0, productionDate := None))
  {
    CreateProductAdds(db, dto);
    CreateProductKeepsValid(db, dto, false);
    CheckIfProductExistsIff(db, dto.productName, false);
    var st := CreateProductSpec(db, dto, false).state;
    var i := |db.products.rows|;
    assert st.products.rows[i].productName == dto.productName;
    assert forall k :: 0 <= k < i ==> st.products.rows[k] == db.products.rows[k];
    FirstIndexSpec(st.products.rows, ProductNameIs(dto.productName));
    assert FirstIndex(st.products.rows, ProductNameIs(dto.productName)) == Some(i);
    LookupUnique(CategorySchema, st.categories, |db.categories.rows|);
    LookupUnique(ManufacturerSchema, st.manufacturers, |db.manufacturers.rows|);
    LookupUnique(PriceSchema, st.prices, |db.prices.rows|);
  }

  /** UpdateProduct reports success exactly when a product has the DTO's ProductId and it
      refers to a category, manufacturer, price and production record; a store failure, a
      miss or a null category reference writes nothing. */
  lemma UpdateProductResult(db: ProductDb, dto: ProductDto, fault: bool)
    ensures var found := ProductRepositories.GetOne(db, ProductIdIs(dto.productId), fault);
            var st := UpdateProductSpec(db, dto, fault);
      && (found.Some? <==>
            !fault && exists j :: 0 <= j < |db.products.rows| && db.products.rows[j].productId == dto.productId)
      && (st.result <==>
            found.Some? && found.value.product.categoryId.Some? && found.value.product.manufacturerId.Some? &&
            found.value.product.priceId.Some? && found.value.product.productionId.Some?)
      && (found.None? || found.value.product.categoryId.None? ==> st.state == db)
  {
    ProductRepositories.GetOneHydrates(db, ProductIdIs(dto.productId), fault);
  }

  /** The product at index i refers to stored rows at indexes ci, mi, pri and pii. */
  ghost predicate RefersTo(db: ProductDb, i: nat, ci: nat, mi: nat, pri: nat, pii: nat)
  {
    && i < |db.products.rows|
    && var f := db.products.rows[i];
    && ci < |db.categories.rows| && f.categoryId == Some(db.categories.rows[ci].categoryId)
    && mi < |db.manufacturers.rows| && f.manufacturerId == Some(db.manufacturers.rows[mi].manufacturerId)
    && pri < |db.prices.rows| && f.priceId == Some(db.prices.rows[pri].priceId)
    && pii < |db.productions.rows| && f.productionId == Some(db.productions.rows[pii].productionId)
  }

  /** On a consistent store, updating the product at index i whose references name stored
      rows overwrites exactly those rows with the DTO's fields, wiping the price date, and
      reports success. */
  lemma UpdateProductRewritesDependents(db: ProductDb, dto: ProductDto, i: nat, ci: nat, mi: nat, pri: nat, pii: nat)
    requires ValidProductDb(db) && RefersTo(db, i, ci, mi, pri, pii) && db.products.rows[i].productId == dto.productId
    ensures var f := db.products.rows[i];
            var st := UpdateProductSpec(db, dto, false);
      && st.result
      && st.state.categories == db.categories.(rows := db.categories.rows[ci := Category(f.categoryId.value, dto.categoryName)])
      && st.state.manufacturers ==
           db.manufacturers.(rows := db.manufacturers.rows[mi := Manufacturer(f.manufacturerId.value, dto.manufacturerName)])
      && st.state.prices == db.prices.(rows := db.prices.rows[pri := Price(f.priceId.value, dto.productPrice, None)])
      && st.state.productions ==
           db.productions.(rows := db.productions.rows[pii := ProductionInformation(f.productionId.value, dto.productionDate)])
  {
    var f := db.products.rows[i];
    ProductRepositories.GetOneById(db, i);
    UpdateByKey(CategorySchema, db.categories, CategoryIdIs(f.categoryId), Category(f.categoryId.value, dto.categoryName), ci);
    UpdateByKey(ManufacturerSchema, db.manufacturers, ManufacturerIdIs(f.manufacturerId),
                Manufacturer(f.manufacturerId.value, dto.manufacturerName), mi);
    UpdateByKey(PriceSchema, db.prices, PriceIdIs(f.priceId), Price(f.priceId.value, dto.productPrice, None), pri);
    UpdateByKey(ProductionSchema, db.productions, ProductionIdIs(f.productionId),
                ProductionInformation(f.productionId.value, dto.productionDate), pii);
  }

  /** The product row itself is overwritten with the DTO's name, description and quantity
      only when its ProductId is 0: copying the default ProductId onto any other key is
      refused, and UpdateProduct still reports success. */
  lemma UpdateProductRewritesRoot(db: ProductDb, dto: ProductDto, i: nat, ci: nat, mi: nat, pri: nat, pii: nat)
    requires ValidProductDb(db) && RefersTo(db, i, ci, mi, pri, pii) && db.products.rows[i].productId == dto.productId
    ensures var f := db.products.rows[i];
            var st := UpdateProductSpec(db, dto, false);
      st.state.products ==
        if dto.productId == 0 then
          db.products.(rows := db.products.rows[i := Product(0, dto.productName, dto.productDescription, dto.quantityInStock,
                                                              f.categoryId, f.manufacturerId, f.productionId, f.priceId)])
        else db.products
  {
    var f := db.products.rows[i];
    ProductRepositories.GetOneById(db, i);
    var p := Product(0, dto.productName, dto.productDescription, dto.quantityInStock,
                     f.categoryId, f.manufacturerId, f.productionId, f.priceId);
    if dto.productId == 0 {
      UpdateByKey(ProductSchema, db.products, ProductIdIs(f.productId), p, i);
    } else {
      UpdateOverwritesFirst(ProductSchema, db.products, ProductIdIs(f.productId), p, false);
    }
  }

  /** DeleteProduct writes nothing and reports failure when the store throws or no product
      has the name (ProductService.cs:173, 188). */
  lemma DeleteProductMiss(db: ProductDb, dto: ProductDto, fault: bool)
    requires fault || forall j :: 0 <= j < |db.products.rows| ==> db.products.rows[j].productName != dto.productName
    ensures DeleteProductSpec(db, dto, fault) == Step(db, false)
  {
    ProductRepositories.GetOneHydrates(db, ProductNameIs(dto.productName), fault);
  }

  /** Deleting the first product with a name removes exactly the rows its references name
      (nothing for a null reference) and reports success. The product row removed is the
      first one sharing its price reference: the product itself when no earlier product
      shares it, and otherwise a different, earlier product. */
  lemma DeleteProductRemoves(db: ProductDb, dto: ProductDto, i: nat)
    requires ValidProductDb(db) && i < |db.products.rows| && db.products.rows[i].productName == dto.productName
    requires forall j :: 0 <= j < i ==> db.products.rows[j].productName != dto.productName
    ensures var f := db.products.rows[i];
            var st := DeleteProductSpec(db, dto, false);
      && st.result
      && (forall x :: x in st.state.categories.rows <==> x in db.categories.rows && f.categoryId != Some(x.categoryId))
      && (forall x :: x in st.state.manufacturers.rows <==>
                       x in db.manufacturers.rows && f.manufacturerId != Some(x.manufacturerId))
      && (forall x :: x in st.state.prices.rows <==> x in db.prices.rows && f.priceId != Some(x.priceId))
      && (forall x :: x in st.state.productions.rows <==>
                       x in db.productions.rows && f.productionId != Some(x.productionId))
      && (exists j :: 0 <= j <= i && db.products.rows[j].priceId == f.priceId &&
                      (forall l :: 0 <= l < j ==> db.products.rows[l].priceId != f.priceId) &&
                      st.state.products.rows == db.products.rows[..j] + db.products.rows[j + 1..])
      && ((forall l :: 0 <= l < i ==> db.products.rows[l].priceId != f.priceId) ==>
            st.state.products.rows == db.products.rows[..i] + db.products.rows[i + 1..])
  {
    var f := db.products.rows[i];
    FirstIndexSpec(db.products.rows, ProductNameIs(dto.productName));
    assert FirstIndex(db.products.rows, ProductNameIs(dto.productName)) == Some(i);
    DeleteByRef(CategorySchema, db.categories, CategoryIdIs(f.categoryId), f.categoryId);
    DeleteByRef(ManufacturerSchema, db.manufacturers, ManufacturerIdIs(f.manufacturerId), f.manufacturerId);
    DeleteByRef(PriceSchema, db.prices, PriceIdIs(f.priceId), f.priceId);
    DeleteByRef(ProductionSchema, db.productions, ProductionIdIs(f.productionId), f.productionId);
    DeleteRemovesFirst(db.products, PriceRefIs(f.priceId), false);
  }

  /** Two products without a price: deleting "B" removes "A" and keeps "B". */
  lemma DeleteProductRemovesOther()
    ensures var a := Product(1, "A", "", 0, None, None, None, None);
            var b := Product(2, "B", "", 0, None, None, None, None);
            var db := ProductDb(Table([], 1), Table([], 1), Table([], 1), Table([a, b], 3), Table([], 1));
            var st := DeleteProductSpec(db, ProductDto(0, "B", "", 0, None, "", "", 0), false);
      st.result && st.state.products.rows == [b]
  {
    var a := Product(1, "A", "", 0, None, None, None, None);
    var b := Product(2, "B", "", 0, None, None, None, None);
    var db := ProductDb(Table([], 1), Table([], 1), Table([], 1), Table([a, b], 3), Table([], 1));
    assert FirstIndex(db.products.rows, ProductNameIs("B")) == Some(1) by {
      assert FirstIndex(db.products.rows[1..], ProductNameIs("B")) == Some(0);
    }
  }
}
