/** ProductRepository (Shared/Repositories/ProductRepository.cs): the base repository over
    the product table whose GetAll and GetOne attach Category, Manufacturer, Price and
    ProductionInformation through the product's nullable foreign keys. */
module ProductRepositories {
  import opened Wrappers
  import opened Entities
  import opened Repositories
  import opened Contexts

  /** The join `Include` performs for one product row. */
  function Load(db: ProductDb, p: Product): LoadedProduct
  {
    LoadedProduct(p, Lookup(CategorySchema, db.categories, p.categoryId),
                  Lookup(ManufacturerSchema, db.manufacturers, p.manufacturerId),
                  Lookup(PriceSchema, db.prices, p.priceId),
                  Lookup(ProductionSchema, db.productions, p.productionId))
  }

  /** Each attached dependent is a stored row whose key equals the product's foreign key; a
      null key, or a key no row has, leaves the dependent absent. */
  ghost predicate Hydrated(db: ProductDb, lp: LoadedProduct)
  {
    var p := lp.product;
    && (lp.category.Some? ==> lp.category.value in db.categories.rows && p.categoryId == Some(lp.category.value.categoryId))
    && (lp.category.None? <==>
          p.categoryId.None? || forall j :: 0 <= j < |db.categories.rows| ==> Some(db.categories.rows[j].categoryId) != p.categoryId)
    && (lp.manufacturer.Some? ==>
          lp.manufacturer.value in db.manufacturers.rows && p.manufacturerId == Some(lp.manufacturer.value.manufacturerId))
    && (lp.manufacturer.None? <==>
          p.manufacturerId.None? ||
          forall j :: 0 <= j < |db.manufacturers.rows| ==> Some(db.manufacturers.rows[j].manufacturerId) != p.manufacturerId)
    && (lp.price.Some? ==> lp.price.value in db.prices.rows && p.priceId == Some(lp.price.value.priceId))
    && (lp.price.None? <==>
          p.priceId.None? || forall j :: 0 <= j < |db.prices.rows| ==> Some(db.prices.rows[j].priceId) != p.priceId)
    && (lp.production.Some? ==>
          lp.production.value in db.productions.rows && p.productionId == Some(lp.production.value.productionId))
    && (lp.production.None? <==>
          p.productionId.None? ||
          forall j :: 0 <= j < |db.productions.rows| ==> Some(db.productions.rows[j].productionId) != p.productionId)
  }

  /** Load attaches exactly the dependents the product's foreign keys name. */
  lemma LoadHydrates(db: ProductDb, p: Product)
    ensures Load(db, p).product == p && Hydrated(db, Load(db, p))
  {
    LookupFinds(CategorySchema, db.categories, p.categoryId);
    LookupFinds(ManufacturerSchema, db.manufacturers, p.manufacturerId);
    LookupFinds(PriceSchema, db.prices, p.priceId);
    LookupFinds(ProductionSchema, db.productions, p.productionId);
  }

  /** GetAll (ProductRepository.cs:12-29): every product row in store order, each hydrated;
      None when the store throws. The contract states only the pass-through; what each
      loaded product holds is proved by GetAllHydrates and LoadHydrates. */
  function GetAll(db: ProductDb, fault: bool): (r: Option<seq<LoadedProduct>>)
    ensures r.Some? <==> !fault
    ensures r.Some? ==> |r.value| == |db.products.rows|
    ensures r.Some? ==> forall i :: 0 <= i < |r.value| ==> r.value[i] == Load(db, db.products.rows[i])
  {
    if fault then None
    else Some(seq(|db.products.rows|, i requires 0 <= i < |db.products.rows| => Load(db, db.products.rows[i])))
  }

  /** Every product GetAll returns is the stored row at that position with its dependents
      attached as its foreign keys name them. */
  lemma GetAllHydrates(db: ProductDb, i: nat)
    requires i < |db.products.rows|
    ensures GetAll(db, false).Some? && GetAll(db, false).value[i].product == db.products.rows[i]
    ensures Hydrated(db, GetAll(db, false).value[i])
  {
    LoadHydrates(db, db.products.rows[i]);
  }

  /** GetOne (ProductRepository.cs:31-48): the first product satisfying `p`, hydrated; None
      when no product does or the store throws (GetOneHydrates). */
  function GetOne(db: ProductDb, p: Product -> bool, fault: bool): Option<LoadedProduct>
  {
    match Repositories.GetOne(db.products, p, fault)
    case None => None
    case Some(x) => Some(Load(db, x))
  }

  lemma GetOneHydrates(db: ProductDb, p: Product -> bool, fault: bool)
    ensures var r := GetOne(db, p, fault);
      && (r.None? <==> fault || forall j :: 0 <= j < |db.products.rows| ==> !p(db.products.rows[j]))
      && (r.Some? ==> Hydrated(db, r.value))
      && (r.Some? ==>
            exists i :: 0 <= i < |db.products.rows| && db.products.rows[i] == r.value.product && p(r.value.product) &&
                        forall j :: 0 <= j < i ==> !p(db.products.rows[j]))
  {
    GetOneFindsFirst(db.products, p, fault);
    var x := Repositories.GetOne(db.products, p, fault);
    if x.Some? {
      LoadHydrates(db, x.value);
    }
  }

  /** GetOne by ProductId finds the stored product with that key, and, keys being unique,
      exactly that row. */
  lemma GetOneById(db: ProductDb, i: nat)
    requires ValidProductDb(db) && i < |db.products.rows|
    ensures GetOne(db, ProductIdIs(db.products.rows[i].productId), false) == Some(Load(db, db.products.rows[i]))
  {
    var p := db.products.rows[i];
    FirstIndexSpec(db.products.rows, ProductIdIs(p.productId));
    var k := FirstIndex(db.products.rows, ProductIdIs(p.productId)).value;
    assert ProductSchema.key(db.products.rows[k]) == ProductSchema.key(p);
  }
}
