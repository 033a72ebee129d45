/** `ProductService`: creating, editing, deleting and listing the products
    orders are placed against. */
module Catalog {
  import opened Wrappers
  import opened Contracts
  import opened Text
  import opened OrderModel
  import opened OrderProjection

  datatype CatalogReason =
    | NameRequired
    | PriceNotPositive
    | StockNegative
    | ProductExists
    | NameTaken
    | NoSuchProduct(productId: Guid)
    | ProductOrdered
    | NoProducts

  /** The exception class the service throws, with its reason. */
  datatype CatalogError = NotFound(reason: CatalogReason) | Invalid(reason: CatalogReason)

  /** What a successful create or edit leaves behind: the saved store, the
      product as returned, and the events published. */
  datatype Saved = Saved(store: Store, product: Product, events: seq<Event>)

  /** Some product other than `except` carries `name`. */
  predicate NameHeldBy(catalog: map<Guid, Product>, name: string, except: Option<Guid>) {
    exists id :: id in catalog && catalog[id].name == name && Some(id) != except
  }

  /** No two products share a name: the invariant the name checks keep. */
  predicate NamesUnique(catalog: map<Guid, Product>) {
    forall a, b :: a in catalog && b in catalog && catalog[a].name == catalog[b].name ==> a == b
  }

  /** `CreateProductAsync`; the new id and the clock are parameters. */
  function CreateProduct(s: Store, name: string, price: Money, stock: int, productId: Guid, now: Time)
    : (r: Result<Saved, CatalogError>)
    ensures r.Success? <==> !IsBlank(name) && price > 0 && stock >= 0 && !NameHeldBy(s.catalog, name, None)
    ensures IsBlank(name) ==> r == Failure(Invalid(NameRequired))
    ensures !IsBlank(name) && price <= 0 ==> r == Failure(Invalid(PriceNotPositive))
    ensures !IsBlank(name) && price > 0 && stock < 0 ==> r == Failure(Invalid(StockNegative))
    ensures !IsBlank(name) && price > 0 && stock >= 0 && NameHeldBy(s.catalog, name, None) ==>
      r == Failure(Invalid(ProductExists))
    ensures r.Success? ==>
      var p := r.value.product;
      && p == Product(productId, name, price, stock, now, now)
      && ProductValid(p)
      && r.value.store == s.(catalog := s.catalog[productId := p])
      && r.value.events == [ProductCreated(productId, name, price, stock, now)]
  {
    if IsBlank(name) then Failure(Invalid(NameRequired))
    else if price <= 0 then Failure(Invalid(PriceNotPositive))
    else if stock < 0 then Failure(Invalid(StockNegative))
    else if NameHeldBy(s.catalog, name, None) then Failure(Invalid(ProductExists))
    else
      var p := Product(productId, name, price, stock, now, now);
      Success(Saved(s.(catalog := s.catalog[productId := p]), p, [ProductCreated(productId, name, price, stock, now)]))
  }

  /** The product after applying the requested fields: a blank name, an
      absent price or an absent stock leaves the stored value. */
  function Patched(p: Product, name: Option<string>, price: Option<Money>, stock: Option<int>): Product {
    p.(name := if IsNullOrWhiteSpace(name) then p.name else name.value,
       price := price.GetOr(p.price),
       stock := stock.GetOr(p.stock))
  }

  /** The fields a client sees differ. */
  predicate Differs(a: Product, b: Product) {
    a.name != b.name || a.price != b.price || a.stock != b.stock
  }

  /** `EditProductAsync`. Each field is checked and applied in turn; a
      failure part-way saves nothing. The timestamp moves and an event is
      published only when some field actually changes. */
  function EditProduct(s: Store, productId: Guid, name: Option<string>, price: Option<Money>, stock: Option<int>,
                       now: Time): (r: Result<Saved, CatalogError>)
    ensures productId !in s.catalog ==> r == Failure(NotFound(NoSuchProduct(productId)))
    ensures r.Success? <==>
      && productId in s.catalog
      && !(!IsNullOrWhiteSpace(name) && name.value != s.catalog[productId].name
           && NameHeldBy(s.catalog, name.value, Some(productId)))
      && !(price.Some? && price.value <= 0)
      && !(stock.Some? && stock.value < 0)
    ensures r.Success? ==>
      var old_ := s.catalog[productId];
      var p := r.value.product;
      && p.(updatedAt := old_.updatedAt) == Patched(old_, name, price, stock)
      && (Differs(p, old_) ==> p.updatedAt == now && r.value.store == s.(catalog := s.catalog[productId := p])
                               && r.value.events == [ProductUpdated(productId, p.name, p.price, p.stock, now)])
      && (!Differs(p, old_) ==> p == old_ && r.value.store == s && r.value.events == [])
  {
    if productId !in s.catalog then Failure(NotFound(NoSuchProduct(productId)))
    else
      var p := s.catalog[productId];
      var renames := !IsNullOrWhiteSpace(name) && p.name != name.value;
      if renames && NameHeldBy(s.catalog, name.value, Some(productId)) then Failure(Invalid(NameTaken))
      else
        var p1 := if renames then p.(name := name.value) else p;
        var reprices := price.Some? && price.value > 0 && p.price != price.value;
        if !reprices && price.Some? && price.value <= 0 then Failure(Invalid(PriceNotPositive))
        else
          var p2 := if reprices then p1.(price := price.value) else p1;
          var restocks := stock.Some? && stock.value >= 0 && p.stock != stock.value;
          if !restocks && stock.Some? && stock.value < 0 then Failure(Invalid(StockNegative))
          else
            var p3 := if restocks then p2.(stock := stock.value) else p2;
            if renames || reprices || restocks then
              var saved := p3.(updatedAt := now);
              Success(Saved(s.(catalog := s.catalog[productId := saved]), saved,
                            [ProductUpdated(productId, saved.name, saved.price, saved.stock, now)]))
            else Success(Saved(s, p, []))
  }

  /** Some order line references the product. */
  predicate Referenced(s: Store, productId: Guid) {
    exists oid, i :: oid in s.orders && 0 <= i < |s.orders[oid].items| && s.orders[oid].items[i].productId == productId
  }

  /** `DeleteProductAsync`: a product that any order line references stays. */
  function DeleteProduct(s: Store, productId: Guid, now: Time): (r: Result<(Store, seq<Event>), CatalogError>)
    ensures r.Success? <==> productId in s.catalog && !Referenced(s, productId)
    ensures productId !in s.catalog ==> r == Failure(NotFound(NoSuchProduct(productId)))
    ensures productId in s.catalog && Referenced(s, productId) ==> r == Failure(Invalid(ProductOrdered))
    ensures r.Success? ==>
      && r.value.0.orders == s.orders
      && r.value.0.catalog.Keys == s.catalog.Keys - {productId}
      && (forall id :: id in r.value.0.catalog ==> r.value.0.catalog[id] == s.catalog[id])
      && r.value.1 == [ProductDeleted(productId, s.catalog[productId].name, now)]
  {
    if productId !in s.catalog then Failure(NotFound(NoSuchProduct(productId)))
    else if Referenced(s, productId) then Failure(Invalid(ProductOrdered))
    else Success((s.(catalog := s.catalog - {productId}), [ProductDeleted(productId, s.catalog[productId].name, now)]))
  }

  /** `GetAllAsync`: the projection of every product, keyed by id. */
  function GetAllProducts(s: Store): (r: Result<map<Guid, ProductView>, CatalogError>)
    ensures r.Failure? <==> |s.catalog| == 0
    ensures r.Failure? ==> r.error == NotFound(NoProducts)
    ensures r.Success? ==> r.value.Keys == s.catalog.Keys
    ensures r.Success? ==> forall id :: id in r.value ==>
      r.value[id].productId == s.catalog[id].productId
      && r.value[id].name == s.catalog[id].name && r.value[id].price == s.catalog[id].price
      && r.value[id].stock == s.catalog[id].stock
  {
    if |s.catalog| == 0 then Failure(NotFound(NoProducts))
    else Success(map id | id in s.catalog :: ProductViewOf(s.catalog[id]))
  }

  /** `GetProductByIdAsync`: the projection's id is matched, which in a
      valid store is the catalog key. */
  function GetProductById(s: Store, productId: Guid): (r: Result<ProductView, CatalogError>)
    ensures r.Failure? <==> productId !in s.catalog
    ensures r.Failure? ==> r.error == NotFound(NoSuchProduct(productId))
    ensures r.Success? ==>
      r.value.productId == s.catalog[productId].productId
      && r.value.name == s.catalog[productId].name && r.value.price == s.catalog[productId].price
      && r.value.stock == s.catalog[productId].stock
  {
    if productId !in s.catalog then Failure(NotFound(NoSuchProduct(productId)))
    else Success(ProductViewOf(s.catalog[productId]))
  }

  // ---------------------------------------------------------------------
  // Invariants
  // ---------------------------------------------------------------------

  /** Creation keeps the store valid and product names unique. */
  lemma CreateProductKeepsInvariants(s: Store, name: string, price: Money, stock: int, productId: Guid, now: Time)
    requires Valid(s) && NamesUnique(s.catalog)
    requires CreateProduct(s, name, price, stock, productId, now).Success?
    ensures Valid(CreateProduct(s, name, price, stock, productId, now).value.store)
    ensures NamesUnique(CreateProduct(s, name, price, stock, productId, now).value.store.catalog)
  {
    var c := CreateProduct(s, name, price, stock, productId, now).value.store.catalog;
    forall a, b | a in c && b in c && a != b
      ensures c[a].name != c[b].name
    {
      if a == productId {
        assert s.catalog[b].name != name;
      } else if b == productId {
        assert s.catalog[a].name != name;
      }
    }
    forall id | id in s.orders
      ensures OrderWellFormed(s.orders[id], c)
    {
      assert OrderWellFormed(s.orders[id], s.catalog);
    }
  }

  /** Editing keeps the store valid and product names unique. */
  lemma EditProductKeepsInvariants(s: Store, productId: Guid, name: Option<string>, price: Option<Money>,
                                   stock: Option<int>, now: Time)
    requires Valid(s) && NamesUnique(s.catalog)
    requires EditProduct(s, productId, name, price, stock, now).Success?
    ensures Valid(EditProduct(s, productId, name, price, stock, now).value.store)
    ensures NamesUnique(EditProduct(s, productId, name, price, stock, now).value.store.catalog)
  {
    var r := EditProduct(s, productId, name, price, stock, now).value;
    var c := r.store.catalog;
    if r.store != s {
      var p := r.product;
      forall a, b | a in c && b in c && a != b
        ensures c[a].name != c[b].name
      {
        if a == productId && p.name != s.catalog[productId].name {
          assert s.catalog[b].name != p.name;
        } else if b == productId && p.name != s.catalog[productId].name {
          assert s.catalog[a].name != p.name;
        }
      }
      forall id | id in s.orders
        ensures OrderWellFormed(s.orders[id], c)
      {
        assert OrderWellFormed(s.orders[id], s.catalog);
      }
    }
  }

  /** Deleting an unreferenced product keeps every order's products in the
      catalog, so the store stays valid. */
  lemma DeleteProductKeepsValid(s: Store, productId: Guid, now: Time)
    requires Valid(s)
    requires DeleteProduct(s, productId, now).Success?
    ensures Valid(DeleteProduct(s, productId, now).value.0)
  {
    var c := DeleteProduct(s, productId, now).value.0.catalog;
    forall id | id in s.orders
      ensures OrderWellFormed(s.orders[id], c)
    {
      var o := s.orders[id];
      forall i | 0 <= i < |o.items|
        ensures o.items[i].productId in c
      {
        assert o.items[i].productId != productId;
      }
    }
  }
}
