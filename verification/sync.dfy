/** How the browser reconciles its stored lists with the server's documents when a page
    loads: script.js `loadUsersFromServer`, `loadOrdersFromServer`,
    `loadProductsFromServer`, and admin.js `loadProductsFromServer`. The three rules
    differ, and the lemmas at the end set them side by side. */
module Sync {
  import opened Wrappers
  import opened Catalog

  /** What a `GET` for one document gave the page: no answer at all (the fetch or the
      JSON parse threw), an answer with `success: false`, or the stored list. */
  datatype Reply<+T> = Unreachable | ServerFailed | Fetched(docs: seq<T>)

  /** The server holds a non-empty list. */
  predicate HasDocs<T>(reply: Reply<T>) {
    reply.Fetched? && |reply.docs| > 0
  }

  /** Users and orders: the server copy replaces the local one only when the server sent
      a non-empty list and the local list is empty. */
  function AdoptIfEmpty<T>(local: seq<T>, reply: Reply<T>): (r: seq<T>)
    ensures |local| > 0 ==> r == local
    ensures !HasDocs(reply) ==> r == local
    ensures |local| == 0 && HasDocs(reply) ==> r == reply.docs
    ensures |r| > 0 <==> |local| > 0 || HasDocs(reply)
  {
    if reply.Fetched? && |reply.docs| > 0 && |local| == 0 then reply.docs else local
  }

  /** The storefront's product load: the list the page shows (and keeps in browser
      storage), and the list it pushes to the server, if any. */
  datatype ProductLoad = ProductLoad(products: seq<Product>, push: Option<seq<Product>>)

  /** Storefront products: a non-empty server list wins; otherwise the local list, or,
      when that is empty too, the eight built-in products, which are also pushed to the
      server. An unreachable server leaves the local list as it is, even when empty. */
  function LoadProducts(local: seq<Product>, reply: Reply<Product>): (r: ProductLoad)
    ensures HasDocs(reply) ==> r == ProductLoad(reply.docs, None)
    ensures reply.Unreachable? ==> r == ProductLoad(local, None)
    ensures !HasDocs(reply) && !reply.Unreachable? && |local| > 0 ==> r == ProductLoad(local, None)
    ensures !HasDocs(reply) && !reply.Unreachable? && |local| == 0 ==>
      r == ProductLoad(DefaultProducts, Some(DefaultProducts))
    ensures r.push.Some? ==> r.push.value == r.products
  {
    if reply.Unreachable? then ProductLoad(local, None)
    else if reply.Fetched? && |reply.docs| > 0 then ProductLoad(reply.docs, None)
    else if |local| == 0 then ProductLoad(DefaultProducts, Some(DefaultProducts))
    else ProductLoad(local, None)
  }

  /** Admin products: a non-empty server list overwrites the local one; anything else
      keeps the local list. The admin page never falls back to the built-in products. */
  function AdminLoadProducts(local: seq<Product>, reply: Reply<Product>): (r: seq<Product>)
    ensures HasDocs(reply) ==> r == reply.docs
    ensures !HasDocs(reply) ==> r == local
  {
    if reply.Fetched? && |reply.docs| > 0 then reply.docs else local
  }

  /** Products on the storefront side are never left empty unless the server could not
      be reached at all. */
  lemma StorefrontProductsNonEmpty(local: seq<Product>, reply: Reply<Product>)
    requires !reply.Unreachable?
    ensures |LoadProducts(local, reply).products| > 0
  {
    DefaultProductsNonEmpty();
  }

  lemma DefaultProductsNonEmpty()
    ensures |DefaultProducts| == 8
  {
  }

  /** With a non-empty local copy the three rules part ways: users and orders keep the
      local list whatever the server holds, while both product rules take the server's. */
  lemma RulesDisagreeOnNonEmptyLocal(local: seq<Product>, server: seq<Product>)
    requires |local| > 0 && |server| > 0
    ensures AdoptIfEmpty(local, Fetched(server)) == local
    ensures LoadProducts(local, Fetched(server)).products == server
    ensures AdminLoadProducts(local, Fetched(server)) == server
  {
  }

  /** The admin page and the storefront agree whenever the storefront does not install
      the built-in products. */
  lemma AdminAgreesWithStorefront(local: seq<Product>, reply: Reply<Product>)
    requires LoadProducts(local, reply).push.None?
    ensures AdminLoadProducts(local, reply) == LoadProducts(local, reply).products
  {
  }

  /** Adopting is idempotent: a second load with the same reply changes nothing. */
  lemma AdoptIfEmptyIdempotent<T>(local: seq<T>, reply: Reply<T>)
    ensures AdoptIfEmpty(AdoptIfEmpty(local, reply), reply) == AdoptIfEmpty(local, reply)
  {
  }

  /** Loading products twice with the same reply settles after the first load. */
  lemma LoadProductsIdempotent(local: seq<Product>, reply: Reply<Product>)
    ensures LoadProducts(LoadProducts(local, reply).products, reply).products
         == LoadProducts(local, reply).products
  {
    DefaultProductsNonEmpty();
  }
}
