/** Products: the record, the eight products a fresh storefront starts with, the four
    listing filters (script.js `applyFilters`), and the admin panel's add, edit and
    delete (admin.js `handleAddProduct`, `handleEditProduct`, `deleteProduct`). */
module Catalog {
  import opened Wrappers
  import opened Text
  import opened Seqs
  import opened Pricing

  /** A product. `id` is the `Date.now()` of its creation; `category` is a category slug;
      `price` is in rupees and `discount` in percent. */
  datatype Product = Product(
    id: int,
    name: string,
    category: string,
    price: int,
    discount: int,
    image: string,
    description: string)

  /** A product whose price arithmetic stays in range. */
  predicate WellPriced(p: Product) {
    0 <= p.price && 0 <= p.discount <= 100
  }

  predicate AllWellPriced(ps: seq<Product>) {
    forall k :: 0 <= k < |ps| ==> WellPriced(ps[k])
  }

  /** The listed price of every well-priced product lies between 0 and its list price. */
  lemma ListedPriceInRange(ps: seq<Product>, k: nat)
    requires AllWellPriced(ps) && k < |ps|
    ensures 0 <= DiscountedPrice(ps[k].price, ps[k].discount) <= ps[k].price
  {
    DiscountedPriceBounds(ps[k].price, ps[k].discount);
  }

  function HasId(id: int): Product -> bool {
    (p: Product) => p.id == id
  }

  /** `products.find(p => p.id === id)`. */
  function FindProduct(ps: seq<Product>, id: int): Option<Product> {
    Find(ps, HasId(id))
  }

  /** The eight products the storefront seeds when neither the server nor the browser has
      any (script.js `loadProductsFromServer`). */
  const DefaultProducts: seq<Product> := [
    Product(1, "Rajwadiprash Gold - Ayurvedic Hair Oil", "oils", 799, 25, "",
      "Sugar-free Ayurvedic hair oil enriched with gold, silver & saffron. Natural blend of 21 precious herbs for strong, lustrous and healthy hair growth"),
    Product(2, "Dantmanjan - Triphala Dental Powder", "powders", 450, 15, "",
      "Traditional Ayurvedic dental powder with Triphala for strong teeth and healthy gums. Ancient herbal blend for complete oral care and fresh breath"),
    Product(3, "Ashwagandha Tablets - Premium Quality", "tablets", 1299, 30, "",
      "Premium quality Ashwagandha tablets for stress relief, vitality and overall wellness. Powerful adaptogen for energy, immunity and mental clarity"),
    Product(4, "Triphaladi Guggulu - Ayurvedic Face Cream", "creams", 599, 20, "",
      "Natural Ayurvedic face cream with Triphala and saffron. Enriched with turmeric for glowing, radiant and youthful skin. Suitable for all skin types"),
    Product(5, "Maha Yograj Guggulu - Herbal Tea", "tea", 350, 10, "",
      "Refreshing Ayurvedic herbal tea with holy basil (Tulsi) for immunity boost, digestive health and natural detoxification. Rich in antioxidants"),
    Product(6, "Pushpanjali Ras - Neem Face Pack Powder", "powders", 299, 15, "",
      "Pure natural neem powder face pack for clear, radiant and acne-free skin. Deep cleanses pores and removes impurities for healthy glowing complexion"),
    Product(7, "Vatshekhar Ras - Joint Pain Relief Oil", "oils", 899, 35, "",
      "Traditional Ayurvedic oil blend for effective joint pain relief, improved mobility and flexibility. Helps reduce inflammation and stiffness naturally"),
    Product(8, "Brahmi Capsules - Memory & Brain Tonic", "tablets", 1499, 40, "",
      "Premium Brahmi capsules for enhanced memory, concentration and mental clarity. Ancient Ayurvedic brain tonic for cognitive support and stress relief")
  ]

  lemma DefaultProductsWellPriced()
    ensures |DefaultProducts| == 8 && AllWellPriced(DefaultProducts)
  {
  }

  // ---------------------------------------------------------------- listing filters

  /** The four filter controls: the search text, the category slug (empty for all), the
      price bucket (empty for all) and the minimum discount (`None` for all). */
  datatype Criteria = Criteria(search: string, category: string, priceRange: string, minDiscount: Option<int>)

  const NoCriteria: Criteria := Criteria("", "", "", None)

  /** Case-insensitive substring search over the name, and over the description when
      there is one. */
  predicate MatchesSearch(search: string, p: Product) {
    var term := ToLower(search);
    Contains(ToLower(p.name), term) || (p.description != "" && Contains(ToLower(p.description), term))
  }

  predicate MatchesCategory(category: string, p: Product) {
    category == "" || p.category == category
  }

  predicate MatchesDiscount(minDiscount: Option<int>, p: Product) {
    minDiscount.None? || p.discount >= minDiscount.value
  }

  /** All four filters at once: they are ANDed. */
  predicate Matches(c: Criteria, p: Product) {
    && MatchesSearch(c.search, p)
    && MatchesCategory(c.category, p)
    && InPriceRange(c.priceRange, p.price, p.discount)
    && MatchesDiscount(c.minDiscount, p)
  }

  function Matcher(c: Criteria): Product -> bool {
    (p: Product) => Matches(c, p)
  }

  /** `applyFilters`: the products that pass every filter, in catalogue order. */
  function ApplyFilters(ps: seq<Product>, c: Criteria): (r: seq<Product>)
    ensures forall p :: p in r <==> p in ps && Matches(c, p)
    ensures IsSubsequence(r, ps)
  {
    FilterIsSubsequence(ps, Matcher(c));
    Filter(ps, Matcher(c))
  }

  /** A product that passes is listed as often as it occurs in the catalogue, one that
      fails not at all. */
  lemma ApplyFiltersMultiplicity(ps: seq<Product>, c: Criteria, p: Product)
    ensures multiset(ApplyFilters(ps, c))[p] == if Matches(c, p) then multiset(ps)[p] else 0
  {
    FilterMultiplicity(ps, Matcher(c), p);
  }

  /** With every control empty the whole catalogue is listed: the empty search text
      occurs in every name. */
  lemma ApplyFiltersNoCriteria(ps: seq<Product>)
    ensures ApplyFilters(ps, NoCriteria) == ps
  {
    forall k | 0 <= k < |ps|
      ensures Matcher(NoCriteria)(ps[k])
    {
      assert ToLower("") == "";
      ContainsEmpty(ToLower(ps[k].name));
    }
    FilterKeepsAll(ps, Matcher(NoCriteria));
  }

  // ---------------------------------------------------------------- admin: add, edit, delete

  /** The add/edit form as read: `price` and `discount` are `None` when `parseFloat`
      gives NaN. `imagePath` is the uploaded file's path, `imageUrl` the typed URL. */
  datatype ProductForm = ProductForm(
    name: string,
    category: string,
    price: Option<int>,
    discount: Option<int>,
    imagePath: string,
    imageUrl: string,
    description: string)

  datatype FormError = MissingFields | NegativePrice | DiscountOutOfRange | ProductNotFound

  /** `imagePath || imageUrl.trim()`: an uploaded file wins over a typed URL. */
  function FormImage(f: ProductForm): string {
    if f.imagePath != "" then f.imagePath else Trim(f.imageUrl)
  }

  /** What the form accepts, read as conditions on the fields: a non-blank name, a
      category, an image, a price above 0 and a discount from 1 to 100. Zero fails the
      `!price` and `!discount` tests, so a free product or one without discount cannot be
      saved. */
  predicate Acceptable(f: ProductForm) {
    && !IsBlank(f.name)
    && f.category != ""
    && FormImage(f) != ""
    && f.price.Some? && f.price.value > 0
    && f.discount.Some? && 1 <= f.discount.value <= 100
  }

  /** The validation chain of the add and edit handlers, in the order they test it. */
  function CheckForm(f: ProductForm): (r: Option<FormError>)
    ensures r.None? <==> Acceptable(f)
    ensures r.Some? ==> r.value != ProductNotFound
  {
    if IsBlank(f.name) || f.category == "" || f.price.None? || f.price.value == 0
       || f.discount.None? || f.discount.value == 0 || FormImage(f) == ""
    then Some(MissingFields)
    else if f.price.value < 0 then Some(NegativePrice)
    else if f.discount.value < 0 || f.discount.value > 100 then Some(DiscountOutOfRange)
    else None
  }

  /** The product an accepted form describes, under id `id`. */
  function FromForm(f: ProductForm, id: int): (p: Product)
    requires Acceptable(f)
    ensures WellPriced(p) && p.id == id
    ensures p.name == Trim(f.name) && p.category == f.category
    ensures p.price == f.price.value && p.discount == f.discount.value
    ensures p.image == FormImage(f) && p.image != "" && p.description == Trim(f.description)
  {
    Product(id, Trim(f.name), f.category, f.price.value, f.discount.value, FormImage(f), Trim(f.description))
  }

  /** `handleAddProduct`: an accepted form appends one product with id `now`; a refused
      one leaves the catalogue alone and says why. */
  function AddProduct(ps: seq<Product>, f: ProductForm, now: int): (r: Result<seq<Product>, FormError>)
    ensures r.Success? <==> Acceptable(f)
    ensures r.Failure? ==> Some(r.error) == CheckForm(f)
    ensures r.Success? ==> |r.value| == |ps| + 1 && r.value[..|ps|] == ps
    ensures r.Success? ==> r.value[|ps|] == FromForm(f, now)
    ensures r.Success? ==> r.value[|ps|].id == now && WellPriced(r.value[|ps|])
  {
    match CheckForm(f)
    case Some(e) => Failure(e)
    case None => Success(ps + [FromForm(f, now)])
  }

  /** `handleEditProduct`: an accepted form replaces the first product with id `id` and
      keeps that id; every other product stays as it was. An unknown id is refused. */
  function EditProduct(ps: seq<Product>, id: int, f: ProductForm): (r: Result<seq<Product>, FormError>)
    ensures r.Success? <==> Acceptable(f) && exists k :: 0 <= k < |ps| && ps[k].id == id
    ensures Acceptable(f) && r.Failure? ==> r.error == ProductNotFound
    ensures !Acceptable(f) ==> r.Failure? && Some(r.error) == CheckForm(f)
    ensures r.Success? ==>
      var i := FindIndex(ps, HasId(id)).value;
      && |r.value| == |ps|
      && r.value[i] == FromForm(f, id)
      && (forall j :: 0 <= j < |ps| && j != i ==> r.value[j] == ps[j])
  {
    match CheckForm(f)
    case Some(e) => Failure(e)
    case None =>
      match FindIndex(ps, HasId(id))
      case None => Failure(ProductNotFound)
      case Some(i) => Success(ps[i := FromForm(f, id)])
  }

  /** `deleteProduct`: once confirmed, every product with id `id` goes and the rest keep
      their order. */
  function DeleteProduct(ps: seq<Product>, id: int, confirmed: bool): (r: seq<Product>)
    ensures !confirmed ==> r == ps
    ensures confirmed ==> forall p :: p in r <==> p in ps && p.id != id
    ensures confirmed ==> forall p :: multiset(r)[p] == if p.id != id then multiset(ps)[p] else 0
    ensures IsSubsequence(r, ps)
  {
    if !confirmed then
      SubsequenceOfItself(ps);
      ps
    else
      FilterIsSubsequence(ps, NotId(id));
      forall p | true
        ensures multiset(Filter(ps, NotId(id)))[p] == if p.id != id then multiset(ps)[p] else 0
      {
        FilterMultiplicity(ps, NotId(id), p);
      }
      Filter(ps, NotId(id))
  }

  function NotId(id: int): Product -> bool {
    (p: Product) => p.id != id
  }

  /** Deleting an id nobody has changes nothing. */
  lemma DeleteUnknownId(ps: seq<Product>, id: int)
    requires forall k :: 0 <= k < |ps| ==> ps[k].id != id
    ensures DeleteProduct(ps, id, true) == ps
  {
    FilterKeepsAll(ps, NotId(id));
  }

  /** The admin operations keep every price and discount in range. */
  lemma AdminKeepsWellPriced(ps: seq<Product>, f: ProductForm, now: int, id: int)
    requires AllWellPriced(ps)
    ensures AddProduct(ps, f, now).Success? ==> AllWellPriced(AddProduct(ps, f, now).value)
    ensures EditProduct(ps, id, f).Success? ==> AllWellPriced(EditProduct(ps, id, f).value)
    ensures AllWellPriced(DeleteProduct(ps, id, true))
  {
    var r := DeleteProduct(ps, id, true);
    forall k | 0 <= k < |r|
      ensures WellPriced(r[k])
    {
      assert r[k] in ps;
    }
  }
}
