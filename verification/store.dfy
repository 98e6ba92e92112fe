/** The Express server (server.js): whole-document save and read of users, orders and
    products, the category text file with its five defaults, the image upload with its
    allow-list filter and size limit, and image deletion. The disk is a map from paths
    relative to the project directory to file contents; a reply is a `Result` whose
    failure is the HTTP status code. */
module Store {
  import opened Wrappers
  import opened Text
  import opened Seqs
  import opened Catalog
  import opened Users
  import opened Orders
  import opened Categories

  /** The three JSON documents, held as the values `JSON.stringify` wrote. */
  datatype Doc = UsersDoc(users: seq<User>) | OrdersDoc(orders: seq<Order>) | ProductsDoc(products: seq<Product>)

  datatype Content = Json(doc: Doc) | Text(text: string) | Image(size: nat)

  type Files = map<string, Content>

  /** A request's effect: the files afterwards and the reply. */
  datatype Handled<+T> = Handled(files: Files, reply: Result<T, nat>)

  const UsersPath := "data/users.txt"
  const OrdersPath := "data/orders.txt"
  const ProductsPath := "data/products.txt"
  const CategoryPath := "data/category.txt"

  /** The directories the server creates at start-up (and the project directory itself). */
  const Directories: set<string> := {"", "images", "data"}

  /** The categories `/get-categories` answers when there is no category file. */
  const DefaultCategories: seq<string> :=
    ["Herbal Oils", "Ayurvedic Powders", "Herbal Tablets", "Ayurvedic Creams", "Herbal Teas"]

  datatype Kind = UsersKind | OrdersKind | ProductsKind

  function PathOf(k: Kind): string {
    match k
    case UsersKind => UsersPath
    case OrdersKind => OrdersPath
    case ProductsKind => ProductsPath
  }

  function KindOf(d: Doc): Kind {
    match d
    case UsersDoc(_) => UsersKind
    case OrdersDoc(_) => OrdersKind
    case ProductsDoc(_) => ProductsKind
  }

  function EmptyDoc(k: Kind): (d: Doc)
    ensures KindOf(d) == k
  {
    match k
    case UsersKind => UsersDoc([])
    case OrdersKind => OrdersDoc([])
    case ProductsKind => ProductsDoc([])
  }

  /** Every file the server owns holds what the server writes there. */
  predicate WellFormed(fs: Files) {
    && (forall k: Kind :: PathOf(k) in fs ==> fs[PathOf(k)].Json? && KindOf(fs[PathOf(k)].doc) == k)
    && (CategoryPath in fs ==> fs[CategoryPath].Text?)
  }

  // ---------------------------------------------------------------- JSON documents

  /** A save endpoint: the body's array overwrites the whole file. A body without the
      array fails in `writeFileSync` with 500 and writes nothing. */
  function SaveDoc(fs: Files, k: Kind, d: Option<Doc>): (h: Handled<()>)
    requires d.Some? ==> KindOf(d.value) == k
    ensures d.None? ==> h.files == fs && h.reply == Failure(500)
    ensures d.Some? ==> h.reply.Success? && PathOf(k) in h.files && h.files[PathOf(k)] == Json(d.value)
    ensures WellFormed(fs) ==> WellFormed(h.files)
    ensures forall p :: p != PathOf(k) ==> (p in h.files <==> p in fs) && (p in fs ==> h.files[p] == fs[p])
  {
    if d.None? then Handled(fs, Failure(500))
    else Handled(fs[PathOf(k) := Json(d.value)], Success(()))
  }

  /** A read endpoint: the parsed file, an empty list when there is no file, and 500 when
      the file does not parse as that document. */
  function GetDoc(fs: Files, k: Kind): (r: Result<Doc, nat>)
    ensures PathOf(k) !in fs ==> r == Success(EmptyDoc(k))
    ensures r.Success? ==> KindOf(r.value) == k
    ensures WellFormed(fs) ==> r.Success?
  {
    if PathOf(k) !in fs then Success(EmptyDoc(k))
    else match fs[PathOf(k)]
      case Json(d) => if KindOf(d) == k then Success(d) else Failure(500)
      case _ => Failure(500)
  }

  /** `/save-users`. */
  function SaveUsers(fs: Files, users: Option<seq<User>>): (h: Handled<()>)
    ensures users.None? <==> h.reply.Failure?
    ensures WellFormed(fs) ==> WellFormed(h.files)
    ensures forall p :: p != UsersPath ==> (p in h.files <==> p in fs) && (p in fs ==> h.files[p] == fs[p])
  {
    SaveDoc(fs, UsersKind, if users.None? then None else Some(UsersDoc(users.value)))
  }

  /** `/get-users`. */
  function GetUsers(fs: Files): (r: Result<seq<User>, nat>)
    ensures UsersPath !in fs ==> r == Success([])
    ensures WellFormed(fs) ==> r.Success?
  {
    match GetDoc(fs, UsersKind)
    case Success(d) => Success(d.users)
    case Failure(code) => Failure(code)
  }

  /** `/save-orders`. */
  function SaveOrders(fs: Files, orders: Option<seq<Order>>): (h: Handled<()>)
    ensures orders.None? <==> h.reply.Failure?
    ensures WellFormed(fs) ==> WellFormed(h.files)
    ensures forall p :: p != OrdersPath ==> (p in h.files <==> p in fs) && (p in fs ==> h.files[p] == fs[p])
  {
    SaveDoc(fs, OrdersKind, if orders.None? then None else Some(OrdersDoc(orders.value)))
  }

  /** `/get-orders`. */
  function GetOrders(fs: Files): (r: Result<seq<Order>, nat>)
    ensures OrdersPath !in fs ==> r == Success([])
    ensures WellFormed(fs) ==> r.Success?
  {
    match GetDoc(fs, OrdersKind)
    case Success(d) => Success(d.orders)
    case Failure(code) => Failure(code)
  }

  /** `/save-products`. */
  function SaveProducts(fs: Files, products: Option<seq<Product>>): (h: Handled<()>)
    ensures products.None? <==> h.reply.Failure?
    ensures WellFormed(fs) ==> WellFormed(h.files)
    ensures forall p :: p != ProductsPath ==> (p in h.files <==> p in fs) && (p in fs ==> h.files[p] == fs[p])
  {
    SaveDoc(fs, ProductsKind, if products.None? then None else Some(ProductsDoc(products.value)))
  }

  /** `/get-products`. */
  function GetProducts(fs: Files): (r: Result<seq<Product>, nat>)
    ensures ProductsPath !in fs ==> r == Success([])
    ensures WellFormed(fs) ==> r.Success?
  {
    match GetDoc(fs, ProductsKind)
    case Success(d) => Success(d.products)
    case Failure(code) => Failure(code)
  }

  /** Reading what was just saved gives it back, for each of the three documents. */
  lemma SaveThenGet(fs: Files, users: seq<User>, orders: seq<Order>, products: seq<Product>)
    ensures GetUsers(SaveUsers(fs, Some(users)).files) == Success(users)
    ensures GetOrders(SaveOrders(fs, Some(orders)).files) == Success(orders)
    ensures GetProducts(SaveProducts(fs, Some(products)).files) == Success(products)
  {
  }

  /** Saving one document leaves the reads of the others as they were. */
  lemma SavesAreIndependent(fs: Files, users: Option<seq<User>>, orders: Option<seq<Order>>)
    ensures GetOrders(SaveUsers(fs, users).files) == GetOrders(fs)
    ensures GetProducts(SaveUsers(fs, users).files) == GetProducts(fs)
    ensures GetCategories(SaveUsers(fs, users).files) == GetCategories(fs)
    ensures GetUsers(SaveOrders(fs, orders).files) == GetUsers(fs)
    ensures GetProducts(SaveOrders(fs, orders).files) == GetProducts(fs)
  {
    assert UsersPath != OrdersPath && UsersPath != ProductsPath && UsersPath != CategoryPath;
    assert OrdersPath != ProductsPath;
  }

  /** A fresh server, with no data files, answers empty lists and the default categories. */
  lemma FreshServer()
    ensures GetUsers(map[]) == Success([])
    ensures GetOrders(map[]) == Success([])
    ensures GetProducts(map[]) == Success([])
    ensures GetCategories(map[]) == Success(DefaultCategories)
  {
  }

  // ---------------------------------------------------------------- categories

  /** `/save-categories`: the names joined by newlines. A body without the array fails in
      `join` with 500 and writes nothing. */
  function SaveCategories(fs: Files, cats: Option<seq<string>>): (h: Handled<()>)
    ensures cats.None? ==> h.files == fs && h.reply == Failure(500)
    ensures cats.Some? ==> h.reply.Success? && CategoryPath in h.files && h.files[CategoryPath] == Text(Encode(cats.value))
    ensures WellFormed(fs) ==> WellFormed(h.files)
    ensures forall p :: p != CategoryPath ==> (p in h.files <==> p in fs) && (p in fs ==> h.files[p] == fs[p])
  {
    if cats.None? then Handled(fs, Failure(500))
    else Handled(fs[CategoryPath := Text(Encode(cats.value))], Success(()))
  }

  /** `/get-categories`: the non-blank lines of the file, or the five defaults when there
      is none. The file's text is read as it is, so any content is read as lines; the
      JSON documents are not, and a category file holding one is a 500 here. */
  function GetCategories(fs: Files): (r: Result<seq<string>, nat>)
    ensures CategoryPath !in fs ==> r == Success(DefaultCategories)
    ensures r.Success? ==> AllStorable(r.value)
    ensures WellFormed(fs) ==> r.Success?
  {
    if CategoryPath !in fs then
      DefaultCategoriesStorable();
      Success(DefaultCategories)
    else match fs[CategoryPath]
      case Text(t) => Success(Decode(t))
      case _ => Failure(500)
  }

  /** A name starting with a letter and holding no newline is storable. */
  lemma NameStorable(c: string)
    requires |c| > 0 && 'A' <= c[0] <= 'Z'
    requires '\n' !in c
    ensures Storable(c)
  {
    assert !IsSpace(c[0]) && !AllSpace(c);
  }

  lemma DefaultCategoriesStorable()
    ensures AllStorable(DefaultCategories)
  {
    var cats := DefaultCategories;
    forall k | 0 <= k < |cats|
      ensures Storable(cats[k])
    {
      NameStorable(cats[k]);
    }
  }

  /** `/get-categories` right after `/save-categories` decodes the text just written. */
  lemma ReadBackSaved(fs: Files, cats: seq<string>)
    ensures GetCategories(SaveCategories(fs, Some(cats)).files) == Success(Decode(Encode(cats)))
  {
    var files := SaveCategories(fs, Some(cats)).files;
    assert files[CategoryPath] == Text(Encode(cats));
  }

  /** Saved categories read back unchanged when every name is storable. */
  lemma CategoriesRoundTrip(fs: Files, cats: seq<string>)
    requires AllStorable(cats)
    ensures GetCategories(SaveCategories(fs, Some(cats)).files) == Success(cats)
  {
    ReadBackSaved(fs, cats);
    DecodeEncode(cats);
  }

  /** Whatever `/get-categories` answered reads back unchanged when saved again. */
  lemma CategoriesResaved(fs: Files)
    requires GetCategories(fs).Success?
    ensures GetCategories(SaveCategories(fs, Some(GetCategories(fs).value)).files) == GetCategories(fs)
  {
    CategoriesRoundTrip(fs, GetCategories(fs).value);
  }

  /** Blank names are dropped on the way through the file: a saved list of one-line names
      reads back as its non-blank entries. */
  lemma SavedBlanksVanish(fs: Files, cats: seq<string>)
    requires forall k :: 0 <= k < |cats| ==> '\n' !in cats[k]
    ensures GetCategories(SaveCategories(fs, Some(cats)).files) == Success(Filter(cats, NotBlank()))
  {
    ReadBackSaved(fs, cats);
    DecodeEncodeFilters(cats);
  }

  // ---------------------------------------------------------------- upload

  /** The part of the multipart request multer looks at. */
  datatype Upload = Upload(originalName: string, mimeType: string, size: nat)

  /** The upload's reply: the path the product form stores, and the file name. */
  datatype Uploaded = Uploaded(imagePath: string, filename: string)

  const MaxUploadBytes: nat := 5 * 1024 * 1024

  /** The alternatives of the regular expression `/jpeg|jpg|png|gif|webp/`. */
  const AllowedTypes: seq<string> := ["jpeg", "jpg", "png", "gif", "webp"]

  /** `/jpeg|jpg|png|gif|webp/.test(s)`: the expression has no anchors, so it matches
      when any alternative occurs anywhere in `s`. */
  predicate MentionsImageType(s: string) {
    exists k :: 0 <= k < |AllowedTypes| && Contains(s, AllowedTypes[k])
  }

  /** `s.lastIndexOf(c)`, with `None` for `-1`. */
  function LastIndexOf(s: string, c: char): (r: Option<nat>)
    ensures r.None? <==> c !in s
    ensures r.Some? ==> r.value < |s| && s[r.value] == c && forall j :: r.value < j < |s| ==> s[j] != c
    decreases |s|
  {
    if |s| == 0 then None
    else if s[|s| - 1] == c then Some(|s| - 1)
    else
      var r := LastIndexOf(s[..|s| - 1], c);
      assert s == s[..|s| - 1] + [s[|s| - 1]];
      r
  }

  function DropTrailingSlashes(s: string): (r: string)
    ensures |r| <= |s| && r == s[..|r|] && (|r| > 0 ==> r[|r| - 1] != '/')
    decreases |s|
  {
    if |s| > 0 && s[|s| - 1] == '/' then DropTrailingSlashes(s[..|s| - 1]) else s
  }

  /** The last segment of a POSIX path, trailing slashes ignored. */
  function Basename(path: string): (b: string)
    ensures '/' !in b
  {
    var t := DropTrailingSlashes(path);
    match LastIndexOf(t, '/')
    case None => t
    case Some(i) => t[i + 1..]
  }

  /** Node's `path.extname` on POSIX: the base name from its last dot on; empty when there
      is no dot, when the only dot starts the name, and for `..`. */
  function Extname(name: string): (e: string)
    ensures '/' !in e
    ensures e != "" ==> e[0] == '.' && '.' !in e[1..]
  {
    var b := Basename(name);
    match LastIndexOf(b, '.')
    case None => ""
    case Some(k) =>
      if k == 0 || b == ".." then ""
      else
        assert forall j :: 1 <= j < |b[k..]| ==> b[k..][j] == b[k + j];
        b[k..]
  }

  /** The extension of `stem.ext` is `.ext`, whatever dots the stem holds. */
  lemma ExtnameOfName(stem: string, ext: string)
    requires stem != "" && ext != ""
    requires '/' !in stem && '/' !in ext && '.' !in ext
    ensures Extname(stem + "." + ext) == "." + ext
  {
    var name := stem + "." + ext;
    assert name[|name| - 1] == ext[|ext| - 1];
    assert DropTrailingSlashes(name) == name;
    assert forall j :: 0 <= j < |name| ==> name[j] != '/' by {
      forall j | 0 <= j < |name|
        ensures name[j] != '/'
      {
        if j < |stem| { assert name[j] == stem[j]; }
        else if j > |stem| { assert name[j] == ext[j - |stem| - 1]; }
      }
    }
    assert Basename(name) == name;
    assert forall j :: |stem| < j < |name| ==> name[j] == ext[j - |stem| - 1];
    assert name[|stem|] == '.';
    var k := LastIndexOf(name, '.').value;
    assert k == |stem|;
    assert name[k..] == "." + ext;
  }

  /** multer's `fileFilter`: both the lower-cased extension and the MIME type must mention
      an image type. */
  predicate FileFilter(f: Upload) {
    MentionsImageType(ToLower(Extname(f.originalName))) && MentionsImageType(f.mimeType)
  }

  /** The name multer's `filename` callback gives a stored upload: the time, a dash, the
      random suffix, and the original extension. */
  function StoredName(f: Upload, now: nat, random: nat): (name: string)
    ensures '/' !in name && name != "" && name[0] != '.'
  {
    var digits := Decimal(now);
    assert '/' !in digits by {
      assert forall i :: 0 <= i < |digits| ==> digits[i] != '/';
    }
    digits + "-" + Decimal(random) + Extname(f.originalName)
  }

  /** `/upload-image`: no file is a 400; a file the filter refuses, or one over 5 MiB,
      fails with 500 and stores nothing; otherwise it is stored under `images/` and the
      reply gives its path. */
  function UploadImage(fs: Files, file: Option<Upload>, now: nat, random: nat): (h: Handled<Uploaded>)
    ensures file.None? ==> h.files == fs && h.reply == Failure(400)
    ensures file.Some? && !FileFilter(file.value) ==> h.files == fs && h.reply == Failure(500)
    ensures file.Some? && file.value.size > MaxUploadBytes ==> h.files == fs && h.reply.Failure?
    ensures h.reply.Success? <==> file.Some? && FileFilter(file.value) && file.value.size <= MaxUploadBytes
    ensures h.reply.Success? ==>
      var name := StoredName(file.value, now, random);
      && h.reply.value == Uploaded("images/" + name, name)
      && h.files == fs["images/" + name := Image(file.value.size)]
    ensures WellFormed(fs) ==> WellFormed(h.files)
  {
    if file.None? then Handled(fs, Failure(400))
    else if !FileFilter(file.value) || file.value.size > MaxUploadBytes then Handled(fs, Failure(500))
    else
      var name := StoredName(file.value, now, random);
      ImageKeysAreNotData(name);
      Handled(fs["images/" + name := Image(file.value.size)], Success(Uploaded("images/" + name, name)))
  }

  /** Files under `images/` are never the server's data files. */
  lemma ImageKeysAreNotData(name: string)
    ensures forall k: Kind :: PathOf(k) != "images/" + name
    ensures CategoryPath != "images/" + name
  {
    var key := "images/" + name;
    assert key[0] == 'i';
    assert forall k: Kind :: PathOf(k)[0] == 'd';
    assert CategoryPath[0] == 'd';
  }

  /** The allow-list is unanchored: an extension or MIME type that merely contains an
      image type passes, such as `.phpng` or `text/x-png-script`. */
  lemma FilterIsUnanchored()
    ensures MentionsImageType(".phpng")
    ensures MentionsImageType("text/x-png-script")
  {
    assert OccursAt(".phpng", AllowedTypes[2], 3);
    assert OccursAt("text/x-png-script", AllowedTypes[2], 7);
  }

  // ---------------------------------------------------------------- image deletion

  /** POSIX path normalisation of `path.join`: empty and `.` segments vanish and `..`
      drops the segment before it. `None` when the path climbs above the project
      directory, which the files here do not cover. */
  function Normalize(segments: seq<string>, stack: seq<string>): Option<seq<string>>
    decreases |segments|
  {
    if |segments| == 0 then Some(stack)
    else if segments[0] == "" || segments[0] == "." then Normalize(segments[1..], stack)
    else if segments[0] == ".." then
      if |stack| == 0 then None else Normalize(segments[1..], stack[..|stack| - 1])
    else Normalize(segments[1..], stack + [segments[0]])
  }

  /** `path.join(__dirname, 'images', filename)`, relative to the project directory. */
  function ImagePath(filename: string): Option<string> {
    match Normalize(Split("images/" + filename, '/'), [])
    case None => None
    case Some(segments) => Some(Join(segments, '/'))
  }

  /** `/delete-image/:filename` as written: whatever `filename` resolves to is unlinked if
      it exists. A directory cannot be unlinked (500); a missing file is a 404. */
  function DeleteImage(fs: Files, filename: string): (h: Handled<()>)
    ensures h.reply.Success? ==> exists key :: key in fs && h.files == fs - {key}
    ensures h.reply.Failure? ==> h.files == fs
    ensures WellFormed(fs) ==> WellFormed(h.files)
  {
    match ImagePath(filename)
    case None => Handled(fs, Failure(404))
    case Some(key) =>
      if key in Directories then Handled(fs, Failure(500))
      else if key in fs then Handled(fs - {key}, Success(()))
      else Handled(fs, Failure(404))
  }

  /** Splitting four separator-free pieces joined by `/` gives the pieces back. */
  lemma {:induction false} SplitPieces(a: string, b: string, c: string, d: string)
    requires '/' !in a && '/' !in b && '/' !in c && '/' !in d
    ensures Split(a + ['/'] + (b + ['/'] + (c + ['/'] + d)), '/') == [a, b, c, d]
  {
    var cd := c + ['/'] + d;
    var bcd := b + ['/'] + cd;
    SplitWithoutSeparator(d, '/');
    SplitAfterPiece(c, '/', d);
    assert Split(cd, '/') == [c, d];
    SplitAfterPiece(b, '/', cd);
    assert Split(bcd, '/') == [b, c, d];
    SplitAfterPiece(a, '/', bcd);
  }

  /** The segments of `images/../data/users.txt` normalise to `data/users.txt`. */
  lemma NormalizeClimbsOut()
    ensures Normalize(["images", "..", "data", "users.txt"], []) == Some(["data", "users.txt"])
  {
    var segs := ["images", "..", "data", "users.txt"];
    assert segs[1..] == ["..", "data", "users.txt"];
    assert segs[2..] == ["data", "users.txt"];
    assert segs[3..] == ["users.txt"];
    assert [] + ["data"] == ["data"];
    assert ["data"] + ["users.txt"] == ["data", "users.txt"];
    assert Normalize(segs[3..], ["data"]) == Some(["data", "users.txt"]);
    assert Normalize(segs[2..], []) == Some(["data", "users.txt"]);
    assert Normalize(segs[1..], ["images"]) == Some(["data", "users.txt"]);
  }

  /** The route takes a decoded parameter, so `..%2Fdata%2Fusers.txt` reaches the data
      directory: deleting the "image" `../data/users.txt` deletes the user file. */
  lemma DeleteImageEscapes(fs: Files)
    requires UsersPath in fs
    ensures DeleteImage(fs, "../data/users.txt") == Handled(fs - {UsersPath}, Success(()))
  {
    ImagePathEscapes();
    assert UsersPath !in Directories;
  }

  /** `path.join('images', '../data/users.txt')` is the users file. */
  lemma ImagePathEscapes()
    ensures ImagePath("../data/users.txt") == Some(UsersPath)
  {
    SplitEscape();
    NormalizeClimbsOut();
    JoinUsersPath();
  }

  /** The joined path splits into four segments, one of them `..`. */
  lemma SplitEscape()
    ensures Split("images/" + "../data/users.txt", '/') == ["images", "..", "data", "users.txt"]
  {
    assert "images/" + "../data/users.txt" == "images" + ['/'] + (".." + ['/'] + ("data" + ['/'] + "users.txt"));
    SplitPieces("images", "..", "data", "users.txt");
  }

  /** The two segments left after normalising join to the users file's path. */
  lemma JoinUsersPath()
    ensures Join(["data", "users.txt"], '/') == UsersPath
  {
    assert Join(["users.txt"], '/') == "users.txt";
  }

  /** A file name the route should accept: one path segment, not a directory alias. */
  predicate PlainName(filename: string) {
    '/' !in filename && filename != "" && filename != "." && filename != ".."
  }

  /** `/delete-image/:filename` confined to the images directory: any name that is not one
      plain segment is refused with 400. */
  function DeleteImageSafe(fs: Files, filename: string): (h: Handled<()>)
    ensures !PlainName(filename) ==> h == Handled(fs, Failure(400))
    ensures h.reply.Success? <==> PlainName(filename) && "images/" + filename in fs
    ensures h.reply.Success? ==> h.files == fs - {"images/" + filename}
    ensures h.reply.Failure? ==> h.files == fs
    ensures forall key :: key in fs && key !in h.files ==> |key| > 7 && key[..7] == "images/"
  {
    if !PlainName(filename) then Handled(fs, Failure(400))
    else
      var key := "images/" + filename;
      assert key[..7] == "images/";
      if key in fs then Handled(fs - {key}, Success(())) else Handled(fs, Failure(404))
  }

  /** On plain names, the confined route does what the route as written does. */
  lemma DeleteImageSafeAgrees(fs: Files, filename: string)
    requires PlainName(filename)
    ensures DeleteImageSafe(fs, filename) == DeleteImage(fs, filename)
  {
    SplitAfterPiece("images", '/', filename);
    SplitWithoutSeparator(filename, '/');
    assert "images/" + filename == "images" + ['/'] + filename;
    var segs := ["images", filename];
    assert segs[1..] == [filename];
    assert [] + ["images"] == ["images"];
    assert ["images"] + [filename] == ["images", filename];
    assert Normalize([filename], ["images"]) == Some(["images", filename]);
    assert Normalize(segs, []) == Some(["images", filename]);
    assert Join(["images", filename], '/') == "images/" + filename;
    assert "images/" + filename !in Directories by {
      assert |"images/" + filename| > 7;
    }
  }

  /** An uploaded image can be deleted through the confined route by the name the upload
      replied with, which leaves the files as they were before the upload. */
  lemma UploadThenDelete(fs: Files, file: Upload, now: nat, random: nat)
    requires UploadImage(fs, Some(file), now, random).reply.Success?
    requires "images/" + StoredName(file, now, random) !in fs
    ensures
      var h := UploadImage(fs, Some(file), now, random);
      var d := DeleteImageSafe(h.files, h.reply.value.filename);
      d.reply.Success? && d.files == fs
  {
    var name := StoredName(file, now, random);
    var key := "images/" + name;
    assert name != "." && name != "..";
    var h := UploadImage(fs, Some(file), now, random);
    assert h.reply.value.filename == name;
    assert h.files == fs[key := Image(file.size)];
    StoreThenRemove(fs, key, Image(file.size));
    var d := DeleteImageSafe(h.files, name);
    assert d.reply.Success? && d.files == h.files - {key};
  }

  /** Storing a new key and removing it again gives the files back. */
  lemma StoreThenRemove(fs: Files, key: string, c: Content)
    requires key !in fs
    ensures fs[key := c] - {key} == fs
  {
  }
}
