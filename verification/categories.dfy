/** The category list of the admin panel (admin.js `addCategory`, `editCategory`,
    `deleteCategory`), its newline-separated text file (server.js `/save-categories`,
    `/get-categories`), and the dropdown values made from it. Each edit works on the list
    just read from the server; its outcome is either nothing, a warning, or the list to
    save. */
module Categories {
  import opened Wrappers
  import opened Text
  import opened Seqs

  datatype Refusal = BlankName | DuplicateName

  /** `Ignored`: the handler returns without a word; `Refused`: a warning and nothing
      saved; `Saved`: the list posted back to the server. */
  datatype Outcome = Ignored | Refused(why: Refusal) | Saved(categories: seq<string>)

  /** The names compared without case, as `a.toLowerCase() === b.toLowerCase()`. */
  predicate SameName(a: string, b: string) {
    ToLower(a) == ToLower(b)
  }

  /** No two categories share a name up to case. */
  predicate NoCaseDuplicates(cats: seq<string>) {
    forall i, j :: 0 <= i < j < |cats| ==> !SameName(cats[i], cats[j])
  }

  /** Some category other than the one at `skip` has `name` up to case. */
  predicate NameTaken(cats: seq<string>, name: string, skip: int) {
    exists i :: 0 <= i < |cats| && i != skip && SameName(cats[i], name)
  }

  /** `addCategory`: a blank name is refused, so is one already present up to case;
      otherwise the trimmed name is appended. */
  function AddCategory(cats: seq<string>, input: string): (r: Outcome)
    ensures r != Ignored
    ensures r == Refused(BlankName) <==> IsBlank(input)
    ensures r == Refused(DuplicateName) <==> !IsBlank(input) && NameTaken(cats, Trim(input), -1)
    ensures r.Saved? ==> r.categories == cats + [Trim(input)] && !IsBlank(r.categories[|cats|])
  {
    var name := Trim(input);
    if name == "" then Refused(BlankName)
    else if NameTaken(cats, name, -1) then Refused(DuplicateName)
    else Saved(cats + [name])
  }

  /** `categories[index] = name`. Past the end JavaScript leaves holes, which the server's
      `join` writes as empty lines. */
  function Assign(cats: seq<string>, index: nat, name: string): (r: seq<string>)
    ensures |r| == if index < |cats| then |cats| else index + 1
    ensures r[index] == name
    ensures forall j :: 0 <= j < |cats| && j != index ==> r[j] == cats[j]
    ensures forall j :: |cats| <= j < |r| && j != index ==> r[j] == ""
  {
    if index < |cats| then cats[index := name]
    else cats + seq(index - |cats|, _ => "") + [name]
  }

  /** `editCategory`: `newName` is the prompt's answer, `None` when dismissed. A blank
      answer or one that trims to the old name does nothing; a name any OTHER category
      has up to case is refused; otherwise the trimmed name goes to position `index`. */
  function EditCategory(cats: seq<string>, index: nat, oldName: string, newName: Option<string>): (r: Outcome)
    ensures r == Ignored <==> newName.None? || IsBlank(newName.value) || Trim(newName.value) == oldName
    ensures r == Refused(DuplicateName) <==>
      r != Ignored && NameTaken(cats, Trim(newName.value), index)
    ensures r != Refused(BlankName)
    ensures r.Saved? && index < |cats| ==>
      r.categories == cats[index := Trim(newName.value)] && !IsBlank(r.categories[index])
  {
    if newName.None? || IsBlank(newName.value) then Ignored
    else
      var name := Trim(newName.value);
      if name == oldName then Ignored
      else if NameTaken(cats, name, index) then Refused(DuplicateName)
      else Saved(Assign(cats, index, name))
  }

  /** `deleteCategory`: once confirmed, `splice(index, 1)` removes the element at `index`;
      an index past the end removes nothing. */
  function DeleteCategory(cats: seq<string>, index: nat, confirmed: bool): (r: Outcome)
    ensures !confirmed <==> r == Ignored
    ensures r != Ignored ==> r.Saved?
    ensures r.Saved? && index < |cats| ==>
      && |r.categories| == |cats| - 1
      && (forall j :: 0 <= j < index ==> r.categories[j] == cats[j])
      && (forall j :: index <= j < |r.categories| ==> r.categories[j] == cats[j + 1])
    ensures r.Saved? && index >= |cats| ==> r.categories == cats
  {
    if !confirmed then Ignored
    else if index < |cats| then Saved(cats[..index] + cats[index + 1..])
    else Saved(cats)
  }

  /** Adding keeps the list free of case-insensitive duplicates. */
  lemma AddKeepsNoCaseDuplicates(cats: seq<string>, input: string)
    requires NoCaseDuplicates(cats)
    ensures AddCategory(cats, input).Saved? ==> NoCaseDuplicates(AddCategory(cats, input).categories)
  {
    var r := AddCategory(cats, input);
    if r.Saved? {
      var l := r.categories;
      forall i, j | 0 <= i < j < |l|
        ensures !SameName(l[i], l[j])
      {
        if j == |cats| {
          assert !NameTaken(cats, Trim(input), -1);
          assert l[i] == cats[i];
        }
      }
    }
  }

  /** Renaming in range keeps the list free of case-insensitive duplicates. */
  lemma EditKeepsNoCaseDuplicates(cats: seq<string>, index: nat, oldName: string, newName: Option<string>)
    requires NoCaseDuplicates(cats) && index < |cats|
    ensures EditCategory(cats, index, oldName, newName).Saved? ==>
      NoCaseDuplicates(EditCategory(cats, index, oldName, newName).categories)
  {
    var r := EditCategory(cats, index, oldName, newName);
    if r.Saved? {
      var l := r.categories;
      var name := Trim(newName.value);
      forall i, j | 0 <= i < j < |l|
        ensures !SameName(l[i], l[j])
      {
        if i == index {
          assert !NameTaken(cats, name, index) && l[j] == cats[j];
          assert !SameName(cats[j], name);
        } else if j == index {
          assert !NameTaken(cats, name, index) && l[i] == cats[i];
          assert !SameName(cats[i], name);
        }
      }
    }
  }

  /** Deleting keeps the list free of case-insensitive duplicates. */
  lemma DeleteKeepsNoCaseDuplicates(cats: seq<string>, index: nat, confirmed: bool)
    requires NoCaseDuplicates(cats)
    ensures DeleteCategory(cats, index, confirmed).Saved? ==>
      NoCaseDuplicates(DeleteCategory(cats, index, confirmed).categories)
  {
    var r := DeleteCategory(cats, index, confirmed);
    if r.Saved? && index < |cats| {
      var l := r.categories;
      forall i, j | 0 <= i < j < |l|
        ensures !SameName(l[i], l[j])
      {
        var i', j' := if i < index then i else i + 1, if j < index then j else j + 1;
        assert l[i] == cats[i'] && l[j] == cats[j'] && i' < j';
      }
    }
  }

  // ---------------------------------------------------------------- the category file

  /** A category the file can hold: not blank and on one line. */
  predicate Storable(name: string) {
    !IsBlank(name) && '\n' !in name
  }

  predicate AllStorable(cats: seq<string>) {
    forall k :: 0 <= k < |cats| ==> Storable(cats[k])
  }

  function NotBlank(): string -> bool {
    (s: string) => !IsBlank(s)
  }

  /** What `/save-categories` writes: the names joined by newlines. */
  function Encode(cats: seq<string>): string {
    Join(cats, '\n')
  }

  /** What `/get-categories` answers for a file: its lines, without the blank ones. */
  function Decode(text: string): (cats: seq<string>)
    ensures AllStorable(cats)
  {
    var r := Filter(Split(text, '\n'), NotBlank());
    assert forall k :: 0 <= k < |r| ==> r[k] in Split(text, '\n') && NotBlank()(r[k]);
    r
  }

  /** A list of one-line names reads back as its non-blank names. */
  lemma DecodeEncodeFilters(cats: seq<string>)
    requires forall k :: 0 <= k < |cats| ==> '\n' !in cats[k]
    ensures Decode(Encode(cats)) == Filter(cats, NotBlank())
  {
    if |cats| == 0 {
      EmptyIsBlank();
      assert Split("", '\n') == [""];
    } else {
      SplitJoin(cats, '\n');
    }
  }

  lemma EmptyIsBlank()
    ensures IsBlank("")
  {
    assert Trim("") == "";
  }

  /** A list of storable names reads back exactly as saved. */
  lemma DecodeEncode(cats: seq<string>)
    requires AllStorable(cats)
    ensures Decode(Encode(cats)) == cats
  {
    DecodeEncodeFilters(cats);
    FilterKeepsAll(cats, NotBlank());
  }

  /** Saving what was read and reading again gives the same list. */
  lemma DecodeEncodeDecode(text: string)
    ensures Decode(Encode(Decode(text))) == Decode(text)
  {
    DecodeEncode(Decode(text));
  }

  /** A typed name on one line trims to a storable name. */
  lemma TrimmedStorable(input: string)
    requires '\n' !in input && !IsBlank(input)
    ensures Storable(Trim(input))
  {
    TrimKeepsChars(input);
    var t := Trim(input);
    assert !IsSpace(t[0]);
    assert !AllSpace(t);
  }

  /** Adding keeps every name storable when the typed name is on one line. */
  lemma AddKeepsStorable(cats: seq<string>, input: string)
    requires AllStorable(cats) && '\n' !in input
    ensures AddCategory(cats, input).Saved? ==> AllStorable(AddCategory(cats, input).categories)
  {
    if AddCategory(cats, input).Saved? {
      TrimmedStorable(input);
    }
  }

  /** Renaming in range keeps every name storable when the typed name is on one line. */
  lemma EditKeepsStorable(cats: seq<string>, index: nat, oldName: string, newName: Option<string>)
    requires AllStorable(cats) && index < |cats|
    requires newName.Some? ==> '\n' !in newName.value
    ensures EditCategory(cats, index, oldName, newName).Saved? ==>
      AllStorable(EditCategory(cats, index, oldName, newName).categories)
  {
    var r := EditCategory(cats, index, oldName, newName);
    if r.Saved? {
      var name := Trim(newName.value);
      assert r.categories == cats[index := name];
      TrimmedStorable(newName.value);
      forall k | 0 <= k < |r.categories|
        ensures Storable(r.categories[k])
      {
        if k != index {
          assert r.categories[k] == cats[k];
        }
      }
    }
  }

  /** Deleting keeps every name storable. */
  lemma DeleteKeepsStorable(cats: seq<string>, index: nat, confirmed: bool)
    requires AllStorable(cats)
    ensures DeleteCategory(cats, index, confirmed).Saved? ==>
      AllStorable(DeleteCategory(cats, index, confirmed).categories)
  {
    var d := DeleteCategory(cats, index, confirmed);
    if d.Saved? && index < |cats| {
      forall k | 0 <= k < |d.categories|
        ensures Storable(d.categories[k])
      {
        if k >= index {
          assert d.categories[k] == cats[k + 1];
        }
      }
    }
  }

  /** No entry of `cats + pad + [name]` spans two lines. */
  lemma OneLineEach(cats: seq<string>, pad: seq<string>, name: string)
    requires AllStorable(cats) && Storable(name)
    requires forall k :: 0 <= k < |pad| ==> pad[k] == ""
    ensures forall k :: 0 <= k < |cats + pad + [name]| ==> '\n' !in (cats + pad + [name])[k]
  {
    var l := cats + pad + [name];
    forall k | 0 <= k < |l|
      ensures '\n' !in l[k]
    {
      if k < |cats| {
        assert l[k] == cats[k];
      } else if k < |cats| + |pad| {
        assert l[k] == pad[k - |cats|];
      }
    }
  }

  /** Filtering out the blank entries of `cats + pad + [name]` leaves `cats + [name]`. */
  lemma FilterDropsPad(cats: seq<string>, pad: seq<string>, name: string)
    requires AllStorable(cats) && Storable(name)
    requires forall k :: 0 <= k < |pad| ==> pad[k] == ""
    ensures Filter(cats + pad + [name], NotBlank()) == cats + [name]
  {
    FilterConcat(cats + pad, [name], NotBlank());
    FilterConcat(cats, pad, NotBlank());
    FilterKeepsAll(cats, NotBlank());
    assert Trim("") == "";
    FilterDropsAll(pad, NotBlank());
    FilterKeepsAll([name], NotBlank());
  }

  /** Empty entries between storable names vanish on the way through the file. */
  lemma DecodeDropsEmpty(cats: seq<string>, pad: seq<string>, name: string)
    requires AllStorable(cats) && Storable(name)
    requires forall k :: 0 <= k < |pad| ==> pad[k] == ""
    ensures Decode(Encode(cats + pad + [name])) == cats + [name]
  {
    OneLineEach(cats, pad, name);
    SplitJoin(cats + pad + [name], '\n');
    FilterDropsPad(cats, pad, name);
  }

  /** Renaming at an index past the end writes empty lines that the next read drops, so
      it acts as an append. */
  lemma EditPastEndAppends(cats: seq<string>, index: nat, oldName: string, newName: Option<string>)
    requires AllStorable(cats) && index >= |cats|
    requires newName.Some? ==> '\n' !in newName.value
    requires EditCategory(cats, index, oldName, newName).Saved?
    ensures Decode(Encode(EditCategory(cats, index, oldName, newName).categories))
         == cats + [Trim(newName.value)]
  {
    var name := Trim(newName.value);
    var pad := seq(index - |cats|, _ => "");
    assert EditCategory(cats, index, oldName, newName).categories == cats + pad + [name];
    TrimmedStorable(newName.value);
    DecodeDropsEmpty(cats, pad, name);
  }

  // ---------------------------------------------------------------- dropdown values

  /** One `<option>` of a category dropdown: the slug as value, the name as its text. */
  datatype CategoryOption = CategoryOption(value: string, text: string)

  /** `updateCategoryDropdowns` (and the storefront's `loadCategoriesForFilter`): one
      option per category, in list order, valued by the category's slug. */
  function CategoryOptions(cats: seq<string>): (r: seq<CategoryOption>)
    ensures |r| == |cats|
    ensures forall k :: 0 <= k < |cats| ==> r[k].text == cats[k] && r[k].value == Slug(cats[k])
    ensures forall k :: 0 <= k < |cats| ==> NoSpace(r[k].value) && NoUpper(r[k].value)
  {
    seq(|cats|, k requires 0 <= k < |cats| => CategoryOption(Slug(cats[k]), cats[k]))
  }

  /** Names that differ only up to case give the same dropdown value. */
  lemma SlugIgnoresCase(a: string, b: string)
    requires SameName(a, b)
    ensures Slug(a) == Slug(b)
  {
  }
}
