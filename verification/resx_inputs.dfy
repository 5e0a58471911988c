/** What the WinForms resource generator reads before it builds anything
    (packages/lucide-winforms/scripts/Program.cs, lines 48-94): the index of
    ICO files by icon name and the category list of every icon. Directory
    listings are parameters and JSON documents arrive already parsed. */
module ResxInputs {
  import opened Wrappers
  import opened CiDict

  // ---------------------------------------------------------------------
  // File names
  // ---------------------------------------------------------------------

  /** Position of the last `.` in a name. */
  function LastDot(name: string): (r: Option<nat>)
    ensures r.None? <==> '.' !in name
    ensures r.Some? ==> r.value < |name| && name[r.value] == '.' && '.' !in name[r.value + 1..]
  {
    if |name| == 0 then None
    else if name[|name| - 1] == '.' then Some(|name| - 1)
    else
      var r := LastDot(name[..|name| - 1]);
      assert name == name[..|name| - 1] + [name[|name| - 1]];
      if r.Some? then
        assert name[r.value + 1..] == name[..|name| - 1][r.value + 1..] + [name[|name| - 1]];
        r
      else r
  }

  /** `Path.GetFileNameWithoutExtension` for a bare file name: the part before
      the last `.`, or the whole name when it has none. */
  function WithoutExtension(name: string): (stem: string)
    ensures |stem| <= |name| && stem == name[..|stem|]
    ensures '.' !in name ==> stem == name
  {
    match LastDot(name)
    case None => name
    case Some(i) => name[..i]
  }

  /** The extension, and only the extension, is removed; dots inside the
      stem stay, and `.json` alone has the empty stem. */
  lemma WithoutExtensionOf(base: string, ext: string)
    requires '.' !in ext
    ensures WithoutExtension(base + "." + ext) == base
  {
    var name := base + "." + ext;
    assert name == (base + ".") + ext;
    LastDotSkips(base + ".", ext);
    assert (base + ".")[|base|] == '.';
    assert name[..|base|] == base;
  }

  /** Characters after the last dot do not move it. */
  lemma {:induction false} LastDotSkips(x: string, y: string)
    requires '.' !in y
    ensures LastDot(x + y) == LastDot(x)
  {
    if |y| > 0 {
      var y' := y[..|y| - 1];
      assert (x + y)[..|x + y| - 1] == x + y';
      assert (x + y)[|x + y| - 1] == y[|y| - 1];
      assert y[|y| - 1] in y;
      assert forall c | c in y' :: c in y;
      LastDotSkips(x, y');
    } else {
      assert x + y == x;
    }
  }

  // ---------------------------------------------------------------------
  // The ICO files, by icon name
  // ---------------------------------------------------------------------

  /** Two file names whose stems collide for the dictionary's comparer. */
  predicate StemsClash(fileNames: seq<string>) {
    exists i, j | 0 <= i < j < |fileNames| :: SameKey(WithoutExtension(fileNames[i]), WithoutExtension(fileNames[j]))
  }

  /** `ToDictionary(f => GetFileNameWithoutExtension(f), f => f,
      OrdinalIgnoreCase)` over the ICO listing. `ToDictionary` throws on a key
      it has already seen; the failure carries that key. */
  function IcoFileIndex(fileNames: seq<string>): (r: Result<Dict<string>, string>)
    ensures r.Failure? <==> StemsClash(fileNames)
    ensures r.Success? ==> IndexesFiles(r.value, fileNames)
  {
    if |fileNames| == 0 then Success([])
    else
      var init := fileNames[..|fileNames| - 1];
      var last := fileNames[|fileNames| - 1];
      assert fileNames == init + [last];
      var stem := WithoutExtension(last);
      match IcoFileIndex(init)
      case Failure(e) =>
        StemsClashGrows(init, last);
        Failure(e)
      case Success(d) =>
        if Find(d, stem).Some? then
          ClashFound(init, last, d);
          Failure(stem)
        else
          NoClashExtends(init, last, d);
          Success(d + [Entry(stem, last)])
  }

  /** `d` is the dictionary of the listing: one entry per file, in listing
      order, keyed by the stem, with no two keys equal ignoring case. */
  predicate IndexesFiles(d: Dict<string>, fileNames: seq<string>) {
    && UniqueKeys(d)
    && |d| == |fileNames|
    && forall i | 0 <= i < |fileNames| :: d[i] == Entry(WithoutExtension(fileNames[i]), fileNames[i])
  }

  lemma ClashFound(init: seq<string>, last: string, d: Dict<string>)
    requires IndexesFiles(d, init) && Find(d, WithoutExtension(last)).Some?
    ensures StemsClash(init + [last])
  {
    var all := init + [last];
    var j := Find(d, WithoutExtension(last)).value;
    assert all[j] == init[j] && all[|init|] == last;
    assert SameKey(WithoutExtension(all[j]), WithoutExtension(all[|init|]));
  }

  lemma StemsClashGrows(init: seq<string>, last: string)
    requires StemsClash(init)
    ensures StemsClash(init + [last])
  {
    var i, j :| 0 <= i < j < |init| && SameKey(WithoutExtension(init[i]), WithoutExtension(init[j]));
    assert (init + [last])[i] == init[i] && (init + [last])[j] == init[j];
  }

  lemma NoClashExtends(init: seq<string>, last: string, d: Dict<string>)
    requires !StemsClash(init) && IndexesFiles(d, init)
    requires Find(d, WithoutExtension(last)).None?
    ensures !StemsClash(init + [last])
    ensures IndexesFiles(d + [Entry(WithoutExtension(last), last)], init + [last])
  {
    var all := init + [last];
    var stem := WithoutExtension(last);
    forall i, j | 0 <= i < j < |all| ensures !SameKey(WithoutExtension(all[i]), WithoutExtension(all[j])) {
      assert all[i] == init[i];
      if j < |init| {
        assert all[j] == init[j];
      } else {
        assert d[i].key == WithoutExtension(init[i]);
      }
    }
    var r := d + [Entry(stem, last)];
    forall i, j | 0 <= i < j < |r| ensures !SameKey(r[i].key, r[j].key) {
      if j < |d| {
        assert r[i] == d[i] && r[j] == d[j];
      } else {
        assert r[i] == d[i] && r[j].key == stem;
      }
    }
  }

  // ---------------------------------------------------------------------
  // Category lists from icon metadata
  // ---------------------------------------------------------------------

  /** One element of a `categories` array, as `JsonElement.GetString` sees
      it: a string, a JSON `null` (read as `null`), or any other kind (on
      which `GetString` throws). */
  datatype CategoryItem = CatString(text: string) | CatNull | CatOther

  /** The `categories` property of a metadata document. */
  datatype CategoriesProperty = Absent | NotArray | ArrayOf(items: seq<CategoryItem>)

  /** A metadata file after `JsonDocument.Parse`: not JSON at all, JSON whose
      root is not an object (`TryGetProperty` throws), or an object. */
  datatype MetadataDoc = Unparsable | NotObject | Object(categories: CategoriesProperty)

  datatype MetadataFile = MetadataFile(fileName: string, doc: MetadataDoc)

  /** Every element is a string or null. */
  predicate Readable(items: seq<CategoryItem>) {
    forall i | 0 <= i < |items| :: !items[i].CatOther?
  }

  /** The category names of an array, null and empty entries dropped, or
      `None` when some entry is not a string or null. */
  function ItemStrings(items: seq<CategoryItem>): Option<seq<string>> {
    if |items| == 0 then Some([])
    else
      var rest := ItemStrings(items[1..]);
      match items[0]
      case CatOther => None
      case CatNull => rest
      case CatString(c) =>
        if c == "" || rest.None? then rest else Some([c] + rest.value)
  }

  /** The array reads exactly when every element is a string or null; the
      names read are non-empty strings of the array, no more of them than
      elements. */
  lemma {:induction false} ItemStringsMeaning(items: seq<CategoryItem>)
    ensures ItemStrings(items).Some? <==> Readable(items)
    ensures ItemStrings(items).Some? ==>
      forall c | c in ItemStrings(items).value :: c != "" && CatString(c) in items
    ensures ItemStrings(items).Some? ==> |ItemStrings(items).value| <= |items|
  {
    if |items| > 0 {
      var t := items[1..];
      ItemStringsMeaning(t);
      assert items == [items[0]] + t;
      assert forall i | 1 <= i < |items| :: t[i - 1] == items[i];
      assert forall c | CatString(c) in t :: CatString(c) in items;
    }
  }

  /** Lines 64-79: the category list an icon gets, or `None` when the icon
      gets no entry at all: the file does not parse, its root is not an
      object, it has no `categories` property, the property is not an array,
      or an element is neither a string nor null. */
  function ReadCategories(doc: MetadataDoc): (r: Option<seq<string>>)
    ensures r.Some? <==> doc.Object? && doc.categories.ArrayOf? && Readable(doc.categories.items)
    ensures r.Some? ==> forall c | c in r.value :: c != ""
  {
    if doc.Object? && doc.categories.ArrayOf? then
      ItemStringsMeaning(doc.categories.items);
      ItemStrings(doc.categories.items)
    else None
  }

  /** Reading is additive over the elements of the array. */
  lemma {:induction false} ItemStringsAppend(a: seq<CategoryItem>, b: seq<CategoryItem>)
    requires ItemStrings(a).Some? && ItemStrings(b).Some?
    ensures ItemStrings(a + b) == Some(ItemStrings(a).value + ItemStrings(b).value)
  {
    var B := ItemStrings(b).value;
    if |a| == 0 {
      assert a + b == b;
      assert ItemStrings(a).value == [];
      assert [] + B == B;
    } else {
      var x, t := a[0], a[1..];
      assert a == [x] + t;
      assert a + b == [x] + (t + b);
      ItemStringsCons(x, t);
      ItemStringsCons(x, t + b);
      assert ItemStrings(t).Some?;
      ItemStringsAppend(t, b);
      var T := ItemStrings(t).value;
      assert ItemStrings(t + b) == Some(T + B);
      if x.CatString? && x.text != "" {
        assert ItemStrings(a).value == [x.text] + T;
        assert [x.text] + (T + B) == ([x.text] + T) + B;
      } else {
        assert ItemStrings(a).value == T;
      }
    }
  }

  /** One element in front of the rest. */
  lemma ItemStringsCons(x: CategoryItem, t: seq<CategoryItem>)
    ensures ItemStrings([x] + t) ==
      match x
      case CatOther => None
      case CatNull => ItemStrings(t)
      case CatString(c) => if c == "" || ItemStrings(t).None? then ItemStrings(t) else Some([c] + ItemStrings(t).value)
  {
    assert ([x] + t)[1..] == t;
  }

  /** `null` and `""` elements are dropped wherever they stand. */
  lemma DropsBlankItems(a: seq<CategoryItem>, b: seq<CategoryItem>, blank: CategoryItem)
    requires blank == CatNull || blank == CatString("")
    requires ItemStrings(a).Some? && ItemStrings(b).Some?
    ensures ItemStrings(a + [blank] + b) == ItemStrings(a + b)
  {
    var A, B := ItemStrings(a).value, ItemStrings(b).value;
    assert ItemStrings([blank]) == Some([]) by {
      assert [blank][1..] == [];
    }
    ItemStringsAppend(a, [blank]);
    assert A + [] == A;
    ItemStringsAppend(a + [blank], b);
    ItemStringsAppend(a, b);
  }

  /** A list of non-empty names written as a JSON array of strings reads back
      unchanged. */
  lemma {:induction false} ReadCategoriesRoundTrip(names: seq<string>)
    requires forall i | 0 <= i < |names| :: names[i] != ""
    ensures ReadCategories(Object(ArrayOf(seq(|names|, i requires 0 <= i < |names| => CatString(names[i]))))) == Some(names)
  {
    var items := seq(|names|, i requires 0 <= i < |names| => CatString(names[i]));
    if |names| > 0 {
      ReadCategoriesRoundTrip(names[1..]);
      assert items[1..] == seq(|names[1..]|, i requires 0 <= i < |names[1..]| => CatString(names[1..][i]));
      assert names == [names[0]] + names[1..];
    }
  }

  /** Lines 58-85: `iconCategories[iconName] = categories` for every metadata
      file that yields a list, in listing order. */
  function LoadIconCategories(files: seq<MetadataFile>): (d: Dict<seq<string>>)
    ensures UniqueKeys(d)
    ensures |d| <= |files|
  {
    if |files| == 0 then []
    else
      var d := LoadIconCategories(files[..|files| - 1]);
      var last := files[|files| - 1];
      match ReadCategories(last.doc)
      case None => d
      case Some(cats) =>
        var r := Put(d, WithoutExtension(last.fileName), cats);
        assert |Keys(r)| <= |Keys(d)| + 1;
        r
  }

  /** Reference definition of a lookup after loading: the list of the last
      file, in listing order, whose name matches ignoring case and whose
      document yields a list. */
  function LastReadable(files: seq<MetadataFile>, k: string): Option<seq<string>> {
    if |files| == 0 then None
    else
      var last := files[|files| - 1];
      if SameKey(WithoutExtension(last.fileName), k) && ReadCategories(last.doc).Some? then
        ReadCategories(last.doc)
      else LastReadable(files[..|files| - 1], k)
  }

  /** A later file overrides an earlier one with a case-insensitively equal
      name, and files that cannot be read leave the earlier entry alone. */
  lemma {:induction false} LoadIconCategoriesLookup(files: seq<MetadataFile>, k: string)
    ensures Get(LoadIconCategories(files), k) == LastReadable(files, k)
  {
    if |files| > 0 {
      var init := files[..|files| - 1];
      var last := files[|files| - 1];
      LoadIconCategoriesLookup(init, k);
      var d := LoadIconCategories(init);
      var stem := WithoutExtension(last.fileName);
      match ReadCategories(last.doc)
      case None =>
        assert LoadIconCategories(files) == d;
      case Some(cats) =>
        assert LoadIconCategories(files) == Put(d, stem, cats);
        if SameKey(stem, k) {
          PutLookupSame(d, stem, k, cats);
        } else {
          assert !SameKey(k, stem);
        }
    }
  }

  lemma PutLookupSame<V>(d: Dict<V>, k: string, k': string, v: V)
    requires UniqueKeys(d) && SameKey(k, k')
    ensures Get(Put(d, k, v), k') == Some(v)
  {
    var r := Put(d, k, v);
    var i := Find(r, k).value;
    assert SameKey(r[i].key, k');
    FindUnique(r, k', i);
  }
}
