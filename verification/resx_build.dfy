/** The category map, the `.resx` bundles and `index.json` of the WinForms
    resource generator (packages/lucide-winforms/scripts/Program.cs, lines
    90-221). Loading an image and adding it to a resource file is an abstract
    outcome; files are not written. */
module ResxBuild {
  import opened Wrappers
  import opened Ordering
  import opened CiDict
  import opened Naming
  import opened ResxInputs

  // ---------------------------------------------------------------------
  // Category -> icons
  // ---------------------------------------------------------------------

  /** Lines 104-108: an empty list for every known category. A name equal to
      an earlier one ignoring case resets that entry. */
  function InitCategories(names: seq<string>): (d: Dict<seq<string>>)
    ensures UniqueKeys(d)
  {
    if |names| == 0 then []
    else Put(InitCategories(names[..|names| - 1]), names[|names| - 1], [])
  }

  /** Every name has an entry, every entry is an empty list under one of the
      names. */
  lemma {:induction false} InitCategoriesCover(names: seq<string>)
    ensures forall i | 0 <= i < |names| :: Find(InitCategories(names), names[i]).Some?
    ensures forall j | 0 <= j < |InitCategories(names)| ::
      InitCategories(names)[j].key in names && InitCategories(names)[j].value == []
  {
    if |names| > 0 {
      var init := names[..|names| - 1];
      var last := names[|names| - 1];
      InitCategoriesCover(init);
      assert names == init + [last];
      InitStep(init, last, InitCategories(init));
    }
  }

  lemma InitStep(init: seq<string>, last: string, d: Dict<seq<string>>)
    requires UniqueKeys(d)
    requires forall i | 0 <= i < |init| :: Find(d, init[i]).Some?
    requires forall j | 0 <= j < |d| :: d[j].key in init && d[j].value == []
    ensures forall i | 0 <= i < |init + [last]| :: Find(Put(d, last, []), (init + [last])[i]).Some?
    ensures forall j | 0 <= j < |Put(d, last, [])| ::
      Put(d, last, [])[j].key in init + [last] && Put(d, last, [])[j].value == []
  {
    var names := init + [last];
    var r := Put(d, last, []);
    forall i | 0 <= i < |names| ensures Find(r, names[i]).Some? {
      if i < |init| {
        StillFound(d, last, [], init[i]);
      } else {
        assert Get(r, last).Some?;
      }
    }
    forall j | 0 <= j < |r| ensures r[j].key in names && r[j].value == [] {
      PutEntry(d, last, j);
    }
  }

  /** A key found before a `Put` is still found after it. */
  lemma StillFound<V>(d: Dict<V>, k: string, v: V, x: string)
    requires UniqueKeys(d) && Find(d, x).Some?
    ensures Find(Put(d, k, v), x).Some?
  {
    var r := Put(d, k, v);
    var p := Find(d, x).value;
    assert Keys(r)[p] == Keys(d)[p];
    assert SameKey(r[p].key, x);
  }

  /** Each entry after a `Put` is an old entry or the new one. */
  lemma PutEntry(d: Dict<seq<string>>, k: string, j: nat)
    requires UniqueKeys(d)
    requires forall j | 0 <= j < |d| :: d[j].value == []
    requires j < |Put(d, k, [])|
    ensures Put(d, k, [])[j].value == []
    ensures j < |d| ==> Put(d, k, [])[j].key == d[j].key
    ensures j >= |d| ==> Put(d, k, [])[j].key == k
  {
    var r := Put(d, k, []);
    if j < |d| {
      assert Keys(r)[j] == Keys(d)[j];
    } else {
      assert Keys(r)[j] == k;
    }
  }

  /** Lines 114-117 for one category name: `TryGetValue` and `Add`. */
  function AddToCategory(m: Dict<seq<string>>, icon: string, c: string): (r: Dict<seq<string>>)
    ensures Keys(r) == Keys(m)
  {
    match Find(m, c)
    case None => m
    case Some(j) =>
      var r := m[j := Entry(m[j].key, m[j].value + [icon])];
      assert Keys(r) == Keys(m);
      r
  }

  /** Lines 112-118: one icon, every category it lists. */
  function AddIcon(m: Dict<seq<string>>, icon: string, cats: seq<string>): (r: Dict<seq<string>>)
    ensures Keys(r) == Keys(m)
    decreases |cats|
  {
    if |cats| == 0 then m else AddIcon(AddToCategory(m, icon, cats[0]), icon, cats[1..])
  }

  /** Lines 110-119: every icon, in the order the icon dictionary lists them. */
  function AddAll(m: Dict<seq<string>>, iconCats: Dict<seq<string>>): (r: Dict<seq<string>>)
    ensures Keys(r) == Keys(m)
    decreases |iconCats|
  {
    if |iconCats| == 0 then m else AddAll(AddIcon(m, iconCats[0].key, iconCats[0].value), iconCats[1..])
  }

  /** Lines 122-125: every member list sorted ignoring case. */
  function SortMembers(m: Dict<seq<string>>): (r: Dict<seq<string>>)
    ensures Keys(r) == Keys(m)
    ensures forall j | 0 <= j < |r| ::
      && SortedBy(OrdinalIgnoreCase, r[j].value)
      && multiset(r[j].value) == multiset(m[j].value)
  {
    var r := seq(|m|, j requires 0 <= j < |m| => Entry(m[j].key, SortBy(OrdinalIgnoreCase, m[j].value)));
    assert Keys(r) == Keys(m);
    r
  }

  /** `categoryIcons` once built and sorted. */
  function CategoryIcons(names: seq<string>, iconCats: Dict<seq<string>>): (r: Dict<seq<string>>)
    ensures UniqueKeys(r)
    ensures Keys(r) == Keys(InitCategories(names))
    ensures forall i | 0 <= i < |names| :: Find(r, names[i]).Some?
    ensures forall j | 0 <= j < |r| :: r[j].key in names
    ensures forall j | 0 <= j < |r| :: SortedBy(OrdinalIgnoreCase, r[j].value)
    ensures forall j | 0 <= j < |r| :: multiset(r[j].value) == Members(iconCats, r[j].key)
  {
    var init := InitCategories(names);
    var added := AddAll(init, iconCats);
    var r := SortMembers(added);
    InitCategoriesCover(names);
    SameKeysUnique(init, r);
    forall i | 0 <= i < |names| ensures Find(r, names[i]).Some? {
      FindByKeys(r, init, names[i]);
    }
    forall j | 0 <= j < |r| ensures r[j].key in names && multiset(r[j].value) == Members(iconCats, r[j].key) {
      assert Keys(r)[j] == Keys(init)[j];
      AddAllEffect(init, iconCats, j);
      assert multiset(init[j].value) == multiset{};
    }
    r
  }

  // ---------------------------------------------------------------------
  // Reference definition of a category's members
  // ---------------------------------------------------------------------

  /** `n` copies of `x`. */
  function Copies(x: string, n: nat): (b: multiset<string>)
    ensures b[x] == n
    ensures forall y | y != x :: b[y] == 0
  {
    multiset{}[x := n]
  }

  /** How many of `cats` match `k` ignoring case. */
  function CountSame(cats: seq<string>, k: string): (n: nat)
    ensures n <= |cats|
    ensures n == 0 <==> forall i | 0 <= i < |cats| :: !SameKey(cats[i], k)
  {
    if |cats| == 0 then 0
    else
      var rest := CountSame(cats[1..], k);
      assert forall i | 1 <= i < |cats| :: cats[1..][i - 1] == cats[i];
      (if SameKey(cats[0], k) then 1 else 0) + rest
  }

  /** The members a category with key `k` should end up with: every icon,
      once for every entry of its category list that matches `k` ignoring
      case. */
  function Members(iconCats: Dict<seq<string>>, k: string): multiset<string> {
    if |iconCats| == 0 then multiset{}
    else Copies(iconCats[0].key, CountSame(iconCats[0].value, k)) + Members(iconCats[1..], k)
  }

  /** An icon is a member exactly when it lists a matching category: names
      that match no known category are ignored. */
  lemma {:induction false} MembersExactly(iconCats: Dict<seq<string>>, k: string, x: string)
    ensures x in Members(iconCats, k) <==>
      exists i | 0 <= i < |iconCats| :: iconCats[i].key == x && CountSame(iconCats[i].value, k) > 0
  {
    if |iconCats| > 0 {
      MembersExactly(iconCats[1..], k, x);
      if x in Members(iconCats[1..], k) {
        var i :| 0 <= i < |iconCats[1..]| && iconCats[1..][i].key == x && CountSame(iconCats[1..][i].value, k) > 0;
        assert iconCats[i + 1] == iconCats[1..][i];
      }
      if exists i | 0 <= i < |iconCats| :: iconCats[i].key == x && CountSame(iconCats[i].value, k) > 0 {
        var i :| 0 <= i < |iconCats| && iconCats[i].key == x && CountSame(iconCats[i].value, k) > 0;
        if i > 0 {
          assert iconCats[1..][i - 1] == iconCats[i];
        }
      }
    }
  }

  /** One `Add` lands in the entry whose key matches the category, and in no
      other. */
  lemma AddToCategoryEffect(m: Dict<seq<string>>, icon: string, c: string, j: nat)
    requires UniqueKeys(m) && j < |m|
    ensures var r := AddToCategory(m, icon, c);
      multiset(r[j].value) == multiset(m[j].value) + Copies(icon, if SameKey(c, m[j].key) then 1 else 0)
  {
    var r := AddToCategory(m, icon, c);
    if SameKey(c, m[j].key) {
      FindUnique(m, c, j);
      assert r[j].value == m[j].value + [icon];
    } else {
      match Find(m, c)
      case None =>
      case Some(i) =>
        assert i != j;
    }
  }

  lemma {:induction false} AddIconEffect(m: Dict<seq<string>>, icon: string, cats: seq<string>, j: nat)
    requires UniqueKeys(m) && j < |m|
    ensures multiset(AddIcon(m, icon, cats)[j].value) == multiset(m[j].value) + Copies(icon, CountSame(cats, m[j].key))
    decreases |cats|
  {
    if |cats| > 0 {
      var m1 := AddToCategory(m, icon, cats[0]);
      AddToCategoryEffect(m, icon, cats[0], j);
      SameKeysUnique(m, m1);
      assert m1[j].key == Keys(m1)[j] == Keys(m)[j] == m[j].key;
      AddIconEffect(m1, icon, cats[1..], j);
      var n0 := if SameKey(cats[0], m[j].key) then 1 else 0;
      assert CountSame(cats, m[j].key) == n0 + CountSame(cats[1..], m[j].key);
      assert Copies(icon, n0) + Copies(icon, CountSame(cats[1..], m[j].key)) == Copies(icon, CountSame(cats, m[j].key));
    }
  }

  lemma {:induction false} AddAllEffect(m: Dict<seq<string>>, iconCats: Dict<seq<string>>, j: nat)
    requires UniqueKeys(m) && j < |m|
    ensures multiset(AddAll(m, iconCats)[j].value) == multiset(m[j].value) + Members(iconCats, m[j].key)
    decreases |iconCats|
  {
    if |iconCats| > 0 {
      var m1 := AddIcon(m, iconCats[0].key, iconCats[0].value);
      AddIconEffect(m, iconCats[0].key, iconCats[0].value, j);
      SameKeysUnique(m, m1);
      assert m1[j].key == Keys(m1)[j] == Keys(m)[j] == m[j].key;
      AddAllEffect(m1, iconCats[1..], j);
    }
  }

  // ---------------------------------------------------------------------
  // Resource bundles
  // ---------------------------------------------------------------------

  /** One image stored in a `.resx` file under a resource name. */
  datatype Resource = Resource(key: string, path: string)

  /** `AddResource` of one loaded image: stored when `adds` accepts it. */
  function Stored(key: string, path: string, adds: (string, string) -> bool): (res: seq<Resource>)
    ensures res == [] || res == [Resource(key, path)]
    ensures |res| == 1 <==> adds(key, path)
  {
    if adds(key, path) then [Resource(key, path)] else []
  }

  /** One member of a category bundle: stored when it has an ICO file. */
  function MemberResources(member: string, icoFiles: Dict<string>, adds: (string, string) -> bool): seq<Resource> {
    match Get(icoFiles, member)
    case None => []
    case Some(path) => Stored(ToResourceKey(member), path, adds)
  }

  /** Lines 139-155: the members that have an ICO file (looked up ignoring
      case) and whose image `adds` accepts, stored under their PascalCase
      name. Members without an ICO file are passed over without a word. */
  function CategoryBundle(members: seq<string>, icoFiles: Dict<string>, adds: (string, string) -> bool): (res: seq<Resource>)
    ensures |res| <= |members|
  {
    if |members| == 0 then []
    else MemberResources(members[0], icoFiles, adds) + CategoryBundle(members[1..], icoFiles, adds)
  }

  /** Every stored resource is a member with an ICO file, under that member's
      resource name. */
  lemma {:induction false} CategoryBundleSound(members: seq<string>, icoFiles: Dict<string>, adds: (string, string) -> bool, r: Resource)
    requires r in CategoryBundle(members, icoFiles, adds)
    ensures exists i | 0 <= i < |members| ::
      && Get(icoFiles, members[i]) == Some(r.path)
      && r.key == ToResourceKey(members[i])
      && adds(r.key, r.path)
  {
    assert |members| > 0;
    var here := MemberResources(members[0], icoFiles, adds);
    var tail := members[1..];
    assert CategoryBundle(members, icoFiles, adds) == here + CategoryBundle(tail, icoFiles, adds);
    if r in here {
      MemberResourcesSound(members[0], icoFiles, adds, r);
    } else {
      CategoryBundleSound(tail, icoFiles, adds, r);
      var i :| 0 <= i < |tail| && Get(icoFiles, tail[i]) == Some(r.path)
        && r.key == ToResourceKey(tail[i]) && adds(r.key, r.path);
      assert tail[i] == members[i + 1];
    }
  }

  lemma MemberResourcesSound(member: string, icoFiles: Dict<string>, adds: (string, string) -> bool, r: Resource)
    requires r in MemberResources(member, icoFiles, adds)
    ensures Get(icoFiles, member) == Some(r.path) && r.key == ToResourceKey(member) && adds(r.key, r.path)
  {
  }

  /** Every member with an ICO file whose image is accepted is stored. */
  lemma {:induction false} CategoryBundleComplete(members: seq<string>, icoFiles: Dict<string>, adds: (string, string) -> bool, i: nat)
    requires i < |members| && Get(icoFiles, members[i]).Some?
    requires adds(ToResourceKey(members[i]), Get(icoFiles, members[i]).value)
    ensures Resource(ToResourceKey(members[i]), Get(icoFiles, members[i]).value) in CategoryBundle(members, icoFiles, adds)
  {
    var here := MemberResources(members[0], icoFiles, adds);
    var tail := members[1..];
    assert CategoryBundle(members, icoFiles, adds) == here + CategoryBundle(tail, icoFiles, adds);
    if i == 0 {
      assert here == [Resource(ToResourceKey(members[0]), Get(icoFiles, members[0]).value)];
    } else {
      assert tail[i - 1] == members[i];
      CategoryBundleComplete(tail, icoFiles, adds, i - 1);
    }
  }

  /** Lines 171-195: every ICO file whose image `adds` accepts, under its
      PascalCase name, in the order of the icon names. The names are ordered
      by `StringComparer.Ordinal`. */
  function AllIconsBundle(icoFiles: Dict<string>, adds: (string, string) -> bool): (res: seq<Resource>)
    ensures |res| <= |icoFiles|
  {
    var order := SortBy(Ordinal, Keys(icoFiles));
    assert |order| == |multiset(order)| == |multiset(Keys(icoFiles))| == |icoFiles|;
    CategoryBundle(order, icoFiles, adds)
  }

  /** Every resource of the all-icons bundle is an accepted ICO file under
      its icon's resource name. */
  lemma AllIconsSound(icoFiles: Dict<string>, adds: (string, string) -> bool, r: Resource)
    requires UniqueKeys(icoFiles)
    requires r in AllIconsBundle(icoFiles, adds)
    ensures exists j | 0 <= j < |icoFiles| ::
      && r.path == icoFiles[j].value
      && r.key == ToResourceKey(icoFiles[j].key)
      && adds(r.key, r.path)
  {
    var order := SortBy(Ordinal, Keys(icoFiles));
    CategoryBundleSound(order, icoFiles, adds, r);
    var i :| 0 <= i < |order| && Get(icoFiles, order[i]) == Some(r.path)
      && r.key == ToResourceKey(order[i]) && adds(r.key, r.path);
    var j := EntryOfKey(icoFiles, order[i], order);
    assert r.path == icoFiles[j].value && r.key == ToResourceKey(icoFiles[j].key);
  }

  /** A key taken from a reordering of the keys names exactly one entry. */
  lemma EntryOfKey<V>(d: Dict<V>, k: string, order: seq<string>) returns (j: nat)
    requires UniqueKeys(d) && multiset(order) == multiset(Keys(d)) && k in order
    ensures j < |d| && d[j].key == k && Get(d, k) == Some(d[j].value)
  {
    assert k in multiset(Keys(d));
    j :| 0 <= j < |d| && Keys(d)[j] == k;
    FindUnique(d, k, j);
  }

  /** The bundle follows the icon names, not the listing: of two accepted
      ICO files listed as `y` then `x`, the one whose name comes first by
      ordinal comparison is stored first. */
  lemma AllIconsInNameOrder(x: string, y: string, px: string, py: string, adds: (string, string) -> bool)
    requires LexLeq(x, y) && !SameKey(x, y)
    requires adds(ToResourceKey(x), px) && adds(ToResourceKey(y), py)
    ensures AllIconsBundle([Entry(y, py), Entry(x, px)], adds)
      == [Resource(ToResourceKey(x), px), Resource(ToResourceKey(y), py)]
  {
    OrderOfTwo(x, y, px, py);
    TwoMembers(x, y, px, py, adds);
  }

  lemma OrderOfTwo(x: string, y: string, px: string, py: string)
    requires LexLeq(x, y)
    ensures SortBy(Ordinal, Keys([Entry(y, py), Entry(x, px)])) == [x, y]
  {
    assert Keys([Entry(y, py), Entry(x, px)]) == [y, x];
    SortTwo(x, y);
  }

  lemma TwoMembers(x: string, y: string, px: string, py: string, adds: (string, string) -> bool)
    requires !SameKey(x, y)
    requires adds(ToResourceKey(x), px) && adds(ToResourceKey(y), py)
    ensures CategoryBundle([x, y], [Entry(y, py), Entry(x, px)], adds)
      == [Resource(ToResourceKey(x), px), Resource(ToResourceKey(y), py)]
  {
    var d := [Entry(y, py), Entry(x, px)];
    TwoEntries(x, y, px, py);
    BundleOfTwo(x, y, d, adds);
  }

  lemma SortTwo(x: string, y: string)
    requires LexLeq(x, y)
    ensures SortBy(Ordinal, [y, x]) == [x, y]
  {
    assert [y, x][..1] == [y] && [y][..0] == [];
    assert SortBy(Ordinal, [y]) == [y];
    assert InsertBy(Ordinal, x, [y]) == [x, y];
  }

  lemma TwoEntries(x: string, y: string, px: string, py: string)
    requires !SameKey(x, y)
    ensures Get([Entry(y, py), Entry(x, px)], x) == Some(px)
    ensures Get([Entry(y, py), Entry(x, px)], y) == Some(py)
  {
    var d := [Entry(y, py), Entry(x, px)];
    FindUnique(d, x, 1);
    FindUnique(d, y, 0);
  }

  lemma BundleOfTwo(x: string, y: string, d: Dict<string>, adds: (string, string) -> bool)
    ensures CategoryBundle([x, y], d, adds) == MemberResources(x, d, adds) + MemberResources(y, d, adds)
  {
    assert [x, y][1..] == [y] && [y][1..] == [];
    assert CategoryBundle([y], d, adds) == MemberResources(y, d, adds) + CategoryBundle([], d, adds);
  }

  /** Every ICO file whose image is accepted is in the all-icons bundle. */
  lemma AllIconsComplete(icoFiles: Dict<string>, adds: (string, string) -> bool, j: nat)
    requires UniqueKeys(icoFiles) && j < |icoFiles|
    requires adds(ToResourceKey(icoFiles[j].key), icoFiles[j].value)
    ensures Resource(ToResourceKey(icoFiles[j].key), icoFiles[j].value) in AllIconsBundle(icoFiles, adds)
  {
    var order := SortBy(Ordinal, Keys(icoFiles));
    var k := icoFiles[j].key;
    assert Keys(icoFiles)[j] == k;
    assert k in multiset(order);
    var i :| 0 <= i < |order| && order[i] == k;
    FindUnique(icoFiles, k, j);
    CategoryBundleComplete(order, icoFiles, adds, i);
  }

  // ---------------------------------------------------------------------
  // index.json
  // ---------------------------------------------------------------------

  /** The fields of `indexContent`; `categories` in key order. */
  datatype ResxIndex = ResxIndex(
    name: string,
    version: string,
    iconCount: nat,
    categoryCount: nat,
    format: string,
    files: seq<string>,
    categories: seq<Entry<nat>>)

  /** `LucideIcons.<PascalCase>.resx` */
  function ResxFileName(category: string): string {
    "LucideIcons." + ToPascalCase(category) + ".resx"
  }

  /** The category's resource name sits between a fixed prefix and suffix,
      so it can be read back from the file name. */
  lemma ResxFileNameParts(category: string)
    ensures var f := ResxFileName(category);
      && |f| == 17 + |ToPascalCase(category)|
      && f[..12] == "LucideIcons."
      && f[12..|f| - 5] == ToPascalCase(category)
      && f[|f| - 5..] == ".resx"
  {
    var f := ResxFileName(category);
    assert f[..12] == "LucideIcons.";
    assert f[12..|f| - 5] == ToPascalCase(category);
    assert f[|f| - 5..] == ".resx";
  }

  /** Two categories share a file name exactly when their PascalCase names
      agree. */
  lemma ResxFileNameInjective(a: string, b: string)
    ensures ResxFileName(a) == ResxFileName(b) <==> ToPascalCase(a) == ToPascalCase(b)
  {
    ResxFileNameParts(a);
    ResxFileNameParts(b);
  }

  /** The file list of `index.json`: the bundle of all icons, then one bundle
      per name in `categoryNames`, repeats included. */
  function ResxFiles(categoryNames: seq<string>): (files: seq<string>)
    ensures |files| == |categoryNames| + 1
    ensures files[0] == "LucideIcons.resx"
    ensures forall i | 1 <= i < |files| :: files[i] == ResxFileName(categoryNames[i - 1])
  {
    var rest := CategoryFileNames(categoryNames);
    var files := [AllIconsFileName] + rest;
    assert forall i | 1 <= i < |files| :: files[i] == rest[i - 1];
    files
  }

  const AllIconsFileName: string := "LucideIcons.resx"

  function CategoryFileNames(names: seq<string>): (fs: seq<string>)
    ensures |fs| == |names|
    ensures forall i | 0 <= i < |names| :: fs[i] == ResxFileName(names[i])
  {
    if |names| == 0 then [] else [ResxFileName(names[0])] + CategoryFileNames(names[1..])
  }

  /** Lines 201-214. */
  function Index(categoryNames: seq<string>, catMap: Dict<seq<string>>, totalCount: nat): (index: ResxIndex)
    ensures index.iconCount == totalCount
    ensures index.categoryCount == |categoryNames| && |index.files| == index.categoryCount + 1
    ensures index.files == ResxFiles(categoryNames)
    ensures |index.categories| == |catMap|
    ensures forall j | 0 <= j < |catMap| ::
      index.categories[j].key == catMap[j].key && index.categories[j].value == |catMap[j].value|
  {
    var counts := seq(|catMap|, j requires 0 <= j < |catMap| => Entry(catMap[j].key, |catMap[j].value|));
    ResxIndex("lucide-winforms", "0.0.1", totalCount, |categoryNames|,
              "WinForms .resx Resource Files", ResxFiles(categoryNames), counts)
  }

  // ---------------------------------------------------------------------
  // One whole run
  // ---------------------------------------------------------------------

  /** A category `.resx` file: its name, the category it is for and what it
      holds. */
  datatype Bundle = Bundle(fileName: string, category: string, resources: seq<Resource>)

  datatype ResxOutput = ResxOutput(bundles: seq<Bundle>, allIcons: seq<Resource>, index: ResxIndex)

  /** Lines 131-169: one bundle per entry of the category map, in key order. */
  function Bundles(catMap: Dict<seq<string>>, icoFiles: Dict<string>, adds: (string, string) -> bool): (bs: seq<Bundle>)
    ensures |bs| == |catMap|
    ensures forall j | 0 <= j < |catMap| ::
      && bs[j].category == catMap[j].key
      && bs[j].fileName == ResxFileName(catMap[j].key)
      && |bs[j].resources| <= |catMap[j].value|
  {
    seq(|catMap|, j requires 0 <= j < |catMap| =>
      Bundle(ResxFileName(catMap[j].key), catMap[j].key, CategoryBundle(catMap[j].value, icoFiles, adds)))
  }

  /** The generator after the source folder check: `icoFileNames` is the ICO
      listing, `metadata` the icon metadata files, `categoryNames` the
      category names in the order `OrderBy` puts them, and `adds` whether an
      image can be loaded and stored under a name. A clash of ICO stems ends
      the run. */
  function Generate(icoFileNames: seq<string>, metadata: seq<MetadataFile>, categoryNames: seq<string>,
                    adds: (string, string) -> bool): (r: Result<ResxOutput, string>)
    ensures r.Failure? <==> StemsClash(icoFileNames)
    ensures r.Success? ==>
      && r.value.index.iconCount == |r.value.allIcons| <= |icoFileNames|
      && |r.value.bundles| == |r.value.index.categories| <= |categoryNames|
      && |r.value.index.files| == |categoryNames| + 1
      && forall j | 0 <= j < |r.value.bundles| ::
           && r.value.bundles[j].fileName == ResxFileName(r.value.bundles[j].category)
           && r.value.bundles[j].category == r.value.index.categories[j].key
           && |r.value.bundles[j].resources| <= r.value.index.categories[j].value
           && r.value.index.categories[j].value
                == |Members(LoadIconCategories(metadata), r.value.bundles[j].category)|
  {
    match IcoFileIndex(icoFileNames)
    case Failure(e) => Failure(e)
    case Success(icoFiles) =>
      var iconCats := LoadIconCategories(metadata);
      var catMap := CategoryIcons(categoryNames, iconCats);
      var all := AllIconsBundle(icoFiles, adds);
      CategoryCounts(categoryNames, iconCats);
      Success(ResxOutput(Bundles(catMap, icoFiles, adds), all, Index(categoryNames, catMap, |all|)))
  }

  /** Each category's count is the number of its members, and there are no
      more categories than names. */
  lemma CategoryCounts(names: seq<string>, iconCats: Dict<seq<string>>)
    ensures |CategoryIcons(names, iconCats)| <= |names|
    ensures forall j | 0 <= j < |CategoryIcons(names, iconCats)| ::
      |CategoryIcons(names, iconCats)[j].value| == |Members(iconCats, CategoryIcons(names, iconCats)[j].key)|
  {
    var catMap := CategoryIcons(names, iconCats);
    InitCategoriesSize(names);
    assert |Keys(catMap)| == |Keys(InitCategories(names))|;
    forall j | 0 <= j < |catMap|
      ensures |catMap[j].value| == |Members(iconCats, catMap[j].key)|
    {
      assert |multiset(catMap[j].value)| == |catMap[j].value|;
    }
  }

  /** There are never more category entries than category names. */
  lemma {:induction false} InitCategoriesSize(names: seq<string>)
    ensures |InitCategories(names)| <= |names|
  {
    if |names| > 0 {
      var init := names[..|names| - 1];
      InitCategoriesSize(init);
      var d := InitCategories(init);
      assert |Keys(Put(d, names[|names| - 1], []))| <= |Keys(d)| + 1;
    }
  }
}
