# Lucide ICO and WinForms resource builds, modelled in Dafny

Two build scripts of the Lucide icon set are modelled here.

- `packages/lucide-ico/scripts/buildIcons.ts` turns every SVG icon into a
  multi-size Windows ICO file. It reads an optional colour argument
  (`#rgb` or `#rrggbb`) and an optional size list (`16,24,32`). It recolours
  the `currentColor` stroke and fill attributes, converts every file,
  counting successes and failures, and writes an `index.json` manifest.
- `packages/lucide-winforms/scripts/Program.cs` packs those ICO files into
  WinForms `.resx` resource files. It indexes the ICO files by icon name,
  ignoring case. It reads the category list of every icon from its metadata
  and groups icons by known category, sorting each group. It writes one
  bundle per category and one bundle of all icons, all under PascalCase
  resource names, and an `index.json` with the file list and per-category
  counts.

The model is functional throughout:

- Directory listings are sequences.
- Metadata documents arrive already parsed.
- The case-insensitive .NET dictionaries are association lists whose keys
  are unique ignoring case, kept in insertion order (`CiDict`).
- Rasterising and encoding an icon, and loading an image and adding it to a
  resource file, are abstract outcome predicates: `converts` and `adds`.

Modules:

| module | file | models |
|---|---|---|
| `Wrappers` | wrappers.dfy | `Option` and `Result` |
| `Text` | text.dfy | digits, JavaScript white space, `split`, `trim`, `parseInt`, `path.basename`, global literal `replace` |
| `Ordering` | ordering.dfy | ordinal and ordinal-ignore-case comparison, sorting strings and numbers |
| `IcoCli` | ico_cli.dfy | `parseColorArg`, `parseSizesArg` and the configuration at lines 57-62 |
| `SvgColor` | svg_color.dfy | `replaceStrokeColor` and the recolouring step of `svgToIco` |
| `IcoBuild` | ico_build.dfy | the conversion loop of `buildIcons` and its `indexContent` |
| `Naming` | naming.dfy | `ToPascalCase` and `ToResourceKey` |
| `CiDict` | ci_dict.dfy | `Dictionary<string, V>` with `StringComparer.OrdinalIgnoreCase` |
| `ResxInputs` | resx_inputs.dfy | the ICO index and the category lists read from metadata |
| `ResxBuild` | resx_build.dfy | the category map, the bundles, `index.json` and a whole run |

`ToResourceKey` is `ToPascalCase` by definition, as in the source, so every
property of `ToPascalCase` holds for it.

Two behaviours of the code are easy to miss, and the model keeps both:

- The `icons` list of the ICO manifest is the sorted list of metadata file
  names (buildIcons.ts line 179). It is not the list of icons that were
  converted.
- The category member lists are not de-duplicated. An icon that names one
  category twice is added twice (Program.cs lines 112-118).

## Model

| member | source | states |
|---|---|---|
| IcoCli.NormalizeColor | packages/lucide-ico/scripts/buildIcons.ts:18-23 | the result is `#` and six hex digits; a six-digit colour is returned as written; a three-digit one has each digit doubled |
| IcoCli.NormalizeKeepsChannels | packages/lucide-ico/scripts/buildIcons.ts:20-22 | expanding `#rgb` keeps the colour: each channel of the result is 17 times the short digit |
| IcoCli.ParseColor | packages/lucide-ico/scripts/buildIcons.ts:12-27 | `None` exactly when no argument is `#` plus 3 or 6 hex digits; otherwise the normalised form of the first such argument, which is `#` plus six hex digits |
| IcoCli.ParseColorIdempotent | packages/lucide-ico/scripts/buildIcons.ts:12-27 | a parsed colour, given back as the only argument, parses to itself |
| IcoCli.ParseColorExpandsShortForm | packages/lucide-ico/scripts/buildIcons.ts:19-22 | `#abc` gives `#aabbcc` |
| IcoCli.ParseColorKeepsCase | packages/lucide-ico/scripts/buildIcons.ts:23 | `#AbC123` is returned with its case kept |
| IcoCli.ParseColorRejectsNearMisses | packages/lucide-ico/scripts/buildIcons.ts:15-16 | `#12`, `#abcd`, `notacolor` and `fff` are all rejected, so the result is `None` |
| IcoCli.ParseColorFirstWins | packages/lucide-ico/scripts/buildIcons.ts:14-17 | a size list and a malformed colour are skipped, and the first valid colour wins over a later one |
| IcoCli.FieldValues | packages/lucide-ico/scripts/buildIcons.ts:37-39 | one value per comma field, each the decimal value of the trimmed field |
| IcoCli.InRange | packages/lucide-ico/scripts/buildIcons.ts:40 | every kept value lies in 1..256; each value in range is kept as often as it occurs, and no other value is kept |
| IcoCli.InRangeKeepsValid | packages/lucide-ico/scripts/buildIcons.ts:40 | a list already within 1..256 passes the filter unchanged |
| IcoCli.OneField | packages/lucide-ico/scripts/buildIcons.ts:34-39 | a lone number is a size argument with exactly that one value |
| IcoCli.FieldThen | packages/lucide-ico/scripts/buildIcons.ts:34-39 | a number and a comma put in front of a size argument give a size argument with that value in front |
| IcoCli.ParseSizes | packages/lucide-ico/scripts/buildIcons.ts:30-47 | a list that is found is non-empty, ascending and within 1..256 |
| IcoCli.ParseSizesPicks | packages/lucide-ico/scripts/buildIcons.ts:30-47 | `None` exactly when no argument is a size list with a size in range; otherwise the result is a permutation of the in-range sizes of the first such argument, repeats kept |
| IcoCli.PicksLater | packages/lucide-ico/scripts/buildIcons.ts:32-45 | an argument that yields no size is passed over and the search goes on to the next |
| IcoCli.SortedCandidatesValid | packages/lucide-ico/scripts/buildIcons.ts:40-43 | sorting the filtered sizes of a selecting argument gives a valid size list |
| IcoCli.ParseThreeSizes | packages/lucide-ico/scripts/buildIcons.ts:37-42 | three in-range numbers written largest, smallest, middle come back in ascending order |
| IcoCli.ParseSizesSortsExample | packages/lucide-ico/scripts/buildIcons.ts:37-42 | `32,16,24` gives `[16, 24, 32]` |
| IcoCli.SortThree | packages/lucide-ico/scripts/buildIcons.ts:42 | the comparator `a - b` sorts numerically: three numbers with the middle least and the first greatest come out as middle, last, first |
| IcoCli.SortThreeExample | packages/lucide-ico/scripts/buildIcons.ts:42 | `[32, 16, 24]` sorts to `[16, 24, 32]` |
| IcoCli.SkipThenSize | packages/lucide-ico/scripts/buildIcons.ts:32-45 | a number out of range followed by one in range yields just the second |
| IcoCli.ParseSizesSkipsExample | packages/lucide-ico/scripts/buildIcons.ts:32-45 | `300` is skipped and `16` is taken |
| IcoCli.DefaultSizesValid | packages/lucide-ico/scripts/buildIcons.ts:9 | the default sizes are non-empty, ascending and within 1..256 |
| IcoCli.EffectiveSizes | packages/lucide-ico/scripts/buildIcons.ts:59 | the sizes used are always a valid size list |
| IcoCli.EffectiveSizesChoice | packages/lucide-ico/scripts/buildIcons.ts:58-59 | the default sizes exactly when no argument selects sizes; otherwise the sizes of the first argument that does |
| IcoCli.Configure | packages/lucide-ico/scripts/buildIcons.ts:57-62 | the colour is the parsed colour; the sizes are the effective sizes; the output directory is `dist/<colour>` or `dist/#000000` when there is no colour |
| SvgColor.SvgForConversion | packages/lucide-ico/scripts/buildIcons.ts:82-88 | without a colour the SVG text passes through unchanged |
| SvgColor.SvgForConversionClears | packages/lucide-ico/scripts/buildIcons.ts:82-88 | with a hex colour, no `stroke="currentColor"` or `fill="currentColor"` is left in the text that is rasterised |
| SvgColor.ReplaceStrokeColorClears | packages/lucide-ico/scripts/buildIcons.ts:50-55 | with a hex colour, the result holds neither attribute: every one is replaced and none is formed by a replacement |
| SvgColor.ReplaceStrokeColorLength | packages/lucide-ico/scripts/buildIcons.ts:50-55 | the length changes by the number of stroke and fill matches times the difference between the colour's length and that of `currentColor` |
| SvgColor.ReplaceStrokeColorUnchanged | packages/lucide-ico/scripts/buildIcons.ts:50-55 | text holding neither attribute is returned unchanged |
| SvgColor.ReplacementsDisjoint | packages/lucide-ico/scripts/buildIcons.ts:53-54 | no replacement text can take part in a match of either pattern |
| Text.ReplaceAllLength | packages/lucide-ico/scripts/buildIcons.ts:53-54 | a global literal replace changes the length by the number of matches times the difference in length |
| Text.ReplaceAbsent | packages/lucide-ico/scripts/buildIcons.ts:53-54 | text without the pattern is returned unchanged |
| Text.CountMatchesZero | packages/lucide-ico/scripts/buildIcons.ts:53-54 | the scan finds a match exactly when the pattern occurs |
| Text.ReplaceLeavesNo | packages/lucide-ico/scripts/buildIcons.ts:53-54 | after the replace, a pattern the replacement text cannot host does not occur, provided it is the one replaced or was absent before |
| Text.CountAfterReplace | packages/lucide-ico/scripts/buildIcons.ts:53-54 | replacing one pattern leaves the number of matches of a second pattern unchanged, when neither pattern holds the other's first character and the replacement text cannot host the second; so the fill replace finds as many matches after the stroke replace as before it |
| Text.Split | packages/lucide-winforms/scripts/Program.cs:228 | one more part than separators, and no part holds a separator |
| Text.JoinSplit | packages/lucide-ico/scripts/buildIcons.ts:38 | joining the fields of a split with the separator gives back the string |
| Text.StripSuffixOf | packages/lucide-ico/scripts/buildIcons.ts:145 | `path.basename(name + ext, ext)` is `name` for a non-empty name |
| IcoBuild.IconName | packages/lucide-ico/scripts/buildIcons.ts:145 | the icon name is the file name with its `.svg` removed, or the file name itself |
| IcoBuild.IcoPath | packages/lucide-ico/scripts/buildIcons.ts:147 | the path is the output directory plus one file name |
| IcoBuild.IcoPathName | packages/lucide-ico/scripts/buildIcons.ts:145-147 | that file name is some name with `.ico`, the SVG file name being that name or that name with `.svg` (IcoFileOfSvg pins which) |
| IcoBuild.IcoFileOfSvg | packages/lucide-ico/scripts/buildIcons.ts:145-147 | the ICO of `<x>.svg` is exactly `<x>.ico` in the output directory: the `.svg` is removed |
| IcoBuild.IcoPathInjective | packages/lucide-ico/scripts/buildIcons.ts:145-147 | two different non-empty icon names, each with `.svg`, never share an ICO path |
| IcoBuild.HexColorIsLiteral | packages/lucide-ico/scripts/buildIcons.ts:53-54 | a parsed colour holds no `$`, so `replace` uses it literally |
| IcoBuild.ConfigureWellFormed | packages/lucide-ico/scripts/buildIcons.ts:57-62 | the configuration has valid sizes, a hex colour if any and `dist/<colour or #000000>` as output directory |
| IcoBuild.Attempt | packages/lucide-ico/scripts/buildIcons.ts:149-160 | a file yields an ICO exactly when conversion of its (recoloured) text to its ICO path succeeds; the ICO is at that path, at the configured sizes |
| IcoBuild.AttemptRecolours | packages/lucide-ico/scripts/buildIcons.ts:82-88 | the ICO is made from the file text unchanged when no colour is set, and from text without `currentColor` attributes when one is |
| IcoBuild.Converted | packages/lucide-ico/scripts/buildIcons.ts:144-161 | no more results than files |
| IcoBuild.ConvertedAppend | packages/lucide-ico/scripts/buildIcons.ts:144-161 | converting a listing in two halves gives the two halves' results, one after the other |
| IcoBuild.ConvertedComplete | packages/lucide-ico/scripts/buildIcons.ts:149-160 | a failure does not stop the batch: every file that converts is among the results |
| IcoBuild.ConvertedSound | packages/lucide-ico/scripts/buildIcons.ts:144-161 | every result is the successful conversion of a listed file |
| IcoBuild.BuildIcons | packages/lucide-ico/scripts/buildIcons.ts:141-161 | successes plus errors equal the number of files; the successes are exactly the converted files, in listing order; every ICO lies in `dist/<colour>` |
| IcoBuild.MetadataKeys | packages/lucide-ico/scripts/buildIcons.ts:69-79 | one key per metadata file: its name with or without `.json` |
| IcoBuild.Index | packages/lucide-ico/scripts/buildIcons.ts:171-180 | the icon count is the success count; the sizes are the configured ones; the colour is the custom one or `currentColor`; `icons` is strictly sorted and holds exactly the metadata keys |
| IcoBuild.IndexIconsOrderFree | packages/lucide-ico/scripts/buildIcons.ts:179 | the icon list depends only on which metadata files exist, not on their order or on repeats |
| IcoBuild.IconsFollowFiles | packages/lucide-ico/scripts/buildIcons.ts:179 | more metadata files never lose an icon from the list |
| IcoBuild.Run | packages/lucide-ico/scripts/buildIcons.ts:141-180 | the manifest's icon count is the number of ICO files the loop wrote, and with the errors it adds up to the number of SVG files; the manifest's sizes and colour are those of the configuration; its icons are the sorted metadata keys |
| Ordering.LexLeqTotal | packages/lucide-ico/scripts/buildIcons.ts:179 | the string order compares any two strings |
| Ordering.LexLeqTrans | packages/lucide-ico/scripts/buildIcons.ts:179 | the string order is transitive |
| Ordering.LexLeqAntisym | packages/lucide-ico/scripts/buildIcons.ts:179 | two strings ordered both ways are equal |
| Ordering.SortBy | packages/lucide-winforms/scripts/Program.cs:122-125 | the result is ordered by the comparer and is a permutation of the input |
| Ordering.SortedKeys | packages/lucide-ico/scripts/buildIcons.ts:179 | strictly sorted, holding exactly the distinct keys |
| Ordering.StrictlySortedUnique | packages/lucide-ico/scripts/buildIcons.ts:179 | two strictly sorted lists with the same elements are equal |
| Ordering.SortedKeysOrderFree | packages/lucide-ico/scripts/buildIcons.ts:179 | the sorted keys do not depend on the order of the input |
| Ordering.SortInts | packages/lucide-ico/scripts/buildIcons.ts:42 | the result is ascending and a permutation of the input |
| Ordering.AscendingUnique | packages/lucide-ico/scripts/buildIcons.ts:42 | two ascending lists with the same elements are equal, so the numeric sort has one possible result |
| Naming.ToPascalCase | packages/lucide-winforms/scripts/Program.cs:224-232 | split-capitalise-concatenate equals a one-pass scan that drops separators, upper-cases the character after a separator or at the start, and lower-cases the rest |
| Naming.ScanSplit | packages/lucide-winforms/scripts/Program.cs:228-231 | the scan agrees with splitting at `-` and `_` and capitalising each part |
| Naming.ToPascalCaseDropsSeparators | packages/lucide-winforms/scripts/Program.cs:228-231 | the result holds no `-` or `_`, and is exactly as much shorter as there were separators |
| Naming.ScanDropsSeparators | packages/lucide-winforms/scripts/Program.cs:228-231 | the scan drops exactly the separators and keeps one character for every other one |
| Naming.FirstLetterUpper | packages/lucide-winforms/scripts/Program.cs:230 | a name not starting with a separator begins with its first character upper-cased |
| Naming.KebabCaseExample | packages/lucide-winforms/scripts/Program.cs:237-239 | `a-b` becomes `AB` |
| Naming.SnakeCaseExample | packages/lucide-winforms/scripts/Program.cs:228 | `a_b` becomes `AB` |
| Naming.InnerCapitalsFolded | packages/lucide-winforms/scripts/Program.cs:230 | `AB` becomes `Ab` |
| Naming.StraySeparatorsDropped | packages/lucide-winforms/scripts/Program.cs:228-231 | `-a--b-` becomes `AB`: leading, trailing and repeated separators add nothing |
| Naming.ResourceKeysCollide | packages/lucide-winforms/scripts/Program.cs:235-240 | the distinct names `a-b` and `a_b` share a resource key |
| Naming.ToPascalCaseNotIdempotent | packages/lucide-winforms/scripts/Program.cs:230 | applying the mapping to its own result can change it again |
| CiDict.Find | packages/lucide-winforms/scripts/Program.cs:114 | the position of the first key equal ignoring case; `None` exactly when there is none |
| CiDict.Get | packages/lucide-winforms/scripts/Program.cs:114 | `TryGetValue` fails exactly when no key matches; with unique keys it yields the value of the matching entry |
| CiDict.Put | packages/lucide-winforms/scripts/Program.cs:107 | keys stay unique; a lookup of a matching key gives the new value and every other lookup is unchanged; an existing key keeps its place and spelling; a new key is appended |
| CiDict.PutPut | packages/lucide-winforms/scripts/Program.cs:107 | the later of two writes to keys equal ignoring case wins |
| CiDict.FindAppend | packages/lucide-winforms/scripts/Program.cs:78 | an appended entry is found only when no earlier key matches |
| ResxInputs.WithoutExtension | packages/lucide-winforms/scripts/Program.cs:60 | the stem is a prefix of the name, and the whole name when it has no dot |
| ResxInputs.WithoutExtensionOf | packages/lucide-winforms/scripts/Program.cs:60 | only the last extension is removed |
| ResxInputs.IcoFileIndex | packages/lucide-winforms/scripts/Program.cs:48-50 | fails exactly when two file stems are equal ignoring case; otherwise one entry per file, in listing order, keyed by stem, keys unique |
| ResxInputs.ItemStringsMeaning | packages/lucide-winforms/scripts/Program.cs:69-77 | an array reads exactly when every element is a string or null; the names read are non-empty strings of the array |
| ResxInputs.ReadCategories | packages/lucide-winforms/scripts/Program.cs:62-79 | a list exactly when the document parses to an object whose `categories` is an array of strings and nulls; no name in it is empty |
| ResxInputs.ItemStringsAppend | packages/lucide-winforms/scripts/Program.cs:70-77 | reading is additive over the elements of the array |
| ResxInputs.DropsBlankItems | packages/lucide-winforms/scripts/Program.cs:72-76 | null and empty elements are dropped wherever they stand |
| ResxInputs.ReadCategoriesRoundTrip | packages/lucide-winforms/scripts/Program.cs:67-78 | non-empty names written as a JSON string array read back unchanged |
| ResxInputs.LoadIconCategories | packages/lucide-winforms/scripts/Program.cs:56-85 | keys unique ignoring case; at most one entry per file |
| ResxInputs.LoadIconCategoriesLookup | packages/lucide-winforms/scripts/Program.cs:58-85 | the list under a name is that of the last readable file whose stem matches it ignoring case; unreadable files change nothing |
| ResxBuild.InitCategories | packages/lucide-winforms/scripts/Program.cs:104-108 | keys unique ignoring case |
| ResxBuild.InitCategoriesCover | packages/lucide-winforms/scripts/Program.cs:104-108 | every category name has an entry, and every entry is an empty list under one of the names |
| ResxBuild.InitCategoriesSize | packages/lucide-winforms/scripts/Program.cs:104-108 | no more entries than names |
| ResxBuild.AddToCategory | packages/lucide-winforms/scripts/Program.cs:114-117 | the keys are unchanged |
| ResxBuild.AddToCategoryEffect | packages/lucide-winforms/scripts/Program.cs:114-117 | the icon is added once to the entry whose key matches the category ignoring case, and to no other |
| ResxBuild.AddIconEffect | packages/lucide-winforms/scripts/Program.cs:112-118 | an icon is added to an entry once for every category of its list that matches the entry's key |
| ResxBuild.AddAllEffect | packages/lucide-winforms/scripts/Program.cs:110-119 | after all icons, every entry has gained exactly its `Members` |
| ResxBuild.MembersExactly | packages/lucide-winforms/scripts/Program.cs:110-119 | an icon is a member exactly when its list names the category ignoring case; unknown category names are ignored |
| ResxBuild.SortMembers | packages/lucide-winforms/scripts/Program.cs:122-125 | keys unchanged; every list sorted ignoring case and a permutation of the list before |
| ResxBuild.CategoryIcons | packages/lucide-winforms/scripts/Program.cs:103-125 | one entry per category name, keys unique; every list sorted ignoring case and holding exactly the icons that name that category |
| ResxBuild.Stored | packages/lucide-winforms/scripts/Program.cs:145-148 | one resource exactly when the image is accepted, under the given key and path |
| ResxBuild.CategoryBundle | packages/lucide-winforms/scripts/Program.cs:139-155 | no more resources than members |
| ResxBuild.CategoryBundleSound | packages/lucide-winforms/scripts/Program.cs:139-155 | every stored resource is an accepted member with an ICO file, under its resource key and that file's path |
| ResxBuild.CategoryBundleComplete | packages/lucide-winforms/scripts/Program.cs:139-155 | every member with an ICO file whose image is accepted is stored |
| ResxBuild.AllIconsBundle | packages/lucide-winforms/scripts/Program.cs:171-195 | no more resources than ICO files |
| ResxBuild.AllIconsSound | packages/lucide-winforms/scripts/Program.cs:171-195 | every resource is an accepted ICO file under its resource key |
| ResxBuild.AllIconsComplete | packages/lucide-winforms/scripts/Program.cs:171-195 | every ICO file whose image is accepted is stored |
| ResxBuild.AllIconsInNameOrder | packages/lucide-winforms/scripts/Program.cs:173 | resources follow the order of the icon names, not the listing order |
| ResxBuild.ResxFileNameParts | packages/lucide-winforms/scripts/Program.cs:132-133 | a bundle name is `LucideIcons.` + PascalCase name + `.resx` |
| ResxBuild.ResxFileNameInjective | packages/lucide-winforms/scripts/Program.cs:132-133 | two categories share a file name exactly when their PascalCase names agree |
| ResxBuild.CategoryFileNames | packages/lucide-winforms/scripts/Program.cs:209 | one file name per category name, in order |
| ResxBuild.ResxFiles | packages/lucide-winforms/scripts/Program.cs:208-210 | `LucideIcons.resx` first, then one bundle name per category name, in order, repeats included |
| ResxBuild.Index | packages/lucide-winforms/scripts/Program.cs:201-214 | the icon count is the all-icons total; the category count is the number of names; `files` is `ResxFiles`; `categories` gives every map entry its list length |
| ResxBuild.Bundles | packages/lucide-winforms/scripts/Program.cs:130-161 | one bundle per map entry, in order, named after its category, with no more resources than members |
| ResxBuild.CategoryCounts | packages/lucide-winforms/scripts/Program.cs:211-213 | each category's list holds one entry per membership, so its count does not depend on which icons were stored; no more categories than names |
| ResxBuild.Generate | packages/lucide-winforms/scripts/Program.cs:48-214 | fails exactly when ICO stems clash; otherwise the file list has one entry more than the category names; bundles and counts match the category map; icon count at most the number of ICO files |

## Left out

- Directory listings, file reads and writes, directory creation and path resolution (the project directory probing at Program.cs lines 6-26 included) are not modelled. Listings are parameters: `SvgFile` sequences, ICO file names and `MetadataFile` sequences.
- The exit when the ICO source folder is missing (Program.cs lines 35-43), `process.exit`, and console and progress output are not modelled: they do not change the results.
- Rasterisation and ICO encoding through `sharp` and `png-to-ico` are left out. Whether one SVG converts is the parameter `converts`.
- `Image.FromFile` and `ResXResourceWriter` are left out. Whether an image loads and is stored is the parameter `adds`.
- `getIconMetaData` and its dynamic JSON imports are reduced to the metadata file names. Only its keys are used.
- `tools/build-icons/utils/getAliases.ts` is not part of this model.
- JSON parsing and serialisation are left out. Metadata documents arrive as `MetadataDoc` values and manifests are records.
- The `async`/`Promise.all` structure has no effect on the results and is not modelled.
- ResxBuild.Generate: the category names are taken already in the order `OrderBy(n => n)` gives them (Program.cs line 93). That order is culture-sensitive and is not modelled. `categoryIcons.OrderBy(kv => kv.Key)` (lines 130 and 212) is taken to list the map in that same order.
- ResxBuild.AllIconsBundle: `icoFiles.OrderBy(kv => kv.Key)` (Program.cs line 173) is culture-sensitive. The model orders the icon names by ordinal comparison instead.
- Naming.ToPascalCase: `ToUpperInvariant` and `ToLowerInvariant` change ASCII letters only here. For example, .NET upper-cases `é` to `É`, which the model leaves as it is.
- Ordering.Key: `StringComparer.OrdinalIgnoreCase` upper-cases ASCII letters only here. The same holds for `CiDict.SameKey` and the sorting of category members.
- Ordering.LexLeq: strings are compared code point by code point. JavaScript and .NET compare UTF-16 code units. The two orders differ only when a string holds a character outside the Basic Multilingual Plane.
- SvgColor.ReplaceStrokeColor requires a colour without `$`. JavaScript's `$` replacement patterns are not modelled. Every colour the argument parser yields is `#` and hex digits (`IcoBuild.HexColorIsLiteral`).
- The `null` input of `ToPascalCase` is not modelled: strings here are never null. Null elements of a `categories` array are modelled (`CatNull`).
- The ICO file names are bare names. `Path.GetFileNameWithoutExtension` is modelled on a name without directories.
