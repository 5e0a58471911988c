/** The conversion loop of the ICO build and the `index.json` it writes
    (packages/lucide-ico/scripts/buildIcons.ts, lines 114-188). Reading the
    directory, rasterising and writing files are not modelled: the directory
    listing is a parameter, and whether one conversion succeeds is an
    abstract outcome on the SVG text and the output path. */
module IcoBuild {
  import opened Wrappers
  import opened Text
  import opened Ordering
  import opened IcoCli
  import opened SvgColor

  /** One icon source: its file name in the icon directory and its text. */
  datatype SvgFile = SvgFile(fileName: string, content: string)

  /** One ICO file written: where, from which SVG text, and at which sizes. */
  datatype IcoArtifact = IcoArtifact(path: seq<string>, svg: string, sizes: seq<int>)

  /** `path.basename(svgFile, '.svg')` */
  function IconName(fileName: string): (name: string)
    ensures fileName == name + ".svg" || name == fileName
  {
    StripSuffix(fileName, ".svg")
  }

  /** `path.join(OUTPUT_DIR, `${iconName}.ico`)`, as path segments. */
  function IcoPath(cfg: IcoConfig, fileName: string): (path: seq<string>)
    ensures |path| == |cfg.outputDir| + 1 && path[..|cfg.outputDir|] == cfg.outputDir
  {
    var path := cfg.outputDir + [IconName(fileName) + ".ico"];
    assert path[..|cfg.outputDir|] == cfg.outputDir;
    path
  }

  /** The file name of the ICO is the icon's name with `.ico`, and the icon's
      name is the SVG file name with or without its `.svg`. */
  lemma IcoPathName(cfg: IcoConfig, fileName: string)
    ensures exists name :: IcoPath(cfg, fileName)[|cfg.outputDir|] == name + ".ico" && fileName in {name, name + ".svg"}
  {
    var name := IconName(fileName);
    assert IcoPath(cfg, fileName)[|cfg.outputDir|] == name + ".ico";
  }

  /** For an SVG file `<x>.svg` the ICO is `<x>.ico` directly in the output
      directory: the `.svg` is removed, not kept before `.ico`. */
  lemma IcoFileOfSvg(cfg: IcoConfig, x: string)
    requires |x| > 0
    ensures IcoPath(cfg, x + ".svg") == cfg.outputDir + [x + ".ico"]
  {
    StripSuffixOf(x, ".svg");
  }

  /** A colour that leaves the argument parser is `#` and hex digits, so it
      holds no `$` that `String.replace` would read as a pattern. */
  lemma HexColorIsLiteral(c: string)
    requires IsHexColor(c)
    ensures '$' !in c
  {
    forall i | 0 <= i < |c| ensures c[i] != '$' {
      if i > 0 {
        assert IsHexDigit(c[i]);
      }
    }
  }

  /** A configuration as `Configure` produces it. */
  predicate WellFormed(cfg: IcoConfig) {
    && ValidSizes(cfg.sizes)
    && (cfg.customColor.Some? ==> IsHexColor(cfg.customColor.value))
    && cfg.outputDir == ["dist", ColorDir(cfg.customColor)]
  }

  lemma ConfigureWellFormed(argv: seq<string>)
    ensures WellFormed(Configure(argv))
  {
  }

  /** One pass of the `try` block: `svgToIco` on one file. The outcome of
      rasterising, encoding and writing is `converts`; on success the ICO at
      the output path holds the (recoloured) SVG text at the configured
      sizes, and on failure nothing is recorded. */
  function Attempt(cfg: IcoConfig, converts: (string, seq<string>) -> bool, f: SvgFile): (r: Option<IcoArtifact>)
    requires WellFormed(cfg)
    ensures r.Some? <==> converts(SvgForConversion(f.content, cfg.customColor), IcoPath(cfg, f.fileName))
    ensures r.Some? ==> r.value.path == IcoPath(cfg, f.fileName) && r.value.sizes == cfg.sizes
    ensures r.Some? ==> r.value.svg == SvgForConversion(f.content, cfg.customColor)
  {
    HexColorIsLiteralIfSet(cfg);
    var svg := SvgForConversion(f.content, cfg.customColor);
    var path := IcoPath(cfg, f.fileName);
    if converts(svg, path) then Some(IcoArtifact(path, svg, cfg.sizes)) else None
  }

  lemma HexColorIsLiteralIfSet(cfg: IcoConfig)
    requires WellFormed(cfg)
    ensures cfg.customColor.Some? ==> '$' !in cfg.customColor.value
  {
    if cfg.customColor.Some? {
      HexColorIsLiteral(cfg.customColor.value);
    }
  }

  /** What an ICO holds: the SVG text unchanged when no colour is set, and no
      `currentColor` stroke or fill left when one is. */
  lemma AttemptRecolours(cfg: IcoConfig, converts: (string, seq<string>) -> bool, f: SvgFile)
    requires WellFormed(cfg) && Attempt(cfg, converts, f).Some?
    ensures cfg.customColor.None? ==> Attempt(cfg, converts, f).value.svg == f.content
    ensures cfg.customColor.Some? ==>
      var svg := Attempt(cfg, converts, f).value.svg;
      !Occurs(svg, StrokePattern) && !Occurs(svg, FillPattern)
  {
    HexColorIsLiteralIfSet(cfg);
    if cfg.customColor.Some? {
      SvgForConversionClears(f.content, cfg.customColor.value);
    }
  }

  /** What one file contributes to the results. */
  function Outcome(cfg: IcoConfig, converts: (string, seq<string>) -> bool, f: SvgFile): seq<IcoArtifact>
    requires WellFormed(cfg)
  {
    match Attempt(cfg, converts, f)
    case Some(a) => [a]
    case None => []
  }

  /** Reference definition of the loop's effect: every file is attempted in
      order and the successful conversions are kept. */
  function Converted(cfg: IcoConfig, converts: (string, seq<string>) -> bool, files: seq<SvgFile>): (out: seq<IcoArtifact>)
    requires WellFormed(cfg)
    ensures |out| <= |files|
  {
    if |files| == 0 then []
    else Outcome(cfg, converts, files[0]) + Converted(cfg, converts, files[1..])
  }

  /** Converting a listing in two halves gives the two halves' results. */
  lemma {:induction false} ConvertedAppend(cfg: IcoConfig, converts: (string, seq<string>) -> bool, a: seq<SvgFile>, b: seq<SvgFile>)
    requires WellFormed(cfg)
    ensures Converted(cfg, converts, a + b) == Converted(cfg, converts, a) + Converted(cfg, converts, b)
  {
    if |a| > 0 {
      assert (a + b)[1..] == a[1..] + b;
      ConvertedAppend(cfg, converts, a[1..], b);
    } else {
      assert a + b == b;
    }
  }

  /** A failure does not stop the batch: every file whose conversion
      succeeds is among the results, wherever it sits in the listing. */
  lemma {:induction false} ConvertedComplete(cfg: IcoConfig, converts: (string, seq<string>) -> bool, files: seq<SvgFile>, i: nat)
    requires WellFormed(cfg) && i < |files|
    requires Attempt(cfg, converts, files[i]).Some?
    ensures Attempt(cfg, converts, files[i]).value in Converted(cfg, converts, files)
  {
    if i > 0 {
      assert files[1..][i - 1] == files[i];
      ConvertedComplete(cfg, converts, files[1..], i - 1);
    }
  }

  /** Nothing is invented: every result is the successful conversion of a
      listed file. */
  lemma {:induction false} ConvertedSound(cfg: IcoConfig, converts: (string, seq<string>) -> bool, files: seq<SvgFile>, a: IcoArtifact)
    requires WellFormed(cfg)
    requires a in Converted(cfg, converts, files)
    ensures exists i | 0 <= i < |files| :: Attempt(cfg, converts, files[i]) == Some(a)
  {
    var here := Outcome(cfg, converts, files[0]);
    if a !in here {
      ConvertedSound(cfg, converts, files[1..], a);
      var i :| 0 <= i < |files[1..]| && Attempt(cfg, converts, files[1..][i]) == Some(a);
      assert files[1..][i] == files[i + 1];
    }
  }

  /** Two different icon files never share an ICO path. */
  lemma IcoPathInjective(cfg: IcoConfig, x: string, y: string)
    requires |x| > 0 && |y| > 0 && x != y
    ensures IcoPath(cfg, x + ".svg") != IcoPath(cfg, y + ".svg")
  {
    StripSuffixOf(x, ".svg");
    StripSuffixOf(y, ".svg");
    var px := IcoPath(cfg, x + ".svg");
    var py := IcoPath(cfg, y + ".svg");
    assert px[|cfg.outputDir|] == x + ".ico";
    assert py[|cfg.outputDir|] == y + ".ico";
    assert (x + ".ico")[..|x|] == x;
    assert (y + ".ico")[..|y|] == y;
    if |x| == |y| {
      assert (x + ".ico")[..|x|] != (y + ".ico")[..|y|];
    } else {
      assert |x + ".ico"| != |y + ".ico"|;
    }
  }

  /** The conversion loop of `buildIcons`: each file is attempted once and
      counted once, as a success or as an error. */
  method BuildIcons(argv: seq<string>, files: seq<SvgFile>, converts: (string, seq<string>) -> bool)
    returns (successCount: nat, errorCount: nat, written: seq<IcoArtifact>)
    ensures successCount + errorCount == |files|
    ensures successCount == |written|
    ensures written == Converted(Configure(argv), converts, files)
    ensures forall a | a in written :: |a.path| == 3 && a.path[0] == "dist" && a.path[1] == Configure(argv).outputDir[1]
  {
    var cfg := Configure(argv);
    ConfigureWellFormed(argv);
    successCount, errorCount, written := 0, 0, [];
    var i := 0;
    while i < |files|
      invariant 0 <= i <= |files|
      invariant successCount + errorCount == i
      invariant successCount == |written|
      invariant written == Converted(cfg, converts, files[..i])
      invariant forall a | a in written :: |a.path| == 3 && a.path[..2] == cfg.outputDir
    {
      var out := Outcome(cfg, converts, files[i]);
      ConvertedStep(cfg, converts, files, i);
      OutcomeShape(cfg, converts, files[i]);
      written := written + out;
      if |out| == 1 {
        successCount := successCount + 1;
      } else {
        errorCount := errorCount + 1;
      }
      i := i + 1;
    }
    assert files[..|files|] == files;
  }

  /** One more file extends the results by that file's outcome. */
  lemma ConvertedStep(cfg: IcoConfig, converts: (string, seq<string>) -> bool, files: seq<SvgFile>, i: nat)
    requires WellFormed(cfg) && i < |files|
    ensures Converted(cfg, converts, files[..i + 1])
      == Converted(cfg, converts, files[..i]) + Outcome(cfg, converts, files[i])
  {
    assert files[..i + 1] == files[..i] + [files[i]];
    ConvertedAppend(cfg, converts, files[..i], [files[i]]);
    assert [files[i]][1..] == [];
    assert Converted(cfg, converts, [files[i]]) == Outcome(cfg, converts, files[i]) + [];
  }

  /** A file contributes at most one ICO, under the output directory. */
  lemma OutcomeShape(cfg: IcoConfig, converts: (string, seq<string>) -> bool, f: SvgFile)
    requires WellFormed(cfg)
    ensures |Outcome(cfg, converts, f)| <= 1
    ensures forall a | a in Outcome(cfg, converts, f) :: |a.path| == 3 && a.path[..2] == cfg.outputDir
  {
  }

  // ---------------------------------------------------------------------
  // index.json
  // ---------------------------------------------------------------------

  /** The fields of `indexContent`. */
  datatype IcoIndex = IcoIndex(
    name: string,
    version: string,
    iconCount: nat,
    sizes: seq<int>,
    colorDepth: string,
    format: string,
    color: string,
    icons: seq<string>)

  /** `path.basename(jsonFile, '.json')` for every metadata file: the keys of
      `iconMetaData`. */
  function MetadataKeys(jsonFiles: seq<string>): (keys: seq<string>)
    ensures |keys| == |jsonFiles|
    ensures forall i | 0 <= i < |keys| :: jsonFiles[i] in {keys[i], keys[i] + ".json"}
  {
    seq(|jsonFiles|, i requires 0 <= i < |jsonFiles| => StripSuffix(jsonFiles[i], ".json"))
  }

  /** `indexContent` after a run with configuration `cfg` and `successCount`
      conversions. */
  function Index(cfg: IcoConfig, successCount: nat, jsonFiles: seq<string>): (index: IcoIndex)
    requires WellFormed(cfg)
    ensures index.iconCount == successCount && index.sizes == cfg.sizes
    ensures cfg.customColor.Some? ==> index.color == cfg.outputDir[1] && IsHexColor(index.color)
    ensures cfg.customColor.None? ==> index.color == "currentColor" && cfg.outputDir[1] == "#000000"
    ensures StrictlySorted(index.icons)
    ensures forall k :: k in index.icons <==> exists i | 0 <= i < |jsonFiles| :: k == StripSuffix(jsonFiles[i], ".json")
  {
    var keys := MetadataKeys(jsonFiles);
    var color := if cfg.customColor.Some? && cfg.customColor.value != "" then cfg.customColor.value else "currentColor";
    var icons := SortedKeys(keys);
    assert forall k :: k in keys <==> exists i | 0 <= i < |jsonFiles| :: k == StripSuffix(jsonFiles[i], ".json") by {
      forall k | k in keys ensures exists i | 0 <= i < |jsonFiles| :: k == StripSuffix(jsonFiles[i], ".json") {
        var i :| 0 <= i < |keys| && keys[i] == k;
        assert k == StripSuffix(jsonFiles[i], ".json");
      }
      forall k | exists i | 0 <= i < |jsonFiles| :: k == StripSuffix(jsonFiles[i], ".json") ensures k in keys {
        var i :| 0 <= i < |jsonFiles| && k == StripSuffix(jsonFiles[i], ".json");
        assert keys[i] == k;
      }
    }
    IcoIndex("lucide-ico", "0.0.1", successCount, cfg.sizes, "32-bit with transparency",
             "PNG compressed ICO", color, icons)
  }

  /** The icon list depends only on which metadata files exist, not on the
      order they are listed in or on repeats. */
  lemma IndexIconsOrderFree(cfg: IcoConfig, n: nat, jsonFiles: seq<string>, jsonFiles': seq<string>)
    requires WellFormed(cfg)
    requires forall f :: f in jsonFiles <==> f in jsonFiles'
    ensures Index(cfg, n, jsonFiles).icons == Index(cfg, n, jsonFiles').icons
  {
    IconsFollowFiles(cfg, n, jsonFiles, jsonFiles');
    IconsFollowFiles(cfg, n, jsonFiles', jsonFiles);
    StrictlySortedUnique(Index(cfg, n, jsonFiles).icons, Index(cfg, n, jsonFiles').icons);
  }

  lemma IconsFollowFiles(cfg: IcoConfig, n: nat, jsonFiles: seq<string>, jsonFiles': seq<string>)
    requires WellFormed(cfg)
    requires forall f | f in jsonFiles :: f in jsonFiles'
    ensures forall k | k in Index(cfg, n, jsonFiles).icons :: k in Index(cfg, n, jsonFiles').icons
  {
    var b := Index(cfg, n, jsonFiles').icons;
    forall k | k in Index(cfg, n, jsonFiles).icons ensures k in b {
      var i :| 0 <= i < |jsonFiles| && k == StripSuffix(jsonFiles[i], ".json");
      assert jsonFiles[i] in jsonFiles;
      var j :| 0 <= j < |jsonFiles'| && jsonFiles'[j] == jsonFiles[i];
    }
  }

  // ---------------------------------------------------------------------
  // A whole run
  // ---------------------------------------------------------------------

  /** `buildIcons` from start to end: the conversion loop, then
      `indexContent` with the success count the loop produced. */
  method Run(argv: seq<string>, files: seq<SvgFile>, jsonFiles: seq<string>, converts: (string, seq<string>) -> bool)
    returns (errorCount: nat, written: seq<IcoArtifact>, index: IcoIndex)
    ensures written == Converted(Configure(argv), converts, files)
    ensures index.iconCount == |written| && index.iconCount + errorCount == |files|
    ensures index.sizes == Configure(argv).sizes
    ensures index.icons == SortedKeys(MetadataKeys(jsonFiles))
    ensures index.color == if Configure(argv).customColor.Some? then Configure(argv).customColor.value else "currentColor"
  {
    var successCount;
    successCount, errorCount, written := BuildIcons(argv, files, converts);
    ConfigureWellFormed(argv);
    index := Index(Configure(argv), successCount, jsonFiles);
  }
}
