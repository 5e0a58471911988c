/** Command-line handling of the ICO build script: the optional colour and
    size arguments (packages/lucide-ico/scripts/buildIcons.ts, lines 8-62).
    The argument vector is a parameter instead of `process.argv`. */
module IcoCli {
  import opened Wrappers
  import opened Text
  import opened Ordering

  /** The sizes rendered into every ICO file when no size argument is given. */
  const DefaultIcoSizes: seq<int> := [16, 24, 32, 48, 64, 128, 256]

  /** Largest edge, in pixels, the ICO format can hold. */
  const MaxIcoSize: int := 256

  /** A usable size list: at least one size, ascending, each within 1..256. */
  predicate ValidSizes(sizes: seq<int>) {
    && |sizes| > 0
    && Ascending(sizes)
    && forall i | 0 <= i < |sizes| :: 1 <= sizes[i] <= MaxIcoSize
  }

  /** `process.argv.slice(2)`: the arguments after the runtime and the script. */
  function UserArgs(argv: seq<string>): seq<string> {
    if |argv| <= 2 then [] else argv[2..]
  }

  // ---------------------------------------------------------------------
  // Colour argument
  // ---------------------------------------------------------------------

  /** An argument matching `^#([0-9A-Fa-f]{3}|[0-9A-Fa-f]{6})$`. */
  predicate IsColorArg(arg: string) {
    && (|arg| == 4 || |arg| == 7)
    && arg[0] == '#'
    && forall i | 1 <= i < |arg| :: IsHexDigit(arg[i])
  }

  /** The six-digit form of a colour argument: a three-digit colour has each
      digit doubled, a six-digit one is kept as written. */
  function NormalizeColor(arg: string): (c: string)
    requires IsColorArg(arg)
    ensures IsHexColor(c)
    ensures |arg| == 7 ==> c == arg
    ensures |arg| == 4 ==> forall k | 0 <= k < 3 :: c[2 * k + 1] == arg[k + 1] && c[2 * k + 2] == arg[k + 1]
  {
    if |arg| == 4 then ['#', arg[1], arg[1], arg[2], arg[2], arg[3], arg[3]]
    else arg
  }

  /** `parseColorArg`: the first colour argument, normalised to six digits,
      or `null` when no argument is a colour. */
  function ParseColor(args: seq<string>): (r: Option<string>)
    ensures r.None? <==> forall i | 0 <= i < |args| :: !IsColorArg(args[i])
    ensures r.Some? ==> IsHexColor(r.value)
    ensures r.Some? ==>
      exists i | 0 <= i < |args| ::
        && IsColorArg(args[i])
        && (forall j | 0 <= j < i :: !IsColorArg(args[j]))
        && r.value == NormalizeColor(args[i])
  {
    if |args| == 0 then None
    else if IsColorArg(args[0]) then Some(NormalizeColor(args[0]))
    else
      var r := ParseColor(args[1..]);
      assert forall i | 1 <= i < |args| :: args[1..][i - 1] == args[i];
      r
  }

  /** Numeric value of a hex digit. */
  function HexValue(c: char): (v: nat)
    requires IsHexDigit(c)
    ensures v < 16
  {
    if IsDigit(c) then DigitValue(c)
    else if 'a' <= c <= 'f' then (c as int) - ('a' as int) + 10
    else (c as int) - ('A' as int) + 10
  }

  /** Red, green and blue channel of a six-digit colour, each 0..255. */
  function Channels(c: string): seq<int>
    requires IsHexColor(c)
  {
    [16 * HexValue(c[1]) + HexValue(c[2]),
     16 * HexValue(c[3]) + HexValue(c[4]),
     16 * HexValue(c[5]) + HexValue(c[6])]
  }

  /** Doubling the digits of a three-digit colour denotes the same colour:
      each short digit `d` stands for the channel value `17 * d`, as in CSS. */
  lemma NormalizeKeepsChannels(arg: string)
    requires IsColorArg(arg) && |arg| == 4
    ensures Channels(NormalizeColor(arg)) ==
      [17 * HexValue(arg[1]), 17 * HexValue(arg[2]), 17 * HexValue(arg[3])]
  {
  }

  /** Parsing is idempotent: the colour that comes out is itself accepted and
      comes out unchanged when given back as the only argument. */
  lemma ParseColorIdempotent(args: seq<string>)
    requires ParseColor(args).Some?
    ensures ParseColor([ParseColor(args).value]) == ParseColor(args)
  {
  }

  /** The examples the argument comment gives, and the rejected near misses. */
  lemma ParseColorExpandsShortForm()
    ensures ParseColor(["#abc"]) == Some("#aabbcc")
  {
    assert IsColorArg("#abc");
  }

  lemma ParseColorKeepsCase()
    ensures ParseColor(["#AbC123"]) == Some("#AbC123")
  {
    assert IsColorArg("#AbC123");
  }

  lemma ParseColorRejectsNearMisses()
    ensures ParseColor(["#12", "#abcd", "notacolor", "fff"]) == None
  {
  }

  /** The first colour argument wins; a malformed one is skipped over. */
  lemma ParseColorFirstWins()
    ensures ParseColor(["16,24", "#abg", "#fff", "#000"]) == Some("#ffffff")
  {
    assert !IsColorArg("#abg") by { assert !IsHexDigit("#abg"[3]); }
    assert IsColorArg("#fff");
    assert ["16,24", "#abg", "#fff", "#000"][1..] == ["#abg", "#fff", "#000"];
    assert ["#abg", "#fff", "#000"][1..] == ["#fff", "#000"];
  }

  // ---------------------------------------------------------------------
  // Size argument
  // ---------------------------------------------------------------------

  /** An argument matching `^(\d+\s*,\s*)+(\d+)$` or `^\d+$`. Between its
      commas every field is a digit run with optional white space around it,
      and white space never begins or ends the whole argument. */
  predicate IsSizesArg(arg: string) {
    var fields := Split(arg, {','});
    && |arg| > 0
    && !IsJsSpace(arg[0])
    && !IsJsSpace(arg[|arg| - 1])
    && forall i | 0 <= i < |fields| :: IsDigits(Trim(fields[i]))
  }

  /** `parseInt(s.trim(), 10)` on one field of an accepted size list. */
  function FieldValue(field: string): nat
    requires IsDigits(Trim(field))
  {
    DecimalValue(Trim(field))
  }

  /** `.map((s) => parseInt(s.trim(), 10))` over the comma-separated fields. */
  function FieldValues(fields: seq<string>): (vs: seq<int>)
    requires forall i | 0 <= i < |fields| :: IsDigits(Trim(fields[i]))
    ensures |vs| == |fields|
    ensures forall i | 0 <= i < |fields| :: vs[i] == FieldValue(fields[i])
  {
    seq(|fields|, i requires 0 <= i < |fields| => FieldValue(fields[i]))
  }

  /** `.filter((n) => !isNaN(n) && n > 0 && n <= 256)`: no parsed field is
      `NaN`, so only the range test remains. */
  function InRange(vs: seq<int>): (r: seq<int>)
    ensures forall i | 0 <= i < |r| :: 1 <= r[i] <= MaxIcoSize
    ensures forall x :: multiset(r)[x] == if 1 <= x <= MaxIcoSize then multiset(vs)[x] else 0
  {
    if |vs| == 0 then []
    else
      assert vs == [vs[0]] + vs[1..];
      var rest := InRange(vs[1..]);
      if 1 <= vs[0] <= MaxIcoSize then [vs[0]] + rest else rest
  }

  /** Sizes already in range all pass the filter, in order. */
  lemma {:induction false} InRangeKeepsValid(vs: seq<int>)
    requires forall i | 0 <= i < |vs| :: 1 <= vs[i] <= MaxIcoSize
    ensures InRange(vs) == vs
  {
    if |vs| > 0 {
      InRangeKeepsValid(vs[1..]);
      assert vs == [vs[0]] + vs[1..];
    }
  }

  /** The in-range sizes an accepted size argument lists, in written order. */
  function SizeCandidates(arg: string): seq<int>
    requires IsSizesArg(arg)
  {
    InRange(FieldValues(Split(arg, {','})))
  }

  /** An argument `parseSizesArg` stops at: a size list with at least one
      size in range. */
  predicate SelectsSizes(arg: string) {
    IsSizesArg(arg) && |SizeCandidates(arg)| > 0
  }

  /** `args[i]` is the first argument `parseSizesArg` stops at, and `sizes`
      holds exactly its in-range sizes. */
  predicate PicksSizesAt(args: seq<string>, i: int, sizes: seq<int>) {
    && 0 <= i < |args|
    && SelectsSizes(args[i])
    && (forall j | 0 <= j < i :: !SelectsSizes(args[j]))
    && multiset(sizes) == multiset(SizeCandidates(args[i]))
  }

  /** `parseSizesArg`: the in-range sizes of the first size-list argument that
      has any, sorted ascending with repeats kept; `null` when there is none. */
  function ParseSizes(args: seq<string>): (r: Option<seq<int>>)
    ensures r.Some? ==> ValidSizes(r.value)
  {
    if |args| == 0 then None
    else if SelectsSizes(args[0]) then
      SortedCandidatesValid(args[0]);
      Some(SortInts(SizeCandidates(args[0])))
    else ParseSizes(args[1..])
  }

  /** A size list is found exactly when some argument selects sizes, and
      then it is a sorted copy of the first such argument's sizes. */
  lemma {:induction false} ParseSizesPicks(args: seq<string>)
    ensures ParseSizes(args).None? <==> forall i | 0 <= i < |args| :: !SelectsSizes(args[i])
    ensures ParseSizes(args).Some? ==> exists i :: PicksSizesAt(args, i, ParseSizes(args).value)
  {
    if |args| > 0 {
      if SelectsSizes(args[0]) {
        assert PicksSizesAt(args, 0, ParseSizes(args).value);
      } else {
        var tail := args[1..];
        ParseSizesPicks(tail);
        assert forall i | 1 <= i < |args| :: tail[i - 1] == args[i];
        if ParseSizes(tail).Some? {
          PicksLater(args, ParseSizes(tail).value);
        }
      }
    }
  }

  lemma PicksLater(args: seq<string>, sizes: seq<int>)
    requires |args| > 0 && !SelectsSizes(args[0])
    requires exists i :: PicksSizesAt(args[1..], i, sizes)
    ensures exists i :: PicksSizesAt(args, i, sizes)
  {
    var tail := args[1..];
    var i :| PicksSizesAt(tail, i, sizes);
    assert tail[i] == args[i + 1];
    forall j | 0 <= j < i + 1 ensures !SelectsSizes(args[j]) {
      if j > 0 {
        assert tail[j - 1] == args[j];
        assert !SelectsSizes(tail[j - 1]);
      }
    }
    assert PicksSizesAt(args, i + 1, sizes);
  }

  lemma SortedCandidatesValid(arg: string)
    requires SelectsSizes(arg)
    ensures ValidSizes(SortInts(SizeCandidates(arg)))
  {
    var c := SizeCandidates(arg);
    var sizes := SortInts(c);
    forall k | 0 <= k < |sizes| ensures 1 <= sizes[k] <= MaxIcoSize {
      assert sizes[k] in multiset(c);
    }
    assert |sizes| == |multiset(c)|;
  }

  /** A digit run holds no comma and no white space. */
  lemma DigitsArePlain(d: string)
    requires IsDigits(d)
    ensures NoneIn(d, {','})
    ensures forall i | 0 <= i < |d| :: !IsJsSpace(d[i])
  {
  }

  /** A single number is a size argument with one field. */
  lemma OneField(d: string)
    requires IsDigits(d)
    ensures IsSizesArg(d)
    ensures FieldValues(Split(d, {','})) == [DecimalValue(d)]
  {
    DigitsArePlain(d);
    SplitNoSep(d, {','});
    TrimNoSpace(d);
  }

  /** A number and a comma in front of a size argument give a size argument
      with one more field. */
  lemma FieldThen(d: string, rest: string)
    requires IsDigits(d) && IsSizesArg(rest)
    ensures IsSizesArg(d + "," + rest)
    ensures FieldValues(Split(d + "," + rest, {','})) == [DecimalValue(d)] + FieldValues(Split(rest, {','}))
  {
    var s := d + "," + rest;
    DigitsArePlain(d);
    assert s == d + [','] + rest;
    SplitField(d, ',', rest, {','});
    TrimNoSpace(d);
    assert s[0] == d[0] && s[|s| - 1] == rest[|rest| - 1];
    var fields := Split(s, {','});
    var tail := Split(rest, {','});
    assert fields == [d] + tail;
    forall i | 0 <= i < |fields| ensures IsDigits(Trim(fields[i])) {
      if i > 0 {
        assert fields[i] == tail[i - 1];
      }
    }
  }

  /** The sizes of a list are sorted ascending: `32,16,24` gives
      `[16, 24, 32]`. */
  lemma ParseSizesSortsExample()
    ensures ParseSizes(["32,16,24"]) == Some([16, 24, 32])
  {
    assert "32" + "," + "16" + "," + "24" == "32,16,24";
    assert "32"[..1] == "3" && "16"[..1] == "1" && "24"[..1] == "2";
    assert "3"[..0] == "1"[..0] == "2"[..0] == "";
    assert DecimalValue("32") == 32 && DecimalValue("16") == 16 && DecimalValue("24") == 24;
    ParseThreeSizes("32", "16", "24");
  }

  /** A list of three sizes in range whose middle one is least and whose
      first one is greatest. */
  lemma ParseThreeSizes(x: string, y: string, z: string)
    requires IsDigits(x) && IsDigits(y) && IsDigits(z)
    requires 1 <= DecimalValue(y) < DecimalValue(z) < DecimalValue(x) <= MaxIcoSize
    ensures ParseSizes([x + "," + y + "," + z]) == Some([DecimalValue(y), DecimalValue(z), DecimalValue(x)])
  {
    var arg := x + "," + y + "," + z;
    var a, b, c := DecimalValue(x), DecimalValue(y), DecimalValue(z);
    ThreeFields(x, y, z);
    InRangeKeepsThree(a, b, c);
    SortThree(a, b, c);
    assert SortInts(SizeCandidates(arg)) == [b, c, a];
  }

  lemma ThreeFields(x: string, y: string, z: string)
    requires IsDigits(x) && IsDigits(y) && IsDigits(z)
    ensures IsSizesArg(x + "," + y + "," + z)
    ensures FieldValues(Split(x + "," + y + "," + z, {','})) == [DecimalValue(x), DecimalValue(y), DecimalValue(z)]
  {
    assert x + "," + y + "," + z == x + "," + (y + "," + z);
    OneField(z);
    FieldThen(y, z);
    FieldThen(x, y + "," + z);
  }

  lemma InRangeKeepsThree(a: int, b: int, c: int)
    requires 1 <= a <= MaxIcoSize && 1 <= b <= MaxIcoSize && 1 <= c <= MaxIcoSize
    ensures InRange([a, b, c]) == [a, b, c]
  {
    InRangeKeepsValid([a, b, c]);
  }

  lemma SortThreeExample()
    ensures SortInts([32, 16, 24]) == [16, 24, 32]
  {
    SortThree(32, 16, 24);
  }

  /** Three numbers whose middle one is least and whose first one is
      greatest. */
  lemma SortThree(a: int, b: int, c: int)
    requires b < c < a
    ensures SortInts([a, b, c]) == [b, c, a]
  {
    var sorted := SortInts([a, b, c]);
    RotatedSameElements(a, b, c);
    AscendingThree(b, c, a);
    AscendingUnique(sorted, [b, c, a]);
  }

  lemma AscendingThree(x: int, y: int, z: int)
    requires x <= y <= z
    ensures Ascending([x, y, z])
  {
  }

  lemma RotatedSameElements(a: int, b: int, c: int)
    ensures multiset([b, c, a]) == multiset([a, b, c])
  {
    assert [b, c, a] == [b, c] + [a] && [a, b, c] == [a] + [b, c];
  }

  /** An argument whose only size is out of range is passed over, and the
      search goes on: `300` is skipped and `16` is taken. */
  lemma ParseSizesSkipsExample()
    ensures ParseSizes(["300", "16"]) == Some([16])
  {
    assert "300"[..2] == "30" && "30"[..1] == "3" && "16"[..1] == "1" && "3"[..0] == "1"[..0] == "";
    assert DecimalValue("300") == 300 && DecimalValue("16") == 16;
    SkipThenSize("300", "16");
  }

  /** A number out of range, then one in range. */
  lemma SkipThenSize(x: string, y: string)
    requires IsDigits(x) && IsDigits(y)
    requires !(1 <= DecimalValue(x) <= MaxIcoSize) && 1 <= DecimalValue(y) <= MaxIcoSize
    ensures ParseSizes([x, y]) == Some([DecimalValue(y)])
  {
    OneField(x);
    OneField(y);
    var v := DecimalValue(y);
    assert SizeCandidates(x) == InRange([DecimalValue(x)]) == [];
    assert SizeCandidates(y) == InRange([v]) == [v];
    assert [x, y][1..] == [y];
    assert [v][..0] == [];
    assert SortInts([v]) == InsertInt(v, []) == [v];
  }

  /** The sizes actually rendered: the parsed list, or the default one. */
  function EffectiveSizes(args: seq<string>): (sizes: seq<int>)
    ensures ValidSizes(sizes)
  {
    DefaultSizesValid();
    ParseSizes(args).GetOr(DefaultIcoSizes)
  }

  /** The default sizes are used exactly when no argument selects sizes;
      otherwise the first one that does decides. */
  lemma EffectiveSizesChoice(args: seq<string>)
    ensures (forall i | 0 <= i < |args| :: !SelectsSizes(args[i])) ==> EffectiveSizes(args) == DefaultIcoSizes
    ensures (exists i | 0 <= i < |args| :: SelectsSizes(args[i])) ==>
      exists i :: PicksSizesAt(args, i, EffectiveSizes(args))
  {
    ParseSizesPicks(args);
    if ParseSizes(args).Some? {
      assert EffectiveSizes(args) == ParseSizes(args).value;
    } else {
      assert EffectiveSizes(args) == DefaultIcoSizes;
    }
  }

  lemma DefaultSizesValid()
    ensures ValidSizes(DefaultIcoSizes)
  {
  }

  // ---------------------------------------------------------------------
  // The configuration the script runs with
  // ---------------------------------------------------------------------

  /** Settings fixed at start-up: rendered sizes, optional colour override and
      the output directory as path segments below the package. */
  datatype IcoConfig = IcoConfig(sizes: seq<int>, customColor: Option<string>, outputDir: seq<string>)

  /** Directory segment for a run: the custom colour, or `#000000`. */
  function ColorDir(customColor: Option<string>): string {
    customColor.GetOr("#000000")
  }

  /** `CUSTOM_COLOR`, `CUSTOM_SIZES`, `ICO_SIZES` and `OUTPUT_DIR`. */
  function Configure(argv: seq<string>): (cfg: IcoConfig)
    ensures ValidSizes(cfg.sizes) && cfg.sizes == EffectiveSizes(UserArgs(argv))
    ensures cfg.customColor == ParseColor(UserArgs(argv))
    ensures cfg.customColor.Some? ==> IsHexColor(cfg.customColor.value)
    ensures |cfg.outputDir| == 2 && cfg.outputDir[0] == "dist" && IsHexColor(cfg.outputDir[1])
    ensures cfg.customColor.None? <==> forall i | 0 <= i < |UserArgs(argv)| :: !IsColorArg(UserArgs(argv)[i])
    ensures cfg.outputDir[1] == if cfg.customColor.Some? then cfg.customColor.value else "#000000"
  {
    var args := UserArgs(argv);
    var color := ParseColor(args);
    IcoConfig(EffectiveSizes(args), color, ["dist", ColorDir(color)])
  }
}
