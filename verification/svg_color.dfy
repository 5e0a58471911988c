/** Colour substitution in icon sources before rasterisation
    (packages/lucide-ico/scripts/buildIcons.ts, lines 49-55 and 82-88).
    The icons draw with `currentColor`; a custom colour replaces every
    `stroke="currentColor"` and `fill="currentColor"` attribute. */
module SvgColor {
  import opened Wrappers
  import opened Text

  const CurrentColor: string := "currentColor"
  const StrokePattern: string := "stroke=\"currentColor\""
  const FillPattern: string := "fill=\"currentColor\""

  function StrokeOf(color: string): string {
    "stroke=\"" + color + "\""
  }

  function FillOf(color: string): string {
    "fill=\"" + color + "\""
  }

  /** `replaceStrokeColor`: every stroke attribute first, then every fill
      attribute. The colour is taken literally, which is what JavaScript does
      with a replacement string that holds no `$`. */
  function ReplaceStrokeColor(svg: string, color: string): string
    requires '$' !in color
  {
    ReplaceAll(ReplaceAll(svg, StrokePattern, StrokeOf(color)), FillPattern, FillOf(color))
  }

  /** The SVG text `svgToIco` rasterises: recoloured only when a colour is
      set (`if (color)` is false for `null` and for the empty string). */
  function SvgForConversion(content: string, color: Option<string>): (svg: string)
    requires color.Some? ==> '$' !in color.value
    ensures color.None? ==> svg == content
  {
    if color.Some? && color.value != "" then ReplaceStrokeColor(content, color.value) else content
  }

  /** With a hex colour set, no `currentColor` stroke or fill is left. */
  lemma SvgForConversionClears(content: string, color: string)
    requires IsHexColor(color) && '$' !in color
    ensures var svg := SvgForConversion(content, Some(color));
      !Occurs(svg, StrokePattern) && !Occurs(svg, FillPattern)
  {
    ReplaceStrokeColorClears(content, color);
  }

  // ---------------------------------------------------------------------
  // Why the substitution cannot create new matches: with a hex colour, no
  // replacement text can take part in either pattern.
  // ---------------------------------------------------------------------

  lemma MismatchBlocks(x: string, y: string, m: nat)
    requires m < |x| && m < |y| && x[m] != y[m]
    ensures !StartsWith(x, y) && !StartsWith(y, x)
  {
    if |y| <= |x| {
      assert x[..|y|][m] == x[m];
      assert x[..|y|] != y;
    }
    if |x| <= |y| {
      assert y[..|x|][m] == y[m];
      assert y[..|x|] != x;
    }
  }

  lemma StrokeOfChars(color: string)
    requires IsHexColor(color)
    ensures |StrokeOf(color)| == 16
    ensures StrokeOf(color)[0] == 's' && StrokeOf(color)[8] == '#' && StrokeOf(color)[15] == '"'
    ensures forall k | 1 <= k < 8 :: StrokeOf(color)[k] in "troke=\""
    ensures forall k | 9 <= k < 15 :: IsHexDigit(StrokeOf(color)[k])
  {
    assert forall k | 9 <= k < 15 :: StrokeOf(color)[k] == color[k - 8];
  }

  lemma FillOfChars(color: string)
    requires IsHexColor(color)
    ensures |FillOf(color)| == 14
    ensures FillOf(color)[0] == 'f' && FillOf(color)[6] == '#' && FillOf(color)[13] == '"'
    ensures forall k | 1 <= k < 6 :: FillOf(color)[k] in "ill=\""
    ensures forall k | 7 <= k < 13 :: IsHexDigit(FillOf(color)[k])
  {
    assert forall k | 7 <= k < 13 :: FillOf(color)[k] == color[k - 6];
  }

  /** Neither replacement text hosts a match of either pattern. */
  lemma ReplacementsDisjoint(color: string)
    requires IsHexColor(color)
    ensures NoOverlap(StrokeOf(color), StrokePattern)
    ensures NoOverlap(StrokeOf(color), FillPattern)
    ensures NoOverlap(FillOf(color), StrokePattern)
    ensures NoOverlap(FillOf(color), FillPattern)
  {
    var s := StrokeOf(color);
    var f := FillOf(color);
    StrokeOfChars(color);
    FillOfChars(color);
    forall k | 0 <= k < |s|
      ensures !StartsWith(s[k..], StrokePattern) && !StartsWith(StrokePattern, s[k..])
      ensures !StartsWith(s[k..], FillPattern) && !StartsWith(FillPattern, s[k..])
    {
      if k == 0 {
        MismatchBlocks(s[k..], StrokePattern, 8);
      } else {
        MismatchBlocks(s[k..], StrokePattern, 0);
      }
      if s[k] == 'f' {
        MismatchBlocks(s[k..], FillPattern, 1);
      } else {
        MismatchBlocks(s[k..], FillPattern, 0);
      }
    }
    forall k | 0 <= k < |f|
      ensures !StartsWith(f[k..], StrokePattern) && !StartsWith(StrokePattern, f[k..])
      ensures !StartsWith(f[k..], FillPattern) && !StartsWith(FillPattern, f[k..])
    {
      MismatchBlocks(f[k..], StrokePattern, 0);
      if k == 0 {
        MismatchBlocks(f[k..], FillPattern, 6);
      } else if f[k] == 'f' {
        MismatchBlocks(f[k..], FillPattern, 1);
      } else {
        MismatchBlocks(f[k..], FillPattern, 0);
      }
    }
  }

  /** With a hex colour, the result holds neither `currentColor` attribute:
      every one is replaced and none is formed anew. */
  lemma ReplaceStrokeColorClears(svg: string, color: string)
    requires IsHexColor(color)
    ensures !Occurs(ReplaceStrokeColor(svg, color), StrokePattern)
    ensures !Occurs(ReplaceStrokeColor(svg, color), FillPattern)
  {
    var once := ReplaceAll(svg, StrokePattern, StrokeOf(color));
    StrokeCleared(svg, color);
    FillCleared(once, color);
  }

  /** The first pass leaves no stroke pattern. */
  lemma StrokeCleared(svg: string, color: string)
    requires IsHexColor(color)
    ensures !Occurs(ReplaceAll(svg, StrokePattern, StrokeOf(color)), StrokePattern)
  {
    ReplacementsDisjoint(color);
    StrokeOfChars(color);
    ReplaceLeavesNo(svg, StrokePattern, StrokeOf(color), StrokePattern);
  }

  /** The second pass leaves no fill pattern and forms no stroke pattern. */
  lemma FillCleared(once: string, color: string)
    requires IsHexColor(color)
    requires !Occurs(once, StrokePattern)
    ensures !Occurs(ReplaceAll(once, FillPattern, FillOf(color)), StrokePattern)
    ensures !Occurs(ReplaceAll(once, FillPattern, FillOf(color)), FillPattern)
  {
    ReplacementsDisjoint(color);
    FillOfChars(color);
    ReplaceLeavesNo(once, FillPattern, FillOf(color), StrokePattern);
    ReplaceLeavesNo(once, FillPattern, FillOf(color), FillPattern);
  }

  /** Each replaced attribute changes the length by the difference between
      the colour and `currentColor`; both kinds are counted in the input. */
  lemma ReplaceStrokeColorLength(svg: string, color: string)
    requires IsHexColor(color)
    ensures |ReplaceStrokeColor(svg, color)| ==
      |svg| + (CountMatches(svg, StrokePattern) + CountMatches(svg, FillPattern)) * (|color| - |CurrentColor|)
  {
    ReplacementsDisjoint(color);
    StrokeOfChars(color);
    var once := ReplaceAll(svg, StrokePattern, StrokeOf(color));
    ReplaceAllLength(svg, StrokePattern, StrokeOf(color));
    ReplaceAllLength(once, FillPattern, FillOf(color));
    CountAfterReplace(svg, StrokePattern, StrokeOf(color), FillPattern);
  }

  /** Text holding neither attribute passes through unchanged, whatever the
      colour. */
  lemma ReplaceStrokeColorUnchanged(svg: string, color: string)
    requires '$' !in color
    requires !Occurs(svg, StrokePattern) && !Occurs(svg, FillPattern)
    ensures ReplaceStrokeColor(svg, color) == svg
  {
    ReplaceAbsent(svg, StrokePattern, StrokeOf(color));
    ReplaceAbsent(svg, FillPattern, FillOf(color));
  }
}
