/** Name mangling of the WinForms resource generator
    (packages/lucide-winforms/scripts/Program.cs, lines 223-240): kebab- and
    snake-case icon and category names become PascalCase identifiers. Case
    mapping is the ASCII part of the invariant culture. */
module Naming {
  import opened Text

  /** The characters `Split('-', '_')` cuts at. */
  const Separators: set<char> := {'-', '_'}

  predicate IsSeparator(c: char) {
    c == '-' || c == '_'
  }

  /** `ToLowerInvariant` on a whole string, character by character. */
  function LowerAll(s: string): (l: string)
    ensures |l| == |s|
    ensures forall i | 0 <= i < |s| :: l[i] == LowerAscii(s[i])
  {
    seq(|s|, i requires 0 <= i < |s| => LowerAscii(s[i]))
  }

  /** One part of the split name: first character upper-cased, the rest
      lower-cased; an empty part stays empty. */
  function Capitalize(p: string): string {
    if |p| == 0 then p else [UpperAscii(p[0])] + LowerAll(p[1..])
  }

  /** `string.Concat` of the capitalised parts. */
  function ConcatCapitalized(parts: seq<string>): string {
    if |parts| == 0 then "" else Capitalize(parts[0]) + ConcatCapitalized(parts[1..])
  }

  /** `ToPascalCase` */
  function ToPascalCase(input: string): (r: string)
    ensures r == PascalScan(input, true)
  {
    PascalMatchesScan(input);
    if |input| == 0 then input
    else ConcatCapitalized(Split(input, Separators))
  }

  /** The result holds no separator and is exactly the separators shorter. */
  lemma ToPascalCaseDropsSeparators(input: string)
    ensures NoneIn(ToPascalCase(input), Separators)
    ensures |ToPascalCase(input)| == |input| - CountIn(input, Separators)
  {
    ScanDropsSeparators(input, true);
  }

  /** `ToResourceKey`: the resource name under which an icon is stored. */
  function ToResourceKey(iconName: string): string {
    ToPascalCase(iconName)
  }

  // ---------------------------------------------------------------------
  // Reference definition: one left-to-right scan
  // ---------------------------------------------------------------------

  /** Separators are dropped; a character directly after a separator (or at
      the start, `atStart`) is upper-cased, every other one lower-cased. */
  function PascalScan(s: string, atStart: bool): string {
    if |s| == 0 then ""
    else if IsSeparator(s[0]) then PascalScan(s[1..], true)
    else [if atStart then UpperAscii(s[0]) else LowerAscii(s[0])] + PascalScan(s[1..], false)
  }

  lemma LowerAllCons(c: char, t: string)
    ensures LowerAll([c] + t) == [LowerAscii(c)] + LowerAll(t)
  {
  }

  /** Split-then-capitalise agrees with the scan. In the middle of a word
      (`atStart` false) the first part continues that word in lower case. */
  lemma {:induction false} ScanSplit(s: string)
    ensures PascalScan(s, true) == ConcatCapitalized(Split(s, Separators))
    ensures PascalScan(s, false) ==
      LowerAll(Split(s, Separators)[0]) + ConcatCapitalized(Split(s, Separators)[1..])
  {
    if |s| > 0 {
      var rest := Split(s[1..], Separators);
      ScanSplit(s[1..]);
      var parts := Split(s, Separators);
      if s[0] in Separators {
        assert parts == [""] + rest;
        assert parts[1..] == rest;
        assert PascalScan(s, true) == PascalScan(s[1..], true);
        assert PascalScan(s, false) == PascalScan(s[1..], true);
        assert ConcatCapitalized(parts) == ConcatCapitalized(rest);
      } else {
        var first := [s[0]] + rest[0];
        assert parts == [first] + rest[1..];
        assert parts[0] == first && parts[1..] == rest[1..];
        assert first[1..] == rest[0];
        assert Capitalize(first) == [UpperAscii(s[0])] + LowerAll(rest[0]);
        LowerAllCons(s[0], rest[0]);
        assert ConcatCapitalized(parts) == Capitalize(first) + ConcatCapitalized(rest[1..]);
        assert PascalScan(s, true) == [UpperAscii(s[0])] + PascalScan(s[1..], false);
        assert PascalScan(s, false) == [LowerAscii(s[0])] + PascalScan(s[1..], false);
      }
    }
  }

  lemma PascalMatchesScan(input: string)
    ensures (if |input| == 0 then input else ConcatCapitalized(Split(input, Separators)))
      == PascalScan(input, true)
  {
    ScanSplit(input);
  }

  /** The scan drops exactly the separators and nothing else. */
  lemma {:induction false} ScanDropsSeparators(s: string, atStart: bool)
    ensures NoneIn(PascalScan(s, atStart), Separators)
    ensures |PascalScan(s, atStart)| == |s| - CountIn(s, Separators)
  {
    if |s| > 0 {
      ScanDropsSeparators(s[1..], true);
      ScanDropsSeparators(s[1..], false);
      if !IsSeparator(s[0]) {
        var c := if atStart then UpperAscii(s[0]) else LowerAscii(s[0]);
        assert c !in Separators;
        var r := PascalScan(s, atStart);
        assert r == [c] + PascalScan(s[1..], false);
        assert forall i | 1 <= i < |r| :: r[i] == PascalScan(s[1..], false)[i - 1];
      }
    }
  }

  /** A name that does not start with a separator keeps its first
      character, upper-cased, in front. */
  lemma FirstLetterUpper(s: string)
    requires |s| > 0 && s[0] !in Separators
    ensures ToPascalCase(s)[0] == UpperAscii(s[0])
  {
  }

  /** Each part is capitalised: `a-b` becomes `AB`, as `arrow-down` becomes
      `ArrowDown`. */
  lemma KebabCaseExample()
    ensures ToPascalCase("a-b") == "AB"
  {
    assert PascalScan("a-b", true) == "AB";
  }

  /** An underscore separates parts just as a hyphen does, so the two
      spellings give the same name. */
  lemma SnakeCaseExample()
    ensures ToPascalCase("a_b") == "AB"
  {
    assert PascalScan("a_b", true) == "AB";
  }

  /** Upper-case letters inside a part are folded to lower case. */
  lemma InnerCapitalsFolded()
    ensures ToPascalCase("AB") == "Ab"
  {
    assert PascalScan("AB", true) == "Ab";
  }

  /** Leading, trailing and repeated separators contribute nothing. */
  lemma StraySeparatorsDropped()
    ensures ToPascalCase("-a--b-") == "AB"
  {
    assert PascalScan("-a--b-", true) == "AB";
  }

  /** Distinct icon names can share a resource name. */
  lemma ResourceKeysCollide()
    ensures "a-b" != "a_b" && ToResourceKey("a-b") == ToResourceKey("a_b")
  {
    KebabCaseExample();
    SnakeCaseExample();
  }

  /** The mapping is not idempotent: applying it to its own result can
      change that result again. */
  lemma ToPascalCaseNotIdempotent()
    ensures ToPascalCase(ToPascalCase("a-b")) != ToPascalCase("a-b")
  {
    KebabCaseExample();
    InnerCapitalsFolded();
  }
}
