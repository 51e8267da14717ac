/**
 * The string normalisers shared by the harvesters and the merge: DOI
 * normalisation, subject de-duplication, whitespace cleaning, the PDF file
 * name derived from a DOI and the country-name wrapper.
 */
module Util {
  import opened Wrappers
  import opened Text
  import opened Seqs

  // ================================================================ normalize_doi

  /** The resolver every normalised DOI starts with. */
  const Resolver: string := "https://doi.org/"

  /** `doi:10.1088/...` loses its `doi:` label, wherever it occurs. */
  function DropDoiLabel(s: string): string { ReplaceAll(s, "doi:", "") }

  /** `0.1002/...` is a DOI whose leading `1` was lost. */
  function RestoreLeadingOne(s: string): string { if StartsWith(s, "0.") then "1" + s else s }

  /** `http://dx.doi.org/DOI:` is a mistyped resolver prefix. */
  function DropDxDoiTypo(s: string): string { ReplaceAll(s, "http://dx.doi.org/DOI:", "") }

  /** The anchored pattern `^https?://(dx\.)?doi\.org/` removed once from the front. */
  function DropResolverPrefix(s: string): string
  {
    if StartsWith(s, "https://dx.doi.org/") then s[19..]
    else if StartsWith(s, "https://doi.org/") then s[16..]
    else if StartsWith(s, "http://dx.doi.org/") then s[18..]
    else if StartsWith(s, "http://doi.org/") then s[15..]
    else s
  }

  /** `https:// doi.org/` is a resolver with a stray space. */
  function DropSpacedResolver(s: string): string { ReplaceAll(s, "https:// doi.org/", "") }

  /** A publisher landing page that stands in for a DOI. */
  function DropTandfonline(s: string): string
  {
    ReplaceAll(s, "https://www.tandfonline.com/doi/full/", "")
  }

  function DropZeroWidth(s: string): string { ReplaceAll(s, [ZeroWidthSpace], "") }

  /** The rewrites of `normalize_doi`, in the order it applies them, before lowering and trimming. */
  function RewriteDoi(s: string): string
  {
    DropZeroWidth(DropTandfonline(DropSpacedResolver(DropResolverPrefix(
      DropDxDoiTypo(RestoreLeadingOne(DropDoiLabel(s)))))))
  }

  /** What follows the resolver in a normalised DOI. */
  predicate NormalSuffix(x: string)
  {
    NoUpper(x) && ZeroWidthSpace !in x
    && (x == [] || (x[0] !in Whitespace && x[|x| - 1] !in Whitespace))
  }

  lemma StripKeepsNoUpper(s: string)
    requires NoUpper(s)
    ensures NoUpper(Strip(s, Whitespace))
  {
    var r := Strip(s, Whitespace);
    forall i | 0 <= i < |r|
      ensures !IsUpper(r[i])
    {
      assert r[i] in s;
    }
  }

  /**
   * `normalize_doi`: an absent DOI stays absent; any other value becomes the
   * resolver followed by a lowercase, trimmed suffix without zero-width spaces.
   */
  function NormalizeDoi(doi: Option<string>): (r: Option<string>)
    ensures doi.None? <==> r.None?
    ensures r.Some? ==> StartsWith(r.value, Resolver) && NormalSuffix(r.value[|Resolver|..])
  {
    match doi
    case None => None
    case Some(s) =>
      var z := RewriteDoi(s);
      ReplaceRemovesChar(DropTandfonline(DropSpacedResolver(DropResolverPrefix(
        DropDxDoiTypo(RestoreLeadingOne(DropDoiLabel(s)))))), [ZeroWidthSpace], "");
      LowerKeepsAbsent(z, ZeroWidthSpace);
      StripKeepsNoUpper(Lower(z));
      var suffix := Strip(Lower(z), Whitespace);
      assert (Resolver + suffix)[|Resolver|..] == suffix;
      Some(Resolver + suffix)
  }

  /** No occurrence of `doi:` starts inside the resolver, whatever follows it. */
  lemma DoiLabelNotInResolver(b: string)
    ensures forall i :: 0 <= i < |Resolver| ==> !StartsWith((Resolver + b)[i..], "doi:")
  {
    forall i | 0 <= i < |Resolver|
      ensures !StartsWith((Resolver + b)[i..], "doi:")
    {
      var s := Resolver + b;
      if i + 4 <= |s| {
        assert s[i..][..4][0] == Resolver[i];
        assert Resolver[i] == 'd' ==> i == 8;
        assert s[i..][..4][3] == s[i + 3];
        assert i == 8 ==> s[11] == '.';
      }
    }
  }

  /** An uppercase letter never occurs in a string without uppercase letters. */
  lemma UpperAbsent(x: string, c: char)
    requires NoUpper(x) && IsUpper(c)
    ensures c !in x
  {
    forall i | 0 <= i < |x| ensures x[i] != c {}
  }

  lemma DoiLabelAfterResolver(suffix: string)
    requires !Contains(suffix, "doi:")
    ensures DropDoiLabel(Resolver + suffix) == Resolver + suffix
  {
    DoiLabelNotInResolver(suffix);
    ReplaceAfterPrefix(Resolver, suffix, "doi:", "");
    ReplaceAbsent(suffix, "doi:", "");
  }

  lemma DxDoiTypoNeedsCapital(suffix: string)
    requires NoUpper(suffix)
    ensures DropDxDoiTypo(Resolver + suffix) == Resolver + suffix
  {
    UpperAbsent(suffix, 'D');
    ReplaceAbsentChar(Resolver + suffix, "http://dx.doi.org/DOI:", "", 18);
  }

  lemma ResolverPrefixDropped(suffix: string)
    ensures DropResolverPrefix(Resolver + suffix) == suffix
  {
    var s := Resolver + suffix;
    assert s[9] == 'o' && s[..16] == Resolver;
  }

  /**
   * A normalised DOI whose suffix holds none of the texts the rewrites look for
   * is left as it is: on such values `normalize_doi` is idempotent.
   */
  lemma NormalizedIsFixedPoint(suffix: string)
    requires NormalSuffix(suffix)
    requires !Contains(suffix, "doi:") && !Contains(suffix, "https:// doi.org/")
    requires !Contains(suffix, "https://www.tandfonline.com/doi/full/")
    ensures NormalizeDoi(Some(Resolver + suffix)) == Some(Resolver + suffix)
  {
    var s := Resolver + suffix;
    DoiLabelAfterResolver(suffix);
    assert RestoreLeadingOne(s) == s by {
      assert s[0] == 'h';
    }
    DxDoiTypoNeedsCapital(suffix);
    ResolverPrefixDropped(suffix);
    ReplaceAbsent(suffix, "https:// doi.org/", "");
    ReplaceAbsent(suffix, "https://www.tandfonline.com/doi/full/", "");
    ZeroWidthAbsent(suffix);
    assert RewriteDoi(s) == suffix;
    LowerNoUpper(suffix);
    StripUnchanged(suffix, Whitespace);
  }

  /** On the values the fixed-point lemma covers, normalising twice is normalising once. */
  lemma NormalizeDoiIdempotent(doi: Option<string>)
    requires doi.Some? ==>
      var suffix := NormalizeDoi(doi).value[|Resolver|..];
      !Contains(suffix, "doi:") && !Contains(suffix, "https:// doi.org/")
      && !Contains(suffix, "https://www.tandfonline.com/doi/full/")
    ensures NormalizeDoi(NormalizeDoi(doi)) == NormalizeDoi(doi)
  {
    if doi.Some? {
      var r := NormalizeDoi(doi).value;
      assert r == Resolver + r[|Resolver|..];
      NormalizedIsFixedPoint(r[|Resolver|..]);
    }
  }

  /** Every rewrite pattern but the `doi:` label starts with `http`, so a text without `:` escapes them. */
  lemma DxDoiTypoNeedsColon(x: string)
    requires ':' !in x
    ensures DropDxDoiTypo(x) == x
  {
    ReplaceAbsentChar(x, "http://dx.doi.org/DOI:", "", 4);
  }

  lemma SpacedResolverNeedsColon(x: string)
    requires ':' !in x
    ensures DropSpacedResolver(x) == x
  {
    ReplaceAbsentChar(x, "https:// doi.org/", "", 5);
  }

  lemma TandfonlineNeedsColon(x: string)
    requires ':' !in x
    ensures DropTandfonline(x) == x
  {
    ReplaceAbsentChar(x, "https://www.tandfonline.com/doi/full/", "", 5);
  }

  lemma ResolverPrefixNeedsH(x: string)
    requires |x| > 0 && x[0] != 'h'
    ensures DropResolverPrefix(x) == x
  {
  }

  lemma ZeroWidthAbsent(x: string)
    requires ZeroWidthSpace !in x
    ensures DropZeroWidth(x) == x
  {
    ReplaceAbsentChar(x, [ZeroWidthSpace], "", 0);
  }

  /** The rewrites after the `doi:` label and the leading-one fix leave a plain DOI alone. */
  lemma PlainDoiRewrites(x: string)
    requires |x| > 0 && x[0] != 'h' && ':' !in x && ZeroWidthSpace !in x
    ensures DropZeroWidth(DropTandfonline(DropSpacedResolver(DropResolverPrefix(DropDxDoiTypo(x))))) == x
  {
    DxDoiTypoNeedsColon(x);
    ResolverPrefixNeedsH(x);
    SpacedResolverNeedsColon(x);
    TandfonlineNeedsColon(x);
    ZeroWidthAbsent(x);
  }

  /** A DOI that is plain once the label and the leading one are dealt with is only lowered and trimmed. */
  lemma PlainDoiNormalizes(s: string, x: string)
    requires RestoreLeadingOne(DropDoiLabel(s)) == x
    requires |x| > 0 && x[0] != 'h' && ':' !in x && ZeroWidthSpace !in x
    ensures NormalizeDoi(Some(s)) == Some(Resolver + Strip(Lower(x), Whitespace))
  {
    PlainDoiRewrites(x);
  }

  lemma LabelRemovedFromFront(x: string)
    requires !Contains(x, "doi:")
    ensures DropDoiLabel("doi:" + x) == x
  {
    ReplaceLeading("doi:" + x, "doi:", "");
    assert ("doi:" + x)[4..] == x;
    ReplaceAbsent(x, "doi:", "");
  }

  /** A DOI with none of the texts the rewrites look for: no colon, no zero-width space, no leading `0.` or `h`. */
  predicate PlainDoi(x: string)
  {
    |x| > 0 && x[0] != 'h' && !StartsWith(x, "0.") && ':' !in x && ZeroWidthSpace !in x
  }

  lemma PlainDoiUnlabelled(x: string)
    requires ':' !in x
    ensures DropDoiLabel(x) == x
  {
    ReplaceAbsentChar(x, "doi:", "", 3);
  }

  lemma PlainDoiKeepsFirstDigit(x: string)
    requires PlainDoi(x)
    ensures RestoreLeadingOne(x) == x
  {
  }

  /** A plain DOI is only lowered, trimmed and put behind the resolver. */
  lemma NormalizePlainDoi(x: string)
    requires PlainDoi(x)
    ensures NormalizeDoi(Some(x)) == Some(Resolver + Strip(Lower(x), Whitespace))
  {
    PlainDoiUnlabelled(x);
    PlainDoiKeepsFirstDigit(x);
    PlainDoiNormalizes(x, x);
  }

  /** `doi:10.1088/...` normalises like `10.1088/...`: the label is dropped. */
  lemma NormalizeDoiDropsLabel(x: string)
    requires PlainDoi(x)
    ensures NormalizeDoi(Some("doi:" + x)) == NormalizeDoi(Some(x))
  {
    NotContainsByChar(x, "doi:", 3);
    LabelRemovedFromFront(x);
    PlainDoiKeepsFirstDigit(x);
    PlainDoiNormalizes("doi:" + x, x);
    NormalizePlainDoi(x);
  }

  lemma LeadingZeroUnlabelled(y: string)
    requires ':' !in y
    ensures DropDoiLabel("0." + y) == "0." + y
  {
    assert ':' !in "0." + y;
    PlainDoiUnlabelled("0." + y);
  }

  /** `0.1002/...` becomes `10.1002/...` and is otherwise left alone by the rewrites. */
  lemma LeadingOneRewrites(y: string)
    requires ':' !in y && ZeroWidthSpace !in y
    ensures RestoreLeadingOne(DropDoiLabel("0." + y)) == "10." + y
  {
    LeadingZeroUnlabelled(y);
    assert ("0." + y)[..2] == "0.";
  }

  /** `0.1002/...` gets back the `1` it lost. */
  lemma NormalizeDoiRestoresLeadingOne(y: string)
    requires ':' !in y && ZeroWidthSpace !in y
    ensures NormalizeDoi(Some("0." + y)) == Some(Resolver + Strip(Lower("10." + y), Whitespace))
  {
    LeadingOneRewrites(y);
    var x := "10." + y;
    assert x[0] == '1' && ':' !in x && ZeroWidthSpace !in x;
    PlainDoiNormalizes("0." + y, x);
  }

  /** The resolver prefixes that `normalize_doi` removes, with the place of their one colon. */
  predicate ResolverPrefix(p: string, j: int)
  {
    (p == "https://dx.doi.org/" && j == 5) || (p == "https://doi.org/" && j == 5)
    || (p == "http://dx.doi.org/" && j == 4) || (p == "http://doi.org/" && j == 4)
    || (p == "https:// doi.org/" && j == 5)
  }

  lemma ResolverColon(p: string, j: int)
    requires ResolverPrefix(p, j)
    ensures 3 <= j < |p| && p[j] == ':' && p[j - 3] == 't' && p[0] == 'h'
    ensures forall i :: 0 <= i < |p| && p[i] == ':' ==> i == j
  {
  }

  lemma PrefixedColon(p: string, j: int, x: string)
    requires ResolverPrefix(p, j) && ':' !in x
    ensures forall i :: 0 <= i < |p + x| && (p + x)[i] == ':' ==> i == j
    ensures 3 <= j < |p + x| && (p + x)[j - 3] == 't' && (p + x)[0] == 'h'
  {
    ResolverColon(p, j);
    assert forall i :: |p| <= i < |p + x| ==> (p + x)[i] == x[i - |p|];
    assert forall i :: 0 <= i < |p| ==> (p + x)[i] == p[i];
  }

  lemma PrefixedUnlabelled(p: string, j: int, x: string)
    requires ResolverPrefix(p, j) && ':' !in x
    ensures DropDoiLabel(p + x) == p + x
  {
    var s := p + x;
    PrefixedColon(p, j, x);
    assert s[j - 3..][0] == 't';
    DiffersAt(s[j - 3..], "doi:", 0);
    NoMatchAcrossColon(s, j, "doi:", 3);
    ReplaceAbsent(s, "doi:", "");
  }

  lemma PrefixedNoTypo(p: string, j: int, x: string)
    requires ResolverPrefix(p, j) && ':' !in x
    ensures DropDxDoiTypo(p + x) == p + x
  {
    PrefixedColon(p, j, x);
    NoMatchAcrossColon(p + x, j, "http://dx.doi.org/DOI:", 21);
    ReplaceAbsent(p + x, "http://dx.doi.org/DOI:", "");
  }

  lemma SpacedResolverRemoved(x: string)
    requires ':' !in x
    ensures DropSpacedResolver("https:// doi.org/" + x) == x
  {
    ReplaceLeading("https:// doi.org/" + x, "https:// doi.org/", "");
    assert ("https:// doi.org/" + x)[17..] == x;
    SpacedResolverNeedsColon(x);
  }

  lemma HttpsDxRemoved(x: string)
    ensures DropResolverPrefix("https://dx.doi.org/" + x) == x
  {
    var s := "https://dx.doi.org/" + x;
    assert s[..19] == "https://dx.doi.org/" && s[19..] == x;
  }

  lemma HttpsRemoved(x: string)
    ensures DropResolverPrefix("https://doi.org/" + x) == x
  {
    var s := "https://doi.org/" + x;
    assert s[9] == 'o';
    DiffersAt(s, "https://dx.doi.org/", 9);
    assert s[..16] == "https://doi.org/" && s[16..] == x;
  }

  lemma HttpDxRemoved(x: string)
    ensures DropResolverPrefix("http://dx.doi.org/" + x) == x
  {
    var s := "http://dx.doi.org/" + x;
    assert s[4] == ':';
    DiffersAt(s, "https://dx.doi.org/", 4);
    DiffersAt(s, "https://doi.org/", 4);
    assert s[..18] == "http://dx.doi.org/" && s[18..] == x;
  }

  lemma HttpRemoved(x: string)
    ensures DropResolverPrefix("http://doi.org/" + x) == x
  {
    var s := "http://doi.org/" + x;
    assert s[4] == ':' && s[8] == 'o';
    DiffersAt(s, "https://dx.doi.org/", 4);
    DiffersAt(s, "https://doi.org/", 4);
    DiffersAt(s, "http://dx.doi.org/", 8);
    assert s[..15] == "http://doi.org/" && s[15..] == x;
  }

  lemma SpacedNotAnchored(x: string)
    ensures DropResolverPrefix("https:// doi.org/" + x) == "https:// doi.org/" + x
  {
    var s := "https:// doi.org/" + x;
    assert s[4] == 's' && s[8] == ' ';
    DiffersAt(s, "https://dx.doi.org/", 8);
    DiffersAt(s, "https://doi.org/", 8);
    DiffersAt(s, "http://dx.doi.org/", 4);
    DiffersAt(s, "http://doi.org/", 4);
  }

  /** After the anchored prefix removal (or, for the spaced resolver, its literal replacement) only `x` is left. */
  lemma PrefixedResolverGone(p: string, j: int, x: string)
    requires ResolverPrefix(p, j) && ':' !in x
    ensures DropSpacedResolver(DropResolverPrefix(p + x)) == x
  {
    if p == "https:// doi.org/" {
      SpacedNotAnchored(x);
      SpacedResolverRemoved(x);
    } else {
      if p == "https://dx.doi.org/" {
        HttpsDxRemoved(x);
      } else if p == "https://doi.org/" {
        HttpsRemoved(x);
      } else if p == "http://dx.doi.org/" {
        HttpDxRemoved(x);
      } else {
        HttpRemoved(x);
      }
      SpacedResolverNeedsColon(x);
    }
  }

  /**
   * A resolver prefix in front of a plain DOI is dropped: with `https://`,
   * `http://`, with or without `dx.`, and the mistyped `https:// doi.org/`.
   */
  lemma NormalizeDoiDropsResolver(p: string, j: int, x: string)
    requires ResolverPrefix(p, j) && PlainDoi(x)
    ensures NormalizeDoi(Some(p + x)) == NormalizeDoi(Some(x))
  {
    PrefixedUnlabelled(p, j, x);
    assert (p + x)[0] == 'h';
    assert RestoreLeadingOne(p + x) == p + x;
    PrefixedNoTypo(p, j, x);
    PrefixedResolverGone(p, j, x);
    TandfonlineNeedsColon(x);
    ZeroWidthAbsent(x);
    NormalizePlainDoi(x);
  }

  lemma UppercaseLabelKeptEarly(x: string)
    requires PlainDoi(x)
    ensures DropResolverPrefix(DropDxDoiTypo(RestoreLeadingOne(DropDoiLabel("DOI:" + x)))) == "DOI:" + x
  {
    var s := "DOI:" + x;
    assert s[..4] == "DOI:" && s[4..] == x;
    NoMatchAcrossColon(s, 3, "doi:", 3);
    ReplaceAbsent(s, "doi:", "");
    assert RestoreLeadingOne(s) == s;
    NoMatchAcrossColon(s, 3, "http://dx.doi.org/DOI:", 21);
    ReplaceAbsent(s, "http://dx.doi.org/DOI:", "");
    assert DropResolverPrefix(s) == s;
  }

  lemma UppercaseLabelKeptLate(x: string)
    requires PlainDoi(x)
    ensures DropZeroWidth(DropTandfonline(DropSpacedResolver("DOI:" + x))) == "DOI:" + x
  {
    var s := "DOI:" + x;
    assert s[..4] == "DOI:" && s[4..] == x;
    NoMatchAcrossColon(s, 3, "https:// doi.org/", 5);
    ReplaceAbsent(s, "https:// doi.org/", "");
    NoMatchAcrossColon(s, 3, "https://www.tandfonline.com/doi/full/", 5);
    ReplaceAbsent(s, "https://www.tandfonline.com/doi/full/", "");
    assert ZeroWidthSpace !in s;
    ZeroWidthAbsent(s);
  }

  lemma UppercaseLabelKept(x: string)
    requires PlainDoi(x)
    ensures RewriteDoi("DOI:" + x) == "DOI:" + x
  {
    UppercaseLabelKeptEarly(x);
    UppercaseLabelKeptLate(x);
  }

  /**
   * The label is removed before lowering, so an uppercase `DOI:` survives the
   * first pass as `doi:` and only a second pass removes it: `normalize_doi` is
   * not idempotent outside the fixed-point lemma's precondition.
   */
  lemma NormalizeDoiUppercaseLabel(x: string)
    requires PlainDoi(x) && x[0] !in Whitespace && x[|x| - 1] !in Whitespace
    ensures NormalizeDoi(Some("DOI:" + x)) == Some(Resolver + ("doi:" + Lower(x)))
    ensures NormalizeDoi(NormalizeDoi(Some("DOI:" + x))) == Some(Resolver + Lower(x))
  {
    FirstPassLowersLabel(x);
    LowerPlainIsNormal(x);
    SecondPassDropsLabel(Lower(x));
  }

  lemma LowerPlainIsNormal(x: string)
    requires PlainDoi(x) && x[0] !in Whitespace && x[|x| - 1] !in Whitespace
    ensures NormalSuffix(Lower(x)) && ':' !in Lower(x)
  {
    LowerCharNotSpace(x[0]);
    LowerCharNotSpace(x[|x| - 1]);
    LowerKeepsAbsent(x, ':');
    LowerKeepsAbsent(x, ZeroWidthSpace);
  }

  lemma LowerCharNotSpace(c: char)
    requires c !in Whitespace
    ensures LowerChar(c) !in Whitespace
  {
  }

  lemma LabelLowered(x: string)
    ensures Lower("DOI:" + x) == "doi:" + Lower(x)
  {
    LowerConcat("DOI:", x);
    assert Lower("DOI:") == "doi:";
  }

  lemma LabelLoweredStripped(x: string)
    requires |x| > 0 && x[|x| - 1] !in Whitespace
    ensures Strip(Lower("DOI:" + x), Whitespace) == "doi:" + Lower(x)
  {
    LabelLowered(x);
    var l := Lower(x);
    LowerCharNotSpace(x[|x| - 1]);
    assert ("doi:" + l)[|"doi:" + l| - 1] == l[|l| - 1] == LowerChar(x[|x| - 1]);
    StripUnchanged("doi:" + l, Whitespace);
  }

  /** `normalize_doi` of a text is determined by what the rewrites make of it. */
  lemma NormalizeDoiOf(s: string, z: string)
    requires RewriteDoi(s) == z
    ensures NormalizeDoi(Some(s)) == Some(Resolver + Strip(Lower(z), Whitespace))
  {
  }

  lemma FirstPassLowersLabel(x: string)
    requires PlainDoi(x) && x[|x| - 1] !in Whitespace
    ensures NormalizeDoi(Some("DOI:" + x)) == Some(Resolver + ("doi:" + Lower(x)))
  {
    UppercaseLabelKept(x);
    NormalizeDoiOf("DOI:" + x, "DOI:" + x);
    LabelLoweredStripped(x);
  }

  lemma DoiLabelInSecondPass(x: string)
    requires !Contains(x, "doi:")
    ensures DropDoiLabel(Resolver + ("doi:" + x)) == Resolver + x
  {
    DoiLabelNotInResolver("doi:" + x);
    ReplaceAfterPrefix(Resolver, "doi:" + x, "doi:", "");
    LabelRemovedFromFront(x);
  }

  /** `normalize_doi` looks at its input only through what the label removal leaves. */
  lemma SameAfterLabel(a: string, b: string)
    requires DropDoiLabel(a) == DropDoiLabel(b)
    ensures NormalizeDoi(Some(a)) == NormalizeDoi(Some(b))
  {
  }

  lemma SecondPassSeesNoLabel(l: string)
    requires ':' !in l
    ensures DropDoiLabel(Resolver + ("doi:" + l)) == DropDoiLabel(Resolver + l)
  {
    NotContainsByChar(l, "doi:", 3);
    DoiLabelInSecondPass(l);
    DoiLabelAfterResolver(l);
  }

  lemma ColonFreeIsFixedPoint(l: string)
    requires NormalSuffix(l) && ':' !in l
    ensures NormalizeDoi(Some(Resolver + l)) == Some(Resolver + l)
  {
    NotContainsByChar(l, "doi:", 3);
    NotContainsByChar(l, "https:// doi.org/", 5);
    NotContainsByChar(l, "https://www.tandfonline.com/doi/full/", 5);
    NormalizedIsFixedPoint(l);
  }

  lemma SecondPassDropsLabel(l: string)
    requires NormalSuffix(l) && ':' !in l
    ensures NormalizeDoi(Some(Resolver + ("doi:" + l))) == Some(Resolver + l)
  {
    SecondPassSeesNoLabel(l);
    SameAfterLabel(Resolver + ("doi:" + l), Resolver + l);
    ColonFreeIsFixedPoint(l);
  }

  // ================================================================ deduplicate_subjects

  /** Subjects are kept in one string, separated by a semicolon and a space. */
  const SubjectSeparator: string := "; "

  /** The de-duplicated subject string: first occurrences of the tokens, re-joined. */
  function DedupedSubjects(subjects: string): string
  {
    Join(Dedup(Split(subjects, SubjectSeparator)), SubjectSeparator)
  }

  /** `deduplicate_subjects`: the loop with a set of tokens already seen. */
  method DeduplicateSubjects(subjects: Option<string>) returns (r: Option<string>)
    ensures subjects.None? ==> r.None?
    ensures subjects.Some? ==> r == Some(DedupedSubjects(subjects.value))
  {
    if subjects.None? {
      return None;
    }
    var tokens := Split(subjects.value, SubjectSeparator);
    var kept := DropDuplicates(tokens, Itself);
    r := Some(Join(kept, SubjectSeparator));
  }

  /** Splitting the result gives back exactly the de-duplicated tokens. */
  lemma DedupedSubjectsTokens(subjects: string)
    ensures Split(DedupedSubjects(subjects), SubjectSeparator)
         == Dedup(Split(subjects, SubjectSeparator))
  {
    var tokens := Split(subjects, SubjectSeparator);
    var kept := Dedup(tokens);
    DedupSameValues(tokens);
    assert tokens[0] in kept;
    assert LastCharUnique(SubjectSeparator) by {
      assert SubjectSeparator[..1] == ";";
    }
    forall k | 0 <= k < |kept|
      ensures !Contains(kept[k], SubjectSeparator)
    {
      assert kept[k] in tokens;
      var i :| 0 <= i < |tokens| && tokens[i] == kept[k];
    }
    SplitJoin(kept, SubjectSeparator);
  }

  /**
   * The output tokens are pairwise distinct, are exactly the input tokens, and
   * come in the order of their first occurrence in the input.
   */
  lemma DeduplicateSubjectsTokens(subjects: string)
    ensures var out := Split(DedupedSubjects(subjects), SubjectSeparator);
            var inp := Split(subjects, SubjectSeparator);
            Distinct(out)
            && (forall t :: t in out <==> t in inp)
            && Subseq(out, inp)
            && (forall i, j :: 0 <= i < j < |out| ==>
                  out[i] in inp && out[j] in inp && FirstIndex(inp, out[i]) < FirstIndex(inp, out[j]))
  {
    var inp := Split(subjects, SubjectSeparator);
    DedupedSubjectsTokens(subjects);
    DedupDistinct(inp);
    DedupSameValues(inp);
    DedupBySubseq(inp, Itself);
    DedupFirstOccurrenceOrder(inp);
  }

  /** De-duplicating an already de-duplicated subject string changes nothing. */
  lemma DeduplicateSubjectsIdempotent(subjects: string)
    ensures DedupedSubjects(DedupedSubjects(subjects)) == DedupedSubjects(subjects)
  {
    var inp := Split(subjects, SubjectSeparator);
    DedupedSubjectsTokens(subjects);
    DedupIdempotent(inp);
  }

  lemma DedupOfFourTokens(a: string, b: string, c: string)
    requires a != b && a != c && b != c
    ensures Dedup([a, b, a, c]) == [a, b, c]
  {
    var p1, p2, p3 := [a], [a, b], [a, b, a];
    assert p1[..0] == [] && p2[..1] == p1 && p3[..2] == p2 && [a, b, a, c][..3] == p3;
    assert Dedup(p1) == p1;
    KeysOfItself(p1);
    assert Dedup(p2) == p2;
    KeysOfItself(p2);
    assert Dedup(p3) == p2;
    KeysOfItself(p3);
    assert c !in p3;
  }


  lemma SplitOfExample()
    ensures Split("a; b; a; c", SubjectSeparator) == ["a", "b", "a", "c"]
  {
    var parts := ["a", "b", "a", "c"];
    assert Join(parts, SubjectSeparator) == "a; b; a; c" by {
      assert parts[1..] == ["b", "a", "c"];
      assert parts[2..] == ["a", "c"];
      assert parts[3..] == ["c"];
    }
    forall k | 0 <= k < |parts|
      ensures !Contains(parts[k], SubjectSeparator)
    {
      NotContainsByChar(parts[k], SubjectSeparator, 0);
    }
    SplitJoin(parts, SubjectSeparator);
  }

  lemma JoinOfExample()
    ensures Join(["a", "b", "c"], SubjectSeparator) == "a; b; c"
  {
    var kept := ["a", "b", "c"];
    assert kept[1..] == ["b", "c"] && kept[2..] == ["c"];
  }

  lemma DeduplicateSubjectsExample()
    ensures DedupedSubjects("a; b; a; c") == "a; b; c"
  {
    SplitOfExample();
    DedupOfFourTokens("a", "b", "c");
    JoinOfExample();
  }

  // ================================================================ clean_string

  /**
   * `clean_string`: line breaks become spaces, one pass turns double spaces
   * into single ones, and surrounding whitespace is trimmed.
   */
  function CleanString(s: string): (r: string)
    ensures '\n' !in r && '\r' !in r
    ensures r == [] || (r[0] !in Whitespace && r[|r| - 1] !in Whitespace)
    ensures |r| <= |s|
  {
    var a := ReplaceAll(s, "\n", " ");
    var b := ReplaceAll(a, "\r", " ");
    var c := ReplaceAll(b, "  ", " ");
    ReplaceRemovesChar(s, "\n", " ");
    ReplaceKeepsAbsent(a, "\r", " ", '\n');
    ReplaceRemovesChar(a, "\r", " ");
    ReplaceKeepsAbsent(b, "  ", " ", '\n');
    ReplaceKeepsAbsent(b, "  ", " ", '\r');
    ReplaceNotLonger(s, "\n", " ");
    ReplaceNotLonger(a, "\r", " ");
    ReplaceNotLonger(b, "  ", " ");
    Strip(c, Whitespace)
  }

  /** `clean_string` is the trim of what the three replacement passes leave. */
  lemma CleanStringOf(s: string, c: string)
    requires ReplaceAll(ReplaceAll(ReplaceAll(s, "\n", " "), "\r", " "), "  ", " ") == c
    ensures CleanString(s) == Strip(c, Whitespace)
  {
  }

  lemma ThreeSpacesOnePass(a: char, b: char)
    requires a != ' ' && b != ' '
    ensures ReplaceAll([a] + "   " + [b], "  ", " ") == [a] + "  " + [b]
  {
    var s := [a] + "   " + [b];
    DiffersAt(s, "  ", 0);
    assert s[1..] == "   " + [b];
    ReplaceLeading("   " + [b], "  ", " ");
    assert ("   " + [b])[2..] == " " + [b];
    NotContainsByChar([b], "  ", 0);
    ReplaceAbsent([b], "  ", " ");
    DiffersAt(" " + [b], "  ", 1);
    assert (" " + [b])[1..] == [b];
  }

  lemma NoLineBreaks(s: string)
    requires '\n' !in s && '\r' !in s
    ensures ReplaceAll(ReplaceAll(s, "\n", " "), "\r", " ") == s
  {
    ReplaceAbsentChar(s, "\n", " ", 0);
    ReplaceAbsentChar(s, "\r", " ", 0);
  }

  /** A single pass over a run of three spaces leaves two of them. */
  lemma CleanStringKeepsSomeDoubleSpaces(a: char, b: char)
    requires a !in Whitespace && b !in Whitespace
    ensures CleanString([a] + "   " + [b]) == [a] + "  " + [b]
  {
    var s := [a] + "   " + [b];
    assert '\n' !in s && '\r' !in s;
    NoLineBreaks(s);
    ThreeSpacesOnePass(a, b);
    CleanStringOf(s, [a] + "  " + [b]);
    StripUnchanged([a] + "  " + [b], Whitespace);
  }

  // ================================================================ pdf_exists

  /** The local file name for a DOI: resolver removed, slashes turned into dashes. */
  function PdfFileName(doi: string): (name: string)
    ensures '/' !in name
    ensures |name| >= 4 && name[|name| - 4..] == ".pdf"
  {
    var bare := ReplaceAll(doi, Resolver, "");
    ReplaceRemovesChar(bare, "/", "-");
    ReplaceAll(bare, "/", "-") + ".pdf"
  }

  /**
   * `pdf_exists`, with the file-system test passed in: the file name when the
   * file is on disk, absent otherwise.
   */
  function PdfExists(doi: Option<string>, onDisk: string -> bool): (r: Option<string>)
    ensures r.Some? <==> doi.Some? && onDisk(PdfFileName(doi.value))
    ensures r.Some? ==> r.value == PdfFileName(doi.value)
  {
    match doi
    case None => None
    case Some(d) => if onDisk(PdfFileName(d)) then Some(PdfFileName(d)) else None
  }

  /** For a normalised DOI the file name is the DOI proper with its slashes turned into dashes. */
  lemma PdfFileNameOfNormalized(suffix: string)
    requires !Contains(suffix, Resolver)
    ensures PdfFileName(Resolver + suffix) == ReplaceAll(suffix, "/", "-") + ".pdf"
  {
    ResolverRemoved(suffix);
  }

  lemma ResolverRemoved(suffix: string)
    requires !Contains(suffix, Resolver)
    ensures ReplaceAll(Resolver + suffix, Resolver, "") == suffix
  {
    ReplaceLeading(Resolver + suffix, Resolver, "");
    assert (Resolver + suffix)[|Resolver|..] == suffix;
    ReplaceAbsent(suffix, Resolver, "");
  }

  // ================================================================ normalize_countries

  /** What the country table answers for a name it does not know. */
  const NotFound: string := "not found"

  predicate Found(name: string) { name != NotFound }

  /**
   * `normalize_countries`, with the country table passed in as `convert`: a
   * single name is converted on its own and is absent when not found; several
   * names are converted one by one, the unknown ones dropped and the rest
   * re-joined.
   */
  function NormalizeCountries(countries: Option<string>, convert: string -> string): (r: Option<string>)
    ensures countries.None? ==> r.None?
    ensures r.Some? ==> r.value != NotFound || |Split(countries.value, SubjectSeparator)| > 1
  {
    match countries
    case None => None
    case Some(s) =>
      var names := Split(s, SubjectSeparator);
      if |names| == 1 then
        (if Found(convert(names[0])) then Some(convert(names[0])) else None)
      else
        Some(Join(Filter(Map(names, convert), Found), SubjectSeparator))
  }

  /**
   * A single name, one without the `"; "` separator, gives the table's answer
   * when the table knows it and an absent value when it does not.
   */
  lemma NormalizeCountriesSingle(name: string, convert: string -> string)
    requires !Contains(name, SubjectSeparator)
    ensures Found(convert(name)) ==> NormalizeCountries(Some(name), convert) == Some(convert(name))
    ensures !Found(convert(name)) ==> NormalizeCountries(Some(name), convert) == None
  {
    SplitNoSeparator(name, SubjectSeparator);
  }

  /**
   * With several names, the result lists exactly the names the table found, in
   * the input order, provided the table's answers contain no separator.
   */
  lemma NormalizeCountriesFound(s: string, convert: string -> string)
    requires |Split(s, SubjectSeparator)| > 1
    requires forall n :: !Contains(convert(n), SubjectSeparator)
    requires Filter(Map(Split(s, SubjectSeparator), convert), Found) != []
    ensures NormalizeCountries(Some(s), convert).Some?
    ensures Split(NormalizeCountries(Some(s), convert).value, SubjectSeparator)
         == Filter(Map(Split(s, SubjectSeparator), convert), Found)
  {
    var found := Filter(Map(Split(s, SubjectSeparator), convert), Found);
    FoundNamesHaveNoSeparator(Map(Split(s, SubjectSeparator), convert), convert);
    SubjectSeparatorLastUnique();
    SplitJoin(found, SubjectSeparator);
  }

  lemma SubjectSeparatorLastUnique()
    ensures LastCharUnique(SubjectSeparator)
  {
    assert SubjectSeparator[..1] == ";";
  }

  lemma FoundNamesHaveNoSeparator(converted: seq<string>, convert: string -> string)
    requires forall n :: !Contains(convert(n), SubjectSeparator)
    requires forall i :: 0 <= i < |converted| ==> exists n :: converted[i] == convert(n)
    ensures forall k :: 0 <= k < |Filter(converted, Found)| ==> !Contains(Filter(converted, Found)[k], SubjectSeparator)
  {
    var f := Filter(converted, Found);
    forall k | 0 <= k < |f|
      ensures !Contains(f[k], SubjectSeparator)
    {
      assert f[k] in converted;
      var i :| 0 <= i < |converted| && converted[i] == f[k];
      var n :| converted[i] == convert(n);
    }
  }

  /** Several names none of which is known give an empty string, not an absent value. */
  lemma NormalizeCountriesNoneFound(s: string, convert: string -> string)
    requires |Split(s, SubjectSeparator)| > 1
    requires forall n :: convert(n) == NotFound
    ensures NormalizeCountries(Some(s), convert) == Some("")
  {
    var converted := Map(Split(s, SubjectSeparator), convert);
    FilterNone(converted, Found);
  }
}
