/**
 * The stages `merge_source_csvs.py` runs on the merged frame: DOI
 * normalisation, the DOI and title de-duplications, the subject clean-up, the
 * exclusion lists, the split on having a DOI, the per-row lookups (licence,
 * access rights, PDF, publication date, abstract, countries), the output
 * columns and the DOI-list partitions.
 */
module MergePipeline {
  import opened Wrappers
  import opened Text
  import opened Seqs
  import opened Merge
  import Util
  import Lookups
  import PublicationDates

  // ================================================================ de-duplication

  /** `df_final["DOI"].apply(normalize_doi)` on one row. */
  function NormalizeDoiColumn(row: Row): (r: Row)
    ensures Get(r, "DOI") == Util.NormalizeDoi(Get(row, "DOI"))
    ensures forall c :: c != "DOI" ==> Get(r, c) == Get(row, c)
  {
    Put(row, "DOI", Util.NormalizeDoi(Get(row, "DOI")))
  }

  /** The DOI pass keys rows by DOI; a row without one has no key and is never dropped. */
  function DoiKey(row: Row): Option<string> { Get(row, "DOI") }

  predicate NoDoi(row: Row) { "DOI" !in row }

  /** The title pass keys every row by its title, a missing title being a key of its own. */
  function TitleKey(row: Row): Option<Option<string>> { Some(Get(row, "Title")) }

  /** DOIs normalised, then the DOI pass, then the title pass. */
  function Deduplicated(rows: seq<Row>): seq<Row>
  {
    DedupBy(DedupBy(Map(rows, NormalizeDoiColumn), DoiKey), TitleKey)
  }

  /**
   * After the DOI pass every row without a DOI is still there, in order, and
   * the first row with each DOI is still there.
   */
  lemma DoiPassKeeps(rows: seq<Row>, i: nat)
    requires i < |rows| && FirstOfKey(rows[i], rows[..i], DoiKey)
    ensures rows[i] in DedupBy(rows, DoiKey)
    ensures Filter(DedupBy(rows, DoiKey), NoDoi) == Filter(rows, NoDoi)
  {
    DedupByKeepsFirst(rows, DoiKey, i);
    DedupByKeepsUnkeyed(rows, DoiKey, NoDoi);
  }

  /**
   * The de-duplicated rows keep their relative order, hold every title that
   * survived the DOI pass, and no two of them share a DOI or a title (at most
   * one has no title).
   */
  lemma DeduplicatedProperties(rows: seq<Row>)
    ensures var n := Map(rows, NormalizeDoiColumn);
            var d := Deduplicated(rows);
            Subseq(d, n) && KeysOf(d, TitleKey) == KeysOf(DedupBy(n, DoiKey), TitleKey)
            && DistinctKeys(d, DoiKey) && DistinctKeys(d, TitleKey)
  {
    var n := Map(rows, NormalizeDoiColumn);
    var once := DedupBy(n, DoiKey);
    var d := DedupBy(once, TitleKey);
    DedupBySubseq(n, DoiKey);
    DedupBySubseq(once, TitleKey);
    SubseqTransitive(d, once, n);
    DedupByDistinctKeys(n, DoiKey);
    SubseqDistinctKeys(d, once, DoiKey);
    DedupByDistinctKeys(once, TitleKey);
  }

  /** Two rows without a title are duplicates of each other for the title pass. */
  lemma MissingTitlesCollapse(a: Row, b: Row)
    requires "Title" !in a && "Title" !in b
    ensures DedupBy([a, b], TitleKey) == [a]
  {
    assert [a, b][..1] == [a];
    assert KeysOf([a], TitleKey) == {None} by {
      assert [a][..0] == [];
    }
  }

  // ================================================================ subjects

  /** The length of a match of `;\s?$` at the start of `t` (`$` also matches before a final newline). */
  function TrailingSemicolon(t: string): (n: nat)
    ensures n <= |t|
  {
    if |t| == 0 || t[0] != ';' then 0
    else if |t| >= 2 && t[1] in Whitespace && (|t| == 2 || (|t| == 3 && t[2] == '\n')) then 2
    else if |t| == 1 || (|t| == 2 && t[1] == '\n') then 1
    else 0
  }

  /** Subjects of the merged frame: a trailing `;` removed, lowercased, tokens de-duplicated. */
  function CleanSubjects(s: string): string
  {
    Util.DedupedSubjects(Lower(RegexSub(s, TrailingSemicolon, "")))
  }

  function CleanSubjectsColumn(row: Row): (r: Row)
    ensures Get(r, "Subjects") == MapOption(Get(row, "Subjects"), CleanSubjects)
    ensures forall c :: c != "Subjects" ==> Get(r, c) == Get(row, c)
  {
    Put(row, "Subjects", MapOption(Get(row, "Subjects"), CleanSubjects))
  }

  /** Inside a text, away from its end, `;\s?$` never matches. */
  lemma NoTrailingMatchInside(x: string, tail: string, i: nat)
    requires i < |x| && 1 <= |tail| <= 2 && tail[0] == ';'
    requires |tail| == 2 ==> tail[1] == ' '
    ensures TrailingSemicolon((x + tail)[i..]) == 0
  {
    var t := (x + tail)[i..];
    if t[0] == ';' && |t| <= 3 {
      assert t[|t| - |tail|..] == tail;
    }
  }

  /** A trailing `;` or `"; "` is removed, whatever precedes it. */
  lemma DropTrailingSemicolon(x: string, tail: string)
    requires tail == ";" || tail == "; "
    ensures RegexSub(x + tail, TrailingSemicolon, "") == x
  {
    forall i | 0 <= i < |x|
      ensures TrailingSemicolon((x + tail)[i..]) == 0
    {
      NoTrailingMatchInside(x, tail, i);
    }
    RegexSubSkip(x, tail, TrailingSemicolon, "");
    assert TrailingSemicolon(tail) == |tail|;
    assert tail[|tail|..] == [];
  }

  /** Without a `;` among its last three characters the text is unchanged. */
  lemma KeepWithoutTrailingSemicolon(x: string)
    requires forall i :: 0 <= i < |x| && |x| - 3 <= i ==> x[i] != ';'
    ensures RegexSub(x, TrailingSemicolon, "") == x
  {
    forall i | 0 <= i < |x|
      ensures TrailingSemicolon(x[i..]) == 0
    {
      assert x[i..][0] == x[i];
    }
    RegexSubNone(x, TrailingSemicolon, "");
  }

  /** `"a; b; a;"` and `"a; b; a"` clean up alike: the trailing `;` goes before lowercasing and de-duplication. */
  lemma CleanSubjectsTrailing(x: string, tail: string)
    requires tail == ";" || tail == "; "
    ensures CleanSubjects(x + tail) == Util.DedupedSubjects(Lower(x))
  {
    DropTrailingSemicolon(x, tail);
  }

  /** The cleaned subjects split into distinct tokens: those of the lowercased input, first occurrences kept. */
  lemma CleanSubjectsTokens(s: string)
    ensures var out := Split(CleanSubjects(s), Util.SubjectSeparator);
            var inp := Split(Lower(RegexSub(s, TrailingSemicolon, "")), Util.SubjectSeparator);
            Distinct(out) && (forall t :: t in out <==> t in inp) && Subseq(out, inp)
  {
    Util.DeduplicateSubjectsTokens(Lower(RegexSub(s, TrailingSemicolon, "")));
  }

  // ================================================================ exclusions and the DOI split

  /** `~column.isin(listed)`: a missing value is never in the list. */
  predicate NotListed(v: Option<string>, listed: set<string>)
  {
    v.None? || v.value !in listed
  }

  function KeepDoi(removeDois: set<string>): Row -> bool
  {
    row => NotListed(Get(row, "DOI"), removeDois)
  }

  function KeepLink(removeUrls: set<string>): Row -> bool
  {
    row => NotListed(Get(row, "Repository link"), removeUrls)
  }

  /** The rows left after both exclusion lists. */
  function Excluded(rows: seq<Row>, removeDois: set<string>, removeUrls: set<string>): seq<Row>
  {
    Filter(Filter(rows, KeepDoi(removeDois)), KeepLink(removeUrls))
  }

  /**
   * Exclusion only deletes rows: what is left keeps its order, no row left
   * has a listed DOI or a listed link, and every row with neither is left.
   */
  lemma ExcludedProperties(rows: seq<Row>, removeDois: set<string>, removeUrls: set<string>)
    ensures var e := Excluded(rows, removeDois, removeUrls);
            Subseq(e, rows)
            && (forall r :: r in e <==> r in rows && NotListed(Get(r, "DOI"), removeDois)
                                                  && NotListed(Get(r, "Repository link"), removeUrls))
  {
    var once := Filter(rows, KeepDoi(removeDois));
    FilterSubseq(rows, KeepDoi(removeDois));
    FilterSubseq(once, KeepLink(removeUrls));
    SubseqTransitive(Excluded(rows, removeDois, removeUrls), once, rows);
  }

  /** `str.startswith("https://doi.org/10.", na=False)`. */
  function HasDoi(row: Row): bool { Lookups.Lookable(Get(row, "DOI")) }

  function LacksDoi(row: Row): bool { !HasDoi(row) }

  /** The rows written to the missing-DOI file and the rows processed further split the rows exactly. */
  lemma DoiSplit(rows: seq<Row>)
    ensures |Filter(rows, HasDoi)| + |Filter(rows, LacksDoi)| == |rows|
    ensures multiset(Filter(rows, HasDoi)) + multiset(Filter(rows, LacksDoi)) == multiset(rows)
    ensures forall r :: r in Filter(rows, HasDoi) ==> StartsWith(Get(r, "DOI").value, Lookups.LookupPrefix)
  {
    FilterPartition(rows, HasDoi, LacksDoi);
  }

  // ================================================================ per-row lookups

  /** The columns that identify a row and that no stage after the exclusions changes. */
  predicate SameIdentity(a: Row, b: Row)
  {
    Get(a, "DOI") == Get(b, "DOI") && Get(a, "Title") == Get(b, "Title")
    && Get(a, "Repository link") == Get(b, "Repository link")
  }


  /**
   * What the outside world answers: Crossref and Unpaywall per DOI, whether
   * a PDF file is on disk, and the country-name table.
   */
  datatype Services = Services(
    crossref: string -> Lookups.CrossrefReply,
    unpaywall: string -> Lookups.UnpaywallReply,
    onDisk: string -> bool,
    convert: string -> string)

  function CrossrefFor(s: Services, doi: Option<string>): Lookups.CrossrefReply
  {
    if doi.Some? then s.crossref(doi.value) else Lookups.CrossrefFailed
  }

  function UnpaywallFor(s: Services, doi: Option<string>): Lookups.UnpaywallReply
  {
    if doi.Some? then s.unpaywall(doi.value) else Lookups.UnpaywallFailed
  }

  /** `lookup.combine_first(repository)`. */
  function CombineFirst(lookup: Option<string>, repository: Option<string>): Option<string>
  {
    if lookup.Some? then lookup else repository
  }

  function AlignUsageText(x: string): string
  {
    ReplaceAll(x, "Attribution 4.0", "CC-BY-4.0")
  }

  const ClosedAccess: string := "Closed access"
  const LimitedAccess: string := "Limited Access"
  const GoldOpenAccessLower: string := "Gold open access"
  const GoldOpenAccess: string := "Gold Open Access"
  const OpenAccessLower: string := "Open access"

  function ClosedToLimited(x: string): string { ReplaceAll(x, ClosedAccess, LimitedAccess) }
  function GoldCapitalised(x: string): string { ReplaceAll(x, GoldOpenAccessLower, GoldOpenAccess) }
  function OpenCapitalised(x: string): string { ReplaceAll(x, OpenAccessLower, Lookups.OpenAccess) }

  /** The literal rewrites of the access rights, in the order they are made. */
  function AlignAccessText(x: string): string
  {
    OpenCapitalised(GoldCapitalised(ClosedToLimited(x)))
  }

  // Each pass below is one `df_final[column] = ...` statement of the script,
  // applied to every row; a pass changes its own column and nothing else.

  /**
   * The licence: Crossref's when it gives one, else the repository's; then
   * `"Attribution 4.0"` is aligned. A licence conversion that raises fails
   * the run.
   */
  function UsageColumn(row: Row, s: Services): (r: Outcome<Row>)
    ensures r.Returns? ==> SameIdentity(r.value, row)
  {
    var doi := Get(row, "DOI");
    match Lookups.LicenseOf(doi, CrossrefFor(s, doi))
    case Raises => Raises
    case Returns(licence) =>
      Returns(Put(row, "Usage rights", MapOption(CombineFirst(licence, Get(row, "Usage rights")), AlignUsageText)))
  }

  /** The access rights: Unpaywall's when it answers, else the repository's; then aligned. */
  function AccessColumn(row: Row, s: Services): (r: Row)
    ensures SameIdentity(r, row)
  {
    var doi := Get(row, "DOI");
    var lookup := Lookups.AccessRights(doi, UnpaywallFor(s, doi));
    Put(row, "Access rights", MapOption(CombineFirst(lookup, Get(row, "Access rights")), AlignAccessText))
  }

  function PdfColumn(row: Row, s: Services): (r: Row)
    ensures SameIdentity(r, row)
    ensures Get(r, "PDF") == Util.PdfExists(Get(row, "DOI"), s.onDisk)
  {
    Put(row, "PDF", Util.PdfExists(Get(row, "DOI"), s.onDisk))
  }

  /** The publication date chosen from the issue and online dates; no usable date fails the run. */
  function DateColumn(row: Row): (r: Outcome<Row>)
    ensures r.Returns? ==> SameIdentity(r.value, row) && Get(r.value, "PDF") == Get(row, "PDF")
    ensures r.Returns? ==> Get(r.value, "Publication date").Some?
  {
    match PublicationDates.GetPublicationDate(Get(row, "Publication date"), Get(row, "Publication date (Online)"))
    case Raises => Raises
    case Returns(date) => Returns(Put(row, "Publication date", Some(date)))
  }

  /** The abstract, filtered against the (already updated) licence. */
  function AbstractColumn(row: Row, s: Services): (r: Row)
    ensures SameIdentity(r, row) && Get(r, "PDF") == Get(row, "PDF")
  {
    var doi := Get(row, "DOI");
    Put(row, "Abstract", Lookups.FilterAbstract(Get(row, "Abstract"), Get(row, "Usage rights"), CrossrefFor(s, doi)))
  }

  function CountriesColumn(row: Row, s: Services): (r: Row)
    ensures SameIdentity(r, row) && Get(r, "PDF") == Get(row, "PDF")
  {
    Put(row, "Countries", Util.NormalizeCountries(Get(row, "Countries"), s.convert))
  }

  function UsagePass(s: Services): Row -> Outcome<Row> { row => UsageColumn(row, s) }
  function AccessPass(s: Services): Row -> Row { row => AccessColumn(row, s) }
  function PdfPass(s: Services): Row -> Row { row => PdfColumn(row, s) }
  function AbstractPass(s: Services): Row -> Row { row => AbstractColumn(row, s) }
  function CountriesPass(s: Services): Row -> Row { row => CountriesColumn(row, s) }

  /** `"Closed access"`, `"Gold open access"` and `"Open access"` are each rewritten to the capitalised labels. */
  lemma AlignAccessLabels()
    ensures AlignAccessText(ClosedAccess) == LimitedAccess
    ensures AlignAccessText(GoldOpenAccessLower) == GoldOpenAccess
    ensures AlignAccessText(OpenAccessLower) == Lookups.OpenAccess
  {
    AlignClosedAccess();
    AlignGoldOpenAccess();
    AlignOpenAccess();
  }

  lemma AlignClosedAccess()
    ensures AlignAccessText(ClosedAccess) == LimitedAccess
  {
    ClosedRewritten();
    LimitedPassesGold();
    LimitedPassesOpen();
  }

  lemma AlignGoldOpenAccess()
    ensures AlignAccessText(GoldOpenAccessLower) == GoldOpenAccess
  {
    GoldLowerPassesFirst();
    GoldRewritten();
    GoldOpenKept();
  }

  lemma AlignOpenAccess()
    ensures AlignAccessText(OpenAccessLower) == Lookups.OpenAccess
  {
    OpenLowerPassesClosed();
    OpenLowerPassesGold();
    OpenRewritten();
  }

  // One rewrite of one label per lemma: a chain of rewrites on a literal is costly to unfold at once.

  lemma ClosedRewritten()
    ensures ClosedToLimited(ClosedAccess) == LimitedAccess
  {
    Lookups.ReplaceWhole(ClosedAccess, LimitedAccess);
  }

  lemma LimitedPassesGold()
    ensures GoldCapitalised(LimitedAccess) == LimitedAccess
  {
    ReplaceAbsentChar(LimitedAccess, GoldOpenAccessLower, GoldOpenAccess, 10);
  }

  lemma LimitedPassesOpen()
    ensures OpenCapitalised(LimitedAccess) == LimitedAccess
  {
    ReplaceAbsentChar(LimitedAccess, OpenAccessLower, Lookups.OpenAccess, 5);
  }

  lemma GoldLowerPassesFirst()
    ensures ClosedToLimited(GoldOpenAccessLower) == GoldOpenAccessLower
  {
    ReplaceAbsentChar(GoldOpenAccessLower, ClosedAccess, LimitedAccess, 0);
  }

  lemma GoldRewritten()
    ensures GoldCapitalised(GoldOpenAccessLower) == GoldOpenAccess
  {
    Lookups.ReplaceWhole(GoldOpenAccessLower, GoldOpenAccess);
  }

  lemma GoldOpenKept()
    ensures OpenCapitalised(GoldOpenAccess) == GoldOpenAccess
  {
    ReplaceAbsentChar(GoldOpenAccess, OpenAccessLower, Lookups.OpenAccess, 5);
  }

  lemma OpenLowerPassesClosed()
    ensures ClosedToLimited(OpenAccessLower) == OpenAccessLower
  {
    ReplaceAbsentChar(OpenAccessLower, ClosedAccess, LimitedAccess, 0);
  }

  lemma OpenLowerPassesGold()
    ensures GoldCapitalised(OpenAccessLower) == OpenAccessLower
  {
    ReplaceAbsentChar(OpenAccessLower, GoldOpenAccessLower, GoldOpenAccess, 0);
  }

  lemma OpenRewritten()
    ensures OpenCapitalised(OpenAccessLower) == Lookups.OpenAccess
  {
    Lookups.ReplaceWhole(OpenAccessLower, Lookups.OpenAccess);
  }

  /** All three patterns hold a lowercase `a`, so a text without one is left alone. */
  lemma WithoutLowercaseA(x: string)
    requires 'a' !in x
    ensures AlignAccessText(x) == x
  {
    assert ClosedAccess[7] == 'a';
    ReplaceAbsentChar(x, ClosedAccess, LimitedAccess, 7);
    assert GoldOpenAccessLower[10] == 'a';
    ReplaceAbsentChar(x, GoldOpenAccessLower, GoldOpenAccess, 10);
    assert OpenAccessLower[5] == 'a';
    ReplaceAbsentChar(x, OpenAccessLower, Lookups.OpenAccess, 5);
  }

  /** No label Unpaywall's answer is turned into has a lowercase `a`. */
  lemma AccessLabelsWithoutA(doi: Option<string>, reply: Lookups.UnpaywallReply)
    ensures var v := Lookups.AccessRights(doi, reply);
            v.Some? ==> 'a' !in v.value
  {
    if Lookups.Lookable(doi) && reply.UnpaywallOk? && reply.isOa {
      var status := reply.oaStatus;
      Lookups.OpenAccessKindPlain(status);
      Lookups.OpenAccessKindNamed();
      assert 'a' !in Lookups.OpenAccess;
      assert 'a' !in "Gold " && 'a' !in "Green " && 'a' !in "Hybrid " && 'a' !in "Bronze ";
    }
  }

  /** The `"Attribution 4.0"` licence CIFOR records becomes `CC-BY-4.0`. */
  lemma AlignAttribution()
    ensures AlignUsageText("Attribution 4.0") == "CC-BY-4.0"
  {
    Lookups.ReplaceWhole("Attribution 4.0", "CC-BY-4.0");
  }

  /**
   * Licence precedence: when Crossref gives a licence, the row's usage rights
   * are that licence, aligned; when it gives none they are the repository's,
   * aligned; the pass fails exactly when the licence lookup raises, and it
   * changes no other column.
   */
  lemma UsageRightsPrecedence(row: Row, s: Services)
    ensures var doi := Get(row, "DOI");
            var licence := Lookups.LicenseOf(doi, CrossrefFor(s, doi));
            var r := UsageColumn(row, s);
            && (r.Raises? <==> licence.Raises?)
            && (licence.Returns? && licence.value.Some?
                ==> Get(r.value, "Usage rights") == Some(AlignUsageText(licence.value.value)))
            && (licence.Returns? && licence.value.None?
                ==> Get(r.value, "Usage rights") == MapOption(Get(row, "Usage rights"), AlignUsageText))
            && (r.Returns? ==> forall c :: c != "Usage rights" ==> Get(r.value, c) == Get(row, c))
  {
  }

  /**
   * Rights precedence: when Unpaywall answers, the row's access rights are
   * exactly its label, the alignment rewrites notwithstanding; otherwise they
   * are the repository's, aligned.
   */
  lemma AccessRightsPrecedence(row: Row, s: Services)
    ensures var doi := Get(row, "DOI");
            var lookup := Lookups.AccessRights(doi, UnpaywallFor(s, doi));
            var r := AccessColumn(row, s);
            && (lookup.Some? ==> Get(r, "Access rights") == lookup)
            && (lookup.None? ==> Get(r, "Access rights") == MapOption(Get(row, "Access rights"), AlignAccessText))
  {
    var doi := Get(row, "DOI");
    var lookup := Lookups.AccessRights(doi, UnpaywallFor(s, doi));
    if lookup.Some? {
      AccessLabelsWithoutA(doi, UnpaywallFor(s, doi));
      WithoutLowercaseA(lookup.value);
    }
  }

  // ================================================================ the output columns

  /** The columns kept for the output, `Year` and `Keywords` being the renamed date and subjects. */
  const OutputColumns: set<string> := {
    "Title", "Authors", "Author affiliations", "Abstract", "Funders", "DOI", "Year", "Journal",
    "ISSN", "Volume", "Issue", "Pages", "Publisher", "Keywords", "Countries", "Access rights",
    "Usage rights", "PDF", "Repository link", "Source"
  }

  /** `str.slice(0, 4)`: the first four characters, or all of a shorter text. */
  function First4(x: string): (r: string)
    ensures |r| <= 4 && |r| <= |x| && r == x[..|r|]
    ensures |x| >= 4 ==> |r| == 4
  {
    if |x| <= 4 then x else x[..4]
  }

  /** Where an output column takes its value from. */
  function OutputValue(row: Row, c: string): Option<string>
  {
    if c == "Year" then MapOption(Get(row, "Publication date"), First4)
    else if c == "Keywords" then Get(row, "Subjects")
    else if c == "Publication date" || c == "Subjects" then None
    else Get(row, c)
  }

  /** The year cut, the renames and the column selection of one row. */
  function Shape(row: Row): (r: Row)
    ensures forall c :: c in r ==> c in OutputColumns
    ensures forall c :: c in OutputColumns ==> Get(r, c) == OutputValue(row, c)
  {
    map c | c in OutputColumns && OutputValue(row, c).Some? :: OutputValue(row, c).value
  }

  // ================================================================ the pipeline

  /** The processed rows and the rows written to the missing-DOI file. */
  datatype Outputs = Outputs(final: seq<Row>, missingDois: seq<Row>)

  /** The rows of the merged frame after de-duplication, subject clean-up and exclusion. */
  function Kept(merged: seq<Row>, removeDois: set<string>, removeUrls: set<string>): seq<Row>
  {
    Excluded(Map(Deduplicated(merged), CleanSubjectsColumn), removeDois, removeUrls)
  }

  /** Six passes over the rows, in order; a pass that raises stops the run. */
  function RunPasses(w: seq<Row>, usage: Row -> Outcome<Row>, access: Row -> Row, pdf: Row -> Row,
                     date: Row -> Outcome<Row>, abstr: Row -> Row, countries: Row -> Row): Outcome<seq<Row>>
  {
    match MapOutcome(w, usage)
    case Raises => Raises
    case Returns(u) =>
      match MapOutcome(Map(Map(u, access), pdf), date)
      case Raises => Raises
      case Returns(d) => Returns(Map(Map(d, abstr), countries))
  }

  /** The lookups of the rows with a DOI, pass by pass in the script's order. */
  function Enriched(w: seq<Row>, s: Services): Outcome<seq<Row>>
  {
    RunPasses(w, UsagePass(s), AccessPass(s), PdfPass(s), DateColumn, AbstractPass(s), CountriesPass(s))
  }

  function Pipeline(merged: seq<Row>, removeDois: set<string>, removeUrls: set<string>, s: Services)
    : Outcome<Outputs>
  {
    var kept := Kept(merged, removeDois, removeUrls);
    match Enriched(Filter(kept, HasDoi), s)
    case Raises => Raises
    case Returns(e) => Returns(Outputs(Map(e, Shape), Filter(kept, LacksDoi)))
  }

  /** The stages in the order the script runs them, each one replacing the frame. */
  method RunPipeline(merged: seq<Row>, removeDois: set<string>, removeUrls: set<string>, s: Services)
    returns (out: Outcome<Outputs>)
    ensures out == Pipeline(merged, removeDois, removeUrls, s)
  {
    var rows := Map(merged, NormalizeDoiColumn);
    rows := DropDuplicates(rows, DoiKey);
    rows := DropDuplicates(rows, TitleKey);
    rows := Map(rows, CleanSubjectsColumn);
    rows := Select(rows, KeepDoi(removeDois));
    rows := Select(rows, KeepLink(removeUrls));
    assert rows == Kept(merged, removeDois, removeUrls);
    var missing := Select(rows, LacksDoi);
    rows := Select(rows, HasDoi);
    var w := rows;
    var licensed := ApplyEach(rows, UsagePass(s));
    if licensed.Raises? {
      return Raises;
    }
    rows := Map(licensed.value, AccessPass(s));
    rows := Map(rows, PdfPass(s));
    var dated := ApplyEach(rows, DateColumn);
    if dated.Raises? {
      return Raises;
    }
    rows := Map(dated.value, AbstractPass(s));
    rows := Map(rows, CountriesPass(s));
    assert Enriched(w, s) == Returns(rows);
    out := Returns(Outputs(Map(rows, Shape), missing));
  }

  // ================================================================ partitions and end-to-end properties

  /** `df["DOI"].isin(dois)`: a missing DOI is in no list. */
  function InDoiList(dois: set<string>): Row -> bool
  {
    row => Get(row, "DOI").Some? && Get(row, "DOI").value in dois
  }

  /** The rows of one DOI list (in review, combined, drought, rainfall, adaptation). */
  function Partition(rows: seq<Row>, dois: set<string>): seq<Row>
  {
    Filter(rows, InDoiList(dois))
  }

  predicate PdfMissing(row: Row) { "PDF" !in row }

  function MissingPdfs(rows: seq<Row>): seq<Row>
  {
    Filter(rows, PdfMissing)
  }

  /** A partition is the rows whose DOI is listed, in their order. */
  lemma PartitionProperties(rows: seq<Row>, dois: set<string>)
    ensures Subseq(Partition(rows, dois), rows)
    ensures forall r :: r in Partition(rows, dois) <==> r in rows && Get(r, "DOI").Some? && Get(r, "DOI").value in dois
  {
    FilterSubseq(rows, InDoiList(dois));
  }

  /** A pass that leaves the identifying columns alone. */
  ghost predicate KeepsIdentity(f: Row -> Row) { forall x :: SameIdentity(f(x), x) }

  /** A pass that leaves the PDF column alone. */
  ghost predicate KeepsPdf(f: Row -> Row) { forall x :: Get(f(x), "PDF") == Get(x, "PDF") }

  /** A pass that may fail and, when it does not, leaves the identifying columns alone. */
  ghost predicate KeepsIdentityOrRaises(f: Row -> Outcome<Row>)
  {
    forall x :: f(x).Returns? ==> SameIdentity(f(x).value, x)
  }

  lemma UsagePassKeeps(s: Services)
    ensures KeepsIdentityOrRaises(UsagePass(s))
  {
  }

  lemma DatePassKeeps()
    ensures KeepsIdentityOrRaises(DateColumn)
    ensures forall x :: DateColumn(x).Returns? ==> Get(DateColumn(x).value, "PDF") == Get(x, "PDF")
  {
  }

  lemma RowPassesKeep(s: Services)
    ensures KeepsIdentity(AccessPass(s)) && KeepsIdentity(PdfPass(s))
    ensures KeepsIdentity(AbstractPass(s)) && KeepsIdentity(CountriesPass(s))
    ensures KeepsPdf(AbstractPass(s)) && KeepsPdf(CountriesPass(s))
    ensures forall x :: Get(PdfPass(s)(x), "PDF") == Util.PdfExists(Get(x, "DOI"), s.onDisk)
  {
  }

  /** The output shape keeps the identifying columns and the PDF column. */
  lemma ShapeKeeps(row: Row)
    ensures SameIdentity(Shape(row), row) && Get(Shape(row), "PDF") == Get(row, "PDF")
  {
    assert "DOI" in OutputColumns && "Title" in OutputColumns;
    assert "Repository link" in OutputColumns && "PDF" in OutputColumns;
  }

  /** Passes that keep the identifying columns keep them over the whole run. */
  lemma {:induction false} PassesKeepIdentity(w: seq<Row>, usage: Row -> Outcome<Row>, access: Row -> Row,
                                              pdf: Row -> Row, date: Row -> Outcome<Row>, abstr: Row -> Row,
                                              countries: Row -> Row)
    requires KeepsIdentityOrRaises(usage) && KeepsIdentity(access) && KeepsIdentity(pdf)
    requires KeepsIdentityOrRaises(date) && KeepsIdentity(abstr) && KeepsIdentity(countries)
    requires RunPasses(w, usage, access, pdf, date, abstr, countries).Returns?
    ensures var e := RunPasses(w, usage, access, pdf, date, abstr, countries).value;
            |e| == |w| && forall i :: 0 <= i < |w| ==> SameIdentity(e[i], w[i])
  {
    var u := MapOutcome(w, usage).value;
    var p := Map(Map(u, access), pdf);
    var d := MapOutcome(p, date).value;
    forall i | 0 <= i < |w|
      ensures SameIdentity(Map(Map(d, abstr), countries)[i], w[i])
    {
      assert usage(w[i]) == Returns(u[i]);
      assert date(p[i]) == Returns(d[i]);
    }
  }

  /** The PDF column at the end of the run is the one the PDF pass wrote. */
  lemma {:induction false} PassesKeepPdf(w: seq<Row>, usage: Row -> Outcome<Row>, access: Row -> Row,
                                         pdf: Row -> Row, date: Row -> Outcome<Row>, abstr: Row -> Row,
                                         countries: Row -> Row, onDisk: string -> bool)
    requires KeepsIdentityOrRaises(usage) && KeepsIdentity(access)
    requires forall x :: Get(pdf(x), "PDF") == Util.PdfExists(Get(x, "DOI"), onDisk)
    requires forall x :: date(x).Returns? ==> Get(date(x).value, "PDF") == Get(x, "PDF")
    requires KeepsPdf(abstr) && KeepsPdf(countries)
    requires RunPasses(w, usage, access, pdf, date, abstr, countries).Returns?
    ensures var e := RunPasses(w, usage, access, pdf, date, abstr, countries).value;
            |e| == |w| && forall i :: 0 <= i < |w| ==> Get(e[i], "PDF") == Util.PdfExists(Get(w[i], "DOI"), onDisk)
  {
    var u := MapOutcome(w, usage).value;
    var p := Map(Map(u, access), pdf);
    var d := MapOutcome(p, date).value;
    forall i | 0 <= i < |w|
      ensures Get(Map(Map(d, abstr), countries)[i], "PDF") == Util.PdfExists(Get(w[i], "DOI"), onDisk)
    {
      assert usage(w[i]) == Returns(u[i]);
      assert SameIdentity(access(u[i]), w[i]);
      assert date(p[i]) == Returns(d[i]);
    }
  }

  /** An enriched row keeps the identity of the row it came from and carries its PDF lookup. */
  lemma EnrichedRows(w: seq<Row>, s: Services)
    requires Enriched(w, s).Returns?
    ensures var e := Enriched(w, s).value;
            |e| == |w|
            && (forall i :: 0 <= i < |w| ==> SameIdentity(e[i], w[i]))
            && (forall i :: 0 <= i < |w| ==> Get(e[i], "PDF") == Util.PdfExists(Get(w[i], "DOI"), s.onDisk))
  {
    UsagePassKeeps(s);
    DatePassKeeps();
    RowPassesKeep(s);
    PassesKeepIdentity(w, UsagePass(s), AccessPass(s), PdfPass(s), DateColumn, AbstractPass(s), CountriesPass(s));
    PassesKeepPdf(w, UsagePass(s), AccessPass(s), PdfPass(s), DateColumn, AbstractPass(s), CountriesPass(s), s.onDisk);
  }

  lemma ProcessedRows(w: seq<Row>, s: Services)
    requires Enriched(w, s).Returns?
    ensures var f := Map(Enriched(w, s).value, Shape);
            |f| == |w|
            && (forall i :: 0 <= i < |w| ==> SameIdentity(f[i], w[i]))
            && (forall i :: 0 <= i < |w| ==> Get(f[i], "PDF") == Util.PdfExists(Get(w[i], "DOI"), s.onDisk))
  {
    var e := Enriched(w, s).value;
    EnrichedRows(w, s);
    forall i | 0 <= i < |w|
      ensures SameIdentity(Shape(e[i]), w[i])
      ensures Get(Shape(e[i]), "PDF") == Util.PdfExists(Get(w[i], "DOI"), s.onDisk)
    {
      ShapeKeeps(e[i]);
    }
  }

  /** No two kept rows share a DOI. */
  lemma KeptDistinctDois(merged: seq<Row>, removeDois: set<string>, removeUrls: set<string>)
    ensures DistinctKeys(Kept(merged, removeDois, removeUrls), DoiKey)
  {
    var d := Deduplicated(merged);
    var c := Map(d, CleanSubjectsColumn);
    DeduplicatedProperties(merged);
    DistinctKeysPointwise(c, d, DoiKey, DoiKey);
    ExcludedProperties(c, removeDois, removeUrls);
    SubseqDistinctKeys(Kept(merged, removeDois, removeUrls), c, DoiKey);
  }

  /** No two kept rows share a title. */
  lemma KeptDistinctTitles(merged: seq<Row>, removeDois: set<string>, removeUrls: set<string>)
    ensures DistinctKeys(Kept(merged, removeDois, removeUrls), TitleKey)
  {
    var d := Deduplicated(merged);
    var c := Map(d, CleanSubjectsColumn);
    DeduplicatedProperties(merged);
    DistinctKeysPointwise(c, d, TitleKey, TitleKey);
    ExcludedProperties(c, removeDois, removeUrls);
    SubseqDistinctKeys(Kept(merged, removeDois, removeUrls), c, TitleKey);
  }

  /** No kept row has a DOI or a link from the exclusion lists. */
  lemma KeptNotListed(merged: seq<Row>, removeDois: set<string>, removeUrls: set<string>)
    ensures forall r :: r in Kept(merged, removeDois, removeUrls) ==>
              NotListed(Get(r, "DOI"), removeDois) && NotListed(Get(r, "Repository link"), removeUrls)
  {
    ExcludedProperties(Map(Deduplicated(merged), CleanSubjectsColumn), removeDois, removeUrls);
  }

  /**
   * Rows that correspond one to one, identity and PDF lookup, to the kept
   * rows with a DOI: each has a DOI of the looked-up form and no listed DOI
   * or link, and a row lacks its PDF exactly when the file named after its
   * DOI is not on disk.
   */
  lemma FinalRowsListed(k: seq<Row>, f: seq<Row>, removeDois: set<string>, removeUrls: set<string>,
                        onDisk: string -> bool)
    requires forall r :: r in k ==> NotListed(Get(r, "DOI"), removeDois) && NotListed(Get(r, "Repository link"), removeUrls)
    requires |f| == |Filter(k, HasDoi)|
    requires forall i :: 0 <= i < |f| ==> SameIdentity(f[i], Filter(k, HasDoi)[i])
    requires forall i :: 0 <= i < |f| ==> Get(f[i], "PDF") == Util.PdfExists(Get(Filter(k, HasDoi)[i], "DOI"), onDisk)
    ensures forall r :: r in f ==> HasDoi(r)
    ensures forall r :: r in f ==> NotListed(Get(r, "DOI"), removeDois) && NotListed(Get(r, "Repository link"), removeUrls)
    ensures forall r :: r in f ==> (PdfMissing(r) <==> !onDisk(Util.PdfFileName(Get(r, "DOI").value)))
  {
    var w := Filter(k, HasDoi);
    forall r | r in f
      ensures HasDoi(r) && NotListed(Get(r, "DOI"), removeDois) && NotListed(Get(r, "Repository link"), removeUrls)
      ensures PdfMissing(r) <==> !onDisk(Util.PdfFileName(Get(r, "DOI").value))
    {
      var i :| 0 <= i < |f| && f[i] == r;
      assert w[i] in w && w[i] in k;
    }
  }

  /** Rows that keep the identity of the kept rows with a DOI share no DOI and no title. */
  lemma FinalRowsDistinct(k: seq<Row>, f: seq<Row>)
    requires DistinctKeys(k, DoiKey) && DistinctKeys(k, TitleKey)
    requires |f| == |Filter(k, HasDoi)|
    requires forall i :: 0 <= i < |f| ==> SameIdentity(f[i], Filter(k, HasDoi)[i])
    ensures DistinctKeys(f, DoiKey) && DistinctKeys(f, TitleKey)
  {
    var w := Filter(k, HasDoi);
    FilterSubseq(k, HasDoi);
    SubseqDistinctKeys(w, k, DoiKey);
    SubseqDistinctKeys(w, k, TitleKey);
    DistinctKeysPointwise(f, w, DoiKey, DoiKey);
    DistinctKeysPointwise(f, w, TitleKey, TitleKey);
  }

  /**
   * What the script promises of its output: every processed row has a DOI
   * of the looked-up form, none has a DOI or link from the exclusion lists,
   * no two share a DOI or a title, a row lacks its PDF exactly when the file
   * named after its DOI is not on disk, every row of the missing-DOI file
   * lacks a DOI of the looked-up form, and the two together are exactly as
   * many as the kept rows.
   */
  lemma PipelineProperties(merged: seq<Row>, removeDois: set<string>, removeUrls: set<string>, s: Services)
    requires Pipeline(merged, removeDois, removeUrls, s).Returns?
    ensures var o := Pipeline(merged, removeDois, removeUrls, s).value;
            var k := Kept(merged, removeDois, removeUrls);
            && (forall r :: r in o.final ==> HasDoi(r))
            && (forall r :: r in o.final ==> NotListed(Get(r, "DOI"), removeDois)
                                             && NotListed(Get(r, "Repository link"), removeUrls))
            && DistinctKeys(o.final, DoiKey) && DistinctKeys(o.final, TitleKey)
            && (forall r :: r in o.final ==> (PdfMissing(r) <==> !s.onDisk(Util.PdfFileName(Get(r, "DOI").value))))
            && (forall r :: r in o.missingDois ==> !HasDoi(r))
            && |o.final| + |o.missingDois| == |k|
  {
    var k := Kept(merged, removeDois, removeUrls);
    KeptDistinctDois(merged, removeDois, removeUrls);
    KeptDistinctTitles(merged, removeDois, removeUrls);
    KeptNotListed(merged, removeDois, removeUrls);
    var w := Filter(k, HasDoi);
    ProcessedRows(w, s);
    var f := Pipeline(merged, removeDois, removeUrls, s).value.final;
    FinalRowsListed(k, f, removeDois, removeUrls, s.onDisk);
    FinalRowsDistinct(k, f);
    DoiSplit(k);
  }
}
