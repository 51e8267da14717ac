/** `harvest_cgspace.py`: one CGSpace (DSpace 7) item to one CSV row. */
module CGSpace {
  import opened Wrappers
  import opened Text
  import opened Seqs
  import opened Harvest

  /** The CSV columns, in the order they are written. */
  const Fieldnames: seq<string> := [
    "Title", "Authors", "Author affiliations", "Abstract", "Funders", "Language", "DOI",
    "Access rights", "Usage rights", "Repository link", "Publication date",
    "Publication date (Online)", "Journal", "ISSN", "Publisher", "Volume", "Issue", "Pages",
    "Subjects", "Countries"
  ]

  /** The values written under each column of the CSV. */
  datatype Row = Row(
    title: string, authors: string, affiliations: string, summary: string, funders: string,
    language: string, doi: string, accessRights: string, usageRights: string, link: string,
    issued: string, online: string, journal: string, issn: string, publisher: string,
    volume: string, issue: string, pages: string, subjects: string, countries: string)

  /**
   * The row of an item, stated with the de-duplicated lists: every column
   * but the title falls back to `""`; an item without `dc.title` raises.
   */
  function Item(md: Metadata): (r: Outcome<Row>)
    ensures r.Raises? <==> "dc.title" !in md
  {
    if "dc.title" !in md then Raises
    else Returns(Row(
      title := md["dc.title"][0],
      authors := Join(ValuesOf(md, "dc.contributor.author"), Separator),
      affiliations := Join(ValuesOf(md, "cg.contributor.affiliation"), Separator),
      summary := FirstOf(md, ["dcterms.abstract"]),
      language := FirstOf(md, ["dcterms.language"]),
      doi := FirstOf(md, ["cg.identifier.doi"]),
      accessRights := FirstOf(md, ["dcterms.accessRights"]),
      usageRights := FirstOf(md, ["dcterms.license"]),
      link := FirstOf(md, ["dc.identifier.uri"]),
      issued := FirstOf(md, ["dcterms.issued"]),
      online := FirstOf(md, ["dcterms.available"]),
      journal := FirstOf(md, ["cg.journal"]),
      issn := FirstOf(md, ["cg.issn"]),
      publisher := FirstOf(md, ["dcterms.publisher"]),
      volume := FirstOf(md, ["cg.volume"]),
      issue := FirstOf(md, ["cg.issue"]),
      pages := FirstOf(md, ["dcterms.extent"]),
      funders := Join(ValuesOf(md, "cg.contributor.donor"), Separator),
      subjects := Join(DistinctLower(ValuesOf(md, "dcterms.subject")), Separator),
      countries := Join(Dedup(ValuesOf(md, "cg.coverage.country")), Separator)
    ))
  }

  /** The loop body of the harvester: the append loops, then the row. */
  method ItemRow(md: Metadata) returns (r: Outcome<Row>)
    ensures r == Item(md)
  {
    if "dc.title" !in md {
      return Raises;
    }
    var title := md["dc.title"][0];
    var authors := AppendAll([], ValuesOf(md, "dc.contributor.author"));
    var affiliations := AppendAll([], ValuesOf(md, "cg.contributor.affiliation"));
    var funders := AppendAll([], ValuesOf(md, "cg.contributor.donor"));
    var subjects := AppendNew([], Map(ValuesOf(md, "dcterms.subject"), Lower), []);
    var countries := AppendNew([], ValuesOf(md, "cg.coverage.country"), []);
    assert authors == ValuesOf(md, "dc.contributor.author");
    assert affiliations == ValuesOf(md, "cg.contributor.affiliation");
    assert funders == ValuesOf(md, "cg.contributor.donor");
    assert subjects == DistinctLower(ValuesOf(md, "dcterms.subject")) by {
      assert [] + Map(ValuesOf(md, "dcterms.subject"), Lower) == Map(ValuesOf(md, "dcterms.subject"), Lower);
    }
    assert countries == Dedup(ValuesOf(md, "cg.coverage.country")) by {
      assert [] + ValuesOf(md, "cg.coverage.country") == ValuesOf(md, "cg.coverage.country");
    }
    r := Returns(Row(
      title := title,
      authors := Join(authors, Separator),
      affiliations := Join(affiliations, Separator),
      summary := FirstOf(md, ["dcterms.abstract"]),
      language := FirstOf(md, ["dcterms.language"]),
      doi := FirstOf(md, ["cg.identifier.doi"]),
      accessRights := FirstOf(md, ["dcterms.accessRights"]),
      usageRights := FirstOf(md, ["dcterms.license"]),
      link := FirstOf(md, ["dc.identifier.uri"]),
      issued := FirstOf(md, ["dcterms.issued"]),
      online := FirstOf(md, ["dcterms.available"]),
      journal := FirstOf(md, ["cg.journal"]),
      issn := FirstOf(md, ["cg.issn"]),
      publisher := FirstOf(md, ["dcterms.publisher"]),
      volume := FirstOf(md, ["cg.volume"]),
      issue := FirstOf(md, ["cg.issue"]),
      pages := FirstOf(md, ["dcterms.extent"]),
      funders := Join(funders, Separator),
      subjects := Join(subjects, Separator),
      countries := Join(countries, Separator)
    ));
  }

  /** The CSV row written for a row: each value under its column. */
  function Written(row: Row): CsvRow
  {
    map[
      "Title" := row.title,
      "Authors" := row.authors,
      "Author affiliations" := row.affiliations,
      "Abstract" := row.summary,
      "Funders" := row.funders,
      "Language" := row.language,
      "DOI" := row.doi,
      "Access rights" := row.accessRights,
      "Usage rights" := row.usageRights,
      "Repository link" := row.link,
      "Publication date" := row.issued,
      "Publication date (Online)" := row.online,
      "Journal" := row.journal,
      "ISSN" := row.issn,
      "Publisher" := row.publisher,
      "Volume" := row.volume,
      "Issue" := row.issue,
      "Pages" := row.pages,
      "Subjects" := row.subjects,
      "Countries" := row.countries
    ]
  }

  /** A written row has exactly the CSV columns, so the writer accepts it. */
  lemma WrittenColumns(row: Row)
    ensures Written(row).Keys == set f | f in Fieldnames
  {
  }

  /**
   * The title is the first `dc.title` value; every other single-valued column
   * is the first value of its field, or `""` when the item lacks the field.
   */
  lemma ItemFirstValues(md: Metadata)
    requires "dc.title" in md
    ensures var r := Item(md).value;
            && r.title == md["dc.title"][0]
            && FirstValue(md, "dcterms.abstract", r.summary)
            && FirstValue(md, "dcterms.language", r.language)
            && FirstValue(md, "cg.identifier.doi", r.doi)
            && FirstValue(md, "dcterms.accessRights", r.accessRights)
            && FirstValue(md, "dcterms.license", r.usageRights)
            && FirstValue(md, "dc.identifier.uri", r.link)
            && FirstValue(md, "dcterms.issued", r.issued)
            && FirstValue(md, "dcterms.available", r.online)
            && FirstValue(md, "cg.journal", r.journal)
            && FirstValue(md, "cg.issn", r.issn)
            && FirstValue(md, "dcterms.publisher", r.publisher)
            && FirstValue(md, "cg.volume", r.volume)
            && FirstValue(md, "cg.issue", r.issue)
            && FirstValue(md, "dcterms.extent", r.pages)
  {
    FirstOfOne(md, "dcterms.abstract");
    FirstOfOne(md, "dcterms.language");
    FirstOfOne(md, "cg.identifier.doi");
    FirstOfOne(md, "dcterms.accessRights");
    FirstOfOne(md, "dcterms.license");
    FirstOfOne(md, "dc.identifier.uri");
    FirstOfOne(md, "dcterms.issued");
    FirstOfOne(md, "dcterms.available");
    FirstOfOne(md, "cg.journal");
    FirstOfOne(md, "cg.issn");
    FirstOfOne(md, "dcterms.publisher");
    FirstOfOne(md, "cg.volume");
    FirstOfOne(md, "cg.issue");
    FirstOfOne(md, "dcterms.extent");
  }

  /**
   * Authors, affiliations and funders are every value of their field, in
   * order and with repetitions; subjects and countries are the de-duplicated
   * lists of their values.
   */
  lemma ItemLists(md: Metadata)
    requires "dc.title" in md
    ensures var r := Item(md).value;
            && r.authors == Join(ValuesOf(md, "dc.contributor.author"), Separator)
            && r.affiliations == Join(ValuesOf(md, "cg.contributor.affiliation"), Separator)
            && r.funders == Join(ValuesOf(md, "cg.contributor.donor"), Separator)
            && (exists d :: r.subjects == Join(d, Separator) && SubjectList(d, ValuesOf(md, "dcterms.subject")))
            && (exists d :: r.countries == Join(d, Separator) && CountryList(d, ValuesOf(md, "cg.coverage.country")))
  {
    var r := Item(md).value;
    DistinctLowerProperties(ValuesOf(md, "dcterms.subject"));
    DistinctValuesProperties(ValuesOf(md, "cg.coverage.country"));
    assert r.subjects == Join(DistinctLower(ValuesOf(md, "dcterms.subject")), Separator);
    assert r.countries == Join(Dedup(ValuesOf(md, "cg.coverage.country")), Separator);
  }
}
