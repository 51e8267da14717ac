/** `harvest_melspace.py`: one MELSpace (DSpace 7) item to one CSV row. */
module MELSpace {
  import opened Wrappers
  import opened Text
  import opened Seqs
  import opened Harvest

  /** The CSV columns, in the order they are written; MELSpace rows have no countries. */
  const Fieldnames: seq<string> := [
    "Title", "Authors", "Author affiliations", "Abstract", "Funders", "Language", "DOI",
    "Access rights", "Usage rights", "Repository link", "Publication date",
    "Publication date (Online)", "Journal", "ISSN", "Publisher", "Volume", "Issue", "Pages",
    "Subjects"
  ]

  /** The values written under each column of the CSV. */
  datatype Row = Row(
    title: string, authors: string, affiliations: string, summary: string, funders: string,
    language: string, doi: string, accessRights: string, usageRights: string, link: string,
    issued: string, online: string, journal: string, issn: string, publisher: string,
    volume: string, issue: string, pages: string, subjects: string)

  /**
   * The row of an item, stated with the de-duplicated lists: the authors are
   * the `dc.creator` values followed by the `dc.contributor` values, the
   * subjects the AGROVOC terms followed by the other subjects, de-duplicated
   * across both. An item without `dc.title` raises.
   */
  function Item(md: Metadata): (r: Outcome<Row>)
    ensures r.Raises? <==> "dc.title" !in md
  {
    if "dc.title" !in md then Raises
    else Returns(Row(
      title := md["dc.title"][0],
      authors := Join(ValuesOf(md, "dc.creator") + ValuesOf(md, "dc.contributor"), Separator),
      affiliations := Join(ValuesOf(md, "cg.contributor.center"), Separator),
      summary := FirstOf(md, ["dc.description.abstract"]),
      language := FirstOf(md, ["dc.language"]),
      doi := FirstOf(md, ["cg.identifier.doi"]),
      accessRights := FirstOf(md, ["dc.identifier.status"]),
      usageRights := FirstOf(md, ["dc.rights"]),
      link := FirstOf(md, ["dc.identifier.uri"]),
      issued := FirstOf(md, ["dcterms.issued"]),
      online := FirstOf(md, ["dcterms.available"]),
      journal := FirstOf(md, ["cg.journal"]),
      issn := FirstOf(md, ["cg.issn"]),
      publisher := FirstOf(md, ["dc.publisher"]),
      volume := FirstOf(md, ["cg.volume"]),
      issue := FirstOf(md, ["cg.issue"]),
      pages := FirstOf(md, ["dcterms.extent"]),
      funders := Join(ValuesOf(md, "cg.contributor.funder"), Separator),
      subjects := Join(DistinctLower(ValuesOf(md, "cg.subject.agrovoc") + ValuesOf(md, "dc.subject")), Separator)
    ))
  }

  /** The loop body of the harvester: the append loops, then the row. */
  method ItemRow(md: Metadata) returns (r: Outcome<Row>)
    ensures r == Item(md)
  {
    if "dc.title" !in md {
      return Raises;
    }
    var title := md["dc.title"][0];
    var authors := AppendAll([], ValuesOf(md, "dc.creator"));
    assert authors == ValuesOf(md, "dc.creator");
    authors := AppendAll(authors, ValuesOf(md, "dc.contributor"));
    var affiliations := AppendAll([], ValuesOf(md, "cg.contributor.center"));
    var funders := AppendAll([], ValuesOf(md, "cg.contributor.funder"));
    var agrovoc := Map(ValuesOf(md, "cg.subject.agrovoc"), Lower);
    var others := Map(ValuesOf(md, "dc.subject"), Lower);
    assert [] + agrovoc == agrovoc;
    var subjects := AppendNew([], agrovoc, []);
    subjects := AppendNew(subjects, others, agrovoc);
    MapConcat(ValuesOf(md, "cg.subject.agrovoc"), ValuesOf(md, "dc.subject"), Lower);
    assert authors == ValuesOf(md, "dc.creator") + ValuesOf(md, "dc.contributor");
    assert affiliations == ValuesOf(md, "cg.contributor.center");
    assert funders == ValuesOf(md, "cg.contributor.funder");
    r := Returns(Row(
      title := title,
      authors := Join(authors, Separator),
      affiliations := Join(affiliations, Separator),
      summary := FirstOf(md, ["dc.description.abstract"]),
      language := FirstOf(md, ["dc.language"]),
      doi := FirstOf(md, ["cg.identifier.doi"]),
      accessRights := FirstOf(md, ["dc.identifier.status"]),
      usageRights := FirstOf(md, ["dc.rights"]),
      link := FirstOf(md, ["dc.identifier.uri"]),
      issued := FirstOf(md, ["dcterms.issued"]),
      online := FirstOf(md, ["dcterms.available"]),
      journal := FirstOf(md, ["cg.journal"]),
      issn := FirstOf(md, ["cg.issn"]),
      publisher := FirstOf(md, ["dc.publisher"]),
      volume := FirstOf(md, ["cg.volume"]),
      issue := FirstOf(md, ["cg.issue"]),
      pages := FirstOf(md, ["dcterms.extent"]),
      funders := Join(funders, Separator),
      subjects := Join(subjects, Separator)
    ));
  }

  /** The CSV row written for a row: each value under its column. */
  function Written(row: Row): CsvRow
  {
    map[
      "Title" := row.title,
      "Authors" := row.authors,
      "Author affiliations" := row.affiliations,
      "Abstract" := row.summary,
      "Funders" := row.funders,
      "Language" := row.language,
      "DOI" := row.doi,
      "Access rights" := row.accessRights,
      "Usage rights" := row.usageRights,
      "Repository link" := row.link,
      "Publication date" := row.issued,
      "Publication date (Online)" := row.online,
      "Journal" := row.journal,
      "ISSN" := row.issn,
      "Publisher" := row.publisher,
      "Volume" := row.volume,
      "Issue" := row.issue,
      "Pages" := row.pages,
      "Subjects" := row.subjects
    ]
  }

  /** A written row has exactly the CSV columns, so the writer accepts it. */
  lemma WrittenColumns(row: Row)
    ensures Written(row).Keys == set f | f in Fieldnames
  {
  }

  /**
   * The title is the first `dc.title` value; every other single-valued column
   * is the first value of its field, or `""` when the item lacks the field.
   */
  lemma ItemFirstValues(md: Metadata)
    requires "dc.title" in md
    ensures var r := Item(md).value;
            && r.title == md["dc.title"][0]
            && FirstValue(md, "dc.description.abstract", r.summary)
            && FirstValue(md, "dc.language", r.language)
            && FirstValue(md, "cg.identifier.doi", r.doi)
            && FirstValue(md, "dc.identifier.status", r.accessRights)
            && FirstValue(md, "dc.rights", r.usageRights)
            && FirstValue(md, "dc.identifier.uri", r.link)
            && FirstValue(md, "dcterms.issued", r.issued)
            && FirstValue(md, "dcterms.available", r.online)
            && FirstValue(md, "cg.journal", r.journal)
            && FirstValue(md, "cg.issn", r.issn)
            && FirstValue(md, "dc.publisher", r.publisher)
            && FirstValue(md, "cg.volume", r.volume)
            && FirstValue(md, "cg.issue", r.issue)
            && FirstValue(md, "dcterms.extent", r.pages)
  {
    FirstOfOne(md, "dc.description.abstract");
    FirstOfOne(md, "dc.language");
    FirstOfOne(md, "cg.identifier.doi");
    FirstOfOne(md, "dc.identifier.status");
    FirstOfOne(md, "dc.rights");
    FirstOfOne(md, "dc.identifier.uri");
    FirstOfOne(md, "dcterms.issued");
    FirstOfOne(md, "dcterms.available");
    FirstOfOne(md, "cg.journal");
    FirstOfOne(md, "cg.issn");
    FirstOfOne(md, "dc.publisher");
    FirstOfOne(md, "cg.volume");
    FirstOfOne(md, "cg.issue");
    FirstOfOne(md, "dcterms.extent");
  }

  /**
   * The authors are every `dc.creator` value followed by every
   * `dc.contributor` value; affiliations and funders every value of their
   * field; the subjects the de-duplicated list of the AGROVOC terms followed by
   * the other subjects.
   */
  lemma ItemLists(md: Metadata)
    requires "dc.title" in md
    ensures var r := Item(md).value;
            && r.authors == Join(ValuesOf(md, "dc.creator") + ValuesOf(md, "dc.contributor"), Separator)
            && r.affiliations == Join(ValuesOf(md, "cg.contributor.center"), Separator)
            && r.funders == Join(ValuesOf(md, "cg.contributor.funder"), Separator)
            && (exists d :: r.subjects == Join(d, Separator)
                             && SubjectList(d, ValuesOf(md, "cg.subject.agrovoc") + ValuesOf(md, "dc.subject")))
  {
    var r := Item(md).value;
    var vs := ValuesOf(md, "cg.subject.agrovoc") + ValuesOf(md, "dc.subject");
    DistinctLowerProperties(vs);
    assert r.subjects == Join(DistinctLower(vs), Separator);
  }
}
