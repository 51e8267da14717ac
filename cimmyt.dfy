/** `harvest_cimmyt.py`: one CIMMYT (DSpace 7) item to one CSV row. */
module CIMMYT {
  import opened Wrappers
  import opened Text
  import opened Seqs
  import opened Harvest

  /** The CSV columns, in the order they are written. */
  const Fieldnames: seq<string> := [
    "Title", "Authors", "Abstract", "Funders", "Language", "DOI", "Repository link",
    "Publication date", "Journal", "ISSN", "Publisher", "Pages", "Subjects", "Countries"
  ]

  /** The abstract fields, most used first. */
  const AbstractChain: seq<string> := ["dc.description", "dc.description.abstract", "dcterms.description"]
  const PublisherChain: seq<string> := ["dc.publisher", "dcterms.publisher"]
  const LanguageChain: seq<string> := ["dc.language", "dcterms.language"]

  const HttpHandles := "http://" + "hdl.handle.net"
  const HttpsHandles := "https://" + "hdl.handle.net"

  /** Handle links are rewritten to HTTPS; the `in` test before the rewrite changes nothing. */
  function SecureHandle(link: string): string
  {
    if Contains(link, HttpHandles) then ReplaceAll(link, HttpHandles, HttpsHandles) else link
  }

  /** A plain-HTTP handle link is turned into the HTTPS one. */
  lemma SecureHandleOfHttp(path: string)
    requires !Contains(path, HttpHandles)
    ensures SecureHandle(HttpHandles + path) == HttpsHandles + path
  {
    var link := HttpHandles + path;
    assert link[..|HttpHandles|] == HttpHandles;
    assert link[0..] == link;
    ContainsAt(link, HttpHandles, 0);
    ReplaceLeading(link, HttpHandles, HttpsHandles);
    assert link[|HttpHandles|..] == path;
    ReplaceAbsent(path, HttpHandles, HttpsHandles);
  }

  /** A link without a plain-HTTP handle is left as it is. */
  lemma SecureHandleElsewhere(link: string)
    requires !Contains(link, HttpHandles)
    ensures SecureHandle(link) == link
  {
  }

  /** The values written under each column of the CSV. */
  datatype Row = Row(
    title: string, authors: string, summary: string, funders: string, language: string,
    doi: string, link: string, issued: string, journal: string, issn: string, publisher: string,
    pages: string, subjects: string, countries: string)

  /**
   * The row of an item, stated with the de-duplicated lists: abstract,
   * publisher and language come from the first field of their chain the item
   * has. An item without `dc.title` raises.
   */
  function Item(md: Metadata): (r: Outcome<Row>)
    ensures r.Raises? <==> "dc.title" !in md
  {
    if "dc.title" !in md then Raises
    else Returns(Row(
      title := md["dc.title"][0],
      authors := Join(ValuesOf(md, "dc.creator"), Separator),
      summary := FirstOf(md, AbstractChain),
      language := FirstOf(md, LanguageChain),
      doi := FirstOf(md, ["dc.identifier.doi"]),
      link := SecureHandle(FirstOf(md, ["dc.identifier.uri"])),
      issued := FirstOf(md, ["dc.date.issued"]),
      journal := FirstOf(md, ["dc.source.journal"]),
      issn := FirstOf(md, ["dc.source.issn"]),
      publisher := FirstOf(md, PublisherChain),
      pages := FirstOf(md, ["dc.description.pages"]),
      funders := Join(ValuesOf(md, "dc.relation.funderName"), Separator),
      subjects := Join(DistinctLower(ValuesOf(md, "dc.subject.agrovoc") + ValuesOf(md, "dc.subject.keywords")), Separator),
      countries := Join(Dedup(ValuesOf(md, "dc.coverage.countryfocus")), Separator)
    ))
  }

  /** The loop body of the harvester: the append loops, then the row. */
  method ItemRow(md: Metadata) returns (r: Outcome<Row>)
    ensures r == Item(md)
  {
    if "dc.title" !in md {
      return Raises;
    }
    var title := md["dc.title"][0];
    var authors := AppendAll([], ValuesOf(md, "dc.creator"));
    var funders := AppendAll([], ValuesOf(md, "dc.relation.funderName"));
    var agrovoc := Map(ValuesOf(md, "dc.subject.agrovoc"), Lower);
    var keywords := Map(ValuesOf(md, "dc.subject.keywords"), Lower);
    assert [] + agrovoc == agrovoc;
    var subjects := AppendNew([], agrovoc, []);
    subjects := AppendNew(subjects, keywords, agrovoc);
    MapConcat(ValuesOf(md, "dc.subject.agrovoc"), ValuesOf(md, "dc.subject.keywords"), Lower);
    var countries := AppendNew([], ValuesOf(md, "dc.coverage.countryfocus"), []);
    assert [] + ValuesOf(md, "dc.coverage.countryfocus") == ValuesOf(md, "dc.coverage.countryfocus");
    assert authors == ValuesOf(md, "dc.creator");
    assert funders == ValuesOf(md, "dc.relation.funderName");
    r := Returns(Row(
      title := title,
      authors := Join(authors, Separator),
      summary := FirstOf(md, AbstractChain),
      language := FirstOf(md, LanguageChain),
      doi := FirstOf(md, ["dc.identifier.doi"]),
      link := SecureHandle(FirstOf(md, ["dc.identifier.uri"])),
      issued := FirstOf(md, ["dc.date.issued"]),
      journal := FirstOf(md, ["dc.source.journal"]),
      issn := FirstOf(md, ["dc.source.issn"]),
      publisher := FirstOf(md, PublisherChain),
      pages := FirstOf(md, ["dc.description.pages"]),
      funders := Join(funders, Separator),
      subjects := Join(subjects, Separator),
      countries := Join(countries, Separator)
    ));
  }

  /** The CSV row written for a row: each value under its column. */
  function Written(row: Row): CsvRow
  {
    map[
      "Title" := row.title,
      "Authors" := row.authors,
      "Abstract" := row.summary,
      "Funders" := row.funders,
      "Language" := row.language,
      "DOI" := row.doi,
      "Repository link" := row.link,
      "Publication date" := row.issued,
      "Journal" := row.journal,
      "ISSN" := row.issn,
      "Publisher" := row.publisher,
      "Pages" := row.pages,
      "Subjects" := row.subjects,
      "Countries" := row.countries
    ]
  }

  /** A written row has exactly the CSV columns, so the writer accepts it. */
  lemma WrittenColumns(row: Row)
    ensures Written(row).Keys == set f | f in Fieldnames
  {
  }

  /**
   * The title is the first `dc.title` value; every other single-valued column
   * is the first value of its field, or `""` when the item lacks the field.
   */
  lemma ItemFirstValues(md: Metadata)
    requires "dc.title" in md
    ensures var r := Item(md).value;
            && r.title == md["dc.title"][0]
            && FirstValue(md, "dc.identifier.doi", r.doi)
            && FirstValue(md, "dc.date.issued", r.issued)
            && FirstValue(md, "dc.source.journal", r.journal)
            && FirstValue(md, "dc.source.issn", r.issn)
            && FirstValue(md, "dc.description.pages", r.pages)
  {
    FirstOfOne(md, "dc.identifier.doi");
    FirstOfOne(md, "dc.date.issued");
    FirstOfOne(md, "dc.source.journal");
    FirstOfOne(md, "dc.source.issn");
    FirstOfOne(md, "dc.description.pages");
  }

  /**
   * Authors and funders are every value of their field, in order; the
   * subjects the de-duplicated list of the AGROVOC terms followed by the
   * keywords; the countries the de-duplicated country-focus values.
   */
  lemma ItemLists(md: Metadata)
    requires "dc.title" in md
    ensures var r := Item(md).value;
            && r.authors == Join(ValuesOf(md, "dc.creator"), Separator)
            && r.funders == Join(ValuesOf(md, "dc.relation.funderName"), Separator)
            && (exists d :: r.subjects == Join(d, Separator)
                             && SubjectList(d, ValuesOf(md, "dc.subject.agrovoc") + ValuesOf(md, "dc.subject.keywords")))
            && (exists d :: r.countries == Join(d, Separator) && CountryList(d, ValuesOf(md, "dc.coverage.countryfocus")))
  {
    var r := Item(md).value;
    var vs := ValuesOf(md, "dc.subject.agrovoc") + ValuesOf(md, "dc.subject.keywords");
    DistinctLowerProperties(vs);
    DistinctValuesProperties(ValuesOf(md, "dc.coverage.countryfocus"));
    assert r.subjects == Join(DistinctLower(vs), Separator);
    assert r.countries == Join(Dedup(ValuesOf(md, "dc.coverage.countryfocus")), Separator);
  }

  /**
   * The abstract comes from `dc.description`, else `dc.description.abstract`,
   * else `dcterms.description`, else it is `""`.
   */
  lemma ItemAbstract(md: Metadata)
    requires "dc.title" in md
    ensures var v := Item(md).value.summary;
            && ("dc.description" in md ==> v == md["dc.description"][0])
            && ("dc.description" !in md && "dc.description.abstract" in md ==> v == md["dc.description.abstract"][0])
            && (("dc.description" !in md && "dc.description.abstract" !in md) ==>
                  FirstValue(md, "dcterms.description", v))
  {
    FirstOfSkips(md, "dc.description", ["dc.description.abstract", "dcterms.description"]);
    FirstOfSkips(md, "dc.description.abstract", ["dcterms.description"]);
    FirstOfOne(md, "dcterms.description");
    assert AbstractChain == ["dc.description"] + ["dc.description.abstract", "dcterms.description"];
    assert ["dc.description.abstract", "dcterms.description"] == ["dc.description.abstract"] + ["dcterms.description"];
  }

  /** The publisher comes from `dc.publisher`, else `dcterms.publisher`, else it is `""`; the language likewise. */
  lemma ItemPublisherLanguage(md: Metadata)
    requires "dc.title" in md
    ensures var r := Item(md).value;
            && ("dc.publisher" in md ==> r.publisher == md["dc.publisher"][0])
            && ("dc.publisher" !in md ==> FirstValue(md, "dcterms.publisher", r.publisher))
            && ("dc.language" in md ==> r.language == md["dc.language"][0])
            && ("dc.language" !in md ==> FirstValue(md, "dcterms.language", r.language))
  {
    FirstOfSkips(md, "dc.publisher", ["dcterms.publisher"]);
    FirstOfOne(md, "dcterms.publisher");
    FirstOfSkips(md, "dc.language", ["dcterms.language"]);
    FirstOfOne(md, "dcterms.language");
    assert PublisherChain == ["dc.publisher"] + ["dcterms.publisher"];
    assert LanguageChain == ["dc.language"] + ["dcterms.language"];
  }

  /** The repository link is the `dc.identifier.uri` value with a plain-HTTP handle prefix made HTTPS. */
  lemma ItemLink(md: Metadata)
    requires "dc.title" in md
    ensures var v := Item(md).value.link;
            && ("dc.identifier.uri" !in md ==> v == "")
            && (("dc.identifier.uri" in md && !Contains(md["dc.identifier.uri"][0], HttpHandles)) ==>
                  v == md["dc.identifier.uri"][0])
            && (forall path :: ("dc.identifier.uri" in md && md["dc.identifier.uri"][0] == HttpHandles + path
                                && !Contains(path, HttpHandles)) ==> v == HttpsHandles + path)
  {
    FirstOfOne(md, "dc.identifier.uri");
    if "dc.identifier.uri" !in md {
      assert !Contains("", HttpHandles);
    } else {
      forall path | md["dc.identifier.uri"][0] == HttpHandles + path && !Contains(path, HttpHandles)
        ensures Item(md).value.link == HttpsHandles + path
      {
        SecureHandleOfHttp(path);
      }
    }
  }
}
