/**
 * `harvest_ifpri.py`: one CONTENTdm record of the IFPRI e-brary to one CSV
 * row, and the loop over the record pointers of the search.
 */
module IFPRI {
  import opened Wrappers
  import opened Text
  import opened Seqs
  import opened Util

  /**
   * A field of a CONTENTdm record as the JSON API returns it: a string, or a
   * dictionary (an empty field comes back as `{}`), of which only the keys
   * matter here.
   */
  datatype Field = Str(s: string) | Dict(keys: seq<string>)

  type Record = map<string, Field>

  /** The CSV columns. */
  const Fieldnames: seq<string> := [
    "Title", "Authors", "Abstract", "Funder", "Language", "DOI", "Access rights",
    "Usage rights", "Repository link", "Publication date", "Journal", "ISSN",
    "Publisher", "Pages", "Subjects", "Type"
  ]

  // ---------------------------------------------------------------- funders

  /** `http://dx.doi.org/10.13039/`, the Crossref funder registry, as the pattern spells it. */
  const FunderRegistry: string := "http://d" + "x.doi.or" + "g/10.130" + "39/"

  /** The pattern's `.`s (unescaped) sit at these positions of `FunderRegistry`. */
  predicate Wildcard(j: int) { j == 9 || j == 13 || j == 20 }

  /** `t` starts with the registry prefix, a wildcard matching any character but a newline. */
  predicate RegistryAt(t: string)
  {
    |t| >= |FunderRegistry|
    && forall j :: 0 <= j < |FunderRegistry| ==>
         if Wildcard(j) then t[j] != '\n' else t[j] == FunderRegistry[j]
  }

  predicate IsDigit(c: char) { '0' <= c <= '9' }

  /** The length of the run of ASCII digits that starts `s`. */
  function DigitRun(s: string): (k: nat)
    ensures k <= |s|
    ensures forall i :: 0 <= i < k ==> IsDigit(s[i])
    ensures k < |s| ==> !IsDigit(s[k])
  {
    if |s| > 0 && IsDigit(s[0]) then 1 + DigitRun(s[1..]) else 0
  }

  /**
   * The length of the match of `http://dx.doi.org/10.13039/\d+ ` at the start
   * of `t`, 0 when there is none. The greedy digit run is followed by a
   * space or not at all, so no backtracking can change the outcome.
   */
  function FunderIdAt(t: string): (n: nat)
    ensures n == 0 || (RegistryAt(t) && n > |FunderRegistry| + 1 && n <= |t|)
  {
    if RegistryAt(t) then
      var k := DigitRun(t[|FunderRegistry|..]);
      if 0 < k && |FunderRegistry| + k < |t| && t[|FunderRegistry| + k] == ' '
      then |FunderRegistry| + k + 1
      else 0
    else 0
  }

  /** The `Funder` column: every funder-registry identifier removed; a non-string gives `""`. */
  function Funders(f: Field): string
  {
    match f
    case Dict(_) => ""
    case Str(s) => RegexSub(s, FunderIdAt, "")
  }

  lemma DigitRunOf(d: string, rest: string)
    requires forall i :: 0 <= i < |d| ==> IsDigit(d[i])
    requires |rest| > 0 && !IsDigit(rest[0])
    ensures DigitRun(d + rest) == |d|
    decreases |d|
  {
    if |d| > 0 {
      assert (d + rest)[1..] == d[1..] + rest;
      DigitRunOf(d[1..], rest);
    } else {
      assert d + rest == rest;
    }
  }

  /** No newline in the registry prefix, so its own text meets the wildcards. */
  lemma RegistryAtPrefix(x: string)
    ensures RegistryAt(FunderRegistry + x)
  {
    assert '\n' !in "http://d" && '\n' !in "x.doi.or" && '\n' !in "g/10.130" && '\n' !in "39/";
    assert '\n' !in FunderRegistry;
    var t := FunderRegistry + x;
    forall j | 0 <= j < |FunderRegistry|
      ensures t[j] == FunderRegistry[j]
    {
    }
  }

  /** The match of an identifier is the prefix, the digits and the space. */
  lemma FunderIdAtEntry(d: string, rest: string)
    requires |d| > 0 && forall i :: 0 <= i < |d| ==> IsDigit(d[i])
    ensures FunderIdAt(FunderRegistry + (d + " " + rest)) == |FunderRegistry| + |d| + 1
  {
    var t := FunderRegistry + (d + " " + rest);
    RegistryAtPrefix(d + " " + rest);
    assert t[|FunderRegistry|..] == d + (" " + rest);
    DigitRunOf(d, " " + rest);
    assert t[|FunderRegistry| + |d|] == ' ';
  }

  /** A registry identifier followed by a space is removed, and scanning goes on after it. */
  lemma FunderIdRemoved(d: string, rest: string)
    requires |d| > 0 && forall i :: 0 <= i < |d| ==> IsDigit(d[i])
    ensures Funders(Str(FunderRegistry + d + " " + rest)) == Funders(Str(rest))
  {
    var t := FunderRegistry + (d + " " + rest);
    assert t == FunderRegistry + d + " " + rest;
    FunderIdAtEntry(d, rest);
    assert t[|FunderRegistry| + |d| + 1..] == rest;
  }

  /** Text without an `h` holds no identifier and is kept as it is. */
  lemma FunderNameKept(s: string)
    requires 'h' !in s
    ensures Funders(Str(s)) == s
  {
    assert FunderRegistry[0] == 'h';
    forall i | 0 <= i < |s|
      ensures FunderIdAt(s[i..]) == 0
    {
      assert s[i..][0] == s[i];
    }
    RegexSubNone(s, FunderIdAt, "");
  }

  /** The usual value, an identifier then the funder's name, leaves the name. */
  lemma FunderOfRegistryEntry(d: string, name: string)
    requires |d| > 0 && forall i :: 0 <= i < |d| ==> IsDigit(d[i])
    requires 'h' !in name
    ensures Funders(Str(FunderRegistry + d + " " + name)) == name
  {
    FunderIdRemoved(d, name);
    FunderNameKept(name);
  }

  // ---------------------------------------------------------------- DOI

  /** The `doia` value of one record that holds a journal reference instead of a DOI. */
  const MisfiledDoi: string := "00000034" + "/0000000" + "4/art000" + "15"

  /** The DOI that record should carry. */
  const RepairedDoi: string := "10.1177/" + "15648265" + "13034004" + "15"

  /** The `DOI` column: the repaired DOI, else the normalised one; a non-string gives `""`. */
  function Doi(f: Field): string
  {
    match f
    case Dict(_) => ""
    case Str(s) => if s == MisfiledDoi then RepairedDoi else NormalizeDoi(Some(s)).value
  }

  /**
   * Every DOI is `""`, a resolver URL, or the repaired DOI, which alone is
   * written without the resolver, and only for the misfiled record.
   */
  lemma DoiForms(f: Field)
    ensures f.Dict? ==> Doi(f) == ""
    ensures f == Str(MisfiledDoi) ==> Doi(f) == RepairedDoi
    ensures f.Str? && f.s != MisfiledDoi ==>
              StartsWith(Doi(f), Resolver) && NormalSuffix(Doi(f)[|Resolver|..])
    ensures f.Str? && !StartsWith(Doi(f), Resolver) ==> f.s == MisfiledDoi
  {
    assert RepairedDoi[0] == '1' && Resolver[0] == 'h';
  }

  // ---------------------------------------------------------------- subjects

  /** `rstrip("; ")` strips any run of semicolons and spaces. */
  const SubjectTrim: set<char> := {';', ' '}

  /** The `loc` part: a dictionary's keys joined, or the string stripped on the right. */
  function Places(loc: Field): string
  {
    match loc
    case Dict(ks) => Join(ks, "; ")
    case Str(s) => RStrip(s, SubjectTrim)
  }

  /**
   * The `Subjects` column: the places, then the `subjea` subjects (a string
   * after `"; "`, a dictionary's joined keys with nothing in between), stripped
   * on the right and lowercased.
   */
  function Subjects(loc: Field, subjea: Field): (r: string)
    ensures NoUpper(r)
    ensures r == [] || r[|r| - 1] !in SubjectTrim
  {
    var all := match subjea
      case Dict(ks) => Places(loc) + Join(ks, "; ")
      case Str(s) => Places(loc) + "; " + s;
    var t := RStrip(all, SubjectTrim);
    assert t != [] ==> LowerChar(t[|t| - 1]) !in SubjectTrim;
    Lower(t)
  }

  lemma LowerSeparator()
    ensures Lower("; ") == "; "
  {
  }

  lemma RStripKeeps(s: string)
    requires s == [] || s[|s| - 1] !in SubjectTrim
    ensures RStrip(s, SubjectTrim) == s
  {
  }

  /** A string `subjea` follows the stripped places after a `"; "` separator. */
  lemma SubjectsOfStrings(loc: string, subjea: string)
    requires subjea != [] && subjea[|subjea| - 1] !in SubjectTrim
    ensures Subjects(Str(loc), Str(subjea)) == Lower(RStrip(loc, SubjectTrim)) + "; " + Lower(subjea)
  {
    var all := RStrip(loc, SubjectTrim) + "; " + subjea;
    RStripKeeps(all);
    LowerConcat(RStrip(loc, SubjectTrim) + "; ", subjea);
    LowerConcat(RStrip(loc, SubjectTrim), "; ");
    LowerSeparator();
  }

  /** A dictionary `subjea` is glued to the places with no separator. */
  lemma SubjectsOfDict(loc: string, key: string)
    requires loc != [] && loc[|loc| - 1] !in SubjectTrim
    requires key != [] && key[|key| - 1] !in SubjectTrim
    ensures Subjects(Str(loc), Dict([key])) == Lower(loc) + Lower(key)
  {
    RStripKeeps(loc);
    RStripKeeps(loc + key);
    LowerConcat(loc, key);
  }

  /** An empty `subjea` dictionary leaves the places alone, lowercased. */
  lemma SubjectsWithoutSubjea(loc: Field)
    ensures Subjects(loc, Dict([])) == Lower(RStrip(Places(loc), SubjectTrim))
  {
    assert Places(loc) + Join([], "; ") == Places(loc);
  }

  /** With no places (an empty `loc` dictionary), a string `subjea` keeps a leading `"; "`. */
  lemma SubjectsWithoutPlaces(subjea: string)
    requires subjea != [] && subjea[|subjea| - 1] !in SubjectTrim
    ensures Subjects(Dict([]), Str(subjea)) == "; " + Lower(subjea)
  {
    assert Places(Dict([])) + "; " + subjea == "; " + subjea;
    RStripKeeps("; " + subjea);
    LowerConcat("; ", subjea);
    LowerSeparator();
  }

  // ---------------------------------------------------------------- the row

  /** `https://ebrary.ifpri.org/digital/collection/p15738coll5/id/`. */
  const ItemPages: string := "https://" + "ebrary.ifpri.org" + "/digital" + "/collection" + "/p15738coll5" + "/id/"

  /** A string field cleaned, anything else `""`. */
  function CleanedOr(f: Field): (r: string)
    ensures '\n' !in r && '\r' !in r
    ensures r == [] || (r[0] !in Whitespace && r[|r| - 1] !in Whitespace)
    ensures f.Dict? ==> r == ""
  {
    match f
    case Dict(_) => ""
    case Str(s) => CleanString(s)
  }

  /** A string field as it is, anything else `""`. */
  function TextOr(f: Field): (r: string)
    ensures f.Str? ==> r == f.s
    ensures f.Dict? ==> r == ""
  {
    match f
    case Dict(_) => ""
    case Str(s) => s
  }

  /** The record has every field the extraction reads. */
  predicate Complete(rec: Record)
  {
    && "title" in rec && "creato" in rec && "fundin" in rec && "descri" in rec
    && "doia" in rec && "access" in rec && "cclice" in rec && "date" in rec
    && "series" in rec && "issn" in rec && "publis" in rec && "source" in rec
    && "loc" in rec && "subjea" in rec && "langua" in rec && "type" in rec
  }

  /** The record raises: a field it reads is missing, or the title is not a string. */
  predicate Fails(rec: Record)
  {
    !Complete(rec) || rec["title"].Dict?
  }

  /** The values of one row, column by column. */
  datatype Row = Row(
    title: string, authors: Field, summary: string, funder: string, language: Field,
    doi: string, accessRights: string, usageRights: string, link: string, date: Field,
    journal: string, issn: string, publisher: string, pages: string, subjects: string,
    kind: Field)

  /**
   * The row of the record at `pointer`; a record lacking a field the
   * extraction reads, or whose title is not a string, raises.
   */
  function Item(rec: Record, pointer: string): (r: Outcome<Row>)
    ensures r.Raises? <==> Fails(rec)
  {
    if !Complete(rec) || rec["title"].Dict? then Raises
    else Returns(Row(
      CleanString(rec["title"].s), rec["creato"], TextOr(rec["descri"]), Funders(rec["fundin"]),
      rec["langua"], Doi(rec["doia"]), TextOr(rec["access"]), TextOr(rec["cclice"]),
      ItemPages + pointer, rec["date"], CleanedOr(rec["series"]), CleanedOr(rec["issn"]),
      CleanedOr(rec["publis"]), CleanedOr(rec["source"]), Subjects(rec["loc"], rec["subjea"]),
      rec["type"]))
  }

  /** The dictionary handed to `writerow`. */
  function Written(row: Row): map<string, Field>
  {
    map[
      "Title" := Str(row.title), "Authors" := row.authors, "Abstract" := Str(row.summary),
      "Language" := row.language, "DOI" := Str(row.doi), "Access rights" := Str(row.accessRights),
      "Usage rights" := Str(row.usageRights), "Repository link" := Str(row.link),
      "Publication date" := row.date, "Journal" := Str(row.journal), "ISSN" := Str(row.issn),
      "Publisher" := Str(row.publisher), "Pages" := Str(row.pages), "Funder" := Str(row.funder),
      "Subjects" := Str(row.subjects), "Type" := row.kind
    ]
  }

  /** The written dictionary has exactly the CSV columns. */
  lemma WrittenColumns(row: Row)
    ensures Written(row).Keys == set f | f in Fieldnames
  {
  }

  /**
   * What a written row holds: a clean title, the link to the record's page,
   * from which the pointer can be read back, and a DOI of one of the three forms.
   */
  lemma ItemRowProperties(rec: Record, pointer: string)
    requires !Fails(rec)
    ensures var row := Item(rec, pointer).value;
            && '\n' !in row.title && '\r' !in row.title
            && StartsWith(row.link, ItemPages) && row.link[|ItemPages|..] == pointer
            && (row.doi == "" || row.doi == RepairedDoi || StartsWith(row.doi, Resolver))
  {
    var link := ItemPages + pointer;
    assert link[..|ItemPages|] == ItemPages;
    assert link[|ItemPages|..] == pointer;
    DoiForms(rec["doia"]);
  }

  /** Two pointers give two different links. */
  lemma LinksDistinct(rec1: Record, rec2: Record, p1: string, p2: string)
    requires !Fails(rec1) && !Fails(rec2) && p1 != p2
    ensures Item(rec1, p1).value.link != Item(rec2, p2).value.link
  {
    assert (ItemPages + p1)[|ItemPages|..] == p1;
    assert (ItemPages + p2)[|ItemPages|..] == p2;
  }

  // ---------------------------------------------------------------- the loop

  /** The answer to `dmGetItemInfo` for one pointer. */
  datatype Response = Fetched(pointer: string, record: Record) | Failed

  /**
   * The rows written for the responses in order, each by `item`: a failed
   * request is skipped, and a record that raises ends the run.
   */
  function Run<R>(rs: seq<Response>, item: (Record, string) -> Outcome<R>): Outcome<seq<R>>
  {
    if |rs| == 0 then Returns([])
    else
      match Run(rs[..|rs| - 1], item)
      case Raises => Raises
      case Returns(done) =>
        match rs[|rs| - 1]
        case Failed => Returns(done)
        case Fetched(p, rec) =>
          match item(rec, p)
          case Raises => Raises
          case Returns(row) => Returns(done + [row])
  }

  /** The harvest: `Item` on every fetched record. */
  function Harvested(rs: seq<Response>): Outcome<seq<Row>>
  {
    Run(rs, Item)
  }

  /** A record of `rs` on which `item` raises. */
  predicate SomeRaises<R>(rs: seq<Response>, item: (Record, string) -> Outcome<R>)
  {
    exists i :: 0 <= i < |rs| && rs[i].Fetched? && item(rs[i].record, rs[i].pointer).Raises?
  }

  /** `row` is what `item` gives for one of the fetched records. */
  predicate RowOf<R(==)>(rs: seq<Response>, item: (Record, string) -> Outcome<R>, row: R)
  {
    exists i :: 0 <= i < |rs| && rs[i].Fetched? && item(rs[i].record, rs[i].pointer) == Returns(row)
  }

  /** The run raises exactly when `item` raises on some fetched record. */
  lemma {:induction false} RunRaisesIff<R>(rs: seq<Response>, item: (Record, string) -> Outcome<R>)
    ensures Run(rs, item).Raises? <==> SomeRaises(rs, item)
  {
    if |rs| > 0 {
      var init := rs[..|rs| - 1];
      RunRaisesIff(init, item);
      if SomeRaises(init, item) {
        var i :| 0 <= i < |init| && init[i].Fetched? && item(init[i].record, init[i].pointer).Raises?;
        assert rs[i] == init[i];
      }
      if SomeRaises(rs, item) {
        var i :| 0 <= i < |rs| && rs[i].Fetched? && item(rs[i].record, rs[i].pointer).Raises?;
        if i < |init| {
          assert init[i] == rs[i];
        }
      }
    }
  }

  /** A completed run writes at most one row per response, each the row of a fetched record. */
  lemma {:induction false} RunRows<R>(rs: seq<Response>, item: (Record, string) -> Outcome<R>)
    ensures Run(rs, item).Returns? ==> |Run(rs, item).value| <= |rs|
    ensures Run(rs, item).Returns? ==> forall row :: row in Run(rs, item).value ==> RowOf(rs, item, row)
  {
    if |rs| > 0 {
      var init := rs[..|rs| - 1];
      RunRows(init, item);
      if Run(rs, item).Returns? {
        forall row | row in Run(rs, item).value
          ensures RowOf(rs, item, row)
        {
          if row in Run(init, item).value {
            var i :| 0 <= i < |init| && init[i].Fetched? && item(init[i].record, init[i].pointer) == Returns(row);
            assert rs[i] == init[i];
          } else {
            assert item(rs[|rs| - 1].record, rs[|rs| - 1].pointer) == Returns(row);
          }
        }
      }
    }
  }

  /**
   * The harvest raises exactly when a fetched record lacks a field or has a
   * non-string title; otherwise every row is the row of a fetched record, at
   * most one per pointer.
   */
  lemma HarvestedProperties(rs: seq<Response>)
    ensures Harvested(rs).Raises? <==>
              exists i :: 0 <= i < |rs| && rs[i].Fetched? && Fails(rs[i].record)
    ensures Harvested(rs).Returns? ==> |Harvested(rs).value| <= |rs|
    ensures Harvested(rs).Returns? ==> forall row :: row in Harvested(rs).value ==>
              exists i :: 0 <= i < |rs| && rs[i].Fetched? && Item(rs[i].record, rs[i].pointer) == Returns(row)
  {
    RunRaisesIff(rs, Item);
    RunRows(rs, Item);
  }

  /** A record that raises ends the run, whatever follows it. */
  lemma RunRaises<R>(rs: seq<Response>, n: nat, item: (Record, string) -> Outcome<R>)
    requires n <= |rs| && Run(rs[..n], item).Raises?
    ensures Run(rs, item).Raises?
  {
    RunRaisesIff(rs[..n], item);
    var i :| 0 <= i < n && rs[..n][i].Fetched? && item(rs[..n][i].record, rs[..n][i].pointer).Raises?;
    assert rs[i] == rs[..n][i];
    RunRaisesIff(rs, item);
  }

  /** The `for record_pointer in record_pointers` loop, one response per pointer. */
  method HarvestRecords(rs: seq<Response>) returns (r: Outcome<seq<Row>>)
    ensures r == Harvested(rs)
  {
    var rows: seq<Row> := [];
    for i := 0 to |rs|
      invariant Run(rs[..i], Item) == Returns(rows)
    {
      assert rs[..i + 1][..i] == rs[..i];
      match rs[i]
      case Failed =>
      case Fetched(p, rec) =>
        var row := Item(rec, p);
        if row.Raises? {
          RunRaises(rs, i + 1, Item);
          return Raises;
        }
        rows := rows + [row.value];
    }
    assert rs[..|rs|] == rs;
    r := Returns(rows);
  }
}
