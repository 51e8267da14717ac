/**
 * `icrisat_json_to_csv.py`: the EPrints export of ICRISAT to CSV rows. A
 * record is converted when it mentions climate change; its authors,
 * affiliations, funders and keyword subjects are collected by "append if
 * not yet seen" loops.
 */
module ICRISAT {
  import opened Wrappers
  import opened Text
  import opened Seqs
  import opened Util
  import opened Harvest

  /** An EPrints `name` object; either part may be missing. */
  datatype Name = Name(family: Option<string>, given: Option<string>)

  /** A `creators` entry, which may lack its `name`. */
  datatype Creator = Creator(name: Option<Name>)

  /** An EPrints record; `None` is a missing key. */
  datatype Eprint = Eprint(
    title: Option<string>, creators: Option<seq<Creator>>, affiliation: Option<seq<string>>,
    funders: Option<seq<string>>, summary: Option<string>, idNumber: Option<string>,
    officialUrl: Option<string>, uri: Option<string>, date: Option<string>,
    publication: Option<string>, issn: Option<string>, publisher: Option<string>,
    keywords: Option<string>, pagerange: Option<string>, subjects: Option<seq<string>>)

  /** A CSV row; `None` is written as an empty cell. */
  datatype Row = Row(
    title: Option<string>, authors: string, affiliations: string, summary: Option<string>,
    doi: Option<string>, link: Option<string>, date: Option<string>, journal: Option<string>,
    issn: Option<string>, publisher: Option<string>, subjects: string, funders: string,
    pages: string)

  /** What `export_row` does with a record. */
  datatype Exported =
    | Written(row: Row)
      /** the `KeyError` of a record without `subjects`, which the caller catches */
    | Skipped
      /** the `TypeError` of joining the authors of a record without `creators`, which ends the run */
    | Crashed

  const ClimateChange: string := "climate " + "change"

  /** The EPrints subject code for climate change. */
  const ClimateCode: string := "s2.8"

  // ---------------------------------------------------------------- authors

  /** `"family, given"`, when the creator has both parts of a name. */
  function AuthorName(c: Creator): Option<string>
  {
    if c.name.Some? && c.name.value.family.Some? && c.name.value.given.Some?
    then Some(c.name.value.family.value + ", " + c.name.value.given.value)
    else None
  }

  /** The names of the creators that have both parts, in order. */
  function AuthorNames(cs: seq<Creator>): seq<string>
  {
    if |cs| == 0 then []
    else
      AuthorNames(cs[..|cs| - 1]) + match AuthorName(cs[|cs| - 1]) case Some(n) => [n] case None => []
  }

  /** A name is listed exactly when some creator has it. */
  lemma {:induction false} AuthorNamesMembers(cs: seq<Creator>)
    ensures forall n :: n in AuthorNames(cs) <==> exists i :: 0 <= i < |cs| && AuthorName(cs[i]) == Some(n)
  {
    if |cs| > 0 {
      var init, last := cs[..|cs| - 1], cs[|cs| - 1];
      AuthorNamesMembers(init);
      var tail := match AuthorName(last) case Some(n) => [n] case None => [];
      assert AuthorNames(cs) == AuthorNames(init) + tail;
      forall n | n in AuthorNames(cs)
        ensures exists i :: 0 <= i < |cs| && AuthorName(cs[i]) == Some(n)
      {
        if n in AuthorNames(init) {
          var i :| 0 <= i < |init| && AuthorName(init[i]) == Some(n);
          assert cs[i] == init[i];
        } else {
          assert AuthorName(cs[|cs| - 1]) == Some(n);
        }
      }
      forall n | exists i :: 0 <= i < |cs| && AuthorName(cs[i]) == Some(n)
        ensures n in AuthorNames(cs)
      {
        var i :| 0 <= i < |cs| && AuthorName(cs[i]) == Some(n);
        if i < |init| {
          assert AuthorName(init[i]) == Some(n);
        }
      }
    }
  }

  /** The `for author in row["creators"]` loop. */
  method CollectAuthors(cs: seq<Creator>) returns (r: seq<string>)
    ensures r == Dedup(AuthorNames(cs))
  {
    r := [];
    for i := 0 to |cs|
      invariant r == Dedup(AuthorNames(cs[..i]))
    {
      assert cs[..i + 1][..i] == cs[..i];
      match AuthorName(cs[i])
      case None =>
        assert AuthorNames(cs[..i + 1]) == AuthorNames(cs[..i]);
      case Some(n) =>
        assert AuthorNames(cs[..i + 1]) == AuthorNames(cs[..i]) + [n];
        r := AppendNew(r, [n], AuthorNames(cs[..i]));
    }
    assert cs[..|cs|] == cs;
  }

  /**
   * The authors: every creator with both name parts as `"family, given"`,
   * each name once, in the order of first occurrence; the others are skipped.
   */
  lemma AuthorsProperties(cs: seq<Creator>)
    ensures var d := Dedup(AuthorNames(cs));
            && Distinct(d)
            && (forall n :: n in d <==> exists i :: 0 <= i < |cs| && AuthorName(cs[i]) == Some(n))
            && InFirstOccurrenceOrder(d, AuthorNames(cs))
  {
    AuthorNamesMembers(cs);
    DistinctValuesProperties(AuthorNames(cs));
  }

  // ---------------------------------------------------------------- DOI

  /** The `id_number` looks like a DOI or a URL. */
  predicate DoiLike(id: Option<string>)
  {
    id.Some? && (Contains(id.value, "http") || Contains(id.value, "10."))
  }

  /** The `DOI` column: the normalised `id_number` when it looks like one, else the normalised `official_url`. */
  function Doi(idNumber: Option<string>, officialUrl: Option<string>): (r: Option<string>)
    ensures r.Some? ==> StartsWith(r.value, Resolver)
  {
    var fromId := if DoiLike(idNumber) then NormalizeDoi(idNumber) else None;
    if fromId.None? && officialUrl.Some? && |officialUrl.value| > 0 then NormalizeDoi(officialUrl) else fromId
  }

  /**
   * The record has a DOI exactly when its `id_number` looks like one or it
   * has a non-empty `official_url`, and the `id_number` takes precedence.
   */
  lemma DoiSources(idNumber: Option<string>, officialUrl: Option<string>)
    ensures Doi(idNumber, officialUrl).Some? <==>
              DoiLike(idNumber) || (officialUrl.Some? && |officialUrl.value| > 0)
    ensures DoiLike(idNumber) ==> Doi(idNumber, officialUrl) == NormalizeDoi(idNumber)
    ensures !DoiLike(idNumber) && officialUrl.Some? && |officialUrl.value| > 0 ==>
              Doi(idNumber, officialUrl) == NormalizeDoi(officialUrl)
  {
  }

  // ---------------------------------------------------------------- subjects

  /** `keywords.replace(";", ",").lower().split(",")`. */
  function Tokens(k: string): (ts: seq<string>)
    ensures forall i :: 0 <= i < |ts| ==> ',' !in ts[i] && ';' !in ts[i]
  {
    var lowered := Lower(ReplaceAll(k, ";", ","));
    ReplaceRemovesChar(k, ";", ",");
    LowerKeepsAbsent(ReplaceAll(k, ";", ","), ';');
    var ts := Split(lowered, ",");
    forall i | 0 <= i < |ts|
      ensures ',' !in ts[i] && ';' !in ts[i]
    {
      NoCommaInPiece(ts[i]);
      assert forall c :: c in ts[i] ==> c in lowered by {
        SplitPieceChars(lowered, i);
      }
    }
    ts
  }

  /** A piece without the one-character separator `","` has no comma. */
  lemma NoCommaInPiece(t: string)
    requires !Contains(t, ",")
    ensures ',' !in t
  {
    if ',' in t {
      var i :| 0 <= i < |t| && t[i] == ',';
      assert t[i..][..1] == ",";
      ContainsAt(t, ",", i);
    }
  }

  /** Every character of a piece of a split is a character of the text. */
  lemma SplitPieceChars(s: string, k: nat)
    requires k < |Split(s, ",")|
    ensures forall c :: c in Split(s, ",")[k] ==> c in s
  {
    JoinChars(Split(s, ","), ",", k);
  }

  lemma {:induction false} JoinChars(parts: seq<string>, sep: string, k: nat)
    requires k < |parts|
    ensures forall c :: c in parts[k] ==> c in Join(parts, sep)
  {
    if |parts| > 1 {
      if k == 0 {
        assert Join(parts, sep) == parts[0] + (sep + Join(parts[1..], sep));
      } else {
        JoinChars(parts[1..], sep, k - 1);
        assert Join(parts, sep) == (parts[0] + sep) + Join(parts[1..], sep);
      }
    }
  }

  /** `clean_string` adds no character other than a space. */
  lemma CleanStringKeepsAbsent(s: string, c: char)
    requires c !in s && c != ' '
    ensures c !in CleanString(s)
  {
    var a := ReplaceAll(s, "\n", " ");
    var b := ReplaceAll(a, "\r", " ");
    ReplaceKeepsAbsent(s, "\n", " ", c);
    ReplaceKeepsAbsent(a, "\r", " ", c);
    ReplaceKeepsAbsent(b, "  ", " ", c);
    CleanStringOf(s, ReplaceAll(b, "  ", " "));
  }

  /** The subjects taken from the keywords: the cleaned tokens, each once; none without keywords. */
  function KeywordSubjects(keywords: Option<string>): seq<string>
  {
    match keywords
    case None => []
    case Some(k) => Dedup(Map(Tokens(k), CleanString))
  }

  /** `"climate change"` appended once when the code `s2.8` is among the controlled subjects. */
  function Tagged(subjects: seq<string>, codes: seq<string>): (r: seq<string>)
    ensures ClimateChange in r <==> ClimateChange in subjects || ClimateCode in codes
    ensures |subjects| <= |r| <= |subjects| + 1 && r[..|subjects|] == subjects
  {
    if ClimateCode in codes && ClimateChange !in subjects then subjects + [ClimateChange] else subjects
  }

  /** The values `f` gives for `ts`, each once: distinct, and exactly those values. */
  lemma ValuesOnceProperties(ts: seq<string>, f: string -> string)
    requires forall i :: 0 <= i < |ts| ==> ',' !in f(ts[i]) && ';' !in f(ts[i])
    ensures Distinct(Dedup(Map(ts, f)))
    ensures forall t :: t in Dedup(Map(ts, f)) ==> ',' !in t && ';' !in t
    ensures forall t :: t in Dedup(Map(ts, f)) <==> exists i :: 0 <= i < |ts| && f(ts[i]) == t
  {
    var m := Map(ts, f);
    DedupDistinct(m);
    DedupSameValues(m);
    forall t | exists i :: 0 <= i < |ts| && f(ts[i]) == t
      ensures t in m
    {
      var i :| 0 <= i < |ts| && f(ts[i]) == t;
      assert m[i] == t;
    }
  }

  /**
   * The keyword subjects hold no subject twice, none with a comma or a
   * semicolon, and exactly the cleaned tokens.
   */
  lemma KeywordSubjectsProperties(k: string)
    ensures Distinct(KeywordSubjects(Some(k)))
    ensures forall t :: t in KeywordSubjects(Some(k)) ==> ',' !in t && ';' !in t
    ensures forall t :: t in KeywordSubjects(Some(k)) <==>
              exists i :: 0 <= i < |Tokens(k)| && CleanString(Tokens(k)[i]) == t
  {
    var ts := Tokens(k);
    forall i | 0 <= i < |ts|
      ensures ',' !in CleanString(ts[i]) && ';' !in CleanString(ts[i])
    {
      CleanStringKeepsAbsent(ts[i], ',');
      CleanStringKeepsAbsent(ts[i], ';');
    }
    ValuesOnceProperties(ts, CleanString);
  }

  lemma ClimateChangeClean()
    ensures ',' !in ClimateChange && ';' !in ClimateChange
  {
    assert ',' !in "climate " && ',' !in "change" && ';' !in "climate " && ';' !in "change";
  }

  /** The tag has no comma or semicolon either, and keeps the subjects distinct. */
  lemma TaggedProperties(ks: seq<string>, codes: seq<string>)
    requires Distinct(ks) && forall t :: t in ks ==> ',' !in t && ';' !in t
    ensures Distinct(Tagged(ks, codes))
    ensures forall t :: t in Tagged(ks, codes) ==> ',' !in t && ';' !in t
  {
    ClimateChangeClean();
  }

  /** The written subjects: none twice, none with a comma or a semicolon. */
  lemma SubjectsProperties(keywords: Option<string>, codes: seq<string>)
    ensures Distinct(Tagged(KeywordSubjects(keywords), codes))
    ensures forall t :: t in Tagged(KeywordSubjects(keywords), codes) ==> ',' !in t && ';' !in t
  {
    var ks := KeywordSubjects(keywords);
    if keywords.Some? {
      KeywordSubjectsProperties(keywords.value);
    } else {
      assert ks == [];
    }
    TaggedProperties(ks, codes);
  }

  /**
   * Rewriting the record's keywords in place changes nothing on a second
   * pass: a later call of `export_row` on the same record sees keywords that
   * give the same tokens.
   */
  lemma KeywordRewriteIdempotent(k: string)
    ensures ReplaceAll(ReplaceAll(k, ";", ","), ";", ",") == ReplaceAll(k, ";", ",")
  {
    ReplaceRemovesChar(k, ";", ",");
    ReplaceAbsentChar(ReplaceAll(k, ";", ","), ";", ",", 0);
  }

  // ---------------------------------------------------------------- the row

  /** A list field joined with `"; "`, each value once; a missing one gives `""`. */
  function JoinedOnce(vs: Option<seq<string>>): string
  {
    match vs
    case None => ""
    case Some(v) => Join(Dedup(v), Separator)
  }

  /**
   * `export_row`: the record's row. A record without `subjects` is skipped,
   * and one with `subjects` but without `creators` crashes.
   */
  function Export(e: Eprint): (x: Exported)
    ensures x.Skipped? <==> e.subjects.None?
    ensures x.Crashed? <==> e.subjects.Some? && e.creators.None?
  {
    if e.subjects.None? then Skipped
    else if e.creators.None? then Crashed
    else Written(Row(
      if e.title.Some? then Some(CleanString(e.title.value)) else None,
      Join(Dedup(AuthorNames(e.creators.value)), Separator),
      JoinedOnce(e.affiliation),
      e.summary,
      Doi(e.idNumber, e.officialUrl),
      e.uri, e.date, e.publication, e.issn, e.publisher,
      Join(Tagged(KeywordSubjects(e.keywords), e.subjects.value), Separator),
      JoinedOnce(e.funders),
      e.pagerange.GetOr("")))
  }

  /**
   * The row of a written record: a missing title, abstract, link, date,
   * journal, ISSN or publisher stays missing, a missing page range or list
   * field gives `""`, the title has no line break, and the subjects are
   * distinct tokens that hold `"climate change"` exactly when a keyword gives
   * it or the code `s2.8` is among the controlled subjects.
   */
  lemma ExportedRowProperties(e: Eprint)
    requires e.subjects.Some? && e.creators.Some?
    ensures var row := Export(e).row;
            && (row.title.None? <==> e.title.None?)
            && (row.title.Some? ==> '\n' !in row.title.value && '\r' !in row.title.value)
            && row.summary == e.summary && row.link == e.uri && row.date == e.date
            && row.journal == e.publication && row.issn == e.issn && row.publisher == e.publisher
            && (e.pagerange.None? ==> row.pages == "")
            && (e.pagerange.Some? ==> row.pages == e.pagerange.value)
            && (e.affiliation.None? ==> row.affiliations == "")
            && (e.funders.None? ==> row.funders == "")
            && (exists d :: row.subjects == Join(d, Separator) && Distinct(d)
                  && (ClimateChange in d <==> ClimateChange in KeywordSubjects(e.keywords) || ClimateCode in e.subjects.value))
  {
    var d := Tagged(KeywordSubjects(e.keywords), e.subjects.value);
    SubjectsProperties(e.keywords, e.subjects.value);
    assert Export(e).row.subjects == Join(d, Separator);
  }

  /** The affiliation and funder loops, joined; a missing key gives `""`. */
  method CollectOnce(vs: Option<seq<string>>) returns (r: string)
    ensures r == JoinedOnce(vs)
  {
    r := "";
    if vs.Some? {
      var a := AppendNew([], vs.value, []);
      assert [] + vs.value == vs.value;
      r := Join(a, Separator);
    }
  }

  /** The keyword loop; a missing key gives no subjects. */
  method CollectSubjects(keywords: Option<string>) returns (r: seq<string>)
    ensures r == KeywordSubjects(keywords)
  {
    r := [];
    if keywords.Some? {
      var m := Map(Tokens(keywords.value), CleanString);
      r := AppendNew([], m, []);
      assert [] + m == m;
    }
  }

  /** `export_row` with its loops. */
  method ExportRow(e: Eprint) returns (x: Exported)
    ensures x == Export(e)
  {
    var title := if e.title.Some? then Some(CleanString(e.title.value)) else None;
    var authors: Option<seq<string>> := None;
    if e.creators.Some? {
      var a := CollectAuthors(e.creators.value);
      authors := Some(a);
    }
    var affiliations := CollectOnce(e.affiliation);
    var funders := CollectOnce(e.funders);
    var doi := Doi(e.idNumber, e.officialUrl);
    var subjects := CollectSubjects(e.keywords);
    var extent := e.pagerange.GetOr("");
    if e.subjects.None? {
      return Skipped;
    }
    if ClimateCode in e.subjects.value && ClimateChange !in subjects {
      subjects := subjects + [ClimateChange];
    }
    if authors.None? {
      return Crashed;
    }
    x := Written(Row(title, Join(authors.value, Separator), affiliations, e.summary, doi,
      e.uri, e.date, e.publication, e.issn, e.publisher, Join(subjects, Separator), funders, extent));
  }

  // ---------------------------------------------------------------- selection

  /** The text, lowercased, contains `"climate change"`. */
  predicate MentionsClimateChange(s: Option<string>)
  {
    s.Some? && Contains(Lower(s.value), ClimateChange)
  }

  /** The four tests of the main loop, any of which hands the record to `export_row`. */
  predicate Selected(e: Eprint)
  {
    || MentionsClimateChange(e.title)
    || (e.subjects.Some? && ClimateCode in e.subjects.value)
    || MentionsClimateChange(e.keywords)
    || MentionsClimateChange(e.summary)
  }

  /**
   * One record through the main loop. A skipped export leaves the record to
   * the remaining tests, and every later export of it is skipped again, so
   * the record gives at most one row.
   */
  function Step(e: Eprint): Exported
  {
    if Selected(e) then Export(e) else Skipped
  }

  /** The record is written. */
  predicate Converted(e: Eprint)
  {
    Selected(e) && e.subjects.Some? && e.creators.Some?
  }

  /** The rows written for `es` in order, one step per record; a crash ends the run. */
  function Run(es: seq<Eprint>, step: Eprint -> Exported): Outcome<seq<Row>>
  {
    if |es| == 0 then Returns([])
    else
      match Run(es[..|es| - 1], step)
      case Raises => Raises
      case Returns(done) =>
        match step(es[|es| - 1])
        case Written(row) => Returns(done + [row])
        case Skipped => Returns(done)
        case Crashed => Raises
  }

  /** The run crashes exactly when some record's step crashes. */
  lemma {:induction false} RunCrashes(es: seq<Eprint>, step: Eprint -> Exported)
    ensures Run(es, step).Raises? <==> exists i :: 0 <= i < |es| && step(es[i]).Crashed?
  {
    if |es| > 0 {
      var init := es[..|es| - 1];
      RunCrashes(init, step);
      assert forall i :: 0 <= i < |init| ==> init[i] == es[i];
    }
  }

  /** A completed run writes one row per record written by its step, in order. */
  lemma {:induction false} RunCount(es: seq<Eprint>, step: Eprint -> Exported, p: Eprint -> bool)
    requires forall e :: step(e).Written? <==> p(e)
    ensures Run(es, step).Returns? ==> |Run(es, step).value| == |Filter(es, p)|
  {
    if |es| > 0 {
      RunCount(es[..|es| - 1], step, p);
    }
  }

  /** Every row of a completed run is the row of a record whose step writes it. */
  lemma {:induction false} RunRows(es: seq<Eprint>, step: Eprint -> Exported)
    ensures Run(es, step).Returns? ==> forall row :: row in Run(es, step).value ==>
              exists i :: 0 <= i < |es| && step(es[i]) == Written(row)
  {
    if |es| > 0 {
      var init := es[..|es| - 1];
      RunRows(init, step);
      if Run(es, step).Returns? {
        forall row | row in Run(es, step).value
          ensures exists i :: 0 <= i < |es| && step(es[i]) == Written(row)
        {
          if row in Run(init, step).value {
            var i :| 0 <= i < |init| && step(init[i]) == Written(row);
            assert es[i] == init[i];
          } else {
            assert step(es[|es| - 1]) == Written(row);
          }
        }
      }
    }
  }

  /** A crashing prefix crashes the whole run. */
  lemma RunCrashesPrefix(es: seq<Eprint>, n: nat, step: Eprint -> Exported)
    requires n <= |es| && Run(es[..n], step).Raises?
    ensures Run(es, step).Raises?
  {
    RunCrashes(es[..n], step);
    var i :| 0 <= i < n && step(es[..n][i]).Crashed?;
    assert es[i] == es[..n][i];
    RunCrashes(es, step);
  }

  /** The step writes exactly the converted records and crashes on selected ones without creators. */
  lemma StepOutcomes(e: Eprint)
    ensures Step(e).Written? <==> Converted(e)
    ensures Step(e).Crashed? <==> Selected(e) && e.subjects.Some? && e.creators.None?
  {
  }

  /**
   * The whole conversion: it crashes exactly when a selected record with
   * subjects has no creators; otherwise it writes one row per converted
   * record (so no record twice and none that is not selected), each that
   * record's `export_row`.
   */
  lemma ConversionProperties(es: seq<Eprint>)
    ensures Run(es, Step).Raises? <==>
              exists i :: 0 <= i < |es| && Selected(es[i]) && es[i].subjects.Some? && es[i].creators.None?
    ensures Run(es, Step).Returns? ==> |Run(es, Step).value| == |Filter(es, Converted)|
    ensures Run(es, Step).Returns? ==> forall row :: row in Run(es, Step).value ==>
              exists i :: 0 <= i < |es| && Converted(es[i]) && Export(es[i]) == Written(row)
  {
    forall e ensures Step(e).Written? <==> Converted(e) && (Step(e).Crashed? <==> Selected(e) && e.subjects.Some? && e.creators.None?) {
      StepOutcomes(e);
    }
    RunCrashes(es, Step);
    RunCount(es, Step, Converted);
    RunRows(es, Step);
  }

  /** The main loop over the records of the export. */
  method ConvertAll(es: seq<Eprint>) returns (r: Outcome<seq<Row>>)
    ensures r == Run(es, Step)
  {
    var rows: seq<Row> := [];
    for i := 0 to |es|
      invariant Run(es[..i], Step) == Returns(rows)
    {
      assert es[..i + 1][..i] == es[..i];
      if Selected(es[i]) {
        var x := ExportRow(es[i]);
        match x
        case Crashed =>
          RunCrashesPrefix(es, i + 1, Step);
          return Raises;
        case Skipped =>
        case Written(row) =>
          rows := rows + [row];
      }
    }
    assert es[..|es|] == es;
    r := Returns(rows);
  }
}
