# CGIAR climate-change synthesis: a verified model of the harvest and merge core

The repository collects journal articles about climate change from eight CGIAR
repositories and merges them into one deduplicated, enriched table. This
project models the part of it that decides what ends up in that table:

- **The normalisers and lookups of `util.py`** (modules `Util`, `PublicationDates`, `Lookups`):
  - DOI normalisation, subject deduplication, string cleaning, the publication date rule;
  - what `get_license`, `get_access_rights` and `filter_abstracts` make of a Crossref or Unpaywall reply;
  - the PDF file name of a DOI, and the wrapper around the country-name table.
- **The per-source fixes and the merge pipeline of `merge_source_csvs.py`** (modules `Merge`, `MergePipeline`):
  - the placeholder concatenation of two columns;
  - the WorldFish, CIFOR and IRRI fixes and their renames to the CGSpace column names, source tagging and concatenation order;
  - the DOI and title passes, subject cleanup, exclusion lists;
  - the Crossref and Unpaywall passes with the rights precedence;
  - the PDF, date, abstract and country passes, the final column selection and the DOI-list partitions.
- **The item-to-row mapping of each harvester**:
  - the DSpace 7 harvesters for CGSpace, MELSpace and CIMMYT (modules `Harvest`, `CGSpace`, `MELSpace`, `CIMMYT`);
  - the CONTENTdm harvester for IFPRI (`IFPRI`);
  - the EPrints export of ICRISAT with its record selection (`ICRISAT`);
  - the generic harvester for legacy DSpace 5/6, with its sitemap and offset walks and the version dispatch (`LegacyDSpace`).

Module roles:

- `Wrappers`, `Text` and `Seqs` hold the shared vocabulary:
  - `Option`, and `Outcome`, where `Raises` stands for an uncaught Python exception;
  - ASCII lowercasing, `str.replace`, `strip`, `split` and `join`;
  - a regular-expression substitution driven by a match-length function;
  - filtering, and deduplication by key that keeps first occurrences.
- Every outside service (Crossref, Unpaywall, the file system, the country table, HTTP replies) is an input value or a function parameter.
- Where the Python code mutates state step by step (the append loops, the `seen` set, the per-row `dict`, the stage-by-stage reassignment of the data frame), the model has a `method` with a loop. Each such method is proved equal to a specification function, and the properties are lemmas about that function.

## Model

| member | source | states |
|---|---|---|
| Util.NormalizeDoi | src/util.py:336-372 | an absent DOI stays absent; otherwise the result is `https://doi.org/` followed by a suffix with no uppercase letter, no surrounding whitespace and no zero-width space |
| Util.NormalizedIsFixedPoint | src/util.py:336-372 | a normalised DOI whose suffix contains none of `doi:`, `https:// doi.org/` or the Taylor & Francis prefix is left unchanged by another pass |
| Util.NormalizeDoiIdempotent | src/util.py:336-372 | on those values normalising twice equals normalising once |
| Util.NormalizePlainDoi | src/util.py:342-372 | a DOI with no colon, no zero-width space and no leading `0.` or `h` is only lowercased, trimmed and put behind the resolver |
| Util.NormalizeDoiDropsLabel | src/util.py:345-346 | `doi:10.1088/...` normalises exactly like `10.1088/...` |
| Util.NormalizeDoiRestoresLeadingOne | src/util.py:348-350 | `0.1002/...` normalises to the resolver followed by `10.1002/...`, lowercased and trimmed |
| Util.NormalizeDoiDropsResolver | src/util.py:352-359 | a DOI behind `http(s)://(dx.)doi.org/` or `https:// doi.org/` normalises like the bare DOI |
| Util.NormalizeDoiUppercaseLabel | src/util.py:345-346 | `DOI:x` keeps its label through the case-sensitive replace and becomes `https://doi.org/doi:x`; a second pass removes the label, so the function is not idempotent in general |
| Util.DeduplicateSubjects | src/util.py:260-269 | the loop with the `seen` set: an absent value stays absent; a present value gives the first occurrences of its `"; "` tokens, rejoined |
| Util.DeduplicateSubjectsTokens | src/util.py:260-269 | the output tokens are pairwise distinct, are exactly the input tokens, form a subsequence of them, and keep first-occurrence order |
| Util.DedupedSubjectsTokens | src/util.py:265-269 | splitting the rejoined result gives back exactly the deduplicated tokens |
| Util.DeduplicateSubjectsIdempotent | src/util.py:260-269 | deduplicating a deduplicated subject string changes nothing |
| Util.DeduplicateSubjectsExample | src/util.py:260-269 | `"a; b; a; c"` becomes `"a; b; c"` |
| Util.CleanString | src/util.py:322-333 | the result has no line feed or carriage return, no leading or trailing whitespace, and is never longer than the input |
| Util.CleanStringKeepsSomeDoubleSpaces | src/util.py:331 | one pass over a run of three spaces leaves two, so double spaces can survive |
| Util.PdfFileName | src/util.py:198-201 | the file name has no slash and ends in `.pdf` |
| Util.PdfExists | src/util.py:194-208 | present exactly when the DOI is present and the file named after it is on disk, and then it is that file name |
| Util.PdfFileNameOfNormalized | src/util.py:198-201 | for a normalised DOI the file name is the DOI proper with slashes turned into dashes |
| Util.NormalizeCountries | src/util.py:375-405 | an absent value stays absent; a single name never yields the text `not found` |
| Util.NormalizeCountriesSingle | src/util.py:395-399 | a single name the table knows gives its converted name; one it does not know gives an absent value |
| Util.NormalizeCountriesFound | src/util.py:400-405 | for several names the result splits into exactly the converted names that were found |
| Util.NormalizeCountriesNoneFound | src/util.py:400-405 | several names of which none is known give `""`, not an absent value |
| PublicationDates.DaysInMonth | src/util.py:286-290 | a month has 28 to 31 days, and 29 exactly for February of a leap year |
| PublicationDates.ParseDate | src/util.py:283-290 | a date is left unread exactly when it has more than three dash-separated parts; otherwise it parses to a valid calendar date or raises; a date without a day is the first of its month, one without a month is in January |
| PublicationDates.YearIsFirstOfJanuary | src/util.py:285-286 | a bare year parses as the first of January of that year |
| PublicationDates.MonthIsFirstDay | src/util.py:287-288 | a year and month parse as the first day of that month |
| PublicationDates.DayIsRead | src/util.py:289-290 | a year, month and day that form a calendar date parse as exactly that date |
| PublicationDates.RefusedDateRaises | src/util.py:285-290 | a date of one to three parts raises exactly when its parts, in the format their number selects (missing month and day read as 1), do not form a calendar date |
| PublicationDates.GetPublicationDate | src/util.py:276-319 | a result is always one of the two input strings |
| PublicationDates.PublicationDateFails | src/util.py:305-319 | the function raises exactly when a date is malformed or neither date is usable, since `publication_date` is then unbound |
| PublicationDates.EarlierDateWins | src/util.py:305-313 | of two usable dates the strictly earlier one wins, unless the online date starts with `2011` |
| PublicationDates.TieGoesToOnline | src/util.py:305-313 | equal dates give the online date, unless it starts with `2011` |
| PublicationDates.OnlineIn2011YieldsToIssue | src/util.py:308-311 | an online date in 2011 never wins over a usable issue date |
| PublicationDates.SingleDateTaken | src/util.py:314-317 | with one usable date and the other absent or unread, the usable one is returned |
| Lookups.AccessRights | src/util.py:35-75 | nothing for an absent DOI, one without the `https://doi.org/10.` prefix, or a failed reply; `Limited Access` when not open access; otherwise a label ending in `Open Access` |
| Lookups.OpenAccessKind | src/util.py:61-71 | every open-access label ends in `Open Access` |
| Lookups.OpenAccessKindNamed | src/util.py:62-69 | gold, green, hybrid and bronze give `Gold`, `Green`, `Hybrid` and `Bronze Open Access` |
| Lookups.OpenAccessKindPlain | src/util.py:70-71 | any other status gives `Open Access` |
| Lookups.CollectLicenses | src/util.py:105-109 | the loop that fills the content-version table computes `LicenseTable` |
| Lookups.LicenseTableExists | src/util.py:106-109 | the table exists exactly when every entry has both `content-version` and `URL`; otherwise the `KeyError` abandons it |
| Lookups.LicenseTableAbandoned | src/util.py:106-109 | one incomplete entry abandons the whole table |
| Lookups.LicenseTableLastWins | src/util.py:107-109 | a version is in the table exactly when some entry has it, and it maps to the URL of the last such entry |
| Lookups.PreferredLicense | src/util.py:111-118 | a licence is chosen exactly when `am`, `vor`, `tdm` or `unspecified` is present, and it is one of the table's URLs |
| Lookups.PreferenceOrder | src/util.py:111-116 | `am` wins over `vor`, which wins over `tdm`, which wins over `unspecified` |
| Lookups.CcIdentifier | src/util.py:121-141 | a converted Creative Commons URL has no lowercase letter |
| Lookups.CcFromPath | src/util.py:127-141 | the identifier starts with `CC-` and has no lowercase letter; the conversion raises exactly when the path has too few segments to unpack |
| Lookups.UpperCc | src/util.py:141 | the uppercased identifier still starts with `CC-` and has no lowercase letter |
| Lookups.CcTypeAndVersion | src/util.py:131-135 | a path ending in `type/version`, without `igo`, gives `CC-TYPE-VERSION` |
| Lookups.CcIgo | src/util.py:136-139 | a path with `igo` gives `CC-TYPE-VERSION-IGO` from its last three segments |
| Lookups.CcWithoutSegmentsRaises | src/util.py:133 | a path without a slash raises when unpacked |
| Lookups.CcUrlWithTrailingSlash | src/util.py:124-135 | a trailing slash is stripped before the segments are taken |
| Lookups.LicenseOfCreativeCommons | src/util.py:120-141 | a Creative Commons URL becomes its identifier, which then passes the publisher rewrites unchanged |
| Lookups.CcIdentifierKept | src/util.py:145-189 | an identifier without lowercase letters passes the publisher rewrites and the `http` test unchanged |
| Lookups.FinishLicense | src/util.py:145-189 | a licence that survives never contains `http` |
| Lookups.PublisherUrlsCopyrighted | src/util.py:145-184 | each of the ten listed publisher URLs becomes `Copyrighted; all rights reserved` |
| Lookups.ListedUrlCopyrighted | src/util.py:145-184 | a listed URL containing none of the URLs before it becomes `Copyrighted; all rights reserved` |
| Lookups.OtherUrlDropped | src/util.py:186-189 | any other value containing `http` becomes absent |
| Lookups.LicenseOf | src/util.py:78-191 | no licence unless the DOI has the looked-up form and Crossref answers; a licence never contains `http` |
| Lookups.GetLicense | src/util.py:78-191 | the function with its table loop computes `LicenseOf` |
| Lookups.FilterAbstract | src/util.py:414-445 | an abstract is kept exactly when it is present and either the usage rights contain `CC-` or Crossref holds an abstract; a kept abstract is unchanged |
| Lookups.PublicDomainIsNotCcDash | src/util.py:420 | `CC0-1.0` does not contain `CC-` |
| Merge.PlaceholderMatch | src/merge_source_csvs.py:172-174 | a match of `((;\s)?MISSING DATA(;\s)?)` has at least the placeholder's length and starts with the placeholder or with two characters before it |
| Merge.ConcatColumnsCases | src/merge_source_csvs.py:163-174 | two present values are joined by `"; "`, one present value stands alone, and two missing values give `""` |
| Merge.ConcatColumnsJoins | src/merge_source_csvs.py:257-267 | for values free of the placeholder, the concatenated column is the `"; "` join of the present values |
| Merge.ConcatBothPresent | src/merge_source_csvs.py:197-211 | both present and free of the placeholder: `a; b` |
| Merge.ConcatFirstMissing | src/merge_source_csvs.py:213-226 | first missing: the second value alone |
| Merge.ConcatSecondMissing | src/merge_source_csvs.py:213-226 | second missing: the first value alone |
| Merge.ConcatBothMissing | src/merge_source_csvs.py:163-174 | both missing: `""` |
| Merge.AsWrittenLosesCharacter | src/merge_source_csvs.py:270 | as written, `;[^ ]` → `"; "` replaces the character after the semicolon (`P.;Ali` becomes `P.; li`) |
| Merge.SpaceAfterSemicolons | src/merge_source_csvs.py:269-270 | the intended rewrite never shortens the text and keeps its first character |
| Merge.SpaceAfterSemicolonsSpaced | src/merge_source_csvs.py:269-270 | afterwards every semicolon is followed by a space or ends the text |
| Merge.SpaceAfterSemicolonsKeepsText | src/merge_source_csvs.py:269-270 | only spaces are added: the non-space characters are unchanged |
| Merge.SpaceAfterSemicolonsKeepsCharacter | src/merge_source_csvs.py:269-270 | `P.;Ali` becomes `P.; Ali` |
| Merge.SpaceAfterSemicolonsIdempotent | src/merge_source_csvs.py:269-270 | applying the rewrite twice equals applying it once |
| Merge.PeriodSemicolonSpaced | src/merge_source_csvs.py:272-273 | after `\.?;` → `"; "` every semicolon is followed by a space |
| Merge.DropFinalPeriod | src/merge_source_csvs.py:275-276 | a final period is removed |
| Merge.KeepWithoutFinalPeriod | src/merge_source_csvs.py:275-276 | a text without a final period is unchanged |
| Merge.IrriSubjectsJoin | src/merge_source_csvs.py:272-276 | `backcrossing.;climatic change.` becomes `backcrossing; climatic change` |
| Merge.FixCiforLink | src/merge_source_csvs.py:251-254 | a link starting with `#` gets the CIFOR handle prefix in place of the `#`; any other link is unchanged |
| Merge.FixCiforLinkIdempotent | src/merge_source_csvs.py:251-254 | fixing a fixed link changes nothing |
| Merge.RenameKeeps | src/merge_source_csvs.py:176-194 | a rename keeps every column its mapping does not name, and an old name that is no new name is gone |
| Merge.RenameMoves | src/merge_source_csvs.py:176-194 | under a one-to-one mapping every new name holds its old name's value, or, where the row has none, what it held before |
| Merge.WorldFishNamesOneToOne | src/merge_source_csvs.py:176-194 | no two WorldFish entries share an old or a new name, and no new name is another entry's old name |
| Merge.CiforNamesOneToOne | src/merge_source_csvs.py:229-249 | the same for the CIFOR mapping |
| Merge.IrriNamesOneToOne | src/merge_source_csvs.py:278-290 | the same for the IRRI mapping, whose `Authors` keeps its name |
| Merge.PrepareWorldFishColumns | src/merge_source_csvs.py:162-194 | `Subjects` is `dc.subject` and `cg.subject.agrovoc` joined, the present values when neither holds the placeholder; each CGSpace name of the mapping holds its WorldFish column (`DOI` the `dc.identifier.doi`, `Title` the `dc.title`, `Publication date` the `dc.date.issued`, and so on); the WorldFish names are gone; every other column is kept |
| Merge.PrepareCiforJoins | src/merge_source_csvs.py:196-254 | `Subjects` is `dc.subject` and `cg.subject.cifor` joined, `Author affiliations` the affiliation and center columns joined (the present values when neither holds the placeholder); `Repository link` is `dc.identifier.uri` with a leading `#` completed |
| Merge.PrepareCiforMoves | src/merge_source_csvs.py:229-249 | every other CGSpace name of the mapping holds its CIFOR column (`DOI` the `dc.identifier.doi`, `Title` the `dc.title`, and so on) |
| Merge.PrepareCiforKeeps | src/merge_source_csvs.py:229-249 | the CIFOR names are gone and every column the mapping does not name is kept |
| Merge.PrepareIrriFixes | src/merge_source_csvs.py:256-290 | `Authors` joins first and other authors with a space after every semicolon and the same non-space text; `Subjects` is the rewritten `subjects` |
| Merge.PrepareIrriMoves | src/merge_source_csvs.py:278-290 | every other CGSpace name of the mapping holds its IRRI column (`DOI` the `doi`, `Title` the `title`, `Pages` the `extent`, and so on) |
| Merge.PrepareIrriKeeps | src/merge_source_csvs.py:278-290 | the IRRI names are gone and every column the mapping does not name is kept |
| Merge.Prepare | src/merge_source_csvs.py:152-160 | every prepared row carries its source's label |
| Merge.PreparedFrames | src/merge_source_csvs.py:152-160 | preparing keeps the number of frames and of rows in each |
| Merge.MergedOrder | src/merge_source_csvs.py:297-309 | row `k` of source `i` sits at its offset in the merged frame, prepared and labelled, before every row of a later source in the order CGSpace, MELSpace, WorldFish, CIFOR, IFPRI, IRRI, ICRISAT, CIMMYT |
| Seqs.DropDuplicates | src/merge_source_csvs.py:317-337 | the seen-set loop computes `DedupBy` |
| Seqs.DedupByKeepsFirst | src/merge_source_csvs.py:325 | the first row with each key survives |
| Seqs.DedupByKeepsUnkeyed | src/merge_source_csvs.py:325 | every row without a key survives, in order |
| Seqs.DedupByDistinctKeys | src/merge_source_csvs.py:325-337 | no two surviving rows share a key |
| Seqs.DedupBySubseq | src/merge_source_csvs.py:325-337 | the survivors keep their relative order |
| MergePipeline.NormalizeDoiColumn | src/merge_source_csvs.py:317 | the `DOI` column is normalised and no other column changes |
| MergePipeline.DoiPassKeeps | src/merge_source_csvs.py:317-325 | the first row with each DOI survives the DOI pass, and so does every row without a DOI, in order |
| MergePipeline.DeduplicatedProperties | src/merge_source_csvs.py:317-337 | the deduplicated rows are an order-preserving subsequence of the normalised rows, keep exactly the titles that survive the DOI pass, and hold no DOI and no title twice |
| MergePipeline.MissingTitlesCollapse | src/merge_source_csvs.py:337 | two rows without a title collapse to the first |
| MergePipeline.CleanSubjectsColumn | src/merge_source_csvs.py:347-353 | only `Subjects` changes, through the subject cleanup |
| MergePipeline.DropTrailingSemicolon | src/merge_source_csvs.py:347 | a trailing `;` or `; ` is removed |
| MergePipeline.KeepWithoutTrailingSemicolon | src/merge_source_csvs.py:347 | a text without a semicolon near its end is unchanged |
| MergePipeline.CleanSubjectsTrailing | src/merge_source_csvs.py:347-353 | a subject string with a trailing separator becomes the deduplicated tokens of its lowercased body |
| MergePipeline.CleanSubjectsTokens | src/merge_source_csvs.py:347-353 | cleaned subjects are distinct tokens without uppercase letters |
| MergePipeline.ExcludedProperties | src/merge_source_csvs.py:362-373 | exclusion keeps an order-preserving subsequence holding exactly the rows whose DOI and link are not listed |
| MergePipeline.DoiSplit | src/merge_source_csvs.py:380-389 | the rows with and without a looked-up DOI partition the frame, and every kept row's DOI starts with `https://doi.org/10.` |
| MergePipeline.UsageColumn | src/merge_source_csvs.py:396-403 | the licence pass keeps each row's DOI, title and link |
| MergePipeline.UsageRightsPrecedence | src/merge_source_csvs.py:396-403 | Crossref's licence, aligned, when it gives one; else the repository's, aligned; the pass raises exactly when the licence lookup raises and changes no other column |
| MergePipeline.AccessColumn | src/merge_source_csvs.py:407-422 | the access pass keeps each row's DOI, title and link |
| MergePipeline.AccessRightsPrecedence | src/merge_source_csvs.py:407-422 | the access rights are Unpaywall's label when it answers, untouched by the rewrites; otherwise the repository value, rewritten |
| MergePipeline.AlignAccessLabels | src/merge_source_csvs.py:414-422 | `Closed access`, `Gold open access` and `Open access` become `Limited Access`, `Gold Open Access` and `Open Access` |
| MergePipeline.AccessLabelsWithoutA | src/util.py:60-73 | no Unpaywall label contains a lowercase `a`, so the rewrites cannot touch it |
| MergePipeline.WithoutLowercaseA | src/merge_source_csvs.py:414-422 | a text without a lowercase `a` passes the three access rewrites unchanged |
| MergePipeline.AlignAttribution | src/merge_source_csvs.py:401-403 | `Attribution 4.0` becomes `CC-BY-4.0` |
| MergePipeline.PdfColumn | src/merge_source_csvs.py:429 | the PDF column is `pdf_exists` of the DOI |
| MergePipeline.DateColumn | src/merge_source_csvs.py:434 | the date pass, when it does not raise, gives every row a publication date |
| MergePipeline.AbstractColumn | src/merge_source_csvs.py:439 | the abstract pass keeps identity and PDF |
| MergePipeline.CountriesColumn | src/merge_source_csvs.py:443 | the country pass keeps identity and PDF |
| MergePipeline.First4 | src/merge_source_csvs.py:446 | the year is a prefix of the date of at most four characters, exactly four when the date is long enough |
| MergePipeline.Shape | src/merge_source_csvs.py:445-480 | the output row has only the kept columns, each with its renamed value |
| MergePipeline.RunPipeline | src/merge_source_csvs.py:317-480 | the stage-by-stage reassignment of the frame computes `Pipeline` |
| MergePipeline.EnrichedRows | src/merge_source_csvs.py:396-443 | the enrichment passes keep the number of rows, each row's identity, and set the PDF column from the DOI |
| MergePipeline.KeptDistinctDois | src/merge_source_csvs.py:317-373 | no two kept rows share a DOI |
| MergePipeline.KeptDistinctTitles | src/merge_source_csvs.py:337-373 | no two kept rows share a title |
| MergePipeline.KeptNotListed | src/merge_source_csvs.py:362-373 | no kept row has a listed DOI or link |
| MergePipeline.PipelineProperties | src/merge_source_csvs.py:317-554 | every final row has a looked-up DOI, no listed DOI or link, no DOI or title twice, and lacks its PDF exactly when the file is not on disk; the missing-DOI rows lack a DOI; between them they hold as many rows as were kept |
| MergePipeline.PartitionProperties | src/merge_source_csvs.py:491-544 | each DOI-list output is an order-preserving subsequence holding exactly the rows whose DOI is in the list |
| Harvest.Present | src/harvest_cimmyt.py:101-111 | the position of the first field of a fallback chain the item has; every earlier field is absent |
| Harvest.FirstOf | src/harvest_cimmyt.py:101-111 | the first value of the first field present in the chain, or `""` when none is |
| Harvest.FirstOfOne | src/harvest_cgspace.py:117-120 | a single field gives its first value, or `""` when the item lacks it |
| Harvest.FirstOfSkips | src/harvest_cimmyt.py:144-150 | a later field is consulted only when the earlier one is absent |
| Harvest.AppendAll | src/harvest_cgspace.py:96-101 | the append loop yields all values in order |
| Harvest.AppendNew | src/harvest_cgspace.py:196-201 | the append-if-not-seen loop continues the deduplication of the values seen so far |
| Harvest.DistinctLowerProperties | src/harvest_cgspace.py:183-189 | the subject loop yields distinct lowercase tokens, exactly the lowercased values, in first-occurrence order |
| Harvest.DistinctValuesProperties | src/harvest_cgspace.py:196-202 | the country loop yields distinct values, exactly the input values, in first-occurrence order |
| CGSpace.Item | src/harvest_cgspace.py:92-227 | the row raises exactly when the item has no `dc.title` |
| CGSpace.ItemRow | src/harvest_cgspace.py:92-227 | the loop body with its append loops computes `Item` |
| CGSpace.ItemFirstValues | src/harvest_cgspace.py:94-194 | the title is the first `dc.title` value; each single-valued column is its field's first value or `""` |
| CGSpace.ItemLists | src/harvest_cgspace.py:96-202 | authors, affiliations and funders join all values in order; subjects and countries join deduplicated lists of their values |
| CGSpace.WrittenColumns | src/harvest_cgspace.py:65-227 | the written row has exactly the 20 declared columns |
| MELSpace.Item | src/harvest_melspace.py:84-225 | the row raises exactly when the item has no `dc.title` |
| MELSpace.ItemRow | src/harvest_melspace.py:84-225 | the loop body with its append loops computes `Item` |
| MELSpace.ItemFirstValues | src/harvest_melspace.py:86-201 | the title is the first `dc.title` value; each single-valued column is its field's first value or `""` |
| MELSpace.ItemLists | src/harvest_melspace.py:90-196 | authors are the `dc.creator` values then the `dc.contributor` values; subjects are deduplicated across AGROVOC terms then other subjects |
| MELSpace.WrittenColumns | src/harvest_melspace.py:58-225 | the written row has exactly the 19 declared columns, with no Countries |
| CIMMYT.Item | src/harvest_cimmyt.py:80-210 | the row raises exactly when the item has no `dc.title` |
| CIMMYT.ItemRow | src/harvest_cimmyt.py:80-210 | the loop body with its append loops computes `Item` |
| CIMMYT.ItemFirstValues | src/harvest_cimmyt.py:82-155 | the title is the first `dc.title` value; each single-valued column is its field's first value or `""` |
| CIMMYT.ItemAbstract | src/harvest_cimmyt.py:101-111 | the abstract falls back `dc.description`, `dc.description.abstract`, `dcterms.description`, `""` |
| CIMMYT.ItemPublisherLanguage | src/harvest_cimmyt.py:144-191 | publisher falls back `dc.publisher`, `dcterms.publisher`, `""`; language `dc.language`, `dcterms.language`, `""` |
| CIMMYT.ItemLink | src/harvest_cimmyt.py:117-127 | a link that starts with the plain-HTTP handle prefix, and holds it nowhere else, becomes the HTTPS one; a link without the plain-HTTP handle is unchanged; a missing link gives the empty text |
| CIMMYT.SecureHandleOfHttp | src/harvest_cimmyt.py:120-125 | `http://hdl.handle.net` becomes `https://hdl.handle.net` |
| CIMMYT.SecureHandleElsewhere | src/harvest_cimmyt.py:120-125 | a link without it is unchanged |
| CIMMYT.ItemLists | src/harvest_cimmyt.py:84-179 | authors and funders join all values; subjects are deduplicated across AGROVOC terms then keywords; countries are deduplicated |
| CIMMYT.WrittenColumns | src/harvest_cimmyt.py:59-210 | the written row has exactly the 14 declared columns |
| IFPRI.DigitRun | src/harvest_ifpri.py:113 | `\d+` matches the longest run of digits |
| IFPRI.FunderIdAt | src/harvest_ifpri.py:112-114 | a match of the funder-registry pattern starts with the registry prefix, its `.` matching any character, and extends past it |
| IFPRI.FunderIdRemoved | src/harvest_ifpri.py:111-114 | a registry identifier followed by a space is removed from the funders |
| IFPRI.FunderNameKept | src/harvest_ifpri.py:111-114 | funders without an `h` are unchanged |
| IFPRI.FunderOfRegistryEntry | src/harvest_ifpri.py:111-114 | `http://dx.doi.org/10.13039/<digits> Name` becomes `Name` |
| IFPRI.DoiForms | src/harvest_ifpri.py:123-131 | a non-string gives `""`; the misfiled value gives the repaired DOI, unnormalised; every other string is normalised |
| IFPRI.Subjects | src/harvest_ifpri.py:168-200 | the subjects have no uppercase letter and do not end in `;` or a space |
| IFPRI.SubjectsOfStrings | src/harvest_ifpri.py:170-200 | string places and string topics are joined by `"; "`, lowercased |
| IFPRI.SubjectsOfDict | src/harvest_ifpri.py:175-200 | a dict of topics is appended with no separator |
| IFPRI.SubjectsWithoutSubjea | src/harvest_ifpri.py:175-200 | an empty dict of topics leaves the stripped, lowercased places |
| IFPRI.SubjectsWithoutPlaces | src/harvest_ifpri.py:170-200 | an empty dict of places leaves a leading `"; "` before the topics |
| IFPRI.CleanedOr | src/harvest_ifpri.py:147-166 | a string is cleaned, with no line break and no surrounding whitespace; any other value gives `""` |
| IFPRI.TextOr | src/harvest_ifpri.py:118-141 | a string is copied; any other value gives `""` |
| IFPRI.Item | src/harvest_ifpri.py:106-203 | the record raises exactly when a read key is missing or the title is not a string |
| IFPRI.ItemRowProperties | src/harvest_ifpri.py:107-143 | the title has no line break; the link is the collection page prefix followed by the pointer; the DOI is `""`, the repaired DOI, or behind the resolver |
| IFPRI.LinksDistinct | src/harvest_ifpri.py:143 | two pointers give two different links |
| IFPRI.WrittenColumns | src/harvest_ifpri.py:74-203 | the written row has exactly the 16 declared columns |
| IFPRI.HarvestedProperties | src/harvest_ifpri.py:97-203 | the harvest raises exactly when a fetched record fails; otherwise it writes at most one row per pointer, each the row of a fetched record |
| IFPRI.HarvestRecords | src/harvest_ifpri.py:97-203 | the loop over the pointers computes `Harvested` |
| ICRISAT.AuthorNamesMembers | src/icrisat_json_to_csv.py:32-46 | the names are exactly the `family, given` of the creators that have both parts |
| ICRISAT.CollectAuthors | src/icrisat_json_to_csv.py:32-46 | the author loop computes the deduplicated names |
| ICRISAT.AuthorsProperties | src/icrisat_json_to_csv.py:32-46 | authors are distinct, exactly the complete creators' names, in first-occurrence order |
| ICRISAT.CollectOnce | src/icrisat_json_to_csv.py:48-62 | the affiliation and funder loops join each value once; a missing key gives `""` |
| ICRISAT.Doi | src/icrisat_json_to_csv.py:69-84 | a DOI is always behind the resolver |
| ICRISAT.DoiSources | src/icrisat_json_to_csv.py:69-84 | a DOI exists exactly when `id_number` contains `http` or `10.` or `official_url` is non-empty, and `id_number` takes precedence |
| ICRISAT.Tokens | src/icrisat_json_to_csv.py:119-121 | no keyword token contains `,` or `;` |
| ICRISAT.CollectSubjects | src/icrisat_json_to_csv.py:115-126 | the keyword loop computes the cleaned tokens, each once; missing keywords give none |
| ICRISAT.KeywordSubjectsProperties | src/icrisat_json_to_csv.py:115-126 | keyword subjects are distinct, free of `,` and `;`, and exactly the cleaned lowercased tokens |
| ICRISAT.Tagged | src/icrisat_json_to_csv.py:136-140 | `climate change` is present exactly when it already was or `s2.8` is a subject code, appended at most once at the end |
| ICRISAT.SubjectsProperties | src/icrisat_json_to_csv.py:115-140 | the final subjects are distinct and free of `,` and `;` |
| ICRISAT.KeywordRewriteIdempotent | src/icrisat_json_to_csv.py:119 | the in-place `;` to `,` rewrite of the keywords gives the same text when repeated |
| ICRISAT.Export | src/icrisat_json_to_csv.py:26-158 | a record without subject codes is skipped (its `KeyError` is caught by the caller), and one with codes but without creators crashes |
| ICRISAT.ExportedRowProperties | src/icrisat_json_to_csv.py:26-158 | the title is missing exactly when the record's is; abstract, link, date, journal, ISSN and publisher pass through, missing or not; missing pages, affiliations or funders give `""`; the title has no line break; subjects are distinct and hold `climate change` exactly when the rule says |
| ICRISAT.ExportRow | src/icrisat_json_to_csv.py:26-158 | `export_row` with its loops computes `Export` |
| ICRISAT.StepOutcomes | src/icrisat_json_to_csv.py:193-221 | a record is written exactly when it is selected and has codes and creators, and crashes exactly when it is selected and has codes but no creators |
| ICRISAT.ConversionProperties | src/icrisat_json_to_csv.py:193-221 | the conversion crashes exactly when a selected record with codes lacks creators; otherwise it writes one row per converted record, each its `export_row` |
| ICRISAT.RunCrashesPrefix | src/icrisat_json_to_csv.py:193-221 | a crash ends the run whatever follows |
| ICRISAT.ConvertAll | src/icrisat_json_to_csv.py:193-221 | the main loop computes `Run` |
| LegacyDSpace.ValuesMembers | src/harvest_dspace.py:150-154 | the values of a field are exactly those of the entries whose key is that field |
| LegacyDSpace.ValuesConcat | src/harvest_dspace.py:150-154 | the values keep metadata order |
| LegacyDSpace.BuildRow | src/harvest_dspace.py:144-155 | the row has exactly the requested fields, each the `"; "` join of its values |
| LegacyDSpace.RowForProperties | src/harvest_dspace.py:144-155 | a field without entries gives `""`; a field with one value gives that value |
| LegacyDSpace.HandleOf | src/harvest_dspace.py:120-123 | taking the handle raises exactly when the location lacks `handle/` |
| LegacyDSpace.HandleAfterMark | src/harvest_dspace.py:120-123 | the handle is what follows the first `handle/` |
| LegacyDSpace.HandleBeforeSecondMark | src/harvest_dspace.py:120-123 | the handle ends before a second `handle/` |
| LegacyDSpace.SitemapProperties | src/harvest_dspace.py:110-157 | the sitemap walk raises exactly when a location lacks `handle/`; otherwise it writes one row per handle that answers as an item |
| LegacyDSpace.ParseSitemap | src/harvest_dspace.py:110-157 | the walk computes `SitemapHarvest` |
| LegacyDSpace.RowsProperties | src/harvest_dspace.py:125-231 | one row per reply that yields metadata, each with exactly the requested fields |
| LegacyDSpace.RoundThousands | src/harvest_dspace.py:182-183 | Python's `round(n, -3)` is a multiple of 1000 within 500 of `n` |
| LegacyDSpace.RoundingMissesItems | src/harvest_dspace.py:182-183 | 1234 rounds to 1000, below the count |
| LegacyDSpace.CeilThousands | src/harvest_dspace.py:182 | the intended rounding up is a multiple of 1000 in `[n, n + 1000)` |
| LegacyDSpace.CeilingCoversItems | src/harvest_dspace.py:182-185 | every offset below the count is below the rounded-up estimate |
| LegacyDSpace.Estimate | src/harvest_dspace.py:178-183 | the estimate raises exactly when there is no match of at least three digits, and otherwise is at least the count |
| LegacyDSpace.OffsetReplies | src/harvest_dspace.py:185-189 | one reply per offset below the estimate |
| LegacyDSpace.OffsetProperties | src/harvest_dspace.py:185-231 | the offset walk covers at least the reported count and writes one row per offset that yields an item |
| LegacyDSpace.IterateItems | src/harvest_dspace.py:166-231 | the walk computes `OffsetHarvest` |
| LegacyDSpace.TrimSnapshotSuffix | src/harvest_dspace.py:241-242 | stripping the characters of `-SNAPSHOT` from both ends removes the suffix from a version that neither starts nor ends with them |
| LegacyDSpace.AtLeastTotal | src/harvest_dspace.py:245 | any two releases are comparable |
| LegacyDSpace.AtLeastTransitive | src/harvest_dspace.py:245 | the release order is transitive |
| LegacyDSpace.AtLeastTrailingZero | src/harvest_dspace.py:245 | a trailing zero component does not change the order |
| LegacyDSpace.Dispatch | src/harvest_dspace.py:244-248 | the sitemap walk is chosen exactly for releases at least 5.10 |
| LegacyDSpace.DispatchMonotone | src/harvest_dspace.py:244-248 | a later release never falls back to the offset walk |
| LegacyDSpace.DispatchReleases | src/harvest_dspace.py:244-248 | 5.4 and 5.9 use offsets; 5.10 and 6.3 use the sitemap |

## Left out

- HTTP, caching and the environment:
  - the sessions and their cache, every `session.get`, the `EMAIL` variable, `detect_dspace_version`;
  - the pagination loops that collect items or record pointers (`harvest_cgspace.py`, `harvest_melspace.py`, `harvest_cimmyt.py`, and the `pager_start` loop of `harvest_ifpri.py`).
  - Replies are inputs: a `CrossrefReply`, an `UnpaywallReply`, a `Response` per pointer, a `HandleReply` per handle, an `OffsetReply` per offset.
- Files and serialisation:
  - CSV and JSON reading and writing, `minidom` parsing of sitemaps, logging, `tqdm`, argument parsing, signal handlers;
  - the model stops at the row values a writer receives.
  - Rows written before a run raises are not modelled: a run that raises is `Raises` as a whole.
- pandas:
  - data frames are sequences of `map<string, string>` rows, with an absent key for a missing value;
  - dtypes, pyarrow and categorical columns are not modelled.
- `pdf_exists`: whether the file exists is the parameter `onDisk`.
- `normalize_countries`: the `country_converter` table is the parameter `convert`; only the wrapper that drops `not found` and rejoins is modelled.
- Text handling:
  - lowercasing and uppercasing are ASCII only;
  - whitespace is the set of characters `str.isspace` accepts, which is what `str.strip()` removes;
  - `\d` is ASCII digits;
  - each regular expression is modelled as the specific match it performs, not by a general engine.
- Dates: `datetime.strptime` is modelled for the `%Y`, `%Y-%m` and `%Y-%m-%d` formats on four-digit years; locale and other formats are not modelled.
- `packaging.version`:
  - releases are sequences of integers compared component by component, with missing components counted as zero;
  - pre-release tags and parsing of other text are not modelled.
- Harvest.Metadata:
  - every field a DSpace 7 item lists is taken to have at least one value, as the REST API returns them;
  - an empty list would make `[0]` raise, and that is not modelled.
- IFPRI:
  - IFPRI.Item: record values are strings or CONTENTdm dicts (lists of keys); other JSON types are not modelled, and the pointer is taken as its decimal text.
  - `creato`, `langua` and `date` are copied as they come.
  - `type` is read but, like the other copied values, only its presence is checked.
- LegacyDSpace:
  - LegacyDSpace.ParseSitemap: one child sitemap is modelled; the outer loop over several child sitemaps repeats it.
  - The offset walk treats each offset's reply as one input. Whether the second request for the item's metadata succeeds is folded into that reply (`ItemFailed`).
  - `get_item_metadata` is not part of this model: the sitemap walk receives the metadata as part of the handle's reply.
- ICRISAT:
  - The in-place rewrite of `keywords` mutates the record before the selection tests read it again. Only idempotence (ICRISAT.KeywordRewriteIdempotent) and the unchanged outcome of the tests are modelled, not the mutation itself.
  - ICRISAT.Export: the joins of affiliation and funder values that are not strings are not modelled; values are strings.
- LegacyDSpace.IterateItems and the model as a whole use the corrected rounding of the estimate (see Findings). The as-written `round` is kept alongside as LegacyDSpace.EstimateAsWritten.
- Merge.Rename: where a frame holds both an old name and its new name, pandas keeps two columns under the new name; a row here keeps one, holding the renamed value.
- Merge.PrepareIrri uses the corrected semicolon rewrite (see Findings). The as-written rewrite is Merge.SpaceAfterSemicolonsAsWritten.

## Findings

| source | as written | input that shows it | evidently intended | confidence | as-written member | corrected member |
|---|---|---|---|---|---|---|
| src/merge_source_csvs.py:270 | `str.replace(r";[^ ]", "; ")` replaces the semicolon and the character after it | `"Sanchez, P.;Ali, J."` becomes `"Sanchez, P.; li, J."` | insert a space after a semicolon not followed by one, keeping the character | high; not executed | Merge.AsWrittenLosesCharacter | Merge.SpaceAfterSemicolonsKeepsCharacter |
| src/harvest_dspace.py:182-185 | `round(int(n), -3)` rounds to the nearest thousand, so offsets between the estimate and the count are never visited | a reported count of 1234 gives an estimate of 1000 (Python rounds half to even) | round up to the next thousand, as the comment says | high; not executed | LegacyDSpace.RoundingMissesItems | LegacyDSpace.CeilingCoversItems |
