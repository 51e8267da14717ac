/**
 * The decisions `get_license`, `get_access_rights` and `filter_abstracts`
 * take once Crossref or Unpaywall has answered. The answers are inputs: the
 * HTTP requests themselves are not modelled.
 */
module Lookups {
  import opened Wrappers
  import opened Text

  /** Only DOIs of this form are looked up; any other value gives no answer. */
  const LookupPrefix: string := "https://doi.org/10."

  predicate Lookable(doi: Option<string>)
  {
    doi.Some? && StartsWith(doi.value, LookupPrefix)
  }

  // ================================================================ replies

  /** One entry of a Crossref work's `license` list; a missing key is `None`. */
  datatype LicenseEntry = LicenseEntry(contentVersion: Option<string>, url: Option<string>)

  /** The `message` of a Crossref work: its `license` list, if any, and whether it has an `abstract`. */
  datatype CrossrefWork = CrossrefWork(licenses: Option<seq<LicenseEntry>>, hasAbstract: bool)

  /** A Crossref reply: not OK (a DOI Crossref does not know), or a JSON body with or without `message`. */
  datatype CrossrefReply = CrossrefFailed | CrossrefOk(message: Option<CrossrefWork>)

  /** An Unpaywall reply: not OK, or `is_oa` and `oa_status` (`None` for JSON null). */
  datatype UnpaywallReply = UnpaywallFailed | UnpaywallOk(isOa: bool, oaStatus: Option<string>)

  // ================================================================ get_access_rights

  /**
   * `get_access_rights`: nothing for a DOI that is absent or not of the
   * looked-up form, or when Unpaywall does not answer; otherwise the kind of
   * open access Unpaywall reports, or `Limited Access`.
   */
  function AccessRights(doi: Option<string>, reply: UnpaywallReply): (r: Option<string>)
    ensures !Lookable(doi) || reply.UnpaywallFailed? ==> r.None?
    ensures Lookable(doi) && reply.UnpaywallOk? && !reply.isOa ==> r == Some("Limited Access")
    ensures Lookable(doi) && reply.UnpaywallOk? && reply.isOa
            ==> r.Some? && r.value != "Limited Access" && EndsWithOpenAccess(r.value)
  {
    if !Lookable(doi) then None
    else match reply
      case UnpaywallFailed => None
      case UnpaywallOk(isOa, status) =>
        if !isOa then Some("Limited Access")
        else Some(OpenAccessKind(status))
  }

  predicate EndsWithOpenAccess(s: string)
  {
    |s| >= 11 && s[|s| - 11..] == "Open Access"
  }

  const OpenAccess: string := "Open Access"

  lemma EndsWithOpenAccessOf(colour: string)
    ensures EndsWithOpenAccess(colour + OpenAccess)
  {
    assert (colour + OpenAccess)[|colour|..] == OpenAccess;
  }

  /** The name of an open-access status: the four Unpaywall colours by name, anything else plainly. */
  function OpenAccessKind(status: Option<string>): (r: string)
    ensures EndsWithOpenAccess(r)
  {
    var colour :=
      match status
      case Some("gold") => "Gold "
      case Some("green") => "Green "
      case Some("hybrid") => "Hybrid "
      case Some("bronze") => "Bronze "
      case _ => "";
    EndsWithOpenAccessOf(colour);
    colour + OpenAccess
  }

  predicate NamedColour(status: Option<string>)
  {
    status == Some("gold") || status == Some("green") || status == Some("hybrid") || status == Some("bronze")
  }

  /** Every status other than the four named colours gets the plain label. */
  lemma OpenAccessKindPlain(status: Option<string>)
    ensures !NamedColour(status) ==> OpenAccessKind(status) == OpenAccess
  {
  }

  /** The four named colours get their own label. */
  lemma OpenAccessKindNamed()
    ensures OpenAccessKind(Some("gold")) == "Gold " + OpenAccess
    ensures OpenAccessKind(Some("green")) == "Green " + OpenAccess
    ensures OpenAccessKind(Some("hybrid")) == "Hybrid " + OpenAccess
    ensures OpenAccessKind(Some("bronze")) == "Bronze " + OpenAccess
  {
  }



  // ================================================================ get_license: the table

  /**
   * The `content-version` to `URL` table the loop of `get_license` fills, a
   * later entry replacing an earlier one; `None` when an entry lacks one of
   * the two keys (the `KeyError` abandons the table).
   */
  function LicenseTable(entries: seq<LicenseEntry>): Option<map<string, string>>
  {
    if |entries| == 0 then Some(map[])
    else
      var e := entries[|entries| - 1];
      match LicenseTable(entries[..|entries| - 1])
      case None => None
      case Some(m) =>
        if e.contentVersion.None? || e.url.None? then None
        else Some(m[e.contentVersion.value := e.url.value])
  }

  predicate Complete(e: LicenseEntry) { e.contentVersion.Some? && e.url.Some? }

  /** The loop itself. */
  method CollectLicenses(entries: seq<LicenseEntry>) returns (table: Option<map<string, string>>)
    ensures table == LicenseTable(entries)
  {
    var m: map<string, string> := map[];
    for i := 0 to |entries|
      invariant LicenseTable(entries[..i]) == Some(m)
    {
      assert entries[..i + 1][..i] == entries[..i];
      var e := entries[i];
      if e.contentVersion.None? || e.url.None? {
        LicenseTableAbandoned(entries, i + 1);
        return None;
      }
      m := m[e.contentVersion.value := e.url.value];
    }
    assert entries[..|entries|] == entries;
    return Some(m);
  }

  /** Once an entry lacks a key, no longer prefix has a table. */
  lemma {:induction false} LicenseTableAbandoned(entries: seq<LicenseEntry>, n: nat)
    requires 0 < n <= |entries| && !Complete(entries[n - 1])
    ensures LicenseTable(entries) == None
    decreases |entries|
  {
    if n < |entries| {
      assert entries[..|entries| - 1][n - 1] == entries[n - 1];
      LicenseTableAbandoned(entries[..|entries| - 1], n);
    }
  }

  /** The table exists exactly when every entry has both keys. */
  lemma {:induction false} LicenseTableExists(entries: seq<LicenseEntry>)
    ensures LicenseTable(entries).Some? <==> forall i :: 0 <= i < |entries| ==> Complete(entries[i])
    decreases |entries|
  {
    if |entries| > 0 {
      var init := entries[..|entries| - 1];
      LicenseTableExists(init);
      assert forall i :: 0 <= i < |init| ==> init[i] == entries[i];
    }
  }

  /**
   * A version is in the table exactly when some entry has it, and its URL is
   * the one of the last entry with that version.
   */
  lemma {:induction false} LicenseTableLastWins(entries: seq<LicenseEntry>, v: string)
    requires LicenseTable(entries).Some?
    ensures v in LicenseTable(entries).value
        <==> exists i :: 0 <= i < |entries| && entries[i].contentVersion == Some(v)
    ensures forall i :: 0 <= i < |entries| && entries[i].contentVersion == Some(v)
              && (forall j :: i < j < |entries| ==> entries[j].contentVersion != Some(v))
              ==> entries[i].url.Some? && LicenseTable(entries).value[v] == entries[i].url.value
    decreases |entries|
  {
    if |entries| > 0 {
      var init := entries[..|entries| - 1];
      LicenseTableLastWins(init, v);
      assert forall i :: 0 <= i < |init| ==> init[i] == entries[i];
    }
  }

  // ================================================================ get_license: the choice

  /** The preferred licence: accepted manuscript, then version of record, then text mining, then unspecified. */
  function PreferredLicense(table: map<string, string>): (r: Option<string>)
    ensures r.Some? <==> "am" in table || "vor" in table || "tdm" in table || "unspecified" in table
    ensures r.Some? ==> r.value in table.Values
  {
    if "am" in table then Some(table["am"])
    else if "vor" in table then Some(table["vor"])
    else if "tdm" in table then Some(table["tdm"])
    else if "unspecified" in table then Some(table["unspecified"])
    else None
  }

  /** A version earlier in the preference order always beats a later one. */
  lemma PreferenceOrder(table: map<string, string>)
    ensures "am" in table ==> PreferredLicense(table) == Some(table["am"])
    ensures "am" !in table && "vor" in table ==> PreferredLicense(table) == Some(table["vor"])
    ensures "am" !in table && "vor" !in table && "tdm" in table ==> PreferredLicense(table) == Some(table["tdm"])
    ensures "am" !in table && "vor" !in table && "tdm" !in table && "unspecified" in table
            ==> PreferredLicense(table) == Some(table["unspecified"])
  {
  }

  // ================================================================ get_license: Creative Commons

  const Slash: set<char> := {'/'}

  /**
   * The identifier of a Creative Commons URL: `CC0-1.0` for the public-domain
   * dedication; otherwise the URL without `/legalcode`, `/deed.en_GB` and
   * trailing slashes goes to `CcFromPath`.
   */
  function CcIdentifier(url: string): (r: Outcome<string>)
    ensures r.Returns? ==> NoLower(r.value)
  {
    if Contains(url, "publicdomain/zero/1.0") then Returns("CC0-1.0")
    else CcFromPath(RStrip(ReplaceAll(ReplaceAll(url, "/legalcode", ""), "/deed.en_GB", ""), Slash))
  }

  /**
   * `CC-<type>-<version>` from the last two path segments, or, when the path
   * mentions `igo`, `CC-<type>-<version>-<variation>` from the last three,
   * uppercased; too few segments make the unpacking raise `ValueError`.
   */
  function CcFromPath(path: string): (r: Outcome<string>)
    ensures r.Returns? ==> NoLower(r.value) && StartsWith(r.value, "CC-")
    ensures r.Raises? <==> |Split(path, "/")| < (if Contains(path, "igo") then 3 else 2)
  {
    var parts := Split(path, "/");
    var n := |parts|;
    if !Contains(path, "igo") then
      if n < 2 then Raises
      else UpperCc("CC-" + parts[n - 2] + "-" + parts[n - 1])
    else
      if n < 3 then Raises
      else UpperCc("CC-" + parts[n - 3] + "-" + parts[n - 2] + "-" + parts[n - 1])
  }

  function UpperCc(s: string): (r: Outcome<string>)
    requires StartsWith(s, "CC-")
    ensures r.Returns? && NoLower(r.value) && StartsWith(r.value, "CC-")
  {
    var u := Upper(s);
    assert u[..3] == "CC-";
    Returns(u)
  }

  /** `…/<type>/<version>` gives `CC-<TYPE>-<VERSION>`. */
  lemma CcTypeAndVersion(a: string, t: string, v: string)
    requires '/' !in t && '/' !in v
    requires !Contains(a + "/" + t + "/" + v, "igo")
    ensures CcFromPath(a + "/" + t + "/" + v) == Returns(Upper("CC-" + t + "-" + v))
  {
    LastTwoSegments(a, t, v);
  }

  lemma LastTwoSegments(a: string, t: string, v: string)
    requires '/' !in t && '/' !in v
    ensures var parts := Split(a + "/" + t + "/" + v, "/");
            |parts| >= 2 && parts[|parts| - 2] == t && parts[|parts| - 1] == v
  {
    SplitLastPiece(a, '/', t);
    assert a + "/" + t + "/" + v == (a + "/" + t) + ['/'] + v;
    SplitLastPiece(a + "/" + t, '/', v);
  }

  /** `…/<type>/<version>/igo` gives `CC-<TYPE>-<VERSION>-IGO`. */
  lemma CcIgo(a: string, t: string, v: string, g: string)
    requires '/' !in t && '/' !in v && '/' !in g
    requires Contains(a + "/" + t + "/" + v + "/" + g, "igo")
    ensures CcFromPath(a + "/" + t + "/" + v + "/" + g) == Returns(Upper("CC-" + t + "-" + v + "-" + g))
  {
    LastTwoSegments(a, t, v);
    var b := a + "/" + t + "/" + v;
    assert b + "/" + g == b + ['/'] + g;
    SplitLastPiece(b, '/', g);
  }

  /** A path without any slash cannot be unpacked: the conversion raises. */
  lemma CcWithoutSegmentsRaises(path: string)
    requires '/' !in path
    ensures CcFromPath(path).Raises?
  {
    NotContainsByChar(path, "/", 0);
    SplitNoSeparator(path, "/");
  }

  /** The usual licence URL with a trailing slash: the slash is stripped before splitting. */
  lemma CcUrlWithTrailingSlash(a: string, t: string, v: string)
    requires '/' !in t && '/' !in v && |v| > 0
    requires !Contains(a + "/" + t + "/" + v + "/", "publicdomain/zero/1.0")
    requires !Contains(a + "/" + t + "/" + v + "/", "/legalcode")
    requires !Contains(a + "/" + t + "/" + v + "/", "/deed.en_GB")
    requires !Contains(a + "/" + t + "/" + v, "igo")
    ensures CcIdentifier(a + "/" + t + "/" + v + "/") == Returns(Upper("CC-" + t + "-" + v))
  {
    var u := a + "/" + t + "/" + v;
    ReplaceAbsent(u + "/", "/legalcode", "");
    ReplaceAbsent(u + "/", "/deed.en_GB", "");
    assert u[|u| - 1] == v[|v| - 1];
    RStripTrailing(u, "/", Slash);
    CcTypeAndVersion(a, t, v);
  }

  // ================================================================ get_license: publishers

  const Copyrighted: string := "Copyrighted; all rights reserved"

  /** A publisher URL: its scheme, `https` or `http`, and what follows `://`. */
  datatype Url = Url(secure: bool, rest: string)
  {
    function Text(): string
    {
      (if secure then "https://" else "http://") + rest
    }

    /** The index of the scheme's colon. */
    function ColonAt(): nat
    {
      if secure then 5 else 4
    }
  }

  const ElsevierTdm: Url := Url(true, "www.else" + "vier.com" + "/tdm/use" + "rlicense" + "/1.0/")
  const SpringerTdmHttp: Url := Url(false, "www.spri" + "nger.com" + "/tdm")
  const WileyTerms: Url := Url(false, "onlineli" + "brary.wi" + "ley.com/" + "termsAnd" + "Conditio" + "ns#vor")
  const ElsevierOpenAccess: Url := Url(false, "www.else" + "vier.com" + "/open-ac" + "cess/use" + "rlicense" + "/1.0/")
  const SpringerTdm: Url := Url(true, "www.spri" + "nger.com" + "/tdm")
  const SpringerNatureTdm: Url := Url(true, "www.spri" + "ngernatu" + "re.com/g" + "p/resear" + "chers/te" + "xt-and-d" + "ata-mini" + "ng")
  const CambridgeTerms: Url := Url(true, "www.camb" + "ridge.or" + "g/core/t" + "erms")
  const OupReuse: Url := Url(true, "academic" + ".oup.com" + "/pages/s" + "tandard-" + "publicat" + "ion-reus" + "e-rights")
  const ElsevierTdmRep: Url := Url(true, "www.else" + "vier.com" + "/legal/t" + "dmrep-li" + "cense")
  const WileyTdm: Url := Url(false, "doi.wile" + "y.com/10" + ".1002/td" + "m_licens" + "e_1.1")

  /** The publisher URLs read as "all rights reserved", in the order they are replaced. */
  const PublisherUrls: seq<Url> := [
    ElsevierTdm, SpringerTdmHttp, WileyTerms, ElsevierOpenAccess,
    SpringerTdm, SpringerNatureTdm, CambridgeTerms,
    OupReuse, ElsevierTdmRep, WileyTdm]

  lemma ElsevierTdmColonFree()
    ensures ':' !in ElsevierTdm.rest
  {
    assert ':' !in "www.else";
    assert ':' !in "vier.com";
    assert ':' !in "/tdm/use";
    assert ':' !in "rlicense";
    assert ':' !in "/1.0/";
  }

  lemma SpringerTdmHttpColonFree()
    ensures ':' !in SpringerTdmHttp.rest
  {
    assert ':' !in "www.spri";
    assert ':' !in "nger.com";
    assert ':' !in "/tdm";
  }

  lemma WileyTermsColonFree()
    ensures ':' !in WileyTerms.rest
  {
    assert ':' !in "onlineli";
    assert ':' !in "brary.wi";
    assert ':' !in "ley.com/";
    assert ':' !in "termsAnd";
    assert ':' !in "Conditio";
    assert ':' !in "ns#vor";
  }

  lemma ElsevierOpenAccessColonFree()
    ensures ':' !in ElsevierOpenAccess.rest
  {
    assert ':' !in "www.else";
    assert ':' !in "vier.com";
    assert ':' !in "/open-ac";
    assert ':' !in "cess/use";
    assert ':' !in "rlicense";
    assert ':' !in "/1.0/";
  }

  lemma SpringerTdmColonFree()
    ensures ':' !in SpringerTdm.rest
  {
    assert ':' !in "www.spri";
    assert ':' !in "nger.com";
    assert ':' !in "/tdm";
  }

  lemma SpringerNatureTdmColonFree()
    ensures ':' !in SpringerNatureTdm.rest
  {
    assert ':' !in "www.spri";
    assert ':' !in "ngernatu";
    assert ':' !in "re.com/g";
    assert ':' !in "p/resear";
    assert ':' !in "chers/te";
    assert ':' !in "xt-and-d";
    assert ':' !in "ata-mini";
    assert ':' !in "ng";
  }

  lemma CambridgeTermsColonFree()
    ensures ':' !in CambridgeTerms.rest
  {
    assert ':' !in "www.camb";
    assert ':' !in "ridge.or";
    assert ':' !in "g/core/t";
    assert ':' !in "erms";
  }

  lemma OupReuseColonFree()
    ensures ':' !in OupReuse.rest
  {
    assert ':' !in "academic";
    assert ':' !in ".oup.com";
    assert ':' !in "/pages/s";
    assert ':' !in "tandard-";
    assert ':' !in "publicat";
    assert ':' !in "ion-reus";
    assert ':' !in "e-rights";
  }

  lemma ElsevierTdmRepColonFree()
    ensures ':' !in ElsevierTdmRep.rest
  {
    assert ':' !in "www.else";
    assert ':' !in "vier.com";
    assert ':' !in "/legal/t";
    assert ':' !in "dmrep-li";
    assert ':' !in "cense";
  }

  lemma WileyTdmColonFree()
    ensures ':' !in WileyTdm.rest
  {
    assert ':' !in "doi.wile";
    assert ':' !in "y.com/10";
    assert ':' !in ".1002/td";
    assert ':' !in "m_licens";
    assert ':' !in "e_1.1";
  }

  /** Each URL in turn replaced by `Copyrighted` wherever it occurs. */
  function ReplaceEach(s: string, urls: seq<Url>): string
    decreases |urls|
  {
    if |urls| == 0 then s
    else ReplaceEach(ReplaceAll(s, urls[0].Text(), Copyrighted), urls[1..])
  }

  /** The chain of `license.replace` calls on the publisher URLs. */
  function PublisherRewrites(s: string): string
  {
    ReplaceEach(s, PublisherUrls)
  }

  /** A URL starts with `h`; with no colon after the scheme, its only colon is the scheme's. */
  lemma SchemeColon(u: Url)
    requires ':' !in u.rest
    ensures u.Text()[0] == 'h' && u.Text()[u.ColonAt()] == ':'
    ensures forall i :: 0 <= i < |u.Text()| && u.Text()[i] == ':' ==> i == u.ColonAt()
  {
    var s := u.Text();
    var n := |s| - |u.rest|;
    assert forall i :: n <= i < |s| ==> s[i] == u.rest[i - n];
  }

  /** No URL occurs in `Copyrighted`, which has no colon. */
  lemma CopyrightedHasNoUrl(u: Url)
    ensures !Contains(Copyrighted, u.Text())
  {
    assert ':' !in Copyrighted;
    assert u.Text()[u.ColonAt()] == ':';
    NotContainsByChar(Copyrighted, u.Text(), u.ColonAt());
  }

  lemma PrefixCancel(x: string, r1: string, r2: string)
    requires StartsWith(x + r1, x + r2)
    ensures StartsWith(r1, r2)
  {
    forall i | 0 <= i < |r2|
      ensures r1[i] == r2[i]
    {
      assert (x + r1)[..|x + r2|][|x| + i] == (x + r2)[|x| + i];
    }
  }

  /**
   * One colon-free URL occurs in another only when both have the same scheme
   * and the rest of the second starts the rest of the first.
   */
  lemma UrlNotIn(a: Url, b: Url)
    requires ':' !in a.rest && ':' !in b.rest
    requires a.secure == b.secure ==> !StartsWith(a.rest, b.rest)
    ensures !Contains(a.Text(), b.Text())
  {
    SchemeColon(a);
    SchemeColon(b);
    var s, p := a.Text(), b.Text();
    if a.secure && !b.secure {
      assert s[1..][0] == 't';
      DiffersAt(s[1..], p, 0);
      assert s[a.ColonAt() - b.ColonAt()..] == s[1..];
    } else if a.secure == b.secure {
      if StartsWith(s, p) {
        PrefixCancel(if a.secure then "https://" else "http://", a.rest, b.rest);
      }
      assert s[a.ColonAt() - b.ColonAt()..] == s;
    }
    NoMatchAcrossColon(s, a.ColonAt(), p, b.ColonAt());
  }

  /** A text none of the URLs occurs in passes through unchanged. */
  lemma {:induction false} ReplaceEachAbsent(s: string, urls: seq<Url>)
    requires forall u :: u in urls ==> !Contains(s, u.Text())
    ensures ReplaceEach(s, urls) == s
    decreases |urls|
  {
    if |urls| > 0 {
      assert urls[0] in urls;
      ReplaceAbsent(s, urls[0].Text(), Copyrighted);
      assert forall u :: u in urls[1..] ==> u in urls;
      ReplaceEachAbsent(s, urls[1..]);
    }
  }

  /** A text equal to the `j`-th URL, in which no earlier URL occurs, becomes `Copyrighted`. */
  lemma {:induction false} ReplaceEachListed(s: string, urls: seq<Url>, j: nat)
    requires j < |urls| && urls[j].Text() == s
    requires forall i :: 0 <= i < j ==> !Contains(s, urls[i].Text())
    ensures ReplaceEach(s, urls) == Copyrighted
    decreases |urls|
  {
    var rest := urls[1..];
    if j == 0 {
      ReplaceWhole(s, Copyrighted);
      forall u | u in rest
        ensures !Contains(Copyrighted, u.Text())
      {
        CopyrightedHasNoUrl(u);
      }
      ReplaceEachAbsent(Copyrighted, rest);
    } else {
      ReplaceAbsent(s, urls[0].Text(), Copyrighted);
      assert forall i :: 0 <= i < j - 1 ==> rest[i] == urls[i + 1];
      ReplaceEachListed(s, rest, j - 1);
    }
  }

  lemma ReplaceWhole(s: string, r: string)
    requires |s| > 0
    ensures ReplaceAll(s, s, r) == r
  {
    ReplaceLeading(s, s, r);
    assert s[|s|..] == [];
  }

  /** `Copyrighted` does not mention `http`: it has no `tt`. */
  lemma CopyrightedHasNoHttp()
    ensures !Contains(Copyrighted, "http")
  {
    forall i | 0 <= i <= |Copyrighted|
      ensures !StartsWith(Copyrighted[i..], "http")
    {
      if i + 2 < |Copyrighted| {
        assert Copyrighted[i + 1] != 't' || Copyrighted[i + 2] != 't';
        assert Copyrighted[i..][1] == Copyrighted[i + 1] && Copyrighted[i..][2] == Copyrighted[i + 2];
        if Copyrighted[i + 1] != 't' {
          DiffersAt(Copyrighted[i..], "http", 1);
        } else {
          DiffersAt(Copyrighted[i..], "http", 2);
        }
      } else {
        DiffersAt(Copyrighted[i..], "http", 3);
      }
    }
    NotContainsNoStart(Copyrighted, "http");
  }

  // ================================================================ get_license

  /**
   * The body of the `try` block once Crossref has answered: the preferred
   * licence, converted when it is a Creative Commons URL; `Returns(None)`
   * when a key is missing (the `KeyError` is caught).
   */
  function CrossrefLicense(message: Option<CrossrefWork>): Outcome<Option<string>>
  {
    if message.None? || message.value.licenses.None? then Returns(None)
    else match LicenseTable(message.value.licenses.value)
      case None => Returns(None)
      case Some(table) => ConvertLicense(PreferredLicense(table))
  }

  function ConvertLicense(license: Option<string>): Outcome<Option<string>>
  {
    match license
    case None => Returns(None)
    case Some(l) =>
      if Contains(l, "creativecommons.org") then
        match CcIdentifier(l)
        case Raises => Raises
        case Returns(id) => Returns(Some(id))
      else Returns(Some(l))
  }

  /** The publisher rewrites, then anything still mentioning `http` is dropped. */
  function FinishLicense(license: Option<string>): (r: Option<string>)
    ensures r.Some? ==> !Contains(r.value, "http")
  {
    match license
    case None => None
    case Some(l) =>
      var w := PublisherRewrites(l);
      if Contains(w, "http") then None else Some(w)
  }

  /**
   * `get_license` on a DOI and the Crossref reply for it: no licence unless
   * the DOI is looked up and answered; otherwise the converted preferred
   * licence, which never mentions `http`. A Creative Commons URL with too few
   * segments makes the function raise.
   */
  function LicenseOf(doi: Option<string>, reply: CrossrefReply): (r: Outcome<Option<string>>)
    ensures !Lookable(doi) || reply.CrossrefFailed? ==> r == Returns(None)
    ensures r.Returns? && r.value.Some? ==> !Contains(r.value.value, "http")
  {
    if !Lookable(doi) then Returns(None)
    else match reply
      case CrossrefFailed => Returns(None)
      case CrossrefOk(message) =>
        match CrossrefLicense(message)
        case Raises => Raises
        case Returns(l) => Returns(FinishLicense(l))
  }

  /** `get_license` with its loop: it computes `LicenseOf`. */
  method GetLicense(doi: Option<string>, reply: CrossrefReply) returns (r: Outcome<Option<string>>)
    ensures r == LicenseOf(doi, reply)
  {
    if !Lookable(doi) || reply.CrossrefFailed? {
      return Returns(None);
    }
    var message := reply.message;
    if message.None? || message.value.licenses.None? {
      return Returns(FinishLicense(None));
    }
    var table := CollectLicenses(message.value.licenses.value);
    if table.None? {
      return Returns(FinishLicense(None));
    }
    var converted := ConvertLicense(PreferredLicense(table.value));
    if converted.Raises? {
      return Raises;
    }
    r := Returns(FinishLicense(converted.value));
  }

  /** A Creative Commons identifier passes the publisher rewrites and the `http` test unchanged. */
  lemma CcIdentifierKept(id: string)
    requires NoLower(id)
    ensures FinishLicense(Some(id)) == Some(id)
  {
    assert 'h' !in id by {
      forall i | 0 <= i < |id| ensures id[i] != 'h' { assert !IsLower(id[i]); }
    }
    forall u | u in PublisherUrls
      ensures !Contains(id, u.Text())
    {
      NotContainsByChar(id, u.Text(), 0);
    }
    ReplaceEachAbsent(id, PublisherUrls);
    NotContainsByChar(id, "http", 0);
  }

  /** A Creative Commons licence URL ends up as its identifier. */
  lemma LicenseOfCreativeCommons(license: string, id: string)
    requires Contains(license, "creativecommons.org") && CcIdentifier(license) == Returns(id)
    ensures ConvertLicense(Some(license)) == Returns(Some(id))
    ensures FinishLicense(Some(id)) == Some(id)
  {
    CcIdentifierKept(id);
  }

  lemma ElsevierTdmNotInSpringerTdmHttp()
    ensures !Contains(SpringerTdmHttp.Text(), ElsevierTdm.Text())
  {
    SpringerTdmHttpColonFree();
    ElsevierTdmColonFree();
    UrlNotIn(SpringerTdmHttp, ElsevierTdm);
  }

  /** No URL listed before `SpringerTdmHttp` occurs in it. */
  lemma EarlierUrlsAbsentFromSpringerTdmHttp()
    ensures forall i :: 0 <= i < 1 ==> !Contains(PublisherUrls[1].Text(), PublisherUrls[i].Text())
  {
    forall i | 0 <= i < 1
      ensures !Contains(PublisherUrls[1].Text(), PublisherUrls[i].Text())
    {
      ElsevierTdmNotInSpringerTdmHttp();
    }
  }

  lemma ElsevierTdmNotInWileyTerms()
    ensures !Contains(WileyTerms.Text(), ElsevierTdm.Text())
  {
    WileyTermsColonFree();
    ElsevierTdmColonFree();
    UrlNotIn(WileyTerms, ElsevierTdm);
  }

  lemma SpringerTdmHttpNotInWileyTerms()
    ensures !Contains(WileyTerms.Text(), SpringerTdmHttp.Text())
  {
    DiffersAt(WileyTerms.rest, SpringerTdmHttp.rest, 0);
    WileyTermsColonFree();
    SpringerTdmHttpColonFree();
    UrlNotIn(WileyTerms, SpringerTdmHttp);
  }

  /** No URL listed before `WileyTerms` occurs in it. */
  lemma EarlierUrlsAbsentFromWileyTerms()
    ensures forall i :: 0 <= i < 2 ==> !Contains(PublisherUrls[2].Text(), PublisherUrls[i].Text())
  {
    forall i | 0 <= i < 2
      ensures !Contains(PublisherUrls[2].Text(), PublisherUrls[i].Text())
    {
      if i == 0 { ElsevierTdmNotInWileyTerms(); }
      else { SpringerTdmHttpNotInWileyTerms(); }
    }
  }

  lemma ElsevierTdmNotInElsevierOpenAccess()
    ensures !Contains(ElsevierOpenAccess.Text(), ElsevierTdm.Text())
  {
    ElsevierOpenAccessColonFree();
    ElsevierTdmColonFree();
    UrlNotIn(ElsevierOpenAccess, ElsevierTdm);
  }

  lemma SpringerTdmHttpNotInElsevierOpenAccess()
    ensures !Contains(ElsevierOpenAccess.Text(), SpringerTdmHttp.Text())
  {
    DiffersAt(ElsevierOpenAccess.rest, SpringerTdmHttp.rest, 4);
    ElsevierOpenAccessColonFree();
    SpringerTdmHttpColonFree();
    UrlNotIn(ElsevierOpenAccess, SpringerTdmHttp);
  }

  lemma WileyTermsNotInElsevierOpenAccess()
    ensures !Contains(ElsevierOpenAccess.Text(), WileyTerms.Text())
  {
    ElsevierOpenAccessColonFree();
    WileyTermsColonFree();
    UrlNotIn(ElsevierOpenAccess, WileyTerms);
  }

  /** No URL listed before `ElsevierOpenAccess` occurs in it. */
  lemma EarlierUrlsAbsentFromElsevierOpenAccess()
    ensures forall i :: 0 <= i < 3 ==> !Contains(PublisherUrls[3].Text(), PublisherUrls[i].Text())
  {
    forall i | 0 <= i < 3
      ensures !Contains(PublisherUrls[3].Text(), PublisherUrls[i].Text())
    {
      if i == 0 { ElsevierTdmNotInElsevierOpenAccess(); }
      else if i == 1 { SpringerTdmHttpNotInElsevierOpenAccess(); }
      else { WileyTermsNotInElsevierOpenAccess(); }
    }
  }

  lemma ElsevierTdmNotInSpringerTdm()
    ensures !Contains(SpringerTdm.Text(), ElsevierTdm.Text())
  {
    SpringerTdmColonFree();
    ElsevierTdmColonFree();
    UrlNotIn(SpringerTdm, ElsevierTdm);
  }

  lemma SpringerTdmHttpNotInSpringerTdm()
    ensures !Contains(SpringerTdm.Text(), SpringerTdmHttp.Text())
  {
    SpringerTdmColonFree();
    SpringerTdmHttpColonFree();
    UrlNotIn(SpringerTdm, SpringerTdmHttp);
  }

  lemma WileyTermsNotInSpringerTdm()
    ensures !Contains(SpringerTdm.Text(), WileyTerms.Text())
  {
    SpringerTdmColonFree();
    WileyTermsColonFree();
    UrlNotIn(SpringerTdm, WileyTerms);
  }

  lemma ElsevierOpenAccessNotInSpringerTdm()
    ensures !Contains(SpringerTdm.Text(), ElsevierOpenAccess.Text())
  {
    SpringerTdmColonFree();
    ElsevierOpenAccessColonFree();
    UrlNotIn(SpringerTdm, ElsevierOpenAccess);
  }

  /** No URL listed before `SpringerTdm` occurs in it. */
  lemma EarlierUrlsAbsentFromSpringerTdm()
    ensures forall i :: 0 <= i < 4 ==> !Contains(PublisherUrls[4].Text(), PublisherUrls[i].Text())
  {
    forall i | 0 <= i < 4
      ensures !Contains(PublisherUrls[4].Text(), PublisherUrls[i].Text())
    {
      if i == 0 { ElsevierTdmNotInSpringerTdm(); }
      else if i == 1 { SpringerTdmHttpNotInSpringerTdm(); }
      else if i == 2 { WileyTermsNotInSpringerTdm(); }
      else { ElsevierOpenAccessNotInSpringerTdm(); }
    }
  }

  lemma ElsevierTdmNotInSpringerNatureTdm()
    ensures !Contains(SpringerNatureTdm.Text(), ElsevierTdm.Text())
  {
    DiffersAt(SpringerNatureTdm.rest, ElsevierTdm.rest, 4);
    SpringerNatureTdmColonFree();
    ElsevierTdmColonFree();
    UrlNotIn(SpringerNatureTdm, ElsevierTdm);
  }

  lemma SpringerTdmHttpNotInSpringerNatureTdm()
    ensures !Contains(SpringerNatureTdm.Text(), SpringerTdmHttp.Text())
  {
    SpringerNatureTdmColonFree();
    SpringerTdmHttpColonFree();
    UrlNotIn(SpringerNatureTdm, SpringerTdmHttp);
  }

  lemma WileyTermsNotInSpringerNatureTdm()
    ensures !Contains(SpringerNatureTdm.Text(), WileyTerms.Text())
  {
    SpringerNatureTdmColonFree();
    WileyTermsColonFree();
    UrlNotIn(SpringerNatureTdm, WileyTerms);
  }

  lemma ElsevierOpenAccessNotInSpringerNatureTdm()
    ensures !Contains(SpringerNatureTdm.Text(), ElsevierOpenAccess.Text())
  {
    SpringerNatureTdmColonFree();
    ElsevierOpenAccessColonFree();
    UrlNotIn(SpringerNatureTdm, ElsevierOpenAccess);
  }

  lemma SpringerTdmNotInSpringerNatureTdm()
    ensures !Contains(SpringerNatureTdm.Text(), SpringerTdm.Text())
  {
    DiffersAt(SpringerNatureTdm.rest, SpringerTdm.rest, 12);
    SpringerNatureTdmColonFree();
    SpringerTdmColonFree();
    UrlNotIn(SpringerNatureTdm, SpringerTdm);
  }

  /** No URL listed before `SpringerNatureTdm` occurs in it. */
  lemma EarlierUrlsAbsentFromSpringerNatureTdm()
    ensures forall i :: 0 <= i < 5 ==> !Contains(PublisherUrls[5].Text(), PublisherUrls[i].Text())
  {
    forall i | 0 <= i < 5
      ensures !Contains(PublisherUrls[5].Text(), PublisherUrls[i].Text())
    {
      if i == 0 { ElsevierTdmNotInSpringerNatureTdm(); }
      else if i == 1 { SpringerTdmHttpNotInSpringerNatureTdm(); }
      else if i == 2 { WileyTermsNotInSpringerNatureTdm(); }
      else if i == 3 { ElsevierOpenAccessNotInSpringerNatureTdm(); }
      else { SpringerTdmNotInSpringerNatureTdm(); }
    }
  }

  lemma ElsevierTdmNotInCambridgeTerms()
    ensures !Contains(CambridgeTerms.Text(), ElsevierTdm.Text())
  {
    CambridgeTermsColonFree();
    ElsevierTdmColonFree();
    UrlNotIn(CambridgeTerms, ElsevierTdm);
  }

  lemma SpringerTdmHttpNotInCambridgeTerms()
    ensures !Contains(CambridgeTerms.Text(), SpringerTdmHttp.Text())
  {
    CambridgeTermsColonFree();
    SpringerTdmHttpColonFree();
    UrlNotIn(CambridgeTerms, SpringerTdmHttp);
  }

  lemma WileyTermsNotInCambridgeTerms()
    ensures !Contains(CambridgeTerms.Text(), WileyTerms.Text())
  {
    CambridgeTermsColonFree();
    WileyTermsColonFree();
    UrlNotIn(CambridgeTerms, WileyTerms);
  }

  lemma ElsevierOpenAccessNotInCambridgeTerms()
    ensures !Contains(CambridgeTerms.Text(), ElsevierOpenAccess.Text())
  {
    CambridgeTermsColonFree();
    ElsevierOpenAccessColonFree();
    UrlNotIn(CambridgeTerms, ElsevierOpenAccess);
  }

  lemma SpringerTdmNotInCambridgeTerms()
    ensures !Contains(CambridgeTerms.Text(), SpringerTdm.Text())
  {
    DiffersAt(CambridgeTerms.rest, SpringerTdm.rest, 4);
    CambridgeTermsColonFree();
    SpringerTdmColonFree();
    UrlNotIn(CambridgeTerms, SpringerTdm);
  }

  lemma SpringerNatureTdmNotInCambridgeTerms()
    ensures !Contains(CambridgeTerms.Text(), SpringerNatureTdm.Text())
  {
    CambridgeTermsColonFree();
    SpringerNatureTdmColonFree();
    UrlNotIn(CambridgeTerms, SpringerNatureTdm);
  }

  /** No URL listed before `CambridgeTerms` occurs in it. */
  lemma EarlierUrlsAbsentFromCambridgeTerms()
    ensures forall i :: 0 <= i < 6 ==> !Contains(PublisherUrls[6].Text(), PublisherUrls[i].Text())
  {
    forall i | 0 <= i < 6
      ensures !Contains(PublisherUrls[6].Text(), PublisherUrls[i].Text())
    {
      if i == 0 { ElsevierTdmNotInCambridgeTerms(); }
      else if i == 1 { SpringerTdmHttpNotInCambridgeTerms(); }
      else if i == 2 { WileyTermsNotInCambridgeTerms(); }
      else if i == 3 { ElsevierOpenAccessNotInCambridgeTerms(); }
      else if i == 4 { SpringerTdmNotInCambridgeTerms(); }
      else { SpringerNatureTdmNotInCambridgeTerms(); }
    }
  }

  lemma ElsevierTdmNotInOupReuse()
    ensures !Contains(OupReuse.Text(), ElsevierTdm.Text())
  {
    DiffersAt(OupReuse.rest, ElsevierTdm.rest, 0);
    OupReuseColonFree();
    ElsevierTdmColonFree();
    UrlNotIn(OupReuse, ElsevierTdm);
  }

  lemma SpringerTdmHttpNotInOupReuse()
    ensures !Contains(OupReuse.Text(), SpringerTdmHttp.Text())
  {
    OupReuseColonFree();
    SpringerTdmHttpColonFree();
    UrlNotIn(OupReuse, SpringerTdmHttp);
  }

  lemma WileyTermsNotInOupReuse()
    ensures !Contains(OupReuse.Text(), WileyTerms.Text())
  {
    OupReuseColonFree();
    WileyTermsColonFree();
    UrlNotIn(OupReuse, WileyTerms);
  }

  lemma ElsevierOpenAccessNotInOupReuse()
    ensures !Contains(OupReuse.Text(), ElsevierOpenAccess.Text())
  {
    OupReuseColonFree();
    ElsevierOpenAccessColonFree();
    UrlNotIn(OupReuse, ElsevierOpenAccess);
  }

  lemma SpringerTdmNotInOupReuse()
    ensures !Contains(OupReuse.Text(), SpringerTdm.Text())
  {
    DiffersAt(OupReuse.rest, SpringerTdm.rest, 0);
    OupReuseColonFree();
    SpringerTdmColonFree();
    UrlNotIn(OupReuse, SpringerTdm);
  }

  lemma SpringerNatureTdmNotInOupReuse()
    ensures !Contains(OupReuse.Text(), SpringerNatureTdm.Text())
  {
    OupReuseColonFree();
    SpringerNatureTdmColonFree();
    UrlNotIn(OupReuse, SpringerNatureTdm);
  }

  lemma CambridgeTermsNotInOupReuse()
    ensures !Contains(OupReuse.Text(), CambridgeTerms.Text())
  {
    DiffersAt(OupReuse.rest, CambridgeTerms.rest, 0);
    OupReuseColonFree();
    CambridgeTermsColonFree();
    UrlNotIn(OupReuse, CambridgeTerms);
  }

  /** No URL listed before `OupReuse` occurs in it. */
  lemma EarlierUrlsAbsentFromOupReuse()
    ensures forall i :: 0 <= i < 7 ==> !Contains(PublisherUrls[7].Text(), PublisherUrls[i].Text())
  {
    forall i | 0 <= i < 7
      ensures !Contains(PublisherUrls[7].Text(), PublisherUrls[i].Text())
    {
      if i == 0 { ElsevierTdmNotInOupReuse(); }
      else if i == 1 { SpringerTdmHttpNotInOupReuse(); }
      else if i == 2 { WileyTermsNotInOupReuse(); }
      else if i == 3 { ElsevierOpenAccessNotInOupReuse(); }
      else if i == 4 { SpringerTdmNotInOupReuse(); }
      else if i == 5 { SpringerNatureTdmNotInOupReuse(); }
      else { CambridgeTermsNotInOupReuse(); }
    }
  }

  lemma ElsevierTdmNotInElsevierTdmRep()
    ensures !Contains(ElsevierTdmRep.Text(), ElsevierTdm.Text())
  {
    DiffersAt(ElsevierTdmRep.rest, ElsevierTdm.rest, 17);
    ElsevierTdmRepColonFree();
    ElsevierTdmColonFree();
    UrlNotIn(ElsevierTdmRep, ElsevierTdm);
  }

  lemma SpringerTdmHttpNotInElsevierTdmRep()
    ensures !Contains(ElsevierTdmRep.Text(), SpringerTdmHttp.Text())
  {
    ElsevierTdmRepColonFree();
    SpringerTdmHttpColonFree();
    UrlNotIn(ElsevierTdmRep, SpringerTdmHttp);
  }

  lemma WileyTermsNotInElsevierTdmRep()
    ensures !Contains(ElsevierTdmRep.Text(), WileyTerms.Text())
  {
    ElsevierTdmRepColonFree();
    WileyTermsColonFree();
    UrlNotIn(ElsevierTdmRep, WileyTerms);
  }

  lemma ElsevierOpenAccessNotInElsevierTdmRep()
    ensures !Contains(ElsevierTdmRep.Text(), ElsevierOpenAccess.Text())
  {
    ElsevierTdmRepColonFree();
    ElsevierOpenAccessColonFree();
    UrlNotIn(ElsevierTdmRep, ElsevierOpenAccess);
  }

  lemma SpringerTdmNotInElsevierTdmRep()
    ensures !Contains(ElsevierTdmRep.Text(), SpringerTdm.Text())
  {
    DiffersAt(ElsevierTdmRep.rest, SpringerTdm.rest, 4);
    ElsevierTdmRepColonFree();
    SpringerTdmColonFree();
    UrlNotIn(ElsevierTdmRep, SpringerTdm);
  }

  lemma SpringerNatureTdmNotInElsevierTdmRep()
    ensures !Contains(ElsevierTdmRep.Text(), SpringerNatureTdm.Text())
  {
    ElsevierTdmRepColonFree();
    SpringerNatureTdmColonFree();
    UrlNotIn(ElsevierTdmRep, SpringerNatureTdm);
  }

  lemma CambridgeTermsNotInElsevierTdmRep()
    ensures !Contains(ElsevierTdmRep.Text(), CambridgeTerms.Text())
  {
    DiffersAt(ElsevierTdmRep.rest, CambridgeTerms.rest, 4);
    ElsevierTdmRepColonFree();
    CambridgeTermsColonFree();
    UrlNotIn(ElsevierTdmRep, CambridgeTerms);
  }

  lemma OupReuseNotInElsevierTdmRep()
    ensures !Contains(ElsevierTdmRep.Text(), OupReuse.Text())
  {
    ElsevierTdmRepColonFree();
    OupReuseColonFree();
    UrlNotIn(ElsevierTdmRep, OupReuse);
  }

  /** No URL listed before `ElsevierTdmRep` occurs in it. */
  lemma EarlierUrlsAbsentFromElsevierTdmRep()
    ensures forall i :: 0 <= i < 8 ==> !Contains(PublisherUrls[8].Text(), PublisherUrls[i].Text())
  {
    forall i | 0 <= i < 8
      ensures !Contains(PublisherUrls[8].Text(), PublisherUrls[i].Text())
    {
      if i == 0 { ElsevierTdmNotInElsevierTdmRep(); }
      else if i == 1 { SpringerTdmHttpNotInElsevierTdmRep(); }
      else if i == 2 { WileyTermsNotInElsevierTdmRep(); }
      else if i == 3 { ElsevierOpenAccessNotInElsevierTdmRep(); }
      else if i == 4 { SpringerTdmNotInElsevierTdmRep(); }
      else if i == 5 { SpringerNatureTdmNotInElsevierTdmRep(); }
      else if i == 6 { CambridgeTermsNotInElsevierTdmRep(); }
      else { OupReuseNotInElsevierTdmRep(); }
    }
  }

  lemma ElsevierTdmNotInWileyTdm()
    ensures !Contains(WileyTdm.Text(), ElsevierTdm.Text())
  {
    WileyTdmColonFree();
    ElsevierTdmColonFree();
    UrlNotIn(WileyTdm, ElsevierTdm);
  }

  lemma SpringerTdmHttpNotInWileyTdm()
    ensures !Contains(WileyTdm.Text(), SpringerTdmHttp.Text())
  {
    DiffersAt(WileyTdm.rest, SpringerTdmHttp.rest, 0);
    WileyTdmColonFree();
    SpringerTdmHttpColonFree();
    UrlNotIn(WileyTdm, SpringerTdmHttp);
  }

  lemma WileyTermsNotInWileyTdm()
    ensures !Contains(WileyTdm.Text(), WileyTerms.Text())
  {
    WileyTdmColonFree();
    WileyTermsColonFree();
    UrlNotIn(WileyTdm, WileyTerms);
  }

  lemma ElsevierOpenAccessNotInWileyTdm()
    ensures !Contains(WileyTdm.Text(), ElsevierOpenAccess.Text())
  {
    WileyTdmColonFree();
    ElsevierOpenAccessColonFree();
    UrlNotIn(WileyTdm, ElsevierOpenAccess);
  }

  lemma SpringerTdmNotInWileyTdm()
    ensures !Contains(WileyTdm.Text(), SpringerTdm.Text())
  {
    WileyTdmColonFree();
    SpringerTdmColonFree();
    UrlNotIn(WileyTdm, SpringerTdm);
  }

  lemma SpringerNatureTdmNotInWileyTdm()
    ensures !Contains(WileyTdm.Text(), SpringerNatureTdm.Text())
  {
    WileyTdmColonFree();
    SpringerNatureTdmColonFree();
    UrlNotIn(WileyTdm, SpringerNatureTdm);
  }

  lemma CambridgeTermsNotInWileyTdm()
    ensures !Contains(WileyTdm.Text(), CambridgeTerms.Text())
  {
    WileyTdmColonFree();
    CambridgeTermsColonFree();
    UrlNotIn(WileyTdm, CambridgeTerms);
  }

  lemma OupReuseNotInWileyTdm()
    ensures !Contains(WileyTdm.Text(), OupReuse.Text())
  {
    WileyTdmColonFree();
    OupReuseColonFree();
    UrlNotIn(WileyTdm, OupReuse);
  }

  lemma ElsevierTdmRepNotInWileyTdm()
    ensures !Contains(WileyTdm.Text(), ElsevierTdmRep.Text())
  {
    WileyTdmColonFree();
    ElsevierTdmRepColonFree();
    UrlNotIn(WileyTdm, ElsevierTdmRep);
  }

  /** No URL listed before `WileyTdm` occurs in it. */
  lemma EarlierUrlsAbsentFromWileyTdm()
    ensures forall i :: 0 <= i < 9 ==> !Contains(PublisherUrls[9].Text(), PublisherUrls[i].Text())
  {
    forall i | 0 <= i < 9
      ensures !Contains(PublisherUrls[9].Text(), PublisherUrls[i].Text())
    {
      if i == 0 { ElsevierTdmNotInWileyTdm(); }
      else if i == 1 { SpringerTdmHttpNotInWileyTdm(); }
      else if i == 2 { WileyTermsNotInWileyTdm(); }
      else if i == 3 { ElsevierOpenAccessNotInWileyTdm(); }
      else if i == 4 { SpringerTdmNotInWileyTdm(); }
      else if i == 5 { SpringerNatureTdmNotInWileyTdm(); }
      else if i == 6 { CambridgeTermsNotInWileyTdm(); }
      else if i == 7 { OupReuseNotInWileyTdm(); }
      else { ElsevierTdmRepNotInWileyTdm(); }
    }
  }

  /** A listed URL in which no earlier listed URL occurs ends up as `Copyrighted`. */
  lemma ListedUrlCopyrighted(j: nat)
    requires j < |PublisherUrls|
    requires forall i :: 0 <= i < j ==> !Contains(PublisherUrls[j].Text(), PublisherUrls[i].Text())
    ensures FinishLicense(Some(PublisherUrls[j].Text())) == Some(Copyrighted)
  {
    ReplaceEachListed(PublisherUrls[j].Text(), PublisherUrls, j);
    CopyrightedHasNoHttp();
  }

  /** Every listed publisher URL ends up as `Copyrighted; all rights reserved`. */
  lemma PublisherUrlsCopyrighted()
    ensures forall u :: u in PublisherUrls ==> FinishLicense(Some(u.Text())) == Some(Copyrighted)
  {
    forall j | 0 <= j < |PublisherUrls|
      ensures FinishLicense(Some(PublisherUrls[j].Text())) == Some(Copyrighted)
    {
      if j == 1 { EarlierUrlsAbsentFromSpringerTdmHttp(); }
      else if j == 2 { EarlierUrlsAbsentFromWileyTerms(); }
      else if j == 3 { EarlierUrlsAbsentFromElsevierOpenAccess(); }
      else if j == 4 { EarlierUrlsAbsentFromSpringerTdm(); }
      else if j == 5 { EarlierUrlsAbsentFromSpringerNatureTdm(); }
      else if j == 6 { EarlierUrlsAbsentFromCambridgeTerms(); }
      else if j == 7 { EarlierUrlsAbsentFromOupReuse(); }
      else if j == 8 { EarlierUrlsAbsentFromElsevierTdmRep(); }
      else if j == 9 { EarlierUrlsAbsentFromWileyTdm(); }
      ListedUrlCopyrighted(j);
    }
  }

  /** Any other URL that is not Creative Commons is dropped. */
  lemma OtherUrlDropped(license: string)
    requires Contains(license, "http")
    requires forall u :: u in PublisherUrls ==> !Contains(license, u.Text())
    ensures FinishLicense(Some(license)) == None
  {
    ReplaceEachAbsent(license, PublisherUrls);
  }

  // ================================================================ filter_abstracts

  /**
   * `filter_abstracts`: an abstract is kept when the usage rights are Creative
   * Commons (they contain `CC-`) or when Crossref holds the abstract for the
   * DOI; otherwise it is withheld.
   */
  function FilterAbstract(abstractText: Option<string>, usageRights: Option<string>, reply: CrossrefReply)
    : (r: Option<string>)
    ensures r.Some? ==> r == abstractText
    ensures abstractText.Some? && usageRights.Some? && Contains(usageRights.value, "CC-") ==> r == abstractText
    ensures r.Some? <==> (abstractText.Some?
                          && ((usageRights.Some? && Contains(usageRights.value, "CC-"))
                              || (reply.CrossrefOk? && reply.message.Some? && reply.message.value.hasAbstract)))
  {
    if abstractText.None? then None
    else if usageRights.Some? && Contains(usageRights.value, "CC-") then abstractText
    else match reply
      case CrossrefFailed => None
      case CrossrefOk(message) =>
        if message.Some? && message.value.hasAbstract then abstractText else None
  }

  /** `CC0-1.0` does not contain `CC-`: public-domain works keep their abstract only through Crossref. */
  lemma PublicDomainIsNotCcDash()
    ensures !Contains("CC0-1.0", "CC-")
  {
    var s := "CC0-1.0";
    forall i | 0 <= i <= |s|
      ensures !StartsWith(s[i..], "CC-")
    {
      if i + 2 < |s| {
        assert s[i..][2] == s[i + 2];
        if s[i + 2] != '-' {
          DiffersAt(s[i..], "CC-", 2);
        } else {
          assert i == 1;
          assert s[i..][1] == '0';
          DiffersAt(s[i..], "CC-", 1);
        }
      } else {
        DiffersAt(s[i..], "CC-", 2);
      }
    }
    NotContainsNoStart(s, "CC-");
  }
}
