/**
 * `harvest_dspace.py`: the generic harvester for the legacy (DSpace 5/6)
 * REST API. An item's metadata is a list of key/value entries; each
 * requested field becomes a column holding the values of the entries with
 * that key. Items are reached through the sitemap's handles (DSpace 5.10
 * and later) or by walking the `/items` offsets up to an estimate of their
 * number (older versions).
 */
module LegacyDSpace {
  import opened Wrappers
  import opened Text
  import opened Seqs

  /** One entry of an item's `metadata` list. */
  datatype Metadatum = Metadatum(key: string, value: string)

  /** A CSV row: requested field to the text written under it. */
  type Row = map<string, string>

  const Separator := "; "

  // ---------------------------------------------------------------- rows

  /** `[m["value"] for m in metadata if m["key"] == field]`. */
  function Values(md: seq<Metadatum>, field: string): seq<string>
  {
    if |md| == 0 then []
    else
      Values(md[..|md| - 1], field)
      + if md[|md| - 1].key == field then [md[|md| - 1].value] else []
  }

  /** A value is collected exactly when an entry pairs it with the field. */
  lemma {:induction false} ValuesMembers(md: seq<Metadatum>, field: string)
    ensures forall v :: v in Values(md, field) <==> Metadatum(field, v) in md
  {
    if |md| > 0 {
      var init := md[..|md| - 1];
      ValuesMembers(init, field);
      assert md == init + [md[|md| - 1]];
    }
  }

  /** The values of two lists of entries, one after the other, keep their order. */
  lemma {:induction false} ValuesConcat(a: seq<Metadatum>, b: seq<Metadatum>, field: string)
    ensures Values(a + b, field) == Values(a, field) + Values(b, field)
    decreases |b|
  {
    if |b| == 0 {
      assert a + b == a;
    } else {
      assert (a + b)[..|a + b| - 1] == a + b[..|b| - 1];
      ValuesConcat(a, b[..|b| - 1], field);
    }
  }

  /** The row of an item: every requested field, with its values joined by `"; "`. */
  function RowFor(md: seq<Metadatum>, fields: seq<string>): Row
  {
    map f | f in fields :: Join(Values(md, f), Separator)
  }

  /** The `for field in args.fields.split(",")` loop that fills the row. */
  method BuildRow(md: seq<Metadatum>, fields: seq<string>) returns (row: Row)
    ensures row.Keys == set f | f in fields
    ensures forall f :: f in row ==> row[f] == Join(Values(md, f), Separator)
  {
    row := map[];
    for i := 0 to |fields|
      invariant row.Keys == set f | f in fields[..i]
      invariant forall f :: f in row ==> row[f] == Join(Values(md, f), Separator)
    {
      assert fields[..i + 1] == fields[..i] + [fields[i]];
      row := row[fields[i] := Join(Values(md, fields[i]), Separator)];
    }
    assert fields[..|fields|] == fields;
  }

  /**
   * Every requested field is a column, so the CSV writer accepts the row;
   * a field without entries gets `""`, and one with a single entry its value.
   */
  lemma RowForProperties(md: seq<Metadatum>, fields: seq<string>, f: string)
    ensures RowFor(md, fields).Keys == set g | g in fields
    ensures f in fields && (forall v :: Metadatum(f, v) !in md) ==> RowFor(md, fields)[f] == ""
    ensures f in fields && |Values(md, f)| == 1 ==> RowFor(md, fields)[f] == Values(md, f)[0]
  {
    ValuesMembers(md, f);
    if Values(md, f) != [] {
      assert Values(md, f)[0] in Values(md, f);
    }
  }

  // ---------------------------------------------------------------- handles

  const HandleMark := "handle/"

  lemma HandleMarkLastCharUnique()
    ensures LastCharUnique(HandleMark)
  {
    assert HandleMark[..|HandleMark| - 1] == "handle";
  }

  /** `loc.split("handle/")[1]`: the `IndexError` of a location without the mark ends the run. */
  function HandleOf(loc: string): (r: Outcome<string>)
    ensures r.Raises? <==> !Contains(loc, HandleMark)
  {
    var parts := Split(loc, HandleMark);
    if |parts| >= 2 then
      var head := parts[0];
      assert loc == head + (HandleMark + Join(parts[1..], HandleMark));
      assert loc[|head|..] == HandleMark + Join(parts[1..], HandleMark);
      ContainsAt(loc, HandleMark, |head|);
      Returns(parts[1])
    else
      assert parts == [parts[0]];
      assert Join(parts, HandleMark) == parts[0];
      Raises
  }

  /** The handle is what follows the first mark ... */
  lemma HandleAfterMark(site: string, handle: string)
    requires !Contains(site, HandleMark) && !Contains(handle, HandleMark)
    ensures HandleOf(site + HandleMark + handle) == Returns(handle)
  {
    HandleMarkLastCharUnique();
    SplitFirstPiece(site, HandleMark, handle);
    SplitNoSeparator(handle, HandleMark);
  }

  /** ... and stops at a second one. */
  lemma HandleBeforeSecondMark(site: string, handle: string, rest: string)
    requires !Contains(site, HandleMark) && !Contains(handle, HandleMark)
    ensures HandleOf(site + HandleMark + handle + HandleMark + rest) == Returns(handle)
  {
    HandleMarkLastCharUnique();
    var tail := handle + HandleMark + rest;
    assert site + HandleMark + handle + HandleMark + rest == site + HandleMark + tail;
    SplitFirstPiece(site, HandleMark, tail);
    SplitFirstPiece(handle, HandleMark, rest);
  }

  // ---------------------------------------------------------------- the two walks

  /**
   * The rows written for the replies in order: a reply that yields an
   * item's metadata gives one row, any other is skipped.
   */
  function Rows<R>(replies: seq<R>, item: R -> Option<seq<Metadatum>>, fields: seq<string>): seq<Row>
  {
    if |replies| == 0 then []
    else
      Rows(replies[..|replies| - 1], item, fields)
      + match item(replies[|replies| - 1]) case Some(md) => [RowFor(md, fields)] case None => []
  }

  /** The loop body shared by both walks: skip, or build and write the row. */
  method WriteRows<R>(replies: seq<R>, item: R -> Option<seq<Metadatum>>, fields: seq<string>)
    returns (rows: seq<Row>)
    ensures rows == Rows(replies, item, fields)
  {
    rows := [];
    for i := 0 to |replies|
      invariant rows == Rows(replies[..i], item, fields)
    {
      assert replies[..i + 1][..i] == replies[..i];
      match item(replies[i])
      case None =>
      case Some(md) =>
        var row := BuildRow(md, fields);
        assert row == RowFor(md, fields);
        rows := rows + [row];
    }
    assert replies[..|replies|] == replies;
  }

  /**
   * One row per reply that yields an item, in order (`p` says which), and
   * every row has exactly the requested columns.
   */
  lemma {:induction false} RowsProperties<R(!new)>(replies: seq<R>, item: R -> Option<seq<Metadatum>>,
                                                  fields: seq<string>, p: R -> bool)
    requires forall r :: item(r).Some? <==> p(r)
    ensures |Rows(replies, item, fields)| == |Filter(replies, p)|
    ensures forall row :: row in Rows(replies, item, fields) ==> row.Keys == set f | f in fields
  {
    if |replies| > 0 {
      RowsProperties(replies[..|replies| - 1], item, fields, p);
    }
  }

  /** The answer of `/rest/handle/<handle>`, with the item's metadata when it is one. */
  datatype HandleReply = HandleFailed | HandleFound(kind: string, metadata: seq<Metadatum>)

  /** A reply that is not OK, or that is a community or a collection, is skipped. */
  predicate IsItem(r: HandleReply)
  {
    r.HandleFound? && r.kind == "item"
  }

  function ItemOfHandle(r: HandleReply): Option<seq<Metadatum>>
  {
    if IsItem(r) then Some(r.metadata) else None
  }

  /**
   * `parse_sitemap` for one child sitemap: the handles of all its locations
   * (a location without a handle ends the run), then one lookup per handle.
   */
  function SitemapHarvest(locs: seq<string>, lookup: string -> HandleReply, fields: seq<string>): Outcome<seq<Row>>
  {
    match MapOutcome(locs, HandleOf)
    case Raises => Raises
    case Returns(handles) => Returns(Rows(Map(handles, lookup), ItemOfHandle, fields))
  }

  method ParseSitemap(locs: seq<string>, lookup: string -> HandleReply, fields: seq<string>)
    returns (r: Outcome<seq<Row>>)
    ensures r == SitemapHarvest(locs, lookup, fields)
  {
    var handles := ApplyEach(locs, HandleOf);
    if handles.Raises? {
      return Raises;
    }
    var rows := WriteRows(Map(handles.value, lookup), ItemOfHandle, fields);
    r := Returns(rows);
  }

  /**
   * The sitemap walk fails exactly when a location lacks `handle/`;
   * otherwise it writes one row per handle that resolves to an item.
   */
  lemma SitemapProperties(locs: seq<string>, lookup: string -> HandleReply, fields: seq<string>)
    ensures SitemapHarvest(locs, lookup, fields).Raises? <==>
              exists i :: 0 <= i < |locs| && !Contains(locs[i], HandleMark)
    ensures SitemapHarvest(locs, lookup, fields).Returns? ==>
              |SitemapHarvest(locs, lookup, fields).value| == |Filter(Map(MapOutcome(locs, HandleOf).value, lookup), IsItem)|
  {
    MapOutcomeFails(locs);
    if MapOutcome(locs, HandleOf).Returns? {
      RowsProperties(Map(MapOutcome(locs, HandleOf).value, lookup), ItemOfHandle, fields, IsItem);
    }
  }

  /** `HandleOf` over a list fails exactly when one location lacks the mark. */
  lemma {:induction false} MapOutcomeFails(locs: seq<string>)
    ensures MapOutcome(locs, HandleOf).Raises? <==> exists i :: 0 <= i < |locs| && !Contains(locs[i], HandleMark)
  {
    if |locs| > 0 {
      var init := locs[..|locs| - 1];
      MapOutcomeFails(init);
      assert forall i :: 0 <= i < |init| ==> init[i] == locs[i];
    }
  }

  // ---------------------------------------------------------------- the offset walk

  /** The two requests for one offset of `/rest/items`. */
  datatype OffsetReply = PageFailed | PageEmpty | ItemFailed | ItemFound(metadata: seq<Metadatum>)

  function ItemAtOffset(r: OffsetReply): Option<seq<Metadatum>>
  {
    if r.ItemFound? then Some(r.metadata) else None
  }

  predicate IsDigit(c: char) { '0' <= c <= '9' }

  predicate AllDigits(d: string) { forall i :: 0 <= i < |d| ==> IsDigit(d[i]) }

  /** The number a string of decimal digits denotes. */
  function DecimalValue(d: string): nat
    requires AllDigits(d)
  {
    if |d| == 0 then 0
    else DecimalValue(d[..|d| - 1]) * 10 + ((d[|d| - 1] as int) - ('0' as int))
  }

  /** `round(n, -3)`: to the nearest thousand, a tie to the even thousand. */
  function RoundThousands(n: nat): (r: nat)
    ensures r % 1000 == 0
    ensures n - 500 <= r <= n + 500
  {
    var q, rem := n / 1000, n % 1000;
    if rem > 500 || (rem == 500 && q % 2 == 1) then (q + 1) * 1000 else q * 1000
  }

  /** Up to the next thousand, as the comment above the rounding describes. */
  function CeilThousands(n: nat): (r: nat)
    ensures r % 1000 == 0
    ensures n <= r < n + 1000
  {
    if n % 1000 == 0 then n else (n / 1000 + 1) * 1000
  }

  /** As written, 1234 items give an estimate of 1000, so offsets 1000 to 1233 are never requested. */
  lemma RoundingMissesItems()
    ensures RoundThousands(1234) == 1000 < 1234
  {
  }

  /** Rounding up leaves out no offset below the count. */
  lemma CeilingCoversItems(n: nat, offset: nat)
    requires offset < n
    ensures offset < CeilThousands(n)
  {
  }

  /**
   * The estimate from the digits of `Now showing items 1-10 of <digits>`:
   * a page without that line, or with fewer than three digits (no match for
   * `\d{3,}`), ends the run.
   */
  function EstimateAsWritten(digits: Option<string>): Outcome<nat>
    requires digits.Some? ==> AllDigits(digits.value)
  {
    if digits.None? || |digits.value| < 3 then Raises
    else Returns(RoundThousands(DecimalValue(digits.value)))
  }

  /** The estimate rounded up, which the offset walk uses. */
  function Estimate(digits: Option<string>): (r: Outcome<nat>)
    requires digits.Some? ==> AllDigits(digits.value)
    ensures r.Raises? <==> digits.None? || |digits.value| < 3
    ensures r.Returns? ==> DecimalValue(digits.value) <= r.value
  {
    if digits.None? || |digits.value| < 3 then Raises
    else Returns(CeilThousands(DecimalValue(digits.value)))
  }

  /** The replies for the offsets `0` to `n - 1`. */
  function OffsetReplies(n: nat, fetch: nat -> OffsetReply): (rs: seq<OffsetReply>)
    ensures |rs| == n && forall i :: 0 <= i < n ==> rs[i] == fetch(i)
  {
    seq(n, i requires 0 <= i < n => fetch(i))
  }

  /** `iterate_items`: one reply per offset below the estimate. */
  function OffsetHarvest(digits: Option<string>, fetch: nat -> OffsetReply, fields: seq<string>): Outcome<seq<Row>>
    requires digits.Some? ==> AllDigits(digits.value)
  {
    match Estimate(digits)
    case Raises => Raises
    case Returns(n) => Returns(Rows(OffsetReplies(n, fetch), ItemAtOffset, fields))
  }

  method IterateItems(digits: Option<string>, fetch: nat -> OffsetReply, fields: seq<string>)
    returns (r: Outcome<seq<Row>>)
    requires digits.Some? ==> AllDigits(digits.value)
    ensures r == OffsetHarvest(digits, fetch, fields)
  {
    var estimate := Estimate(digits);
    if estimate.Raises? {
      return Raises;
    }
    var replies: seq<OffsetReply> := [];
    for offset := 0 to estimate.value
      invariant replies == OffsetReplies(offset, fetch)
    {
      replies := replies + [fetch(offset)];
    }
    var rows := WriteRows(replies, ItemAtOffset, fields);
    r := Returns(rows);
  }

  /**
   * Every offset below the count shown on the discovery page is requested,
   * and the walk writes one row per offset whose item could be read.
   */
  lemma OffsetProperties(digits: Option<string>, fetch: nat -> OffsetReply, fields: seq<string>)
    requires digits.Some? ==> AllDigits(digits.value)
    ensures OffsetHarvest(digits, fetch, fields).Returns? ==>
              var n := Estimate(digits).value;
              && DecimalValue(digits.value) <= n
              && |OffsetHarvest(digits, fetch, fields).value| == |Filter(OffsetReplies(n, fetch), IsItemFound)|
  {
    if Estimate(digits).Returns? {
      RowsProperties(OffsetReplies(Estimate(digits).value, fetch), ItemAtOffset, fields, IsItemFound);
    }
  }

  predicate IsItemFound(r: OffsetReply) { r.ItemFound? }

  // ---------------------------------------------------------------- version dispatch

  /** `strip("-SNAPSHOT")` strips any of these characters from both ends. */
  const SnapshotChars: set<char> := {'-', 'S', 'N', 'A', 'P', 'H', 'O', 'T'}

  function TrimSnapshot(v: string): string
  {
    Strip(v, SnapshotChars)
  }

  /** A `-SNAPSHOT` suffix is dropped from a version that begins and ends outside the set. */
  lemma TrimSnapshotSuffix(v: string)
    requires v != [] && v[0] !in SnapshotChars && v[|v| - 1] !in SnapshotChars
    ensures TrimSnapshot(v + "-SNAPSHOT") == v
  {
    var s := v + "-SNAPSHOT";
    assert LStrip(s, SnapshotChars) == s;
    assert forall i :: 0 <= i < |"-SNAPSHOT"| ==> "-SNAPSHOT"[i] in SnapshotChars;
    RStripTrailing(v, "-SNAPSHOT", SnapshotChars);
  }

  /** The release numbers of a version, compared as `packaging` does: missing parts count as 0. */
  function Head(v: seq<nat>): nat { if |v| > 0 then v[0] else 0 }
  function Tail(v: seq<nat>): seq<nat> { if |v| > 0 then v[1..] else [] }

  predicate AtLeast(v: seq<nat>, w: seq<nat>)
    decreases |v| + |w|
  {
    if |v| == 0 && |w| == 0 then true
    else Head(v) > Head(w) || (Head(v) == Head(w) && AtLeast(Tail(v), Tail(w)))
  }

  /** Any two versions are ordered one way or the other. */
  lemma {:induction false} AtLeastTotal(v: seq<nat>, w: seq<nat>)
    ensures AtLeast(v, w) || AtLeast(w, v)
    decreases |v| + |w|
  {
    if !(|v| == 0 && |w| == 0) && Head(v) == Head(w) {
      AtLeastTotal(Tail(v), Tail(w));
    }
  }

  lemma {:induction false} AtLeastTransitive(u: seq<nat>, v: seq<nat>, w: seq<nat>)
    requires AtLeast(u, v) && AtLeast(v, w)
    ensures AtLeast(u, w)
    decreases |u| + |v| + |w|
  {
    if !(|u| == 0 && |w| == 0) && Head(u) == Head(w) {
      if |v| == 0 && |w| == 0 {
        AtLeastZeros(Tail(u), v);
      } else if |u| == 0 && |v| == 0 {
        AtLeastTransitive(Tail(u), Tail(v), Tail(w));
      } else {
        AtLeastTransitive(Tail(u), Tail(v), Tail(w));
      }
    }
  }

  lemma {:induction false} AtLeastZeros(u: seq<nat>, v: seq<nat>)
    requires |v| == 0
    ensures AtLeast(u, v)
    decreases |u|
  {
    if |u| > 0 && Head(u) == 0 {
      AtLeastZeros(Tail(u), v);
    }
  }

  /** A trailing `.0` changes nothing: `5.10.0` and `5.10` compare alike. */
  lemma {:induction false} AtLeastTrailingZero(v: seq<nat>, w: seq<nat>)
    ensures AtLeast(v + [0], w) <==> AtLeast(v, w)
    decreases |v| + |w|
  {
    if |v| == 0 {
      assert Tail([0]) == [];
      if |w| > 0 {
        AtLeastTrailingZero([], Tail(w));
      }
    } else {
      assert Tail(v + [0]) == Tail(v) + [0];
      AtLeastTrailingZero(Tail(v), Tail(w));
    }
  }

  datatype Walk = SitemapWalk | OffsetWalk

  const SitemapSince: seq<nat> := [5, 10]

  /** DSpace 5.10 and later have the `/rest/handle` endpoint and are walked through the sitemap. */
  function Dispatch(release: seq<nat>): (w: Walk)
    ensures w == SitemapWalk <==> AtLeast(release, SitemapSince)
  {
    if AtLeast(release, SitemapSince) then SitemapWalk else OffsetWalk
  }

  /** A later release than one walked through the sitemap is walked the same way. */
  lemma DispatchMonotone(v: seq<nat>, w: seq<nat>)
    requires Dispatch(v) == SitemapWalk && AtLeast(w, v)
    ensures Dispatch(w) == SitemapWalk
  {
    AtLeastTransitive(w, v, SitemapSince);
  }

  /** 5.4 and 5.9 walk the offsets; 5.10 and 6.3 the sitemap (numbers, not text, are compared). */
  lemma DispatchReleases()
    ensures Dispatch([5, 4]) == OffsetWalk && Dispatch([5, 9]) == OffsetWalk
    ensures Dispatch([5, 10]) == SitemapWalk && Dispatch([6, 3]) == SitemapWalk
  {
    assert Tail([5, 4]) == [4] && Tail([5, 9]) == [9] && Tail([5, 10]) == [10] && Tail(SitemapSince) == [10];
  }
}
