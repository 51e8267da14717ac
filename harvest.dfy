/**
 * What the DSpace 7 harvesters (`harvest_cgspace.py`, `harvest_melspace.py`,
 * `harvest_cimmyt.py`) share: an item's metadata, the first value of a field
 * or of the first field present in a fallback chain, and the two append loops
 * that collect a field's values.
 */
module Harvest {
  import opened Text
  import opened Seqs

  /** Every field the REST API lists for an item has at least one entry. */
  predicate WellFormed(md: map<string, seq<string>>)
  {
    forall k :: k in md ==> |md[k]| > 0
  }

  /** An item's `metadata` object: field name to the `value`s of its entries, in order. */
  type Metadata = md: map<string, seq<string>> | WellFormed(md) witness map[]

  /** A CSV row: field name to the text written under it. */
  type CsvRow = map<string, string>

  const Separator := "; "

  /** The values of a field; an absent field (the `KeyError` the loops catch) has none. */
  function ValuesOf(md: Metadata, field: string): seq<string>
  {
    if field in md then md[field] else []
  }

  /** The position of the first field of `chain` that the item has, or `|chain|` when it has none. */
  function Present(md: Metadata, chain: seq<string>): (i: nat)
    ensures i <= |chain|
    ensures i < |chain| ==> chain[i] in md
    ensures forall j :: 0 <= j < i ==> chain[j] !in md
  {
    if |chain| == 0 || chain[0] in md then 0
    else
      var i := Present(md, chain[1..]);
      assert forall j :: 1 <= j < 1 + i ==> chain[j] == chain[1..][j - 1];
      1 + i
  }

  /**
   * Nested `try: ...[field][0]["value"] except KeyError:` blocks: the first
   * value of the first field of `chain` the item has, or `""` when it has none.
   */
  function FirstOf(md: Metadata, chain: seq<string>): (v: string)
    ensures Present(md, chain) < |chain| ==> v == md[chain[Present(md, chain)]][0]
    ensures Present(md, chain) == |chain| ==> v == ""
  {
    if |chain| == 0 then ""
    else if chain[0] in md then md[chain[0]][0]
    else FirstOf(md, chain[1..])
  }

  /** `v` is what a single-valued column holds: the field's first value, or `""` when the item lacks it. */
  predicate FirstValue(md: Metadata, field: string, v: string)
  {
    if field in md then v == md[field][0] else v == ""
  }

  /** A single field: its first value, or `""` when the item lacks it. */
  lemma FirstOfOne(md: Metadata, field: string)
    ensures FirstValue(md, field, FirstOf(md, [field]))
  {
    var i := Present(md, [field]);
    assert i < 1 ==> i == 0;
  }

  /** A later field of a chain is consulted only when every earlier one is absent. */
  lemma FirstOfSkips(md: Metadata, a: string, rest: seq<string>)
    ensures a in md ==> FirstOf(md, [a] + rest) == md[a][0]
    ensures a !in md ==> FirstOf(md, [a] + rest) == FirstOf(md, rest)
  {
    assert ([a] + rest)[1..] == rest;
  }

  /** `for v in values: r.append(v)`, continuing from `acc`. */
  method AppendAll(acc: seq<string>, vs: seq<string>) returns (r: seq<string>)
    ensures r == acc + vs
  {
    r := acc;
    for i := 0 to |vs|
      invariant r == acc + vs[..i]
    {
      assert vs[..i + 1] == vs[..i] + [vs[i]];
      r := r + [vs[i]];
    }
    assert vs[..|vs|] == vs;
  }

  /**
   * `for v in values: if v not in r: r.append(v)`, continuing from `acc`,
   * the list kept so far from the values `before`.
   */
  method AppendNew(acc: seq<string>, vs: seq<string>, ghost before: seq<string>) returns (r: seq<string>)
    requires acc == Dedup(before)
    ensures r == Dedup(before + vs)
  {
    r := acc;
    assert before + vs[..0] == before;
    for i := 0 to |vs|
      invariant r == Dedup(before + vs[..i])
    {
      var xs := before + vs[..i];
      assert before + vs[..i + 1] == xs + [vs[i]];
      assert (xs + [vs[i]])[..|xs|] == xs;
      KeysOfItself(xs);
      DedupSameValues(xs);
      if vs[i] !in r {
        r := r + [vs[i]];
      }
    }
    assert vs[..|vs|] == vs;
  }

  /** The lowercased values, each kept once, in the order of their first occurrence. */
  function DistinctLower(vs: seq<string>): seq<string>
  {
    Dedup(Map(vs, Lower))
  }

  /**
   * What the subject loops produce from the values `vs`: no token twice, no
   * uppercase letter, a token exactly for every value (two values differing
   * only in case give one), in the order of first occurrence.
   */
  ghost predicate SubjectList(d: seq<string>, vs: seq<string>)
  {
    && Distinct(d)
    && (forall t :: t in d ==> NoUpper(t))
    && (forall t :: t in d <==> exists i :: 0 <= i < |vs| && Lower(vs[i]) == t)
    && InFirstOccurrenceOrder(d, Map(vs, Lower))
  }

  /** What the country loops produce from the values `vs`: no value twice, the same values, in the order of first occurrence. */
  ghost predicate CountryList(d: seq<string>, vs: seq<string>)
  {
    Distinct(d) && (forall t :: t in d <==> t in vs) && InFirstOccurrenceOrder(d, vs)
  }

  lemma DistinctLowerProperties(vs: seq<string>)
    ensures SubjectList(DistinctLower(vs), vs)
  {
    var m := Map(vs, Lower);
    DedupDistinct(m);
    DedupSameValues(m);
    DedupFirstOccurrenceOrder(m);
    forall t | t in DistinctLower(vs)
      ensures NoUpper(t)
      ensures exists i :: 0 <= i < |vs| && Lower(vs[i]) == t
    {
      var i :| 0 <= i < |m| && m[i] == t;
    }
    forall t | exists i :: 0 <= i < |vs| && Lower(vs[i]) == t
      ensures t in DistinctLower(vs)
    {
      var i :| 0 <= i < |vs| && Lower(vs[i]) == t;
      assert m[i] == t;
    }
  }

  lemma DistinctValuesProperties(vs: seq<string>)
    ensures CountryList(Dedup(vs), vs)
  {
    DedupDistinct(vs);
    DedupSameValues(vs);
    DedupFirstOccurrenceOrder(vs);
  }
}
