/**
 * `merge_source_csvs.py`: the per-source fixes applied before the sources are
 * concatenated, the order of concatenation, and the pipeline that normalises,
 * de-duplicates, filters and partitions the merged rows.
 */
module Merge {
  import opened Wrappers
  import opened Text
  import opened Seqs
  import Util
  import Lookups
  import PublicationDates

  /** A row of a data frame: column name to value; a column without a key holds a missing value. */
  type Row = map<string, string>

  function Get(row: Row, column: string): (v: Option<string>)
    ensures v.Some? <==> column in row
  {
    if column in row then Some(row[column]) else None
  }

  /** Assign a column of one row; a missing value clears the column. */
  function Put(row: Row, column: string, value: Option<string>): (r: Row)
    ensures Get(r, column) == value
    ensures forall c :: c != column ==> Get(r, c) == Get(row, c)
  {
    match value
    case None => row - {column}
    case Some(v) => row[column := v]
  }

  // ================================================================ two columns through a placeholder

  /** The text missing values are filled with before two columns are joined. */
  const Placeholder: string := "MISSING DATA"

  /** The length of a match of `((;\s)?MISSING DATA(;\s)?)` at the start of `t`, 0 when none. */
  function PlaceholderMatch(t: string): (n: nat)
    ensures n == 0 || |Placeholder| <= n <= |t|
    ensures n > 0 ==> StartsWith(t, Placeholder) || (|t| >= 2 && StartsWith(t[2..], Placeholder))
  {
    var lead := if |t| >= 2 && t[0] == ';' && t[1] in Whitespace && StartsWith(t[2..], Placeholder) then 2 else 0;
    if lead == 0 && !StartsWith(t, Placeholder) then 0
    else
      var end := lead + |Placeholder|;
      if |t| >= end + 2 && t[end] == ';' && t[end + 1] in Whitespace then end + 2 else end
  }

  /**
   * Two columns joined through the placeholder: missing values become
   * `MISSING DATA`, the two are joined with `"; "`, and every occurrence of the
   * placeholder, with a `;` and a space before or after it, is removed.
   */
  function ConcatColumns(a: Option<string>, b: Option<string>): string
  {
    RegexSub(a.GetOr(Placeholder) + "; " + b.GetOr(Placeholder), PlaceholderMatch, "")
  }

  /** In a text without the placeholder the pattern matches nowhere. */
  lemma NoPlaceholderMatch(s: string)
    requires !Contains(s, Placeholder)
    ensures forall i :: 0 <= i < |s| ==> PlaceholderMatch(s[i..]) == 0
  {
    forall i | 0 <= i < |s|
      ensures PlaceholderMatch(s[i..]) == 0
    {
      if PlaceholderMatch(s[i..]) > 0 {
        if StartsWith(s[i..], Placeholder) {
          ContainsAt(s, Placeholder, i);
        } else {
          assert s[i..][2..] == s[i + 2..];
          ContainsAt(s, Placeholder, i + 2);
        }
      }
    }
  }

  /** The placeholder has no `;`, so it cannot start before a `"; "` and run into it. */
  lemma PlaceholderNotBefore(a: string, tail: string, p: nat)
    requires !Contains(a, Placeholder) && p < |a| + 2
    ensures !StartsWith((a + "; " + tail)[p..], Placeholder)
  {
    var w := a + "; " + tail;
    if p + |Placeholder| <= |a| {
      assert w[p..][..|Placeholder|] == a[p..][..|Placeholder|];
      if StartsWith(w[p..], Placeholder) {
        ContainsAt(a, Placeholder, p);
      }
    } else if p <= |a| {
      var k := |a| - p;
      assert w[p..][k] == w[|a|] == ';';
      assert ';' !in Placeholder;
      DiffersAt(w[p..], Placeholder, k);
    } else {
      assert w[p..][0] == w[|a| + 1] == ' ';
      DiffersAt(w[p..], Placeholder, 0);
    }
  }

  /** Before the separator, the placeholder pattern matches nowhere. */
  lemma NoMatchBeforeSeparator(a: string, tail: string)
    requires !Contains(a, Placeholder)
    ensures forall i :: 0 <= i < |a| ==> PlaceholderMatch((a + "; " + tail)[i..]) == 0
  {
    var w := a + "; " + tail;
    forall i | 0 <= i < |a|
      ensures PlaceholderMatch(w[i..]) == 0
    {
      PlaceholderNotBefore(a, tail, i);
      PlaceholderNotBefore(a, tail, i + 2);
      assert w[i..][2..] == w[i + 2..];
    }
  }

  lemma PlaceholderAlone()
    ensures PlaceholderMatch(Placeholder) == |Placeholder|
    ensures RegexSub(Placeholder, PlaceholderMatch, "") == ""
  {
    assert Placeholder[..|Placeholder|] == Placeholder;
    assert Placeholder[|Placeholder|..] == [];
  }

  /** The placeholder followed by `"; "` is removed in one match. */
  lemma PlaceholderFirst(b: string)
    ensures PlaceholderMatch(Placeholder + "; " + b) == |Placeholder| + 2
    ensures (Placeholder + "; " + b)[|Placeholder| + 2..] == b
  {
    var t := Placeholder + "; " + b;
    assert t[..|Placeholder|] == Placeholder;
  }

  /** `"; "` followed by the placeholder is removed in one match. */
  lemma PlaceholderLast()
    ensures PlaceholderMatch("; " + Placeholder) == |Placeholder| + 2
  {
    var t := "; " + Placeholder;
    assert t[2..] == Placeholder;
    assert t[2..][..|Placeholder|] == Placeholder;
  }

  /** At the separator itself the pattern matches only if the second value starts with the placeholder. */
  lemma NoMatchAtSeparator(b: string)
    requires !Contains(b, Placeholder)
    ensures PlaceholderMatch("; " + b) == 0
    ensures PlaceholderMatch(" " + b) == 0
  {
    assert ("; " + b)[2..] == b;
    assert !StartsWith(b, Placeholder);
    DiffersAt("; " + b, Placeholder, 0);
    DiffersAt(" " + b, Placeholder, 0);
  }

  lemma NoMatchThroughSeparator(a: string, b: string)
    requires !Contains(a, Placeholder) && !Contains(b, Placeholder)
    ensures forall i :: 0 <= i < |a + "; "| ==> PlaceholderMatch((a + "; " + b)[i..]) == 0
  {
    var w := a + "; " + b;
    NoMatchBeforeSeparator(a, b);
    NoMatchAtSeparator(b);
    forall i | |a| <= i < |a| + 2
      ensures PlaceholderMatch(w[i..]) == 0
    {
      if i == |a| {
        assert w[i..] == "; " + b;
      } else {
        assert w[i..] == " " + b;
      }
    }
  }

  lemma ConcatBothPresent(a: string, b: string)
    requires !Contains(a, Placeholder) && !Contains(b, Placeholder)
    ensures ConcatColumns(Some(a), Some(b)) == a + "; " + b
  {
    NoMatchThroughSeparator(a, b);
    RegexSubSkip(a + "; ", b, PlaceholderMatch, "");
    NoPlaceholderMatch(b);
    RegexSubNone(b, PlaceholderMatch, "");
  }

  lemma ConcatFirstMissing(b: string)
    requires !Contains(b, Placeholder)
    ensures ConcatColumns(None, Some(b)) == b
  {
    PlaceholderFirst(b);
    NoPlaceholderMatch(b);
    RegexSubNone(b, PlaceholderMatch, "");
  }

  lemma ConcatSecondMissing(a: string)
    requires !Contains(a, Placeholder)
    ensures ConcatColumns(Some(a), None) == a
  {
    NoMatchBeforeSeparator(a, Placeholder);
    assert a + "; " + Placeholder == a + ("; " + Placeholder);
    RegexSubSkip(a, "; " + Placeholder, PlaceholderMatch, "");
    PlaceholderLast();
    assert ("; " + Placeholder)[|Placeholder| + 2..] == [];
  }

  lemma ConcatBothMissing()
    ensures ConcatColumns(None, None) == ""
  {
    PlaceholderFirst(Placeholder);
    PlaceholderAlone();
  }

  /**
   * Joining two columns through the placeholder gives both values joined by
   * `"; "`, the one present value, or the empty text, provided neither value
   * itself contains the placeholder text.
   */
  lemma ConcatColumnsCases(a: Option<string>, b: Option<string>)
    requires a.Some? ==> !Contains(a.value, Placeholder)
    requires b.Some? ==> !Contains(b.value, Placeholder)
    ensures a.Some? && b.Some? ==> ConcatColumns(a, b) == a.value + "; " + b.value
    ensures a.Some? && b.None? ==> ConcatColumns(a, b) == a.value
    ensures a.None? && b.Some? ==> ConcatColumns(a, b) == b.value
    ensures a.None? && b.None? ==> ConcatColumns(a, b) == ""
  {
    match (a, b)
    case (Some(x), Some(y)) => ConcatBothPresent(x, y);
    case (Some(x), None) => ConcatSecondMissing(x);
    case (None, Some(y)) => ConcatFirstMissing(y);
    case (None, None) => ConcatBothMissing();
  }

  /** A value that does not itself hold the placeholder text (a missing value trivially). */
  predicate FreeOfPlaceholder(a: Option<string>)
  {
    a.None? || !Contains(a.value, Placeholder)
  }

  /** `v` is the join the placeholder trick aims at: both values, the present one, or nothing. */
  predicate JoinedColumns(v: string, a: Option<string>, b: Option<string>)
  {
    match (a, b)
    case (Some(x), Some(y)) => v == x + "; " + y
    case (Some(x), None) => v == x
    case (None, Some(y)) => v == y
    case (None, None) => v == ""
  }

  lemma ConcatColumnsJoins(a: Option<string>, b: Option<string>)
    ensures FreeOfPlaceholder(a) && FreeOfPlaceholder(b) ==> JoinedColumns(ConcatColumns(a, b), a, b)
  {
    if FreeOfPlaceholder(a) && FreeOfPlaceholder(b) {
      ConcatColumnsCases(a, b);
    }
  }

  // ================================================================ IRRI authors: a space after every semicolon

  /** The length of a match of `;[^ ]` at the start of `t`. */
  function SemicolonNoSpace(t: string): (n: nat)
    ensures n == 0 || n == 2
  {
    if |t| >= 2 && t[0] == ';' && t[1] != ' ' then 2 else 0
  }

  /**
   * The authors rewrite as the code has it: every match of `;[^ ]` becomes
   * `"; "`, so the character after the semicolon is replaced rather than
   * preceded by the space.
   */
  function SpaceAfterSemicolonsAsWritten(s: string): string
  {
    RegexSub(s, SemicolonNoSpace, "; ")
  }

  /** `"Sanchez, P.;Ali, J."` becomes `"Sanchez, P.; li, J."`: the `A` is lost. */
  lemma AsWrittenLosesCharacter(a: string, c: char, b: string)
    requires ';' !in a && ';' !in b && c != ' '
    ensures SpaceAfterSemicolonsAsWritten(a + ";" + [c] + b) == a + "; " + b
  {
    var y := ";" + [c] + b;
    assert a + ";" + [c] + b == a + y;
    forall i | 0 <= i < |a|
      ensures SemicolonNoSpace((a + y)[i..]) == 0
    {
      assert (a + y)[i..][0] == a[i];
    }
    RegexSubSkip(a, y, SemicolonNoSpace, "; ");
    assert y[2..] == b;
    forall i | 0 <= i < |b|
      ensures SemicolonNoSpace(b[i..]) == 0
    {
      assert b[i..][0] == b[i];
    }
    RegexSubNone(b, SemicolonNoSpace, "; ");
  }

  /** The intended rewrite: a space is inserted after every semicolon followed by something else than a space. */
  function SpaceAfterSemicolons(s: string): (r: string)
    ensures |r| >= |s|
    ensures |s| > 0 ==> r[0] == s[0]
    decreases |s|
  {
    if |s| == 0 then []
    else if SemicolonNoSpace(s) > 0 then "; " + SpaceAfterSemicolons(s[1..])
    else [s[0]] + SpaceAfterSemicolons(s[1..])
  }

  /** Every semicolon that is not the last character is followed by a space. */
  predicate SpacedAfterSemicolons(s: string)
  {
    forall i :: 0 <= i < |s| - 1 && s[i] == ';' ==> s[i + 1] == ' '
  }

  predicate NotSpace(c: char) { c != ' ' }

  lemma {:induction false} SpaceAfterSemicolonsSpaced(s: string)
    ensures SpacedAfterSemicolons(SpaceAfterSemicolons(s))
    decreases |s|
  {
    if |s| > 0 {
      var t := SpaceAfterSemicolons(s[1..]);
      SpaceAfterSemicolonsSpaced(s[1..]);
      var r := SpaceAfterSemicolons(s);
      if SemicolonNoSpace(s) > 0 {
        assert r == "; " + t;
        forall i | 2 <= i < |r| - 1 && r[i] == ';'
          ensures r[i + 1] == ' '
        {
          assert r[i] == t[i - 2] && r[i + 1] == t[i - 1];
        }
      } else {
        assert r == [s[0]] + t;
        forall i | 1 <= i < |r| - 1 && r[i] == ';'
          ensures r[i + 1] == ' '
        {
          assert r[i] == t[i - 1] && r[i + 1] == t[i];
        }
      }
    }
  }

  /** Only spaces are added: the text without its spaces is unchanged. */
  lemma {:induction false} SpaceAfterSemicolonsKeepsText(s: string)
    ensures Filter(SpaceAfterSemicolons(s), NotSpace) == Filter(s, NotSpace)
    decreases |s|
  {
    if |s| > 0 {
      var t := SpaceAfterSemicolons(s[1..]);
      SpaceAfterSemicolonsKeepsText(s[1..]);
      assert s == [s[0]] + s[1..];
      FilterConcat([s[0]], s[1..], NotSpace);
      if SemicolonNoSpace(s) > 0 {
        FilterSemicolonSpace();
        FilterConcat("; ", t, NotSpace);
        assert Filter([s[0]], NotSpace) == [';'];
      } else {
        FilterConcat([s[0]], t, NotSpace);
      }
    }
  }

  /** The inserted space is the only character filtered out. */
  lemma FilterSemicolonSpace()
    ensures Filter("; ", NotSpace) == ";"
  {
    assert "; "[..1] == ";";
    assert Filter(";", NotSpace) == ";" by {
      assert ";"[..0] == [];
    }
  }

  /** Text already spaced after its semicolons is left alone. */
  lemma {:induction false} SpacedUnchanged(s: string)
    requires SpacedAfterSemicolons(s)
    ensures SpaceAfterSemicolons(s) == s
    decreases |s|
  {
    if |s| > 0 {
      assert SpacedAfterSemicolons(s[1..]) by {
        forall i | 0 <= i < |s[1..]| - 1 && s[1..][i] == ';'
          ensures s[1..][i + 1] == ' '
        {
          assert s[i + 1] == ';';
        }
      }
      SpacedUnchanged(s[1..]);
      assert SemicolonNoSpace(s) == 0;
    }
  }

  lemma SpaceAfterSemicolonsIdempotent(s: string)
    ensures SpaceAfterSemicolons(SpaceAfterSemicolons(s)) == SpaceAfterSemicolons(s)
  {
    SpaceAfterSemicolonsSpaced(s);
    SpacedUnchanged(SpaceAfterSemicolons(s));
  }

  lemma {:induction false} SpaceAfterSemicolonsSkip(x: string, y: string)
    requires ';' !in x
    ensures SpaceAfterSemicolons(x + y) == x + SpaceAfterSemicolons(y)
    decreases |x|
  {
    if |x| > 0 {
      assert (x + y)[1..] == x[1..] + y;
      SpaceAfterSemicolonsSkip(x[1..], y);
    } else {
      assert x + y == y;
    }
  }

  /** On the input that loses a character above, the intended rewrite keeps it. */
  lemma SpaceAfterSemicolonsKeepsCharacter(a: string, c: char, b: string)
    requires ';' !in a && ';' !in b && c != ' ' && c != ';'
    ensures SpaceAfterSemicolons(a + ";" + [c] + b) == a + "; " + [c] + b
  {
    var y := ";" + [c] + b;
    assert a + ";" + [c] + b == a + y;
    SpaceAfterSemicolonsSkip(a, y);
    assert y[1..] == [c] + b;
    SpaceAfterSemicolonsSkip([c] + b, []);
    assert [c] + b + [] == [c] + b;
  }

  // ================================================================ IRRI subjects

  /** The length of a match of `\.?;` at the start of `t`. */
  function PeriodSemicolon(t: string): (n: nat)
    ensures n <= |t|
  {
    if |t| >= 2 && t[0] == '.' && t[1] == ';' then 2
    else if |t| >= 1 && t[0] == ';' then 1
    else 0
  }

  /** The length of a match of `\.$` at the start of `t`: `$` also matches before a final newline. */
  function FinalPeriod(t: string): (n: nat)
  {
    if t == "." || t == ".\n" then 1 else 0
  }

  /** IRRI subjects: `\.?;` becomes `"; "`, then a final `.` is removed. */
  function IrriSubjects(s: string): string
  {
    RegexSub(RegexSub(s, PeriodSemicolon, "; "), FinalPeriod, "")
  }

  /** Every semicolon, the last character included, is followed by a space. */
  predicate AllSemicolonsSpaced(s: string)
  {
    forall i :: 0 <= i < |s| && s[i] == ';' ==> i + 1 < |s| && s[i + 1] == ' '
  }

  /** After the first rewrite every semicolon is followed by a space. */
  lemma {:induction false} PeriodSemicolonSpaced(s: string)
    ensures AllSemicolonsSpaced(RegexSub(s, PeriodSemicolon, "; "))
    decreases |s|
  {
    if |s| > 0 {
      var r := RegexSub(s, PeriodSemicolon, "; ");
      var n := PeriodSemicolon(s);
      if n > 0 {
        var t := RegexSub(s[n..], PeriodSemicolon, "; ");
        PeriodSemicolonSpaced(s[n..]);
        assert r == "; " + t;
        forall i | 2 <= i < |r| && r[i] == ';'
          ensures i + 1 < |r| && r[i + 1] == ' '
        {
          assert r[i] == t[i - 2];
          assert t[i - 2] == ';';
          assert r[i + 1] == t[i - 1];
        }
      } else {
        var t := RegexSub(s[1..], PeriodSemicolon, "; ");
        PeriodSemicolonSpaced(s[1..]);
        assert r == [s[0]] + t;
        forall i | 1 <= i < |r| && r[i] == ';'
          ensures i + 1 < |r| && r[i + 1] == ' '
        {
          assert r[i] == t[i - 1];
          assert t[i - 1] == ';';
          assert r[i + 1] == t[i];
        }
      }
    }
  }

  /** A final period is removed, whatever comes before it. */
  lemma DropFinalPeriod(x: string)
    ensures RegexSub(x + ".", FinalPeriod, "") == x
  {
    forall i | 0 <= i < |x|
      ensures FinalPeriod((x + ".")[i..]) == 0
    {
      var t := (x + ".")[i..];
      assert |t| >= 2 && t[|t| - 1] == '.';
    }
    RegexSubSkip(x, ".", FinalPeriod, "");
    assert "."[1..] == [];
  }

  /** Without a period at its end (or before a final newline) the text is unchanged. */
  lemma KeepWithoutFinalPeriod(x: string)
    requires |x| == 0 || x[|x| - 1] != '.'
    requires |x| < 2 || x[|x| - 2] != '.' || x[|x| - 1] != '\n'
    ensures RegexSub(x, FinalPeriod, "") == x
  {
    forall i | 0 <= i < |x|
      ensures FinalPeriod(x[i..]) == 0
    {
      var t := x[i..];
      if |t| == 1 {
        assert t[0] == x[|x| - 1];
      } else if |t| == 2 {
        assert t[0] == x[|x| - 2] && t[1] == x[|x| - 1];
      }
    }
    RegexSubNone(x, FinalPeriod, "");
  }

  /** `"backcrossing.;climatic change."` becomes `"backcrossing; climatic change"`. */
  lemma IrriSubjectsJoin(a: string, b: string)
    requires ';' !in a && ';' !in b
    ensures IrriSubjects(a + ".;" + b + ".") == a + "; " + b
  {
    var y := ".;" + b + ".";
    assert a + ".;" + b + "." == a + y;
    forall i | 0 <= i < |a|
      ensures PeriodSemicolon((a + y)[i..]) == 0
    {
      var t := (a + y)[i..];
      assert t[0] == a[i];
      if i + 1 < |a| {
        assert t[1] == a[i + 1];
      } else {
        assert t[1] == '.';
      }
    }
    RegexSubSkip(a, y, PeriodSemicolon, "; ");
    assert y[2..] == b + ".";
    forall i | 0 <= i < |b + "."|
      ensures PeriodSemicolon((b + ".")[i..]) == 0
    {
      var t := (b + ".")[i..];
      assert t[0] == (b + ".")[i];
      if |t| >= 2 {
        assert t[1] == (b + ".")[i + 1];
      }
    }
    RegexSubNone(b + ".", PeriodSemicolon, "; ");
    assert a + ("; " + (b + ".")) == (a + "; " + b) + ".";
    DropFinalPeriod(a + "; " + b);
  }

  // ================================================================ CIFOR repository links

  /** CIFOR's handle pages; the handle resolver itself does not work for them. */
  const CiforHandles: string := "https://" + "data.cifor.org" + "/dspace/handle"

  /** `^#` replaced by the handle base: a link starting with `#` is completed, any other is kept. */
  function FixCiforLink(link: string): (r: string)
    ensures |r| > 0 ==> r[0] != '#'
    ensures |link| > 0 && link[0] == '#' ==> r == CiforHandles + link[1..]
    ensures |link| == 0 || link[0] != '#' ==> r == link
  {
    assert CiforHandles[0] == 'h';
    if |link| > 0 && link[0] == '#' then CiforHandles + link[1..] else link
  }

  lemma FixCiforLinkIdempotent(link: string)
    ensures FixCiforLink(FixCiforLink(link)) == FixCiforLink(link)
  {
  }

  // ================================================================ column renames

  /** One `old: new` entry of a `DataFrame.rename(columns=...)` mapping. */
  datatype Renaming = Renaming(from: string, to: string)

  /** The old names of a mapping. */
  function Froms(ns: seq<Renaming>): set<string>
    decreases |ns|
  {
    if |ns| == 0 then {} else Froms(ns[..|ns| - 1]) + {ns[|ns| - 1].from}
  }

  /** The new names of a mapping. */
  function Tos(ns: seq<Renaming>): set<string>
    decreases |ns|
  {
    if |ns| == 0 then {} else Tos(ns[..|ns| - 1]) + {ns[|ns| - 1].to}
  }

  /** Renaming one column: its value moves to the new name; a column the frame lacks is ignored. */
  function RenameColumn(row: Row, n: Renaming): Row
  {
    if n.from in row then (row - {n.from})[n.to := row[n.from]] else row
  }

  /** A rename mapping applied to one row, entry by entry. */
  function Rename(row: Row, ns: seq<Renaming>): Row
    decreases |ns|
  {
    if |ns| == 0 then row else RenameColumn(Rename(row, ns[..|ns| - 1]), ns[|ns| - 1])
  }

  /**
   * A mapping in which no two entries share an old or a new name and no new
   * name is the old name of another entry: applied entry by entry it then
   * acts as pandas' simultaneous rename does.
   */
  ghost predicate OneToOne(ns: seq<Renaming>)
  {
    forall i :: 0 <= i < |ns| ==> ApartAt(ns, i)
  }

  /** Entry `i` shares its old and its new name with no other entry, and its new name is no other entry's old name. */
  ghost predicate ApartAt(ns: seq<Renaming>, i: int)
    requires 0 <= i < |ns|
  {
    forall j :: 0 <= j < |ns| && i != j ==>
      ns[i].from != ns[j].from && ns[i].to != ns[j].to && ns[i].to != ns[j].from
  }

  /**
   * What an entry's new name holds after the rename: the value under the old
   * name, or, where the row has none, whatever the new name held before.
   */
  function Moved(row: Row, n: Renaming): Option<string>
  {
    if n.from in row then Get(row, n.from) else Get(row, n.to)
  }

  /** A column the mapping does not mention keeps its value; an old name that is no new name is gone. */
  lemma {:induction false} RenameKeeps(row: Row, ns: seq<Renaming>)
    ensures forall c :: c !in Froms(ns) && c !in Tos(ns) ==> Get(Rename(row, ns), c) == Get(row, c)
    ensures forall c :: c in Froms(ns) && c !in Tos(ns) ==> c !in Rename(row, ns)
    decreases |ns|
  {
    if |ns| > 0 {
      RenameKeeps(row, ns[..|ns| - 1]);
    }
  }

  /** Every name of a mapping, old or new, is in `Froms` or `Tos`. */
  lemma {:induction false} NamesListed(ns: seq<Renaming>)
    ensures forall i :: 0 <= i < |ns| ==> ns[i].from in Froms(ns) && ns[i].to in Tos(ns)
    decreases |ns|
  {
    if |ns| > 0 {
      var p := ns[..|ns| - 1];
      NamesListed(p);
      assert forall i :: 0 <= i < |p| ==> p[i] == ns[i];
    }
  }

  /** A name in `Froms` or `Tos` belongs to some entry. */
  lemma {:induction false} ListedNames(ns: seq<Renaming>, c: string)
    ensures c in Froms(ns) ==> exists i :: 0 <= i < |ns| && ns[i].from == c
    ensures c in Tos(ns) ==> exists i :: 0 <= i < |ns| && ns[i].to == c
    decreases |ns|
  {
    if |ns| > 0 {
      var p := ns[..|ns| - 1];
      ListedNames(p, c);
      assert forall i :: 0 <= i < |p| ==> p[i] == ns[i];
    }
  }

  /** Under a one-to-one mapping every new name ends up with what `Moved` says. */
  lemma {:induction false} RenameMoves(row: Row, ns: seq<Renaming>)
    requires OneToOne(ns)
    ensures forall i :: 0 <= i < |ns| ==> Get(Rename(row, ns), ns[i].to) == Moved(row, ns[i])
    decreases |ns|
  {
    if |ns| > 0 {
      var p, n := ns[..|ns| - 1], ns[|ns| - 1];
      forall i | 0 <= i < |p|
        ensures ApartAt(p, i)
      {
        assert ApartAt(ns, i);
      }
      assert ApartAt(ns, |ns| - 1);
      RenameMoves(row, p);
      RenameKeeps(row, p);
      forall c | c in Froms(p) || c in Tos(p)
        ensures c != n.from && (c != n.to || n.to == n.from)
      {
        ListedNames(p, c);
        if c in Froms(p) {
          var j :| 0 <= j < |p| && p[j].from == c;
          assert ApartAt(ns, j);
        } else {
          var j :| 0 <= j < |p| && p[j].to == c;
          assert ApartAt(ns, j);
        }
      }
      forall i | 0 <= i < |ns|
        ensures Get(Rename(row, ns), ns[i].to) == Moved(row, ns[i])
      {
        if i < |p| {
          assert p[i] == ns[i];
          assert ApartAt(ns, i);
        }
      }
    }
  }

  /** In a one-to-one mapping no entry other than entry `k` has entry `k`'s old name as its old or its new name. */
  lemma OthersApart(ns: seq<Renaming>, k: int)
    requires OneToOne(ns) && 0 <= k < |ns|
    ensures forall j :: 0 <= j < |ns| && ns[j].to != ns[k].to ==> ns[j].from != ns[k].from && ns[j].to != ns[k].from
  {
    assert ApartAt(ns, k);
    forall j | 0 <= j < |ns| && ns[j].to != ns[k].to
      ensures ns[j].from != ns[k].from && ns[j].to != ns[k].from
    {
      assert ApartAt(ns, j);
    }
  }

  /** `df_worldfish.rename(...)`: the WorldFish columns under the CGSpace names. */
  const WorldFishNames: seq<Renaming> := [
    Renaming("dc.title", "Title"),
    Renaming("dc.creator", "Authors"),
    Renaming("cg.contributor.affiliation", "Author affiliations"),
    Renaming("dc.description.abstract", "Abstract"),
    Renaming("cg.contributor.funder", "Funders"),
    Renaming("dc.identifier.doi", "DOI"),
    Renaming("cg.identifier.status", "Access rights"),
    Renaming("dc.rights", "Usage rights"),
    Renaming("dc.identifier.uri", "Repository link"),
    Renaming("dc.date.issued", "Publication date"),
    Renaming("dc.source", "Journal"),
    Renaming("dc.identifier.issn", "ISSN"),
    Renaming("dc.publisher", "Publisher"),
    Renaming("cg.coverage.country", "Countries")
  ]

  /** `df_cifor.rename(...)`. */
  const CiforNames: seq<Renaming> := [
    Renaming("dc.title", "Title"),
    Renaming("dc.contributor.author", "Authors"),
    Renaming("dc.description.abstract", "Abstract"),
    Renaming("cg.contributor.donor", "Funders"),
    Renaming("dc.identifier.doi", "DOI"),
    Renaming("cifor.type.oa", "Access rights"),
    Renaming("dc.rights", "Usage rights"),
    Renaming("dc.identifier.uri", "Repository link"),
    Renaming("dc.date.issued", "Publication date"),
    Renaming("dc.subject", "Subjects"),
    Renaming("cifor.source.title", "Journal"),
    Renaming("dc.identifier.issn", "ISSN"),
    Renaming("cifor.source.volume", "Volume"),
    Renaming("cifor.source.numbers", "Issue"),
    Renaming("dc.publisher", "Publisher"),
    Renaming("cifor.source.page", "Pages"),
    Renaming("cg.coverage.country", "Countries")
  ]

  /** `df_irri.rename(...)`; `Authors` keeps its name. */
  const IrriNames: seq<Renaming> := [
    Renaming("title", "Title"),
    Renaming("Authors", "Authors"),
    Renaming("abstract", "Abstract"),
    Renaming("doi", "DOI"),
    Renaming("date issued", "Publication date"),
    Renaming("journal", "Journal"),
    Renaming("issn", "ISSN"),
    Renaming("publisher", "Publisher"),
    Renaming("subjects", "Subjects"),
    Renaming("extent", "Pages")
  ]

  /** The `WorldFishNames` mapping is one-to-one; each entry is checked on its own. */
  lemma WorldFishNamesOneToOne()
    ensures OneToOne(WorldFishNames)
  {
    forall i | 0 <= i < |WorldFishNames|
      ensures ApartAt(WorldFishNames, i)
    {
      if i == 0 {
        WorldFishApart0();
      } else if i == 1 {
        WorldFishApart1();
      } else if i == 2 {
        WorldFishApart2();
      } else if i == 3 {
        WorldFishApart3();
      } else if i == 4 {
        WorldFishApart4();
      } else if i == 5 {
        WorldFishApart5();
      } else if i == 6 {
        WorldFishApart6();
      } else if i == 7 {
        WorldFishApart7();
      } else if i == 8 {
        WorldFishApart8();
      } else if i == 9 {
        WorldFishApart9();
      } else if i == 10 {
        WorldFishApart10();
      } else if i == 11 {
        WorldFishApart11();
      } else if i == 12 {
        WorldFishApart12();
      } else {
        WorldFishApart13();
      }
    }
  }

  lemma WorldFishApart0() ensures ApartAt(WorldFishNames, 0) {}
  lemma WorldFishApart1() ensures ApartAt(WorldFishNames, 1) {}
  lemma WorldFishApart2() ensures ApartAt(WorldFishNames, 2) {}
  lemma WorldFishApart3() ensures ApartAt(WorldFishNames, 3) {}
  lemma WorldFishApart4() ensures ApartAt(WorldFishNames, 4) {}
  lemma WorldFishApart5() ensures ApartAt(WorldFishNames, 5) {}
  lemma WorldFishApart6() ensures ApartAt(WorldFishNames, 6) {}
  lemma WorldFishApart7() ensures ApartAt(WorldFishNames, 7) {}
  lemma WorldFishApart8() ensures ApartAt(WorldFishNames, 8) {}
  lemma WorldFishApart9() ensures ApartAt(WorldFishNames, 9) {}
  lemma WorldFishApart10() ensures ApartAt(WorldFishNames, 10) {}
  lemma WorldFishApart11() ensures ApartAt(WorldFishNames, 11) {}
  lemma WorldFishApart12() ensures ApartAt(WorldFishNames, 12) {}
  lemma WorldFishApart13() ensures ApartAt(WorldFishNames, 13) {}

  /** The `CiforNames` mapping is one-to-one; each entry is checked on its own. */
  lemma CiforNamesOneToOne()
    ensures OneToOne(CiforNames)
  {
    forall i | 0 <= i < |CiforNames|
      ensures ApartAt(CiforNames, i)
    {
      if i == 0 {
        CiforApart0();
      } else if i == 1 {
        CiforApart1();
      } else if i == 2 {
        CiforApart2();
      } else if i == 3 {
        CiforApart3();
      } else if i == 4 {
        CiforApart4();
      } else if i == 5 {
        CiforApart5();
      } else if i == 6 {
        CiforApart6();
      } else if i == 7 {
        CiforApart7();
      } else if i == 8 {
        CiforApart8();
      } else if i == 9 {
        CiforApart9();
      } else if i == 10 {
        CiforApart10();
      } else if i == 11 {
        CiforApart11();
      } else if i == 12 {
        CiforApart12();
      } else if i == 13 {
        CiforApart13();
      } else if i == 14 {
        CiforApart14();
      } else if i == 15 {
        CiforApart15();
      } else {
        CiforApart16();
      }
    }
  }

  lemma CiforApart0() ensures ApartAt(CiforNames, 0) {}
  lemma CiforApart1() ensures ApartAt(CiforNames, 1) {}
  lemma CiforApart2() ensures ApartAt(CiforNames, 2) {}
  lemma CiforApart3() ensures ApartAt(CiforNames, 3) {}
  lemma CiforApart4() ensures ApartAt(CiforNames, 4) {}
  lemma CiforApart5() ensures ApartAt(CiforNames, 5) {}
  lemma CiforApart6() ensures ApartAt(CiforNames, 6) {}
  lemma CiforApart7() ensures ApartAt(CiforNames, 7) {}
  lemma CiforApart8() ensures ApartAt(CiforNames, 8) {}
  lemma CiforApart9() ensures ApartAt(CiforNames, 9) {}
  lemma CiforApart10() ensures ApartAt(CiforNames, 10) {}
  lemma CiforApart11() ensures ApartAt(CiforNames, 11) {}
  lemma CiforApart12() ensures ApartAt(CiforNames, 12) {}
  lemma CiforApart13() ensures ApartAt(CiforNames, 13) {}
  lemma CiforApart14() ensures ApartAt(CiforNames, 14) {}
  lemma CiforApart15() ensures ApartAt(CiforNames, 15) {}
  lemma CiforApart16() ensures ApartAt(CiforNames, 16) {}

  /** The `IrriNames` mapping is one-to-one; each entry is checked on its own. */
  lemma IrriNamesOneToOne()
    ensures OneToOne(IrriNames)
  {
    forall i | 0 <= i < |IrriNames|
      ensures ApartAt(IrriNames, i)
    {
      if i == 0 {
        IrriApart0();
      } else if i == 1 {
        IrriApart1();
      } else if i == 2 {
        IrriApart2();
      } else if i == 3 {
        IrriApart3();
      } else if i == 4 {
        IrriApart4();
      } else if i == 5 {
        IrriApart5();
      } else if i == 6 {
        IrriApart6();
      } else if i == 7 {
        IrriApart7();
      } else if i == 8 {
        IrriApart8();
      } else {
        IrriApart9();
      }
    }
  }

  lemma IrriApart0() ensures ApartAt(IrriNames, 0) {}
  lemma IrriApart1() ensures ApartAt(IrriNames, 1) {}
  lemma IrriApart2() ensures ApartAt(IrriNames, 2) {}
  lemma IrriApart3() ensures ApartAt(IrriNames, 3) {}
  lemma IrriApart4() ensures ApartAt(IrriNames, 4) {}
  lemma IrriApart5() ensures ApartAt(IrriNames, 5) {}
  lemma IrriApart6() ensures ApartAt(IrriNames, 6) {}
  lemma IrriApart7() ensures ApartAt(IrriNames, 7) {}
  lemma IrriApart8() ensures ApartAt(IrriNames, 8) {}
  lemma IrriApart9() ensures ApartAt(IrriNames, 9) {}

  // ================================================================ per-source fixes

  function MapOption(v: Option<string>, f: string -> string): Option<string>
  {
    match v
    case None => None
    case Some(x) => Some(f(x))
  }

  /** Renaming with `WorldFishNames` moves every entry. */
  lemma WorldFishRenameMoves(row: Row)
    ensures forall i :: 0 <= i < |WorldFishNames| ==> Get(Rename(row, WorldFishNames), WorldFishNames[i].to) == Moved(row, WorldFishNames[i])
  {
    WorldFishNamesOneToOne();
    RenameMoves(row, WorldFishNames);
  }

  /** `CiforRenameMoves` for one entry, named by its position. */
  lemma CiforRenameMovesEntry(row: Row, k: int, n: Renaming)
    requires 0 <= k < |CiforNames| && CiforNames[k] == n
    ensures Get(Rename(row, CiforNames), n.to) == Moved(row, n)
  {
    CiforRenameMoves(row);
  }

  /** Renaming with `CiforNames` moves every entry. */
  lemma CiforRenameMoves(row: Row)
    ensures forall i :: 0 <= i < |CiforNames| ==> Get(Rename(row, CiforNames), CiforNames[i].to) == Moved(row, CiforNames[i])
  {
    CiforNamesOneToOne();
    RenameMoves(row, CiforNames);
  }

  /** `IrriRenameMoves` for one entry, named by its position. */
  lemma IrriRenameMovesEntry(row: Row, k: int, n: Renaming)
    requires 0 <= k < |IrriNames| && IrriNames[k] == n
    ensures Get(Rename(row, IrriNames), n.to) == Moved(row, n)
  {
    IrriRenameMoves(row);
  }

  /** Renaming with `IrriNames` moves every entry. */
  lemma IrriRenameMoves(row: Row)
    ensures forall i :: 0 <= i < |IrriNames| ==> Get(Rename(row, IrriNames), IrriNames[i].to) == Moved(row, IrriNames[i])
  {
    IrriNamesOneToOne();
    RenameMoves(row, IrriNames);
  }

  /** `Subjects`, which WorldFish builds before renaming, is no name of the WorldFish mapping. */
  lemma WorldFishNamesSpareSubjects()
    ensures "Subjects" !in Froms(WorldFishNames) && "Subjects" !in Tos(WorldFishNames)
  {
    ListedNames(WorldFishNames, "Subjects");
  }

  /** `Author affiliations`, which CIFOR builds before renaming, is no name of the CIFOR mapping. */
  lemma CiforNamesSpareAffiliations()
    ensures forall i :: 0 <= i < |CiforNames| ==>
              CiforNames[i].from != "Author affiliations" && CiforNames[i].to != "Author affiliations"
    ensures "Author affiliations" !in Froms(CiforNames) && "Author affiliations" !in Tos(CiforNames)
  {
    forall i | 0 <= i < |CiforNames|
      ensures CiforNames[i].from != "Author affiliations" && CiforNames[i].to != "Author affiliations"
    {
    }
    ListedNames(CiforNames, "Author affiliations");
  }

  /** The CIFOR entries other than `dc.subject` touch neither `dc.subject` nor `Author affiliations`. */
  lemma CiforNamesAvoid()
    ensures forall i :: 0 <= i < |CiforNames| && CiforNames[i].to != "Subjects" ==>
              CiforNames[i].from != "dc.subject" && CiforNames[i].to != "dc.subject" &&
              CiforNames[i].from != "Author affiliations" && CiforNames[i].to != "Author affiliations"
  {
    CiforNamesOneToOne();
    CiforNamesSpareAffiliations();
    OthersApart(CiforNames, 9);
    assert CiforNames[9] == Renaming("dc.subject", "Subjects");
  }

  /** `dc.subject` is an old name and `Repository link` a new name of the CIFOR mapping. */
  lemma CiforNamesListSubjectAndLink()
    ensures "dc.subject" in Froms(CiforNames) && "Repository link" in Tos(CiforNames)
  {
    NamesListed(CiforNames);
    assert CiforNames[9].from == "dc.subject" && CiforNames[7].to == "Repository link";
  }

  /** `Authors` and `subjects` are old names of the IRRI mapping. */
  lemma IrriNamesListAuthorsAndSubjects()
    ensures "Authors" in Froms(IrriNames) && "subjects" in Froms(IrriNames)
  {
    NamesListed(IrriNames);
    assert IrriNames[1].from == "Authors" && IrriNames[8].from == "subjects";
  }

  /** The IRRI entries other than `Authors` and `subjects` touch neither name. */
  lemma IrriNamesAvoid()
    ensures forall i :: 0 <= i < |IrriNames| && IrriNames[i].to != "Authors" && IrriNames[i].to != "Subjects" ==>
              IrriNames[i].from != "Authors" && IrriNames[i].to != "Authors" &&
              IrriNames[i].from != "subjects" && IrriNames[i].to != "subjects"
  {
    IrriNamesOneToOne();
    OthersApart(IrriNames, 1);
    OthersApart(IrriNames, 8);
    assert IrriNames[1] == Renaming("Authors", "Authors");
    assert IrriNames[8] == Renaming("subjects", "Subjects");
  }

  /**
   * WorldFish: `Subjects` joins `dc.subject` and `cg.subject.agrovoc`, then the
   * columns are renamed to the CGSpace names.
   */
  function PrepareWorldFish(row: Row): Row
  {
    var a, b := Get(row, "dc.subject"), Get(row, "cg.subject.agrovoc");
    Rename(Put(row, "Subjects", Some(ConcatColumns(a, b))), WorldFishNames)
  }

  /**
   * The prepared WorldFish row: `Subjects` joins the present subjects, every
   * CGSpace name holds its WorldFish column, the WorldFish names are gone and
   * every other column is kept.
   */
  lemma PrepareWorldFishColumns(row: Row)
    ensures var a, b := Get(row, "dc.subject"), Get(row, "cg.subject.agrovoc");
            var s := Get(PrepareWorldFish(row), "Subjects");
            s == Some(ConcatColumns(a, b)) && (FreeOfPlaceholder(a) && FreeOfPlaceholder(b) ==> JoinedColumns(s.value, a, b))
    ensures forall i :: 0 <= i < |WorldFishNames|
                        ==> Get(PrepareWorldFish(row), WorldFishNames[i].to) == Moved(row, WorldFishNames[i])
    ensures forall c :: c != "Subjects" && c !in Froms(WorldFishNames) && c !in Tos(WorldFishNames)
                        ==> Get(PrepareWorldFish(row), c) == Get(row, c)
    ensures forall c :: c in Froms(WorldFishNames) && c !in Tos(WorldFishNames) ==> c !in PrepareWorldFish(row)
  {
    var a, b := Get(row, "dc.subject"), Get(row, "cg.subject.agrovoc");
    ConcatColumnsJoins(a, b);
    var joined := Put(row, "Subjects", Some(ConcatColumns(a, b)));
    WorldFishNamesSpareSubjects();
    NamesListed(WorldFishNames);
    WorldFishRenameMoves(joined);
    RenameKeeps(joined, WorldFishNames);
    forall i | 0 <= i < |WorldFishNames|
      ensures Moved(joined, WorldFishNames[i]) == Moved(row, WorldFishNames[i])
    {
      assert WorldFishNames[i].from != "Subjects" && WorldFishNames[i].to != "Subjects";
    }
  }

  /**
   * CIFOR, before the rename: `dc.subject` joins `dc.subject` and
   * `cg.subject.cifor`, `Author affiliations` joins `cg.contributor.affiliation`
   * and `cg.contributor.center`.
   */
  function CiforJoined(row: Row): Row
  {
    var a, b := Get(row, "dc.subject"), Get(row, "cg.subject.cifor");
    var f, g := Get(row, "cg.contributor.affiliation"), Get(row, "cg.contributor.center");
    Put(Put(row, "dc.subject", Some(ConcatColumns(a, b))), "Author affiliations", Some(ConcatColumns(f, g)))
  }

  /**
   * CIFOR: the joined columns are renamed to the CGSpace names (`dc.subject`
   * becoming `Subjects`), and a repository link starting with `#` is completed.
   */
  function PrepareCifor(row: Row): Row
  {
    var renamed := Rename(CiforJoined(row), CiforNames);
    Put(renamed, "Repository link", MapOption(Get(renamed, "Repository link"), FixCiforLink))
  }

  /**
   * The prepared CIFOR row: `Subjects` and `Author affiliations` join their two
   * columns and the link is the completed `dc.identifier.uri`.
   */
  lemma PrepareCiforJoins(row: Row)
    ensures var a, b := Get(row, "dc.subject"), Get(row, "cg.subject.cifor");
            var s := Get(PrepareCifor(row), "Subjects");
            s == Some(ConcatColumns(a, b)) && (FreeOfPlaceholder(a) && FreeOfPlaceholder(b) ==> JoinedColumns(s.value, a, b))
    ensures var f, g := Get(row, "cg.contributor.affiliation"), Get(row, "cg.contributor.center");
            var s := Get(PrepareCifor(row), "Author affiliations");
            s == Some(ConcatColumns(f, g)) && (FreeOfPlaceholder(f) && FreeOfPlaceholder(g) ==> JoinedColumns(s.value, f, g))
    ensures Get(PrepareCifor(row), "Repository link")
            == MapOption(Moved(row, Renaming("dc.identifier.uri", "Repository link")), FixCiforLink)
  {
    PrepareCiforCarries(row);
    PrepareCiforLink(row);
    ConcatColumnsJoins(Get(row, "dc.subject"), Get(row, "cg.subject.cifor"));
    ConcatColumnsJoins(Get(row, "cg.contributor.affiliation"), Get(row, "cg.contributor.center"));
  }

  /** The renamed `Subjects` and `Author affiliations` hold the joined `dc.subject` and the joined affiliations. */
  lemma PrepareCiforCarries(row: Row)
    ensures Get(PrepareCifor(row), "Subjects") == Get(CiforJoined(row), "dc.subject")
    ensures Get(PrepareCifor(row), "Author affiliations") == Get(CiforJoined(row), "Author affiliations")
  {
    var joined := CiforJoined(row);
    assert "dc.subject" in joined;
    CiforRenameCarries(joined);
    PrepareCiforBesideLink(row, "Subjects");
    PrepareCiforBesideLink(row, "Author affiliations");
  }

  /** Renaming with `CiforNames` moves a present `dc.subject` to `Subjects` and keeps `Author affiliations`. */
  lemma CiforRenameCarries(j: Row)
    requires "dc.subject" in j
    ensures Get(Rename(j, CiforNames), "Subjects") == Get(j, "dc.subject")
    ensures Get(Rename(j, CiforNames), "Author affiliations") == Get(j, "Author affiliations")
  {
    CiforNamesSpareAffiliations();
    RenameKeeps(j, CiforNames);
    CiforRenameMovesEntry(j, 9, Renaming("dc.subject", "Subjects"));
  }

  /** The link of the prepared CIFOR row is the completed `dc.identifier.uri`. */
  lemma PrepareCiforLink(row: Row)
    ensures Get(PrepareCifor(row), "Repository link")
            == MapOption(Moved(row, Renaming("dc.identifier.uri", "Repository link")), FixCiforLink)
  {
    var link := Renaming("dc.identifier.uri", "Repository link");
    var joined := CiforJoined(row);
    CiforRenameLink(joined);
    assert Moved(joined, link) == Moved(row, link);
    PrepareCiforAtLink(row);
  }

  /** Renaming with `CiforNames` moves `dc.identifier.uri` to `Repository link`. */
  lemma CiforRenameLink(j: Row)
    ensures Get(Rename(j, CiforNames), "Repository link") == Moved(j, Renaming("dc.identifier.uri", "Repository link"))
  {
    CiforRenameMovesEntry(j, 7, Renaming("dc.identifier.uri", "Repository link"));
  }

  /** The last CIFOR step completes the renamed link. */
  lemma PrepareCiforAtLink(row: Row)
    ensures Get(PrepareCifor(row), "Repository link")
            == MapOption(Get(Rename(CiforJoined(row), CiforNames), "Repository link"), FixCiforLink)
  {
  }

  /** Completing the link changes no other column of the renamed CIFOR row. */
  lemma PrepareCiforBesideLink(row: Row, c: string)
    requires c != "Repository link"
    ensures Get(PrepareCifor(row), c) == Get(Rename(CiforJoined(row), CiforNames), c)
  {
  }

  /** The prepared CIFOR row: every other CGSpace name holds its CIFOR column. */
  lemma PrepareCiforMoves(row: Row)
    ensures forall i :: 0 <= i < |CiforNames| && CiforNames[i].to != "Subjects" && CiforNames[i].to != "Repository link"
                        ==> Get(PrepareCifor(row), CiforNames[i].to) == Moved(row, CiforNames[i])
  {
    var joined := CiforJoined(row);
    CiforNamesAvoid();
    CiforRenameMoves(joined);
    forall i | 0 <= i < |CiforNames| && CiforNames[i].to != "Subjects" && CiforNames[i].to != "Repository link"
      ensures Get(PrepareCifor(row), CiforNames[i].to) == Moved(row, CiforNames[i])
    {
      assert Moved(joined, CiforNames[i]) == Moved(row, CiforNames[i]);
    }
  }

  /** The prepared CIFOR row: the CIFOR names are gone and every column the rename does not mention is kept. */
  lemma PrepareCiforKeeps(row: Row)
    ensures forall c :: c != "Author affiliations" && c !in Froms(CiforNames) && c !in Tos(CiforNames)
                        ==> Get(PrepareCifor(row), c) == Get(row, c)
    ensures forall c :: c in Froms(CiforNames) && c !in Tos(CiforNames) ==> c !in PrepareCifor(row)
  {
    CiforNamesListSubjectAndLink();
    RenameKeeps(CiforJoined(row), CiforNames);
  }

  /**
   * IRRI, before the rename: `Authors` joins `first author` and `other authors`
   * and puts a space after every semicolon; `subjects` has `.;` turned into
   * `"; "` and the final period removed.
   */
  function IrriFixed(row: Row): Row
  {
    var joined := ConcatColumns(Get(row, "first author"), Get(row, "other authors"));
    Put(Put(row, "Authors", Some(SpaceAfterSemicolons(joined))), "subjects", MapOption(Get(row, "subjects"), IrriSubjects))
  }

  /** IRRI: the fixed columns renamed to the CGSpace names (`Authors` keeping its name, `subjects` becoming `Subjects`). */
  function PrepareIrri(row: Row): Row
  {
    Rename(IrriFixed(row), IrriNames)
  }

  /**
   * The prepared IRRI row: `Authors` is the joined authors with a space after
   * every semicolon and the same non-space text, and `Subjects` the rewritten
   * `subjects`.
   */
  lemma PrepareIrriFixes(row: Row)
    ensures var v := Get(PrepareIrri(row), "Authors");
            var joined := ConcatColumns(Get(row, "first author"), Get(row, "other authors"));
            v.Some? && SpacedAfterSemicolons(v.value) && Filter(v.value, NotSpace) == Filter(joined, NotSpace)
    ensures Get(PrepareIrri(row), "Subjects")
            == if "subjects" in row then Some(IrriSubjects(row["subjects"])) else Get(row, "Subjects")
  {
    var joined := ConcatColumns(Get(row, "first author"), Get(row, "other authors"));
    PrepareIrriCarries(row);
    SpaceAfterSemicolonsSpaced(joined);
    SpaceAfterSemicolonsKeepsText(joined);
  }

  /** The renamed `Authors` and `Subjects` hold the fixed `Authors` and `subjects`. */
  lemma PrepareIrriCarries(row: Row)
    ensures Get(PrepareIrri(row), "Authors") == Get(IrriFixed(row), "Authors")
    ensures Get(PrepareIrri(row), "Subjects")
            == if "subjects" in row then Get(IrriFixed(row), "subjects") else Get(row, "Subjects")
  {
    var fixed := IrriFixed(row);
    IrriRenameMovesEntry(fixed, 1, Renaming("Authors", "Authors"));
    IrriRenameMovesEntry(fixed, 8, Renaming("subjects", "Subjects"));
  }

  /** The prepared IRRI row: every other CGSpace name holds its IRRI column. */
  lemma PrepareIrriMoves(row: Row)
    ensures forall i :: 0 <= i < |IrriNames| && IrriNames[i].to != "Authors" && IrriNames[i].to != "Subjects"
                        ==> Get(PrepareIrri(row), IrriNames[i].to) == Moved(row, IrriNames[i])
  {
    var fixed := IrriFixed(row);
    IrriNamesAvoid();
    IrriRenameMoves(fixed);
    forall i | 0 <= i < |IrriNames| && IrriNames[i].to != "Authors" && IrriNames[i].to != "Subjects"
      ensures Get(PrepareIrri(row), IrriNames[i].to) == Moved(row, IrriNames[i])
    {
      assert Moved(fixed, IrriNames[i]) == Moved(row, IrriNames[i]);
    }
  }

  /** The prepared IRRI row: the IRRI names are gone and every column the rename does not mention is kept. */
  lemma PrepareIrriKeeps(row: Row)
    ensures forall c :: c !in Froms(IrriNames) && c !in Tos(IrriNames) ==> Get(PrepareIrri(row), c) == Get(row, c)
    ensures forall c :: c in Froms(IrriNames) && c !in Tos(IrriNames) ==> c !in PrepareIrri(row)
  {
    IrriNamesListAuthorsAndSubjects();
    RenameKeeps(IrriFixed(row), IrriNames);
  }

  // ================================================================ source tagging and concatenation

  /** The eight repositories, in the order their frames are concatenated. */
  datatype Source = CGSpace | MELSpace | WorldFish | CIFOR | IFPRI | IRRI | ICRISAT | CIMMYT
  {
    /** The value of the `Source` column for rows of this repository. */
    function Label(): string
    {
      match this
      case CGSpace => "CGSpace DSpace"
      case MELSpace => "MELSpace DSpace"
      case WorldFish => "WorldFish DSpace"
      case CIFOR => "CIFOR DSpace"
      case IFPRI => "IFPRI Library"
      case IRRI => "IRRI Library"
      case ICRISAT => "ICRISAT OAR"
      case CIMMYT => "CIMMYT DSpace"
    }
  }

  const SourceOrder: seq<Source> := [CGSpace, MELSpace, WorldFish, CIFOR, IFPRI, IRRI, ICRISAT, CIMMYT]

  /** The per-source fix of a row, then its `Source` label. */
  function Prepare(src: Source, row: Row): (r: Row)
    ensures Get(r, "Source") == Some(src.Label())
  {
    var fixed := match src
      case WorldFish => PrepareWorldFish(row)
      case CIFOR => PrepareCifor(row)
      case IRRI => PrepareIrri(row)
      case _ => row;
    fixed["Source" := src.Label()]
  }

  /** The frame of the `i`-th source, prepared and labelled. */
  function PreparedFrames(frames: seq<seq<Row>>): (fs: seq<seq<Row>>)
    requires |frames| == |SourceOrder|
    ensures |fs| == |frames| && forall i :: 0 <= i < |fs| ==> |fs[i]| == |frames[i]|
  {
    seq(|frames|, i requires 0 <= i < |frames| => Map(frames[i], row => Prepare(SourceOrder[i], row)))
  }

  /** The merged frame: the prepared frames concatenated in source order. */
  function Merged(frames: seq<seq<Row>>): seq<Row>
    requires |frames| == |SourceOrder|
  {
    Flatten(PreparedFrames(frames))
  }

  /**
   * Row `k` of source `i` is in the merged frame, prepared and carrying that
   * source's label, and it precedes every row of every later source.
   */
  lemma MergedOrder(frames: seq<seq<Row>>, i: nat, k: nat)
    requires |frames| == |SourceOrder| && i < |frames| && k < |frames[i]|
    ensures var p := Offset(PreparedFrames(frames), i) + k;
            p < |Merged(frames)| && Merged(frames)[p] == Prepare(SourceOrder[i], frames[i][k])
    ensures Get(Merged(frames)[Offset(PreparedFrames(frames), i) + k], "Source") == Some(SourceOrder[i].Label())
    ensures forall j :: i < j <= |frames| ==> Offset(PreparedFrames(frames), i) + k < Offset(PreparedFrames(frames), j)
  {
    var fs := PreparedFrames(frames);
    FlattenIndex(fs, i, k);
    forall j | i < j <= |frames|
      ensures Offset(fs, i) + k < Offset(fs, j)
    {
      OffsetOrder(fs, i, j);
    }
  }
}
