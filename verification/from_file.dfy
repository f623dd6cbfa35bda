/** The first script: typed row parsing, a table that ends at the first
    whitespace-only line, the marker scan, and the mean of `J_ij(meV)` over
    the requested pair indices. */
module FromFile {
  import opened Outcomes
  import opened Text
  import opened Numerals
  import opened Jij
  import opened Selection

  /** The conversion applied to token `k`: `int` for index, sites, components
      and degeneracy, `float` for the cell offsets, distance and both couplings. */
  function FieldKind(k: nat): Conversion {
    if k <= 4 || k == 11 then ToInt else ToFloat
  }

  predicate Converts(tok: string, kind: Conversion) {
    match kind
    case ToInt => ParseInt(tok).Some?
    case ToFloat => ParseFloat(tok).Some?
  }

  /** Token `k` is present and converts. */
  predicate FieldOk(toks: seq<string>, k: nat) {
    k < |toks| && Converts(toks[k], FieldKind(k))
  }

  /** `row` is what the first twelve tokens convert to, position by position. */
  predicate Denotes(toks: seq<string>, row: JijRow) {
    && |toks| >= RowWidth
    && ParseInt(toks[0]) == Some(row.index)
    && ParseInt(toks[1]) == Some(row.site.first)
    && ParseInt(toks[2]) == Some(row.site.second)
    && ParseInt(toks[3]) == Some(row.comp.first)
    && ParseInt(toks[4]) == Some(row.comp.second)
    && ParseFloat(toks[5]) == Some(row.cell.x)
    && ParseFloat(toks[6]) == Some(row.cell.y)
    && ParseFloat(toks[7]) == Some(row.cell.z)
    && ParseFloat(toks[8]) == Some(row.distance)
    && ParseFloat(toks[9]) == Some(row.jRyd)
    && ParseFloat(toks[10]) == Some(row.jMeV)
    && ParseInt(toks[11]) == Some(row.dgn)
  }

  /** The exception converting token `k` raises when it is not `FieldOk`:
      `IndexError` for a missing token, `ValueError` for a malformed one. */
  function FieldError(toks: seq<string>, k: nat): Error {
    if k < |toks| then BadLiteral(k, toks[k], FieldKind(k)) else TokenMissing(k)
  }

  predicate FieldsOk(toks: seq<string>, lo: nat, hi: nat) {
    forall k :: lo <= k < hi ==> FieldOk(toks, k)
  }

  /** `e` is the exception that converting fields `lo` to `hi - 1` one after
      another raises: all fields before `e.position` convert, and that one does not. */
  predicate FailsFirstIn(toks: seq<string>, e: Error, lo: nat, hi: nat) {
    && (e.TokenMissing? || e.BadLiteral?)
    && lo <= e.position < hi
    && FieldsOk(toks, lo, e.position)
    && !FieldOk(toks, e.position)
    && e == FieldError(toks, e.position)
  }

  /** The exception a whole row parse raises. */
  predicate FirstFailure(toks: seq<string>, e: Error) {
    FailsFirstIn(toks, e, 0, RowWidth)
  }

  /** Converting fields `k` to 11 in line order: the first exception raised, if any. */
  function FirstBadField(toks: seq<string>, k: nat): (r: Option<Error>)
    requires k <= RowWidth
    ensures r.None? <==> FieldsOk(toks, k, RowWidth)
    ensures r.Some? ==> FailsFirstIn(toks, r.value, k, RowWidth)
    decreases RowWidth - k
  {
    if k == RowWidth then None
    else if !FieldOk(toks, k) then Some(FieldError(toks, k))
    else
      var r := FirstBadField(toks, k + 1);
      FieldsOkExtend(toks, k, RowWidth);
      if r.Some? then FieldsOkExtend(toks, k, r.value.position); r
      else r
  }

  lemma FieldsOkExtend(toks: seq<string>, lo: nat, hi: nat)
    requires lo < hi
    ensures FieldsOk(toks, lo, hi) <==> FieldOk(toks, lo) && FieldsOk(toks, lo + 1, hi)
  {
  }

  /** The row the converted fields make up. */
  function Build(toks: seq<string>): (row: JijRow)
    requires FieldsOk(toks, 0, RowWidth)
    ensures Denotes(toks, row)
  {
    assert FieldOk(toks, 0) && FieldOk(toks, 1) && FieldOk(toks, 2) && FieldOk(toks, 3);
    assert FieldOk(toks, 4) && FieldOk(toks, 5) && FieldOk(toks, 6) && FieldOk(toks, 7);
    assert FieldOk(toks, 8) && FieldOk(toks, 9) && FieldOk(toks, 10) && FieldOk(toks, 11);
    JijRow(
      ParseInt(toks[0]).value,
      Pair(ParseInt(toks[1]).value, ParseInt(toks[2]).value),
      Pair(ParseInt(toks[3]).value, ParseInt(toks[4]).value),
      Triple(ParseFloat(toks[5]).value, ParseFloat(toks[6]).value, ParseFloat(toks[7]).value),
      ParseFloat(toks[8]).value,
      ParseFloat(toks[9]).value,
      ParseFloat(toks[10]).value,
      ParseInt(toks[11]).value)
  }

  /** `get_compact_jij_info(line)`: the twelve leading tokens convert in line
      order and the first missing or malformed one raises; further tokens are
      ignored. */
  function ParseCompact(line: string): (r: Result<JijRow>)
    ensures r.Ok? <==> FieldsOk(Split(line), 0, RowWidth)
    ensures r.Ok? ==> Denotes(Split(line), r.value)
    ensures r.Err? ==> FirstFailure(Split(line), r.error)
  {
    var toks := Split(line);
    match FirstBadField(toks, 0)
    case Some(e) => Err(e)
    case None => Ok(Build(toks))
  }

  /** A line whose first token starts like a word (`Tc = ...`) stops the
      row parse at once: `int()` of that token raises `ValueError`. */
  lemma ProseLineFails(line: string)
    requires |Split(line)| > 0
    requires var tok := Split(line)[0]; !IsDigit(tok[0]) && tok[0] !in {'+', '-', '_'}
    ensures ParseCompact(line) == Err(BadLiteral(0, Split(line)[0], ToInt))
  {
    var toks := Split(line);
    WordTokenIsNotInt(toks[0]);
    assert !FieldOk(toks, 0);
    var r := ParseCompact(line);
    assert r.Err?;
    assert FieldsOk(toks, 0, r.error.position);
  }

  /** Only the first twelve tokens matter: what follows them is never read. */
  lemma ParseCompactIgnoresExtra(line1: string, line2: string)
    requires |Split(line1)| >= RowWidth && |Split(line2)| >= RowWidth
    requires Split(line1)[..RowWidth] == Split(line2)[..RowWidth]
    ensures ParseCompact(line1) == ParseCompact(line2)
  {
    var t1, t2 := Split(line1), Split(line2);
    SameLeadingTokens(t1, t2);
    SameFirstBadField(t1, t2, 0);
    if FirstBadField(t1, 0).None? {
      SameBuild(t1, t2);
    }
  }

  lemma {:induction false} SameFirstBadField(t1: seq<string>, t2: seq<string>, k: nat)
    requires |t1| >= RowWidth && |t2| >= RowWidth && k <= RowWidth
    requires forall j :: 0 <= j < RowWidth ==> t1[j] == t2[j]
    ensures FirstBadField(t1, k) == FirstBadField(t2, k)
    decreases RowWidth - k
  {
    if k < RowWidth {
      FieldAgrees(t1, t2, k);
      if FieldOk(t1, k) {
        SameFirstBadField(t1, t2, k + 1);
      }
    }
  }

  lemma FieldAgrees(t1: seq<string>, t2: seq<string>, k: nat)
    requires k < |t1| && k < |t2| && t1[k] == t2[k]
    ensures FieldOk(t1, k) == FieldOk(t2, k)
    ensures FieldError(t1, k) == FieldError(t2, k)
  {
  }

  lemma SameBuild(t1: seq<string>, t2: seq<string>)
    requires |t1| >= RowWidth && |t2| >= RowWidth && FieldsOk(t1, 0, RowWidth) && FieldsOk(t2, 0, RowWidth)
    requires forall j :: 0 <= j < RowWidth ==> t1[j] == t2[j]
    ensures Build(t1) == Build(t2)
  {
    assert t1[0] == t2[0] && t1[1] == t2[1] && t1[2] == t2[2] && t1[3] == t2[3];
    assert t1[4] == t2[4] && t1[5] == t2[5] && t1[6] == t2[6] && t1[7] == t2[7];
    assert t1[8] == t2[8] && t1[9] == t2[9] && t1[10] == t2[10] && t1[11] == t2[11];
  }

  lemma SameLeadingTokens(t1: seq<string>, t2: seq<string>)
    requires |t1| >= RowWidth && |t2| >= RowWidth && t1[..RowWidth] == t2[..RowWidth]
    ensures forall k :: 0 <= k < RowWidth ==> t1[k] == t2[k]
  {
    forall k | 0 <= k < RowWidth
      ensures t1[k] == t2[k]
    {
      assert t1[..RowWidth][k] == t2[..RowWidth][k];
    }
  }

  /** How the tokens are spaced does not matter: any legal separators give
      the same parse. */
  lemma ParseCompactIgnoresSpacing(ws: seq<string>, gaps1: seq<string>, gaps2: seq<string>)
    requires AllWords(ws) && Separates(ws, gaps1) && Separates(ws, gaps2)
    ensures ParseCompact(Layout(ws, gaps1)) == ParseCompact(Layout(ws, gaps2))
  {
    SplitLayout(ws, gaps1);
    SplitLayout(ws, gaps2);
  }

  /** Surrounding whitespace, a trailing newline included, does not matter. */
  lemma ParseCompactIgnoresPadding(lead: string, line: string, trail: string)
    requires IsBlank(lead) && IsBlank(trail)
    ensures ParseCompact(lead + line + trail) == ParseCompact(line)
  {
    SplitIgnoresPadding(lead, line, trail);
  }

  /** The position of the first whitespace-only line, or `|lines|` when there is none. */
  function FirstBlank(lines: seq<string>): (k: nat)
    ensures k <= |lines|
    ensures forall i :: 0 <= i < k ==> !IsBlank(lines[i])
    ensures k < |lines| ==> IsBlank(lines[k])
    decreases |lines|
  {
    if |lines| == 0 then 0
    else if IsBlank(lines[0]) then 0
    else 1 + FirstBlank(lines[1..])
  }

  /** Each of the first `k` lines parses. */
  predicate ParsesUpTo<R>(parse: string -> Result<R>, lines: seq<string>, k: nat) {
    k <= |lines| && forall i :: 0 <= i < k ==> parse(lines[i]).Ok?
  }

  /** `table` is, row by row, what the first `|table|` lines parse to. */
  predicate ParsesTo<R(==)>(parse: string -> Result<R>, lines: seq<string>, table: seq<R>) {
    |table| <= |lines| && forall i :: 0 <= i < |table| ==> parse(lines[i]) == Ok(table[i])
  }

  /** The loop of `make_df_on_site_combi`, for any row parser: rows are parsed
      until the first line that `str.split()` leaves empty; that line is
      consumed but adds no row. Without such a line the table runs to the end
      of the input. A line that does not parse raises, and the partial table
      is lost. */
  function ExtractRows<R(==)>(parse: string -> Result<R>, lines: seq<string>): (r: Extraction<R>)
    ensures ExtractsRows(parse, lines, r)
    decreases |lines|
  {
    if |lines| == 0 then Extracted([], [])
    else
      SplitEmptyIffBlank(lines[0]);
      if Split(lines[0]) == [] then Extracted([], lines[1..])
      else match parse(lines[0])
        case Err(e) => Failed(e)
        case Ok(row) =>
          var r := ExtractRows(parse, lines[1..]);
          RowsStep(parse, lines, row, r);
          Prepend(row, r)
  }

  /** What `ExtractRows` promises: it succeeds exactly when every line before
      the first blank one parses, and then the table is those lines' rows in
      order and the rest of the input starts after the blank line. */
  ghost predicate ExtractsRows<R>(parse: string -> Result<R>, lines: seq<string>, r: Extraction<R>) {
    && (r.Extracted? <==> ParsesUpTo(parse, lines, FirstBlank(lines)))
    && (r.Extracted? ==> |r.table| == FirstBlank(lines) && ParsesTo(parse, lines, r.table))
    && (r.Extracted? ==> var k := FirstBlank(lines);
         r.rest == if k < |lines| then lines[k + 1..] else [])
    && (r.Extracted? ==> IsSuffix(r.rest, lines))
  }

  function Prepend<R>(row: R, r: Extraction<R>): Extraction<R> {
    match r
    case Failed(e) => Failed(e)
    case Extracted(table, rest) => Extracted([row] + table, rest)
  }

  /** One parsed line in front of the rest of the block. */
  lemma RowsStep<R>(parse: string -> Result<R>, lines: seq<string>, row: R, r: Extraction<R>)
    requires |lines| > 0 && !IsBlank(lines[0]) && parse(lines[0]) == Ok(row)
    requires ExtractsRows(parse, lines[1..], r)
    ensures ExtractsRows(parse, lines, Prepend(row, r))
  {
    var k := FirstBlank(lines[1..]);
    assert FirstBlank(lines) == 1 + k;
    ParsesUpToCons(parse, lines, k);
    if r.Extracted? {
      ParsesToCons(parse, lines, row, r.table);
      if k < |lines[1..]| {
        assert lines[1..][k + 1..] == lines[k + 2..];
      }
    }
  }

  lemma ParsesUpToCons<R>(parse: string -> Result<R>, lines: seq<string>, k: nat)
    requires |lines| > 0
    ensures ParsesUpTo(parse, lines, k + 1) <==> parse(lines[0]).Ok? && ParsesUpTo(parse, lines[1..], k)
  {
    assert forall i :: 0 < i < |lines| ==> lines[i] == lines[1..][i - 1];
  }

  lemma ParsesToCons<R>(parse: string -> Result<R>, lines: seq<string>, row: R, table: seq<R>)
    requires |lines| > 0 && parse(lines[0]) == Ok(row) && ParsesTo(parse, lines[1..], table)
    ensures ParsesTo(parse, lines, [row] + table)
  {
    var t := [row] + table;
    forall i | 0 <= i < |t|
      ensures parse(lines[i]) == Ok(t[i])
    {
      if i > 0 {
        assert lines[i] == lines[1..][i - 1];
        assert t[i] == table[i - 1];
      }
    }
  }

  /** A failed extraction reports the exception of the first line before the
      terminating blank line that does not parse. */
  lemma {:induction false} ExtractRowsFails<R>(parse: string -> Result<R>, lines: seq<string>)
    requires ExtractRows(parse, lines).Failed?
    ensures exists j ::
      && 0 <= j < FirstBlank(lines)
      && ParsesUpTo(parse, lines, j)
      && parse(lines[j]) == Err(ExtractRows(parse, lines).error)
    decreases |lines|
  {
    SplitEmptyIffBlank(lines[0]);
    if parse(lines[0]).Ok? {
      ExtractRowsFails(parse, lines[1..]);
      var j :| 0 <= j < FirstBlank(lines[1..]) && ParsesUpTo(parse, lines[1..], j)
        && parse(lines[1..][j]) == Err(ExtractRows(parse, lines[1..]).error);
      assert forall i :: 0 < i <= j ==> lines[i] == lines[1..][i - 1];
      assert ParsesUpTo(parse, lines, j + 1);
    } else {
      assert ParsesUpTo(parse, lines, 0);
    }
  }

  /** `make_df_on_site_combi(iterator)` with `get_compact_jij_info` as the row parser. */
  function ExtractBlock(lines: seq<string>): (r: Extraction<JijRow>)
    ensures r.Failed? ==> r.error.TokenMissing? || r.error.BadLiteral?
    ensures r.Extracted? ==> IsSuffix(r.rest, lines)
  {
    var r := ExtractRows(ParseCompact, lines);
    if r.Failed? then
      ExtractRowsFails(ParseCompact, lines);
      r
    else r
  }

  /** A table row as the program writing the output file prints it:
      integers, and decimals with a fixed number of places. */
  datatype PrintedRow = PrintedRow(
    index: int,
    site: Pair<int>,
    comp: Pair<int>,
    cell: Triple<Fixed>,
    distance: Fixed,
    jRyd: Fixed,
    jMeV: Fixed,
    dgn: int)

  /** The printed tokens of a row, in column order. */
  function PrintedTokens(p: PrintedRow): (toks: seq<string>)
    ensures |toks| == RowWidth
  {
    Columns(FormatInt(p.index), FormatInt(p.site.first), FormatInt(p.site.second),
            FormatInt(p.comp.first), FormatInt(p.comp.second),
            FormatFixed(p.cell.x), FormatFixed(p.cell.y), FormatFixed(p.cell.z),
            FormatFixed(p.distance), FormatFixed(p.jRyd), FormatFixed(p.jMeV), FormatInt(p.dgn))
  }

  function Columns(t0: string, t1: string, t2: string, t3: string, t4: string, t5: string,
                   t6: string, t7: string, t8: string, t9: string, t10: string, t11: string): (toks: seq<string>)
    ensures |toks| == RowWidth
    ensures && toks[0] == t0 && toks[1] == t1 && toks[2] == t2 && toks[3] == t3
            && toks[4] == t4 && toks[5] == t5 && toks[6] == t6 && toks[7] == t7
            && toks[8] == t8 && toks[9] == t9 && toks[10] == t10 && toks[11] == t11
  {
    [t0, t1, t2, t3, t4, t5, t6, t7, t8, t9, t10, t11]
  }

  /** The values a printed row stands for. */
  function Denotation(p: PrintedRow): JijRow {
    JijRow(
      p.index, p.site, p.comp,
      Triple(Finite(FixedValue(p.cell.x)), Finite(FixedValue(p.cell.y)), Finite(FixedValue(p.cell.z))),
      Finite(FixedValue(p.distance)), Finite(FixedValue(p.jRyd)), Finite(FixedValue(p.jMeV)),
      p.dgn)
  }

  /** A printed row, however it is spaced, parses back to exactly the values
      it was printed from. */
  lemma ParsePrinted(p: PrintedRow, gaps: seq<string>)
    requires Separates(PrintedTokens(p), gaps)
    ensures ParseCompact(Layout(PrintedTokens(p), gaps)) == Ok(Denotation(p))
  {
    var toks := PrintedTokens(p);
    PrintedTokensAreWords(p);
    SplitLayout(toks, gaps);
    PrintedDenotes(p);
    DenotesFieldsOk(toks, Denotation(p));
    DenotesUnique(toks, Denotation(p), ParseCompact(Layout(toks, gaps)).value);
  }

  /** Every printed token is a single `str.split()` token. */
  lemma PrintedTokensAreWords(p: PrintedRow)
    ensures AllWords(PrintedTokens(p))
  {
    var t0, t1, t2 := FormatInt(p.index), FormatInt(p.site.first), FormatInt(p.site.second);
    var t3, t4, t11 := FormatInt(p.comp.first), FormatInt(p.comp.second), FormatInt(p.dgn);
    var t5, t6, t7 := FormatFixed(p.cell.x), FormatFixed(p.cell.y), FormatFixed(p.cell.z);
    var t8, t9, t10 := FormatFixed(p.distance), FormatFixed(p.jRyd), FormatFixed(p.jMeV);
    FormatIntIsWord(p.index);
    FormatIntIsWord(p.site.first);
    FormatIntIsWord(p.site.second);
    FormatIntIsWord(p.comp.first);
    FormatIntIsWord(p.comp.second);
    FormatFixedIsWord(p.cell.x);
    FormatFixedIsWord(p.cell.y);
    FormatFixedIsWord(p.cell.z);
    FormatFixedIsWord(p.distance);
    FormatFixedIsWord(p.jRyd);
    FormatFixedIsWord(p.jMeV);
    FormatIntIsWord(p.dgn);
    WordsTwelve(t0, t1, t2, t3, t4, t5, t6, t7, t8, t9, t10, t11);
  }

  lemma WordsTwelve(t0: string, t1: string, t2: string, t3: string, t4: string, t5: string,
                    t6: string, t7: string, t8: string, t9: string, t10: string, t11: string)
    requires IsWord(t0) && IsWord(t1) && IsWord(t2) && IsWord(t3) && IsWord(t4) && IsWord(t5)
    requires IsWord(t6) && IsWord(t7) && IsWord(t8) && IsWord(t9) && IsWord(t10) && IsWord(t11)
    ensures AllWords([t0, t1, t2, t3, t4, t5, t6, t7, t8, t9, t10, t11])
  {
    var toks := [t0, t1, t2, t3, t4, t5, t6, t7, t8, t9, t10, t11];
    assert toks[0] == t0 && toks[1] == t1 && toks[2] == t2 && toks[3] == t3;
    assert toks[4] == t4 && toks[5] == t5 && toks[6] == t6 && toks[7] == t7;
    assert toks[8] == t8 && toks[9] == t9 && toks[10] == t10 && toks[11] == t11;
  }

  lemma PrintedDenotes(p: PrintedRow)
    ensures Denotes(PrintedTokens(p), Denotation(p))
  {
    var toks := PrintedTokens(p);
    PrintedTokensAt(p);
    IntRoundTrip(p.index);
    IntRoundTrip(p.site.first);
    IntRoundTrip(p.site.second);
    IntRoundTrip(p.comp.first);
    IntRoundTrip(p.comp.second);
    FixedRoundTrip(p.cell.x);
    FixedRoundTrip(p.cell.y);
    FixedRoundTrip(p.cell.z);
    FixedRoundTrip(p.distance);
    FixedRoundTrip(p.jRyd);
    FixedRoundTrip(p.jMeV);
    IntRoundTrip(p.dgn);
    DenotesByField(toks, Denotation(p));
  }

  lemma PrintedTokensAt(p: PrintedRow)
    ensures var toks := PrintedTokens(p);
      && toks[0] == FormatInt(p.index)
      && toks[1] == FormatInt(p.site.first)
      && toks[2] == FormatInt(p.site.second)
      && toks[3] == FormatInt(p.comp.first)
      && toks[4] == FormatInt(p.comp.second)
      && toks[5] == FormatFixed(p.cell.x)
      && toks[6] == FormatFixed(p.cell.y)
      && toks[7] == FormatFixed(p.cell.z)
      && toks[8] == FormatFixed(p.distance)
      && toks[9] == FormatFixed(p.jRyd)
      && toks[10] == FormatFixed(p.jMeV)
      && toks[11] == FormatInt(p.dgn)
  {
  }

  /** `Denotes` read off position by position. */
  lemma DenotesByField(toks: seq<string>, row: JijRow)
    requires |toks| == RowWidth
    requires ParseInt(toks[0]) == Some(row.index)
    requires ParseInt(toks[1]) == Some(row.site.first) && ParseInt(toks[2]) == Some(row.site.second)
    requires ParseInt(toks[3]) == Some(row.comp.first) && ParseInt(toks[4]) == Some(row.comp.second)
    requires ParseFloat(toks[5]) == Some(row.cell.x) && ParseFloat(toks[6]) == Some(row.cell.y)
    requires ParseFloat(toks[7]) == Some(row.cell.z) && ParseFloat(toks[8]) == Some(row.distance)
    requires ParseFloat(toks[9]) == Some(row.jRyd) && ParseFloat(toks[10]) == Some(row.jMeV)
    requires ParseInt(toks[11]) == Some(row.dgn)
    ensures Denotes(toks, row)
  {
  }

  lemma DenotesFieldsOk(toks: seq<string>, row: JijRow)
    requires Denotes(toks, row)
    ensures FieldsOk(toks, 0, RowWidth)
  {
    forall k | 0 <= k < RowWidth
      ensures FieldOk(toks, k)
    {
      if FieldKind(k) == ToInt {
        assert k == 0 || k == 1 || k == 2 || k == 3 || k == 4 || k == 11;
      } else {
        assert k == 5 || k == 6 || k == 7 || k == 8 || k == 9 || k == 10;
      }
    }
  }

  /** The tokens fix the row. */
  lemma DenotesUnique(toks: seq<string>, row1: JijRow, row2: JijRow)
    requires Denotes(toks, row1) && Denotes(toks, row2)
    ensures row1 == row2
  {
  }

  /** The table `df_jij` holds once the file has been read. */
  function Table(lines: seq<string>): (r: Result<seq<JijRow>>)
    ensures r == Err(NoTable) <==> NoMarker(lines)
    ensures r.Ok? <==> exists i: nat, t :: LastBlock(ExtractBlock, lines, i, t)
    ensures forall i: nat, t :: LastBlock(ExtractBlock, lines, i, t) ==> r == Ok(t)
    ensures r.Err? && r.error != NoTable ==> exists i: nat :: FailedBlock(ExtractBlock, lines, i, r.error)
  {
    ExtractBlockResumes();
    ScanOutcome(ExtractBlock, lines);
    ScanFrom(ExtractBlock, lines, None)
  }

  lemma ExtractBlockResumes()
    ensures Resumes(ExtractBlock)
  {
  }

  /** The printed result: the mean `J_ij(meV)` over the rows of the final
      table whose index was requested on the command line. A value is printed
      exactly when some marker the loop reads is a last block; otherwise the
      run raises `NameError`, or the exception a table-building call raised. */
  function Report(lines: seq<string>, wanted: seq<int>): (r: Result<Float>)
    ensures r == Err(NoTable) <==> NoMarker(lines)
    ensures r.Ok? <==> exists i: nat, table :: LastBlock(ExtractBlock, lines, i, table)
    ensures r.Err? && r.error != NoTable ==> exists i: nat :: FailedBlock(ExtractBlock, lines, i, r.error)
    ensures r.Ok? ==> exists i: nat, table ::
      && LastBlock(ExtractBlock, lines, i, table)
      && r.value == Mean(MeVColumn(Select(table, wanted)))
    ensures r.Ok? ==> forall i: nat, table ::
      LastBlock(ExtractBlock, lines, i, table) ==> r.value == Mean(MeVColumn(Select(table, wanted)))
  {
    ExtractBlockResumes();
    var table :- Table(lines);
    TableIsLastBlock(lines, table);
    Ok(Mean(MeVColumn(Select(table, wanted))))
  }

  /** The table found is the block after the last marker the loop reads, and
      no other marker line the loop reads has a marker-free rest. */
  lemma TableIsLastBlock(lines: seq<string>, table: seq<JijRow>)
    requires Table(lines) == Ok(table)
    ensures exists i: nat :: LastBlock(ExtractBlock, lines, i, table)
    ensures forall i: nat, t :: LastBlock(ExtractBlock, lines, i, t) ==> t == table
  {
    ExtractBlockResumes();
    ScanFromOk(ExtractBlock, lines, None, table);
    LastBlocksAgree(ExtractBlock, lines);
  }
}
