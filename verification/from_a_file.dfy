/** The second script: rows kept as raw token strings, a table-building
    loop that keeps only the first line after the marker, and the same
    marker scan as the first script. */
module FromAFile {
  import opened Outcomes
  import opened Text
  import opened Jij
  import FromFile

  /** `get_compact_jij_info(line)` without conversions: tokens 0 to 11 are
      read in order into their positions, the first missing one raises
      `IndexError`, and further tokens are ignored. */
  function ParseRaw(line: string): (r: Result<RawRow>)
    ensures r.Ok? <==> |Split(line)| >= RowWidth
    ensures r.Ok? ==> RawTokens(r.value) == Split(line)[..RowWidth]
    ensures r.Err? ==> r.error == TokenMissing(|Split(line)|)
  {
    var toks := Split(line);
    var index :- Token(toks, 0);
    var site1 :- Token(toks, 1);
    var site2 :- Token(toks, 2);
    var comp1 :- Token(toks, 3);
    var comp2 :- Token(toks, 4);
    var cell1 :- Token(toks, 5);
    var cell2 :- Token(toks, 6);
    var cell3 :- Token(toks, 7);
    var distance :- Token(toks, 8);
    var jRyd :- Token(toks, 9);
    var jMeV :- Token(toks, 10);
    var dgn :- Token(toks, 11);
    Ok(RawRow(index, Pair(site1, site2), Pair(comp1, comp2), Triple(cell1, cell2, cell3),
              distance, jRyd, jMeV, dgn))
  }

  /** A row written out with any legal spacing, and any further tokens after
      it, reads back as the same row. */
  lemma RawRoundTrip(row: RawRow, extra: seq<string>, gaps: seq<string>)
    requires AllWords(RawTokens(row) + extra)
    requires Separates(RawTokens(row) + extra, gaps)
    ensures ParseRaw(Layout(RawTokens(row) + extra, gaps)) == Ok(row)
  {
    var ws := RawTokens(row) + extra;
    SplitLayout(ws, gaps);
    assert ws[..RowWidth] == RawTokens(row);
    var r := ParseRaw(Layout(ws, gaps)).value;
    RawTokensInjective(r, row);
  }

  /** A raw row is determined by its tokens. */
  lemma RawTokensInjective(a: RawRow, b: RawRow)
    requires RawTokens(a) == RawTokens(b)
    ensures a == b
  {
    assert RawTokens(a)[0] == RawTokens(b)[0] && RawTokens(a)[1] == RawTokens(b)[1];
    assert RawTokens(a)[2] == RawTokens(b)[2] && RawTokens(a)[3] == RawTokens(b)[3];
    assert RawTokens(a)[4] == RawTokens(b)[4] && RawTokens(a)[5] == RawTokens(b)[5];
    assert RawTokens(a)[6] == RawTokens(b)[6] && RawTokens(a)[7] == RawTokens(b)[7];
    assert RawTokens(a)[8] == RawTokens(b)[8] && RawTokens(a)[9] == RawTokens(b)[9];
    assert RawTokens(a)[10] == RawTokens(b)[10] && RawTokens(a)[11] == RawTokens(b)[11];
  }

  /** `make_df_on_site_combi(iterator)`: the first line is parsed and its row
      appended before the break test `type(line.split()[0]) is str` runs.
      `str.split()` yields only strings, so the test always holds and the loop
      ends after one line. With nothing left to read the table is empty. */
  function ExtractFirstRow(lines: seq<string>): (r: Extraction<RawRow>)
    ensures |lines| == 0 ==> r == Extracted([], [])
    ensures |lines| > 0 ==> (r.Extracted? <==> |Split(lines[0])| >= RowWidth)
    ensures |lines| > 0 && r.Extracted? ==>
      && |r.table| == 1
      && RawTokens(r.table[0]) == Split(lines[0])[..RowWidth]
      && r.rest == lines[1..]
    ensures r.Failed? ==> |lines| > 0 && r.error == TokenMissing(|Split(lines[0])|)
  {
    if |lines| == 0 then Extracted([], [])
    else match ParseRaw(lines[0])
      case Err(e) => Failed(e)
      case Ok(row) => Extracted([row], lines[1..])
  }

  /** A whitespace-only first line raises at token 0: the parse comes before
      any stop test. */
  lemma BlankFirstLineFails(lines: seq<string>)
    requires |lines| > 0 && IsBlank(lines[0])
    ensures ExtractFirstRow(lines) == Failed(TokenMissing(0))
  {
    SplitEmptyIffBlank(lines[0]);
  }

  lemma ExtractFirstRowResumes()
    ensures Resumes(ExtractFirstRow)
  {
  }

  /** The table `df_jij` holds once the file has been read, which the script
      prints. */
  function Table(lines: seq<string>): (r: Result<seq<RawRow>>)
    ensures r == Err(NoTable) <==> NoMarker(lines)
    ensures r.Ok? ==> |r.value| <= 1
    ensures r.Ok? <==> exists i: nat, t :: LastBlock(ExtractFirstRow, lines, i, t)
    ensures r.Err? && r.error != NoTable ==> exists i: nat :: FailedBlock(ExtractFirstRow, lines, i, r.error)
  {
    ExtractFirstRowResumes();
    ScanOutcome(ExtractFirstRow, lines);
    var table :- ScanFrom(ExtractFirstRow, lines, None);
    ScanFromOk(ExtractFirstRow, lines, None, table);
    Ok(table)
  }

  /** Line `i` is a marker the main loop reads, and `table` is what the line
      after it gives. That line is consumed as a row even when it holds the
      marker itself, so it is not read as a loop line, and only the lines
      after it must be marker-free. */
  ghost predicate RowAfterMarker(lines: seq<string>, i: nat, table: seq<RawRow>) {
    && i < |lines|
    && Reads(ExtractFirstRow, lines, i)
    && IsMarkerLine(lines[i])
    && if i + 1 == |lines| then table == []
       else
         && ParseRaw(lines[i + 1]).Ok?
         && table == [ParseRaw(lines[i + 1]).value]
         && NoMarker(lines[i + 2..])
  }

  /** The printed table is the row on the line after the last marker the loop
      reads, or empty when that marker is the final line; and only one marker
      line fits that description. */
  lemma TableIsRowAfterLastMarker(lines: seq<string>)
    requires Table(lines).Ok?
    ensures exists i: nat :: RowAfterMarker(lines, i, Table(lines).value)
    ensures forall i: nat, t :: RowAfterMarker(lines, i, t) ==> t == Table(lines).value
  {
    ExtractFirstRowResumes();
    var table := Table(lines).value;
    ScanFromOk(ExtractFirstRow, lines, None, table);
    var i: nat :| LastBlock(ExtractFirstRow, lines, i, table);
    if i + 1 < |lines| {
      assert lines[i + 1..][0] == lines[i + 1];
      assert lines[i + 1..][1..] == lines[i + 2..];
    }
    assert RowAfterMarker(lines, i, table);
    forall j: nat, t | RowAfterMarker(lines, j, t)
      ensures t == table
    {
      RowAfterMarkerIsLastBlock(lines, j, t);
      LastBlockUnique(ExtractFirstRow, lines, i, table, j, t);
    }
  }

  /** The converse: a marker the loop reads, followed by a row line (or by
      nothing) after which no marker comes, decides what is printed. */
  lemma RowAfterMarkerGivesTable(lines: seq<string>, i: nat, table: seq<RawRow>)
    requires RowAfterMarker(lines, i, table)
    ensures Table(lines) == Ok(table)
  {
    ExtractFirstRowResumes();
    RowAfterMarkerIsLastBlock(lines, i, table);
    LastBlockScans(ExtractFirstRow, lines, None, i, table);
  }

  /** A run that raises anything but `NameError` raises the `IndexError` of
      a short line right after a marker the loop reads. */
  lemma TableFails(lines: seq<string>)
    ensures var r := Table(lines);
      r.Err? && r.error != NoTable ==> exists i: nat ::
        && i + 1 < |lines|
        && Reads(ExtractFirstRow, lines, i)
        && IsMarkerLine(lines[i])
        && |Split(lines[i + 1])| < RowWidth
        && r.error == TokenMissing(|Split(lines[i + 1])|)
  {
    var r := Table(lines);
    if r.Err? && r.error != NoTable {
      var i: nat :| FailedBlock(ExtractFirstRow, lines, i, r.error);
      assert lines[i + 1..][0] == lines[i + 1];
    }
  }

  lemma RowAfterMarkerIsLastBlock(lines: seq<string>, i: nat, table: seq<RawRow>)
    requires RowAfterMarker(lines, i, table)
    ensures LastBlock(ExtractFirstRow, lines, i, table)
  {
    if i + 1 < |lines| {
      assert lines[i + 1..][0] == lines[i + 1];
      assert lines[i + 1..][1..] == lines[i + 2..];
    }
  }

  /** The two drafts agree on the text of a row: a line the first script
      converts is one the second reads, and the typed row is what the raw
      tokens convert to. */
  lemma TypedRowDenotesRawRow(line: string)
    ensures FromFile.ParseCompact(line).Ok? ==>
      && ParseRaw(line).Ok?
      && FromFile.Denotes(RawTokens(ParseRaw(line).value), FromFile.ParseCompact(line).value)
  {
    if FromFile.ParseCompact(line).Ok? {
      var toks := Split(line);
      assert FromFile.FieldOk(toks, RowWidth - 1);
      var raw := RawTokens(ParseRaw(line).value);
      assert forall k :: 0 <= k < RowWidth ==> raw[k] == toks[k] by {
        forall k | 0 <= k < RowWidth
          ensures raw[k] == toks[k]
        {
          assert toks[..RowWidth][k] == toks[k];
        }
      }
      assert raw[0] == toks[0] && raw[1] == toks[1] && raw[2] == toks[2] && raw[3] == toks[3];
      assert raw[4] == toks[4] && raw[5] == toks[5] && raw[6] == toks[6] && raw[7] == toks[7];
      assert raw[8] == toks[8] && raw[9] == toks[9] && raw[10] == toks[10] && raw[11] == toks[11];
    }
  }
}
