/** What both scraper scripts share: the header marker, the shapes of a
    table row, the effect of a table-building call on the line iterator, and
    the unused `get_verbose_jij_info`, which both scripts define identically. */
module Jij {
  import opened Outcomes
  import opened Text
  import opened Numerals

  /** The header-line marker, spacing included. */
  const Marker: string := "index   site    comp"

  /** The marker test `JIJ_DETECT_KEYWORD in line`. */
  predicate IsMarkerLine(line: string) {
    Contains(line, Marker)
  }

  predicate NoMarker(lines: seq<string>) {
    forall i :: 0 <= i < |lines| ==> !IsMarkerLine(lines[i])
  }

  /** The number of tokens a table row is read from. */
  const RowWidth: nat := 12

  datatype Pair<T> = Pair(first: T, second: T)

  datatype Triple<T> = Triple(x: T, y: T, z: T)

  /** One Jij table row with its fields converted, as the first script builds it. */
  datatype JijRow = JijRow(
    index: int,
    site: Pair<int>,
    comp: Pair<int>,
    cell: Triple<Float>,
    distance: Float,
    jRyd: Float,
    jMeV: Float,
    dgn: int)

  /** One Jij table row kept as its raw tokens, as the second script builds it. */
  datatype RawRow = RawRow(
    index: string,
    site: Pair<string>,
    comp: Pair<string>,
    cell: Triple<string>,
    distance: string,
    jRyd: string,
    jMeV: string,
    dgn: string)

  /** The twelve tokens a raw row was read from, in line order. */
  function RawTokens(row: RawRow): (toks: seq<string>)
    ensures |toks| == RowWidth
  {
    [row.index, row.site.first, row.site.second, row.comp.first, row.comp.second,
     row.cell.x, row.cell.y, row.cell.z, row.distance, row.jRyd, row.jMeV, row.dgn]
  }

  /** The outcome of one table-building call on the shared line iterator: the
      table and the lines it left unread, or the exception it raised. */
  datatype Extraction<R> = Extracted(table: seq<R>, rest: seq<string>) | Failed(error: Error)

  /** `rest` is what an iterator over `lines` still yields after some `next` calls. */
  predicate IsSuffix(rest: seq<string>, lines: seq<string>) {
    |rest| <= |lines| && rest == lines[|lines| - |rest|..]
  }

  /** `toks[k]`, or the `IndexError` it raises. */
  function Token(toks: seq<string>, k: nat): (r: Result<string>)
    ensures r.Ok? <==> k < |toks|
    ensures r.Ok? ==> r.value == toks[k]
    ensures r.Err? ==> r.error == TokenMissing(k)
  {
    if k < |toks| then Ok(toks[k]) else Err(TokenMissing(k))
  }

  /** `get_verbose_jij_info(line)`. It returns nothing, so only its
      `IndexError` is observable. It reads tokens 0-4, 6-8 and 10-12 in that
      order: a line needs thirteen tokens, and a five- or nine-token line fails
      at the position after its last token, since 5 and 9 are never read. */
  function VerboseFields(line: string): (r: Result<()>)
    ensures r.Ok? <==> |Split(line)| > 12
    ensures var n := |Split(line)|;
      r.Err? ==> r.error == TokenMissing(if n == 5 || n == 9 then n + 1 else n)
  {
    var toks := Split(line);
    var pair :- Token(toks, 0);
    var atom1 :- Token(toks, 1);
    var atom2 :- Token(toks, 2);
    var comp1 :- Token(toks, 3);
    var comp2 :- Token(toks, 4);
    var cell1 :- Token(toks, 6);
    var cell2 :- Token(toks, 7);
    var cell3 :- Token(toks, 8);
    var distance :- Token(toks, 10);
    var jMeV :- Token(toks, 11);
    var index :- Token(toks, 12);
    Ok(())
  }

  /** What the main loop needs of a table-building call: the lines it leaves
      unread are a suffix of those it was given, and its exceptions come from
      the rows themselves. */
  ghost predicate Resumes<R>(extract: seq<string> -> Extraction<R>) {
    forall lines ::
      && (extract(lines).Extracted? ==> IsSuffix(extract(lines).rest, lines))
      && (extract(lines).Failed? ==> extract(lines).error != NoTable)
  }

  /** The main loop `for line in f`, with `found` the `df_jij` built so far:
      each marker line hands the same iterator to the table-building call,
      whose table replaces the previous one, and the scan resumes after the
      lines it consumed. Reaching the end with no table is the `NameError`
      raised by the later use of `df_jij`. */
  function ScanFrom<R>(extract: seq<string> -> Extraction<R>, lines: seq<string>, found: Option<seq<R>>): (r: Result<seq<R>>)
    requires Resumes(extract)
    ensures r == Err(NoTable) <==> found.None? && NoMarker(lines)
    decreases |lines|
  {
    if |lines| == 0 then
      match found
      case None => Err(NoTable)
      case Some(table) => Ok(table)
    else if IsMarkerLine(lines[0]) then
      match extract(lines[1..])
      case Failed(e) => Err(e)
      case Extracted(table, rest) => ScanFrom(extract, rest, Some(table))
    else
      assert forall i :: 0 <= i < |lines[1..]| ==> lines[1..][i] == lines[i + 1];
      ScanFrom(extract, lines[1..], found)
  }

  /** Line `i` is one the main loop `for line in f` takes as its loop
      variable: it is not among the lines a table-building call consumed.
      The recursion is that of `ScanFrom`. */
  ghost predicate Reads<R>(extract: seq<string> -> Extraction<R>, lines: seq<string>, i: nat)
    decreases |lines|
  {
    && i < |lines|
    && (|| i == 0
        || if IsMarkerLine(lines[0]) then
             match extract(lines[1..])
             case Failed(_) => false
             case Extracted(_, rest) =>
               && |rest| < |lines|
               && |lines| - |rest| <= i
               && Reads(extract, rest, i - (|lines| - |rest|))
           else Reads(extract, lines[1..], i - 1))
  }

  /** Line `i` is a marker the loop reads, its table builds, and no marker
      follows the lines that call consumed: the table the scan ends with. */
  ghost predicate LastBlock<R>(extract: seq<string> -> Extraction<R>, lines: seq<string>, i: nat, table: seq<R>) {
    && i < |lines|
    && Reads(extract, lines, i)
    && IsMarkerLine(lines[i])
    && extract(lines[i + 1..]).Extracted?
    && extract(lines[i + 1..]).table == table
    && NoMarker(extract(lines[i + 1..]).rest)
  }

  /** A successful scan ends with the table of the last marker it met, or,
      when it meets none, with the table it started with. */
  lemma {:induction false} ScanFromOk<R>(extract: seq<string> -> Extraction<R>, lines: seq<string>, found: Option<seq<R>>, table: seq<R>)
    requires Resumes(extract)
    requires ScanFrom(extract, lines, found) == Ok(table)
    ensures (exists i: nat :: LastBlock(extract, lines, i, table)) || (found == Some(table) && NoMarker(lines))
    decreases |lines|
  {
    if |lines| > 0 {
      if IsMarkerLine(lines[0]) {
        var rest := extract(lines[1..]).rest;
        ScanFromOk(extract, rest, Some(extract(lines[1..]).table), table);
        LastBlockAfterMarker(extract, lines, table);
      } else {
        ScanFromOk(extract, lines[1..], found, table);
        LastBlockAfterPlain(extract, lines, found, table);
      }
    }
  }

  lemma LastBlockAfterMarker<R>(extract: seq<string> -> Extraction<R>, lines: seq<string>, table: seq<R>)
    requires Resumes(extract)
    requires |lines| > 0 && IsMarkerLine(lines[0]) && extract(lines[1..]).Extracted?
    requires var r := extract(lines[1..]);
      (exists i: nat :: LastBlock(extract, r.rest, i, table)) || (r.table == table && NoMarker(r.rest))
    ensures exists i: nat :: LastBlock(extract, lines, i, table)
  {
    var rest := extract(lines[1..]).rest;
    if exists i: nat :: LastBlock(extract, rest, i, table) {
      var i: nat :| LastBlock(extract, rest, i, table);
      LastBlockShift(extract, lines, i, table);
    } else {
      assert lines[0 + 1..] == lines[1..];
      assert LastBlock(extract, lines, 0, table);
    }
  }

  /** A last block of the lines left after the first marker's table is a
      last block of the whole input. */
  lemma LastBlockShift<R>(extract: seq<string> -> Extraction<R>, lines: seq<string>, i: nat, table: seq<R>)
    requires Resumes(extract)
    requires |lines| > 0 && IsMarkerLine(lines[0]) && extract(lines[1..]).Extracted?
    requires LastBlock(extract, extract(lines[1..]).rest, i, table)
    ensures LastBlock(extract, lines, |lines| - |extract(lines[1..]).rest| + i, table)
  {
    var rest := extract(lines[1..]).rest;
    var k := |lines| - |rest|;
    assert lines[1..][|lines[1..]| - |rest|..] == rest;
    assert rest == lines[k..];
    assert rest[i + 1..] == lines[k + i + 1..];
    assert rest[i] == lines[k + i];
    ReadsShift(extract, lines, i);
  }

  lemma ReadsShift<R>(extract: seq<string> -> Extraction<R>, lines: seq<string>, i: nat)
    requires Resumes(extract)
    requires |lines| > 0 && IsMarkerLine(lines[0]) && extract(lines[1..]).Extracted?
    requires Reads(extract, extract(lines[1..]).rest, i)
    ensures Reads(extract, lines, |lines| - |extract(lines[1..]).rest| + i)
  {
    var rest := extract(lines[1..]).rest;
    assert |rest| < |lines|;
  }

  lemma LastBlockAfterPlain<R>(extract: seq<string> -> Extraction<R>, lines: seq<string>, found: Option<seq<R>>, table: seq<R>)
    requires |lines| > 0 && !IsMarkerLine(lines[0])
    requires (exists i: nat :: LastBlock(extract, lines[1..], i, table)) || (found == Some(table) && NoMarker(lines[1..]))
    ensures (exists i: nat :: LastBlock(extract, lines, i, table)) || (found == Some(table) && NoMarker(lines))
  {
    if exists i: nat :: LastBlock(extract, lines[1..], i, table) {
      var i: nat :| LastBlock(extract, lines[1..], i, table);
      assert lines[1..][i + 1..] == lines[i + 2..];
      assert Reads(extract, lines, i + 1);
      assert LastBlock(extract, lines, i + 1, table);
    } else {
      assert forall i :: 1 <= i < |lines| ==> lines[i] == lines[1..][i - 1];
    }
  }

  /** After a marker the loop reads, the next line it reads lies past the
      lines the table-building call consumed. */
  lemma ReadAfterMarker<R>(extract: seq<string> -> Extraction<R>, lines: seq<string>, j: nat)
    requires Resumes(extract)
    requires |lines| > 0 && IsMarkerLine(lines[0]) && Reads(extract, lines, j) && j > 0
    ensures extract(lines[1..]).Extracted?
    ensures var rest := extract(lines[1..]).rest; var k := |lines| - |rest|;
      && k <= j && rest == lines[k..] && Reads(extract, rest, j - k)
  {
    var rest := extract(lines[1..]).rest;
    assert lines[1..][|lines[1..]| - |rest|..] == lines[|lines| - |rest|..];
  }

  /** No line the loop reads after the last block is a marker. */
  lemma {:induction false} LastBlockIsLast<R>(extract: seq<string> -> Extraction<R>, lines: seq<string>, i: nat, table: seq<R>, j: nat)
    requires Resumes(extract)
    requires LastBlock(extract, lines, i, table) && Reads(extract, lines, j) && i < j
    ensures !IsMarkerLine(lines[j])
    decreases |lines|, 1
  {
    if i == 0 {
      FirstBlockIsLast(extract, lines, table, j);
    } else if IsMarkerLine(lines[0]) {
      LaterBlockIsLast(extract, lines, i, table, j);
    } else {
      LastBlockInTail(extract, lines, i, table);
      LastBlockIsLast(extract, lines[1..], i - 1, table, j - 1);
      assert lines[1..][j - 1] == lines[j];
    }
  }

  lemma {:induction false} LaterBlockIsLast<R>(extract: seq<string> -> Extraction<R>, lines: seq<string>, i: nat, table: seq<R>, j: nat)
    requires Resumes(extract)
    requires |lines| > 0 && IsMarkerLine(lines[0]) && 0 < i < j
    requires LastBlock(extract, lines, i, table) && Reads(extract, lines, j)
    ensures !IsMarkerLine(lines[j])
    decreases |lines|, 0
  {
    LastBlockInRest(extract, lines, i, table);
    ReadAfterMarker(extract, lines, j);
    var rest := extract(lines[1..]).rest;
    var k := |lines| - |rest|;
    LastBlockIsLast(extract, rest, i - k, table, j - k);
    assert rest[j - k] == lines[j];
  }

  lemma FirstBlockIsLast<R>(extract: seq<string> -> Extraction<R>, lines: seq<string>, table: seq<R>, j: nat)
    requires Resumes(extract)
    requires LastBlock(extract, lines, 0, table) && Reads(extract, lines, j) && 0 < j
    ensures !IsMarkerLine(lines[j])
  {
    ReadAfterMarker(extract, lines, j);
    var rest := extract(lines[1..]).rest;
    assert lines[0 + 1..] == lines[1..];
    assert lines[j] == rest[j - (|lines| - |rest|)];
  }

  lemma LastBlockInRest<R>(extract: seq<string> -> Extraction<R>, lines: seq<string>, i: nat, table: seq<R>)
    requires Resumes(extract)
    requires |lines| > 0 && IsMarkerLine(lines[0]) && LastBlock(extract, lines, i, table) && i > 0
    ensures extract(lines[1..]).Extracted?
    ensures var rest := extract(lines[1..]).rest; var k := |lines| - |rest|;
      k <= i && LastBlock(extract, rest, i - k, table)
  {
    ReadAfterMarker(extract, lines, i);
    var rest := extract(lines[1..]).rest;
    var k := |lines| - |rest|;
    assert rest[i - k] == lines[i];
    assert rest[i - k + 1..] == lines[i + 1..];
  }

  lemma LastBlockInTail<R>(extract: seq<string> -> Extraction<R>, lines: seq<string>, i: nat, table: seq<R>)
    requires |lines| > 0 && !IsMarkerLine(lines[0]) && LastBlock(extract, lines, i, table) && i > 0
    ensures LastBlock(extract, lines[1..], i - 1, table)
    ensures forall j: nat :: 0 < j && Reads(extract, lines, j) ==> Reads(extract, lines[1..], j - 1)
  {
    var tail := lines[1..];
    assert tail[i - 1] == lines[i];
    assert tail[i - 1 + 1..] == lines[i + 1..];
  }

  /** There is only one last block, so it fixes the table. */
  lemma LastBlockUnique<R>(extract: seq<string> -> Extraction<R>, lines: seq<string>,
                           i: nat, table1: seq<R>, j: nat, table2: seq<R>)
    requires Resumes(extract)
    requires LastBlock(extract, lines, i, table1) && LastBlock(extract, lines, j, table2)
    ensures i == j && table1 == table2
  {
    if i < j {
      LastBlockIsLast(extract, lines, i, table1, j);
      assert false;
    } else if j < i {
      LastBlockIsLast(extract, lines, j, table2, i);
      assert false;
    }
  }

  lemma LastBlocksAgree<R>(extract: seq<string> -> Extraction<R>, lines: seq<string>)
    requires Resumes(extract)
    ensures forall i: nat, table1, j: nat, table2 ::
      LastBlock(extract, lines, i, table1) && LastBlock(extract, lines, j, table2) ==> table1 == table2
  {
    forall i: nat, table1, j: nat, table2 | LastBlock(extract, lines, i, table1) && LastBlock(extract, lines, j, table2)
      ensures table1 == table2
    {
      LastBlockUnique(extract, lines, i, table1, j, table2);
    }
  }

  /** Line `i` is a marker the loop reads whose table-building call raises `e`. */
  ghost predicate FailedBlock<R>(extract: seq<string> -> Extraction<R>, lines: seq<string>, i: nat, e: Error) {
    && i < |lines|
    && Reads(extract, lines, i)
    && IsMarkerLine(lines[i])
    && extract(lines[i + 1..]) == Failed(e)
  }

  /** The converse of `ScanFromOk`: a last block decides the scan, whatever
      table was held before. */
  lemma {:induction false} LastBlockScans<R>(extract: seq<string> -> Extraction<R>, lines: seq<string>,
                                             found: Option<seq<R>>, i: nat, table: seq<R>)
    requires Resumes(extract)
    requires LastBlock(extract, lines, i, table)
    ensures ScanFrom(extract, lines, found) == Ok(table)
    decreases |lines|, 1
  {
    if i == 0 {
      assert lines[0 + 1..] == lines[1..];
      var rest := extract(lines[1..]).rest;
      ScanSkips(extract, rest, [], Some(table));
      assert rest + [] == rest;
    } else if IsMarkerLine(lines[0]) {
      LaterBlockScans(extract, lines, found, i, table);
    } else {
      LastBlockInTail(extract, lines, i, table);
      LastBlockScans(extract, lines[1..], found, i - 1, table);
    }
  }

  lemma {:induction false} LaterBlockScans<R>(extract: seq<string> -> Extraction<R>, lines: seq<string>,
                                              found: Option<seq<R>>, i: nat, table: seq<R>)
    requires Resumes(extract)
    requires |lines| > 0 && IsMarkerLine(lines[0]) && i > 0
    requires LastBlock(extract, lines, i, table)
    ensures ScanFrom(extract, lines, found) == Ok(table)
    decreases |lines|, 0
  {
    LastBlockInRest(extract, lines, i, table);
    var r := extract(lines[1..]);
    LastBlockScans(extract, r.rest, Some(r.table), i - (|lines| - |r.rest|), table);
  }

  /** A run that raises anything but `NameError` raises what the
      table-building call of some marker line the loop reads raised. */
  lemma {:induction false} ScanFails<R>(extract: seq<string> -> Extraction<R>, lines: seq<string>, found: Option<seq<R>>)
    requires Resumes(extract)
    ensures var r := ScanFrom(extract, lines, found);
      r.Err? && r.error != NoTable ==> exists i: nat :: FailedBlock(extract, lines, i, r.error)
    decreases |lines|
  {
    var r := ScanFrom(extract, lines, found);
    if |lines| > 0 && r.Err? && r.error != NoTable {
      if IsMarkerLine(lines[0]) {
        match extract(lines[1..])
        case Failed(e) =>
          assert lines[0 + 1..] == lines[1..];
          assert FailedBlock(extract, lines, 0, r.error);
        case Extracted(table, rest) =>
          ScanFails(extract, rest, Some(table));
          var i: nat :| FailedBlock(extract, rest, i, r.error);
          FailedBlockShift(extract, lines, i, r.error);
      } else {
        ScanFails(extract, lines[1..], found);
        var i: nat :| FailedBlock(extract, lines[1..], i, r.error);
        assert lines[1..][i + 1..] == lines[i + 2..];
        assert Reads(extract, lines, i + 1);
        assert FailedBlock(extract, lines, i + 1, r.error);
      }
    }
  }

  lemma FailedBlockShift<R>(extract: seq<string> -> Extraction<R>, lines: seq<string>, i: nat, e: Error)
    requires Resumes(extract)
    requires |lines| > 0 && IsMarkerLine(lines[0]) && extract(lines[1..]).Extracted?
    requires FailedBlock(extract, extract(lines[1..]).rest, i, e)
    ensures FailedBlock(extract, lines, |lines| - |extract(lines[1..]).rest| + i, e)
  {
    var rest := extract(lines[1..]).rest;
    var k := |lines| - |rest|;
    assert lines[1..][|lines[1..]| - |rest|..] == rest;
    assert rest == lines[k..];
    assert rest[i + 1..] == lines[k + i + 1..];
    assert rest[i] == lines[k + i];
    ReadsShift(extract, lines, i);
  }

  /** How a whole run ends: with a table exactly when some marker the loop
      reads is a last block, and then with that block's table; with an
      exception other than `NameError` only when a table-building call
      raised it. */
  lemma ScanOutcome<R>(extract: seq<string> -> Extraction<R>, lines: seq<string>)
    requires Resumes(extract)
    ensures ScanFrom(extract, lines, None).Ok? <==> exists i: nat, t :: LastBlock(extract, lines, i, t)
    ensures forall i: nat, t :: LastBlock(extract, lines, i, t) ==> ScanFrom(extract, lines, None) == Ok(t)
    ensures var r := ScanFrom(extract, lines, None);
      r.Err? && r.error != NoTable ==> exists i: nat :: FailedBlock(extract, lines, i, r.error)
  {
    var r := ScanFrom(extract, lines, None);
    if exists i: nat, t :: LastBlock(extract, lines, i, t) {
      var i: nat, t :| LastBlock(extract, lines, i, t);
      LastBlockScans(extract, lines, None, i, t);
    }
    if r.Ok? {
      ScanOkHasLastBlock(extract, lines);
      var i: nat :| LastBlock(extract, lines, i, r.value);
      var t: seq<R> := r.value;
      assert LastBlock(extract, lines, i, t);
    }
    LastBlocksScan(extract, lines);
    ScanFails(extract, lines, None);
  }

  lemma ScanOkHasLastBlock<R>(extract: seq<string> -> Extraction<R>, lines: seq<string>)
    requires Resumes(extract)
    ensures ScanFrom(extract, lines, None).Ok? ==> exists i: nat :: LastBlock(extract, lines, i, ScanFrom(extract, lines, None).value)
  {
    var r := ScanFrom(extract, lines, None);
    if r.Ok? {
      ScanFromOk(extract, lines, None, r.value);
    }
  }

  lemma LastBlocksScan<R>(extract: seq<string> -> Extraction<R>, lines: seq<string>)
    requires Resumes(extract)
    ensures forall i: nat, t :: LastBlock(extract, lines, i, t) ==> ScanFrom(extract, lines, None) == Ok(t)
  {
    forall i: nat, t | LastBlock(extract, lines, i, t)
      ensures ScanFrom(extract, lines, None) == Ok(t)
    {
      LastBlockScans(extract, lines, None, i, t);
    }
  }

  /** Lines without a marker only pass by. */
  lemma {:induction false} ScanSkips<R>(extract: seq<string> -> Extraction<R>, pre: seq<string>, lines: seq<string>, found: Option<seq<R>>)
    requires Resumes(extract)
    requires NoMarker(pre)
    ensures ScanFrom(extract, pre + lines, found) == ScanFrom(extract, lines, found)
    decreases |pre|
  {
    if |pre| > 0 {
      assert (pre + lines)[0] == pre[0] && !IsMarkerLine(pre[0]);
      assert (pre + lines)[1..] == pre[1..] + lines;
      assert forall i :: 0 <= i < |pre[1..]| ==> pre[1..][i] == pre[i + 1];
      ScanSkips(extract, pre[1..], lines, found);
      assert ScanFrom(extract, pre + lines, found) == ScanFrom(extract, (pre + lines)[1..], found);
    } else {
      assert pre + lines == lines;
    }
  }

  /** A single marker whose table is followed by no other marker yields that
      table; a table that does not build makes the whole run fail with its
      exception. */
  lemma ScanFindsTable<R>(extract: seq<string> -> Extraction<R>, pre: seq<string>, marker: string, body: seq<string>)
    requires Resumes(extract)
    requires NoMarker(pre) && IsMarkerLine(marker)
    ensures extract(body).Failed? ==>
      ScanFrom(extract, pre + [marker] + body, None) == Err(extract(body).error)
    ensures extract(body).Extracted? && NoMarker(extract(body).rest) ==>
      ScanFrom(extract, pre + [marker] + body, None) == Ok(extract(body).table)
  {
    assert pre + [marker] + body == pre + ([marker] + body);
    ScanSkips(extract, pre, [marker] + body, None);
    assert ([marker] + body)[1..] == body;
    var r := extract(body);
    if r.Extracted? && NoMarker(r.rest) {
      ScanSkips(extract, r.rest, [], Some(r.table));
      assert r.rest + [] == r.rest;
    }
  }

  /** Of two marked tables the later one wins. */
  lemma LaterTableWins<R>(extract: seq<string> -> Extraction<R>,
                          marker1: string, body1: seq<string>, between: seq<string>,
                          marker2: string, body2: seq<string>)
    requires Resumes(extract)
    requires IsMarkerLine(marker1) && IsMarkerLine(marker2) && NoMarker(between)
    requires extract(body1).Extracted? && extract(body1).rest == between + [marker2] + body2
    requires extract(body2).Extracted? && NoMarker(extract(body2).rest)
    ensures ScanFrom(extract, [marker1] + body1, None) == Ok(extract(body2).table)
  {
    assert ([marker1] + body1)[1..] == body1;
    var t1 := extract(body1).table;
    assert ScanFrom(extract, [marker1] + body1, None) == ScanFrom(extract, between + [marker2] + body2, Some(t1));
    assert between + [marker2] + body2 == between + ([marker2] + body2);
    ScanSkips(extract, between, [marker2] + body2, Some(t1));
    assert ([marker2] + body2)[1..] == body2;
    var r := extract(body2);
    ScanSkips(extract, r.rest, [], Some(r.table));
    assert r.rest + [] == r.rest;
  }
}
