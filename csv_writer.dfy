/**
 * dumpToCSV (src/exporter.ts): optionally sorts the caller's array by id in
 * place, renders one line per record under a fixed header line, and hands the
 * text to the file system (here: returns it).
 */
module CsvWriter {
  import opened Wrappers
  import opened Types
  import opened Text
  import opened IdOrder

  /** The column names, in column order. */
  const HEADERS: seq<string> := ["id", "queries", "launches", "lastAccessed"]

  /** `headers.join(",")`. */
  function HeaderLine(): string
  {
    Join(HEADERS, ',')
  }

  /** One record as `id,queries,launches,lastAccessed`, unquoted. */
  function RowText(h: HymnData): string
  {
    h.id + "," + h.queries + "," + h.launches + "," + h.lastAccessed
  }

  /** `data.map(row => ...)`. */
  function RowTexts(rows: seq<HymnData>): (lines: seq<string>)
    ensures |lines| == |rows|
    ensures forall i :: 0 <= i < |rows| ==> lines[i] == RowText(rows[i])
  {
    seq(|rows|, i requires 0 <= i < |rows| => RowText(rows[i]))
  }

  /** The written text: the header line, a newline, and the rows joined by newlines. */
  function CsvText(rows: seq<HymnData>): string
  {
    HeaderLine() + "\n" + Join(RowTexts(rows), '\n')
  }

  // ---------------------------------------------------------------------------
  // The inverse reading of the text, to state what the text contains

  /** A record none of whose fields holds a newline: its row is one line of the text. */
  predicate NewlineFree(h: HymnData)
  {
    '\n' !in h.id && '\n' !in h.queries && '\n' !in h.launches && '\n' !in h.lastAccessed
  }

  /** A record none of whose fields holds a comma or a newline: its row also splits back into its fields. */
  predicate CsvSafe(h: HymnData)
  {
    && ',' !in h.id && ',' !in h.queries && ',' !in h.launches && ',' !in h.lastAccessed
    && '\n' !in h.id && '\n' !in h.queries && '\n' !in h.launches && '\n' !in h.lastAccessed
  }

  function ParseRow(line: string): Option<HymnData>
  {
    var fields := Split(line, ',');
    if |fields| == 4 then Some(HymnData(fields[0], fields[1], fields[2], fields[3])) else None
  }

  function ParseRows(lines: seq<string>): Option<seq<HymnData>>
  {
    if lines == [] then Some([])
    else
      var first := ParseRow(lines[0]);
      var rest := ParseRows(lines[1..]);
      if first.None? || rest.None? then None else Some([first.value] + rest.value)
  }

  /** Reads a CSV text back: the header line, then one record per line (none after a bare header). */
  function ParseCsv(text: string): Option<seq<HymnData>>
  {
    var lines := Split(text, '\n');
    if lines[0] != HeaderLine() then None
    else if lines[1..] == [""] then Some([])
    else ParseRows(lines[1..])
  }

  // ---------------------------------------------------------------------------
  // Properties of the text

  /** The header line is the four column names joined by commas. */
  lemma HeaderLineText()
    ensures HeaderLine() == "id,queries,launches,lastAccessed"
  {
  }

  /** An empty record list gives the header line and its newline only. */
  lemma EmptyCsv()
    ensures CsvText([]) == "id,queries,launches,lastAccessed\n"
  {
    HeaderLineText();
    assert RowTexts([]) == [];
  }

  /** A row is its four fields joined by commas, in column order. */
  lemma RowTextFields(h: HymnData)
    ensures RowText(h) == Join([h.id, h.queries, h.launches, h.lastAccessed], ',')
  {
    var fields := [h.id, h.queries, h.launches, h.lastAccessed];
    assert fields[1..][1..][1..] == [h.lastAccessed];
    assert Join(fields[1..][1..], ',') == h.launches + "," + h.lastAccessed;
    assert Join(fields[1..], ',') == h.queries + "," + h.launches + "," + h.lastAccessed;
  }

  /** Each safe row splits back into its record. */
  lemma ParseRowText(h: HymnData)
    requires CsvSafe(h)
    ensures ParseRow(RowText(h)) == Some(h)
  {
    RowTextFields(h);
    SplitJoin([h.id, h.queries, h.launches, h.lastAccessed], ',');
  }

  lemma {:induction false} ParseRowTexts(rows: seq<HymnData>)
    requires forall i :: 0 <= i < |rows| ==> CsvSafe(rows[i])
    ensures ParseRows(RowTexts(rows)) == Some(rows)
  {
    if rows != [] {
      ParseRowText(rows[0]);
      assert RowTexts(rows)[1..] == RowTexts(rows[1..]);
      ParseRowTexts(rows[1..]);
      assert rows == [rows[0]] + rows[1..];
    }
  }

  /** The lines the text is made of: the header line, then the record lines (or one empty line). */
  function CsvLineList(rows: seq<HymnData>): seq<string>
  {
    [HeaderLine()] + (if rows == [] then [""] else RowTexts(rows))
  }

  lemma CsvTextJoin(rows: seq<HymnData>)
    ensures Join(CsvLineList(rows), '\n') == CsvText(rows)
  {
    var body := if rows == [] then [""] else RowTexts(rows);
    assert CsvLineList(rows)[1..] == body;
    assert Join(body, '\n') == Join(RowTexts(rows), '\n');
  }

  lemma CsvLineListFree(rows: seq<HymnData>)
    requires forall i :: 0 <= i < |rows| ==> NewlineFree(rows[i])
    ensures forall k :: 0 <= k < |CsvLineList(rows)| ==> '\n' !in CsvLineList(rows)[k]
  {
    var lines := CsvLineList(rows);
    HeaderLineFree();
    forall k | 0 <= k < |lines|
      ensures '\n' !in lines[k]
    {
      if k > 0 && rows != [] {
        assert lines[k] == RowText(rows[k - 1]);
        RowTextFree(rows[k - 1]);
      }
    }
  }

  lemma HeaderLineFree()
    ensures '\n' !in HeaderLine()
  {
    assert forall k :: 0 <= k < |HEADERS| ==> '\n' !in HEADERS[k];
    JoinFree(HEADERS, ',', '\n');
  }

  lemma RowTextFree(h: HymnData)
    requires NewlineFree(h)
    ensures '\n' !in RowText(h)
  {
  }

  /**
   * The text is the header line followed by exactly one line per record, in
   * order (for an empty list, one empty line after the header).
   */
  lemma CsvLines(rows: seq<HymnData>)
    requires forall i :: 0 <= i < |rows| ==> NewlineFree(rows[i])
    ensures Split(CsvText(rows), '\n') == [HeaderLine()] + (if rows == [] then [""] else RowTexts(rows))
  {
    CsvTextJoin(rows);
    CsvLineListFree(rows);
    SplitJoin(CsvLineList(rows), '\n');
  }

  /** Writing then reading gives the records back, as long as no field holds a comma or a newline. */
  lemma CsvRoundTrip(rows: seq<HymnData>)
    requires forall i :: 0 <= i < |rows| ==> CsvSafe(rows[i])
    ensures ParseCsv(CsvText(rows)) == Some(rows)
  {
    assert forall i :: 0 <= i < |rows| ==> NewlineFree(rows[i]);
    CsvLines(rows);
    if rows != [] {
      assert ',' in RowText(rows[0]);
      assert RowTexts(rows) != [""];
      ParseRowTexts(rows);
    }
  }

  /** A non-empty text ends with the last record's line, with no newline after it. */
  lemma {:induction false} NoTrailingNewline(rows: seq<HymnData>)
    requires rows != []
    requires '\n' !in rows[|rows| - 1].lastAccessed
    ensures var text, last := CsvText(rows), RowText(rows[|rows| - 1]);
      |last| <= |text| && text[|text| - |last|..] == last && text[|text| - 1] != '\n'
  {
    var lines := RowTexts(rows);
    JoinEndsWith(lines, '\n');
    var last := RowText(rows[|rows| - 1]);
    var text := CsvText(rows);
    var joined := Join(lines, '\n');
    assert text == HeaderLine() + "\n" + joined;
    assert text[|text| - |last|..] == joined[|joined| - |last|..];
    assert text[|text| - 1] == last[|last| - 1];
  }

  lemma {:induction false} JoinEndsWith(parts: seq<string>, sep: char)
    requires parts != []
    ensures var j := Join(parts, sep); var p := parts[|parts| - 1];
      |p| <= |j| && j[|j| - |p|..] == p
  {
    if |parts| > 1 {
      JoinEndsWith(parts[1..], sep);
    }
  }

  // ---------------------------------------------------------------------------
  // The in-place sort and dumpToCSV

  /**
   * `data.sort((a, b) => a.id.localeCompare(b.id))`: an insertion sort, which
   * like Array.prototype.sort is stable.
   */
  method SortInPlace(a: array<HymnData>)
    modifies a
    ensures a[..] == StableSortById(old(a[..]))
  {
    ghost var original := a[..];
    var i := 0;
    while i < a.Length
      invariant 0 <= i <= a.Length
      invariant a[..i] == StableSortById(original[..i])
      invariant a[i..] == original[i..]
    {
      ghost var before := a[..];
      assert before[..i] == StableSortById(original[..i]);
      assert before[i] == original[i] && before[i + 1..] == original[i + 1..] by {
        assert before[i..] == original[i..];
      }
      InsertNext(a, i);
      SortedPrefixGrows(original, i);
      i := i + 1;
    }
    assert original[..a.Length] == original;
  }

  /** Sorting one more element of the prefix inserts it into the sorted shorter prefix. */
  lemma SortedPrefixGrows(s: seq<HymnData>, i: nat)
    requires i < |s|
    ensures StableSortById(s[..i + 1]) == InsertById(StableSortById(s[..i]), s[i])
  {
    assert s[..i + 1][..i] == s[..i];
  }

  /** One step of the insertion sort: swap `a[i]` leftwards past every record of `a[..i]` with a greater id. */
  method InsertNext(a: array<HymnData>, i: nat)
    requires i < a.Length
    modifies a
    ensures a[..i + 1] == InsertById(old(a[..i]), old(a[i]))
    ensures a[i + 1..] == old(a[i + 1..])
  {
    var x := a[i];
    ghost var sorted := a[..i];
    ghost var rest := a[i + 1..];
    var j := i;
    while j > 0 && !IdLe(a[j - 1].id, x.id)
      invariant 0 <= j <= i
      invariant a[..] == sorted[..j] + [x] + sorted[j..] + rest
      invariant forall k :: j <= k < i ==> !IdLe(sorted[k].id, x.id)
    {
      ghost var before := a[..];
      a[j - 1], a[j] := a[j], a[j - 1];
      assert a[..] == before[j - 1 := x][j := sorted[j - 1]];
      MoveLeft(sorted, x, rest, j);
      j := j - 1;
    }
    InsertByIdAt(sorted, x, j);
    PrefixOfLayout(sorted, x, rest, j);
  }

  /** Swapping `x` with its left neighbour moves it one place left in the layout. */
  lemma MoveLeft(sorted: seq<HymnData>, x: HymnData, rest: seq<HymnData>, j: nat)
    requires 0 < j <= |sorted|
    ensures (sorted[..j] + [x] + sorted[j..] + rest)[j - 1 := x][j := sorted[j - 1]]
         == sorted[..j - 1] + [x] + sorted[j - 1..] + rest
  {
    var l := sorted[..j] + [x] + sorted[j..] + rest;
    var r := sorted[..j - 1] + [x] + sorted[j - 1..] + rest;
    assert |l| == |r|;
    forall k | 0 <= k < |r|
      ensures l[j - 1 := x][j := sorted[j - 1]][k] == r[k]
    {
    }
  }

  lemma PrefixOfLayout(sorted: seq<HymnData>, x: HymnData, rest: seq<HymnData>, j: nat)
    requires j <= |sorted|
    ensures (sorted[..j] + [x] + sorted[j..] + rest)[..|sorted| + 1] == sorted[..j] + [x] + sorted[j..]
    ensures (sorted[..j] + [x] + sorted[j..] + rest)[|sorted| + 1..] == rest
  {
  }

  /**
   * dumpToCSV(data, file, sort = true): with `sort` the caller's array ends up
   * in ascending id order, a stable permutation of what it held; without it
   * the array is untouched. The result is the text written to `file`.
   */
  method DumpToCsv(data: array<HymnData>, sort: bool := true) returns (text: string)
    modifies data
    ensures sort ==> data[..] == StableSortById(old(data[..]))
    ensures sort ==> SortedById(data[..]) && multiset(data[..]) == multiset(old(data[..]))
    ensures sort ==> forall key :: WithId(data[..], key) == WithId(old(data[..]), key)
    ensures !sort ==> data[..] == old(data[..])
    ensures text == CsvText(data[..])
  {
    if sort {
      SortInPlace(data);
      StableSortByIdSorted(old(data[..]));
      StableSortByIdPermutes(old(data[..]));
      forall key {
        StableSortByIdStable(old(data[..]), key);
      }
    }
    text := CsvText(data[..]);
  }
}
