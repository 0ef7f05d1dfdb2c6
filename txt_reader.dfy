/**
 * The text-table reader (class TxtReader): a header line, then one row per
 * marker whose first field is the chromosome, whose second is the position
 * and whose remaining fields are numbers. Fields are separated by spaces,
 * commas, tabs or newlines. The reader builds the chromosome index, the
 * table of numbers and, for one-column tables, the column as a flat list.
 */
module Txt {
  import opened Results
  import opened LoadErrors
  import opened Tokenizer
  import opened Numbers
  import opened ChromRuns
  import opened Selection
  import opened Gzip

  // ---------------------------------------------------------------------
  // The header line

  /** extractHeader: the names of the value columns, every field after CHROM and POS. */
  function HeaderFields(line: string): seq<string>
  {
    var fs := Tokenize(line, TxtDelims);
    if |fs| > 2 then fs[2..] else []
  }

  /** An index past the front of a concatenation reads the back. */
  lemma AppendAt<T>(front: seq<T>, back: seq<T>, i: nat)
    requires |front| <= i < |front| + |back|
    ensures (front + back)[i] == back[i - |front|]
  {
  }

  /** A longer slice is the shorter one followed by the next element. */
  lemma SliceStep<T>(xs: seq<T>, lo: nat, i: nat)
    requires lo <= i < |xs|
    ensures xs[lo..i + 1] == xs[lo..i] + [xs[i]]
  {
  }

  /** The CHROM and POS names followed by the value-column names, all delimiter-free. */
  lemma HeaderNoDelimiter(chromName: string, posName: string, names: seq<string>)
    requires NoDelimiter(chromName, TxtDelims) && NoDelimiter(posName, TxtDelims)
    requires forall i :: 0 <= i < |names| ==> NoDelimiter(names[i], TxtDelims)
    ensures var fs := [chromName, posName] + names; forall i :: 0 <= i < |fs| ==> NoDelimiter(fs[i], TxtDelims)
  {
    var fs := [chromName, posName] + names;
    forall i | 0 <= i < |fs| ensures NoDelimiter(fs[i], TxtDelims) {
      if i >= 2 {
        AppendAt([chromName, posName], names, i);
      }
    }
  }

  /** A header written from delimiter-free names reads back as its value-column names. */
  lemma HeaderRoundTrip(chromName: string, posName: string, names: seq<string>)
    requires NoDelimiter(chromName, TxtDelims) && NoDelimiter(posName, TxtDelims)
    requires forall i :: 0 <= i < |names| ==> NoDelimiter(names[i], TxtDelims)
    ensures HeaderFields(Join([chromName, posName] + names, '\t')) == names
  {
    var fs := [chromName, posName] + names;
    HeaderNoDelimiter(chromName, posName, names);
    var line := Join(fs, '\t');
    assert line == fs[0] + ['\t'] + Join(fs[1..], '\t');
    TokenizeJoin(fs, TxtDelims, '\t');
    assert Tokenize(line, TxtDelims) == fs;
    assert fs[2..] == names;
  }

  // ---------------------------------------------------------------------
  // The chromosome and position columns

  /**
   * The members extractChrom and extractPOS update: the finished chromosome
   * names and position lists, the positions of the current chromosome, and
   * the index of the current chromosome (-1 before the first row).
   */
  datatype ChromState = ChromState(chrom: seq<string>, position: seq<seq<int>>, tmp: seq<int>, chromIndex: int)

  /** The state readFromFileBase starts the rows from. */
  const Start: ChromState := ChromState([], [], [], -1)

  /**
   * What extractChrom asserts and keeps: the index names the last
   * chromosome, the first chromosome is entered with nothing before it, and
   * every chromosome but the current one has its position list.
   */
  predicate Consistent(st: ChromState)
  {
    st.chromIndex == |st.chrom| - 1 &&
    (|st.chrom| == 0 ==> st.position == [] && st.tmp == []) &&
    (|st.chrom| > 0 ==> |st.position| == |st.chrom| - 1)
  }

  /**
   * extractChrom: the first row enters its chromosome; a later row whose
   * chromosome differs from the current one saves the current positions and
   * starts a new chromosome; an equal one changes nothing.
   */
  function ChromStep(st: ChromState, name: string): (r: ChromState)
    requires Consistent(st)
    ensures Consistent(r)
  {
    if st.chromIndex >= 0 then
      if name != st.chrom[|st.chrom| - 1] then ChromState(st.chrom + [name], st.position + [st.tmp], [], st.chromIndex + 1)
      else st
    else ChromState(st.chrom + [name], st.position, st.tmp, st.chromIndex + 1)
  }

  /** extractPOS: exponent notation and non-integers are rejected; an integer joins the current positions. */
  function PosStep(st: ChromState, text: string, fileName: string): Result<ChromState, LoadError>
  {
    if 'e' in text || 'E' in text then Failure(BadScientificNotation(text, fileName))
    else match ParseInt(text)
      case None => Failure(BadConversion(text, fileName))
      case Some(p) => Success(st.(tmp := st.tmp + [p]))
  }

  /** A position written in decimal is accepted and appended unchanged. */
  lemma PosStepDecimal(st: ChromState, n: nat, fileName: string)
    requires n <= IntMax
    ensures PosStep(st, Decimal(n), fileName) == Success(st.(tmp := st.tmp + [n]))
  {
    ParseDecimal(n);
  }

  /** Exponent notation is reported as such, before any attempt at conversion. */
  lemma PosStepExponent(st: ChromState, text: string, fileName: string, i: nat)
    requires i < |text| && (text[i] == 'e' || text[i] == 'E')
    ensures PosStep(st, text, fileName) == Failure(BadScientificNotation(text, fileName))
  {
  }

  /** Any other character that is not a digit (a sign, a decimal point, a space) fails the conversion. */
  lemma PosStepNotInteger(st: ChromState, text: string, fileName: string, i: nat)
    requires 'e' !in text && 'E' !in text
    requires i < |text| && !IsDigit(text[i])
    ensures PosStep(st, text, fileName) == Failure(BadConversion(text, fileName))
  {
    ParseIntRejectsNonDigit(text, i);
  }

  // ---------------------------------------------------------------------
  // One data row

  /** The numbers of the first `n` fields of a row: every field after CHROM and POS, through strtod. */
  function ValuesUpTo(fs: seq<string>, n: nat, toReal: string -> real): seq<real>
    requires n <= |fs|
  {
    if n <= 2 then [] else ValuesUpTo(fs, n - 1, toReal) + [toReal(fs[n - 1])]
  }

  /** The content row of a data row. */
  function RowValues(fs: seq<string>, toReal: string -> real): seq<real>
  {
    ValuesUpTo(fs, |fs|, toReal)
  }

  /** Every value field, in order, becomes one number. */
  lemma {:induction false} ValuesUpToSpec(fs: seq<string>, n: nat, toReal: string -> real)
    requires n <= |fs|
    ensures |ValuesUpTo(fs, n, toReal)| == if n > 2 then n - 2 else 0
    ensures forall k :: 0 <= k < |ValuesUpTo(fs, n, toReal)| ==> ValuesUpTo(fs, n, toReal)[k] == toReal(fs[k + 2])
  {
    if n > 2 {
      ValuesUpToSpec(fs, n - 1, toReal);
    }
  }

  /** The chromosome and position state after the row's first `n` fields. */
  function RowPrefix(st: ChromState, fs: seq<string>, n: nat, fileName: string): Result<ChromState, LoadError>
    requires Consistent(st) && n <= |fs|
  {
    if n == 0 then Success(st)
    else if n == 1 then Success(ChromStep(st, fs[0]))
    else PosStep(ChromStep(st, fs[0]), fs[1], fileName)
  }

  /** The row loop of readFromFileBase on one row: CHROM first, then POS. */
  function RowSpec(st: ChromState, row: string, fileName: string): (r: Result<ChromState, LoadError>)
    requires Consistent(st)
  {
    var fs := Tokenize(row, TxtDelims);
    RowPrefix(st, fs, |fs|, fileName)
  }

  /** A row of a table in a load's rows: at least CHROM and POS, and an integer POS. */
  predicate RowOk(row: string)
  {
    var fs := Tokenize(row, TxtDelims);
    |fs| >= 2 && 'e' !in fs[1] && 'E' !in fs[1] && ParseInt(fs[1]).Some?
  }

  function RowLabel(row: string): string
    requires RowOk(row)
  {
    Tokenize(row, TxtDelims)[0]
  }

  function RowPos(row: string): int
    requires RowOk(row)
  {
    ParseInt(Tokenize(row, TxtDelims)[1]).value
  }

  /** A row keeps the state consistent and, when it parses, leaves this chromosome current. */
  lemma RowKeepsConsistent(st: ChromState, row: string, fileName: string)
    requires Consistent(st) && RowOk(row)
    ensures RowSpec(st, row, fileName).Success?
    ensures var st' := RowSpec(st, row, fileName).value;
      Consistent(st') && |st'.chrom| > 0 && st'.chrom[|st'.chrom| - 1] == RowLabel(row)
  {
  }

  // ---------------------------------------------------------------------
  // The rows of a file

  /** The number of data rows: the rows before the first empty line. */
  function DataRowCount(lines: seq<string>, from: nat): (n: nat)
    requires from <= |lines|
    ensures from <= n <= |lines|
    decreases |lines| - from
  {
    if from == |lines| || |lines[from]| == 0 then from else DataRowCount(lines, from + 1)
  }

  /** The rows the reader reads: the lines after the header up to the first empty one. */
  function DataRows(lines: seq<string>): seq<string>
  {
    lines[..DataRowCount(lines, 0)]
  }

  /** The counted rows are non-empty and the count stops at an empty line or the end. */
  lemma {:induction false} DataRowCountSpec(lines: seq<string>, from: nat)
    requires from <= |lines|
    ensures forall j :: from <= j < DataRowCount(lines, from) ==> |lines[j]| > 0
    ensures DataRowCount(lines, from) < |lines| ==> |lines[DataRowCount(lines, from)]| == 0
    decreases |lines| - from
  {
    if from < |lines| && |lines[from]| > 0 {
      DataRowCountSpec(lines, from + 1);
    }
  }

  /** Within the counted rows, the loop guard holds exactly before the count, and a row is its line. */
  lemma DataRowsAt(lines: seq<string>, i: nat)
    requires i <= |DataRows(lines)|
    ensures (i < |lines| && |lines[i]| > 0) <==> i < |DataRows(lines)|
    ensures i < |DataRows(lines)| ==> DataRows(lines)[i] == lines[i]
  {
    DataRowCountSpec(lines, 0);
  }

  /** The chromosome and position state after the first `n` rows. */
  function RowsSpec(st: ChromState, rows: seq<string>, n: nat, fileName: string): (r: Result<ChromState, LoadError>)
    requires Consistent(st) && n <= |rows|
    ensures r.Success? ==> Consistent(r.value)
  {
    if n == 0 then Success(st)
    else match RowsSpec(st, rows, n - 1, fileName)
      case Failure(e) => Failure(e)
      case Success(s) => RowSpec(s, rows[n - 1], fileName)
  }

  /** The content rows of the first `n` rows. */
  function RowsContent(rows: seq<string>, n: nat, toReal: string -> real): (c: seq<seq<real>>)
    requires n <= |rows|
    ensures |c| == n
  {
    if n == 0 then [] else RowsContent(rows, n - 1, toReal) + [RowValues(Tokenize(rows[n - 1], TxtDelims), toReal)]
  }

  /** Row `k` of the content is the numbers of row `k`. */
  lemma {:induction false} RowsContentAt(rows: seq<string>, n: nat, toReal: string -> real, k: nat)
    requires k < n <= |rows|
    ensures RowsContent(rows, n, toReal)[k] == RowValues(Tokenize(rows[k], TxtDelims), toReal)
  {
    if k < n - 1 {
      RowsContentAt(rows, n - 1, toReal, k);
    }
  }

  function Labels(rows: seq<string>): seq<string>
    requires forall i :: 0 <= i < |rows| ==> RowOk(rows[i])
  {
    seq(|rows|, i requires 0 <= i < |rows| => RowLabel(rows[i]))
  }

  function Positions(rows: seq<string>): seq<int>
    requires forall i :: 0 <= i < |rows| ==> RowOk(rows[i])
  {
    seq(|rows|, i requires 0 <= i < |rows| => RowPos(rows[i]))
  }

  /** The first row enters the first chromosome with its position. */
  lemma RowStepFirst(row: string, fileName: string)
    requires RowOk(row)
    ensures RowSpec(Start, row, fileName) == Success(ChromState([RowLabel(row)], [], [RowPos(row)], 0))
    ensures Indexed([RowLabel(row)], [[RowPos(row)]], [RowLabel(row)], [RowPos(row)])
  {
    var none: seq<int> := [];
    assert none + [RowPos(row)] == [RowPos(row)];
    IndexedEmpty();
    IndexedNew([], [], [], [], RowLabel(row), RowPos(row));
  }

  /** A row whose chromosome differs from the current one starts a new chromosome. */
  lemma RowStepNew(st: ChromState, row: string, fileName: string, labels: seq<string>, positions: seq<int>)
    requires Consistent(st) && RowOk(row) && |st.chrom| > 0 && st.chrom[|st.chrom| - 1] != RowLabel(row)
    requires Indexed(st.chrom, st.position + [st.tmp], labels, positions)
    ensures RowSpec(st, row, fileName) == Success(ChromState(st.chrom + [RowLabel(row)], st.position + [st.tmp], [RowPos(row)], st.chromIndex + 1))
    ensures Indexed(st.chrom + [RowLabel(row)], st.position + [st.tmp] + [[RowPos(row)]], labels + [RowLabel(row)], positions + [RowPos(row)])
  {
    var none: seq<int> := [];
    assert none + [RowPos(row)] == [RowPos(row)];
    IndexedNew(st.chrom, st.position + [st.tmp], labels, positions, RowLabel(row), RowPos(row));
  }

  /** A row with the current chromosome adds its position to the current list. */
  lemma RowStepSame(st: ChromState, row: string, fileName: string, labels: seq<string>, positions: seq<int>)
    requires Consistent(st) && RowOk(row) && |st.chrom| > 0 && st.chrom[|st.chrom| - 1] == RowLabel(row)
    requires Indexed(st.chrom, st.position + [st.tmp], labels, positions)
    ensures RowSpec(st, row, fileName) == Success(st.(tmp := st.tmp + [RowPos(row)]))
    ensures Indexed(st.chrom, st.position + [st.tmp + [RowPos(row)]], labels + [RowLabel(row)], positions + [RowPos(row)])
  {
    IndexedSame(st.chrom, st.position, st.tmp, labels, positions, RowLabel(row), RowPos(row));
  }

  /** A row whose resulting state indexes the rows read, stated about the row's result. */
  lemma RowIndexedAt(st: ChromState, row: string, fileName: string, st': ChromState, labels: seq<string>, positions: seq<int>)
    requires Consistent(st) && RowSpec(st, row, fileName) == Success(st')
    requires |st'.chrom| > 0 && Indexed(st'.chrom, st'.position + [st'.tmp], labels, positions)
    ensures RowSpec(st, row, fileName).Success?
    ensures var r := RowSpec(st, row, fileName).value;
      |r.chrom| > 0 && Indexed(r.chrom, r.position + [r.tmp], labels, positions)
  {
  }

  /**
   * One well-formed row read after the rows indexed by `labels` and
   * `positions` (none, from the start state) leaves a state that indexes
   * them with the row added.
   */
  lemma RowIndexedStep(st: ChromState, row: string, fileName: string, labels: seq<string>, positions: seq<int>)
    requires Consistent(st) && RowOk(row)
    requires |labels| == 0 ==> st == Start && positions == []
    requires |labels| > 0 ==> |st.chrom| > 0 && Indexed(st.chrom, st.position + [st.tmp], labels, positions)
    ensures RowSpec(st, row, fileName).Success?
    ensures var st' := RowSpec(st, row, fileName).value;
      |st'.chrom| > 0 && Indexed(st'.chrom, st'.position + [st'.tmp], labels + [RowLabel(row)], positions + [RowPos(row)])
  {
    if |labels| == 0 {
      RowIndexedFirst(row, fileName);
      assert labels + [RowLabel(row)] == [RowLabel(row)];
      assert positions + [RowPos(row)] == [RowPos(row)];
    } else if st.chrom[|st.chrom| - 1] != RowLabel(row) {
      RowIndexedNew(st, row, fileName, labels, positions);
    } else {
      RowIndexedSame(st, row, fileName, labels, positions);
    }
  }

  /** The first row, stated about the row's result: it indexes that row alone. */
  lemma RowIndexedFirst(row: string, fileName: string)
    requires RowOk(row)
    ensures RowSpec(Start, row, fileName).Success?
    ensures var st' := RowSpec(Start, row, fileName).value;
      |st'.chrom| > 0 && Indexed(st'.chrom, st'.position + [st'.tmp], [RowLabel(row)], [RowPos(row)])
  {
    var l, p := RowLabel(row), RowPos(row);
    RowStepFirst(row, fileName);
    var st' := ChromState([l], [], [p], 0);
    assert st'.position + [st'.tmp] == [[p]];
    RowIndexedAt(Start, row, fileName, st', [l], [p]);
  }

  /** A row starting a new chromosome, stated about the row's result. */
  lemma RowIndexedNew(st: ChromState, row: string, fileName: string, labels: seq<string>, positions: seq<int>)
    requires Consistent(st) && RowOk(row) && |st.chrom| > 0 && st.chrom[|st.chrom| - 1] != RowLabel(row)
    requires Indexed(st.chrom, st.position + [st.tmp], labels, positions)
    ensures RowSpec(st, row, fileName).Success?
    ensures var st' := RowSpec(st, row, fileName).value;
      |st'.chrom| > 0 && Indexed(st'.chrom, st'.position + [st'.tmp], labels + [RowLabel(row)], positions + [RowPos(row)])
  {
    var l, p := RowLabel(row), RowPos(row);
    RowStepNew(st, row, fileName, labels, positions);
    var st' := ChromState(st.chrom + [l], st.position + [st.tmp], [p], st.chromIndex + 1);
    assert st'.position + [st'.tmp] == st.position + [st.tmp] + [[p]];
    RowIndexedAt(st, row, fileName, st', labels + [l], positions + [p]);
  }

  /** A row on the current chromosome, stated about the row's result. */
  lemma RowIndexedSame(st: ChromState, row: string, fileName: string, labels: seq<string>, positions: seq<int>)
    requires Consistent(st) && RowOk(row) && |st.chrom| > 0 && st.chrom[|st.chrom| - 1] == RowLabel(row)
    requires Indexed(st.chrom, st.position + [st.tmp], labels, positions)
    ensures RowSpec(st, row, fileName).Success?
    ensures var st' := RowSpec(st, row, fileName).value;
      |st'.chrom| > 0 && Indexed(st'.chrom, st'.position + [st'.tmp], labels + [RowLabel(row)], positions + [RowPos(row)])
  {
    var l, p := RowLabel(row), RowPos(row);
    RowStepSame(st, row, fileName, labels, positions);
    var st' := st.(tmp := st.tmp + [p]);
    assert st'.position + [st'.tmp] == st.position + [st.tmp + [p]];
    RowIndexedAt(st, row, fileName, st', labels + [l], positions + [p]);
  }

  /**
   * After `n > 0` well-formed rows the chromosome names, with the saved
   * position lists and the current one, index the rows read so far.
   */
  lemma {:induction false} RowsIndexed(rows: seq<string>, n: nat, fileName: string)
    requires n <= |rows| && forall i :: 0 <= i < |rows| ==> RowOk(rows[i])
    ensures RowsSpec(Start, rows, n, fileName).Success?
    ensures n == 0 ==> RowsSpec(Start, rows, n, fileName).value == Start
    ensures n > 0 ==> var st := RowsSpec(Start, rows, n, fileName).value;
      |st.chrom| > 0 && Indexed(st.chrom, st.position + [st.tmp], Labels(rows)[..n], Positions(rows)[..n])
  {
    if n > 0 {
      RowsIndexed(rows, n - 1, fileName);
      var st, row := RowsSpec(Start, rows, n - 1, fileName).value, rows[n - 1];
      var labels, positions := Labels(rows)[..n - 1], Positions(rows)[..n - 1];
      TakeStep(Labels(rows), n - 1);
      TakeStep(Positions(rows), n - 1);
      assert Labels(rows)[..n] == labels + [RowLabel(row)];
      assert Positions(rows)[..n] == positions + [RowPos(row)];
      assert RowsSpec(Start, rows, n, fileName) == RowSpec(st, row, fileName);
      RowIndexedStep(st, row, fileName, labels, positions);
    }
  }

  /** One more row: its effect on the state after the rows before it, and its content row appended. */
  lemma RowsStep(st: ChromState, rows: seq<string>, n: nat, fileName: string, toReal: string -> real)
    requires Consistent(st) && n < |rows| && RowsSpec(st, rows, n, fileName).Success?
    ensures RowsSpec(st, rows, n + 1, fileName) == RowSpec(RowsSpec(st, rows, n, fileName).value, rows[n], fileName)
    ensures RowsContent(rows, n + 1, toReal) == RowsContent(rows, n, toReal) + [RowValues(Tokenize(rows[n], TxtDelims), toReal)]
  {
  }

  /** Once a row is rejected the load stays rejected with that row's error. */
  lemma {:induction false} RowsSpecFailureStays(st: ChromState, rows: seq<string>, n: nat, m: nat, fileName: string)
    requires Consistent(st) && n <= m <= |rows| && RowsSpec(st, rows, n, fileName).Failure?
    ensures RowsSpec(st, rows, m, fileName) == RowsSpec(st, rows, n, fileName)
    decreases m - n
  {
    if n < m {
      RowsSpecFailureStays(st, rows, n, m - 1, fileName);
    }
  }

  // ---------------------------------------------------------------------
  // The one-column case: the column as a flat list

  /** reshapeContentToInfo on the first `n` rows: the first number of each row; an empty row is an error. */
  function InfoColumn(content: seq<seq<real>>, n: nat): (r: Result<seq<real>, LoadError>)
    requires n <= |content|
    ensures r.Success? ==> |r.value| == n
  {
    if n == 0 then Success([])
    else match InfoColumn(content, n - 1)
      case Failure(e) => Failure(e)
      case Success(xs) => if |content[n - 1]| == 0 then Failure(EmptyInfoRow(n - 1)) else Success(xs + [content[n - 1][0]])
  }

  predicate NoEmptyRow(content: seq<seq<real>>, n: nat)
    requires n <= |content|
  {
    forall i :: 0 <= i < n ==> |content[i]| > 0
  }

  /**
   * The column is taken exactly when no row is empty, and then holds each
   * row's first number; otherwise the first empty row is reported.
   */
  lemma {:induction false} InfoColumnSpec(content: seq<seq<real>>, n: nat)
    requires n <= |content|
    ensures InfoColumn(content, n).Success? <==> NoEmptyRow(content, n)
    ensures InfoColumn(content, n).Success? ==>
      |InfoColumn(content, n).value| == n && forall i :: 0 <= i < n ==> InfoColumn(content, n).value[i] == content[i][0]
    ensures InfoColumn(content, n).Failure? ==>
      exists j :: 0 <= j < n && |content[j]| == 0 && InfoColumn(content, n).error == EmptyInfoRow(j) && NoEmptyRow(content, j)
  {
    if n > 0 {
      InfoColumnSpec(content, n - 1);
    }
  }

  /** Once an empty row is met the reshape stays rejected. */
  lemma {:induction false} InfoColumnFailureStays(content: seq<seq<real>>, n: nat, m: nat)
    requires n <= m <= |content| && InfoColumn(content, n).Failure?
    ensures InfoColumn(content, m) == InfoColumn(content, n)
    decreases m - n
  {
    if n < m {
      InfoColumnFailureStays(content, n, m - 1);
    }
  }

  /**
   * Compacting the table and then taking the column gives the compacted
   * column: marker removal keeps the flat list in step with the table.
   */
  lemma InfoColumnSelect(content: seq<seq<real>>, idx: seq<nat>)
    requires forall k :: 0 <= k < |idx| ==> idx[k] < |content|
    requires InfoColumn(content, |content|).Success?
    ensures InfoColumn(Select(content, idx), |idx|).Success?
    ensures InfoColumn(Select(content, idx), |idx|).value == Select(InfoColumn(content, |content|).value, idx)
  {
    var kept := Select(content, idx);
    InfoColumnSpec(content, |content|);
    var column := InfoColumn(content, |content|).value;
    assert NoEmptyRow(kept, |idx|) by {
      forall k | 0 <= k < |idx| ensures |kept[k]| > 0 {
        assert kept[k] == content[idx[k]];
      }
    }
    InfoColumnSpec(kept, |idx|);
    var a, b := InfoColumn(kept, |idx|).value, Select(column, idx);
    forall k | 0 <= k < |idx| ensures a[k] == b[k] {
      assert kept[k] == content[idx[k]];
      assert a[k] == kept[k][0];
      assert b[k] == column[idx[k]];
    }
    assert a == b;
  }

  // ---------------------------------------------------------------------
  // The whole load

  /** What a successful load leaves in the reader. */
  datatype Table = Table(header: seq<string>, chrom: seq<string>, position: seq<seq<int>>,
                         content: seq<seq<real>>, info: seq<real>, nLoci: nat, nInfoLines: nat)

  /**
   * readFromFileBase after the file is opened: the header, the rows up to
   * the first empty line, then the last position list is saved, the table
   * size is taken from the last row and a one-column table is reshaped.
   */
  function LoadSpec(headerLine: string, lines: seq<string>, fileName: string, toReal: string -> real,
                    content0: seq<seq<real>>): Result<Table, LoadError>
  {
    var rows := DataRows(lines);
    match RowsSpec(Start, rows, |rows|, fileName)
    case Failure(e) => Failure(e)
    case Success(st) => FinishSpec(HeaderFields(headerLine), st, content0 + RowsContent(rows, |rows|, toReal), fileName)
  }

  /**
   * The end of readFromFileBase: the current position list is saved, an
   * empty table is rejected, and a table whose last row has one number is
   * reshaped.
   */
  function FinishSpec(header: seq<string>, st: ChromState, content: seq<seq<real>>, fileName: string): Result<Table, LoadError>
  {
    if |content| == 0 then Failure(NoDataRows(fileName))
    else
      var nInfoLines := |content[|content| - 1]|;
      var t := Table(header, st.chrom, st.position + [st.tmp], content, [], |content|, nInfoLines);
      if nInfoLines != 1 then Success(t)
      else match InfoColumn(content, |content|)
        case Failure(e) => Failure(e)
        case Success(info) => Success(t.(info := info))
  }

  /**
   * A file whose rows all carry a chromosome and an integer position is
   * read into one chromosome name per run of equal consecutive names, each
   * with the run's positions in file order, and one content row per row.
   */
  lemma LoadIndexes(headerLine: string, lines: seq<string>, fileName: string, toReal: string -> real, content0: seq<seq<real>>)
    requires var rows := DataRows(lines); |rows| > 0 && forall i :: 0 <= i < |rows| ==> RowOk(rows[i])
    ensures var rows := DataRows(lines);
      LoadSpec(headerLine, lines, fileName, toReal, content0).Success? ==>
        var t := LoadSpec(headerLine, lines, fileName, toReal, content0).value;
        Indexed(t.chrom, t.position, Labels(rows), Positions(rows)) &&
        t.header == HeaderFields(headerLine) && t.nLoci == |content0| + |rows| && |t.content| == t.nLoci
  {
    var rows := DataRows(lines);
    RowsIndexed(rows, |rows|, fileName);
    assert Labels(rows)[..|rows|] == Labels(rows);
    assert Positions(rows)[..|rows|] == Positions(rows);
    var st := RowsSpec(Start, rows, |rows|, fileName).value;
    var content := content0 + RowsContent(rows, |rows|, toReal);
    assert LoadSpec(headerLine, lines, fileName, toReal, content0) == FinishSpec(HeaderFields(headerLine), st, content, fileName);
    FinishFields(HeaderFields(headerLine), st, content, fileName);
  }

  /** A finished load keeps the header and the chromosome names, saves the current positions and counts the rows. */
  lemma FinishFields(header: seq<string>, st: ChromState, content: seq<seq<real>>, fileName: string)
    ensures FinishSpec(header, st, content, fileName).Success? ==>
      var t := FinishSpec(header, st, content, fileName).value;
      t.header == header && t.chrom == st.chrom && t.position == st.position + [st.tmp] &&
      t.content == content && t.nLoci == |content|
  {
  }

  /** A non-empty row, once accepted, leaves at least one chromosome entered. */
  lemma RowChromNonEmpty(st: ChromState, row: string, fileName: string)
    requires Consistent(st) && (|row| > 0 || |st.chrom| > 0)
    ensures RowSpec(st, row, fileName).Success? ==> |RowSpec(st, row, fileName).value.chrom| > 0
  {
    var fs := Tokenize(row, TxtDelims);
    if |fs| > 0 {
      assert |ChromStep(st, fs[0]).chrom| > 0;
    }
  }

  /** After any accepted non-empty rows at least one chromosome is entered. */
  lemma {:induction false} RowsChromNonEmpty(st: ChromState, rows: seq<string>, n: nat, fileName: string)
    requires Consistent(st) && 0 < n <= |rows|
    requires forall i :: 0 <= i < n ==> |rows[i]| > 0
    ensures RowsSpec(st, rows, n, fileName).Success? ==> |RowsSpec(st, rows, n, fileName).value.chrom| > 0
  {
    if n == 1 {
      assert RowsSpec(st, rows, 1, fileName) == RowSpec(st, rows[0], fileName);
      RowChromNonEmpty(st, rows[0], fileName);
    } else if RowsSpec(st, rows, n - 1, fileName).Success? {
      RowsChromNonEmpty(st, rows, n - 1, fileName);
      var s := RowsSpec(st, rows, n - 1, fileName).value;
      assert RowsSpec(st, rows, n, fileName) == RowSpec(s, rows[n - 1], fileName);
      RowChromNonEmpty(s, rows[n - 1], fileName);
    }
  }

  /** Whatever the rows hold, a successful load has one position list per chromosome name. */
  lemma LoadParity(headerLine: string, lines: seq<string>, fileName: string, toReal: string -> real)
    ensures LoadSpec(headerLine, lines, fileName, toReal, []).Success? ==>
      var t := LoadSpec(headerLine, lines, fileName, toReal, []).value;
      |t.chrom| == |t.position|
  {
    var rows := DataRows(lines);
    DataRowCountSpec(lines, 0);
    if |rows| > 0 && RowsSpec(Start, rows, |rows|, fileName).Success? {
      assert forall i :: 0 <= i < |rows| ==> |rows[i]| > 0 by {
        forall i | 0 <= i < |rows| ensures |rows[i]| > 0 {
          assert rows[i] == lines[i];
        }
      }
      RowsChromNonEmpty(Start, rows, |rows|, fileName);
      var st := RowsSpec(Start, rows, |rows|, fileName).value;
      var content: seq<seq<real>> := [] + RowsContent(rows, |rows|, toReal);
      assert LoadSpec(headerLine, lines, fileName, toReal, []) == FinishSpec(HeaderFields(headerLine), st, content, fileName);
      FinishFields(HeaderFields(headerLine), st, content, fileName);
    }
  }

  /** With well-formed rows the only way a load fails is an empty row in a one-column table. */
  lemma LoadOnlyFailsOnEmptyInfoRow(headerLine: string, lines: seq<string>, fileName: string, toReal: string -> real, content0: seq<seq<real>>)
    requires var rows := DataRows(lines); |rows| > 0 && forall i :: 0 <= i < |rows| ==> RowOk(rows[i])
    ensures LoadSpec(headerLine, lines, fileName, toReal, content0).Failure? ==>
      LoadSpec(headerLine, lines, fileName, toReal, content0).error.EmptyInfoRow?
  {
    var rows := DataRows(lines);
    RowsIndexed(rows, |rows|, fileName);
    var content := content0 + RowsContent(rows, |rows|, toReal);
    InfoColumnSpec(content, |content|);
  }

  /** A file without data rows is rejected instead of reading past the end of the table. */
  lemma LoadNoRows(headerLine: string, lines: seq<string>, fileName: string, toReal: string -> real)
    requires |lines| == 0 || lines[0] == ""
    ensures LoadSpec(headerLine, lines, fileName, toReal, []) == Failure(NoDataRows(fileName))
  {
    assert DataRows(lines) == [];
  }

  /** A POS field rejected at field 1 decides the whole row. */
  lemma RowPrefixFailure(st: ChromState, fs: seq<string>, fileName: string)
    requires Consistent(st) && |fs| >= 2 && RowPrefix(st, fs, 2, fileName).Failure?
    ensures RowPrefix(st, fs, |fs|, fileName) == RowPrefix(st, fs, 2, fileName)
  {
  }

  // ---------------------------------------------------------------------
  // The reader

  class TxtReader {
    var fileName: string
    var isCompressed: bool
    var header: seq<string>
    var chrom: seq<string>
    var position: seq<seq<int>>
    var tmpPosition: seq<int>
    var tmpChromIndex: int
    var content: seq<seq<real>>
    var keptContent: seq<seq<real>>
    var info: seq<real>
    var indexOfContentToBeKept: seq<nat>
    var nLoci: nat
    var nInfoLines: nat

    /** A reader for the named file, with every list empty. */
    constructor (fileName: string)
      ensures this.fileName == fileName && !isCompressed
      ensures header == [] && chrom == [] && position == [] && tmpPosition == [] && tmpChromIndex == -1
      ensures content == [] && keptContent == [] && info == [] && indexOfContentToBeKept == []
      ensures nLoci == 0 && nInfoLines == 0
    {
      this.fileName := fileName;
      isCompressed := false;
      header, chrom, position, tmpPosition, tmpChromIndex := [], [], [], [], -1;
      content, keptContent, info, indexOfContentToBeKept := [], [], [], [];
      nLoci, nInfoLines := 0, 0;
    }

    /** The chromosome and position members as one value. */
    ghost function State(): ChromState
      reads this
    {
      ChromState(chrom, position, tmpPosition, tmpChromIndex)
    }

    /** checkFileCompressed on the first two bytes of the file. */
    method CheckFileCompressed(magic: seq<Byte>)
      requires |magic| >= 2
      modifies this`isCompressed
      ensures isCompressed <==> magic[..2] == [Id1, Id2]
    {
      isCompressed := IsCompressedFile(magic);
    }

    /** extractHeader: the header is rebuilt from the line's fields after the second. */
    method ExtractHeader(line: string)
      modifies this`header
      ensures header == HeaderFields(line)
    {
      ghost var toks := Tokenize(line, TxtDelims);
      header := [];
      var fieldStart: nat := 0;
      var fieldEnd: nat := 0;
      var fieldIndex: nat := 0;
      CursorStart(line, TxtDelims);
      while fieldEnd < |line|
        invariant Cursor(line, TxtDelims, toks, fieldIndex, fieldStart, fieldEnd)
        invariant fieldIndex < 2 ==> header == []
        invariant fieldIndex >= 2 ==> header == toks[2..fieldIndex]
        decreases |toks| - fieldIndex
      {
        fieldEnd := NextTxtField(line, toks, fieldIndex, fieldStart, fieldEnd);
        var field := line[fieldStart..fieldEnd];
        if fieldIndex > 1 {
          SliceStep(toks, 2, fieldIndex);
          header := header + [field];
        }
        fieldStart := fieldEnd + 1;
        fieldIndex := fieldIndex + 1;
      }
      assert fieldIndex >= 2 ==> toks[2..fieldIndex] == toks[2..];
    }

    /** extractChrom on the CHROM field of a row. */
    method ExtractChrom(name: string)
      requires Consistent(State())
      modifies this`chrom, this`position, this`tmpPosition, this`tmpChromIndex
      ensures State() == ChromStep(old(State()), name)
    {
      if tmpChromIndex >= 0 {
        if name != chrom[|chrom| - 1] {
          tmpChromIndex := tmpChromIndex + 1;
          position := position + [tmpPosition];
          tmpPosition := [];
          chrom := chrom + [name];
        }
      } else {
        tmpChromIndex := tmpChromIndex + 1;
        chrom := chrom + [name];
      }
    }

    /** extractPOS on the POS field of a row; a rejected field leaves the positions as they were. */
    method ExtractPos(text: string) returns (r: Outcome<LoadError>)
      modifies this`tmpPosition
      ensures match PosStep(old(State()), text, fileName)
        case Failure(e) => r == Fail(e) && tmpPosition == old(tmpPosition)
        case Success(st) => r == Pass && tmpPosition == st.tmp
    {
      if 'e' in text {
        return Fail(BadScientificNotation(text, fileName));
      }
      if 'E' in text {
        return Fail(BadScientificNotation(text, fileName));
      }
      var ret := ParseInt(text);
      if ret.None? {
        return Fail(BadConversion(text, fileName));
      }
      tmpPosition := tmpPosition + [ret.value];
      r := Pass;
    }

    /**
     * The field loop of readFromFileBase on one data row: CHROM and POS go
     * to the chromosome index, every later field through strtod to the
     * row's numbers, and the row is appended to the content.
     */
    method ReadRow(row: string, toReal: string -> real) returns (r: Outcome<LoadError>)
      requires Consistent(State())
      modifies this`chrom, this`position, this`tmpPosition, this`tmpChromIndex, this`content
      ensures match RowSpec(old(State()), row, fileName)
        case Failure(e) => r == Fail(e)
        case Success(st) => r == Pass && State() == st && content == old(content) + [RowValues(Tokenize(row, TxtDelims), toReal)]
    {
      var contentRow;
      r, contentRow := ReadFields(row, toReal);
      if r.Fail? {
        return;
      }
      content := content + [contentRow];
    }

    /** The loop over the fields of one row, which yields the row's numbers. */
    method ReadFields(row: string, toReal: string -> real) returns (r: Outcome<LoadError>, contentRow: seq<real>)
      requires Consistent(State())
      modifies this`chrom, this`position, this`tmpPosition, this`tmpChromIndex
      ensures r.Fail? ==> RowSpec(old(State()), row, fileName) == Failure(r.error)
      ensures r.Pass? ==> RowSpec(old(State()), row, fileName) == Success(State())
      ensures r.Pass? ==> contentRow == RowValues(Tokenize(row, TxtDelims), toReal)
    {
      ghost var toks := Tokenize(row, TxtDelims);
      ghost var st0 := State();
      var fieldStart: nat := 0;
      var fieldEnd: nat := 0;
      var fieldIndex: nat := 0;
      contentRow := [];
      CursorStart(row, TxtDelims);
      while fieldEnd < |row|
        invariant Cursor(row, TxtDelims, toks, fieldIndex, fieldStart, fieldEnd)
        invariant RowPrefix(st0, toks, fieldIndex, fileName) == Success(State())
        invariant contentRow == ValuesUpTo(toks, fieldIndex, toReal)
        decreases |toks| - fieldIndex
      {
        fieldEnd := NextTxtField(row, toks, fieldIndex, fieldStart, fieldEnd);
        r, contentRow := ReadField(st0, toks, fieldIndex, row[fieldStart..fieldEnd], contentRow, toReal);
        if r.Fail? {
          return;
        }
        fieldStart := fieldEnd + 1;
        fieldIndex := fieldIndex + 1;
      }
      r := Pass;
    }

    /**
     * The field dispatch of the row loop: CHROM goes to extractChrom, POS to
     * extractPOS, and every later field through strtod to the row's numbers.
     */
    method ReadField(ghost st0: ChromState, ghost toks: seq<string>, fieldIndex: nat, field: string,
                     contentRow: seq<real>, toReal: string -> real) returns (r: Outcome<LoadError>, contentRow': seq<real>)
      requires Consistent(st0) && fieldIndex < |toks| && toks[fieldIndex] == field
      requires RowPrefix(st0, toks, fieldIndex, fileName) == Success(State())
      requires contentRow == ValuesUpTo(toks, fieldIndex, toReal)
      modifies this`chrom, this`position, this`tmpPosition, this`tmpChromIndex
      ensures r.Fail? ==> RowPrefix(st0, toks, |toks|, fileName) == Failure(r.error)
      ensures r.Pass? ==> RowPrefix(st0, toks, fieldIndex + 1, fileName) == Success(State())
      ensures r.Pass? ==> contentRow' == ValuesUpTo(toks, fieldIndex + 1, toReal)
    {
      r, contentRow' := Pass, contentRow;
      if fieldIndex > 1 {
        contentRow' := contentRow + [toReal(field)];
      } else if fieldIndex == 0 {
        ExtractChrom(field);
      } else if fieldIndex == 1 {
        r := ExtractPos(field);
        if r.Fail? {
          RowPrefixFailure(st0, toks, fileName);
        }
      }
    }

    /** The row loop of readFromFileBase: rows are read until the first empty line or the end of the file. */
    method ReadRows(lines: seq<string>, toReal: string -> real) returns (r: Outcome<LoadError>)
      requires Consistent(State())
      modifies this`chrom, this`position, this`tmpPosition, this`tmpChromIndex, this`content
      ensures var rows := DataRows(lines);
        match RowsSpec(old(State()), rows, |rows|, fileName)
        case Failure(e) => r == Fail(e)
        case Success(st) => r == Pass && State() == st && content == old(content) + RowsContent(rows, |rows|, toReal)
    {
      ghost var rows := DataRows(lines);
      ghost var st0 := State();
      ghost var content0 := content;
      var i: nat := 0;
      DataRowsAt(lines, 0);
      while i < |lines| && |lines[i]| > 0
        invariant i <= |rows| && ((i < |lines| && |lines[i]| > 0) <==> i < |rows|)
        invariant RowsSpec(st0, rows, i, fileName) == Success(State())
        invariant content == content0 + RowsContent(rows, i, toReal)
        decreases |lines| - i
      {
        DataRowsAt(lines, i);
        r := ReadNextRow(st0, rows, i, lines[i], toReal, content0);
        if r.Fail? {
          return;
        }
        i := i + 1;
        DataRowsAt(lines, i);
      }
      r := Pass;
    }

    /**
     * One round of the row loop: row `i` is read; a rejected row decides the
     * whole load, an accepted one extends the rows read so far.
     */
    method ReadNextRow(ghost st0: ChromState, ghost rows: seq<string>, i: nat, row: string, toReal: string -> real,
                       ghost content0: seq<seq<real>>) returns (r: Outcome<LoadError>)
      requires Consistent(st0) && i < |rows| && rows[i] == row
      requires RowsSpec(st0, rows, i, fileName) == Success(State())
      requires content == content0 + RowsContent(rows, i, toReal)
      modifies this`chrom, this`position, this`tmpPosition, this`tmpChromIndex, this`content
      ensures r.Fail? ==> RowsSpec(st0, rows, |rows|, fileName) == Failure(r.error)
      ensures r.Pass? ==> RowsSpec(st0, rows, i + 1, fileName) == Success(State())
      ensures r.Pass? ==> content == content0 + RowsContent(rows, i + 1, toReal)
    {
      RowsStep(st0, rows, i, fileName, toReal);
      r := ReadRow(row, toReal);
      if r.Fail? {
        RowsSpecFailureStays(st0, rows, i + 1, |rows|, fileName);
      }
    }

    /** reshapeContentToInfo: the first number of every row, in row order. */
    method ReshapeContentToInfo() returns (r: Outcome<LoadError>)
      requires info == []
      modifies this`info
      ensures match InfoColumn(content, |content|)
        case Failure(e) => r == Fail(e)
        case Success(xs) => r == Pass && info == xs
    {
      for i := 0 to |content|
        invariant InfoColumn(content, i) == Success(info)
      {
        if |content[i]| == 0 {
          InfoColumnFailureStays(content, i + 1, |content|);
          return Fail(EmptyInfoRow(i));
        }
        info := info + [content[i][0]];
      }
      r := Pass;
    }

    /**
     * readFromFileBase once the file is open: the header and the rows are
     * read, then the load is finished.
     */
    method ReadFromFileBase(headerLine: string, lines: seq<string>, toReal: string -> real) returns (r: Outcome<LoadError>)
      requires chrom == [] && position == [] && tmpPosition == [] && info == []
      modifies this`header, this`chrom, this`position, this`tmpPosition, this`tmpChromIndex, this`content
      modifies this`info, this`nLoci, this`nInfoLines
      ensures match LoadSpec(headerLine, lines, fileName, toReal, old(content))
        case Failure(e) => r == Fail(e)
        case Success(t) => r == Pass && Holds(t)
    {
      tmpChromIndex := -1;
      ExtractHeader(headerLine);
      r := ReadRows(lines, toReal);
      if r.Fail? {
        return;
      }
      r := Finish();
    }

    /** The reader's members hold the table. */
    ghost predicate Holds(t: Table)
      reads this
    {
      header == t.header && chrom == t.chrom && position == t.position &&
      content == t.content && info == t.info && nLoci == t.nLoci && nInfoLines == t.nInfoLines
    }

    /** The end of readFromFileBase, after the last row. */
    method Finish() returns (r: Outcome<LoadError>)
      requires info == []
      modifies this`position, this`info, this`nLoci, this`nInfoLines
      ensures match FinishSpec(header, old(State()), content, fileName)
        case Failure(e) => r == Fail(e)
        case Success(t) => r == Pass && Holds(t)
    {
      position := position + [tmpPosition];
      nLoci := |content|;
      if |content| == 0 {
        return Fail(NoDataRows(fileName));
      }
      nInfoLines := |content[|content| - 1]|;
      r := Pass;
      if nInfoLines == 1 {
        r := ReshapeContentToInfo();
      }
    }

    /**
     * removeMarkers: the table shrinks to the rows at the kept indices, in
     * index-list order, and a one-column table rebuilds its flat list.
     */
    method RemoveMarkers() returns (r: Outcome<LoadError>)
      requires keptContent == []
      requires forall k :: 0 <= k < |indexOfContentToBeKept| ==> indexOfContentToBeKept[k] < |content|
      modifies this`content, this`keptContent, this`info, this`nLoci
      ensures content == Select(old(content), indexOfContentToBeKept) && keptContent == []
      ensures nInfoLines != 1 ==> r == Pass && info == old(info) && nLoci == |content|
      ensures nInfoLines == 1 ==>
        match InfoColumn(content, |content|)
        case Failure(e) => r == Fail(e)
        case Success(xs) => r == Pass && info == xs && nLoci == |content|
    {
      for i := 0 to |indexOfContentToBeKept|
        invariant content == old(content) && info == old(info)
        invariant |keptContent| == i
        invariant forall j :: 0 <= j < i ==> keptContent[j] == content[indexOfContentToBeKept[j]]
      {
        keptContent := keptContent + [content[indexOfContentToBeKept[i]]];
      }
      content := keptContent;
      keptContent := [];
      r := Pass;
      if nInfoLines == 1 {
        info := [];
        r := ReshapeContentToInfo();
        if r.Fail? {
          return;
        }
      }
      nLoci := |content|;
    }
  }
}
