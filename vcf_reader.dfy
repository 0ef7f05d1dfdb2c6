/**
 * The VCF reader (class VcfReader): the check of the #CHROM header line and
 * the choice of the sample column, the chromosome index built from the
 * parsed variants, marker compaction, the VQSLOD selections and the flat
 * per-marker arrays.
 */
module Vcf {
  import opened Results
  import opened LoadErrors
  import opened Tokenizer
  import opened Numbers
  import opened ChromRuns
  import opened Selection
  import opened Gzip
  import opened Variants

  // ---------------------------------------------------------------------
  // The #CHROM header line

  /** The nine fixed columns every VCF header line starts with, in order. */
  const ExpectedHeader: seq<string> := ["#CHROM", "POS", "ID", "REF", "ALT", "QUAL", "FILTER", "INFO", "FORMAT"]

  /** Where the header scan stopped: the sample name as adopted, and the column whose name equals it. */
  datatype HeaderScan = HeaderScan(sampleName: string, column: Option<nat>)

  /** The sample the reader settles on. */
  datatype Header = Header(sampleName: string, sampleColumn: nat)

  /**
   * The checkFeilds loop from field `i` on: each of the first nine fields
   * must be its fixed name; at field 9 an empty sample name adopts the
   * field; the first field equal to the sample name ends the scan.
   */
  function HeaderFrom(toks: seq<string>, i: nat, name: string): Result<HeaderScan, LoadError>
    decreases |toks| - i
  {
    if i >= |toks| then Success(HeaderScan(name, None))
    else if i < 9 && toks[i] != ExpectedHeader[i] then Failure(VcfInvalidHeaderFieldNames(ExpectedHeader[i], toks[i]))
    else
      var name' := if i == 9 && name == "" then toks[i] else name;
      if toks[i] == name' then Success(HeaderScan(name', Some(i)))
      else HeaderFrom(toks, i + 1, name')
  }

  /**
   * checkFeilds on a header line: a scan that finds no column leaves the
   * previous column index, and an index of 0 rejects the sample.
   */
  function CheckFieldsSpec(line: string, sampleName: string, column0: nat, fileName: string): Result<Header, LoadError>
  {
    match HeaderFrom(Tokenize(line, VcfLineDelims), 0, sampleName)
    case Failure(e) => Failure(e)
    case Success(scan) =>
      var column := if scan.column.Some? then scan.column.value else column0;
      if column == 0 then Failure(InvalidSampleInVcf(scan.sampleName, fileName))
      else Success(Header(scan.sampleName, column))
  }

  /** A field that is not rejected, adopts nothing and differs from the sample name is passed over. */
  lemma HeaderContinue(toks: seq<string>, i: nat, name: string)
    requires i < |toks| && (i < 9 ==> toks[i] == ExpectedHeader[i])
    requires !(i == 9 && name == "") && toks[i] != name
    ensures HeaderFrom(toks, i, name) == HeaderFrom(toks, i + 1, name)
  {
  }

  /** The header scan only ever fails on a misplaced fixed column. */
  lemma {:induction false} HeaderFromFailure(toks: seq<string>, i: nat, name: string)
    ensures HeaderFrom(toks, i, name).Failure? ==> HeaderFrom(toks, i, name).error.VcfInvalidHeaderFieldNames?
    decreases |toks| - i
  {
    if i < |toks| && !(i < 9 && toks[i] != ExpectedHeader[i]) {
      var name' := if i == 9 && name == "" then toks[i] else name;
      if toks[i] != name' {
        HeaderFromFailure(toks, i + 1, name');
      }
    }
  }

  /**
   * The field loop of checkFeilds, walking the tab/newline-separated
   * fields of the #CHROM line with the reader's find-based cursor.
   */
  method ScanHeader(line: string, name0: string) returns (r: Result<HeaderScan, LoadError>)
    ensures r == HeaderFrom(Tokenize(line, VcfLineDelims), 0, name0)
  {
    ghost var toks := Tokenize(line, VcfLineDelims);
    var fieldStart: nat := 0;
    var fieldEnd: nat := 0;
    var fieldIndex: nat := 0;
    CursorStart(line, VcfLineDelims);
    while fieldEnd < |line|
      invariant Cursor(line, VcfLineDelims, toks, fieldIndex, fieldStart, fieldEnd)
      invariant HeaderFrom(toks, 0, name0) == HeaderFrom(toks, fieldIndex, name0)
      decreases |toks| - fieldIndex
    {
      fieldEnd := NextField(line, '\t', '\n', VcfLineDelims, toks, fieldIndex, fieldStart, fieldEnd);
      var field := line[fieldStart..fieldEnd];
      var correctFieldValue := if fieldIndex < 9 then ExpectedHeader[fieldIndex] else "";
      if field != correctFieldValue && fieldIndex < 9 {
        return Failure(VcfInvalidHeaderFieldNames(correctFieldValue, field));
      }
      var name := name0;
      if fieldIndex == 9 && name == "" {
        name := field;
      }
      if field == name {
        return Success(HeaderScan(name, Some(fieldIndex)));
      }
      HeaderContinue(toks, fieldIndex, name0);
      fieldStart := fieldEnd + 1;
      fieldIndex := fieldIndex + 1;
    }
    r := Success(HeaderScan(name0, None));
  }

  /** Fields that are their fixed name, differ from the sample name and adopt nothing are passed over. */
  lemma {:induction false} HeaderSkip(toks: seq<string>, i: nat, j: nat, name: string)
    requires i <= j <= |toks|
    requires forall k :: i <= k < j ==> (k < 9 ==> toks[k] == ExpectedHeader[k]) && toks[k] != name
    requires name == "" ==> j <= 9
    ensures HeaderFrom(toks, i, name) == HeaderFrom(toks, j, name)
    decreases j - i
  {
    if i < j {
      HeaderSkip(toks, i + 1, j, name);
    }
  }

  /** With the fixed columns in place and no name given, the first sample column is taken. */
  lemma HeaderAdoptsFirstSample(line: string, column0: nat, fileName: string)
    requires var toks := Tokenize(line, VcfLineDelims); |toks| > 9 && toks[..9] == ExpectedHeader
    ensures CheckFieldsSpec(line, "", column0, fileName) == Success(Header(Tokenize(line, VcfLineDelims)[9], 9))
  {
    var toks := Tokenize(line, VcfLineDelims);
    assert forall k :: 0 <= k < 9 ==> toks[k] == ExpectedHeader[k] != "" by {
      forall k | 0 <= k < 9 ensures toks[k] == ExpectedHeader[k] != "" {
        assert toks[k] == toks[..9][k];
      }
    }
    HeaderSkip(toks, 0, 9, "");
  }

  /**
   * With the fixed columns in place, a named sample is matched at its first
   * column, which is rejected only when it is column 0; when no column has
   * the name the prior column index decides.
   */
  lemma HeaderFindsSample(line: string, name: string, column0: nat, fileName: string)
    requires var toks := Tokenize(line, VcfLineDelims); |toks| >= 9 && toks[..9] == ExpectedHeader
    requires name != ""
    ensures var toks := Tokenize(line, VcfLineDelims);
      name in toks ==>
        (exists j :: 0 <= j < |toks| && toks[j] == name && name !in toks[..j] &&
          CheckFieldsSpec(line, name, column0, fileName) ==
            if j == 0 then Failure(InvalidSampleInVcf(name, fileName)) else Success(Header(name, j)))
    ensures var toks := Tokenize(line, VcfLineDelims);
      name !in toks ==>
        (CheckFieldsSpec(line, name, column0, fileName) ==
          if column0 == 0 then Failure(InvalidSampleInVcf(name, fileName)) else Success(Header(name, column0)))
  {
    var toks := Tokenize(line, VcfLineDelims);
    assert forall k :: 0 <= k < 9 ==> toks[k] == ExpectedHeader[k] by {
      forall k | 0 <= k < 9 ensures toks[k] == ExpectedHeader[k] {
        assert toks[k] == toks[..9][k];
      }
    }
    if name in toks {
      assert toks[0..] == toks;
      var j := FirstFrom(toks, 0, name);
      HeaderSkip(toks, 0, j, name);
      assert name !in toks[..j] by {
        forall k | 0 <= k < j ensures toks[..j][k] != name {
          assert toks[..j][k] == toks[k];
        }
      }
    } else {
      HeaderSkip(toks, 0, |toks|, name);
    }
  }

  /** The first index at or after `from` holding `x`. */
  lemma FirstFrom(xs: seq<string>, from: nat, x: string) returns (j: nat)
    requires from <= |xs| && x in xs[from..]
    ensures from <= j < |xs| && xs[j] == x
    ensures forall k :: from <= k < j ==> xs[k] != x
    decreases |xs| - from
  {
    if xs[from] == x {
      j := from;
    } else {
      assert xs[from..] == [xs[from]] + xs[from + 1..];
      j := FirstFrom(xs, from + 1, x);
    }
  }

  /**
   * The first fixed column out of place is reported with its expected
   * name, unless the sample name matched an earlier column.
   */
  lemma HeaderMismatch(line: string, name: string, column0: nat, fileName: string, j: nat)
    requires var toks := Tokenize(line, VcfLineDelims); j < 9 && j < |toks| && toks[j] != ExpectedHeader[j]
    requires var toks := Tokenize(line, VcfLineDelims); forall k :: 0 <= k < j ==> toks[k] == ExpectedHeader[k] && toks[k] != name
    ensures CheckFieldsSpec(line, name, column0, fileName) ==
      Failure(VcfInvalidHeaderFieldNames(ExpectedHeader[j], Tokenize(line, VcfLineDelims)[j]))
  {
    HeaderSkip(Tokenize(line, VcfLineDelims), 0, j, name);
  }

  /** A sample named like a fixed column is matched at that column. */
  lemma HeaderSampleNamedLikeColumn(line: string, column0: nat, fileName: string)
    requires var toks := Tokenize(line, VcfLineDelims); |toks| >= 9 && toks[..9] == ExpectedHeader
    ensures CheckFieldsSpec(line, "POS", column0, fileName) == Success(Header("POS", 1))
    ensures CheckFieldsSpec(line, "#CHROM", column0, fileName) == Failure(InvalidSampleInVcf("#CHROM", fileName))
  {
    var toks := Tokenize(line, VcfLineDelims);
    assert toks[0] == toks[..9][0] == "#CHROM" && toks[1] == toks[..9][1] == "POS";
    HeaderFindsSample(line, "POS", column0, fileName);
    var j :| 0 <= j < |toks| && toks[j] == "POS" && "POS" !in toks[..j] &&
      CheckFieldsSpec(line, "POS", column0, fileName) == if j == 0 then Failure(InvalidSampleInVcf("POS", fileName)) else Success(Header("POS", j));
    assert HeaderFrom(toks, 0, "#CHROM") == Success(HeaderScan("#CHROM", Some(0)));
  }

  // ---------------------------------------------------------------------
  // The chromosome index (getChromList)

  /** The getChromList loop state: finished runs, the label of the run being read and its positions. */
  datatype ChromScan = ChromScan(chrom: seq<string>, position: seq<seq<int>>, previous: string, current: seq<int>)

  /** One name and one position list per chromosome. */
  datatype ChromIndex = ChromIndex(chrom: seq<string>, position: seq<seq<int>>)

  /**
   * One variant: a label that differs from a non-empty previous label
   * closes the previous run; the position, read with stoi, joins the
   * current run.
   */
  function ChromStep(st: ChromScan, v: Variant): Result<ChromScan, LoadError>
  {
    var closed :=
      if st.previous != v.chromStr && |st.previous| > 0
      then ChromScan(st.chrom + [st.previous], st.position + [st.current], st.previous, [])
      else st;
    match ParseInt(v.posStr)
    case None => Failure(PositionNotInteger(v.posStr))
    case Some(p) => Success(ChromScan(closed.chrom, closed.position, v.chromStr, closed.current + [p]))
  }

  /** The loop state after the first `n` variants. */
  function ScanChroms(vs: seq<Variant>, n: nat): Result<ChromScan, LoadError>
    requires n <= |vs|
  {
    if n == 0 then Success(ChromScan([], [], "", []))
    else match ScanChroms(vs, n - 1)
      case Failure(e) => Failure(e)
      case Success(st) => ChromStep(st, vs[n - 1])
  }

  /** getChromList: after the loop the last run is closed as well. */
  function ChromListSpec(vs: seq<Variant>): Result<ChromIndex, LoadError>
  {
    match ScanChroms(vs, |vs|)
    case Failure(e) => Failure(e)
    case Success(st) => Success(ChromIndex(st.chrom + [st.previous], st.position + [st.current]))
  }

  /** The CHROM label of every variant. */
  function Labels(vs: seq<Variant>): seq<string>
  {
    seq(|vs|, i requires 0 <= i < |vs| => vs[i].chromStr)
  }

  predicate PositionsParse(vs: seq<Variant>)
  {
    forall i :: 0 <= i < |vs| ==> ParseInt(vs[i].posStr).Some?
  }

  /** The POS value of every variant. */
  function Positions(vs: seq<Variant>): seq<int>
    requires PositionsParse(vs)
  {
    seq(|vs|, i requires 0 <= i < |vs| => ParseInt(vs[i].posStr).value)
  }

  /** Once the scan fails it stays failed with the same error. */
  lemma {:induction false} ScanChromsFailureStays(vs: seq<Variant>, n: nat, m: nat)
    requires n <= m <= |vs| && ScanChroms(vs, n).Failure?
    ensures ScanChroms(vs, m) == ScanChroms(vs, n)
    decreases m - n
  {
    if n < m {
      ScanChromsFailureStays(vs, n, m - 1);
    }
  }

  /**
   * The scan fails exactly when some POS is not an integer, and then with
   * the first such POS.
   */
  lemma {:induction false} ScanChromsFailure(vs: seq<Variant>, n: nat)
    requires n <= |vs|
    ensures ScanChroms(vs, n).Failure? <==> exists i :: 0 <= i < n && ParseInt(vs[i].posStr).None?
    ensures ScanChroms(vs, n).Failure? ==>
      exists j :: 0 <= j < n && ParseInt(vs[j].posStr).None? && ScanChroms(vs, n).error == PositionNotInteger(vs[j].posStr) &&
        forall i :: 0 <= i < j ==> ParseInt(vs[i].posStr).Some?
  {
    if n > 0 {
      ScanChromsFailure(vs, n - 1);
      if ScanChroms(vs, n - 1).Success? && ParseInt(vs[n - 1].posStr).None? {
        assert ScanChroms(vs, n).error == PositionNotInteger(vs[n - 1].posStr);
      }
    }
  }

  /** getChromList rejects the variants exactly when some POS is not an integer. */
  lemma ChromListFailure(vs: seq<Variant>)
    ensures ChromListSpec(vs).Failure? <==> !PositionsParse(vs)
  {
    ScanChromsFailure(vs, |vs|);
  }

  /** A label different from the previous one starts a new run. */
  lemma ChromStepNewRun(st: ChromScan, v: Variant, labels: seq<string>, positions: seq<int>)
    requires ParseInt(v.posStr).Some? && |labels| > 0 && st.previous == labels[|labels| - 1] != "" && st.previous != v.chromStr
    requires Indexed(st.chrom + [st.previous], st.position + [st.current], labels, positions)
    ensures ChromStep(st, v) == Success(ChromScan(st.chrom + [st.previous], st.position + [st.current], v.chromStr, [ParseInt(v.posStr).value]))
    ensures Indexed(st.chrom + [st.previous] + [v.chromStr], st.position + [st.current] + [[ParseInt(v.posStr).value]],
                    labels + [v.chromStr], positions + [ParseInt(v.posStr).value])
  {
    var none: seq<int> := [];
    assert none + [ParseInt(v.posStr).value] == [ParseInt(v.posStr).value];
    IndexedNew(st.chrom + [st.previous], st.position + [st.current], labels, positions, v.chromStr, ParseInt(v.posStr).value);
  }

  /** The previous label again extends the current run. */
  lemma ChromStepSameRun(st: ChromScan, v: Variant, labels: seq<string>, positions: seq<int>)
    requires ParseInt(v.posStr).Some? && |labels| > 0 && st.previous == labels[|labels| - 1] != "" && st.previous == v.chromStr
    requires Indexed(st.chrom + [st.previous], st.position + [st.current], labels, positions)
    ensures ChromStep(st, v) == Success(ChromScan(st.chrom, st.position, v.chromStr, st.current + [ParseInt(v.posStr).value]))
    ensures Indexed(st.chrom + [v.chromStr], st.position + [st.current + [ParseInt(v.posStr).value]],
                    labels + [v.chromStr], positions + [ParseInt(v.posStr).value])
  {
    IndexedSame(st.chrom + [st.previous], st.position, st.current, labels, positions, v.chromStr, ParseInt(v.posStr).value);
  }

  /** The first variant opens the first run. */
  lemma ChromStepFirst(v: Variant)
    requires ParseInt(v.posStr).Some? && v.chromStr != ""
    ensures ChromStep(ChromScan([], [], "", []), v) == Success(ChromScan([], [], v.chromStr, [ParseInt(v.posStr).value]))
    ensures Indexed([v.chromStr], [[ParseInt(v.posStr).value]], [v.chromStr], [ParseInt(v.posStr).value])
  {
    var none: seq<int> := [];
    assert none + [ParseInt(v.posStr).value] == [ParseInt(v.posStr).value];
    IndexedEmpty();
    IndexedNew([], [], [], [], v.chromStr, ParseInt(v.posStr).value);
  }

  /**
   * With non-empty labels, after `n` variants the finished runs plus the
   * current one index the first `n` variants.
   */
  lemma {:induction false} ScanChromsIndexed(vs: seq<Variant>, n: nat)
    requires n <= |vs| && PositionsParse(vs)
    requires forall i :: 0 <= i < |vs| ==> vs[i].chromStr != ""
    ensures ScanChroms(vs, n).Success?
    ensures n == 0 ==> ScanChroms(vs, n).value == ChromScan([], [], "", [])
    ensures n > 0 ==> var st := ScanChroms(vs, n).value;
      st.previous == vs[n - 1].chromStr &&
      Indexed(st.chrom + [st.previous], st.position + [st.current], Labels(vs)[..n], Positions(vs)[..n])
  {
    if n > 0 {
      ScanChromsIndexed(vs, n - 1);
      var st, v := ScanChroms(vs, n - 1).value, vs[n - 1];
      var labels, positions := Labels(vs)[..n - 1], Positions(vs)[..n - 1];
      TakeStep(Labels(vs), n - 1);
      TakeStep(Positions(vs), n - 1);
      assert Labels(vs)[..n] == labels + [v.chromStr];
      assert Positions(vs)[..n] == positions + [ParseInt(v.posStr).value];
      if n == 1 {
        assert labels == [] && positions == [];
        ChromStepFirst(v);
        assert labels + [v.chromStr] == [v.chromStr];
        assert positions + [ParseInt(v.posStr).value] == [ParseInt(v.posStr).value];
      } else if st.previous != v.chromStr {
        ChromStepNewRun(st, v, labels, positions);
      } else {
        ChromStepSameRun(st, v, labels, positions);
      }
    }
  }

  /**
   * With non-empty labels and integer positions, getChromList names each
   * run of equal consecutive labels once, in order, and lists the run's
   * positions in order.
   */
  lemma ChromListIndexes(vs: seq<Variant>)
    requires |vs| > 0 && PositionsParse(vs)
    requires forall i :: 0 <= i < |vs| ==> vs[i].chromStr != ""
    ensures ChromListSpec(vs).Success?
    ensures var ix := ChromListSpec(vs).value; Indexed(ix.chrom, ix.position, Labels(vs), Positions(vs))
  {
    ScanChromsIndexed(vs, |vs|);
    assert Labels(vs)[..|vs|] == Labels(vs);
    assert Positions(vs)[..|vs|] == Positions(vs);
  }

  /** One variant, whatever its label, adds its position at the end of the positions read. */
  lemma ChromStepFlat(st: ChromScan, v: Variant, read: seq<int>)
    requires ParseInt(v.posStr).Some?
    requires |st.chrom| == |st.position| && Flatten(st.position) + st.current == read
    ensures ChromStep(st, v).Success?
    ensures var st' := ChromStep(st, v).value;
      |st'.chrom| == |st'.position| && Flatten(st'.position) + st'.current == read + [ParseInt(v.posStr).value]
  {
    var p := ParseInt(v.posStr).value;
    if st.previous != v.chromStr && |st.previous| > 0 {
      FlattenAppend(st.position, st.current);
      var none: seq<int> := [];
      assert none + [p] == [p];
    }
  }

  /**
   * For any labels, after `n` variants with integer positions there is one
   * finished list per finished name, and the finished lists followed by the
   * current one are the positions read.
   */
  lemma {:induction false} ScanChromsFlat(vs: seq<Variant>, n: nat)
    requires n <= |vs| && PositionsParse(vs)
    ensures ScanChroms(vs, n).Success?
    ensures var st := ScanChroms(vs, n).value;
      |st.chrom| == |st.position| && Flatten(st.position) + st.current == Positions(vs)[..n]
  {
    if n > 0 {
      ScanChromsFlat(vs, n - 1);
      var st := ScanChroms(vs, n - 1).value;
      TakeStep(Positions(vs), n - 1);
      assert ScanChroms(vs, n) == ChromStep(st, vs[n - 1]);
      ChromStepFlat(st, vs[n - 1], Positions(vs)[..n - 1]);
    }
  }

  /**
   * For any labels and integer positions, getChromList gives one position
   * list per name, and the lists together are the POS values in order.
   */
  lemma ChromListAll(vs: seq<Variant>)
    requires PositionsParse(vs)
    ensures ChromListSpec(vs).Success?
    ensures var ix := ChromListSpec(vs).value;
      |ix.chrom| == |ix.position| && Flatten(ix.position) == Positions(vs)
  {
    ScanChromsFlat(vs, |vs|);
    var st := ScanChroms(vs, |vs|).value;
    FlattenAppend(st.position, st.current);
    assert Positions(vs)[..|vs|] == Positions(vs);
  }

  /** Without variants the index still holds one chromosome, with an empty name and no positions. */
  lemma ChromListNoVariants()
    ensures ChromListSpec([]) == Success(ChromIndex([""], [[]]))
  {
    assert [] + [""] == [""];
    var none: seq<seq<int>> := [];
    assert none + [[]] == [[]];
  }

  /** A variant with an empty CHROM does not close a run: its position joins the next label's run. */
  lemma ChromListEmptyLabelMerges()
    ensures var a := Variant("", "1", "", "", "", "", "", "", "", 0, 0, 0.0, 0.0);
      var b := Variant("chr1", "2", "", "", "", "", "", "", "", 0, 0, 0.0, 0.0);
      ChromListSpec([a, b]) == Success(ChromIndex(["chr1"], [[1, 2]]))
  {
    var a := Variant("", "1", "", "", "", "", "", "", "", 0, 0, 0.0, 0.0);
    var b := Variant("chr1", "2", "", "", "", "", "", "", "", 0, 0, 0.0, 0.0);
    assert ParseInt("1") == Some(1) && ParseInt("2") == Some(2);
    assert [a, b][0] == a && [a, b][1] == b;
    var none: seq<int> := [];
    assert none + [1] == [1] && [1] + [2] == [1, 2];
    assert ChromStep(ChromScan([], [], "", []), a) == Success(ChromScan([], [], "", [1]));
    assert ChromStep(ChromScan([], [], "", [1]), b) == Success(ChromScan([], [], "chr1", [1, 2]));
    assert ScanChroms([a, b], 1) == Success(ChromScan([], [], "", [1]));
    assert ScanChroms([a, b], 2) == Success(ChromScan([], [], "chr1", [1, 2]));
    var noNames: seq<string>, noLists: seq<seq<int>> := [], [];
    assert noNames + ["chr1"] == ["chr1"] && noLists + [[1, 2]] == [[1, 2]];
  }

  // ---------------------------------------------------------------------
  // The flat per-marker arrays (finalize)

  function RefCounts(vs: seq<Variant>): seq<real>
  {
    seq(|vs|, i requires 0 <= i < |vs| => vs[i].ref as real)
  }

  function AltCounts(vs: seq<Variant>): seq<real>
  {
    seq(|vs|, i requires 0 <= i < |vs| => vs[i].alt as real)
  }

  function Vqslods(vs: seq<Variant>): seq<real>
  {
    seq(|vs|, i requires 0 <= i < |vs| => vs[i].vqslod)
  }

  function Plafs(vs: seq<Variant>): seq<real>
  {
    seq(|vs|, i requires 0 <= i < |vs| => vs[i].plaf)
  }

  /**
   * Compacting the variants and then building the arrays gives the
   * compacted arrays: every array keeps marker `idx[k]` at place `k`.
   */
  lemma FlatArraysSelect(vs: seq<Variant>, idx: seq<nat>)
    requires forall k :: 0 <= k < |idx| ==> idx[k] < |vs|
    ensures RefCounts(Select(vs, idx)) == Select(RefCounts(vs), idx)
    ensures AltCounts(Select(vs, idx)) == Select(AltCounts(vs), idx)
    ensures Vqslods(Select(vs, idx)) == Select(Vqslods(vs), idx)
    ensures Plafs(Select(vs, idx)) == Select(Plafs(vs), idx)
  {
  }

  /** The VQSLOD selection over the array keeps exactly the variants whose VQSLOD passes, in order. */
  lemma LegitVariants(vs: seq<Variant>, threshold: real)
    ensures StrictlyIncreasing(LegitIndices(Vqslods(vs), threshold))
    ensures forall k: nat :: k in LegitIndices(Vqslods(vs), threshold) <==> k < |vs| && vs[k].vqslod > threshold
  {
    LegitIndicesSpec(Vqslods(vs), threshold);
  }

  // ---------------------------------------------------------------------
  // The reader

  class VcfReader {
    var fileName: string
    var sampleName: string
    var extractPlaf: bool
    var sampleColumnIndex: nat
    var isCompressed: bool
    var variants: seq<Variant>
    var keptVariants: seq<Variant>
    var chrom: seq<string>
    var position: seq<seq<int>>
    var indexOfChromStarts: seq<nat>
    var indexOfContentToBeKept: seq<nat>
    var legitVqslodAt: seq<nat>
    var refCount: seq<real>
    var altCount: seq<real>
    var vqslod: seq<real>
    var plaf: seq<real>
    var nLoci: nat

    /** The members the constructor sets before it reads the file; every list starts empty. */
    constructor (fileName: string, sampleName: string, extractPlaf: bool)
      ensures this.fileName == fileName && this.sampleName == sampleName && this.extractPlaf == extractPlaf
      ensures sampleColumnIndex == 0 && !isCompressed && nLoci == 0
      ensures variants == [] && keptVariants == [] && chrom == [] && position == []
      ensures indexOfChromStarts == [] && indexOfContentToBeKept == [] && legitVqslodAt == []
      ensures refCount == [] && altCount == [] && vqslod == [] && plaf == []
    {
      this.fileName := fileName;
      this.sampleName := sampleName;
      this.extractPlaf := extractPlaf;
      sampleColumnIndex := 0;
      isCompressed := false;
      variants, keptVariants, chrom, position := [], [], [], [];
      indexOfChromStarts, indexOfContentToBeKept, legitVqslodAt := [], [], [];
      refCount, altCount, vqslod, plaf := [], [], [], [];
      nLoci := 0;
    }

    /** checkFileCompressed on the first two bytes of the file. */
    method CheckFileCompressed(magic: seq<Byte>)
      requires |magic| >= 2
      modifies this`isCompressed
      ensures isCompressed <==> magic[..2] == [Id1, Id2]
    {
      isCompressed := IsCompressedFile(magic);
    }

    /**
     * checkFeilds on the #CHROM line: the fixed columns are checked in
     * order and the sample column is chosen; a rejected line leaves the
     * sample name as it was.
     */
    method CheckFields(line: string) returns (r: Outcome<LoadError>)
      modifies this`sampleName, this`sampleColumnIndex
      ensures match CheckFieldsSpec(line, old(sampleName), old(sampleColumnIndex), fileName)
        case Failure(e) =>
          r == Fail(e) && sampleName == old(sampleName) &&
          sampleColumnIndex == if e.InvalidSampleInVcf? then 0 else old(sampleColumnIndex)
        case Success(h) => r == Pass && sampleName == h.sampleName && sampleColumnIndex == h.sampleColumn
    {
      var scan := ScanHeader(line, sampleName);
      HeaderFromFailure(Tokenize(line, VcfLineDelims), 0, old(sampleName));
      if scan.Failure? {
        return Fail(scan.error);
      }
      if scan.value.column.Some? {
        sampleColumnIndex := scan.value.column.value;
      }
      if sampleColumnIndex == 0 {
        return Fail(InvalidSampleInVcf(scan.value.sampleName, fileName));
      }
      sampleName := scan.value.sampleName;
      r := Pass;
    }

    /**
     * getChromList: the chromosome names and per-chromosome positions of
     * the parsed variants; a POS that stoi rejects aborts it.
     */
    method GetChromList() returns (r: Outcome<LoadError>)
      modifies this`chrom, this`position
      ensures match ChromListSpec(variants)
        case Failure(e) => r == Fail(e)
        case Success(ix) => r == Pass && chrom == ix.chrom && position == ix.position
    {
      chrom := [];
      position := [];
      var previousChrom := "";
      var positionOfChrom: seq<int> := [];
      for i := 0 to |variants|
        invariant ScanChroms(variants, i) == Success(ChromScan(chrom, position, previousChrom, positionOfChrom))
      {
        if previousChrom != variants[i].chromStr && |previousChrom| > 0 {
          chrom := chrom + [previousChrom];
          position := position + [positionOfChrom];
          positionOfChrom := [];
        }
        var p := ParseInt(variants[i].posStr);
        if p.None? {
          ScanChromsFailureStays(variants, i + 1, |variants|);
          return Fail(PositionNotInteger(variants[i].posStr));
        }
        positionOfChrom := positionOfChrom + [p.value];
        previousChrom := variants[i].chromStr;
      }
      chrom := chrom + [previousChrom];
      position := position + [positionOfChrom];
      r := Pass;
    }

    /** removeMarkers: the variants shrink to those at the kept indices, in index-list order. */
    method RemoveMarkers()
      requires keptVariants == []
      requires forall k :: 0 <= k < |indexOfContentToBeKept| ==> indexOfContentToBeKept[k] < |variants|
      modifies this`variants, this`keptVariants, this`nLoci
      ensures variants == Select(old(variants), indexOfContentToBeKept)
      ensures keptVariants == [] && nLoci == |variants|
    {
      for i := 0 to |indexOfContentToBeKept|
        invariant variants == old(variants)
        invariant |keptVariants| == i
        invariant forall j :: 0 <= j < i ==> keptVariants[j] == variants[indexOfContentToBeKept[j]]
      {
        keptVariants := keptVariants + [variants[indexOfContentToBeKept[i]]];
      }
      variants := keptVariants;
      keptVariants := [];
      nLoci := |variants|;
    }

    /** findLegitSnpsGivenVQSLOD: every marker whose VQSLOD exceeds the threshold, in order. */
    method FindLegitSnpsGivenVqslod(threshold: real)
      modifies this`legitVqslodAt
      ensures legitVqslodAt == LegitIndices(vqslod, threshold)
    {
      legitVqslodAt := [];
      for i := 0 to |vqslod|
        invariant legitVqslodAt == RangeAbove(vqslod, 0, i, threshold)
      {
        if vqslod[i] > threshold {
          legitVqslodAt := legitVqslodAt + [i];
        }
      }
    }

    /**
     * findLegitSnpsGivenVQSLODHalf: the same selection restricted to the
     * chromosomes with ordinal above 10, chromosome by chromosome.
     */
    method FindLegitSnpsGivenVqslodHalf(threshold: real)
      requires RunsInside(vqslod, position, indexOfChromStarts)
      modifies this`legitVqslodAt
      ensures legitVqslodAt == HalfIndices(vqslod, position, indexOfChromStarts, threshold, |indexOfChromStarts|)
    {
      legitVqslodAt := [];
      for chromI := 0 to |indexOfChromStarts|
        invariant legitVqslodAt == HalfIndices(vqslod, position, indexOfChromStarts, threshold, chromI)
      {
        var start := indexOfChromStarts[chromI];
        var length := |position[chromI]|;
        HalfIndicesStep(vqslod, position, indexOfChromStarts, threshold, chromI);
        if chromI > HalfRunCutoff {
          AppendAbove(start, start + length, threshold);
        }
      }
    }

    /** The inner loop of the Half policy: the run's markers whose VQSLOD passes are appended. */
    method AppendAbove(lo: nat, hi: nat, threshold: real)
      requires lo <= hi <= |vqslod|
      modifies this`legitVqslodAt
      ensures legitVqslodAt == old(legitVqslodAt) + RangeAbove(vqslod, lo, hi, threshold)
    {
      for ii := lo to hi
        invariant legitVqslodAt == old(legitVqslodAt) + RangeAbove(vqslod, lo, ii, threshold)
      {
        if vqslod[ii] > threshold {
          legitVqslodAt := legitVqslodAt + [ii];
        }
      }
    }

    /** The array-building loop of finalize: one entry per variant is appended to each array. */
    method Finalize()
      modifies this`refCount, this`altCount, this`vqslod, this`plaf
      ensures refCount == old(refCount) + RefCounts(variants)
      ensures altCount == old(altCount) + AltCounts(variants)
      ensures vqslod == old(vqslod) + Vqslods(variants)
      ensures plaf == old(plaf) + Plafs(variants)
    {
      for i := 0 to |variants|
        invariant refCount == old(refCount) + RefCounts(variants[..i])
        invariant altCount == old(altCount) + AltCounts(variants[..i])
        invariant vqslod == old(vqslod) + Vqslods(variants[..i])
        invariant plaf == old(plaf) + Plafs(variants[..i])
      {
        FlatArraysStep(variants, i);
        refCount := refCount + [variants[i].ref as real];
        altCount := altCount + [variants[i].alt as real];
        vqslod := vqslod + [variants[i].vqslod];
        plaf := plaf + [variants[i].plaf];
      }
      assert variants[..|variants|] == variants;
    }
  }

  /** One more variant appends one entry to each array. */
  lemma FlatArraysStep(vs: seq<Variant>, i: nat)
    requires i < |vs|
    ensures RefCounts(vs[..i + 1]) == RefCounts(vs[..i]) + [vs[i].ref as real]
    ensures AltCounts(vs[..i + 1]) == AltCounts(vs[..i]) + [vs[i].alt as real]
    ensures Vqslods(vs[..i + 1]) == Vqslods(vs[..i]) + [vs[i].vqslod]
    ensures Plafs(vs[..i + 1]) == Plafs(vs[..i]) + [vs[i].plaf]
  {
  }
}
