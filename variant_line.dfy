/**
 * One VCF data line (the VariantLine constructor and its extract_field_*
 * steps): the positional columns up to the sample column, the VQSLOD and AF
 * entries of INFO, the index of the AD tag in FORMAT and the ref,alt pair
 * of the sample column.
 */
module Variants {
  import opened Results
  import opened LoadErrors
  import opened Tokenizer
  import opened Numbers

  /** The value an integer member keeps when no field assigns it (uninitialised in the source). */
  const UnsetCount: int := 0
  /** The value a floating-point member keeps when no field assigns it (uninitialised in the source). */
  const UnsetValue: real := 0.0

  /** The fields of a parsed data line; columns the line never reaches stay "". */
  datatype Variant = Variant(
    chromStr: string, posStr: string, idStr: string, refStr: string, altStr: string,
    qualStr: string, filterStr: string, infoStr: string, formatStr: string,
    ref: int, alt: int, vqslod: real, plaf: real)

  /** What the INFO column sets. */
  datatype InfoFields = InfoFields(vqslod: real, plaf: real)

  /** The two allele depths of an AD sub-field. */
  datatype Depth = Depth(ref: int, alt: int)

  /**
   * `s.substr(k + 1)` for a `k` that may be npos: npos + 1 wraps to 0, so
   * with no delimiter found the whole text is taken.
   */
  function After(s: string, k: nat): string
    requires k <= |s|
  {
    if k < |s| then s[k + 1..] else s
  }

  // ---------------------------------------------------------------------
  // INFO

  /** The name of an INFO entry: the text before its first '=' (all of it when there is none). */
  function EntryName(e: string): string
  {
    e[..Find(e, '=', 0)]
  }

  /** The value of an INFO entry: the text after its first '=' (all of it when there is none). */
  function EntryValue(e: string): string
  {
    After(e, Find(e, '=', 0))
  }

  /**
   * The value of the last entry named `key` among the first `n` entries, if
   * any; later entries overwrite earlier ones.
   */
  function LastValue(entries: seq<string>, n: nat, key: string): Option<string>
    requires n <= |entries|
  {
    if n == 0 then None
    else if EntryName(entries[n - 1]) == key then Some(EntryValue(entries[n - 1]))
    else LastValue(entries, n - 1, key)
  }

  /** PLAF is taken from the last AF entry, and only when the reader extracts PLAF. */
  function PlafFrom(entries: seq<string>, n: nat, extractPlaf: bool, toReal: string -> real): real
    requires n <= |entries|
  {
    if !extractPlaf then UnsetValue
    else match LastValue(entries, n, "AF")
      case None => UnsetValue
      case Some(a) => toReal(a)
  }

  /** extract_field_INFO: VQSLOD from the last VQSLOD entry, which must exist. */
  function InfoSpec(info: string, extractPlaf: bool, toReal: string -> real): Result<InfoFields, LoadError>
  {
    var entries := Tokenize(info, InfoDelims);
    match LastValue(entries, |entries|, "VQSLOD")
    case None => Failure(VcfVQSLODNotFound(info))
    case Some(v) => Success(InfoFields(toReal(v), PlafFrom(entries, |entries|, extractPlaf, toReal)))
  }

  /** A `key=value` entry reads back as its key and value. */
  lemma EntryRoundTrip(key: string, value: string)
    requires '=' !in key
    ensures EntryName(key + "=" + value) == key
    ensures EntryValue(key + "=" + value) == value
  {
    var e := key + "=" + value;
    assert e[|key|] == '=';
    assert forall j :: 0 <= j < |key| ==> e[j] == key[j];
    FindFirst(e, '=', 0);
    assert Find(e, '=', 0) == |key|;
    assert e[..|key|] == key;
    assert e[|key| + 1..] == value;
  }

  /**
   * LastValue is the value of the last entry with that name: none when no
   * entry has it, otherwise the entry at some index with no later namesake.
   */
  lemma {:induction false} LastValueSpec(entries: seq<string>, n: nat, key: string)
    requires n <= |entries|
    ensures LastValue(entries, n, key).None? <==> forall i :: 0 <= i < n ==> EntryName(entries[i]) != key
    ensures LastValue(entries, n, key).Some? ==>
      exists i :: 0 <= i < n && EntryName(entries[i]) == key && LastValue(entries, n, key).value == EntryValue(entries[i]) &&
        forall j :: i < j < n ==> EntryName(entries[j]) != key
  {
    if n > 0 {
      LastValueSpec(entries, n - 1, key);
    }
  }

  /** INFO fails exactly when no entry is named VQSLOD. */
  lemma InfoNotFound(info: string, extractPlaf: bool, toReal: string -> real)
    ensures InfoSpec(info, extractPlaf, toReal).Failure? <==>
      forall i :: 0 <= i < |Tokenize(info, InfoDelims)| ==> EntryName(Tokenize(info, InfoDelims)[i]) != "VQSLOD"
    ensures InfoSpec(info, extractPlaf, toReal).Failure? ==> InfoSpec(info, extractPlaf, toReal).error == VcfVQSLODNotFound(info)
  {
    LastValueSpec(Tokenize(info, InfoDelims), |Tokenize(info, InfoDelims)|, "VQSLOD");
  }

  /** Without PLAF extraction an AF entry changes nothing. */
  lemma InfoIgnoresAf(info: string, toReal: string -> real)
    ensures InfoSpec(info, false, toReal).Success? ==> InfoSpec(info, false, toReal).value.plaf == UnsetValue
  {
  }

  lemma InfoExample(toReal: string -> real)
    ensures InfoSpec("VQSLOD=10.5;AF=0.3", true, toReal) == Success(InfoFields(toReal("10.5"), toReal("0.3")))
  {
    var vq, af := "VQSLOD" + "=" + "10.5", "AF" + "=" + "0.3";
    var fs := [vq, af];
    assert Join(fs, ';') == "VQSLOD=10.5;AF=0.3";
    assert NoDelimiter(vq, InfoDelims) && NoDelimiter(af, InfoDelims);
    TokenizeJoin(fs, InfoDelims, ';');
    EntryRoundTrip("VQSLOD", "10.5");
    EntryRoundTrip("AF", "0.3");
    assert |EntryName(af)| == 2;
    assert LastValue(fs, 1, "VQSLOD") == Some("10.5");
    assert LastValue(fs, 2, "VQSLOD") == Some("10.5");
    assert LastValue(fs, 2, "AF") == Some("0.3");
  }

  lemma InfoMissingExample(toReal: string -> real)
    ensures InfoSpec("AF=0.3", true, toReal) == Failure(VcfVQSLODNotFound("AF=0.3"))
  {
    assert NoDelimiter("AF=0.3", InfoDelims);
    TokenizeJoin(["AF=0.3"], InfoDelims, ';');
    EntryRoundTrip("AF", "0.3");
  }

  /** One more INFO entry: a VQSLOD or AF entry replaces the value seen so far. */
  lemma InfoStep(toks: seq<string>, idx: nat, entry: string, extractPlaf: bool, toReal: string -> real)
    requires idx < |toks| && toks[idx] == entry
    ensures LastValue(toks, idx + 1, "VQSLOD") ==
      if EntryName(entry) == "VQSLOD" then Some(EntryValue(entry)) else LastValue(toks, idx, "VQSLOD")
    ensures PlafFrom(toks, idx + 1, extractPlaf, toReal) ==
      if EntryName(entry) == "AF" && extractPlaf then toReal(EntryValue(entry)) else PlafFrom(toks, idx, extractPlaf, toReal)
  {
  }

  /**
   * The body of the INFO loop for one entry: the entry's name is the text
   * before '='; VQSLOD clears the not-found flag and sets the value, AF sets
   * PLAF when `extractPlaf`.
   */
  method InfoEntry(entry: string, extractPlaf: bool, toReal: string -> real, notFound: bool, vq: real, pf: real)
    returns (notFound': bool, vq': real, pf': real)
    ensures notFound' == (notFound && EntryName(entry) != "VQSLOD")
    ensures vq' == if EntryName(entry) == "VQSLOD" then toReal(EntryValue(entry)) else vq
    ensures pf' == if EntryName(entry) == "AF" && extractPlaf then toReal(EntryValue(entry)) else pf
  {
    notFound', vq', pf' := notFound, vq, pf;
    var eqIndex := Find(entry, '=', 0);
    var name := entry[..eqIndex];
    if name == "VQSLOD" {
      notFound' := false;
      vq' := toReal(After(entry, eqIndex));
    }
    if name == "AF" && extractPlaf {
      pf' := toReal(After(entry, eqIndex));
    }
  }

  /**
   * The INFO loop of extract_field_INFO: every entry is visited, and the
   * last VQSLOD entry and the last AF entry decide the values.
   */
  method ExtractInfo(info: string, extractPlaf: bool, toReal: string -> real) returns (r: Result<InfoFields, LoadError>)
    ensures r == InfoSpec(info, extractPlaf, toReal)
  {
    ghost var toks := Tokenize(info, InfoDelims);
    var vqslodNotFound := true;
    var vq := UnsetValue;
    var pf := UnsetValue;
    var fieldStart: nat := 0;
    var fieldEnd: nat := 0;
    ghost var idx: nat := 0;
    CursorStart(info, InfoDelims);
    while fieldEnd < |info|
      invariant Cursor(info, InfoDelims, toks, idx, fieldStart, fieldEnd)
      invariant vqslodNotFound == LastValue(toks, idx, "VQSLOD").None?
      invariant !vqslodNotFound ==> vq == toReal(LastValue(toks, idx, "VQSLOD").value)
      invariant pf == PlafFrom(toks, idx, extractPlaf, toReal)
      decreases |toks| - idx
    {
      fieldEnd := NextField(info, ';', '\t', InfoDelims, toks, idx, fieldStart, fieldEnd);
      var entry := info[fieldStart..fieldEnd];
      vqslodNotFound, vq, pf := InfoEntry(entry, extractPlaf, toReal, vqslodNotFound, vq, pf);
      InfoStep(toks, idx, entry, extractPlaf, toReal);
      fieldStart := fieldEnd + 1;
      idx := idx + 1;
    }
    if vqslodNotFound {
      r := Failure(VcfVQSLODNotFound(info));
    } else {
      r := Success(InfoFields(vq, pf));
    }
  }

  // ---------------------------------------------------------------------
  // FORMAT

  /** The first index of `x` in `xs`, if any. */
  function FirstIndex(xs: seq<string>, x: string): (r: Option<nat>)
    ensures r.None? <==> x !in xs
    ensures r.Some? ==> r.value < |xs| && xs[r.value] == x && forall j :: 0 <= j < r.value ==> xs[j] != x
  {
    if |xs| == 0 then None
    else if xs[0] == x then Some(0)
    else match FirstIndex(xs[1..], x)
      case None => None
      case Some(i) => Some(i + 1)
  }

  /** extract_field_FORMAT: the zero-based index of the first tag exactly equal to AD. */
  function AdIndexSpec(format: string): Result<nat, LoadError>
  {
    match FirstIndex(Tokenize(format, FormatDelims), "AD")
    case None => Failure(VcfCoverageFieldNotFound(format))
    case Some(i) => Success(i)
  }

  /** The AD index is the position of the first AD tag; with none, FORMAT is rejected. */
  lemma AdIndexCharacterised(format: string)
    ensures AdIndexSpec(format).Failure? <==> "AD" !in Tokenize(format, FormatDelims)
    ensures AdIndexSpec(format).Failure? ==> AdIndexSpec(format).error == VcfCoverageFieldNotFound(format)
    ensures AdIndexSpec(format).Success? ==>
      var i := AdIndexSpec(format).value;
      i < |Tokenize(format, FormatDelims)| && Tokenize(format, FormatDelims)[i] == "AD" &&
      "AD" !in Tokenize(format, FormatDelims)[..i]
  {
  }

  lemma AdIndexExample()
    ensures AdIndexSpec("GT:AD:DP") == Success(1)
  {
    var fs := ["GT", "AD", "DP"];
    assert Join(fs, ':') == "GT:AD:DP";
    assert forall i :: 0 <= i < |fs| ==> NoDelimiter(fs[i], FormatDelims);
    TokenizeJoin(fs, FormatDelims, ':');
  }

  lemma AdIndexMissingExample()
    ensures AdIndexSpec("GT:DP") == Failure(VcfCoverageFieldNotFound("GT:DP"))
  {
    var gs := ["GT", "DP"];
    assert Join(gs, ':') == "GT:DP";
    assert forall i :: 0 <= i < |gs| ==> NoDelimiter(gs[i], FormatDelims);
    TokenizeJoin(gs, FormatDelims, ':');
  }

  /** The FORMAT loop of extract_field_FORMAT, which stops at the first AD tag. */
  method ExtractFormat(format: string) returns (r: Result<nat, LoadError>)
    ensures r == AdIndexSpec(format)
  {
    ghost var toks := Tokenize(format, FormatDelims);
    var fieldStart: nat := 0;
    var fieldEnd: nat := 0;
    var fieldIndex: nat := 0;
    CursorStart(format, FormatDelims);
    while fieldEnd < |format|
      invariant Cursor(format, FormatDelims, toks, fieldIndex, fieldStart, fieldEnd)
      invariant forall j :: 0 <= j < fieldIndex ==> toks[j] != "AD"
      decreases |toks| - fieldIndex
    {
      fieldEnd := NextField(format, ':', '\n', FormatDelims, toks, fieldIndex, fieldStart, fieldEnd);
      if format[fieldStart..fieldEnd] == "AD" {
        return Success(fieldIndex);
      }
      fieldStart := fieldEnd + 1;
      fieldIndex := fieldIndex + 1;
    }
    r := Failure(VcfCoverageFieldNotFound(format));
  }

  // ---------------------------------------------------------------------
  // AD

  /** n_fields: one more than the number of delimiter characters. */
  method NFields(s: string, delim: char) returns (n: int)
    ensures n == CountIn(s, {delim}) + 1
  {
    var count := 0;
    for i := 0 to |s|
      invariant count == CountIn(s[..i], {delim})
    {
      assert s[..i + 1][..i] == s[..i];
      if s[i] == delim {
        count := count + 1;
      }
    }
    assert s[..|s|] == s;
    n := count + 1;
  }

  /** n_fields counts the fields the tokenizer finds in a non-empty text. */
  lemma NFieldsCountsFields(s: string, delim: char)
    requires |s| > 0
    ensures |Tokenize(s, {delim})| == CountIn(s, {delim}) + 1
  {
    TokenizeCount(s, {delim});
  }

  /**
   * The AD parse of extract_field_VARIANT: exactly two comma-separated
   * counts, each a decimal integer or "." for 0.
   */
  function ParseAd(ad: string): Result<Depth, LoadError>
  {
    var n := CountIn(ad, {','}) + 1;
    if n != 2 then Failure(VcfBadAdField(ad, WrongAdCount(n)))
    else
      var commaIndex := Find(ad, ',', 0);
      var refText := ad[..commaIndex];
      var altText := After(ad, commaIndex);
      match MaybeDotToInteger(refText)
      case None => Failure(VcfBadAdField(ad, AdCountNotInteger(refText)))
      case Some(r) =>
        match MaybeDotToInteger(altText)
        case None => Failure(VcfBadAdField(ad, AdCountNotInteger(altText)))
        case Some(a) => Success(Depth(r, a))
  }

  lemma CountInDigits(s: string)
    requires AllDigits(s)
    ensures CountIn(s, {','}) == 0
  {
    assert NoDelimiter(s, {','});
    CountInNone(s, {','});
  }

  /** Printing two counts as "ref,alt" and parsing the text gives the counts back. */
  lemma ParseAdRoundTrip(r: nat, a: nat)
    requires r <= IntMax && a <= IntMax
    ensures ParseAd(Decimal(r) + "," + Decimal(a)) == Success(Depth(r, a))
  {
    var rs, ts := Decimal(r), Decimal(a);
    var ad := rs + "," + ts;
    CountInDigits(rs);
    CountInDigits(ts);
    CountInAppend(rs, ",", {','});
    CountInAppend(rs + ",", ts, {','});
    assert CountIn(",", {','}) == 1 by {
      assert ","[..0] == "";
    }
    assert ad[|rs|] == ',';
    assert forall j :: 0 <= j < |rs| ==> ad[j] == rs[j];
    FindFirst(ad, ',', 0);
    assert Find(ad, ',', 0) == |rs|;
    assert ad[..|rs|] == rs;
    assert ad[|rs| + 1..] == ts;
    assert rs != "." && ts != ".";
    ParseDecimal(r);
    ParseDecimal(a);
  }

  /** A parsed AD field holds exactly one comma. */
  lemma ParseAdOneComma(ad: string)
    ensures ParseAd(ad).Success? ==> CountIn(ad, {','}) == 1
    ensures CountIn(ad, {','}) != 1 ==> ParseAd(ad) == Failure(VcfBadAdField(ad, WrongAdCount(CountIn(ad, {','}) + 1)))
  {
  }

  lemma ParseAdExample()
    ensures ParseAd("7,3") == Success(Depth(7, 3))
  {
    ParseAdRoundTrip(7, 3);
    assert Decimal(7) == "7" && Decimal(3) == "3";
    assert "7,3" == Decimal(7) + "," + Decimal(3);
  }

  /** A missing count (".") reads as zero. */
  lemma ParseAdDotExample()
    ensures ParseAd(".,5") == Success(Depth(0, 5))
  {
    var d := ".,5";
    assert d == "." + "," + "5";
    CountInAppend(".,", "5", {','});
    CountInAppend(".", ",", {','});
    assert CountIn(".", {','}) == 0 && CountIn(",", {','}) == 1 && CountIn("5", {','}) == 0;
    assert Find(d, ',', 0) == 1;
    assert d[..1] == "." && d[2..] == "5";
    ParseDecimal(5);
    assert Decimal(5) == "5";
  }

  /** Three counts are rejected with the number of counts found. */
  lemma ParseAdThreeExample()
    ensures ParseAd("1,2,3") == Failure(VcfBadAdField("1,2,3", WrongAdCount(3)))
  {
    assert "1,2,3" == "1," + "2," + "3";
    CountInAppend("1,2,", "3", {','});
    CountInAppend("1,", "2,", {','});
    CountInAppend("1", ",", {','});
    CountInAppend("2", ",", {','});
    assert CountIn("1", {','}) == 0 && CountIn(",", {','}) == 1 && CountIn("2", {','}) == 0 && CountIn("3", {','}) == 0;
    ParseAdOneComma("1,2,3");
  }

  /** A single count is rejected too. */
  lemma ParseAdOneExample()
    ensures ParseAd("7") == Failure(VcfBadAdField("7", WrongAdCount(1)))
  {
    assert CountIn("7", {','}) == 0;
    ParseAdOneComma("7");
  }

  // ---------------------------------------------------------------------
  // The sample column

  /**
   * extract_field_VARIANT: the sub-field at the AD index is parsed; with no
   * AD index, or one beyond the last sub-field, no depth is set.
   */
  function SampleSpec(sample: string, adIndex: Option<nat>): Result<Option<Depth>, LoadError>
  {
    var toks := Tokenize(sample, FormatDelims);
    if adIndex.None? || adIndex.value >= |toks| then Success(None)
    else match ParseAd(toks[adIndex.value])
      case Failure(e) => Failure(e)
      case Success(d) => Success(Some(d))
  }

  /** The loop of extract_field_VARIANT, which stops after the AD sub-field. */
  method ExtractSample(sample: string, adIndex: Option<nat>) returns (r: Result<Option<Depth>, LoadError>)
    ensures r == SampleSpec(sample, adIndex)
  {
    ghost var toks := Tokenize(sample, FormatDelims);
    var fieldStart: nat := 0;
    var fieldEnd: nat := 0;
    var fieldIndex: nat := 0;
    CursorStart(sample, FormatDelims);
    while fieldEnd < |sample|
      invariant Cursor(sample, FormatDelims, toks, fieldIndex, fieldStart, fieldEnd)
      invariant adIndex.Some? ==> fieldIndex <= adIndex.value
      decreases |toks| - fieldIndex
    {
      fieldEnd := NextField(sample, ':', '\n', FormatDelims, toks, fieldIndex, fieldStart, fieldEnd);
      if adIndex == Some(fieldIndex) {
        var adStr := sample[fieldStart..fieldEnd];
        var n := NFields(adStr, ',');
        if n != 2 {
          return Failure(VcfBadAdField(adStr, WrongAdCount(n)));
        }
        var commaIndex := Find(adStr, ',', 0);
        var refAd := adStr[..commaIndex];
        var altAd := After(adStr, commaIndex);
        var refCount := MaybeDotToInteger(refAd);
        if refCount.None? {
          return Failure(VcfBadAdField(adStr, AdCountNotInteger(refAd)));
        }
        var altCount := MaybeDotToInteger(altAd);
        if altCount.None? {
          return Failure(VcfBadAdField(adStr, AdCountNotInteger(altAd)));
        }
        return Success(Some(Depth(refCount.value, altCount.value)));
      }
      fieldStart := fieldEnd + 1;
      fieldIndex := fieldIndex + 1;
    }
    r := Success(None);
  }

  // ---------------------------------------------------------------------
  // The whole line

  /** Column `i` as the line leaves it after reading its first `m` fields. */
  function Column(toks: seq<string>, m: nat, i: nat): string
  {
    if i < m && i < |toks| then toks[i] else ""
  }

  /** The INFO values once `m` fields are read: none before the INFO column. */
  function InfoAfter(toks: seq<string>, m: nat, extractPlaf: bool, toReal: string -> real): InfoFields
    requires m <= |toks|
    requires m > 7 ==> InfoSpec(toks[7], extractPlaf, toReal).Success?
  {
    if m > 7 then InfoSpec(toks[7], extractPlaf, toReal).value else InfoFields(UnsetValue, UnsetValue)
  }

  /** The variant after reading its first `m` fields without an error. */
  function Filled(toks: seq<string>, m: nat, extractPlaf: bool, toReal: string -> real): Variant
    requires m <= |toks|
    requires m > 7 ==> InfoSpec(toks[7], extractPlaf, toReal).Success?
  {
    var info := InfoAfter(toks, m, extractPlaf, toReal);
    Variant(Column(toks, m, 0), Column(toks, m, 1), Column(toks, m, 2), Column(toks, m, 3), Column(toks, m, 4),
            Column(toks, m, 5), Column(toks, m, 6), Column(toks, m, 7), Column(toks, m, 8),
            UnsetCount, UnsetCount, info.vqslod, info.plaf)
  }

  /** How many fields the constructor reads: up to and including the sample column. */
  function FieldsRead(toks: seq<string>, sampleColumn: nat): (m: nat)
    ensures m <= |toks|
  {
    if sampleColumn < |toks| then sampleColumn + 1 else |toks|
  }

  /**
   * The VariantLine constructor: the line's tab/newline fields are read in
   * order up to the sample column. INFO (column 7) and FORMAT (column 8) are
   * parsed when reached, in that order, and the sample column's AD, if it is
   * reached, sets the depths.
   */
  function VariantSpec(line: string, sampleColumn: nat, extractPlaf: bool, toReal: string -> real): Result<Variant, LoadError>
  {
    var toks := Tokenize(line, VcfLineDelims);
    var m := FieldsRead(toks, sampleColumn);
    if m > 7 && InfoSpec(toks[7], extractPlaf, toReal).Failure? then Failure(InfoSpec(toks[7], extractPlaf, toReal).error)
    else if m > 8 && AdIndexSpec(toks[8]).Failure? then Failure(AdIndexSpec(toks[8]).error)
    else
      var v := Filled(toks, m, extractPlaf, toReal);
      if sampleColumn < |toks| then
        match SampleSpec(toks[sampleColumn], if m > 8 then Some(AdIndexSpec(toks[8]).value) else None)
        case Failure(e) => Failure(e)
        case Success(None) => Success(v)
        case Success(Some(d)) => Success(v.(ref := d.ref, alt := d.alt))
      else Success(v)
  }

  /**
   * A line whose sample column lies past FORMAT fills all nine positional
   * columns, takes VQSLOD and PLAF from INFO and the depths from the AD
   * sub-field named by FORMAT.
   */
  lemma VariantColumns(line: string, sampleColumn: nat, extractPlaf: bool, toReal: string -> real)
    requires 8 < sampleColumn < |Tokenize(line, VcfLineDelims)|
    requires VariantSpec(line, sampleColumn, extractPlaf, toReal).Success?
    ensures var toks := Tokenize(line, VcfLineDelims);
      var v := VariantSpec(line, sampleColumn, extractPlaf, toReal).value;
      v.chromStr == toks[0] && v.posStr == toks[1] && v.idStr == toks[2] && v.refStr == toks[3] &&
      v.altStr == toks[4] && v.qualStr == toks[5] && v.filterStr == toks[6] && v.infoStr == toks[7] &&
      v.formatStr == toks[8] &&
      InfoSpec(toks[7], extractPlaf, toReal) == Success(InfoFields(v.vqslod, v.plaf)) &&
      AdIndexSpec(toks[8]).Success? &&
      match SampleSpec(toks[sampleColumn], Some(AdIndexSpec(toks[8]).value))
      case Success(None) => v.ref == UnsetCount && v.alt == UnsetCount
      case Success(Some(d)) => v.ref == d.ref && v.alt == d.alt
      case Failure(_) => false
  {
  }

  /** Columns after the sample column are never read. */
  lemma VariantIgnoresLaterColumns(line1: string, line2: string, sampleColumn: nat, extractPlaf: bool, toReal: string -> real)
    requires sampleColumn < |Tokenize(line1, VcfLineDelims)| && sampleColumn < |Tokenize(line2, VcfLineDelims)|
    requires Tokenize(line1, VcfLineDelims)[..sampleColumn + 1] == Tokenize(line2, VcfLineDelims)[..sampleColumn + 1]
    ensures VariantSpec(line1, sampleColumn, extractPlaf, toReal) == VariantSpec(line2, sampleColumn, extractPlaf, toReal)
  {
    var t1, t2 := Tokenize(line1, VcfLineDelims), Tokenize(line2, VcfLineDelims);
    var m := sampleColumn + 1;
    assert forall i :: 0 <= i < m ==> t1[i] == t1[..m][i] == t2[i];
    assert FieldsRead(t1, sampleColumn) == m == FieldsRead(t2, sampleColumn);
    assert t1[sampleColumn] == t2[sampleColumn];
    if m > 7 {
      assert t1[7] == t2[7];
    }
    if m > 8 {
      assert t1[8] == t2[8];
    }
    if !(m > 7 && InfoSpec(t1[7], extractPlaf, toReal).Failure?) {
      FilledAgree(t1, t2, m, extractPlaf, toReal);
    }
  }

  /** Two field lists that agree on their first `m` fields fill the same variant. */
  lemma FilledAgree(t1: seq<string>, t2: seq<string>, m: nat, extractPlaf: bool, toReal: string -> real)
    requires m <= |t1| && m <= |t2|
    requires forall i :: 0 <= i < m ==> t1[i] == t2[i]
    requires m > 7 ==> InfoSpec(t1[7], extractPlaf, toReal).Success?
    ensures m > 7 ==> InfoSpec(t2[7], extractPlaf, toReal).Success?
    ensures Filled(t1, m, extractPlaf, toReal) == Filled(t2, m, extractPlaf, toReal)
  {
    assert forall i :: Column(t1, m, i) == Column(t2, m, i);
  }

  /** The error a line ends with: INFO is checked before FORMAT, FORMAT before the sample. */
  lemma VariantErrorOrder(line: string, sampleColumn: nat, extractPlaf: bool, toReal: string -> real)
    requires 7 <= sampleColumn && 7 < |Tokenize(line, VcfLineDelims)|
    ensures var toks := Tokenize(line, VcfLineDelims);
      InfoSpec(toks[7], extractPlaf, toReal).Failure? ==>
        VariantSpec(line, sampleColumn, extractPlaf, toReal) == Failure(VcfVQSLODNotFound(toks[7]))
    ensures var toks := Tokenize(line, VcfLineDelims);
      8 <= sampleColumn && 8 < |toks| && InfoSpec(toks[7], extractPlaf, toReal).Success? && AdIndexSpec(toks[8]).Failure? ==>
        VariantSpec(line, sampleColumn, extractPlaf, toReal) == Failure(VcfCoverageFieldNotFound(toks[8]))
  {
    var toks := Tokenize(line, VcfLineDelims);
    InfoNotFound(toks[7], extractPlaf, toReal);
  }

  /** The line's result once the sample column is reached with INFO and FORMAT parsed. */
  lemma VariantAtSample(line: string, sampleColumn: nat, extractPlaf: bool, toReal: string -> real)
    requires sampleColumn < |Tokenize(line, VcfLineDelims)|
    requires sampleColumn >= 7 ==> InfoSpec(Tokenize(line, VcfLineDelims)[7], extractPlaf, toReal).Success?
    requires sampleColumn >= 8 ==> AdIndexSpec(Tokenize(line, VcfLineDelims)[8]).Success?
    ensures var toks := Tokenize(line, VcfLineDelims);
      var v := Filled(toks, sampleColumn + 1, extractPlaf, toReal);
      VariantSpec(line, sampleColumn, extractPlaf, toReal) ==
        match SampleSpec(toks[sampleColumn], if sampleColumn >= 8 then Some(AdIndexSpec(toks[8]).value) else None)
        case Failure(e) => Failure(e)
        case Success(None) => Success(v)
        case Success(Some(d)) => Success(v.(ref := d.ref, alt := d.alt))
  {
  }

  /** A line that ends before the sample column leaves the depths unset. */
  lemma VariantShortLine(line: string, sampleColumn: nat, extractPlaf: bool, toReal: string -> real)
    requires |Tokenize(line, VcfLineDelims)| <= sampleColumn
    requires |Tokenize(line, VcfLineDelims)| > 7 ==> InfoSpec(Tokenize(line, VcfLineDelims)[7], extractPlaf, toReal).Success?
    requires |Tokenize(line, VcfLineDelims)| > 8 ==> AdIndexSpec(Tokenize(line, VcfLineDelims)[8]).Success?
    ensures var toks := Tokenize(line, VcfLineDelims);
      VariantSpec(line, sampleColumn, extractPlaf, toReal) == Success(Filled(toks, |toks|, extractPlaf, toReal))
  {
  }

  /**
   * The constructor's state after `n` fields are read without an error:
   * INFO and FORMAT passed once their columns are read, and the AD index
   * known from FORMAT on.
   */
  predicate ReadSoFar(toks: seq<string>, n: nat, v: Variant, adFieldIndex: Option<nat>, extractPlaf: bool, toReal: string -> real)
  {
    n <= |toks| &&
    (n > 7 ==> InfoSpec(toks[7], extractPlaf, toReal).Success?) &&
    (n > 8 ==> AdIndexSpec(toks[8]).Success?) &&
    adFieldIndex == (if n > 8 then Some(AdIndexSpec(toks[8]).value) else None) &&
    v == Filled(toks, n, extractPlaf, toReal)
  }

  /**
   * One pass of the constructor's field dispatch: the field is stored by its
   * column index, and INFO and FORMAT are parsed as they pass.
   */
  method StoreField(ghost toks: seq<string>, fieldIndex: nat, field: string, v: Variant, adFieldIndex: Option<nat>,
                    extractPlaf: bool, toReal: string -> real)
    returns (r: Result<Variant, LoadError>, adIndex: Option<nat>)
    requires fieldIndex < |toks| && toks[fieldIndex] == field
    requires ReadSoFar(toks, fieldIndex, v, adFieldIndex, extractPlaf, toReal)
    ensures r.Failure? <==>
      (fieldIndex == 7 && InfoSpec(field, extractPlaf, toReal).Failure?) || (fieldIndex == 8 && AdIndexSpec(field).Failure?)
    ensures r.Failure? && fieldIndex == 7 ==> r.error == InfoSpec(field, extractPlaf, toReal).error
    ensures r.Failure? && fieldIndex == 8 ==> r.error == AdIndexSpec(field).error
    ensures r.Success? ==> ReadSoFar(toks, fieldIndex + 1, r.value, adIndex, extractPlaf, toReal)
  {
    adIndex := adFieldIndex;
    r := Success(v);
    if fieldIndex == 0 {
      r := Success(v.(chromStr := field));
    } else if fieldIndex == 1 {
      r := Success(v.(posStr := field));
    } else if fieldIndex == 2 {
      r := Success(v.(idStr := field));
    } else if fieldIndex == 3 {
      r := Success(v.(refStr := field));
    } else if fieldIndex == 4 {
      r := Success(v.(altStr := field));
    } else if fieldIndex == 5 {
      r := Success(v.(qualStr := field));
    } else if fieldIndex == 6 {
      r := Success(v.(filterStr := field));
    } else if fieldIndex == 7 {
      var info := ExtractInfo(field, extractPlaf, toReal);
      if info.Failure? {
        return Failure(info.error), None;
      }
      r := Success(v.(infoStr := field, vqslod := info.value.vqslod, plaf := info.value.plaf));
    } else if fieldIndex == 8 {
      var ad := ExtractFormat(field);
      if ad.Failure? {
        return Failure(ad.error), None;
      }
      r := Success(v.(formatStr := field));
      adIndex := Some(ad.value);
    }
  }

  /** The sample column ends the constructor: its depths are read with the AD index. */
  method StoreSample(ghost line: string, sampleColumn: nat, extractPlaf: bool, toReal: string -> real,
                     field: string, v: Variant, adFieldIndex: Option<nat>)
    returns (r: Result<Variant, LoadError>)
    requires sampleColumn < |Tokenize(line, VcfLineDelims)| && Tokenize(line, VcfLineDelims)[sampleColumn] == field
    requires ReadSoFar(Tokenize(line, VcfLineDelims), sampleColumn + 1, v, adFieldIndex, extractPlaf, toReal)
    ensures r == VariantSpec(line, sampleColumn, extractPlaf, toReal)
  {
    VariantAtSample(line, sampleColumn, extractPlaf, toReal);
    var depth := ExtractSample(field, adFieldIndex);
    if depth.Failure? {
      return Failure(depth.error);
    }
    if depth.value.Some? {
      return Success(v.(ref := depth.value.value.ref, alt := depth.value.value.alt));
    }
    return Success(v);
  }

  /**
   * The constructor's cursor loop: each field is stored by its column index,
   * INFO and FORMAT are parsed as they pass, and the loop ends at the sample
   * column.
   */
  method ParseVariantLine(line: string, sampleColumn: nat, extractPlaf: bool, toReal: string -> real)
    returns (r: Result<Variant, LoadError>)
    ensures r == VariantSpec(line, sampleColumn, extractPlaf, toReal)
  {
    ghost var toks := Tokenize(line, VcfLineDelims);
    var v := Variant("", "", "", "", "", "", "", "", "", UnsetCount, UnsetCount, UnsetValue, UnsetValue);
    var adFieldIndex: Option<nat> := None;
    var fieldStart: nat := 0;
    var fieldEnd: nat := 0;
    var fieldIndex: nat := 0;
    CursorStart(line, VcfLineDelims);
    while fieldEnd < |line|
      invariant Cursor(line, VcfLineDelims, toks, fieldIndex, fieldStart, fieldEnd)
      invariant fieldIndex <= sampleColumn
      invariant ReadSoFar(toks, fieldIndex, v, adFieldIndex, extractPlaf, toReal)
      decreases |toks| - fieldIndex
    {
      fieldEnd := NextField(line, '\t', '\n', VcfLineDelims, toks, fieldIndex, fieldStart, fieldEnd);
      var field := line[fieldStart..fieldEnd];
      var stored;
      stored, adFieldIndex := StoreField(toks, fieldIndex, field, v, adFieldIndex, extractPlaf, toReal);
      if stored.Failure? {
        VariantErrorOrder(line, sampleColumn, extractPlaf, toReal);
        return Failure(stored.error);
      }
      v := stored.value;
      if fieldIndex == sampleColumn {
        r := StoreSample(line, sampleColumn, extractPlaf, toReal, field, v, adFieldIndex);
        return;
      }
      fieldStart := fieldEnd + 1;
      fieldIndex := fieldIndex + 1;
    }
    VariantShortLine(line, sampleColumn, extractPlaf, toReal);
    r := Success(v);
  }
}
