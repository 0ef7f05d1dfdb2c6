/**
 * The delimiter tokenizer that both readers inline as a cursor loop:
 * each round finds the nearest delimiter at or after the cursor, the text
 * before it is the next field, and scanning resumes one character after it.
 * An empty line has no fields; a line ending in a delimiter has an empty
 * last field.
 */
module Tokenizer {

  /** Columns of a VCF line. */
  const VcfLineDelims: set<char> := {'\t', '\n'}
  /** Entries of the VCF INFO column. */
  const InfoDelims: set<char> := {';', '\t'}
  /** Tags of the VCF FORMAT column and sub-fields of a sample column. */
  const FormatDelims: set<char> := {':', '\n'}
  /** Fields of a row of a text table. */
  const TxtDelims: set<char> := {' ', ',', '\t', '\n'}

  /** std::min on the cursor positions. */
  function Min(a: nat, b: nat): nat
  {
    if a <= b then a else b
  }

  /**
   * std::string::find(c, from): the first index at or after `from` holding
   * `c`; the length of `s` stands for npos.
   */
  function Find(s: string, c: char, from: nat): (k: nat)
    requires from <= |s|
    ensures from <= k <= |s|
    ensures k < |s| ==> s[k] == c
    decreases |s| - from
  {
    if from == |s| then |s|
    else if s[from] == c then from
    else Find(s, c, from + 1)
  }

  /** The nearest index at or after `from` holding any delimiter (|s| if none). */
  function NextDelim(s: string, delims: set<char>, from: nat): (k: nat)
    requires from <= |s|
    ensures from <= k <= |s|
    ensures k < |s| ==> s[k] in delims
    decreases |s| - from
  {
    if from == |s| then |s|
    else if s[from] in delims then from
    else NextDelim(s, delims, from + 1)
  }

  /** The fields of `s[from..]`: always at least one, the last one running to the end. */
  function FieldsFrom(s: string, delims: set<char>, from: nat): (fs: seq<string>)
    requires from <= |s|
    ensures |fs| >= 1
    decreases |s| - from
  {
    var k := NextDelim(s, delims, from);
    if k == |s| then [s[from..]] else [s[from..k]] + FieldsFrom(s, delims, k + 1)
  }

  /** The fields of a whole line, in left-to-right order. */
  function Tokenize(s: string, delims: set<char>): (fs: seq<string>)
    ensures |fs| == 0 <==> |s| == 0
  {
    if |s| == 0 then [] else FieldsFrom(s, delims, 0)
  }

  /** The inverse of tokenizing on a single delimiter: fields glued back with `d`. */
  function Join(fs: seq<string>, d: char): string
  {
    if |fs| == 0 then []
    else if |fs| == 1 then fs[0]
    else fs[0] + [d] + Join(fs[1..], d)
  }

  /** Number of delimiter characters in `s`. */
  function CountIn(s: string, delims: set<char>): nat
  {
    if |s| == 0 then 0
    else CountIn(s[..|s| - 1], delims) + (if s[|s| - 1] in delims then 1 else 0)
  }

  predicate NoDelimiter(s: string, delims: set<char>)
  {
    forall j :: 0 <= j < |s| ==> s[j] !in delims
  }

  // ---------------------------------------------------------------------
  // The cursor: min-of-finds and one step of the loop

  /** No character before the found index is `c`. */
  lemma {:induction false} FindFirst(s: string, c: char, from: nat)
    requires from <= |s|
    ensures forall j :: from <= j < Find(s, c, from) ==> s[j] != c
    decreases |s| - from
  {
    if from < |s| && s[from] != c {
      FindFirst(s, c, from + 1);
    }
  }

  /** No character before the next delimiter is a delimiter. */
  lemma {:induction false} NextDelimFirst(s: string, delims: set<char>, from: nat)
    requires from <= |s|
    ensures forall j :: from <= j < NextDelim(s, delims, from) ==> s[j] !in delims
    decreases |s| - from
  {
    if from < |s| && s[from] !in delims {
      NextDelimFirst(s, delims, from + 1);
    }
  }

  /** The three properties of NextDelim determine it. */
  lemma {:induction false} NextDelimUnique(s: string, delims: set<char>, from: nat, k: nat)
    requires from <= k <= |s|
    requires k < |s| ==> s[k] in delims
    requires forall j :: from <= j < k ==> s[j] !in delims
    ensures k == NextDelim(s, delims, from)
    decreases k - from
  {
    if from < k {
      NextDelimUnique(s, delims, from + 1, k);
    }
  }

  /** `min(s.find(c1, from), s.find(c2, from))` is the nearest of two delimiters. */
  lemma MinFind2(s: string, c1: char, c2: char, delims: set<char>, from: nat)
    requires from <= |s| && delims == {c1, c2}
    ensures Min(Find(s, c1, from), Find(s, c2, from)) == NextDelim(s, delims, from)
  {
    FindFirst(s, c1, from);
    FindFirst(s, c2, from);
    NextDelimUnique(s, delims, from, Min(Find(s, c1, from), Find(s, c2, from)));
  }

  /** The four-way nested min of the text reader is the nearest of its four delimiters. */
  lemma MinFind4(s: string, from: nat)
    requires from <= |s|
    ensures Min(Min(Min(Find(s, ' ', from), Find(s, ',', from)), Find(s, '\t', from)), Find(s, '\n', from))
            == NextDelim(s, TxtDelims, from)
  {
    var k := Min(Min(Min(Find(s, ' ', from), Find(s, ',', from)), Find(s, '\t', from)), Find(s, '\n', from));
    FindFirst(s, ' ', from);
    FindFirst(s, ',', from);
    FindFirst(s, '\t', from);
    FindFirst(s, '\n', from);
    NextDelimUnique(s, TxtDelims, from, k);
  }

  /**
   * The state of a cursor loop over `s`: while the last field end is inside
   * the text, `toks[idx..]` are the fields still to come from `start`; once
   * it is past the end, every field has been seen.
   */
  predicate Cursor(s: string, delims: set<char>, toks: seq<string>, idx: nat, start: nat, end: nat)
  {
    idx <= |toks| &&
    (end < |s| ==> start <= |s| && idx < |toks| && toks[idx..] == FieldsFrom(s, delims, start)) &&
    (end >= |s| ==> idx == |toks|)
  }

  /** A cursor loop starts before the first field. */
  lemma CursorStart(s: string, delims: set<char>)
    ensures Cursor(s, delims, Tokenize(s, delims), 0, 0, 0)
  {
  }

  /**
   * One round of the cursor loop: the text up to the next delimiter is
   * `toks[idx]`, and the loop resumes one past that delimiter.
   */
  lemma CursorAdvance(s: string, delims: set<char>, toks: seq<string>, idx: nat, start: nat, end: nat, k: nat)
    requires Cursor(s, delims, toks, idx, start, end) && end < |s|
    requires k == NextDelim(s, delims, start)
    ensures start <= k <= |s| && idx < |toks| && toks[idx] == s[start..k]
    ensures Cursor(s, delims, toks, idx + 1, k + 1, k)
  {
    assert toks[idx] == toks[idx..][0];
    if k < |s| {
      assert toks[idx + 1..] == toks[idx..][1..];
    }
  }

  /**
   * The readers' field step on a two-delimiter line: the end of the field
   * that starts at `start` is the nearer of the two `find` results.
   */
  method NextField(s: string, c1: char, c2: char, ghost delims: set<char>, ghost toks: seq<string>,
                   ghost idx: nat, start: nat, ghost end: nat) returns (k: nat)
    requires delims == {c1, c2}
    requires Cursor(s, delims, toks, idx, start, end) && end < |s|
    ensures start <= k <= |s| && idx < |toks| && toks[idx] == s[start..k]
    ensures Cursor(s, delims, toks, idx + 1, k + 1, k)
  {
    k := Min(Find(s, c1, start), Find(s, c2, start));
    MinFind2(s, c1, c2, delims, start);
    CursorAdvance(s, delims, toks, idx, start, end, k);
  }

  /** The text reader's field step: the nearest of space, comma, tab and newline. */
  method NextTxtField(s: string, ghost toks: seq<string>, ghost idx: nat, start: nat, ghost end: nat) returns (k: nat)
    requires Cursor(s, TxtDelims, toks, idx, start, end) && end < |s|
    ensures start <= k <= |s| && idx < |toks| && toks[idx] == s[start..k]
    ensures Cursor(s, TxtDelims, toks, idx + 1, k + 1, k)
  {
    k := Min(Min(Min(Find(s, ' ', start), Find(s, ',', start)), Find(s, '\t', start)), Find(s, '\n', start));
    MinFind4(s, start);
    CursorAdvance(s, TxtDelims, toks, idx, start, end, k);
  }

  // ---------------------------------------------------------------------
  // Properties of the tokenizer

  lemma {:induction false} FieldsFromNoDelimiter(s: string, delims: set<char>, from: nat)
    requires from <= |s|
    ensures forall i :: 0 <= i < |FieldsFrom(s, delims, from)| ==> NoDelimiter(FieldsFrom(s, delims, from)[i], delims)
    decreases |s| - from
  {
    var k := NextDelim(s, delims, from);
    NextDelimFirst(s, delims, from);
    if k < |s| {
      FieldsFromNoDelimiter(s, delims, k + 1);
      var fs := FieldsFrom(s, delims, from);
      forall i | 0 <= i < |fs| ensures NoDelimiter(fs[i], delims) {
        if i > 0 {
          assert fs[i] == FieldsFrom(s, delims, k + 1)[i - 1];
        }
      }
    }
  }

  /** No field contains a delimiter of its set. */
  lemma TokenizeNoDelimiter(s: string, delims: set<char>)
    ensures forall i :: 0 <= i < |Tokenize(s, delims)| ==> NoDelimiter(Tokenize(s, delims)[i], delims)
  {
    if |s| > 0 {
      FieldsFromNoDelimiter(s, delims, 0);
    }
  }

  lemma {:induction false} CountInAppend(a: string, b: string, delims: set<char>)
    ensures CountIn(a + b, delims) == CountIn(a, delims) + CountIn(b, delims)
    decreases |b|
  {
    if |b| > 0 {
      assert (a + b)[..|a + b| - 1] == a + b[..|b| - 1];
      CountInAppend(a, b[..|b| - 1], delims);
    } else {
      assert a + b == a;
    }
  }

  lemma {:induction false} CountInNone(s: string, delims: set<char>)
    requires NoDelimiter(s, delims)
    ensures CountIn(s, delims) == 0
    decreases |s|
  {
    if |s| > 0 {
      CountInNone(s[..|s| - 1], delims);
    }
  }

  lemma {:induction false} FieldsFromCount(s: string, delims: set<char>, from: nat)
    requires from <= |s|
    ensures |FieldsFrom(s, delims, from)| == CountIn(s[from..], delims) + 1
    decreases |s| - from
  {
    var k := NextDelim(s, delims, from);
    NextDelimFirst(s, delims, from);
    CountInNone(s[from..k], delims);
    if k < |s| {
      FieldsFromStep(s, delims, from, k);
      FieldsFromCount(s, delims, k + 1);
      assert s[from..] == s[from..k] + [s[k]] + s[k + 1..];
      CountInAppend(s[from..k] + [s[k]], s[k + 1..], delims);
      CountInAppend(s[from..k], [s[k]], delims);
      assert CountIn([s[k]], delims) == 1 by {
        assert [s[k]][..0] == [];
      }
    } else {
      assert s[from..] == s[from..k];
    }
  }

  /** A non-empty line has one more field than it has delimiters. */
  lemma TokenizeCount(s: string, delims: set<char>)
    requires |s| > 0
    ensures |Tokenize(s, delims)| == CountIn(s, delims) + 1
  {
    FieldsFromCount(s, delims, 0);
    assert s[0..] == s;
  }

  /** Where the last field of `s[from..]` starts: after the last delimiter, or at the cursor. */
  function LastStart(s: string, delims: set<char>, from: nat): nat
    requires from <= |s|
    decreases |s| - from
  {
    var k := NextDelim(s, delims, from);
    if k == |s| then from else LastStart(s, delims, k + 1)
  }

  /** The last field starts at the cursor or right after a delimiter. */
  lemma {:induction false} LastStartAfterDelimiter(s: string, delims: set<char>, from: nat)
    requires from <= |s|
    ensures from <= LastStart(s, delims, from) <= |s|
    ensures LastStart(s, delims, from) > from ==> s[LastStart(s, delims, from) - 1] in delims
    decreases |s| - from
  {
    var k := NextDelim(s, delims, from);
    if k < |s| {
      LastStartAfterDelimiter(s, delims, k + 1);
    }
  }

  /** Putting an element in front keeps the last element. */
  lemma LastOfCons<T>(x: T, xs: seq<T>)
    requires |xs| > 0
    ensures ([x] + xs)[|xs|] == xs[|xs| - 1]
  {
  }

  /** The last field runs from LastStart to the end. */
  lemma {:induction false} LastFieldStart(s: string, delims: set<char>, from: nat)
    requires from <= |s|
    ensures LastStart(s, delims, from) <= |s|
    ensures FieldsFrom(s, delims, from)[|FieldsFrom(s, delims, from)| - 1] == s[LastStart(s, delims, from)..]
    decreases |s| - from
  {
    var k := NextDelim(s, delims, from);
    if k < |s| {
      LastFieldStart(s, delims, k + 1);
      FieldsFromStep(s, delims, from, k);
      var fs, rest := FieldsFrom(s, delims, from), FieldsFrom(s, delims, k + 1);
      LastOfCons(s[from..k], rest);
      assert |fs| - 1 == |rest|;
      assert fs[|fs| - 1] == rest[|rest| - 1];
      assert LastStart(s, delims, from) == LastStart(s, delims, k + 1);
    } else {
      assert FieldsFrom(s, delims, from) == [s[from..]];
      assert LastStart(s, delims, from) == from;
    }
  }

  /** A non-empty line ends in a delimiter exactly when its last field is empty. */
  lemma TrailingDelimiter(s: string, delims: set<char>)
    requires |s| > 0
    ensures Tokenize(s, delims)[|Tokenize(s, delims)| - 1] == "" <==> s[|s| - 1] in delims
  {
    LastStartAfterDelimiter(s, delims, 0);
    LastFieldStart(s, delims, 0);
    // the last field is delimiter-free and runs to the end of the line
    FieldsFromNoDelimiter(s, delims, 0);
  }

  /** An empty line yields no fields. */
  lemma TokenizeEmpty(delims: set<char>)
    ensures Tokenize("", delims) == []
  {
  }

  /** Joining puts the delimiter back between the first field and the rest. */
  lemma JoinFieldsFromStep(s: string, d: char, from: nat, k: nat)
    requires from <= |s| && k == NextDelim(s, {d}, from) && k < |s|
    requires Join(FieldsFrom(s, {d}, k + 1), d) == s[k + 1..]
    ensures Join(FieldsFrom(s, {d}, from), d) == s[from..]
  {
    var rest := FieldsFrom(s, {d}, k + 1);
    var field := s[from..k];
    FieldsFromStep(s, {d}, from, k);
    var fs := [field] + rest;
    assert FieldsFrom(s, {d}, from) == fs;
    assert fs[0] == field && fs[1..] == rest;
    assert Join(fs, d) == field + [d] + Join(rest, d);
    assert s[k] == d;
    assert s[from..] == field + [d] + s[k + 1..];
  }

  lemma {:induction false} JoinFieldsFrom(s: string, d: char, from: nat)
    requires from <= |s|
    ensures Join(FieldsFrom(s, {d}, from), d) == s[from..]
    decreases |s| - from
  {
    var k := NextDelim(s, {d}, from);
    if k == |s| {
      assert FieldsFrom(s, {d}, from) == [s[from..]];
    } else {
      JoinFieldsFrom(s, d, k + 1);
      JoinFieldsFromStep(s, d, from, k);
    }
  }

  /** Tokenizing on one delimiter and joining the fields with it gives the line back. */
  lemma JoinTokenize(s: string, d: char)
    requires |s| > 0
    ensures Join(Tokenize(s, {d}), d) == s
  {
    JoinFieldsFrom(s, d, 0);
    assert s[0..] == s;
  }

  /** FieldsFrom unfolded once, at a delimiter. */
  lemma FieldsFromStep(s: string, delims: set<char>, from: nat, k: nat)
    requires from <= |s| && k == NextDelim(s, delims, from) && k < |s|
    ensures FieldsFrom(s, delims, from) == [s[from..k]] + FieldsFrom(s, delims, k + 1)
  {
  }

  /** The text after a cursor, split around one character. */
  lemma SliceAround(s: string, from: nat, a: string, d: char, b: string)
    requires from <= |s| && s[from..] == a + [d] + b
    ensures from + |a| < |s| && s[from..from + |a|] == a && s[from + |a|] == d && s[from + |a| + 1..] == b
  {
    assert s[from..][..|a|] == a;
    assert s[from..][|a|] == d;
    assert s[from..][|a| + 1..] == b;
  }

  /** The last field of a join runs to the end of the line. */
  lemma FieldsFromJoinLast(s: string, from: nat, f: string, delims: set<char>)
    requires from <= |s| && NoDelimiter(f, delims) && s[from..] == f
    ensures FieldsFrom(s, delims, from) == [f]
  {
    assert forall j :: from <= j < |s| ==> s[j] == f[j - from];
    NextDelimUnique(s, delims, from, |s|);
  }

  /** A field of a join followed by the delimiter is split off at that delimiter. */
  lemma FieldsFromJoinStep(s: string, from: nat, f: string, d: char, rest: string, delims: set<char>)
    requires from <= |s| && NoDelimiter(f, delims) && d in delims && s[from..] == f + [d] + rest
    ensures from + |f| < |s| && s[from + |f| + 1..] == rest
    ensures FieldsFrom(s, delims, from) == [f] + FieldsFrom(s, delims, from + |f| + 1)
  {
    SliceAround(s, from, f, d, rest);
    var k := from + |f|;
    assert forall j :: from <= j < k ==> s[j] == f[j - from];
    NextDelimUnique(s, delims, from, k);
    FieldsFromStep(s, delims, from, k);
  }

  lemma {:induction false} FieldsFromJoin(s: string, from: nat, fs: seq<string>, delims: set<char>, d: char)
    requires from <= |s| && |fs| > 0 && d in delims
    requires forall i :: 0 <= i < |fs| ==> NoDelimiter(fs[i], delims)
    requires s[from..] == Join(fs, d)
    ensures FieldsFrom(s, delims, from) == fs
    decreases |fs|
  {
    var f := fs[0];
    assert NoDelimiter(f, delims);
    if |fs| == 1 {
      FieldsFromJoinLast(s, from, f, delims);
      assert fs == [f];
    } else {
      var tail := fs[1..];
      assert Join(fs, d) == f + [d] + Join(tail, d);
      FieldsFromJoinStep(s, from, f, d, Join(tail, d), delims);
      var next := from + |f| + 1;
      assert forall i :: 0 <= i < |tail| ==> tail[i] == fs[i + 1];
      FieldsFromJoin(s, next, tail, delims, d);
      assert FieldsFrom(s, delims, from) == [f] + tail;
      assert fs == [f] + tail;
    }
  }

  /**
   * Joining delimiter-free fields with a delimiter of the set and tokenizing
   * the result gives the fields back (unless the joined line is empty, which
   * has no fields at all).
   */
  lemma TokenizeJoin(fs: seq<string>, delims: set<char>, d: char)
    requires |fs| > 0 && d in delims
    requires forall i :: 0 <= i < |fs| ==> NoDelimiter(fs[i], delims)
    requires Join(fs, d) != []
    ensures Tokenize(Join(fs, d), delims) == fs
  {
    FieldsFromJoin(Join(fs, d), 0, fs, delims, d);
  }
}
