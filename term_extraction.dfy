/**
 * The lookup action: which term the editor state yields, and what is run and shown for it.
 *
 * The term is the lowercased selection when there is one. Otherwise two index searches run
 * around the caret: `from` is the greatest index <= offset holding a non-identifier
 * character (offset + 1 when there is none) and `to` the least index >= offset holding one.
 * Both searches read characters without a bounds check, so a caret at the end of the text,
 * or an identifier running up to the end of the text, ends in an out-of-range read; the
 * model returns that as an explicit error. The left boundary character itself is part of
 * the term when one is found.
 */
module TermExtraction {
  import opened ManCommand

  datatype Option<T> = None | Some(value: T)

  /** The exception a character read past the end of a string raises. */
  datatype Failure = StringIndexOutOfBounds(index: nat)

  datatype Result<T> = Ok(value: T) | Err(failure: Failure)

  // ---------------------------------------------------------------------------------------
  // Characters

  /**
   * `Character.isJavaIdentifierPart`, exact on ASCII: letters, digits, `_`, `$` and the
   * identifier-ignorable control characters 0-8, 14-27 and 127. Every character beyond
   * ASCII is treated as a non-identifier character.
   */
  predicate IsIdentifierPart(c: char) {
    || ('a' <= c <= 'z') || ('A' <= c <= 'Z') || ('0' <= c <= '9') || c == '_' || c == '$'
    || (0 <= c as int <= 8) || (14 <= c as int <= 27) || c as int == 127
  }

  predicate IsUpper(c: char) {
    'A' <= c <= 'Z'
  }

  /** True when no character of `s` is an upper-case ASCII letter. */
  predicate NoUpper(s: string) {
    forall i :: 0 <= i < |s| ==> !IsUpper(s[i])
  }

  function LowerChar(c: char): char {
    if IsUpper(c) then (c as int + 32) as char else c
  }

  /** `String.toLowerCase` on ASCII: `A`-`Z` become `a`-`z`, everything else is kept. */
  function Lower(s: string): (r: string)
    ensures |r| == |s| && NoUpper(r)
    ensures forall i :: 0 <= i < |s| && !IsUpper(s[i]) ==> r[i] == s[i]
    ensures forall i :: 0 <= i < |s| && IsUpper(s[i]) ==> r[i] as int == s[i] as int + 32
  {
    if s == [] then [] else [LowerChar(s[0])] + Lower(s[1..])
  }

  /** Lowercasing never turns a non-identifier character into an identifier one or back. */
  lemma LowerKeepsIdentifierClass(s: string, i: nat)
    requires i < |s|
    ensures IsIdentifierPart(Lower(s)[i]) == IsIdentifierPart(s[i])
  {
  }

  // ---------------------------------------------------------------------------------------
  // The two index searches

  /** Every character of `text[lo..hi]` is an identifier part. */
  predicate IdentifierRun(text: string, lo: int, hi: int) {
    0 <= lo && hi <= |text| && forall j :: lo <= j < hi ==> IsIdentifierPart(text[j])
  }

  /** `from` as the code defines it: the last boundary at or before the caret, else offset + 1. */
  predicate IsFrom(text: string, offset: nat, from: nat) {
    || (from <= offset < |text| && !IsIdentifierPart(text[from]) && IdentifierRun(text, from + 1, offset + 1))
    || (from == offset + 1 && IdentifierRun(text, 0, offset + 1))
  }

  /** `to` as the code defines it: the first boundary at or after the caret. */
  predicate IsTo(text: string, offset: nat, to: nat) {
    offset <= to < |text| && !IsIdentifierPart(text[to]) && IdentifierRun(text, offset, to)
  }

  /** Scans i, i - 1, ..., 0 for a non-identifier character. */
  function LastBoundary(text: string, i: nat): (r: Option<nat>)
    requires i < |text|
    ensures r.Some? ==> r.value <= i && !IsIdentifierPart(text[r.value]) && IdentifierRun(text, r.value + 1, i + 1)
    ensures r.None? <==> IdentifierRun(text, 0, i + 1)
  {
    if !IsIdentifierPart(text[i]) then Some(i)
    else if i == 0 then None
    else LastBoundary(text, i - 1)
  }

  /** Scans i, i + 1, ..., |text| for a non-identifier character; reading index |text| fails. */
  function FirstBoundary(text: string, i: nat): (r: Result<nat>)
    requires i <= |text|
    decreases |text| - i
    ensures r.Ok? ==> i <= r.value < |text| && !IsIdentifierPart(text[r.value]) && IdentifierRun(text, i, r.value)
    ensures r.Err? ==> r.failure == StringIndexOutOfBounds(|text|)
    ensures r.Err? <==> IdentifierRun(text, i, |text|)
  {
    if i == |text| then Err(StringIndexOutOfBounds(|text|))
    else if !IsIdentifierPart(text[i]) then Ok(i)
    else FirstBoundary(text, i + 1)
  }

  /**
   * The pair (from, to) of the two searches, in the order the code runs them: the
   * backward search reads `text[offset]` first, so it fails when the caret is at or past
   * the end; the forward search then fails when no boundary follows the caret.
   */
  function Bounds(text: string, offset: nat): (r: Result<(nat, nat)>)
    ensures offset >= |text| ==> r == Err(StringIndexOutOfBounds(offset))
    ensures offset < |text| && IdentifierRun(text, offset, |text|) ==> r == Err(StringIndexOutOfBounds(|text|))
    ensures r.Ok? <==> offset < |text| && !IdentifierRun(text, offset, |text|)
    ensures r.Ok? ==> IsFrom(text, offset, r.value.0) && IsTo(text, offset, r.value.1)
    ensures r.Ok? ==> r.value.0 <= r.value.1 && IdentifierRun(text, r.value.0 + 1, r.value.1)
  {
    if offset >= |text| then Err(StringIndexOutOfBounds(offset))
    else
      var from := match LastBoundary(text, offset) case Some(b) => b case None => offset + 1;
      match FirstBoundary(text, offset)
      case Err(e) => Err(e)
      case Ok(to) =>
        assert IsIdentifierPart(text[offset]) ==> to != offset;
        Ok((from, to))
  }

  /** There is only one `from` and one `to` meeting their definitions. */
  lemma BoundsUnique(text: string, offset: nat, from: nat, from': nat, to: nat, to': nat)
    requires IsFrom(text, offset, from) && IsFrom(text, offset, from')
    requires IsTo(text, offset, to) && IsTo(text, offset, to')
    ensures from == from' && to == to'
  {
  }

  // ---------------------------------------------------------------------------------------
  // The term

  /** The lookup term for the editor state: `text`, the caret `offset` and the selection, if any. */
  function ExtractTerm(text: string, offset: nat, selection: Option<string>): (r: Result<string>)
    ensures selection.Some? ==> r == Ok(Lower(selection.value))
    ensures selection.None? && offset >= |text| ==> r == Err(StringIndexOutOfBounds(offset))
    ensures selection.None? && offset < |text| && IdentifierRun(text, offset, |text|) ==>
              r == Err(StringIndexOutOfBounds(|text|))
    ensures selection.None? ==> (r.Ok? <==> offset < |text| && !IdentifierRun(text, offset, |text|))
    ensures r.Ok? ==> NoUpper(r.value)
  {
    match selection
    case Some(s) => Ok(Lower(s))
    case None =>
      match Bounds(text, offset)
      case Err(e) => Err(e)
      case Ok((from, to)) => Ok(Lower(text[from..to]))
  }

  /**
   * The term is `text[from..to]`, lowercased, for the only `from` and `to` meeting the
   * definitions of the two searches.
   */
  lemma ExtractTermMeetsSpec(text: string, offset: nat, from: nat, to: nat)
    requires IsFrom(text, offset, from) && IsTo(text, offset, to)
    ensures from <= to
    ensures ExtractTerm(text, offset, None) == Ok(Lower(text[from..to]))
  {
    var b := Bounds(text, offset);
    assert !IdentifierRun(text, offset, |text|) by {
      assert offset <= to < |text| && !IsIdentifierPart(text[to]);
    }
    BoundsUnique(text, offset, from, b.value.0, to, b.value.1);
  }

  /** A caret on a non-identifier character makes `from` and `to` both the caret: the term is empty. */
  lemma CaretOnBoundaryGivesEmptyTerm(text: string, offset: nat)
    requires offset < |text| && !IsIdentifierPart(text[offset])
    ensures Bounds(text, offset) == Ok((offset, offset))
    ensures ExtractTerm(text, offset, None) == Ok([])
  {
    assert IsFrom(text, offset, offset) && IsTo(text, offset, offset);
    ExtractTermMeetsSpec(text, offset, offset, offset);
  }

  /**
   * Without a selection the term is empty exactly when the caret is on a non-identifier
   * character, or when nothing before the caret is a boundary (so `from` is offset + 1)
   * and the character after the caret is one.
   */
  lemma EmptyTermIff(text: string, offset: nat)
    requires ExtractTerm(text, offset, None).Ok?
    ensures offset < |text|
    ensures IsIdentifierPart(text[offset]) ==> offset + 1 < |text|
    ensures ExtractTerm(text, offset, None).value == [] <==>
              || !IsIdentifierPart(text[offset])
              || (IdentifierRun(text, 0, offset + 1) && !IsIdentifierPart(text[offset + 1]))
  {
    var b := Bounds(text, offset);
    var from, to := b.value.0, b.value.1;
    if !IsIdentifierPart(text[offset]) {
      CaretOnBoundaryGivesEmptyTerm(text, offset);
    } else if IdentifierRun(text, 0, offset + 1) {
      assert from == offset + 1 && offset < to;
      if !IsIdentifierPart(text[offset + 1]) {
        assert IsTo(text, offset, offset + 1);
        BoundsUnique(text, offset, from, from, to, offset + 1);
      } else {
        assert to != offset + 1;
      }
    } else {
      assert from <= offset < to;
    }
  }

  /**
   * When a boundary `j` lies at or before the caret, `from` is the last such boundary, and
   * a non-empty term starts with the character `text[from]` itself, unchanged by lowercasing.
   */
  lemma LeftBoundaryIsIncluded(text: string, offset: nat, j: nat)
    requires j <= offset < |text| && !IsIdentifierPart(text[j])
    requires ExtractTerm(text, offset, None).Ok?
    requires ExtractTerm(text, offset, None).value != []
    ensures Bounds(text, offset).Ok?
    ensures j <= Bounds(text, offset).value.0 <= offset
    ensures !IsIdentifierPart(text[Bounds(text, offset).value.0])
    ensures ExtractTerm(text, offset, None).value[0] == text[Bounds(text, offset).value.0]
  {
    var b := Bounds(text, offset);
    var from, to := b.value.0, b.value.1;
    assert from <= offset by {
      assert !IdentifierRun(text, 0, offset + 1);
    }
    assert text[from..to][0] == text[from];
    assert !IsUpper(text[from]);
  }

  /** Every character of the term after the first is an identifier character. */
  lemma TermTailIsIdentifier(text: string, offset: nat)
    requires ExtractTerm(text, offset, None).Ok?
    ensures forall k :: 1 <= k < |ExtractTerm(text, offset, None).value| ==>
              IsIdentifierPart(ExtractTerm(text, offset, None).value[k])
  {
    var b := Bounds(text, offset);
    var from, to := b.value.0, b.value.1;
    var t := ExtractTerm(text, offset, None).value;
    forall k | 1 <= k < |t|
      ensures IsIdentifierPart(t[k])
    {
      assert text[from..to][k] == text[from + k];
      LowerKeepsIdentifierClass(text[from..to], k);
    }
  }

  /** With the caret on `f` of "x.foo bar", the term is ".foo", not "foo". */
  lemma BoundaryExample()
    ensures ExtractTerm("x.foo bar", 2, None) == Ok(".foo")
  {
    var text := "x.foo bar";
    assert IsFrom(text, 2, 1) by {
      assert !IsIdentifierPart(text[1]) && IsIdentifierPart(text[2]);
    }
    assert IsTo(text, 2, 5) by {
      assert IsIdentifierPart(text[2]) && IsIdentifierPart(text[3]) && IsIdentifierPart(text[4]);
    }
    ExtractTermMeetsSpec(text, 2, 1, 5);
    assert text[1..5] == ".foo";
    assert NoUpper(".foo");
    assert Lower(".foo") == ".foo";
  }

  /** With no boundary before the caret, `from` is offset + 1: on `f` of "foo bar" the term is "oo". */
  lemma NoLeftBoundaryExample()
    ensures ExtractTerm("foo bar", 0, None) == Ok("oo")
  {
    var text := "foo bar";
    assert IsFrom(text, 0, 1) by {
      assert IsIdentifierPart(text[0]);
    }
    assert IsTo(text, 0, 3) by {
      assert IsIdentifierPart(text[0]) && IsIdentifierPart(text[1]) && IsIdentifierPart(text[2]);
    }
    ExtractTermMeetsSpec(text, 0, 1, 3);
    assert text[1..3] == "oo";
    assert Lower("oo") == "oo";
  }

  // ---------------------------------------------------------------------------------------
  // The action

  /** What the action ends with when the term could be extracted. */
  datatype Action =
    | NoLookup                                                   // empty term: nothing is run
    | ShowManPage(argv: seq<string>, body: string, title: string)  // the console shown

  /**
   * The whole action: extract the term, stop on an empty one, otherwise run `man` through
   * `run` and show its stdout (unmodified) in a console titled "man <term>".
   */
  function PerformLookup(text: string, offset: nat, selection: Option<string>,
                         run: seq<string> -> ExecResult): (r: Result<Action>)
    ensures ExtractTerm(text, offset, selection).Err? ==> r == Err(ExtractTerm(text, offset, selection).failure)
    ensures r == Ok(NoLookup) <==> ExtractTerm(text, offset, selection) == Ok([])
    ensures ExtractTerm(text, offset, selection).Ok? && ExtractTerm(text, offset, selection).value != [] ==>
              r.Ok? && r.value.ShowManPage?
    ensures r.Ok? && r.value.ShowManPage? ==>
              && |r.value.argv| == 4
              && r.value.argv == ["man", "-S", "2:3", r.value.argv[3]]
              && ExtractTerm(text, offset, selection) == Ok(r.value.argv[3])
              && r.value.argv[3] != [] && NoUpper(r.value.argv[3])
              && r.value.body == run(r.value.argv).stdout
              && r.value.title == "man " + r.value.argv[3]
  {
    match ExtractTerm(text, offset, selection)
    case Err(e) => Err(e)
    case Ok(term) =>
      if term == [] then Ok(NoLookup)
      else
        var argv := ManArgs(term);
        Ok(ShowManPage(argv, run(argv).stdout, "man " + term))
  }

  /** A selection is used as it is, only lowercased, wherever the caret is. */
  lemma SelectionIgnoresCaret(text: string, offset: nat, text': string, offset': nat, s: string,
                              run: seq<string> -> ExecResult)
    ensures PerformLookup(text, offset, Some(s), run) == PerformLookup(text', offset', Some(s), run)
    ensures s != [] ==> PerformLookup(text, offset, Some(s), run).value.argv[3] == Lower(s)
  {
  }

  /** An empty term aborts before any command is run: the process plays no part in the outcome. */
  lemma EmptyTermRunsNothing(text: string, offset: nat, selection: Option<string>,
                             run: seq<string> -> ExecResult, run': seq<string> -> ExecResult)
    requires ExtractTerm(text, offset, selection) == Ok([])
    ensures PerformLookup(text, offset, selection, run) == PerformLookup(text, offset, selection, run') == Ok(NoLookup)
  {
  }

  /** Only the stdout of the process is used; its exit code and stderr are ignored. */
  lemma OnlyStdoutIsShown(text: string, offset: nat, selection: Option<string>,
                          run: seq<string> -> ExecResult, run': seq<string> -> ExecResult)
    requires forall argv :: run(argv).stdout == run'(argv).stdout
    ensures PerformLookup(text, offset, selection, run) == PerformLookup(text, offset, selection, run')
  {
  }
}
