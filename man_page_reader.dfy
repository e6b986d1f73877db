/**
 * Reading a man page: run `man -S 2:3 <term>`, take its stdout, delete every overstrike
 * pair (the regular expression `.\b`: one character other than a line terminator followed
 * by a backspace), and answer "No man entry" when nothing is left.
 *
 * A regular-expression replacement deletes the leftmost match, resumes after it and so
 * on, so matches never overlap. The text left behind may contain new pairs ("ab\b\b"
 * leaves "a\b"); they are not deleted.
 */
module ManPageReader {
  import opened ManCommand

  const Backspace: char := '\U{8}'

  /** What the answer is when stripping leaves nothing. */
  const NoManEntry: string := "No man entry"

  /** The characters a regular-expression `.` does not match. */
  predicate IsLineTerminator(c: char) {
    c == '\n' || c == '\r' || c == '\U{85}' || c == '\U{2028}' || c == '\U{2029}'
  }

  /** `.\b` matches at the start of `s`. */
  predicate StartsWithOverstrike(s: string) {
    |s| >= 2 && !IsLineTerminator(s[0]) && s[1] == Backspace
  }

  /** `s.replace(Regex(".\b"), "")`: at each position, drop a matching pair or keep one character. */
  function StripOverstrike(s: string): (r: string)
    ensures |r| <= |s|
  {
    if s == [] then []
    else if StartsWithOverstrike(s) then StripOverstrike(s[2..])
    else [s[0]] + StripOverstrike(s[1..])
  }

  /** The reader's answer for the captured stdout: the stripped text, never empty. */
  function ManPageText(stdout: string): (page: string)
    ensures page != []
    ensures StripOverstrike(stdout) != [] ==> page == StripOverstrike(stdout)
    ensures StripOverstrike(stdout) == [] ==> page == NoManEntry
  {
    var stripped := StripOverstrike(stdout);
    if stripped == [] then NoManEntry else stripped
  }

  /**
   * `readManPage(term)`, with the process supplied as `run`: only the stdout of
   * `man -S 2:3 <term>` is read.
   */
  function ReadManPage(term: string, run: seq<string> -> ExecResult): (page: string)
    ensures page != []
    ensures page == NoManEntry || IsSubsequence(page, run(ManArgs(term)).stdout)
    ensures page == ManPageText(run(ManArgs(term)).stdout)
  {
    var stdout := run(ManArgs(term)).stdout;
    StripIsSubsequence(stdout);
    ManPageText(stdout)
  }

  /** The exit code and stderr of `man` make no difference to the page. */
  lemma ReadManPageIgnoresExitCodeAndStderr(term: string, run: seq<string> -> ExecResult,
                                            run': seq<string> -> ExecResult)
    requires run(ManArgs(term)).stdout == run'(ManArgs(term)).stdout
    ensures ReadManPage(term, run) == ReadManPage(term, run')
  {
  }

  // ---------------------------------------------------------------------------------------
  // Reading the input as plain characters and overstrike pairs

  /** One step of the scan: a character kept, or a character deleted with the backspace after it. */
  datatype Piece = Plain(c: char) | Struck(c: char)

  /** The characters a sequence of pieces stands for. */
  function Spell(ps: seq<Piece>): string {
    if ps == [] then []
    else (match ps[0] case Plain(c) => [c] case Struck(c) => [c, Backspace]) + Spell(ps[1..])
  }

  /** The characters of the plain pieces: what is left once the pairs are deleted. */
  function Visible(ps: seq<Piece>): string {
    if ps == [] then []
    else (match ps[0] case Plain(c) => [c] case Struck(_) => []) + Visible(ps[1..])
  }

  /** How many pairs are deleted. */
  function StruckCount(ps: seq<Piece>): nat {
    if ps == [] then 0 else (if ps[0].Struck? then 1 else 0) + StruckCount(ps[1..])
  }

  /**
   * The pieces are those of a leftmost, non-overlapping match: every struck character is
   * one `.` matches, and no plain character starts a match (it is a line terminator, or
   * the next piece does not begin with a backspace).
   */
  predicate Leftmost(ps: seq<Piece>) {
    && (forall k :: 0 <= k < |ps| && ps[k].Struck? ==> !IsLineTerminator(ps[k].c))
    && (forall k :: 0 <= k < |ps| - 1 && ps[k].Plain? ==> IsLineTerminator(ps[k].c) || ps[k + 1].c != Backspace)
  }

  /** The scan of `StripOverstrike`, recording each decision it makes. */
  function Parse(s: string): (ps: seq<Piece>)
    ensures Spell(ps) == s && Leftmost(ps)
    ensures Visible(ps) == StripOverstrike(s)
    ensures |s| == |Visible(ps)| + 2 * StruckCount(ps)
  {
    if s == [] then []
    else if StartsWithOverstrike(s) then
      var rest := Parse(s[2..]);
      assert s == [s[0], Backspace] + s[2..];
      [Struck(s[0])] + rest
    else
      var rest := Parse(s[1..]);
      assert s == [s[0]] + s[1..];
      assert rest != [] ==> rest[0].c == s[1];
      [Plain(s[0])] + rest
  }

  /** A sequence of pieces that spells `s` and obeys the leftmost rule is the one `Parse` finds. */
  lemma {:induction false} LeftmostIsUnique(ps: seq<Piece>, s: string)
    requires Spell(ps) == s && Leftmost(ps)
    ensures ps == Parse(s)
  {
    if ps != [] {
      assert Leftmost(ps[1..]);
      match ps[0]
      case Plain(c) =>
        assert Spell(ps) == [c] + Spell(ps[1..]);
        if StartsWithOverstrike(s) {
          assert false;
        }
        LeftmostIsUnique(ps[1..], s[1..]);
      case Struck(c) =>
        assert Spell(ps) == [c, Backspace] + Spell(ps[1..]);
        LeftmostIsUnique(ps[1..], s[2..]);
    }
  }

  /**
   * Stripping deletes exactly the leftmost non-overlapping pairs: for the one way of
   * reading `s` as plain characters and pairs by the leftmost rule, the result is the plain
   * characters, and it is shorter than `s` by two characters per pair.
   */
  lemma StripDeletesLeftmostPairs(s: string, ps: seq<Piece>)
    requires Spell(ps) == s && Leftmost(ps)
    ensures StripOverstrike(s) == Visible(ps)
    ensures |StripOverstrike(s)| == |s| - 2 * StruckCount(ps)
  {
    LeftmostIsUnique(ps, s);
  }

  // ---------------------------------------------------------------------------------------
  // Further properties of stripping

  /** `a` is `b` with some characters deleted. */
  predicate IsSubsequence(a: string, b: string)
    decreases |b|
  {
    if a == [] then true
    else if b == [] then false
    else (a[0] == b[0] && IsSubsequence(a[1..], b[1..])) || IsSubsequence(a, b[1..])
  }

  lemma {:induction false} DropFrontKeepsSubsequence(a: string, b: string, n: nat)
    requires n <= |b| && IsSubsequence(a, b[n..])
    ensures IsSubsequence(a, b)
    decreases n
  {
    if n > 0 {
      assert b[n - 1..][1..] == b[n..];
      DropFrontKeepsSubsequence(a, b, n - 1);
    }
  }

  /** The stripped text is a subsequence of the input. */
  lemma {:induction false} StripIsSubsequence(s: string)
    ensures IsSubsequence(StripOverstrike(s), s)
  {
    if s != [] {
      if StartsWithOverstrike(s) {
        StripIsSubsequence(s[2..]);
        DropFrontKeepsSubsequence(StripOverstrike(s), s, 2);
      } else {
        StripIsSubsequence(s[1..]);
        var r := StripOverstrike(s);
        assert r[0] == s[0] && r[1..] == StripOverstrike(s[1..]);
      }
    }
  }

  /** Text without a backspace passes through unchanged. */
  lemma {:induction false} NoBackspaceUnchanged(s: string)
    requires Backspace !in s
    ensures StripOverstrike(s) == s
  {
    if s != [] {
      assert !StartsWithOverstrike(s) by {
        if |s| >= 2 { assert s[1] in s; }
      }
      NoBackspaceUnchanged(s[1..]);
    }
  }

  /** "f\bfoo\bo", the overstrike form of a bold "foo", reads "foo". */
  lemma BoldExample()
    ensures StripOverstrike("f\U{8}foo\U{8}o") == "foo"
    ensures ManPageText("f\U{8}foo\U{8}o") == "foo"
  {
    var s := "f\U{8}foo\U{8}o";
    assert StartsWithOverstrike(s) && s[2..] == "foo\U{8}o";
    assert !StartsWithOverstrike("foo\U{8}o") && "foo\U{8}o"[1..] == "oo\U{8}o";
    assert !StartsWithOverstrike("oo\U{8}o") && "oo\U{8}o"[1..] == "o\U{8}o";
    assert StartsWithOverstrike("o\U{8}o") && "o\U{8}o"[2..] == "o";
    assert !StartsWithOverstrike("o") && "o"[1..] == [];
  }

  /** A line terminator is never deleted, nor is the backspace after it. */
  lemma LineTerminatorExample()
    ensures StripOverstrike("\n\U{8}") == "\n\U{8}"
  {
    var s := "\n\U{8}";
    assert !StartsWithOverstrike(s) && s[1..] == "\U{8}";
    assert !StartsWithOverstrike("\U{8}") && "\U{8}"[1..] == [];
  }

  /**
   * Stripping is not idempotent: "ab\b\b" loses the pair "b\b" and keeps "a\b", which a
   * second stripping would delete.
   */
  lemma NotIdempotentExample()
    ensures StripOverstrike("ab\U{8}\U{8}") == "a\U{8}"
    ensures StripOverstrike("a\U{8}") == []
  {
    var s := "ab\U{8}\U{8}";
    assert !StartsWithOverstrike(s) && s[1..] == "b\U{8}\U{8}";
    assert StartsWithOverstrike("b\U{8}\U{8}") && "b\U{8}\U{8}"[2..] == "\U{8}";
    assert !StartsWithOverstrike("\U{8}") && "\U{8}"[1..] == [];
    assert StartsWithOverstrike("a\U{8}") && "a\U{8}"[2..] == [];
  }

  /** Empty stdout, or stdout made only of pairs, reads "No man entry". */
  lemma {:induction false} OnlyPairsGiveNoManEntry(ps: seq<Piece>)
    requires Leftmost(ps) && forall k :: 0 <= k < |ps| ==> ps[k].Struck?
    ensures ManPageText(Spell(ps)) == NoManEntry
  {
    StripDeletesLeftmostPairs(Spell(ps), ps);
    AllStruckIsInvisible(ps);
  }

  lemma {:induction false} AllStruckIsInvisible(ps: seq<Piece>)
    requires forall k :: 0 <= k < |ps| ==> ps[k].Struck?
    ensures Visible(ps) == []
  {
    if ps != [] {
      AllStruckIsInvisible(ps[1..]);
    }
  }
}
