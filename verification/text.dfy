/**
 Character and string helpers shared by the voice selection and the filename
 synthesis: ASCII case mapping, the character class `[a-zA-Z\s]`, prefix and
 substring tests, `str.split` / `str.join` on one separator character, and the
 whitespace tokenizer that stands in for the word tokenizer.
 */
module Text {

  predicate IsUpper(c: char) { 'A' <= c <= 'Z' }

  predicate IsLower(c: char) { 'a' <= c <= 'z' }

  predicate IsLetter(c: char) { IsUpper(c) || IsLower(c) }

  /** The ASCII characters that Python's `\s` matches in a `str` pattern:
      space, TAB, LF, VT, FF, CR and the four separators 0x1C-0x1F. */
  predicate IsSpace(c: char) {
    c == ' ' || 9 <= c as int <= 13 || 28 <= c as int <= 31
  }

  // ---------------------------------------------------------------------------
  // Lowercasing (`str.lower`, restricted to ASCII)
  // ---------------------------------------------------------------------------

  function LowerChar(c: char): (r: char)
    ensures !IsUpper(r)
    ensures IsLetter(c) <==> IsLetter(r)
    ensures IsLower(c) ==> r == c
    ensures IsUpper(c) ==> IsLower(r) && r as int == c as int + 32
  {
    if IsUpper(c) then (c as int + 32) as char else c
  }

  function Lower(s: string): (r: string)
    ensures |r| == |s|
    ensures forall i :: 0 <= i < |s| ==> !IsUpper(r[i])
    ensures forall i :: 0 <= i < |s| ==> (IsLetter(s[i]) <==> IsLetter(r[i]))
    ensures forall i :: 0 <= i < |s| ==> !IsUpper(s[i]) ==> r[i] == s[i]
    ensures forall i :: 0 <= i < |s| && IsUpper(s[i]) ==> r[i] as int == s[i] as int + 32
  {
    seq(|s|, i requires 0 <= i < |s| => LowerChar(s[i]))
  }

  /** Lowercasing twice is lowercasing once. */
  lemma LowerIdempotent(s: string)
    ensures Lower(Lower(s)) == Lower(s)
  {
  }

  // ---------------------------------------------------------------------------
  // Prefix and substring tests (`str.startswith`, `in` on strings)
  // ---------------------------------------------------------------------------

  /** `s.startswith(prefix)`: the empty prefix always matches. */
  predicate StartsWith(s: string, prefix: string): (b: bool)
    ensures |prefix| == 0 ==> b
    ensures b ==> |prefix| <= |s|
  {
    |prefix| <= |s| && s[..|prefix|] == prefix
  }

  /** `s` starts with `prefix` exactly when it agrees with `prefix` character
      by character over the prefix's length. */
  lemma StartsWithChars(s: string, prefix: string)
    ensures StartsWith(s, prefix) <==> |prefix| <= |s| && forall k :: 0 <= k < |prefix| ==> s[k] == prefix[k]
  {
    if |prefix| <= |s| && forall k :: 0 <= k < |prefix| ==> s[k] == prefix[k] {
      assert s[..|prefix|] == prefix;
    }
  }

  /** `needle` occurs in `hay` at some position: the meaning of `needle in hay`. */
  ghost predicate IsSubstring(needle: string, hay: string) {
    exists i :: OccursAt(needle, hay, i)
  }

  /** `needle` sits in `hay` starting at index `i`. */
  predicate OccursAt(needle: string, hay: string, i: int) {
    0 <= i <= |hay| - |needle| && hay[i..i + |needle|] == needle
  }

  /** Executable substring search, scanning `hay` left to right. */
  function Contains(needle: string, hay: string): (b: bool)
    decreases |hay|
  {
    if |needle| > |hay| then false
    else if StartsWith(hay, needle) then true
    else Contains(needle, hay[1..])
  }

  lemma {:induction false} ContainsIsSubstring(needle: string, hay: string)
    ensures Contains(needle, hay) <==> IsSubstring(needle, hay)
    decreases |hay|
  {
    if |needle| > |hay| {
    } else if StartsWith(hay, needle) {
      assert OccursAt(needle, hay, 0);
    } else {
      ContainsIsSubstring(needle, hay[1..]);
      if IsSubstring(needle, hay) {
        var i :| OccursAt(needle, hay, i);
        assert i != 0;
        assert hay[1..][i - 1..i - 1 + |needle|] == needle;
        assert OccursAt(needle, hay[1..], i - 1);
      }
      if IsSubstring(needle, hay[1..]) {
        var i :| OccursAt(needle, hay[1..], i);
        assert hay[i + 1..i + 1 + |needle|] == needle;
        assert OccursAt(needle, hay, i + 1);
      }
    }
  }

  // ---------------------------------------------------------------------------
  // `str.split(sep)` and `sep.join(words)` for a single separator character
  // ---------------------------------------------------------------------------

  /** Position of the first `c` in `s`. */
  function FirstIndex(s: string, c: char): (i: nat)
    requires c in s
    ensures i < |s| && s[i] == c && c !in s[..i]
  {
    if s[0] == c then 0 else 1 + FirstIndex(s[1..], c)
  }

  /** Python's `s.split(sep)`: the pieces between separators, always at least one. */
  function Split(s: string, sep: char): (r: seq<string>)
    ensures |r| >= 1
    ensures forall k :: 0 <= k < |r| ==> sep !in r[k]
    decreases |s|
  {
    if sep !in s then [s]
    else
      var i := FirstIndex(s, sep);
      [s[..i]] + Split(s[i + 1..], sep)
  }

  /** Python's `sep.join(ws)`: the first piece comes first, and with a second
      piece the separator follows it. */
  function Join(ws: seq<string>, sep: char): (r: string)
    ensures |ws| > 0 ==> StartsWith(r, ws[0])
    ensures |ws| > 1 ==> |r| > |ws[0]| && r[|ws[0]|] == sep
  {
    if |ws| == 0 then []
    else if |ws| == 1 then ws[0]
    else ws[0] + [sep] + Join(ws[1..], sep)
  }

  /** Joining the pieces of a split gives the original string back. */
  lemma {:induction false} JoinSplit(s: string, sep: char)
    ensures Join(Split(s, sep), sep) == s
    decreases |s|
  {
    if sep in s {
      var i := FirstIndex(s, sep);
      var rest := Split(s[i + 1..], sep);
      JoinSplit(s[i + 1..], sep);
      assert Split(s, sep) == [s[..i]] + rest;
      assert ([s[..i]] + rest)[1..] == rest;
      assert s == s[..i] + [sep] + s[i + 1..];
    }
  }

  /** Splitting a join of separator-free pieces gives the pieces back. */
  lemma {:induction false} SplitJoin(ws: seq<string>, sep: char)
    requires |ws| >= 1
    requires forall k :: 0 <= k < |ws| ==> sep !in ws[k]
    ensures Split(Join(ws, sep), sep) == ws
  {
    if |ws| > 1 {
      var rest := Join(ws[1..], sep);
      assert Join(ws, sep) == ws[0] + [sep] + rest;
      SplitJoin(ws[1..], sep);
      assert sep !in ws[0];
      SplitAtFirst(ws[0], sep, rest);
      assert ws == [ws[0]] + ws[1..];
    }
  }

  /** Splitting a separator-free piece, a separator and a rest. */
  lemma SplitAtFirst(w: string, sep: char, rest: string)
    requires sep !in w
    ensures Split(w + [sep] + rest, sep) == [w] + Split(rest, sep)
  {
    var s := w + [sep] + rest;
    assert s[|w|] == sep;
    assert s[..|w|] == w;
    FirstIndexUnique(s, sep, |w|);
    assert s[|w| + 1..] == rest;
  }

  lemma FirstIndexUnique(s: string, c: char, i: nat)
    requires i < |s| && s[i] == c && c !in s[..i]
    ensures FirstIndex(s, c) == i
  {
  }

  /** A join of `n` separator-free pieces holds exactly `n - 1` separators. */
  lemma {:induction false} JoinSeparatorCount(ws: seq<string>, sep: char)
    requires |ws| >= 1
    requires forall k :: 0 <= k < |ws| ==> sep !in ws[k]
    ensures multiset(Join(ws, sep))[sep] == |ws| - 1
  {
    if |ws| > 1 {
      JoinSeparatorCount(ws[1..], sep);
      assert multiset(ws[0])[sep] == 0;
      assert Join(ws, sep) == ws[0] + [sep] + Join(ws[1..], sep);
    } else {
      assert multiset(ws[0])[sep] == 0;
    }
  }

  /** Every character of a join is a separator or a character of some piece. */
  lemma {:induction false} JoinChars(ws: seq<string>, sep: char, i: nat)
    requires i < |Join(ws, sep)|
    ensures Join(ws, sep)[i] == sep || exists k :: 0 <= k < |ws| && Join(ws, sep)[i] in ws[k]
  {
    if |ws| == 1 {
      assert Join(ws, sep)[i] in ws[0];
    } else if |ws| > 1 {
      var s := Join(ws, sep);
      assert s == ws[0] + [sep] + Join(ws[1..], sep);
      if i < |ws[0]| {
        assert s[i] in ws[0];
      } else if i > |ws[0]| {
        var j := i - |ws[0]| - 1;
        assert s[i] == Join(ws[1..], sep)[j];
        JoinChars(ws[1..], sep, j);
        if s[i] != sep {
          var k :| 0 <= k < |ws[1..]| && s[i] in ws[1..][k];
          assert s[i] in ws[k + 1];
        }
      }
    }
  }

  // ---------------------------------------------------------------------------
  // Whitespace tokenizer
  // ---------------------------------------------------------------------------

  /** Length of the run of non-space characters that starts `s`. */
  function WordLength(s: string): (n: nat)
    ensures n <= |s|
    ensures forall k :: 0 <= k < n ==> !IsSpace(s[k])
    ensures n == |s| || IsSpace(s[n])
  {
    if |s| == 0 || IsSpace(s[0]) then 0 else 1 + WordLength(s[1..])
  }

  /** A token: a non-empty run without whitespace. */
  predicate IsWord(w: string) {
    |w| > 0 && forall k :: 0 <= k < |w| ==> !IsSpace(w[k])
  }

  /** The maximal runs of non-space characters of `s`, in order. */
  function Words(s: string): (r: seq<string>)
    ensures forall k :: 0 <= k < |r| ==> IsWord(r[k])
    decreases |s|
  {
    if |s| == 0 then []
    else if IsSpace(s[0]) then Words(s[1..])
    else
      var n := WordLength(s);
      [s[..n]] + Words(s[n..])
  }

  /** Every character of every token is a non-space character of the input. */
  lemma {:induction false} WordsChars(s: string, k: nat, j: nat)
    requires k < |Words(s)| && j < |Words(s)[k]|
    ensures Words(s)[k][j] in s
    decreases |s|
  {
    if IsSpace(s[0]) {
      WordsChars(s[1..], k, j);
    } else {
      var n := WordLength(s);
      assert Words(s) == [s[..n]] + Words(s[n..]);
      if k == 0 {
        assert s[..n][j] == s[j];
      } else {
        WordsChars(s[n..], k - 1, j);
      }
    }
  }

  /** The tokens laid end to end. */
  function Concat(ws: seq<string>): string
  {
    if |ws| == 0 then [] else ws[0] + Concat(ws[1..])
  }

  /** `s` with every whitespace character deleted. */
  function RemoveSpaces(s: string): (r: string)
    ensures forall k :: 0 <= k < |r| ==> !IsSpace(r[k])
  {
    if |s| == 0 then []
    else (if IsSpace(s[0]) then [] else [s[0]]) + RemoveSpaces(s[1..])
  }

  lemma {:induction false} RemoveSpacesAppend(a: string, b: string)
    ensures RemoveSpaces(a + b) == RemoveSpaces(a) + RemoveSpaces(b)
  {
    if |a| > 0 {
      RemoveSpacesAppend(a[1..], b);
      assert (a + b)[1..] == a[1..] + b;
    } else {
      assert a + b == b;
    }
  }

  lemma {:induction false} RemoveSpacesOfRun(w: string)
    requires forall k :: 0 <= k < |w| ==> !IsSpace(w[k])
    ensures RemoveSpaces(w) == w
  {
    if |w| > 0 {
      RemoveSpacesOfRun(w[1..]);
      assert w == [w[0]] + w[1..];
    }
  }

  /** No character is lost or invented: the tokens laid end to end are the
      input with its whitespace deleted, whatever whitespace separates them. */
  lemma {:induction false} WordsKeepAllText(s: string)
    ensures Concat(Words(s)) == RemoveSpaces(s)
    decreases |s|
  {
    if |s| > 0 {
      if IsSpace(s[0]) {
        WordsKeepAllText(s[1..]);
      } else {
        var n := WordLength(s);
        WordsKeepAllText(s[n..]);
        assert Words(s) == [s[..n]] + Words(s[n..]);
        assert ([s[..n]] + Words(s[n..]))[1..] == Words(s[n..]);
        assert s == s[..n] + s[n..];
        RemoveSpacesAppend(s[..n], s[n..]);
        RemoveSpacesOfRun(s[..n]);
      }
    }
  }

  /** `w` occurs in `s` at `p` with whitespace or an end of `s` on both sides. */
  predicate MaximalRunAt(w: string, s: string, p: int) {
    && 0 <= p && p + |w| <= |s| && s[p..p + |w|] == w
    && (p == 0 || IsSpace(s[p - 1]))
    && (p + |w| == |s| || IsSpace(s[p + |w|]))
  }

  /** The tokens are the maximal runs of the input, in the order they occur:
      token `k` is a maximal run at `ps[k]`, and each token ends (with at
      least one whitespace character in between) before the next one starts.
      With `WordsKeepAllText` this leaves no other way to split the input. */
  lemma {:induction false} WordsInOrder(s: string) returns (ps: seq<int>)
    ensures |ps| == |Words(s)|
    ensures forall k :: 0 <= k < |ps| ==> MaximalRunAt(Words(s)[k], s, ps[k])
    ensures forall k :: 0 <= k < |ps| - 1 ==> ps[k] + |Words(s)[k]| < ps[k + 1]
    decreases |s|
  {
    if |s| == 0 {
      ps := [];
    } else if IsSpace(s[0]) {
      var qs := WordsInOrder(s[1..]);
      ps := ShiftRuns(s, 1, Words(s[1..]), qs);
    } else {
      var n := WordLength(s);
      var t := s[n..];
      assert Words(s) == [s[..n]] + Words(t);
      var qs := WordsInOrder(t);
      forall k | 0 <= k < |qs|
        ensures qs[k] > 0
      {
        NoRunAtSpace(Words(t)[k], t, qs[k]);
      }
      var rs := ShiftRuns(s, n, Words(t), qs);
      ps := [0] + rs;
      assert MaximalRunAt(s[..n], s, 0);
    }
  }

  /** A run cannot start where the input starts with whitespace. */
  lemma NoRunAtSpace(w: string, t: string, p: int)
    requires IsWord(w) && MaximalRunAt(w, t, p)
    requires IsSpace(t[0])
    ensures p > 0
  {
    assert t[p] == w[0];
  }

  /** Runs of the suffix `s[n..]` found at `qs`, moved to their positions in `s`. */
  lemma ShiftRuns(s: string, n: nat, ws: seq<string>, qs: seq<int>) returns (ps: seq<int>)
    requires n <= |s| && |qs| == |ws|
    requires forall k :: 0 <= k < |qs| ==> MaximalRunAt(ws[k], s[n..], qs[k])
    requires forall k :: 0 <= k < |qs| ==> qs[k] > 0 || n == 0 || IsSpace(s[n - 1])
    requires forall k :: 0 <= k < |qs| - 1 ==> qs[k] + |ws[k]| < qs[k + 1]
    ensures |ps| == |ws|
    ensures forall k :: 0 <= k < |ps| ==> ps[k] == qs[k] + n && MaximalRunAt(ws[k], s, ps[k])
    ensures forall k :: 0 <= k < |ps| - 1 ==> ps[k] + |ws[k]| < ps[k + 1]
  {
    ps := seq(|qs|, i requires 0 <= i < |qs| => qs[i] + n);
    forall k | 0 <= k < |ps|
      ensures MaximalRunAt(ws[k], s, ps[k])
    {
      MaximalRunShift(ws[k], s, n, qs[k]);
    }
  }

  /** Every token is a maximal run of the input: it cannot be extended on
      either side without taking in whitespace. */
  lemma WordsAreMaximalRuns(s: string, k: nat)
    requires k < |Words(s)|
    ensures exists p :: MaximalRunAt(Words(s)[k], s, p)
  {
    var ps := WordsInOrder(s);
    assert MaximalRunAt(Words(s)[k], s, ps[k]);
  }

  /** A maximal run of a suffix is a maximal run of the whole string, unless
      it starts the suffix right after a non-space character. */
  lemma MaximalRunShift(w: string, s: string, n: nat, p: int)
    requires n <= |s|
    requires MaximalRunAt(w, s[n..], p)
    requires p > 0 || n == 0 || IsSpace(s[n - 1])
    ensures MaximalRunAt(w, s, n + p)
  {
    assert s[n + p..n + p + |w|] == s[n..][p..p + |w|];
    if p > 0 {
      assert s[n + p - 1] == s[n..][p - 1];
    }
    if n + p + |w| < |s| {
      assert s[n + p + |w|] == s[n..][p + |w|];
    }
  }

  /** Tokenizing words separated by single spaces gives the words back. */
  lemma {:induction false} WordsOfJoin(ws: seq<string>)
    requires forall k :: 0 <= k < |ws| ==> IsWord(ws[k])
    ensures Words(Join(ws, ' ')) == ws
  {
    if |ws| == 1 {
      WordsOfWord(ws[0], []);
      assert ws[0] + [] == ws[0];
    } else if |ws| > 1 {
      WordsOfJoin(ws[1..]);
      var rest := [' '] + Join(ws[1..], ' ');
      assert Join(ws, ' ') == ws[0] + rest;
      WordsOfWord(ws[0], rest);
      assert Words(rest) == Words(Join(ws[1..], ' '));
    }
  }

  /** A word followed by nothing or by whitespace is the first token. */
  lemma WordsOfWord(w: string, rest: string)
    requires IsWord(w)
    requires |rest| == 0 || IsSpace(rest[0])
    ensures Words(w + rest) == [w] + Words(rest)
  {
    var s := w + rest;
    WordLengthOfWord(w, rest);
    assert s[..|w|] == w;
    assert s[|w|..] == rest;
  }

  lemma {:induction false} WordLengthOfWord(w: string, rest: string)
    requires forall k :: 0 <= k < |w| ==> !IsSpace(w[k])
    requires |rest| == 0 || IsSpace(rest[0])
    ensures WordLength(w + rest) == |w|
    decreases |w|
  {
    if |w| > 0 {
      WordLengthOfWord(w[1..], rest);
      assert (w + rest)[1..] == w[1..] + rest;
    }
  }
}
