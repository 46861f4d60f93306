/**
 * The string operations the recall code relies on: `str.lower`, `str.strip`,
 * `str.split()`, `str.startswith`, substring membership and the two splits the
 * terminal-title parser performs.
 */
module Text {

  /** The characters Python's `str.isspace` accepts; `strip()`, `split()` and
      the regular-expression class `\s` all use this set. */
  predicate IsSpace(c: char) {
    var n := c as int;
    n == 0x20 || 0x09 <= n <= 0x0D || 0x1C <= n <= 0x1F || n == 0x85 || n == 0xA0
    || n == 0x1680 || 0x2000 <= n <= 0x200A || n == 0x2028 || n == 0x2029
    || n == 0x202F || n == 0x205F || n == 0x3000
  }

  /** Lower-casing of one character (ASCII letters only). */
  function LowerChar(c: char): char {
    if 'A' <= c <= 'Z' then (c as int - 'A' as int + 'a' as int) as char else c
  }

  function Lower(s: string): (r: string)
    ensures |r| == |s|
    ensures forall i | 0 <= i < |s| :: r[i] == LowerChar(s[i])
  {
    seq(|s|, i requires 0 <= i < |s| => LowerChar(s[i]))
  }

  /** Number of whitespace characters at the front of `s`. */
  function LeadingSpace(s: string): (n: nat)
    ensures n <= |s|
    ensures forall i | 0 <= i < n :: IsSpace(s[i])
    ensures n < |s| ==> !IsSpace(s[n])
  {
    if s == [] || !IsSpace(s[0]) then 0 else 1 + LeadingSpace(s[1..])
  }

  /** Index at which the run of whitespace closing `s` begins. */
  function TrailingStart(s: string): (n: nat)
    ensures n <= |s|
    ensures forall i | n <= i < |s| :: IsSpace(s[i])
    ensures n > 0 ==> !IsSpace(s[n - 1])
  {
    if s == [] || !IsSpace(s[|s| - 1]) then |s| else TrailingStart(s[..|s| - 1])
  }

  /** A string with no whitespace at either end. */
  predicate Trimmed(s: string) {
    |s| == 0 || (!IsSpace(s[0]) && !IsSpace(s[|s| - 1]))
  }

  /** Every character of `s` is whitespace. */
  predicate AllSpace(s: string) {
    forall k | 0 <= k < |s| :: IsSpace(s[k])
  }

  /** Python's `s.strip()`: drop whitespace at both ends. */
  function Strip(s: string): (r: string)
    ensures Trimmed(r)
    ensures |r| <= |s|
    ensures Trimmed(s) ==> r == s
  {
    var t := s[LeadingSpace(s)..];
    t[..TrailingStart(t)]
  }

  /** What `strip()` keeps: the piece of `s` left once whitespace-only runs
      are cut from the front and the back; with `Trimmed` of the result this
      pins it down (the cut runs are the longest possible). */
  lemma StripKeeps(s: string)
    ensures exists i, j | 0 <= i <= j <= |s| ::
      Strip(s) == s[i..j] && AllSpace(s[..i]) && AllSpace(s[j..])
  {
    var a := LeadingSpace(s);
    var t := s[a..];
    var b := TrailingStart(t);
    assert Strip(s) == s[a..a + b];
    assert AllSpace(s[..a]);
    assert AllSpace(s[a + b..]) by {
      forall k | a + b <= k < |s| ensures IsSpace(s[k]) {
        assert s[k] == t[k - a];
      }
    }
  }

  /** Python's `s.startswith(p)`. */
  predicate StartsWith(s: string, p: string) {
    |p| <= |s| && s[..|p|] == p
  }

  /** Python's `p in s` for strings: `p` occurs as a contiguous piece of `s`. */
  predicate Contains(s: string, p: string)
    decreases |s|
  {
    StartsWith(s, p) || (|s| > 0 && Contains(s[1..], p))
  }

  /** Index of the first whitespace character of `s`, or `|s|`. */
  function WordEnd(s: string): (n: nat)
    ensures n <= |s|
    ensures forall i | 0 <= i < n :: !IsSpace(s[i])
    ensures n < |s| ==> IsSpace(s[n])
  {
    if s == [] || IsSpace(s[0]) then 0 else 1 + WordEnd(s[1..])
  }

  /** A non-empty string without whitespace. */
  predicate IsWord(w: string) {
    |w| > 0 && forall j | 0 <= j < |w| :: !IsSpace(w[j])
  }

  /** `ws` are the whitespace-separated words of `s`, in order: after any
      whitespace, either `s` ends and `ws` is empty, or `s` continues with
      `ws[0]`, which runs up to whitespace or to the end, followed by the words
      `ws[1..]` of what remains. */
  predicate Tokenizes(s: string, ws: seq<string>)
    decreases |s|
  {
    if |s| > 0 && IsSpace(s[0]) then Tokenizes(s[1..], ws)
    else if ws == [] then s == []
    else
      && IsWord(ws[0])
      && StartsWith(s, ws[0])
      && (|ws[0]| == |s| || IsSpace(s[|ws[0]|]))
      && Tokenizes(s[|ws[0]|..], ws[1..])
  }

  /** Leading whitespace does not change the words. */
  lemma {:induction false} TokenizesSkip(s: string, n: nat, ws: seq<string>)
    requires n <= |s| && AllSpace(s[..n])
    ensures Tokenizes(s, ws) == Tokenizes(s[n..], ws)
    decreases n
  {
    if n > 0 {
      assert IsSpace(s[..n][0]);
      assert s[1..][..n - 1] == s[1..n];
      TokenizesSkip(s[1..], n - 1, ws);
      assert s[1..][n - 1..] == s[n..];
    }
  }

  /** Python's `s.split()` with no argument: the maximal runs of non-whitespace. */
  function Words(s: string): (ws: seq<string>)
    ensures forall i | 0 <= i < |ws| :: IsWord(ws[i])
    ensures Tokenizes(s, ws)
    decreases |s|
  {
    var a := LeadingSpace(s);
    var t := s[a..];
    var ws :=
      if t == [] then []
      else
        var n := WordEnd(t);
        [t[..n]] + Words(t[n..]);
    assert AllSpace(s[..a]);
    TokenizesSkip(s, a, ws);
    ws
  }

  /** The words of a string are determined by it. */
  lemma {:induction false} TokenizesUnique(s: string, ws: seq<string>, vs: seq<string>)
    requires Tokenizes(s, ws) && Tokenizes(s, vs)
    ensures ws == vs
    decreases |s|
  {
    if |s| > 0 && IsSpace(s[0]) {
      TokenizesUnique(s[1..], ws, vs);
    } else if ws != [] && vs != [] {
      var m, n := |ws[0]|, |vs[0]|;
      if m < n {
        assert false;
      } else if n < m {
        assert false;
      }
      assert ws[0] == s[..m] == vs[0];
      TokenizesUnique(s[m..], ws[1..], vs[1..]);
      assert ws == [ws[0]] + ws[1..];
      assert vs == [vs[0]] + vs[1..];
    }
  }

  /** Any word sequence of `s` is the one `split()` returns. */
  lemma WordsUnique(s: string, ws: seq<string>)
    requires Tokenizes(s, ws)
    ensures Words(s) == ws
  {
    TokenizesUnique(s, Words(s), ws);
  }

  /** The separators of terminal titles the path parser splits on: em dash and pipe. */
  predicate IsTitleSeparator(c: char) {
    c == '\U{2014}' || c == '|'
  }

  /** Index of the first title separator in `s`, or `|s|`. */
  function SeparatorIndex(s: string): (n: nat)
    ensures n <= |s|
    ensures forall i | 0 <= i < n :: !IsTitleSeparator(s[i])
    ensures n < |s| ==> IsTitleSeparator(s[n])
  {
    if s == [] || IsTitleSeparator(s[0]) then 0 else 1 + SeparatorIndex(s[1..])
  }

  /** No title separator occurs in `p`. */
  predicate SeparatorFree(p: string) {
    forall j | 0 <= j < |p| :: !IsTitleSeparator(p[j])
  }

  /** `s` is the pieces `segs` written one after another with one title
      separator character between neighbours. */
  predicate SeparatedBy(s: string, segs: seq<string>)
    decreases |segs|
  {
    && |segs| > 0
    && if |segs| == 1 then s == segs[0]
       else
         && StartsWith(s, segs[0]) && |segs[0]| < |s|
         && IsTitleSeparator(s[|segs[0]|])
         && SeparatedBy(s[|segs[0]| + 1..], segs[1..])
  }

  /** The pieces of `s` between title separators, in order (always at least one). */
  function SplitSeparators(s: string): (segs: seq<string>)
    ensures |segs| >= 1
    ensures forall i | 0 <= i < |segs| :: SeparatorFree(segs[i])
    ensures SeparatedBy(s, segs)
    decreases |s|
  {
    var n := SeparatorIndex(s);
    if n == |s| then [s] else [s[..n]] + SplitSeparators(s[n + 1..])
  }

  /** Separator-free pieces that put back together give `s` are exactly the
      split of `s`. */
  lemma {:induction false} SplitSeparatorsUnique(s: string, segs: seq<string>)
    requires SeparatedBy(s, segs)
    requires forall i | 0 <= i < |segs| :: SeparatorFree(segs[i])
    ensures SplitSeparators(s) == segs
    decreases |segs|
  {
    var n := SeparatorIndex(s);
    assert SeparatorFree(segs[0]);
    if |segs| == 1 {
      if n < |s| {
        assert false;
      }
    } else {
      var k := |segs[0]|;
      if n < k {
        assert false;
      }
      assert n == k;
      assert s[..n] == segs[0];
      assert forall i | 0 <= i < |segs[1..]| :: SeparatorFree(segs[1..][i]) by {
        forall i | 0 <= i < |segs[1..]| ensures SeparatorFree(segs[1..][i]) {
          assert segs[1..][i] == segs[i + 1];
        }
      }
      SplitSeparatorsUnique(s[n + 1..], segs[1..]);
      assert segs == [segs[0]] + segs[1..];
    }
  }

  /** Python's `" ".join(ws)`. */
  function JoinSpace(ws: seq<string>): string
  {
    if |ws| == 0 then ""
    else if |ws| == 1 then ws[0]
    else ws[0] + " " + JoinSpace(ws[1..])
  }

  /** Every element is a word. */
  predicate AllWords(ws: seq<string>) {
    forall i | 0 <= i < |ws| :: IsWord(ws[i])
  }

  /** Joining words with single spaces and splitting the result on whitespace
      gives the words back. */
  lemma {:induction false} JoinSpaceTokenizes(ws: seq<string>)
    requires AllWords(ws)
    ensures Tokenizes(JoinSpace(ws), ws)
    ensures Trimmed(JoinSpace(ws))
    decreases |ws|
  {
    if |ws| == 1 {
      var w := ws[0];
      assert IsWord(w);
      assert w[|w|..] == [];
    } else if |ws| > 1 {
      var w := ws[0];
      var rest := JoinSpace(ws[1..]);
      assert IsWord(w);
      assert AllWords(ws[1..]) by {
        forall i | 0 <= i < |ws[1..]| ensures IsWord(ws[1..][i]) {
          assert ws[1..][i] == ws[i + 1];
        }
      }
      JoinSpaceTokenizes(ws[1..]);
      var j := w + " " + rest;
      assert j[..|w|] == w;
      assert j[|w|..] == " " + rest;
      assert (" " + rest)[1..] == rest;
      assert ws[1..] != [];
      assert IsWord(ws[1..][0]);
      assert |rest| > 0;
      assert j[|j| - 1] == rest[|rest| - 1];
    }
  }

  /** `split()` undoes `" ".join` on words. */
  lemma WordsJoinSpace(ws: seq<string>)
    requires AllWords(ws)
    ensures Words(JoinSpace(ws)) == ws
  {
    JoinSpaceTokenizes(ws);
    WordsUnique(JoinSpace(ws), ws);
  }
}
