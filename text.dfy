/** The parts of Rust's `char`/`str` API that the monitor relies on:
    `char::is_whitespace`, `str::lines` and `str::split_whitespace().last()`.
    Strings are sequences of Unicode scalar values. */
module Text {

  datatype Option<+T> = None | Some(value: T)

  /** `char::is_whitespace`: the Unicode White_Space property. */
  predicate IsWhitespace(c: char)
  {
    var n := c as int;
    (0x09 <= n <= 0x0D) || n == 0x20 || n == 0x85 || n == 0xA0 || n == 0x1680
    || (0x2000 <= n <= 0x200A) || n == 0x2028 || n == 0x2029 || n == 0x202F
    || n == 0x205F || n == 0x3000
  }

  predicate AllWhitespace(s: string)
  {
    forall k :: 0 <= k < |s| ==> IsWhitespace(s[k])
  }

  predicate NoWhitespace(s: string)
  {
    forall k :: 0 <= k < |s| ==> !IsWhitespace(s[k])
  }

  // ---------------------------------------------------------------------------
  // str::lines

  /** Index of the first '\n' in `s`, or `|s|` when there is none. */
  function LineEnd(s: string): (j: nat)
    ensures j <= |s|
    ensures forall k :: 0 <= k < j ==> s[k] != '\n'
    ensures j < |s| ==> s[j] == '\n'
  {
    if s == [] || s[0] == '\n' then 0 else 1 + LineEnd(s[1..])
  }

  /** A line ended by "\r\n" loses its '\r' as well as its '\n'. */
  function StripCr(line: string): string
  {
    if |line| > 0 && line[|line| - 1] == '\r' then line[..|line| - 1] else line
  }

  /** `s.lines()`: split at '\n', drop a '\r' just before each '\n'; a final
      line ending is optional and produces no empty last line. The last,
      unterminated line keeps a trailing '\r'. */
  function Lines(s: string): (ls: seq<string>)
    ensures s == [] <==> ls == []
    ensures |ls| <= |s|
    decreases |s|
  {
    if s == [] then []
    else
      var j := LineEnd(s);
      if j == |s| then [s]
      else [StripCr(s[..j])] + Lines(s[j + 1..])
  }

  /** A line with no line feed in it, followed by '\n' and more text, is the
      first line (without a '\r' that ended it); the rest splits on its own. */
  lemma LinesCons(a: string, b: string)
    requires '\n' !in a
    ensures Lines(a + "\n" + b) == [StripCr(a)] + Lines(b)
  {
    var s := a + "\n" + b;
    var j := LineEnd(s);
    assert s[|a|] == '\n';
    if j < |a| {
      assert false;
    }
    assert s[..j] == a;
    assert s[j + 1..] == b;
  }

  /** Text without a line feed is one line, kept whole. */
  lemma LinesOfOneLine(a: string)
    requires a != [] && '\n' !in a
    ensures Lines(a) == [a]
  {
    var j := LineEnd(a);
    if j < |a| {
      assert false;
    }
  }

  /** No line contains a line feed. */
  lemma {:induction false} LinesHaveNoNewline(s: string)
    ensures forall i, k :: 0 <= i < |Lines(s)| && 0 <= k < |Lines(s)[i]| ==> Lines(s)[i][k] != '\n'
    decreases |s|
  {
    if s != [] {
      var j := LineEnd(s);
      if j < |s| {
        LinesHaveNoNewline(s[j + 1..]);
        var first := StripCr(s[..j]);
        assert forall k :: 0 <= k < |first| ==> first[k] == s[k];
      }
    }
  }

  // ---------------------------------------------------------------------------
  // str::split_whitespace().last()

  /** `tok` is a whole whitespace-delimited word of `s` starting at `i`, and
      nothing but whitespace follows it. */
  predicate TokenEndsAt(s: string, tok: string, i: nat)
  {
    && tok != []
    && i + |tok| <= |s|
    && s[i..i + |tok|] == tok
    && NoWhitespace(tok)
    && (i == 0 || IsWhitespace(s[i - 1]))
    && AllWhitespace(s[i + |tok|..])
  }

  /** Length of `s` once its trailing whitespace is dropped. */
  function TrimmedLength(s: string): (n: nat)
    ensures n <= |s|
  {
    if s != [] && IsWhitespace(s[|s| - 1]) then TrimmedLength(s[..|s| - 1]) else |s|
  }

  /** Only whitespace follows the trimmed length, and the character just
      before it is not whitespace. */
  lemma {:induction false} TrimmedLengthSpec(s: string)
    ensures forall k :: TrimmedLength(s) <= k < |s| ==> IsWhitespace(s[k])
    ensures TrimmedLength(s) == 0 || !IsWhitespace(s[TrimmedLength(s) - 1])
  {
    if s != [] && IsWhitespace(s[|s| - 1]) {
      TrimmedLengthSpec(s[..|s| - 1]);
    }
  }

  /** Start of the longest run of non-whitespace characters that ends at `n`. */
  function WordStart(s: string, n: nat): (i: nat)
    requires n <= |s|
    ensures i <= n
    decreases n
  {
    if n > 0 && !IsWhitespace(s[n - 1]) then WordStart(s, n - 1) else n
  }

  /** No whitespace lies between the word start and `n`, and whitespace (or
      the start of `s`) comes just before it. */
  lemma {:induction false} WordStartSpec(s: string, n: nat)
    requires n <= |s|
    ensures forall k :: WordStart(s, n) <= k < n ==> !IsWhitespace(s[k])
    ensures WordStart(s, n) == 0 || IsWhitespace(s[WordStart(s, n) - 1])
  {
    if n > 0 && !IsWhitespace(s[n - 1]) {
      WordStartSpec(s, n - 1);
    }
  }

  /** `s.split_whitespace().last()`: the last non-empty word, or None when `s`
      is all whitespace. */
  function LastToken(s: string): Option<string>
  {
    var n := TrimmedLength(s);
    if n == 0 then None
    else
      var i := WordStart(s, n);
      Some(s[i..n])
  }

  /** `LastToken` finds no word exactly when `s` is all whitespace, and the
      word it finds is a whole word followed only by whitespace. */
  lemma LastTokenSpec(s: string)
    ensures LastToken(s).None? <==> AllWhitespace(s)
    ensures LastToken(s).Some? ==> exists i: nat :: TokenEndsAt(s, LastToken(s).value, i)
  {
    var n := TrimmedLength(s);
    TrimmedLengthSpec(s);
    if n > 0 {
      var i := WordStart(s, n);
      WordStartSpec(s, n);
      assert NoWhitespace(s[i..n]) by {
        forall k | 0 <= k < n - i ensures !IsWhitespace(s[i..n][k]) {
          assert s[i..n][k] == s[i + k];
        }
      }
      assert AllWhitespace(s[n..]) by {
        forall k | 0 <= k < |s| - n ensures IsWhitespace(s[n..][k]) {
          assert s[n..][k] == s[n + k];
        }
      }
      assert TokenEndsAt(s, s[i..n], i);
    }
  }

  /** A word `LastToken` finds is never empty. */
  lemma LastTokenNonEmpty(s: string)
    ensures LastToken(s).Some? ==> LastToken(s).value != []
  {
    TrimmedLengthSpec(s);
  }

  /** Whatever word ends `s` (up to trailing whitespace) is the one
      `LastToken` returns: the converse of `LastTokenSpec`. */
  lemma LastTokenUnique(s: string, tok: string, i: nat)
    requires TokenEndsAt(s, tok, i)
    ensures LastToken(s) == Some(tok)
  {
    var n := i + |tok|;
    var m := TrimmedLength(s);
    TrimmedLengthSpec(s);
    assert forall k :: i <= k < n ==> !IsWhitespace(s[k]) by {
      forall k | i <= k < n ensures !IsWhitespace(s[k]) { assert s[i..n][k - i] == s[k]; }
    }
    assert forall k :: n <= k < |s| ==> IsWhitespace(s[k]) by {
      forall k | n <= k < |s| ensures IsWhitespace(s[k]) { assert s[n..][k - n] == s[k]; }
    }
    assert !IsWhitespace(s[n - 1]);
    assert m == n;
    var w := WordStart(s, n);
    WordStartSpec(s, n);
    assert w == i;
  }

  /** The last token of `prefix + tok + trailer` is `tok` when `prefix` ends in
      whitespace (or is empty), `tok` is one non-empty word and `trailer` is
      all whitespace. */
  lemma LastTokenOfJoin(prefix: string, tok: string, trailer: string)
    requires prefix == [] || IsWhitespace(prefix[|prefix| - 1])
    requires tok != [] && NoWhitespace(tok)
    requires AllWhitespace(trailer)
    ensures LastToken(prefix + tok + trailer) == Some(tok)
  {
    var s := prefix + tok + trailer;
    var n := |prefix| + |tok|;
    assert s[|prefix|..n] == tok;
    assert s[n..] == trailer;
    assert |prefix| > 0 ==> s[|prefix| - 1] == prefix[|prefix| - 1];
    LastTokenUnique(s, tok, |prefix|);
  }
}
