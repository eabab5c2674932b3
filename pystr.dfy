/** The parts of Python's built-in `str` type that the manifest reader uses:
    the whitespace class, `str.strip()` and `str.split()` without arguments,
    and `str.replace` of one character by another. */
module PyStr {

  /** `c.isspace()`: the characters that `str.split()` and `str.strip()`
      treat as whitespace when called without arguments. */
  predicate IsSpace(c: char)
  {
    var n := c as int;
    (0x09 <= n <= 0x0D) || (0x1C <= n <= 0x20) || n == 0x85 || n == 0xA0 || n == 0x1680
    || (0x2000 <= n <= 0x200A) || n == 0x2028 || n == 0x2029 || n == 0x202F || n == 0x205F
    || n == 0x3000
  }

  /** Every character of `s` is whitespace (this includes the empty string). */
  predicate Blank(s: string)
  {
    forall i :: 0 <= i < |s| ==> IsSpace(s[i])
  }

  /** A token that `str.split()` can produce: non-empty and free of whitespace. */
  predicate IsWord(w: string)
  {
    |w| > 0 && forall i :: 0 <= i < |w| ==> !IsSpace(w[i])
  }

  /** `s.lstrip()`: the longest suffix of `s` that does not start with whitespace. */
  function TrimStart(s: string): string
  {
    if s != [] && IsSpace(s[0]) then TrimStart(s[1..]) else s
  }

  /** `s.rstrip()`: the longest prefix of `s` that does not end with whitespace. */
  function TrimEnd(s: string): string
  {
    if s != [] && IsSpace(s[|s| - 1]) then TrimEnd(s[..|s| - 1]) else s
  }

  /** `s.strip()`: whitespace removed from both ends. */
  function Strip(s: string): string
  {
    TrimEnd(TrimStart(s))
  }

  /** Length of the whitespace-free prefix of `s`. */
  function WordLength(s: string): (n: nat)
    ensures n <= |s|
  {
    if s == [] || IsSpace(s[0]) then 0 else 1 + WordLength(s[1..])
  }

  /** `s.split()`: the maximal runs of non-whitespace characters, in order. */
  function Split(s: string): seq<string>
    decreases |s|
  {
    if s == [] then []
    else if IsSpace(s[0]) then Split(s[1..])
    else
      var n := WordLength(s);
      [s[..n]] + Split(s[n..])
  }

  /** `s.replace(x, y)` for single characters `x` and `y`. */
  function ReplaceAll(s: string, x: char, y: char): (r: string)
    ensures |r| == |s|
  {
    if s == [] then [] else [if s[0] == x then y else s[0]] + ReplaceAll(s[1..], x, y)
  }

  /** `" ".join(ws)`: the words separated by single spaces. */
  function Unsplit(ws: seq<string>): string
  {
    if |ws| == 0 then []
    else if |ws| == 1 then ws[0]
    else ws[0] + " " + Unsplit(ws[1..])
  }

  /** The non-whitespace characters of `s`, in order. */
  function NonSpace(s: string): string
  {
    if s == [] then []
    else (if IsSpace(s[0]) then [] else [s[0]]) + NonSpace(s[1..])
  }

  /** The concatenation of a sequence of strings. */
  function Concat(ws: seq<string>): string
  {
    if ws == [] then [] else ws[0] + Concat(ws[1..])
  }

  // ---------------------------------------------------------------------
  // Properties of the trimming functions

  /** `s.lstrip()` drops exactly the leading whitespace: what it removes is
      blank and what is left is empty or starts with a non-whitespace
      character. */
  lemma {:induction false} TrimStartSpec(s: string)
    ensures var r := TrimStart(s);
      |r| <= |s| && r == s[|s| - |r|..] && Blank(s[..|s| - |r|])
      && (r == [] || !IsSpace(r[0]))
    decreases |s|
  {
    if s != [] && IsSpace(s[0]) {
      TrimStartSpec(s[1..]);
      var r := TrimStart(s);
      assert s[1..][..|s| - 1 - |r|] == s[1..|s| - |r|];
    }
  }

  /** `s.rstrip()` drops exactly the trailing whitespace. */
  lemma {:induction false} TrimEndSpec(s: string)
    ensures var r := TrimEnd(s);
      r <= s && Blank(s[|r|..]) && (r == [] || !IsSpace(r[|r| - 1]))
    decreases |s|
  {
    if s != [] && IsSpace(s[|s| - 1]) {
      TrimEndSpec(s[..|s| - 1]);
      var r := TrimEnd(s);
      assert forall i :: |r| <= i < |s| - 1 ==> s[i] == s[..|s| - 1][i];
    }
  }

  /** `s.strip()` is a contiguous piece of `s` with only whitespace cut off on
      either side, and it neither starts nor ends with whitespace. */
  lemma StripSpec(s: string)
    ensures var r := Strip(s);
      (r == [] || (!IsSpace(r[0]) && !IsSpace(r[|r| - 1])))
      && exists a :: 0 <= a && a + |r| <= |s| && r == s[a..a + |r|]
           && Blank(s[..a]) && Blank(s[a + |r|..])
  {
    var t := TrimStart(s);
    var r := Strip(s);
    TrimStartSpec(s);
    TrimEndSpec(t);
    var a := |s| - |t|;
    assert r == t[..|r|];
    assert r == s[a..a + |r|];
    assert s[a + |r|..] == t[|r|..];
    if r != [] {
      assert r[0] == t[0];
    }
  }

  /** `WordLength(s)` characters from the start of `s` are non-whitespace and
      the next one, if any, is whitespace. */
  lemma {:induction false} WordLengthSpec(s: string)
    ensures var n := WordLength(s);
      (forall i :: 0 <= i < n ==> !IsSpace(s[i])) && (n < |s| ==> IsSpace(s[n]))
    decreases |s|
  {
    if s != [] && !IsSpace(s[0]) {
      WordLengthSpec(s[1..]);
      assert forall i :: 1 <= i < |s| ==> s[i] == s[1..][i - 1];
    }
  }

  // ---------------------------------------------------------------------
  // Properties of Split

  /** Every token of `s.split()` is a non-empty, whitespace-free string. */
  lemma {:induction false} SplitWords(s: string)
    ensures forall k :: 0 <= k < |Split(s)| ==> IsWord(Split(s)[k])
    decreases |s|
  {
    if s != [] {
      if IsSpace(s[0]) {
        SplitWords(s[1..]);
      } else {
        var n := WordLength(s);
        var rest := Split(s[n..]);
        WordLengthSpec(s);
        SplitWords(s[n..]);
        assert Split(s) == [s[..n]] + rest;
        forall k | 0 <= k < |Split(s)| ensures IsWord(Split(s)[k]) {
          if k > 0 {
            assert Split(s)[k] == rest[k - 1];
          }
        }
      }
    }
  }

  /** `s.split()` is empty exactly when `s` is blank. */
  lemma {:induction false} SplitEmptyIffBlank(s: string)
    ensures Split(s) == [] <==> Blank(s)
    decreases |s|
  {
    if s != [] && IsSpace(s[0]) {
      SplitEmptyIffBlank(s[1..]);
      assert Blank(s) <==> Blank(s[1..]) by {
        assert forall i :: 0 < i < |s| ==> s[i] == s[1..][i - 1];
      }
    }
  }

  /** Skipping leading whitespace first does not change the split. */
  lemma {:induction false} SplitTrimStart(s: string)
    ensures Split(TrimStart(s)) == Split(s)
    decreases |s|
  {
    if s != [] && IsSpace(s[0]) {
      SplitTrimStart(s[1..]);
    }
  }

  lemma WordLengthSnoc(t: string, c: char)
    requires IsSpace(c)
    ensures WordLength(t + [c]) == WordLength(t)
    decreases |t|
  {
    if t != [] && !IsSpace(t[0]) {
      assert (t + [c])[1..] == t[1..] + [c];
      WordLengthSnoc(t[1..], c);
    }
  }

  /** A trailing whitespace character does not change the split. */
  lemma {:induction false} SplitSnocSpace(s: string, c: char)
    requires IsSpace(c)
    ensures Split(s + [c]) == Split(s)
    decreases |s|
  {
    var s' := s + [c];
    if s == [] {
      assert Split(s') == Split(s'[1..]);
      assert s'[1..] == [];
    } else {
      assert s'[0] == s[0];
      if IsSpace(s[0]) {
        assert s'[1..] == s[1..] + [c];
        SplitSnocSpace(s[1..], c);
      } else {
        var n := WordLength(s);
        WordLengthSnoc(s, c);
        assert s'[..n] == s[..n];
        assert s'[n..] == s[n..] + [c];
        SplitSnocSpace(s[n..], c);
      }
    }
  }

  /** Dropping trailing whitespace first does not change the split. */
  lemma {:induction false} SplitTrimEnd(s: string)
    ensures Split(TrimEnd(s)) == Split(s)
    decreases |s|
  {
    if s != [] && IsSpace(s[|s| - 1]) {
      var p := s[..|s| - 1];
      assert s == p + [s[|s| - 1]];
      SplitSnocSpace(p, s[|s| - 1]);
      SplitTrimEnd(p);
    }
  }

  /** `s.strip().split() == s.split()`: stripping before splitting is redundant. */
  lemma SplitStrip(s: string)
    ensures Split(Strip(s)) == Split(s)
  {
    SplitTrimEnd(TrimStart(s));
    SplitTrimStart(s);
  }

  lemma WordLengthOfWord(w: string, tail: string)
    requires IsWord(w)
    requires tail == [] || IsSpace(tail[0])
    ensures WordLength(w + tail) == |w|
    decreases |w|
  {
    assert (w + tail)[1..] == w[1..] + tail;
    if |w| > 1 {
      WordLengthOfWord(w[1..], tail);
    } else {
      assert w[1..] + tail == tail;
    }
  }

  /** `" ".join(ws).split() == ws` for any sequence of words. */
  lemma {:induction false} SplitUnsplit(ws: seq<string>)
    requires forall k :: 0 <= k < |ws| ==> IsWord(ws[k])
    ensures Split(Unsplit(ws)) == ws
  {
    if |ws| > 0 {
      var w := ws[0];
      var tail: string := if |ws| == 1 then [] else " " + Unsplit(ws[1..]);
      var s := Unsplit(ws);
      assert s == w + tail;
      assert s[0] == w[0];
      WordLengthOfWord(w, tail);
      assert s[..|w|] == w;
      assert s[|w|..] == tail;
      assert Split(s) == [w] + Split(tail);
      if |ws| > 1 {
        assert tail[1..] == Unsplit(ws[1..]);
        SplitUnsplit(ws[1..]);
        assert Split(tail) == ws[1..];
      } else {
        assert Split(tail) == [];
      }
    }
  }

  lemma NonSpaceAppend(a: string, b: string)
    ensures NonSpace(a + b) == NonSpace(a) + NonSpace(b)
    decreases |a|
  {
    if a != [] {
      assert (a + b)[0] == a[0];
      assert (a + b)[1..] == a[1..] + b;
      NonSpaceAppend(a[1..], b);
    } else {
      assert a + b == b;
    }
  }

  lemma {:induction false} NonSpaceBlank(a: string)
    requires Blank(a)
    ensures NonSpace(a) == []
    decreases |a|
  {
    if a != [] {
      NonSpaceBlank(a[1..]);
    }
  }

  lemma {:induction false} NonSpaceWord(w: string)
    requires forall i :: 0 <= i < |w| ==> !IsSpace(w[i])
    ensures NonSpace(w) == w
    decreases |w|
  {
    if w != [] {
      NonSpaceWord(w[1..]);
    }
  }

  /** The tokens of `s.split()`, concatenated, are exactly the non-whitespace
      characters of `s` in their original order: nothing is lost, duplicated
      or reordered. */
  lemma {:induction false} ConcatSplit(s: string)
    ensures Concat(Split(s)) == NonSpace(s)
    decreases |s|
  {
    if s != [] {
      if IsSpace(s[0]) {
        ConcatSplit(s[1..]);
      } else {
        var n := WordLength(s);
        WordLengthSpec(s);
        assert s == s[..n] + s[n..];
        NonSpaceAppend(s[..n], s[n..]);
        NonSpaceWord(s[..n]);
        ConcatSplit(s[n..]);
        assert Split(s) == [s[..n]] + Split(s[n..]);
        assert Split(s)[1..] == Split(s[n..]);
      }
    }
  }

  // ---------------------------------------------------------------------
  // Properties of ReplaceAll

  /** `s.replace(x, y)` keeps the length and changes exactly the occurrences
      of `x`, each into `y`. */
  lemma {:induction false} ReplaceAllSpec(s: string, x: char, y: char)
    ensures var r := ReplaceAll(s, x, y);
      |r| == |s| && forall i :: 0 <= i < |s| ==> r[i] == (if s[i] == x then y else s[i])
    decreases |s|
  {
    if s != [] {
      ReplaceAllSpec(s[1..], x, y);
      var r := ReplaceAll(s, x, y);
      assert forall i :: 1 <= i < |s| ==> r[i] == ReplaceAll(s[1..], x, y)[i - 1] && s[i] == s[1..][i - 1];
    }
  }

  /** After `s.replace(x, y)` with `x != y`, no `x` is left. */
  lemma {:induction false} ReplaceAllRemoves(s: string, x: char, y: char)
    requires x != y
    ensures forall i :: 0 <= i < |ReplaceAll(s, x, y)| ==> ReplaceAll(s, x, y)[i] != x
  {
    ReplaceAllSpec(s, x, y);
  }

  /** Replacement distributes over concatenation. */
  lemma ReplaceAllAppend(a: string, b: string, x: char, y: char)
    ensures ReplaceAll(a + b, x, y) == ReplaceAll(a, x, y) + ReplaceAll(b, x, y)
  {
    var l := ReplaceAll(a + b, x, y);
    var r := ReplaceAll(a, x, y) + ReplaceAll(b, x, y);
    ReplaceAllSpec(a + b, x, y);
    ReplaceAllSpec(a, x, y);
    ReplaceAllSpec(b, x, y);
    assert |l| == |r|;
    forall i | 0 <= i < |l| ensures l[i] == r[i] {
      if i < |a| {
        assert (a + b)[i] == a[i];
      } else {
        assert (a + b)[i] == b[i - |a|];
      }
    }
  }

  /** Replacing a character by a non-whitespace one keeps a word a word. */
  lemma {:induction false} ReplaceAllWord(w: string, x: char, y: char)
    requires IsWord(w) && !IsSpace(y)
    ensures IsWord(ReplaceAll(w, x, y))
  {
    ReplaceAllSpec(w, x, y);
  }

  /** Replacement applied to each word. */
  function ReplaceEach(ws: seq<string>, x: char, y: char): (r: seq<string>)
    ensures |r| == |ws|
    ensures forall k :: 0 <= k < |ws| ==> r[k] == ReplaceAll(ws[k], x, y)
  {
    if ws == [] then [] else [ReplaceAll(ws[0], x, y)] + ReplaceEach(ws[1..], x, y)
  }

  /** Replacing a non-whitespace character commutes
      with joining words by spaces. */
  lemma {:induction false} ReplaceAllUnsplit(ws: seq<string>, x: char, y: char)
    requires !IsSpace(x)
    ensures ReplaceAll(Unsplit(ws), x, y) == Unsplit(ReplaceEach(ws, x, y))
  {
    if |ws| > 1 {
      ReplaceAllAppend(ws[0] + " ", Unsplit(ws[1..]), x, y);
      ReplaceAllAppend(ws[0], " ", x, y);
      ReplaceAllUnsplit(ws[1..], x, y);
      assert ReplaceEach(ws, x, y)[1..] == ReplaceEach(ws[1..], x, y);
    }
  }
}
