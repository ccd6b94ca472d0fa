/** The string operations of Python that the scorer and the resume synthesizer
    rely on: whitespace, `strip`, `lower`, `join`, slicing with `[:n]`, the clause
    split on `.`, newline and `;`, and the collapse of whitespace runs. */
module Text {

  /** A compiled, case-insensitive pattern, seen only through its `search` test:
      does the pattern match somewhere in the given text. */
  type Regex = string -> bool

  function Min(a: int, b: int): int { if a <= b then a else b }

  function Max(a: int, b: int): int { if a >= b then a else b }

  /** The characters Python counts as whitespace (`str.isspace`, and `\s` in a
      pattern over `str`). */
  predicate IsSpace(c: char) {
    || c == ' '
    || '\t' <= c <= '\r'
    || '\U{1C}' <= c <= '\U{1F}'
    || c == '\U{85}' || c == '\U{A0}' || c == '\U{1680}'
    || '\U{2000}' <= c <= '\U{200A}'
    || c == '\U{2028}' || c == '\U{2029}' || c == '\U{202F}' || c == '\U{205F}'
    || c == '\U{3000}'
  }

  /** `xs[:n]` for the non-negative `n` the source uses. */
  function Take<T>(xs: seq<T>, n: nat): (r: seq<T>)
    ensures |r| == Min(|xs|, n)
    ensures r == xs[..|r|]
  {
    if |xs| <= n then xs else xs[..n]
  }

  // ---------------------------------------------------------------------------
  // strip

  /** Drops the leading characters that satisfy `drop`. */
  function TrimLeft(s: string, drop: char -> bool): (r: string)
    ensures |r| <= |s|
    decreases |s|
  {
    if s != [] && drop(s[0]) then TrimLeft(s[1..], drop) else s
  }

  /** `TrimLeft` leaves a suffix of `s`, removes only characters in the set, and
      stops at the first character outside it. */
  lemma {:induction false} TrimLeftFacts(s: string, drop: char -> bool)
    ensures TrimLeft(s, drop) == s[|s| - |TrimLeft(s, drop)|..]
    ensures forall i :: 0 <= i < |s| - |TrimLeft(s, drop)| ==> drop(s[i])
    ensures TrimLeft(s, drop) != [] ==> !drop(TrimLeft(s, drop)[0])
    decreases |s|
  {
    if s != [] && drop(s[0]) {
      TrimLeftFacts(s[1..], drop);
      assert forall i :: 1 <= i < |s| ==> s[1..][i - 1] == s[i];
    }
  }

  /** Drops the trailing characters that satisfy `drop`. */
  function TrimRight(s: string, drop: char -> bool): (r: string)
    ensures |r| <= |s|
    decreases |s|
  {
    if s != [] && drop(s[|s| - 1]) then TrimRight(s[..|s| - 1], drop) else s
  }

  /** `TrimRight` leaves a prefix of `s`, removes only characters in the set,
      and stops at the last character outside it. */
  lemma {:induction false} TrimRightFacts(s: string, drop: char -> bool)
    ensures TrimRight(s, drop) == s[..|TrimRight(s, drop)|]
    ensures forall i :: |TrimRight(s, drop)| <= i < |s| ==> drop(s[i])
    ensures TrimRight(s, drop) != [] ==> !drop(TrimRight(s, drop)[|TrimRight(s, drop)| - 1])
    decreases |s|
  {
    if s != [] && drop(s[|s| - 1]) {
      TrimRightFacts(s[..|s| - 1], drop);
      assert forall i :: 0 <= i < |s| - 1 ==> s[..|s| - 1][i] == s[i];
    }
  }

  /** The number of leading characters `strip` removes. */
  function LeadCount(s: string, drop: char -> bool): nat
  {
    |s| - |TrimLeft(s, drop)|
  }

  /** `s.strip(chars)`, the character set given as the predicate `drop`. */
  function StripChars(s: string, drop: char -> bool): (r: string)
    ensures |r| <= |s|
  {
    TrimRight(TrimLeft(s, drop), drop)
  }

  /** What `strip` promises: the result is the slice of `s` left once every
      leading and every trailing character in the set is removed, everything
      removed is in the set, and the result neither starts nor ends with one. */
  lemma StripCharsFacts(s: string, drop: char -> bool)
    ensures LeadCount(s, drop) + |StripChars(s, drop)| <= |s|
    ensures StripChars(s, drop) == s[LeadCount(s, drop)..LeadCount(s, drop) + |StripChars(s, drop)|]
    ensures forall i :: 0 <= i < LeadCount(s, drop) ==> drop(s[i])
    ensures forall i :: LeadCount(s, drop) + |StripChars(s, drop)| <= i < |s| ==> drop(s[i])
    ensures StripChars(s, drop) != [] ==> !drop(StripChars(s, drop)[0]) && !drop(StripChars(s, drop)[|StripChars(s, drop)| - 1])
  {
    var t := TrimLeft(s, drop);
    var r := TrimRight(t, drop);
    var k := LeadCount(s, drop);
    TrimLeftFacts(s, drop);
    TrimRightFacts(t, drop);
    assert forall i :: k + |r| <= i < |s| ==> s[i] == t[i - k];
  }

  /** `s.strip()`: strips whitespace. */
  function StripSpace(s: string): string
  {
    StripChars(s, IsSpace)
  }

  lemma StripCharsIdempotent(s: string, drop: char -> bool)
    ensures StripChars(StripChars(s, drop), drop) == StripChars(s, drop)
  {
    var r := StripChars(s, drop);
    StripCharsFacts(s, drop);
    assert TrimLeft(r, drop) == r;
    assert TrimRight(r, drop) == r;
  }

  // ---------------------------------------------------------------------------
  // re.sub(r"\s+", " ", s)

  /** The non-whitespace characters of `s`, in order. */
  function NonSpace(s: string): string
    decreases |s|
  {
    if s == [] then [] else (if IsSpace(s[0]) then [] else [s[0]]) + NonSpace(s[1..])
  }

  /** The maximal runs of non-whitespace characters of `s`, in order: every
      word is non-empty and holds no whitespace. */
  function Words(s: string): (w: seq<string>)
    ensures s != [] && !IsSpace(s[0]) ==> w != [] && w[0] != [] && w[0][0] == s[0]
    ensures forall i :: 0 <= i < |w| ==> w[i] != []
    ensures forall i, j :: 0 <= i < |w| && 0 <= j < |w[i]| ==> !IsSpace(w[i][j])
    decreases |s|
  {
    if s == [] then []
    else
      var rest := Words(s[1..]);
      if IsSpace(s[0]) then rest
      else if |s| > 1 && !IsSpace(s[1]) then
        var head := [s[0]] + rest[0];
        assert forall j :: 1 <= j < |head| ==> head[j] == rest[0][j - 1];
        [head] + rest[1..]
      else [[s[0]]] + rest
  }

  /** `re.sub(r"\s+", " ", s)`: every maximal run of whitespace becomes one space.
      The words and whether the text starts or ends with whitespace are kept,
      the only whitespace left is the plain space, and no two whitespace
      characters are adjacent; these together fix the result. */
  function CollapseSpaces(s: string): (r: string)
    ensures |r| == 0 <==> |s| == 0
    ensures s != [] ==> (IsSpace(r[0]) <==> IsSpace(s[0]))
    ensures s != [] ==> (IsSpace(r[|r| - 1]) <==> IsSpace(s[|s| - 1]))
    ensures Words(r) == Words(s)
    ensures NonSpace(r) == NonSpace(s)
    ensures forall i :: 0 <= i < |r| && IsSpace(r[i]) ==> r[i] == ' '
    ensures forall i :: 0 <= i < |r| - 1 ==> !(IsSpace(r[i]) && IsSpace(r[i + 1]))
    decreases |s|
  {
    if s == [] then []
    else if IsSpace(s[0]) && |s| > 1 && IsSpace(s[1]) then
      // the run goes on: the space is emitted at its last character
      CollapseSpaces(s[1..])
    else if IsSpace(s[0]) then
      var rest := CollapseSpaces(s[1..]);
      assert ([' '] + rest)[1..] == rest;
      [' '] + rest
    else
      var rest := CollapseSpaces(s[1..]);
      assert ([s[0]] + rest)[1..] == rest;
      [s[0]] + rest
  }

  /** The only whitespace in `s` is the plain space. */
  predicate PlainSpaces(s: string)
  {
    forall i :: 0 <= i < |s| && IsSpace(s[i]) ==> s[i] == ' '
  }

  lemma PlainSpacesSlice(s: string, lo: nat, hi: nat)
    requires PlainSpaces(s) && lo <= hi <= |s|
    ensures PlainSpaces(s[lo..hi])
  {
    assert forall i :: 0 <= i < hi - lo ==> s[lo..hi][i] == s[lo + i];
  }

  /** A text in the form `re.sub(r"\s+", " ", ...)` leaves: only plain spaces,
      never two whitespace characters side by side. */
  predicate Collapsed(t: string)
  {
    PlainSpaces(t) && forall i :: 0 <= i < |t| - 1 ==> !(IsSpace(t[i]) && IsSpace(t[i + 1]))
  }

  /** A text with a non-whitespace character has a word. */
  lemma {:induction false} WordsOfNonSpace(t: string, k: nat)
    requires k < |t| && !IsSpace(t[k])
    ensures Words(t) != []
    decreases k
  {
    if k > 0 && IsSpace(t[0]) {
      WordsOfNonSpace(t[1..], k - 1);
    }
  }

  /** A collapsed text without words is empty or a single space. */
  lemma CollapsedWithoutWords(t: string)
    requires Collapsed(t) && t != [] && Words(t) == []
    ensures t == " "
  {
    forall k | 0 <= k < |t| ensures IsSpace(t[k]) {
      if !IsSpace(t[k]) {
        WordsOfNonSpace(t, k);
      }
    }
    if |t| > 1 {
      assert false;
    }
  }

  lemma CollapsedTail(t: string)
    requires Collapsed(t) && t != []
    ensures Collapsed(t[1..])
  {
    assert forall i :: 0 <= i < |t| - 1 ==> t[1..][i] == t[i + 1];
  }

  /** Two collapsed texts with the same words that agree on being empty and on
      starting and ending with whitespace are equal. */
  lemma {:induction false} CollapsedUnique(t1: string, t2: string)
    requires Collapsed(t1) && Collapsed(t2)
    requires Words(t1) == Words(t2)
    requires t1 == [] <==> t2 == []
    requires t1 != [] ==> (IsSpace(t1[0]) <==> IsSpace(t2[0]))
    requires t1 != [] ==> (IsSpace(t1[|t1| - 1]) <==> IsSpace(t2[|t2| - 1]))
    ensures t1 == t2
    decreases |t1|
  {
    if t1 != [] {
      var u1, u2 := t1[1..], t2[1..];
      CollapsedTail(t1);
      CollapsedTail(t2);
      assert t1 == [t1[0]] + u1 && t2 == [t2[0]] + u2;
      if IsSpace(t1[0]) {
        assert t1[0] == ' ' == t2[0];
        if u1 == [] || u2 == [] {
          if u1 == [] {
            CollapsedWithoutWords(t2);
          } else {
            CollapsedWithoutWords(t1);
          }
        } else {
          assert !IsSpace(u1[0]) && !IsSpace(u2[0]);
          assert u1[|u1| - 1] == t1[|t1| - 1] && u2[|u2| - 1] == t2[|t2| - 1];
          CollapsedUnique(u1, u2);
        }
      } else {
        var w1, w2 := Words(u1), Words(u2);
        var a1 := u1 != [] && !IsSpace(u1[0]);
        var a2 := u2 != [] && !IsSpace(u2[0]);
        assert t1[0] == Words(t1)[0][0] == t2[0];
        if a1 && !a2 {
          assert false;
        } else if a2 && !a1 {
          assert false;
        } else if a1 {
          assert Words(t1) == [[t1[0]] + w1[0]] + w1[1..];
          assert Words(t2) == [[t2[0]] + w2[0]] + w2[1..];
          assert ([t1[0]] + w1[0])[1..] == w1[0] && ([t2[0]] + w2[0])[1..] == w2[0];
          assert w1[0] == w2[0];
          assert w1[1..] == Words(t1)[1..] == w2[1..];
          assert w1 == [w1[0]] + w1[1..] && w2 == [w2[0]] + w2[1..];
          assert u1[|u1| - 1] == t1[|t1| - 1] && u2[|u2| - 1] == t2[|t2| - 1];
          CollapsedUnique(u1, u2);
        } else {
          assert Words(t1) == [[t1[0]]] + w1 && Words(t2) == [[t2[0]]] + w2;
          assert w1 == Words(t1)[1..] == w2;
          if u1 == [] && u2 != [] {
            CollapsedWithoutWords(u2);
            assert false;
          } else if u2 == [] && u1 != [] {
            CollapsedWithoutWords(u1);
            assert false;
          } else if u1 != [] {
            assert u1[|u1| - 1] == t1[|t1| - 1] && u2[|u2| - 1] == t2[|t2| - 1];
            CollapsedUnique(u1, u2);
          }
        }
      }
    }
  }

  /** The collapse is the only collapsed text with the words of `s` that
      agrees with `s` on being empty and on starting and ending with
      whitespace. */
  lemma CollapseSpacesCanonical(s: string, t: string)
    requires Collapsed(t) && Words(t) == Words(s)
    requires t == [] <==> s == []
    requires s != [] ==> (IsSpace(t[0]) <==> IsSpace(s[0])) && (IsSpace(t[|t| - 1]) <==> IsSpace(s[|s| - 1]))
    ensures t == CollapseSpaces(s)
  {
    CollapsedUnique(t, CollapseSpaces(s));
  }

  // ---------------------------------------------------------------------------
  // lower

  function LowerChar(c: char): char
  {
    if 'A' <= c <= 'Z' then (c as int + 32) as char else c
  }

  /** `s.lower()`, over the ASCII letters: the length is kept, no upper-case
      ASCII letter is left, and every other character is kept. */
  function Lower(s: string): (r: string)
    ensures |r| == |s|
    ensures forall i :: 0 <= i < |r| ==> !('A' <= r[i] <= 'Z')
    ensures forall i :: 0 <= i < |s| && !('A' <= s[i] <= 'Z') ==> r[i] == s[i]
    ensures forall i :: 0 <= i < |s| ==> r[i] == LowerChar(s[i])
  {
    seq(|s|, i requires 0 <= i < |s| => LowerChar(s[i]))
  }

  /** Lowering twice is lowering once, so the keys compared by the
      case-insensitive de-duplication are already lower case. */
  lemma LowerIdempotent(s: string)
    ensures Lower(Lower(s)) == Lower(s)
  {
    assert forall i :: 0 <= i < |s| ==> Lower(Lower(s))[i] == Lower(s)[i];
  }

  /** Two texts get the same key exactly when they differ only in the case of
      ASCII letters, position by position. */
  lemma LowerSameKey(a: string, b: string)
    ensures Lower(a) == Lower(b) <==>
              |a| == |b| && forall i :: 0 <= i < |a| ==> LowerChar(a[i]) == LowerChar(b[i])
  {
    if |a| == |b| && forall i :: 0 <= i < |a| ==> LowerChar(a[i]) == LowerChar(b[i]) {
      assert forall i :: 0 <= i < |a| ==> Lower(a)[i] == Lower(b)[i];
    }
  }

  // ---------------------------------------------------------------------------
  // join

  /** `sep.join(xs)`. */
  function Join(xs: seq<string>, sep: string): string
    decreases |xs|
  {
    if xs == [] then []
    else if |xs| == 1 then xs[0]
    else Join(xs[..|xs| - 1], sep) + sep + xs[|xs| - 1]
  }

  /** How many times `c` occurs in `s`. */
  function Occurrences(s: string, c: char): nat
    decreases |s|
  {
    if s == [] then 0 else (if s[0] == c then 1 else 0) + Occurrences(s[1..], c)
  }

  lemma OccurrencesAppend(a: string, b: string, c: char)
    ensures Occurrences(a + b, c) == Occurrences(a, c) + Occurrences(b, c)
    decreases |a|
  {
    if a == [] {
      assert a + b == b;
    } else {
      assert (a + b)[0] == a[0];
      assert (a + b)[1..] == a[1..] + b;
      OccurrencesAppend(a[1..], b, c);
    }
  }

  lemma OccurrencesAbsent(s: string, c: char)
    requires c !in s
    ensures Occurrences(s, c) == 0
    decreases |s|
  {
    if s != [] {
      assert c !in s[1..];
      OccurrencesAbsent(s[1..], c);
    }
  }

  /** Joining entries that do not contain `c` with a separator holding `c` once
      yields exactly one `c` between each two entries: the joined text splits
      back into as many entries as were joined. */
  lemma {:induction false} JoinSeparatorCount(xs: seq<string>, sep: string, c: char)
    requires xs != []
    requires Occurrences(sep, c) == 1
    requires forall i :: 0 <= i < |xs| ==> c !in xs[i]
    ensures Occurrences(Join(xs, sep), c) == |xs| - 1
    decreases |xs|
  {
    if |xs| == 1 {
      OccurrencesAbsent(xs[0], c);
    } else {
      var init := xs[..|xs| - 1];
      JoinSeparatorCount(init, sep, c);
      OccurrencesAppend(Join(init, sep), sep, c);
      OccurrencesAppend(Join(init, sep) + sep, xs[|xs| - 1], c);
      OccurrencesAbsent(xs[|xs| - 1], c);
    }
  }

  // ---------------------------------------------------------------------------
  // re.split(r"[.\n;]", s)

  predicate IsClauseBreak(c: char) { c == '.' || c == '\n' || c == ';' }

  /** `re.split(r"[.\n;]", s)`: the pieces between single break characters,
      empty pieces included; there is always at least one piece and no piece
      contains a break character. */
  function SplitClauses(s: string): (r: seq<string>)
    ensures |r| >= 1
    ensures forall i, j :: 0 <= i < |r| && 0 <= j < |r[i]| ==> !IsClauseBreak(r[i][j])
    decreases |s|
  {
    if s == [] then [[]]
    else
      var rest := SplitClauses(s[1..]);
      if IsClauseBreak(s[0]) then [[]] + rest
      else
        var head := [s[0]] + rest[0];
        assert forall j :: 1 <= j < |head| ==> head[j] == rest[0][j - 1];
        [head] + rest[1..]
  }

  /** The break characters of `s`, in order. */
  function Breaks(s: string): string
    decreases |s|
  {
    if s == [] then [] else (if IsClauseBreak(s[0]) then [s[0]] else []) + Breaks(s[1..])
  }

  /** Puts the pieces back together, the i-th break between piece i and piece i+1. */
  function Interleave(pieces: seq<string>, breaks: string): string
    requires |pieces| == |breaks| + 1
    decreases |breaks|
  {
    if breaks == [] then pieces[0]
    else pieces[0] + [breaks[0]] + Interleave(pieces[1..], breaks[1..])
  }

  /** Prepending a character to the first piece prepends it to the whole text. */
  lemma {:induction false} InterleaveExtendFirst(c: char, pieces: seq<string>, breaks: string)
    requires |pieces| == |breaks| + 1
    ensures Interleave([[c] + pieces[0]] + pieces[1..], breaks) == [c] + Interleave(pieces, breaks)
  {
    var ext := [[c] + pieces[0]] + pieces[1..];
    assert ext[0] == [c] + pieces[0] && ext[1..] == pieces[1..];
  }

  /** The clause split loses nothing: there is one more piece than there are
      break characters, and putting the breaks back between the pieces gives
      the text again. */
  lemma {:induction false} SplitClausesRoundTrip(s: string)
    ensures |SplitClauses(s)| == |Breaks(s)| + 1
    ensures Interleave(SplitClauses(s), Breaks(s)) == s
    decreases |s|
  {
    if s != [] {
      SplitClausesRoundTrip(s[1..]);
      var rest := SplitClauses(s[1..]);
      var bs := Breaks(s[1..]);
      assert s == [s[0]] + s[1..];
      if IsClauseBreak(s[0]) {
        assert Breaks(s) == [s[0]] + bs;
        var pieces := [[]] + rest;
        assert SplitClauses(s) == pieces;
        assert pieces[0] == [] && pieces[1..] == rest;
      } else {
        assert Breaks(s) == bs;
        assert SplitClauses(s) == [[s[0]] + rest[0]] + rest[1..];
        InterleaveExtendFirst(s[0], rest, bs);
      }
    }
  }
}
