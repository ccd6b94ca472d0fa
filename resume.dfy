/** The resume synthesizer of `main.py`: behind a score gate, a summary paragraph
    with optional clauses, a semicolon-joined skills list with an optional skill
    inserted at index 2 and another appended, and up to six bullet lines made of
    at most two theme sentences of the posting followed by five fixed
    achievements, normalised and de-duplicated ignoring case. */
module Resume {
  import opened Text
  import opened Signals
  import opened Postings

  /** The patterns the synthesizer searches case-insensitively, and the
      sentence splitter `re.split(r"(?<=[.!?])\s+|\n+", text)` as a given
      function. The AI and bilingual lists are spelled like the scorer's but
      without its added word boundaries, so they are separate patterns: "Koreans"
      asks for the bilingual clause here but earns no bilingual bonus there. The
      theme list is one alternation of topics. */
  datatype CvPatterns = CvPatterns(
    ai: seq<Regex>,
    korean: seq<Regex>,
    themes: seq<Regex>,
    sentences: string -> seq<string>)

  const CvThreshold := 70

  // ---------------------------------------------------------------------------
  // De-duplication by a key, keeping first occurrences

  function Keys(xs: seq<string>, key: string -> string): (ks: seq<string>)
    ensures |ks| == |xs|
    ensures forall i :: 0 <= i < |xs| ==> ks[i] == key(xs[i])
  {
    seq(|xs|, i requires 0 <= i < |xs| => key(xs[i]))
  }

  /** The elements of `xs` whose key no earlier kept element has, in order. */
  function DedupBy(xs: seq<string>, key: string -> string): (d: seq<string>)
    ensures |d| <= |xs|
    decreases |xs|
  {
    if xs == [] then []
    else
      var prev := DedupBy(xs[..|xs| - 1], key);
      if key(xs[|xs| - 1]) in Keys(prev, key) then prev else prev + [xs[|xs| - 1]]
  }

  /** Nothing is lost but repeats: every element read has its key among the
      kept ones. */
  lemma {:induction false} DedupByKeeps(xs: seq<string>, key: string -> string)
    ensures forall i :: 0 <= i < |xs| ==> key(xs[i]) in Keys(DedupBy(xs, key), key)
    decreases |xs|
  {
    if xs != [] {
      var init := xs[..|xs| - 1];
      var prev := DedupBy(init, key);
      var x := xs[|xs| - 1];
      DedupByKeeps(init, key);
      assert forall i :: 0 <= i < |init| ==> xs[i] == init[i];
      if key(x) !in Keys(prev, key) {
        KeysAppend(prev, x, key);
      }
    }
  }

  /** No two kept elements share a key. */
  lemma {:induction false} DedupByKeysDistinct(xs: seq<string>, key: string -> string)
    ensures forall i, j :: 0 <= i < j < |DedupBy(xs, key)| ==> key(DedupBy(xs, key)[i]) != key(DedupBy(xs, key)[j])
    decreases |xs|
  {
    if xs != [] {
      var prev := DedupBy(xs[..|xs| - 1], key);
      DedupByKeysDistinct(xs[..|xs| - 1], key);
      var x := xs[|xs| - 1];
      if key(x) !in Keys(prev, key) {
        var d := prev + [x];
        assert DedupBy(xs, key) == d;
        forall i, j | 0 <= i < j < |d| ensures key(d[i]) != key(d[j]) {
          assert d[i] == prev[i];
          if j == |prev| {
            assert Keys(prev, key)[i] == key(prev[i]);
          } else {
            assert d[j] == prev[j];
          }
        }
      }
    }
  }

  /** Every kept element comes from the input. */
  lemma {:induction false} DedupByFrom(xs: seq<string>, key: string -> string)
    ensures forall x :: x in DedupBy(xs, key) ==> x in xs
    decreases |xs|
  {
    if xs != [] {
      DedupByFrom(xs[..|xs| - 1], key);
      assert forall x :: x in xs[..|xs| - 1] ==> x in xs;
    }
  }

  /** Reading more input only appends to what was kept. */
  lemma {:induction false} DedupByPrefix(a: seq<string>, c: seq<string>, key: string -> string)
    requires a <= c
    ensures DedupBy(a, key) <= DedupBy(c, key)
    decreases |c|
  {
    if |a| < |c| {
      var init := c[..|c| - 1];
      assert a <= init;
      DedupByPrefix(a, init, key);
    } else {
      assert a == c;
    }
  }

  function Same(s: string): string { s }

  lemma KeysSame(xs: seq<string>)
    ensures Keys(xs, Same) == xs
  {
  }

  // ---------------------------------------------------------------------------
  // pick_sentences

  /** A sentence worth quoting: it matches a theme pattern and, stripped, has
      20 to 180 characters. */
  predicate Qualifies(s: string, pats: seq<Regex>)
  {
    AnyMatch(s, pats) && 20 <= |StripSpace(s)| <= 180
  }

  /** The stripped qualifying sentences, in source order, repeats included. */
  function Candidates(sents: seq<string>, pats: seq<Regex>): (c: seq<string>)
    ensures forall k :: 0 <= k < |c| ==> 20 <= |c[k]| <= 180
    decreases |sents|
  {
    if sents == [] then []
    else
      var last := sents[|sents| - 1];
      Candidates(sents[..|sents| - 1], pats) + (if Qualifies(last, pats) then [StripSpace(last)] else [])
  }

  /** No qualifying sentence is missed: each, stripped, is a candidate. */
  lemma CandidatesComplete(sents: seq<string>, pats: seq<Regex>)
    ensures forall j :: 0 <= j < |sents| && Qualifies(sents[j], pats) ==> StripSpace(sents[j]) in Candidates(sents, pats)
  {
    forall j | 0 <= j < |sents| && Qualifies(sents[j], pats)
      ensures StripSpace(sents[j]) in Candidates(sents, pats)
    {
      CandidatesHas(sents, j, pats);
    }
  }

  lemma {:induction false} CandidatesHas(sents: seq<string>, j: nat, pats: seq<Regex>)
    requires j < |sents| && Qualifies(sents[j], pats)
    ensures StripSpace(sents[j]) in Candidates(sents, pats)
    decreases |sents|
  {
    var i := |sents| - 1;
    var init := sents[..i];
    var tail := if Qualifies(sents[i], pats) then [StripSpace(sents[i])] else [];
    CandidatesStep(sents, i, pats);
    assert sents[..i + 1] == sents;
    assert Candidates(sents, pats) == Candidates(init, pats) + tail;
    if j < i {
      assert init[j] == sents[j];
      CandidatesHas(init, j, pats);
    } else {
      assert j == i;
      assert tail == [StripSpace(sents[j])];
    }
  }

  /** Every candidate is a qualifying sentence of the input, stripped. */
  lemma {:induction false} CandidatesFrom(sents: seq<string>, pats: seq<Regex>)
    ensures forall x :: x in Candidates(sents, pats) ==>
              exists j :: 0 <= j < |sents| && Qualifies(sents[j], pats) && StripSpace(sents[j]) == x
    decreases |sents|
  {
    if sents != [] {
      var init := sents[..|sents| - 1];
      CandidatesFrom(init, pats);
      forall x | x in Candidates(sents, pats)
        ensures exists j :: 0 <= j < |sents| && Qualifies(sents[j], pats) && StripSpace(sents[j]) == x
      {
        if x in Candidates(init, pats) {
          var j :| 0 <= j < |init| && Qualifies(init[j], pats) && StripSpace(init[j]) == x;
          assert init[j] == sents[j];
        } else {
          assert Qualifies(sents[|sents| - 1], pats) && StripSpace(sents[|sents| - 1]) == x;
        }
      }
    }
  }

  /** Reading fewer sentences yields a prefix of the candidates. */
  lemma {:induction false} CandidatesPrefix(sents: seq<string>, i: nat, pats: seq<Regex>)
    requires i <= |sents|
    ensures Candidates(sents[..i], pats) <= Candidates(sents, pats)
    decreases |sents|
  {
    if i == |sents| {
      assert sents[..i] == sents;
    } else {
      var init := sents[..|sents| - 1];
      assert init[..i] == sents[..i];
      CandidatesPrefix(init, i, pats);
    }
  }

  /** What `pick_sentences(text, patterns, n)` returns, given the sentences of
      the text: the first `n` distinct candidates; for `n <= 0` the loop stops
      after the first sentence, so only that one can be taken. */
  function Picked(sents: seq<string>, pats: seq<Regex>, n: int): seq<string>
  {
    if n >= 1 then Take(DedupBy(Candidates(sents, pats), Same), n)
    else DedupBy(Candidates(sents[..Min(1, |sents|)], pats), Same)
  }

  lemma CandidatesStep(sents: seq<string>, i: nat, pats: seq<Regex>)
    requires i < |sents|
    ensures Candidates(sents[..i + 1], pats)
         == Candidates(sents[..i], pats) + (if Qualifies(sents[i], pats) then [StripSpace(sents[i])] else [])
  {
    assert sents[..i + 1][..i] == sents[..i];
  }

  /** Reading one more element keeps it exactly when its key is new. */
  lemma DedupByStep(xs: seq<string>, x: string, key: string -> string)
    ensures DedupBy(xs + [x], key)
         == if key(x) in Keys(DedupBy(xs, key), key) then DedupBy(xs, key) else DedupBy(xs, key) + [x]
  {
    assert (xs + [x])[..|xs|] == xs;
  }

  /** `pick_sentences`: scans the sentences, appends each qualifying stripped
      sentence not yet taken, and stops once `n` are taken. */
  method PickSentences(sents: seq<string>, pats: seq<Regex>, n: int) returns (hits: seq<string>)
    ensures hits == Picked(sents, pats, n)
  {
    hits := [];
    ghost var cands: seq<string> := [];
    var i := 0;
    while i < |sents|
      invariant 0 <= i <= |sents|
      invariant cands == Candidates(sents[..i], pats)
      invariant hits == DedupBy(cands, Same)
      invariant i > 0 ==> |hits| < n
    {
      var s := sents[i];
      CandidatesStep(sents, i, pats);
      if AnyMatch(s, pats) {
        var ss := StripSpace(s);
        if 20 <= |ss| <= 180 {
          DedupByStep(cands, ss, Same);
          KeysSame(hits);
          cands := cands + [ss];
          if ss !in hits {
            hits := hits + [ss];
          }
        }
      }
      i := i + 1;
      if |hits| >= n {
        PickedAtStop(sents, pats, n, i);
        return;
      }
    }
    assert sents[..i] == sents;
    PickedAtEnd(sents, pats, n);
  }

  /** Stopping after the `i`-th sentence with `n` hits (or after the first when
      `n <= 0`) yields what the specification picks. */
  lemma PickedAtStop(sents: seq<string>, pats: seq<Regex>, n: int, i: nat)
    requires 0 < i <= |sents|
    requires n >= 1 ==> |DedupBy(Candidates(sents[..i], pats), Same)| == n
    requires n <= 0 ==> i == 1
    ensures DedupBy(Candidates(sents[..i], pats), Same) == Picked(sents, pats, n)
  {
    var d := DedupBy(Candidates(sents[..i], pats), Same);
    if n >= 1 {
      var full := DedupBy(Candidates(sents, pats), Same);
      CandidatesPrefix(sents, i, pats);
      DedupByPrefix(Candidates(sents[..i], pats), Candidates(sents, pats), Same);
      assert d <= full && |d| == n;
      assert Picked(sents, pats, n) == Take(full, n);
      assert d == full[..n];
    } else {
      assert Min(1, |sents|) == i;
    }
  }

  /** Reaching the end of the sentences with fewer than `n` hits yields what
      the specification picks. */
  lemma PickedAtEnd(sents: seq<string>, pats: seq<Regex>, n: int)
    requires |sents| > 0 ==> |DedupBy(Candidates(sents, pats), Same)| < n
    ensures DedupBy(Candidates(sents, pats), Same) == Picked(sents, pats, n)
  {
    if |sents| == 0 {
      assert sents[..Min(1, |sents|)] == sents;
    }
  }

  /** The sentences whose candidates `pick_sentences` can take: for `n >= 1`
      any of them (the loop stops once `n` are taken, which only cuts off
      later candidates), for `n <= 0` only the first, since the check
      `len(hits) >= n` holds after the first sentence. */
  function Scanned(sents: seq<string>, n: int): (r: seq<string>)
    ensures r <= sents
    ensures n >= 1 ==> r == sents
    ensures n < 1 && sents != [] ==> r == sents[..1]
    ensures |r| <= Max(1, |sents|)
  {
    if n >= 1 then sents else sents[..Min(1, |sents|)]
  }

  /** `pick_sentences` returns at most `n` sentences (at most one for
      `n <= 0`), and they are the first distinct candidates, in source order. */
  lemma PickedShape(sents: seq<string>, pats: seq<Regex>, n: int)
    ensures |Picked(sents, pats, n)| <= Max(n, 1)
    ensures Picked(sents, pats, n) <= DedupBy(Candidates(Scanned(sents, n), pats), Same)
    ensures Picked(sents, pats, n) <= DedupBy(Candidates(sents, pats), Same)
  {
    var source := Scanned(sents, n);
    if n < 1 && |sents| > 0 {
      assert sents[..1][..0] == [];
    }
    CandidatesPrefix(sents, |source|, pats);
    assert sents[..|source|] == source;
    DedupByPrefix(Candidates(source, pats), Candidates(sents, pats), Same);
  }

  /** The picked sentences are pairwise distinct. */
  lemma PickedDistinct(sents: seq<string>, pats: seq<Regex>, n: int)
    ensures forall i, j :: 0 <= i < j < |Picked(sents, pats, n)| ==> Picked(sents, pats, n)[i] != Picked(sents, pats, n)[j]
  {
    var c := Candidates(Scanned(sents, n), pats);
    var d := DedupBy(c, Same);
    var r := Picked(sents, pats, n);
    PickedShape(sents, pats, n);
    DedupByKeysDistinct(c, Same);
    forall i, j | 0 <= i < j < |r| ensures r[i] != r[j] {
      assert r[i] == d[i] && r[j] == d[j];
    }
  }

  /** Each picked sentence is a qualifying sentence of the text, stripped: it
      has 20 to 180 characters and no surrounding whitespace. */
  lemma PickedFromSentences(sents: seq<string>, pats: seq<Regex>, n: int)
    ensures forall x :: x in Picked(sents, pats, n) ==> 20 <= |x| <= 180 && StripSpace(x) == x
    ensures forall x :: x in Picked(sents, pats, n) ==>
              exists j :: 0 <= j < |sents| && Qualifies(sents[j], pats) && StripSpace(sents[j]) == x
  {
    forall x | x in Picked(sents, pats, n)
      ensures 20 <= |x| <= 180 && StripSpace(x) == x
      ensures exists j :: 0 <= j < |sents| && Qualifies(sents[j], pats) && StripSpace(sents[j]) == x
    {
      PickedOneFromSentences(sents, pats, n, x);
    }
  }

  /** When fewer than `n` sentences are picked, the loop read every sentence
      and missed none: every qualifying sentence, stripped, is picked. */
  lemma PickedComplete(sents: seq<string>, pats: seq<Regex>, n: int)
    ensures |Picked(sents, pats, n)| < n ==>
              forall j :: 0 <= j < |sents| && Qualifies(sents[j], pats) ==> StripSpace(sents[j]) in Picked(sents, pats, n)
  {
    if |Picked(sents, pats, n)| < n {
      var c := Candidates(sents, pats);
      var d := DedupBy(c, Same);
      assert Picked(sents, pats, n) == d;
      KeysSame(d);
      CandidatesComplete(sents, pats);
      DedupByKeeps(c, Same);
      forall j | 0 <= j < |sents| && Qualifies(sents[j], pats)
        ensures StripSpace(sents[j]) in d
      {
        var x := StripSpace(sents[j]);
        assert x in c;
        var k :| 0 <= k < |c| && c[k] == x;
        assert Same(c[k]) in Keys(d, Same);
      }
    }
  }

  lemma PickedOneFromSentences(sents: seq<string>, pats: seq<Regex>, n: int, x: string)
    requires x in Picked(sents, pats, n)
    ensures 20 <= |x| <= 180 && StripSpace(x) == x
    ensures exists j :: 0 <= j < |sents| && Qualifies(sents[j], pats) && StripSpace(sents[j]) == x
  {
    var source := Scanned(sents, n);
    var c := Candidates(source, pats);
    PickedShape(sents, pats, n);
    DedupByFrom(c, Same);
    assert x in c;
    CandidatesFrom(source, pats);
    var j :| 0 <= j < |source| && Qualifies(source[j], pats) && StripSpace(source[j]) == x;
    assert source[j] == sents[j];
    StripCharsIdempotent(source[j], IsSpace);
  }

  // ---------------------------------------------------------------------------
  // Bullet normalisation

  const Bullet: char := '\U{2022}'
  const BulletMark: string := [Bullet, ' ']
  const MaxBullets := 6

  predicate IsBulletOrSpace(c: char) { c == Bullet || c == ' ' }

  /** `re.sub(r"\s+", " ", b).strip("• ").strip()`. */
  function Normalize(b: string): string
  {
    StripSpace(StripChars(CollapseSpaces(b), IsBulletOrSpace))
  }

  /** A normalised bullet neither starts nor ends with whitespace or `•`, its
      only whitespace is the plain space, and the final `strip()` never removes
      anything. */
  lemma NormalizeFacts(b: string)
    ensures Normalize(b) == StripChars(CollapseSpaces(b), IsBulletOrSpace)
    ensures PlainSpaces(Normalize(b))
    ensures Normalize(b) != [] ==>
              && !IsSpace(Normalize(b)[0]) && !IsSpace(Normalize(b)[|Normalize(b)| - 1])
              && Normalize(b)[0] != Bullet && Normalize(b)[|Normalize(b)| - 1] != Bullet
  {
    var c := CollapseSpaces(b);
    var t := StripChars(c, IsBulletOrSpace);
    var k := LeadCount(c, IsBulletOrSpace);
    StripCharsFacts(c, IsBulletOrSpace);
    assert PlainSpaces(c);
    PlainSpacesSlice(c, k, k + |t|);
    assert TrimLeft(t, IsSpace) == t;
    assert TrimRight(t, IsSpace) == t;
  }

  /** The non-empty normalised bullets, in order. */
  function Bodies(pool: seq<string>): (r: seq<string>)
    ensures forall k :: 0 <= k < |r| ==> r[k] != []
    decreases |pool|
  {
    if pool == [] then []
    else
      var b := Normalize(pool[|pool| - 1]);
      Bodies(pool[..|pool| - 1]) + (if b != [] then [b] else [])
  }

  /** No entry with a non-empty normalised form is missed. */
  lemma BodiesComplete(pool: seq<string>)
    ensures forall j :: 0 <= j < |pool| && Normalize(pool[j]) != [] ==> Normalize(pool[j]) in Bodies(pool)
  {
    forall j | 0 <= j < |pool| && Normalize(pool[j]) != []
      ensures Normalize(pool[j]) in Bodies(pool)
    {
      BodiesHas(pool, j, Normalize(pool[j]));
    }
  }

  lemma {:induction false} BodiesHas(pool: seq<string>, j: nat, b: string)
    requires j < |pool| && b == Normalize(pool[j]) && b != []
    ensures b in Bodies(pool)
    decreases |pool|
  {
    var i := |pool| - 1;
    var init := pool[..i];
    var tail := if Normalize(pool[i]) != [] then [Normalize(pool[i])] else [];
    BodiesStep(pool, i);
    assert pool[..i + 1] == pool;
    assert Bodies(pool) == Bodies(init) + tail;
    if j < i {
      assert init[j] == pool[j];
      BodiesHas(init, j, b);
      assert b in Bodies(init) + tail;
    } else {
      assert j == i;
      assert Normalize(pool[i]) == b;
      assert Normalize(pool[i]) != [];
      assert tail == [b];
      assert b in Bodies(init) + tail;
    }
  }

  /** Every body is the normalised form of an entry of the pool. */
  lemma {:induction false} BodiesFrom(pool: seq<string>)
    ensures forall x :: x in Bodies(pool) ==> exists j :: 0 <= j < |pool| && x == Normalize(pool[j])
    decreases |pool|
  {
    if pool != [] {
      var init := pool[..|pool| - 1];
      BodiesFrom(init);
      forall x | x in Bodies(pool)
        ensures exists j :: 0 <= j < |pool| && x == Normalize(pool[j])
      {
        if x in Bodies(init) {
          var j :| 0 <= j < |init| && x == Normalize(init[j]);
          assert init[j] == pool[j];
        } else {
          assert x == Normalize(pool[|pool| - 1]);
        }
      }
    }
  }

  /** Reading fewer entries yields a prefix of the bodies. */
  lemma {:induction false} BodiesPrefix(pool: seq<string>, i: nat)
    requires i <= |pool|
    ensures Bodies(pool[..i]) <= Bodies(pool)
    decreases |pool|
  {
    if i == |pool| {
      assert pool[..i] == pool;
    } else {
      var init := pool[..|pool| - 1];
      assert init[..i] == pool[..i];
      BodiesPrefix(init, i);
    }
  }

  function Bulleted(xs: seq<string>): (r: seq<string>)
    ensures |r| == |xs|
    ensures forall i :: 0 <= i < |xs| ==> r[i] == BulletMark + xs[i]
  {
    seq(|xs|, i requires 0 <= i < |xs| => BulletMark + xs[i])
  }

  /** The bullet lines `make_cv` produces from a pool of candidate bullets. */
  function BulletLines(pool: seq<string>): seq<string>
  {
    Bulleted(Take(DedupBy(Bodies(pool), Lower), MaxBullets))
  }

  lemma BodiesStep(pool: seq<string>, i: nat)
    requires i < |pool|
    ensures Bodies(pool[..i + 1])
         == Bodies(pool[..i]) + (if Normalize(pool[i]) != [] then [Normalize(pool[i])] else [])
  {
    assert pool[..i + 1][..i] == pool[..i];
  }

  lemma KeysAppend(xs: seq<string>, x: string, key: string -> string)
    ensures Keys(xs + [x], key) == Keys(xs, key) + [key(x)]
    ensures (set k | k in Keys(xs + [x], key)) == (set k | k in Keys(xs, key)) + {key(x)}
  {
    assert Keys(xs + [x], key) == Keys(xs, key) + [key(x)];
  }

  lemma BulletedAppend(xs: seq<string>, x: string)
    ensures Bulleted(xs + [x]) == Bulleted(xs) + [BulletMark + x]
  {
  }

  /** Stopping at six kept bullets yields the specified lines. */
  lemma BulletsAtStop(pool: seq<string>, i: nat)
    requires i <= |pool|
    requires |DedupBy(Bodies(pool[..i]), Lower)| == MaxBullets
    ensures Bulleted(DedupBy(Bodies(pool[..i]), Lower)) == BulletLines(pool)
  {
    BodiesPrefix(pool, i);
    DedupByPrefix(Bodies(pool[..i]), Bodies(pool), Lower);
  }

  /** The loop of `make_cv` over the bullet pool: normalise each, keep it when
      non-empty and its lower-case form is not yet in `seen`, stop at six. */
  method BuildBullets(pool: seq<string>) returns (out: seq<string>)
    ensures out == BulletLines(pool)
  {
    var seen: set<string> := {};
    out := [];
    ghost var bodies: seq<string> := [];
    ghost var kept: seq<string> := [];
    var i := 0;
    while i < |pool|
      invariant 0 <= i <= |pool|
      invariant bodies == Bodies(pool[..i])
      invariant kept == DedupBy(bodies, Lower)
      invariant out == Bulleted(kept)
      invariant seen == set k | k in Keys(kept, Lower)
      invariant |out| < MaxBullets
    {
      BodiesStep(pool, i);
      var b := Normalize(pool[i]);
      if b != [] {
        DedupByStep(bodies, b, Lower);
        bodies := bodies + [b];
        if Lower(b) !in seen {
          KeysAppend(kept, b, Lower);
          BulletedAppend(kept, b);
          seen := seen + {Lower(b)};
          out := out + [BulletMark + b];
          kept := kept + [b];
        }
      }
      i := i + 1;
      if |out| >= MaxBullets {
        BulletsAtStop(pool, i);
        return;
      }
    }
    assert pool[..i] == pool;
  }

  /** What the bullet block promises: at most six lines, each `"• "` followed by
      a non-empty normalised entry of the pool, no two equal ignoring case. */
  lemma BulletLinesFacts(pool: seq<string>)
    ensures |BulletLines(pool)| <= MaxBullets
    ensures forall line :: line in BulletLines(pool) ==>
              |line| > 2 && line[..2] == BulletMark
              && exists j :: 0 <= j < |pool| && line[2..] == Normalize(pool[j])
    ensures forall i, j :: 0 <= i < j < |BulletLines(pool)| ==>
              Lower(BulletLines(pool)[i][2..]) != Lower(BulletLines(pool)[j][2..])
  {
    var bodies := Bodies(pool);
    var d := DedupBy(bodies, Lower);
    var kept := Take(d, MaxBullets);
    var out := BulletLines(pool);
    assert forall i :: 0 <= i < |out| ==> out[i][2..] == kept[i] && kept[i] == d[i] by {
      forall i | 0 <= i < |out| ensures out[i][2..] == kept[i] && kept[i] == d[i] {
        assert out[i] == BulletMark + kept[i];
      }
    }
    DedupByKeysDistinct(bodies, Lower);
    DedupByFrom(bodies, Lower);
    BodiesFrom(pool);
    forall line | line in out
      ensures |line| > 2 && line[..2] == BulletMark
      ensures exists j :: 0 <= j < |pool| && line[2..] == Normalize(pool[j])
    {
      var i :| 0 <= i < |out| && out[i] == line;
      assert kept[i] in d;
      assert kept[i] in bodies;
    }
  }

  /** With fewer than six lines, no entry was dropped for the limit: every
      entry with a non-empty normalised form has a line equal to it ignoring
      case. */
  lemma BulletLinesComplete(pool: seq<string>)
    ensures |BulletLines(pool)| < MaxBullets ==>
              forall j :: 0 <= j < |pool| && Normalize(pool[j]) != [] ==>
                exists k :: 0 <= k < |BulletLines(pool)| && |BulletLines(pool)[k]| >= 2
                  && Lower(BulletLines(pool)[k][2..]) == Lower(Normalize(pool[j]))
  {
    if |BulletLines(pool)| < MaxBullets {
      BodiesComplete(pool);
      forall j | 0 <= j < |pool| && Normalize(pool[j]) != []
        ensures exists k :: 0 <= k < |BulletLines(pool)| && |BulletLines(pool)[k]| >= 2
                  && Lower(BulletLines(pool)[k][2..]) == Lower(Normalize(pool[j]))
      {
        BulletLineFor(pool, Normalize(pool[j]));
      }
    }
  }

  lemma BulletLineFor(pool: seq<string>, b: string)
    requires |BulletLines(pool)| < MaxBullets
    requires b in Bodies(pool)
    ensures exists k :: 0 <= k < |BulletLines(pool)| && |BulletLines(pool)[k]| >= 2
              && Lower(BulletLines(pool)[k][2..]) == Lower(b)
  {
    var bodies := Bodies(pool);
    var d := DedupBy(bodies, Lower);
    var out := BulletLines(pool);
    assert Take(d, MaxBullets) == d;
    var i :| 0 <= i < |bodies| && bodies[i] == b;
    DedupByKeeps(bodies, Lower);
    assert Lower(bodies[i]) in Keys(d, Lower);
    var k :| 0 <= k < |d| && Keys(d, Lower)[k] == Lower(b);
    assert out[k] == BulletMark + d[k];
    assert out[k][2..] == d[k];
  }

  /** No bullet line holds a newline: the mark is `"• "` and a normalised body
      has only plain spaces. */
  lemma BulletLineHasNoNewline(pool: seq<string>, i: nat)
    requires i < |BulletLines(pool)|
    ensures '\n' !in BulletLines(pool)[i]
  {
    var d := DedupBy(Bodies(pool), Lower);
    assert BulletLines(pool)[i] == BulletMark + d[i];
    KeptBodyHasNoNewline(pool, i);
    NoNewlineJoined(BulletMark, d[i]);
  }

  lemma KeptBodyHasNoNewline(pool: seq<string>, i: nat)
    requires i < |DedupBy(Bodies(pool), Lower)|
    ensures '\n' !in DedupBy(Bodies(pool), Lower)[i]
  {
    var bodies := Bodies(pool);
    var b := DedupBy(bodies, Lower)[i];
    DedupByFrom(bodies, Lower);
    assert b in bodies;
    BodiesFrom(pool);
    var j :| 0 <= j < |pool| && b == Normalize(pool[j]);
    NormalizedHasNoNewline(pool[j]);
  }

  lemma NormalizedHasNoNewline(e: string)
    ensures '\n' !in Normalize(e)
  {
    NormalizeFacts(e);
    assert IsSpace('\n');
  }

  lemma NoNewlineJoined(a: string, b: string)
    requires '\n' !in a && '\n' !in b
    ensures '\n' !in a + b
  {
  }

  /** The newline-joined bullet text holds one newline fewer than there are
      lines, so it splits back into its at most six lines. */
  lemma BulletTextLines(pool: seq<string>)
    ensures Occurrences(Join(BulletLines(pool), "\n"), '\n') == Max(|BulletLines(pool)| - 1, 0)
    ensures Occurrences(Join(BulletLines(pool), "\n"), '\n') < MaxBullets
  {
    var out := BulletLines(pool);
    if out != [] {
      forall i | 0 <= i < |out| ensures '\n' !in out[i] {
        BulletLineHasNoNewline(pool, i);
      }
      assert Occurrences("\n", '\n') == 1 by {
        assert "\n"[1..] == [];
      }
      JoinSeparatorCount(out, "\n", '\n');
    }
  }

  // ---------------------------------------------------------------------------
  // Summary

  const SummaryOpening: string :=
    "Product leader with 10+ years in e-commerce/SaaS platforms, API products, and cross-functional delivery. "
    + "Owned roadmaps and PRDs, scaled high-transaction launches, and drove KPI-based iteration with Engineering/Design/Go-to-Market. "
  const KoreanClause: string := "Fluent KR/EN. "
  const AiClause: string := "Applied AI for automation/workflows; comfortable partnering with data/ML teams. "
  /** The closing sentence as the f-string produces it: the doubled braces
      print single braces, so the placeholders stay in the text. */
  const AsWrittenClosing: string := "Ready to drive outcomes as {title} at {company}."

  predicate WantsAi(cv: CvPatterns, jd: string) { AnyMatch(jd, cv.ai) }

  predicate WantsKorean(cv: CvPatterns, jd: string) { AnyMatch(jd, cv.korean) }

  function SummaryHead(cv: CvPatterns, jd: string): string
  {
    SummaryOpening
    + (if WantsKorean(cv, jd) then KoreanClause else "")
    + (if WantsAi(cv, jd) then AiClause else "")
  }

  /** The summary as `make_cv` writes it. */
  function Summary(cv: CvPatterns, p: Posting): string
  {
    SummaryHead(cv, p.description) + AsWrittenClosing
  }

  /** As written, the summary never names the role: it is the same for every
      title and company, and it ends with the literal placeholders. */
  lemma SummaryIgnoresTitleAndCompany(cv: CvPatterns, p: Posting, title: string, company: string)
    ensures Summary(cv, p.(title := title, company := company)) == Summary(cv, p)
    ensures var s := Summary(cv, p);
      |s| >= |AsWrittenClosing| && s[|s| - |AsWrittenClosing|..] == AsWrittenClosing
  {
  }

  /** `s.strip() or fallback`: the stripped text, or the fallback when nothing
      is left; never empty when the fallback is not. */
  function StripOr(s: string, fallback: string): (r: string)
    ensures StripSpace(s) != [] ==> r == StripSpace(s)
    ensures StripSpace(s) == [] ==> r == fallback
    ensures fallback != [] ==> r != []
  {
    if StripSpace(s) != [] then StripSpace(s) else fallback
  }

  const TitleFallback: string := "Product Manager"
  const CompanyFallback: string := "the company"

  /** `str(title).strip() or "Product Manager"`. */
  function RoleTitle(title: string): string { StripOr(title, TitleFallback) }

  /** `str(company).strip() or "the company"`. */
  function RoleCompany(company: string): string { StripOr(company, CompanyFallback) }

  /** The summary with the title and company substituted, as the closing
      sentence evidently intends. */
  function IntendedSummary(cv: CvPatterns, p: Posting): string
  {
    SummaryHead(cv, p.description) + RoleSentence(RoleTitle(p.title), RoleCompany(p.company))
  }

  /** "Ready to drive outcomes as <title> at <company>." */
  function RoleSentence(title: string, company: string): string
  {
    "Ready to drive outcomes as " + title + (" at " + company + ".")
  }

  /** The intended summary names the role: for the same description and
      company, two postings get the same summary exactly when their titles
      (after the fallback) agree. */
  lemma IntendedSummaryNamesRole(cv: CvPatterns, p1: Posting, p2: Posting)
    requires p1.description == p2.description
    requires RoleCompany(p1.company) == RoleCompany(p2.company)
    ensures IntendedSummary(cv, p1) == IntendedSummary(cv, p2) <==> RoleTitle(p1.title) == RoleTitle(p2.title)
  {
    var company := RoleCompany(p1.company);
    MiddleCancels(SummaryHead(cv, p1.description), RoleSentence(RoleTitle(p1.title), company),
                  RoleSentence(RoleTitle(p2.title), company), []);
    MiddleCancels("Ready to drive outcomes as ", RoleTitle(p1.title), RoleTitle(p2.title), " at " + company + ".");
  }

  /** Equal texts with the same head and tail have the same middle. */
  lemma MiddleCancels(head: string, m1: string, m2: string, tail: string)
    ensures head + m1 + tail == head + m2 + tail <==> m1 == m2
  {
    if head + m1 + tail == head + m2 + tail {
      assert (head + m1 + tail)[|head|..|head| + |m1|] == m1;
      assert (head + m2 + tail)[|head|..|head| + |m2|] == m2;
    }
  }

  // ---------------------------------------------------------------------------
  // Skills

  const BaseSkills: seq<string> := [
    "Product strategy & roadmaps",
    "API/platform products",
    "Agile (Scrum/Kanban)",
    "PRDs, user stories, acceptance criteria",
    "Experimentation & KPI tracking",
    "Stakeholder & cross-functional leadership",
    "JIRA, Confluence, Figma, " + "Tableau, Google Analytics",
    "E-commerce & marketplace operations"]
  const AiSkill: string := "LLM/automation use-cases " + "(prompting, workflow integration)"
  const KoreanSkill: string := "Bilingual: Korean/English"
  const MaxSkills := 10
  const SkillSeparator: string := "; "

  /** The skills list after the optional insertion at index 2 and the optional
      append. */
  function SkillList(wantsAi: bool, wantsKorean: bool): seq<string>
  {
    (if wantsAi then BaseSkills[..2] + [AiSkill] + BaseSkills[2..] else BaseSkills)
    + (if wantsKorean then [KoreanSkill] else [])
  }

  /** The list has 8 to 10 entries, so `[:10]` drops nothing; the AI skill is
      at index 2 exactly when asked for, the bilingual skill last exactly when
      asked for, and the base skills keep their order around them. */
  lemma SkillListFacts(wantsAi: bool, wantsKorean: bool)
    ensures var l := SkillList(wantsAi, wantsKorean);
      && 8 <= |l| <= MaxSkills
      && Take(l, MaxSkills) == l
      && (l[2] == AiSkill <==> wantsAi)
      && (l[|l| - 1] == KoreanSkill <==> wantsKorean)
      && (forall i :: 0 <= i < |BaseSkills| ==> l[if wantsAi && i >= 2 then i + 1 else i] == BaseSkills[i])
  {
    var l := SkillList(wantsAi, wantsKorean);
    assert |AiSkill| != |BaseSkills[2]|;
    assert |KoreanSkill| != |BaseSkills[7]| && |KoreanSkill| != |AiSkill|;
    if !wantsAi {
      assert l[2] == BaseSkills[2];
    }
    if !wantsKorean {
      assert l[|l| - 1] == BaseSkills[7];
    }
  }

  /** No skill text holds `;`, so the `"; "` separators are the only ones. */
  lemma SkillsFreeOfSemicolon(wantsAi: bool, wantsKorean: bool)
    ensures forall i :: 0 <= i < |SkillList(wantsAi, wantsKorean)| ==> ';' !in SkillList(wantsAi, wantsKorean)[i]
  {
    BaseSkillsFreeOfSemicolon();
    ExtraSkillsFreeOfSemicolon();
    var l := SkillList(wantsAi, wantsKorean);
    forall i | 0 <= i < |l| ensures ';' !in l[i] {
      if wantsKorean && i == |l| - 1 {
        assert l[i] == KoreanSkill;
      } else if wantsAi && i == 2 {
        assert l[i] == AiSkill;
      } else {
        assert l[i] == BaseSkills[if wantsAi && i > 2 then i - 1 else i];
      }
    }
  }

  lemma BaseSkillsFreeOfSemicolon()
    ensures forall i :: 0 <= i < |BaseSkills| ==> ';' !in BaseSkills[i]
  {
    FirstSkillsFreeOfSemicolon();
    MiddleSkillsFreeOfSemicolon();
    ToolSkillFreeOfSemicolon();
  }

  lemma FirstSkillsFreeOfSemicolon()
    ensures ';' !in BaseSkills[0] && ';' !in BaseSkills[1] && ';' !in BaseSkills[2] && ';' !in BaseSkills[3]
  {
  }

  lemma MiddleSkillsFreeOfSemicolon()
    ensures ';' !in BaseSkills[4] && ';' !in BaseSkills[5] && ';' !in BaseSkills[7]
  {
  }

  lemma ToolSkillFreeOfSemicolon()
    ensures ';' !in BaseSkills[6]
  {
    NoSemicolonJoined("JIRA, Confluence, Figma, ", "Tableau, Google Analytics");
  }

  lemma ExtraSkillsFreeOfSemicolon()
    ensures ';' !in AiSkill && ';' !in KoreanSkill
  {
    NoSemicolonJoined("LLM/automation use-cases ", "(prompting, workflow integration)");
  }

  lemma NoSemicolonJoined(a: string, b: string)
    requires ';' !in a && ';' !in b
    ensures ';' !in a + b
  {
  }

  /** The joined skills text holds exactly one `;` between each two skills,
      so it splits back into its 8 to 10 entries. */
  lemma SkillsTextEntries(wantsAi: bool, wantsKorean: bool)
    ensures Occurrences(Join(SkillList(wantsAi, wantsKorean), SkillSeparator), ';') == |SkillList(wantsAi, wantsKorean)| - 1
    ensures 7 <= Occurrences(Join(SkillList(wantsAi, wantsKorean), SkillSeparator), ';') < MaxSkills
  {
    SkillListFacts(wantsAi, wantsKorean);
    SkillsFreeOfSemicolon(wantsAi, wantsKorean);
    assert Occurrences(SkillSeparator, ';') == 1 by {
      assert SkillSeparator[1..] == " ";
      assert " "[1..] == [];
    }
    JoinSeparatorCount(SkillList(wantsAi, wantsKorean), SkillSeparator, ';');
  }

  // ---------------------------------------------------------------------------
  // make_cv

  const ThemeSentences := 2

  const FixedBullets: seq<string> := [
    "Led API product strategy and platform roadmap; delivered features across Eng/QA/Design with clear PRDs and tight sprint cadences.",
    "Built an open API app store ecosystem, reducing customization costs by 90% and accelerating integrations for partners.",
    "Stabilized critical API servers (CPU 90% \U{2192} 60%) and supported high-transaction launches for Nike, YG Entertainment, and SM Entertainment.",
    "Partnered with YouTube Shopping on global expansion initiatives.",
    "Scaled global e-commerce operations (Amazon/eBay integrations) and achieved 473% YoY revenue growth for Kmall24."]

  /** `make_cv`: three empty strings below the threshold; otherwise the summary,
      the joined skills and the newline-joined bullet lines. */
  method MakeCv(cv: CvPatterns, p: Posting, s: int) returns (summary: string, skills: string, bullets: string)
    ensures s < CvThreshold <==> summary == [] && skills == [] && bullets == []
    ensures s >= CvThreshold ==> summary == Summary(cv, p)
    ensures s >= CvThreshold ==>
              skills == Join(SkillList(WantsAi(cv, p.description), WantsKorean(cv, p.description)), SkillSeparator)
    ensures s >= CvThreshold ==> Occurrences(skills, ';') < MaxSkills
    ensures s >= CvThreshold ==>
              bullets == Join(BulletLines(Picked(cv.sentences(p.description), cv.themes, ThemeSentences) + FixedBullets), "\n")
    ensures s >= CvThreshold ==> Occurrences(bullets, '\n') < MaxBullets
  {
    if s < CvThreshold {
      return "", "", "";
    }
    var jd := p.description;
    // computed as in the source, and unused by its summary
    var title := RoleTitle(p.title);
    var company := RoleCompany(p.company);
    var wantsAi := AnyMatch(jd, cv.ai);
    var wantsKr := AnyMatch(jd, cv.korean);
    summary := SummaryOpening
      + (if wantsKr then KoreanClause else "")
      + (if wantsAi then AiClause else "")
      + AsWrittenClosing;
    var skillList := BaseSkills;
    if wantsAi {
      skillList := skillList[..2] + [AiSkill] + skillList[2..];
    }
    if wantsKr {
      skillList := skillList + [KoreanSkill];
    }
    SkillListFacts(wantsAi, wantsKr);
    SkillsTextEntries(wantsAi, wantsKr);
    skills := Join(Take(skillList, MaxSkills), SkillSeparator);
    var themes := PickSentences(cv.sentences(jd), cv.themes, ThemeSentences);
    var out := BuildBullets(themes + FixedBullets);
    bullets := Join(out, "\n");
    BulletTextLines(themes + FixedBullets);
  }
}
