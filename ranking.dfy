/** What extractBlNumbers computes, as functions of the group-1 strings the two
    search passes capture: which values enter the candidate map and in which
    order, the score each one ends with, and the stable score-descending sort. */
module Ranking {
  import opened Text
  import opened BlNumber

  /** The source's `Candidate` record: the normalised value and its accumulated score. */
  datatype Candidate = Candidate(value: string, score: int)

  predicate Distinct<T(==)>(s: seq<T>)
  {
    forall i, j :: 0 <= i < j < |s| ==> s[i] != s[j]
  }

  /** Number of occurrences of `x` in `xs`. */
  function Count<T(==)>(xs: seq<T>, x: T): (n: nat)
    ensures n == 0 <==> x !in xs
    ensures n <= |xs|
  {
    if xs == [] then 0
    else
      var init, last := xs[..|xs| - 1], xs[|xs| - 1];
      assert xs == init + [last];
      Count(init, x) + (if last == x then 1 else 0)
  }

  /** Position of the first occurrence of `x` in `s`, or `|s|` when there is none. */
  function IndexOf<T(==)>(s: seq<T>, x: T): (k: nat)
    ensures k <= |s|
    ensures k < |s| <==> x in s
    ensures k < |s| ==> s[k] == x
    ensures forall j :: 0 <= j < k ==> s[j] != x
  {
    if s == [] then 0 else if s[0] == x then 0 else 1 + IndexOf(s[1..], x)
  }

  lemma IndexOfDistinct<T>(s: seq<T>, p: nat)
    requires Distinct(s) && p < |s|
    ensures IndexOf(s, s[p]) == p
  {
  }

  // ---------------------------------------------------------------------------
  // Which values enter the candidate map

  /** What one captured string contributes (lines 57-61 and 72-75): its `normalizeBl`
      value when that is non-empty and passes `isValidBlNumber`, else nothing. */
  function Admit(raw: string): (r: seq<string>)
    ensures |r| <= 1
    ensures forall v :: v in r ==> v == NormalizeBl(Some(raw)) && v != "" && IsValidBlNumber(v)
    ensures r == [] ==> NormalizeBl(Some(raw)) == "" || !IsValidBlNumber(NormalizeBl(Some(raw)))
  {
    var n := NormalizeBl(Some(raw));
    if n == "" || !IsValidBlNumber(n) then [] else [n]
  }

  /** The values one pass hands to the candidate map, in scan order, repeats included. */
  function Accepted(raws: seq<string>): (vs: seq<string>)
    ensures |vs| <= |raws|
    ensures forall v :: v in vs ==> v != "" && NoSpace(v) && IsValidBlNumber(v)
  {
    if raws == [] then [] else Accepted(raws[..|raws| - 1]) + Admit(raws[|raws| - 1])
  }

  /** Whether the captured string `raw` puts the value `v` into the candidate map. */
  predicate Admits(raw: string, v: string)
  {
    v in Admit(raw)
  }

  /** The concatenation of `f(x)` over `xs`, in order. */
  function Gather(xs: seq<string>, f: string -> seq<string>): seq<string>
  {
    if xs == [] then [] else Gather(xs[..|xs| - 1], f) + f(xs[|xs| - 1])
  }

  lemma {:induction false} GatherMembers(xs: seq<string>, f: string -> seq<string>, v: string)
    ensures v in Gather(xs, f) <==> exists k :: 0 <= k < |xs| && v in f(xs[k])
  {
    if xs != [] {
      var init := xs[..|xs| - 1];
      GatherMembers(init, f, v);
      if v in Gather(init, f) {
        var k :| 0 <= k < |init| && v in f(init[k]);
        assert xs[k] == init[k];
      }
      if k :| 0 <= k < |xs| && v in f(xs[k]) {
        if k < |init| {
          assert init[k] == xs[k];
        }
      }
    }
  }

  lemma {:induction false} AcceptedIsGather(raws: seq<string>)
    ensures Accepted(raws) == Gather(raws, Admit)
  {
    if raws != [] {
      AcceptedIsGather(raws[..|raws| - 1]);
    }
  }

  /** A value is handed on by a pass exactly when some captured string of that pass
      normalises to it and the value is non-empty and valid. */
  lemma AcceptedMembers(raws: seq<string>, v: string)
    ensures v in Accepted(raws) <==> exists k :: 0 <= k < |raws| && Admits(raws[k], v)
  {
    AcceptedIsGather(raws);
    GatherMembers(raws, Admit, v);
  }

  lemma AdmitsMeans(raw: string, v: string)
    ensures Admits(raw, v) <==> NormalizeBl(Some(raw)) == v && v != "" && IsValidBlNumber(v)
  {
  }

  /** The key order of a `LinkedHashMap` into which `xs` is put in order: a value takes
      its place at its first occurrence, and putting it again does not move it. */
  function FirstSeen(xs: seq<string>): (r: seq<string>)
    ensures Distinct(r)
    ensures forall x :: x in r <==> x in xs
  {
    if xs == [] then []
    else
      var init, last := xs[..|xs| - 1], xs[|xs| - 1];
      assert xs == init + [last];
      var p := FirstSeen(init);
      if last in p then p else p + [last]
  }

  /** Putting more values into the map never disturbs the order of the keys already there. */
  lemma {:induction false} FirstSeenPrefix(a: seq<string>, b: seq<string>)
    ensures |FirstSeen(a)| <= |FirstSeen(a + b)|
    ensures FirstSeen(a + b)[..|FirstSeen(a)|] == FirstSeen(a)
    decreases |b|
  {
    if b == [] {
      assert a + b == a;
    } else {
      var b', y := b[..|b| - 1], b[|b| - 1];
      assert a + b == (a + b') + [y];
      FirstSeenPrefix(a, b');
    }
  }

  /** The order of the candidate map's keys after both passes (lines 52-79). */
  function InsertionOrder(labelRaw: seq<string>, globalRaw: seq<string>): seq<string>
  {
    FirstSeen(Accepted(labelRaw) + Accepted(globalRaw))
  }

  /** The final score of a value: +2 per label-pass match normalising to it, nothing
      for global-pass matches, plus its shape bonus (lines 63-64, 77-78, 82-84). */
  function Score(labelRaw: seq<string>, v: string): (s: int)
    ensures PatternScore(v) <= s <= 2 * |labelRaw| + 3
    ensures s == PatternScore(v) <==> v !in Accepted(labelRaw)
    ensures v in Accepted(labelRaw) ==> s >= PatternScore(v) + 2
  {
    2 * Count(Accepted(labelRaw), v) + PatternScore(v)
  }

  /** `Score` for the label-pass captures `labelRaw`, as a function of the value. */
  function ScoreOf(labelRaw: seq<string>): string -> int
  {
    v => Score(labelRaw, v)
  }

  /** One candidate per value of `vs`, in order, each carrying `score` of its value. */
  function ScoredBy(vs: seq<string>, score: string -> int): seq<Candidate>
  {
    seq(|vs|, i requires 0 <= i < |vs| => Candidate(vs[i], score(vs[i])))
  }

  function Values(cs: seq<Candidate>): seq<string>
  {
    seq(|cs|, i requires 0 <= i < |cs| => cs[i].value)
  }

  // ---------------------------------------------------------------------------
  // The stable sort by descending score

  predicate ScoresDescending(cs: seq<Candidate>)
  {
    forall i, j :: 0 <= i < j < |cs| ==> cs[i].score >= cs[j].score
  }

  /** Of two candidates with equal scores in `r`, the one earlier in `r` is earlier in `cs`. */
  predicate TiesInOrder(r: seq<Candidate>, cs: seq<Candidate>)
  {
    forall i, j :: 0 <= i < j < |r| && r[i].score == r[j].score ==> IndexOf(cs, r[i]) < IndexOf(cs, r[j])
  }

  /** Places `c` after every element whose score is at least `c`'s. */
  function InsertByScore(sorted: seq<Candidate>, c: Candidate): (r: seq<Candidate>)
    ensures |r| == |sorted| + 1
  {
    if sorted == [] then [c]
    else if sorted[0].score < c.score then [c] + sorted
    else [sorted[0]] + InsertByScore(sorted[1..], c)
  }

  /** `List.sort` with the comparator `(a, b) -> Integer.compare(b.score, a.score)`:
      a stable sort by descending score, here as an insertion sort. */
  function SortByScore(cs: seq<Candidate>): (r: seq<Candidate>)
    ensures |r| == |cs|
  {
    if cs == [] then []
    else
      InsertByScore(SortByScore(cs[..|cs| - 1]), cs[|cs| - 1])
  }

  /** In a score-descending sequence, `InsertByScore` puts `c` right after the elements
      scoring at least as much and right before those scoring less. */
  lemma {:induction false} InsertPosition(t: seq<Candidate>, c: Candidate) returns (j: nat)
    requires ScoresDescending(t)
    ensures j <= |t|
    ensures forall k :: 0 <= k < j ==> t[k].score >= c.score
    ensures forall k :: j <= k < |t| ==> t[k].score < c.score
    ensures InsertByScore(t, c) == t[..j] + [c] + t[j..]
  {
    if t == [] {
      j := 0;
    } else if t[0].score < c.score {
      j := 0;
    } else {
      var j' := InsertPosition(t[1..], c);
      j := j' + 1;
      assert t[1..][..j'] == t[1..j];
      assert t[1..][j'..] == t[j..];
    }
  }

  lemma InsertedAt(t: seq<Candidate>, c: Candidate, j: nat, r: seq<Candidate>)
    requires j <= |t| && r == t[..j] + [c] + t[j..]
    ensures |r| == |t| + 1
    ensures forall i :: 0 <= i < j ==> r[i] == t[i]
    ensures r[j] == c
    ensures forall i :: j < i < |r| ==> r[i] == t[i - 1]
  {
  }

  /** The sort only reorders. */
  lemma {:induction false} SortByScorePermutes(cs: seq<Candidate>)
    ensures multiset(SortByScore(cs)) == multiset(cs)
  {
    if cs != [] {
      var init, c := cs[..|cs| - 1], cs[|cs| - 1];
      assert cs == init + [c];
      SortByScorePermutes(init);
      var t := SortByScore(init);
      SortByScoreDescending(init);
      var j := InsertPosition(t, c);
      assert t == t[..j] + t[j..];
    }
  }

  /** The sort's result is in descending score order. */
  lemma {:induction false} SortByScoreDescending(cs: seq<Candidate>)
    ensures ScoresDescending(SortByScore(cs))
  {
    if cs != [] {
      var init, c := cs[..|cs| - 1], cs[|cs| - 1];
      SortByScoreDescending(init);
      var t := SortByScore(init);
      var j := InsertPosition(t, c);
      InsertedAt(t, c, j, SortByScore(cs));
    }
  }

  /** Sorting a sequence without repeats gives one without repeats. */
  lemma {:induction false} SortByScoreDistinct(cs: seq<Candidate>)
    requires Distinct(cs)
    ensures Distinct(SortByScore(cs))
  {
    if cs != [] {
      var init, c := cs[..|cs| - 1], cs[|cs| - 1];
      assert cs == init + [c];
      SortByScoreDistinct(init);
      SortByScoreDescending(init);
      var t := SortByScore(init);
      SortedElementsFromInput(init);
      assert c !in t;
      var r := SortByScore(cs);
      var j := InsertPosition(t, c);
      InsertedAt(t, c, j, r);
      forall i, k | 0 <= i < k < |r| ensures r[i] != r[k] {
        if i == j || k == j {
        } else {
          var ti := if i < j then i else i - 1;
          var tk := if k < j then k else k - 1;
          assert ti < tk;
        }
      }
    }
  }

  lemma SortedElementsFromInput(cs: seq<Candidate>)
    ensures forall x :: x in SortByScore(cs) ==> x in cs
  {
    SortByScorePermutes(cs);
    forall x | x in SortByScore(cs) ensures x in cs {
      assert x in multiset(SortByScore(cs));
    }
  }

  /** The sort is stable: equal scores keep the order they had in the input. */
  lemma {:induction false} SortByScoreStable(cs: seq<Candidate>)
    requires Distinct(cs)
    ensures TiesInOrder(SortByScore(cs), cs)
  {
    if cs != [] {
      var init, c := cs[..|cs| - 1], cs[|cs| - 1];
      assert cs == init + [c];
      SortByScoreStable(init);
      SortByScoreDescending(init);
      SortedElementsFromInput(init);
      var t := SortByScore(init);
      var r := SortByScore(cs);
      var j := InsertPosition(t, c);
      InsertedAt(t, c, j, r);
      assert c !in init;
      assert IndexOf(cs, c) == |init|;
      forall i, k | 0 <= i < k < |r| && r[i].score == r[k].score
        ensures IndexOf(cs, r[i]) < IndexOf(cs, r[k])
      {
        if k == j {
          assert r[i] == t[i] && r[i] in init;
          IndexOfAppend(init, c, r[i]);
        } else if i != j {
          var ti := if i < j then i else i - 1;
          var tk := if k < j then k else k - 1;
          assert r[i] == t[ti] && r[k] == t[tk] && ti < tk;
          assert IndexOf(init, t[ti]) < IndexOf(init, t[tk]);
          IndexOfAppend(init, c, t[ti]);
          IndexOfAppend(init, c, t[tk]);
        }
      }
    }
  }

  lemma IndexOfAppend<T>(s: seq<T>, y: T, x: T)
    requires x in s
    ensures IndexOf(s + [y], x) == IndexOf(s, x)
  {
    var k, k' := IndexOf(s, x), IndexOf(s + [y], x);
    assert (s + [y])[k] == x;
    if k' < k {
      assert s[k'] == x;
    }
  }

  // ---------------------------------------------------------------------------
  // The ranked result

  /** `vs` sorted stably by descending `score`, as values. */
  function RankBy(vs: seq<string>, score: string -> int): seq<string>
  {
    Values(SortByScore(ScoredBy(vs, score)))
  }

  /** The list extractBlNumbers returns: the keys of the candidate map, with their
      final scores, sorted stably by descending score. */
  function Ranked(labelRaw: seq<string>, globalRaw: seq<string>): (r: seq<string>)
    ensures Distinct(r)
    ensures |r| == |InsertionOrder(labelRaw, globalRaw)|
    ensures forall v :: v in r <==> v in InsertionOrder(labelRaw, globalRaw)
  {
    var order := InsertionOrder(labelRaw, globalRaw);
    RankByPermutes(order, ScoreOf(labelRaw));
    RankBy(order, ScoreOf(labelRaw))
  }

  lemma ScoredByMember(vs: seq<string>, score: string -> int, c: Candidate)
    requires c in ScoredBy(vs, score)
    ensures c == Candidate(c.value, score(c.value)) && c.value in vs
  {
    var p :| 0 <= p < |vs| && ScoredBy(vs, score)[p] == c;
  }

  /** The sorted candidates are those of `vs`, each once. */
  lemma SortedScored(vs: seq<string>, score: string -> int)
    requires Distinct(vs)
    ensures var cands := ScoredBy(vs, score);
      var sorted := SortByScore(cands);
      && Distinct(cands) && Distinct(sorted) && |sorted| == |vs|
      && (forall c :: c in sorted <==> c in cands)
  {
    var cands := ScoredBy(vs, score);
    assert Distinct(cands) by {
      forall i, j | 0 <= i < j < |cands| ensures cands[i] != cands[j] {
        assert cands[i].value == vs[i] && cands[j].value == vs[j];
      }
    }
    SortByScorePermutes(cands);
    SortByScoreDistinct(cands);
    var sorted := SortByScore(cands);
    forall c ensures c in sorted <==> c in cands {
      assert c in sorted <==> c in multiset(sorted);
      assert c in cands <==> c in multiset(cands);
    }
  }

  /** Ranking reorders `vs` and keeps each value once. */
  lemma RankByPermutes(vs: seq<string>, score: string -> int)
    requires Distinct(vs)
    ensures var ranked := RankBy(vs, score);
      && Distinct(ranked) && |ranked| == |vs|
      && forall v :: v in ranked <==> v in vs
  {
    var cands := ScoredBy(vs, score);
    var sorted := SortByScore(cands);
    SortedScored(vs, score);
    var ranked := RankBy(vs, score);
    forall i, j | 0 <= i < j < |ranked| ensures ranked[i] != ranked[j] {
      ScoredByMember(vs, score, sorted[i]);
      ScoredByMember(vs, score, sorted[j]);
    }
    forall v | v in ranked ensures v in vs {
      var i :| 0 <= i < |ranked| && ranked[i] == v;
      ScoredByMember(vs, score, sorted[i]);
    }
    forall v | v in vs ensures v in ranked {
      var p :| 0 <= p < |vs| && vs[p] == v;
      var i := IndexOf(sorted, cands[p]);
      assert ranked[i] == v;
    }
  }

  /** Scores never increase along a ranking. */
  lemma RankByDescending(vs: seq<string>, score: string -> int)
    ensures var ranked := RankBy(vs, score);
      forall i, j :: 0 <= i < j < |ranked| ==> score(ranked[i]) >= score(ranked[j])
  {
    var cands := ScoredBy(vs, score);
    var sorted := SortByScore(cands);
    SortByScoreDescending(cands);
    SortedElementsFromInput(cands);
    forall i | 0 <= i < |sorted| ensures sorted[i].score == score(sorted[i].value) {
      ScoredByMember(vs, score, sorted[i]);
    }
  }

  /** Equal scores keep the order of `vs`. */
  lemma RankByStable(vs: seq<string>, score: string -> int)
    requires Distinct(vs)
    ensures var ranked := RankBy(vs, score);
      forall i, j :: 0 <= i < j < |ranked| && score(ranked[i]) == score(ranked[j]) ==>
        IndexOf(vs, ranked[i]) < IndexOf(vs, ranked[j])
  {
    var cands := ScoredBy(vs, score);
    var sorted := SortByScore(cands);
    SortedScored(vs, score);
    SortByScoreStable(cands);
    forall i | 0 <= i < |sorted|
      ensures IndexOf(vs, sorted[i].value) == IndexOf(cands, sorted[i])
      ensures sorted[i].score == score(sorted[i].value)
    {
      ScoredByMember(vs, score, sorted[i]);
      var p := IndexOf(cands, sorted[i]);
      IndexOfDistinct(vs, p);
    }
  }

  /** A value is in the result exactly when one of the two passes captured a string
      normalising to it and the value is non-empty and valid. */
  lemma RankedMembers(labelRaw: seq<string>, globalRaw: seq<string>, v: string)
    ensures v in Ranked(labelRaw, globalRaw) <==>
      v != "" && IsValidBlNumber(v) &&
      ((exists k :: 0 <= k < |labelRaw| && NormalizeBl(Some(labelRaw[k])) == v) ||
       (exists k :: 0 <= k < |globalRaw| && NormalizeBl(Some(globalRaw[k])) == v))
  {
    AcceptedMembers(labelRaw, v);
    AcceptedMembers(globalRaw, v);
  }

  /** Every value of the result is non-empty, whitespace-free and passes `isValidBlNumber`. */
  lemma RankedValid(labelRaw: seq<string>, globalRaw: seq<string>)
    ensures forall v :: v in Ranked(labelRaw, globalRaw) ==> v != "" && NoSpace(v) && IsValidBlNumber(v)
  {
  }

  /** Scores never increase along the result. */
  lemma RankedScoresDescending(labelRaw: seq<string>, globalRaw: seq<string>)
    ensures var ranked := Ranked(labelRaw, globalRaw);
      forall i, j :: 0 <= i < j < |ranked| ==> Score(labelRaw, ranked[i]) >= Score(labelRaw, ranked[j])
  {
    RankByDescending(InsertionOrder(labelRaw, globalRaw), ScoreOf(labelRaw));
  }

  /** Values with equal scores come in the order they first entered the candidate map. */
  lemma RankedTiesInInsertionOrder(labelRaw: seq<string>, globalRaw: seq<string>)
    ensures var ranked, order := Ranked(labelRaw, globalRaw), InsertionOrder(labelRaw, globalRaw);
      forall i, j :: 0 <= i < j < |ranked| && Score(labelRaw, ranked[i]) == Score(labelRaw, ranked[j]) ==>
        IndexOf(order, ranked[i]) < IndexOf(order, ranked[j])
  {
    RankByStable(InsertionOrder(labelRaw, globalRaw), ScoreOf(labelRaw));
  }

  /** A value the label pass found outranks one only the global pass found, unless the
      latter's shape bonus exceeds the former's by more than the label bonus: the scores
      then favour the labelled value or tie, and a tie goes to it because the label pass
      filled the map first. */
  lemma LabelledOutranksUnlabelled(labelRaw: seq<string>, globalRaw: seq<string>, v: string, w: string)
    requires v in Accepted(labelRaw)
    requires w in Accepted(globalRaw) && w !in Accepted(labelRaw)
    requires PatternScore(w) <= PatternScore(v) + 2
    ensures v in Ranked(labelRaw, globalRaw) && w in Ranked(labelRaw, globalRaw)
    ensures IndexOf(Ranked(labelRaw, globalRaw), v) < IndexOf(Ranked(labelRaw, globalRaw), w)
  {
    var ranked, order := Ranked(labelRaw, globalRaw), InsertionOrder(labelRaw, globalRaw);
    var labelAccepted := Accepted(labelRaw);
    var labelled := FirstSeen(labelAccepted);
    assert v in order && w in order;
    assert v in ranked && w in ranked by {
    }
    var a, b := IndexOf(ranked, v), IndexOf(ranked, w);
    assert a != b;
    if b < a {
      assert Score(labelRaw, w) >= Score(labelRaw, v) by {
        RankedScoresDescending(labelRaw, globalRaw);
        assert ranked[b] == w && ranked[a] == v;
      }
      assert Count(labelAccepted, w) == 0 && Count(labelAccepted, v) >= 1;
      assert IndexOf(order, w) < IndexOf(order, v) by {
        RankedTiesInInsertionOrder(labelRaw, globalRaw);
        assert ranked[b] == w && ranked[a] == v;
      }
      FirstSeenPrefix(labelAccepted, Accepted(globalRaw));
    }
  }

}
