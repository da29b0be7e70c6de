/** The public operations of BlNumberExtractorService: extractBlNumbers, which
    fills a candidate map from the two search passes, scores and sorts it, and
    the two front-ends extractPrimaryBlNumber and extractBlNumbersOnly.

    The two `Matcher.find()` loops are parameters: `nearLabelMatches(text)` and
    `globalMatches(text)` are the group-1 strings that NEAR_LABEL and GLOBAL
    capture in the normalised text, in scan order. */
module Extractor {
  import opened Text
  import opened Normalizer
  import opened BlNumber
  import opened Ranking

  /** The `LinkedHashMap<String, Candidate>` of extractBlNumbers: its keys in
      first-insertion order and the mapping itself. */
  class CandidateMap {
    var keys: seq<string>
    var entries: map<string, Candidate>

    ghost predicate Valid()
      reads this
    {
      Distinct(keys) && forall v :: v in entries <==> v in keys
    }

    constructor ()
      ensures Valid() && keys == [] && entries == map[]
    {
      keys := [];
      entries := map[];
    }

    /** `getOrDefault`. */
    function GetOrDefault(key: string, default: Candidate): (c: Candidate)
      reads this
      ensures key in entries ==> c == entries[key]
      ensures key !in entries ==> c == default
    {
      if key in entries then entries[key] else default
    }

    /** `put`: a new key goes to the end of the key order, an existing key keeps its place. */
    method Put(key: string, c: Candidate)
      requires Valid()
      modifies this
      ensures Valid()
      ensures entries == old(entries)[key := c]
      ensures keys == if key in old(entries) then old(keys) else old(keys) + [key]
    {
      if key !in entries {
        keys := keys + [key];
      }
      entries := entries[key := c];
    }

    /** `values()`: the candidates in key order. */
    function CandidatesInOrder(): (cs: seq<Candidate>)
      reads this
      requires Valid()
      ensures |cs| == |keys| && forall i :: 0 <= i < |keys| ==> cs[i] == entries[keys[i]]
    {
      seq(|keys|, i requires 0 <= i < |keys| && keys[i] in entries reads this => entries[keys[i]])
    }
  }

  /** One `put` step of a pass: the captured string at `raws[i]` appends its admitted
      value, if any, to what the pass has handed on so far. */
  lemma AcceptedStep(raws: seq<string>, i: nat)
    requires i < |raws|
    ensures Accepted(raws[..i + 1]) == Accepted(raws[..i]) + Admit(raws[i])
  {
    assert raws[..i + 1][..i] == raws[..i];
  }

  lemma AcceptedAfterStep(prefix: seq<string>, raws: seq<string>, i: nat)
    requires i < |raws|
    ensures prefix + Accepted(raws[..i + 1]) == (prefix + Accepted(raws[..i])) + Admit(raws[i])
    ensures |prefix| <= |prefix + Accepted(raws[..i])| && (prefix + Accepted(raws[..i]))[..|prefix|] == prefix
  {
    AcceptedStep(raws, i);
  }

  lemma FirstSeenStep(xs: seq<string>, y: string)
    ensures FirstSeen(xs + [y]) == if y in FirstSeen(xs) then FirstSeen(xs) else FirstSeen(xs) + [y]
  {
    assert (xs + [y])[..|xs|] == xs;
  }

  lemma CountStep(xs: seq<string>, y: string, v: string)
    ensures Count(xs + [y], v) == Count(xs, v) + (if y == v then 1 else 0)
  {
    assert (xs + [y])[..|xs|] == xs;
  }

  /** Lines 57-64 and 72-78: one captured string. When its `normalizeBl` value is
      non-empty and valid, that value's candidate (a new one scoring 0 if absent)
      gains `bonus`; otherwise the map is left as it was. */
  method PutMatch(table: CandidateMap, raw: string, bonus: int)
    requires table.Valid()
    requires forall v | v in table.entries :: table.entries[v].value == v
    modifies table
    ensures table.Valid()
    ensures |Admit(raw)| <= 1
    ensures PutStep(old(table.keys), old(table.entries), Admit(raw), bonus, table.keys, table.entries)
  {
    var norm := NormalizeBl(Some(raw));
    if norm == "" || !IsValidBlNumber(norm) {
      assert Admit(raw) == [];
      return;
    }
    assert Admit(raw) == [norm];
    AddScore(table, norm, bonus);
  }

  /** `getOrDefault(norm, new Candidate(norm))`, `score += bonus`, `put(norm, c)`. */
  method AddScore(table: CandidateMap, norm: string, bonus: int)
    requires table.Valid()
    requires forall v | v in table.entries :: table.entries[v].value == v
    modifies table
    ensures table.Valid()
    ensures PutStep(old(table.keys), old(table.entries), [norm], bonus, table.keys, table.entries)
  {
    var c := table.GetOrDefault(norm, Candidate(norm, 0));
    c := c.(score := c.score + bonus);
    table.Put(norm, c);
  }

  /** The map after the label pass has handed on `seen`: keys in first-seen order,
      each scoring 2 per occurrence. */
  ghost predicate AfterLabelMatches(keys: seq<string>, entries: map<string, Candidate>, seen: seq<string>)
  {
    keys == FirstSeen(seen) && forall v | v in entries :: entries[v] == Candidate(v, 2 * Count(seen, v))
  }

  /** The map once both passes together have handed on `all`: keys in first-seen order,
      scores still those of the label pass. */
  ghost predicate AfterGlobalMatches(keys: seq<string>, entries: map<string, Candidate>,
                                     labelAccepted: seq<string>, all: seq<string>)
  {
    keys == FirstSeen(all) && forall v | v in entries :: entries[v] == Candidate(v, 2 * Count(labelAccepted, v))
  }

  /** What `PutMatch` does with the admitted values `adm` (none or one). */
  ghost predicate PutStep(keys: seq<string>, entries: map<string, Candidate>, adm: seq<string>, bonus: int,
                          keys': seq<string>, entries': map<string, Candidate>)
  {
    if adm == [] then keys' == keys && entries' == entries
    else
      var n := adm[0];
      && keys' == (if n in keys then keys else keys + [n])
      && entries' == entries[n := Candidate(n, bonus + if n in entries then entries[n].score else 0)]
  }

  lemma LabelMatchStep(keys: seq<string>, entries: map<string, Candidate>, seen: seq<string>, adm: seq<string>,
                       keys': seq<string>, entries': map<string, Candidate>)
    requires |adm| <= 1 && forall v :: v in entries <==> v in keys
    requires AfterLabelMatches(keys, entries, seen)
    requires PutStep(keys, entries, adm, 2, keys', entries')
    ensures AfterLabelMatches(keys', entries', seen + adm)
  {
    if adm == [] {
      assert seen + adm == seen;
    } else {
      var n := adm[0];
      assert adm == [n];
      FirstSeenStep(seen, n);
      if n !in entries {
        assert Count(seen, n) == 0;
      }
      forall v | v in entries' ensures entries'[v] == Candidate(v, 2 * Count(seen + [n], v)) {
        CountStep(seen, n, v);
      }
    }
  }

  lemma GlobalMatchStep(keys: seq<string>, entries: map<string, Candidate>, labelAccepted: seq<string>,
                        all: seq<string>, adm: seq<string>, keys': seq<string>, entries': map<string, Candidate>)
    requires |adm| <= 1 && forall v :: v in entries <==> v in keys
    requires |labelAccepted| <= |all| && all[..|labelAccepted|] == labelAccepted
    requires AfterGlobalMatches(keys, entries, labelAccepted, all)
    requires PutStep(keys, entries, adm, 0, keys', entries')
    ensures AfterGlobalMatches(keys', entries', labelAccepted, all + adm)
  {
    if adm == [] {
      assert all + adm == all;
    } else {
      var n := adm[0];
      assert adm == [n];
      FirstSeenStep(all, n);
      var before := if n in entries then entries[n].score else 0;
      assert before == 2 * Count(labelAccepted, n) by {
        if n !in entries {
          assert n !in all;
          assert n !in all[..|labelAccepted|];
        }
      }
      forall v | v in entries' ensures entries'[v] == Candidate(v, 2 * Count(labelAccepted, v)) {
        if v != n {
          assert entries'[v] == entries[v];
        }
      }
    }
  }

  /** Lines 52-65: the label-anchored pass; each admitted match adds 2 to its value's score. */
  method LabelPass(table: CandidateMap, labelRaw: seq<string>)
    requires table.Valid() && table.keys == [] && table.entries == map[]
    modifies table
    ensures table.Valid()
    ensures AfterLabelMatches(table.keys, table.entries, Accepted(labelRaw))
  {
    for i := 0 to |labelRaw|
      invariant table.Valid()
      invariant AfterLabelMatches(table.keys, table.entries, Accepted(labelRaw[..i]))
    {
      AcceptedStep(labelRaw, i);
      ghost var keys, entries := table.keys, table.entries;
      PutMatch(table, labelRaw[i], 2);
      LabelMatchStep(keys, entries, Accepted(labelRaw[..i]), Admit(labelRaw[i]), table.keys, table.entries);
    }
    assert labelRaw[..|labelRaw|] == labelRaw;
  }

  /** Lines 67-79: the global pass; an admitted match enters the map with +0 if new. */
  method GlobalPass(table: CandidateMap, labelAccepted: seq<string>, globalRaw: seq<string>)
    requires table.Valid() && AfterGlobalMatches(table.keys, table.entries, labelAccepted, labelAccepted)
    modifies table
    ensures table.Valid()
    ensures AfterGlobalMatches(table.keys, table.entries, labelAccepted, labelAccepted + Accepted(globalRaw))
  {
    assert labelAccepted + Accepted(globalRaw[..0]) == labelAccepted;
    for i := 0 to |globalRaw|
      invariant table.Valid()
      invariant AfterGlobalMatches(table.keys, table.entries, labelAccepted, labelAccepted + Accepted(globalRaw[..i]))
    {
      ghost var all := labelAccepted + Accepted(globalRaw[..i]);
      AcceptedAfterStep(labelAccepted, globalRaw, i);
      ghost var keys, entries := table.keys, table.entries;
      PutMatch(table, globalRaw[i], 0);
      GlobalMatchStep(keys, entries, labelAccepted, all, Admit(globalRaw[i]), table.keys, table.entries);
    }
    assert globalRaw[..|globalRaw|] == globalRaw;
  }

  /** Lines 82-84: every candidate's score gains its `patternScore`. */
  method AddPatternScores(table: CandidateMap, labelAccepted: seq<string>)
    requires table.Valid()
    requires forall v | v in table.entries :: table.entries[v] == Candidate(v, 2 * Count(labelAccepted, v))
    modifies table
    ensures table.Valid() && table.keys == old(table.keys)
    ensures forall v | v in table.entries ::
      table.entries[v] == Candidate(v, 2 * Count(labelAccepted, v) + PatternScore(v))
  {
    var keys := table.keys;
    ghost var start := table.entries;
    for k := 0 to |keys|
      invariant table.Valid() && table.keys == keys
      invariant forall j :: 0 <= j < |keys| ==>
        table.entries[keys[j]] == if j < k then start[keys[j]].(score := start[keys[j]].score + PatternScore(keys[j])) else start[keys[j]]
    {
      var c := table.entries[keys[k]];
      table.Put(keys[k], c.(score := c.score + PatternScore(c.value)));
    }
    forall v | v in table.entries
      ensures table.entries[v] == Candidate(v, 2 * Count(labelAccepted, v) + PatternScore(v))
    {
      var j :| 0 <= j < |keys| && keys[j] == v;
    }
  }

  /** Lines 52-84 of extractBlNumbers: the candidates in first-insertion order, each
      scored 2 per label-pass match plus its `patternScore`. */
  method CollectCandidates(labelRaw: seq<string>, globalRaw: seq<string>) returns (cs: seq<Candidate>)
    ensures cs == ScoredBy(InsertionOrder(labelRaw, globalRaw), ScoreOf(labelRaw))
  {
    var table := new CandidateMap();
    LabelPass(table, labelRaw);
    GlobalPass(table, Accepted(labelRaw), globalRaw);
    AddPatternScores(table, Accepted(labelRaw));
    cs := table.CandidatesInOrder();
    forall i | 0 <= i < |cs| ensures cs[i] == Candidate(table.keys[i], Score(labelRaw, table.keys[i])) {
      assert table.keys[i] in table.entries;
    }
  }

  /** Moves `a[k]` left past the elements before it that score less, shifting them one
      place right; `j` is where it stops. */
  method ShiftLeft(a: array<Candidate>, k: nat) returns (j: nat)
    requires k < a.Length
    modifies a
    ensures j <= k
    ensures j == 0 || old(a[j - 1]).score >= old(a[k]).score
    ensures forall m :: j <= m < k ==> old(a[m]).score < old(a[k]).score
    ensures forall m :: 0 <= m < j ==> a[m] == old(a[m])
    ensures a[j] == old(a[k])
    ensures forall m :: j < m <= k ==> a[m] == old(a[m - 1])
    ensures forall m :: k < m < a.Length ==> a[m] == old(a[m])
  {
    var c := a[k];
    j := k;
    while j > 0 && a[j - 1].score < c.score
      invariant j <= k
      invariant forall m :: 0 <= m < j ==> a[m] == old(a[m])
      invariant a[j] == c
      invariant forall m :: j < m <= k ==> a[m] == old(a[m - 1])
      invariant forall m :: k < m < a.Length ==> a[m] == old(a[m])
      invariant forall m :: j <= m < k ==> old(a[m]).score < c.score
    {
      a[j - 1], a[j] := c, a[j - 1];
      j := j - 1;
    }
  }

  /** One insertion step: `a[k]` moves left past the elements of the score-descending
      prefix `a[..k]` that score less than it. */
  method InsertLast(a: array<Candidate>, k: nat)
    requires k < a.Length && ScoresDescending(a[..k])
    modifies a
    ensures a[..k + 1] == InsertByScore(old(a[..k]), old(a[k]))
    ensures a[k + 1..] == old(a[k + 1..])
  {
    ghost var t := a[..k];
    ghost var c := a[k];
    var j := ShiftLeft(a, k);
    InsertAtBoundary(t, c, j);
    ghost var r := t[..j] + [c] + t[j..];
    InsertedAt(t, c, j, r);
    assert a[..k + 1] == r;
  }

  /** The boundary the insertion step stops at is where `InsertByScore` puts `c`. */
  lemma InsertAtBoundary(t: seq<Candidate>, c: Candidate, j: nat)
    requires ScoresDescending(t) && j <= |t|
    requires j == 0 || t[j - 1].score >= c.score
    requires forall m :: j <= m < |t| ==> t[m].score < c.score
    ensures InsertByScore(t, c) == t[..j] + [c] + t[j..]
  {
    var p := InsertPosition(t, c);
    assert p == j;
  }

  /** Lines 87-88: `sorted.sort((a, b) -> Integer.compare(b.score, a.score))`, done in
      place as an insertion sort; the result is the stable descending-score order. */
  method SortByScoreDesc(a: array<Candidate>)
    modifies a
    ensures a[..] == SortByScore(old(a[..]))
  {
    for k := 0 to a.Length
      invariant a[..k] == SortByScore(old(a[..])[..k])
      invariant a[k..] == old(a[..])[k..]
    {
      SortByScoreDescending(old(a[..])[..k]);
      assert a[k] == old(a[..])[k] by {
        assert old(a[..])[k..][0] == a[k..][0];
      }
      assert old(a[..])[..k + 1][..k] == old(a[..])[..k];
      InsertLast(a, k);
    }
    assert a[..a.Length] == a[..];
    assert old(a[..])[..a.Length] == old(a[..]);
  }

  /** Lines 90-91: the values of the sorted candidates, in order. */
  method ValuesOf(a: array<Candidate>) returns (result: seq<string>)
    ensures result == Values(a[..])
  {
    result := [];
    for i := 0 to a.Length
      invariant |result| == i
      invariant forall k :: 0 <= k < i ==> result[k] == a[k].value
    {
      result := result + [a[i].value];
    }
  }

  /** `extractBlNumbers`: the ranked, duplicate-free list of valid reference numbers. */
  method ExtractBlNumbers(ocrText: Option<string>, nfkc: string -> string,
                          nearLabelMatches: string -> seq<string>, globalMatches: string -> seq<string>)
    returns (result: seq<string>)
    ensures var text := Normalize(ocrText, nfkc);
      result == Ranked(nearLabelMatches(text), globalMatches(text))
    ensures Distinct(result)
    ensures forall v :: v in result ==> v != "" && NoSpace(v) && IsValidBlNumber(v)
  {
    var text := Normalize(ocrText, nfkc);
    var labelRaw := nearLabelMatches(text);
    var globalRaw := globalMatches(text);
    var cs := CollectCandidates(labelRaw, globalRaw);
    var sorted := new Candidate[|cs|](i requires 0 <= i < |cs| => cs[i]);
    assert sorted[..] == cs;
    SortByScoreDesc(sorted);
    result := ValuesOf(sorted);
    RankedValid(labelRaw, globalRaw);
  }

  /** The text both front-ends return when nothing was found. */
  const NotFound: string := "B/L 넘버를 찾을 수 없습니다."

  /** The first line of extractBlNumbersOnly's listing. */
  const ListingHeader: string := "=== 추출된 B/L 넘버(우선순위순) ===\n"

  /** The not-found text contains a space, so no extracted value can be mistaken for it. */
  lemma NotFoundIsNoValue()
    ensures !NoSpace(NotFound)
  {
    assert IsSpace(NotFound[3]);
  }

  /** `extractPrimaryBlNumber`: the best-ranked value, or the not-found text exactly
      when the list is empty. */
  method ExtractPrimaryBlNumber(ocrText: Option<string>, nfkc: string -> string,
                                nearLabelMatches: string -> seq<string>, globalMatches: string -> seq<string>)
    returns (r: string)
    ensures var text := Normalize(ocrText, nfkc);
      var ranked := Ranked(nearLabelMatches(text), globalMatches(text));
      && (r == NotFound <==> ranked == [])
      && (ranked != [] ==> r == ranked[0])
  {
    var list := ExtractBlNumbers(ocrText, nfkc, nearLabelMatches, globalMatches);
    if list == [] {
      r := NotFound;
    } else {
      r := list[0];
      assert list[0] in list;
      NotFoundIsNoValue();
    }
  }

  /** The text of one listing line: the rank, ". " and the value. */
  function LineBody(n: nat, v: string): string
  {
    NatToString(n) + ". " + v
  }

  /** A line body has no newline when the value has none. */
  lemma LineBodyHasNoNewline(n: nat, v: string)
    requires '\n' !in v
    ensures '\n' !in LineBody(n, v)
  {
    assert forall k :: 0 <= k < |NatToString(n)| ==> IsDigit(NatToString(n)[k]);
  }

  /** One line of the listing: the 1-based rank, ". ", the value and a newline. */
  function ListingLine(n: nat, v: string): string
  {
    LineBody(n, v) + "\n"
  }

  /** The listing lines for `list`, numbered from `n`. */
  function ListingFrom(list: seq<string>, n: nat): string
  {
    if list == [] then "" else ListingLine(n, list[0]) + ListingFrom(list[1..], n + 1)
  }

  lemma {:induction false} ListingFromAppend(list: seq<string>, v: string, n: nat)
    ensures ListingFrom(list + [v], n) == ListingFrom(list, n) + ListingLine(n + |list|, v)
  {
    if list == [] {
      assert list + [v] == [v];
    } else {
      assert (list + [v])[1..] == list[1..] + [v];
      ListingFromAppend(list[1..], v, n + 1);
    }
  }

  lemma ListingStep(list: seq<string>, i: nat, sb: string)
    requires i < |list| && sb == ListingHeader + ListingFrom(list[..i], 1)
    ensures sb + ListingLine(i + 1, list[i]) == ListingHeader + ListingFrom(list[..i + 1], 1)
  {
    ListingFromAppend(list[..i], list[i], 1);
    assert list[..i + 1] == list[..i] + [list[i]];
  }

  /** `extractBlNumbersOnly`: the not-found text for an empty list, otherwise the header
      and one line `i. value` per ranked value, numbered from 1. Reading the listing back
      gives exactly the ranked values with their ranks. */
  method ExtractBlNumbersOnly(ocrText: Option<string>, nfkc: string -> string,
                              nearLabelMatches: string -> seq<string>, globalMatches: string -> seq<string>)
    returns (r: string)
    ensures var text := Normalize(ocrText, nfkc);
      var ranked := Ranked(nearLabelMatches(text), globalMatches(text));
      && r == (if ranked == [] then NotFound else ListingHeader + ListingFrom(ranked, 1))
      && (ranked != [] ==>
            ReadListing(r[|ListingHeader|..]) == Numbered(ranked, 1))
  {
    var list := ExtractBlNumbers(ocrText, nfkc, nearLabelMatches, globalMatches);
    if list == [] {
      return NotFound;
    }
    r := Listing(list);
    forall v | v in list ensures '\n' !in v {
      assert NoSpace(v);
    }
    ListingReadsBack(list, 1);
    assert r[|ListingHeader|..] == ListingFrom(list, 1);
  }

  /** Lines 109-113: the header, then `i + 1`, ". ", the value and a newline for each value. */
  method Listing(list: seq<string>) returns (sb: string)
    ensures sb == ListingHeader + ListingFrom(list, 1)
  {
    sb := ListingHeader;
    for i := 0 to |list|
      invariant sb == ListingHeader + ListingFrom(list[..i], 1)
    {
      var line := NatToString(i + 1) + ". " + list[i] + "\n";
      assert line == ListingLine(i + 1, list[i]);
      ListingStep(list, i, sb);
      sb := sb + line;
    }
    assert list[..|list|] == list;
  }

  // ---------------------------------------------------------------------------
  // Reading a listing back

  /** Number of leading decimal digits of `s`. */
  function LeadingDigits(s: string): (d: nat)
    ensures d <= |s| && AllDigits(s[..d])
    ensures d < |s| ==> !IsDigit(s[d])
  {
    if s != [] && IsDigit(s[0]) then
      var d' := LeadingDigits(s[1..]);
      assert s[..d' + 1] == [s[0]] + s[1..][..d'];
      d' + 1
    else 0
  }

  /** A listing line read back as its number and its value. */
  function ReadLine(line: string): (nat, string)
  {
    var d := LeadingDigits(line);
    (ParseNat(line[..d]), if d + 2 <= |line| then line[d + 2..] else "")
  }

  /** A listing read back, one entry per newline-terminated line. */
  function ReadListing(s: string): seq<(nat, string)>
    decreases |s|
  {
    var k := IndexOf(s, '\n');
    if k == |s| then [] else [ReadLine(s[..k])] + ReadListing(s[k + 1..])
  }

  /** A line ending at the first newline is read on its own, and reading goes on after it. */
  lemma ReadListingCons(body: string, rest: string)
    requires '\n' !in body
    ensures ReadListing(body + "\n" + rest) == [ReadLine(body)] + ReadListing(rest)
  {
    var s := body + "\n" + rest;
    assert s[|body|] == '\n';
    assert forall k :: 0 <= k < |body| ==> s[k] == body[k];
    assert IndexOf(s, '\n') == |body|;
    assert s[..|body|] == body;
    assert s[|body| + 1..] == rest;
  }

  /** A rendered line reads back as its number and its value. */
  lemma ReadLineOf(n: nat, v: string)
    ensures ReadLine(LineBody(n, v)) == (n, v)
  {
    var digits := NatToString(n);
    var body := digits + ". " + v;
    assert body[|digits|] == '.';
    assert forall k :: 0 <= k < |digits| ==> body[k] == digits[k];
    assert LeadingDigits(body) == |digits|;
    assert body[..|digits|] == digits;
    ParseNatToString(n);
    assert body[|digits| + 2..] == v;
  }

  /** Each value of `list` paired with its number, counting from `n`. */
  function Numbered(list: seq<string>, n: nat): seq<(nat, string)>
  {
    if list == [] then [] else [(n, list[0])] + Numbered(list[1..], n + 1)
  }

  /** Entry `i` of `Numbered(list, n)` is the value `list[i]` with the number `n + i`. */
  lemma {:induction false} NumberedAt(list: seq<string>, n: nat, i: nat)
    requires i < |list|
    ensures |Numbered(list, n)| == |list|
    ensures Numbered(list, n)[i] == (n + i, list[i])
  {
    if i > 0 {
      NumberedAt(list[1..], n + 1, i - 1);
    } else if |list| > 1 {
      NumberedAt(list[1..], n + 1, 0);
    }
  }

  /** Reading back the lines numbered from `n` gives each value with its number. */
  lemma {:induction false} ListingReadsBack(list: seq<string>, n: nat)
    requires forall v :: v in list ==> '\n' !in v
    ensures ReadListing(ListingFrom(list, n)) == Numbered(list, n)
  {
    if list == [] {
      assert IndexOf("", '\n') == 0;
    } else {
      var body := LineBody(n, list[0]);
      assert list[0] in list;
      LineBodyHasNoNewline(n, list[0]);
      ReadListingCons(body, ListingFrom(list[1..], n + 1));
      ReadLineOf(n, list[0]);
      ListingReadsBack(list[1..], n + 1);
    }
  }
}
