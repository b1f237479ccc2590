/** The search loop of mem_search (src/mem.c:450-542): a scan over stored vectors that keeps
    the best results in a small array by in-place insertion.  Scores are arbitrary reals. */
module TopK {
  import opened Keys

  const MAX_RESULTS: nat := 16
  const DEFAULT_RESULTS: nat := 5

  /** A vector the scan meets: its key, whether it has the right length, its similarity. */
  datatype Candidate = Candidate(key: Key, fits: bool, score: real)

  /** A result; at is the position of its vector in the scan. */
  datatype Hit = Hit(score: real, ino: nat, seqno: nat, at: nat)

  /** Higher scores first, equal scores in scan order. */
  predicate Before(a: Hit, b: Hit) { a.score > b.score || (a.score == b.score && a.at < b.at) }

  predicate Ranked(s: seq<Hit>) { forall i, j :: 0 <= i < j < |s| ==> Before(s[i], s[j]) }

  /** The scan considers vectors of content, of the right length, in key order. */
  function Hits(cs: seq<Candidate>): seq<Hit> {
    if cs == [] then []
    else
      var c := cs[|cs| - 1];
      Hits(cs[..|cs| - 1]) + if c.key.MemVector? && c.fits then [Hit(c.score, c.key.ino, c.key.seqno, |cs| - 1)] else []
  }

  lemma {:induction false} HitsExact(cs: seq<Candidate>)
    ensures forall h :: h in Hits(cs) <==>
      h.at < |cs| && cs[h.at].key == MemVector(h.ino, h.seqno) && cs[h.at].fits && cs[h.at].score == h.score
    ensures forall i, j :: 0 <= i < j < |Hits(cs)| ==> Hits(cs)[i].at < Hits(cs)[j].at
  {
    if cs != [] {
      HitsExact(cs[..|cs| - 1]);
      var front := Hits(cs[..|cs| - 1]);
      forall i | 0 <= i < |front|
        ensures front[i].at < |cs| - 1
      {
        assert front[i] in front;
      }
    }
  }

  // ---- the stable ranking ----

  function Insert(x: Hit, s: seq<Hit>): seq<Hit> {
    if s == [] || x.score > s[0].score then [x] + s else [s[0]] + Insert(x, s[1..])
  }

  function Rank(hs: seq<Hit>): seq<Hit> {
    if hs == [] then [] else Insert(hs[|hs| - 1], Rank(hs[..|hs| - 1]))
  }

  lemma {:induction false} InsertMembers(x: Hit, s: seq<Hit>)
    ensures multiset(Insert(x, s)) == multiset(s) + multiset{x}
    ensures forall h :: h in Insert(x, s) ==> h in s || h == x
  {
    if s != [] && x.score <= s[0].score {
      InsertMembers(x, s[1..]);
      assert s == [s[0]] + s[1..];
    }
  }

  lemma {:induction false} InsertRanked(x: Hit, s: seq<Hit>)
    requires Ranked(s) && forall h :: h in s ==> h.at < x.at
    ensures Ranked(Insert(x, s))
  {
    if s == [] {
    } else if x.score > s[0].score {
      assert forall j :: 0 < j < |s| ==> Before(s[0], s[j]);
      assert forall j :: 0 <= j < |s| ==> Before(x, s[j]);
    } else {
      var rest := s[1..];
      assert forall i :: 0 <= i < |rest| ==> rest[i] == s[i + 1];
      InsertRanked(x, rest);
      InsertMembers(x, rest);
      assert s[0] in s && Before(s[0], x);
      assert forall h :: h in rest ==> Before(s[0], h);
      RankedCons(s[0], Insert(x, rest));
    }
  }

  lemma RankedCons(h: Hit, s: seq<Hit>)
    requires Ranked(s) && forall g :: g in s ==> Before(h, g)
    ensures Ranked([h] + s)
  {
  }

  /** The ranking is the stable descending sort of the hits. */
  lemma {:induction false} RankSorts(hs: seq<Hit>)
    requires forall i, j :: 0 <= i < j < |hs| ==> hs[i].at < hs[j].at
    ensures Ranked(Rank(hs)) && multiset(Rank(hs)) == multiset(hs)
  {
    if hs != [] {
      var front, x := hs[..|hs| - 1], hs[|hs| - 1];
      RankSorts(front);
      assert hs == front + [x];
      forall h | h in Rank(front)
        ensures h.at < x.at
      {
        assert h in multiset(front);
        var i :| 0 <= i < |front| && front[i] == h;
        assert hs[i].at < hs[|hs| - 1].at;
      }
      InsertRanked(x, Rank(front));
      InsertMembers(x, Rank(front));
    }
  }

  lemma SameFirst(s: seq<Hit>, t: seq<Hit>)
    requires Ranked(s) && Ranked(t) && multiset(s) == multiset(t) && s != [] && t != []
    ensures s[0] == t[0]
  {
    assert s[0] in multiset(t) && t[0] in multiset(s);
    var i :| 0 <= i < |t| && t[i] == s[0];
    var j :| 0 <= j < |s| && s[j] == t[0];
    assert forall m :: 0 < m < |t| ==> Before(t[0], t[m]);
    assert forall m :: 0 < m < |s| ==> Before(s[0], s[m]);
  }

  /** Only one list ranks the hits. */
  lemma {:induction false} RankUnique(s: seq<Hit>, t: seq<Hit>)
    requires Ranked(s) && Ranked(t) && multiset(s) == multiset(t)
    ensures s == t
  {
    assert |multiset(s)| == |s| && |multiset(t)| == |t|;
    if s != [] {
      SameFirst(s, t);
      assert s == [s[0]] + s[1..] && t == [t[0]] + t[1..];
      assert multiset(s[1..]) == multiset(s) - multiset{s[0]};
      assert multiset(t[1..]) == multiset(t) - multiset{t[0]};
      RankUnique(s[1..], t[1..]);
    }
  }

  // ---- keeping the first k ----

  function Take(s: seq<Hit>, k: nat): seq<Hit> { if |s| <= k then s else s[..k] }

  /** Where an insertion goes: before the first smaller score. */
  function Place(x: Hit, s: seq<Hit>): (i: nat)
    ensures i <= |s|
    ensures forall j :: 0 <= j < i ==> s[j].score >= x.score
    ensures i < |s| ==> x.score > s[i].score
  {
    if s == [] || x.score > s[0].score then 0 else 1 + Place(x, s[1..])
  }

  lemma {:induction false} InsertAtPlace(x: Hit, s: seq<Hit>)
    ensures Insert(x, s) == s[..Place(x, s)] + [x] + s[Place(x, s)..]
  {
    if s != [] && x.score <= s[0].score {
      InsertAtPlace(x, s[1..]);
      var i := Place(x, s[1..]);
      assert s[..i + 1] == [s[0]] + s[1..][..i];
    }
  }

  /** Cutting before or after an insertion gives the same first k. */
  lemma TakeInsert(x: Hit, s: seq<Hit>, k: nat)
    ensures Take(Insert(x, s), k) == Take(Insert(x, Take(s, k)), k)
  {
    var t := Take(s, k);
    InsertAtPlace(x, s);
    InsertAtPlace(x, t);
    var i, j := Place(x, s), Place(x, t);
    assert i < |t| ==> t[i] == s[i];
    assert j < |t| ==> t[j] == s[j];
    assert i < |t| || j < |t| ==> i == j;
    if i < |t| {
      assert Take(s[..i] + [x] + s[i..], k) == Take(t[..i] + [x] + t[i..], k);
    } else {
      assert j == |t|;
      assert Take(s[..i] + [x] + s[i..], k) == Take(t + [x], k);
    }
  }

  // ---- the code ----

  predicate Descending(s: seq<Hit>) { forall i, j :: 0 <= i < j < |s| ==> s[i].score >= s[j].score }

  lemma PlaceIs(x: Hit, s: seq<Hit>, i: nat)
    requires Descending(s) && i <= |s|
    requires forall j :: 0 <= j < i ==> s[j].score >= x.score
    requires i < |s| ==> x.score > s[i].score
    ensures Place(x, s) == i
  {
  }

  lemma SplicedDescends(x: Hit, s: seq<Hit>, i: nat)
    requires Descending(s) && i <= |s|
    requires forall j :: 0 <= j < i ==> s[j].score >= x.score
    requires i < |s| ==> x.score > s[i].score
    ensures Descending(s[..i] + [x] + s[i..])
  {
    var t := s[..i] + [x] + s[i..];
    assert forall j :: 0 <= j < |t| ==> t[j] == if j < i then s[j] else if j == i then x else s[j - 1];
  }

  lemma TakeDescends(s: seq<Hit>, k: nat)
    requires Descending(s)
    ensures Descending(Take(s, k))
  {
  }

  lemma TakeSpliced(x: Hit, s: seq<Hit>, i: nat, k: nat)
    requires i <= |s| <= k && (i == |s| ==> |s| < k)
    ensures Take(s[..i] + [x] + s[i..], k) == s[..i] + [x] + s[i..if |s| < k then |s| else k - 1]
  {
  }

  /** What one insertion does to a full or filling array. */
  lemma InsertTaken(x: Hit, s: seq<Hit>, i: nat, k: nat)
    requires Descending(s) && i <= |s| <= k && (i == |s| ==> |s| < k)
    requires forall j :: 0 <= j < i ==> s[j].score >= x.score
    requires i < |s| ==> x.score > s[i].score
    ensures Take(Insert(x, s), k) == s[..i] + [x] + s[i..if |s| < k then |s| else k - 1]
    ensures Descending(Take(Insert(x, s), k))
  {
    PlaceIs(x, s, i);
    hide Insert, Descending, Take, Place;
    InsertAtPlace(x, s);
    SplicedDescends(x, s, i);
    TakeDescends(s[..i] + [x] + s[i..], k);
    TakeSpliced(x, s, i, k);
  }

  /** A score no better than the last of a full array is not inserted. */
  lemma NotTaken(x: Hit, s: seq<Hit>)
    requires Descending(s) && s != [] && x.score <= s[|s| - 1].score
    ensures Take(Insert(x, s), |s|) == s
  {
    PlaceIs(x, s, |s|);
    hide Insert, Place;
    InsertAtPlace(x, s);
    assert s[..|s|] + [x] + s[|s|..] == s + [x];
  }

  /** The shift and the store. */
  method Splice(results: array<Hit>, pos: nat, last: nat, x: Hit)
    requires pos <= last < results.Length
    modifies results
    ensures results[..last + 1] == old(results[..pos]) + [x] + old(results[pos..last])
  {
    Shift(results, pos, last);
    results[pos] := x;
  }

  /** The insertion: where the score belongs among the first n, the shift, and the store. */
  method InsertTop(results: array<Hit>, n: nat, k: nat, x: Hit) returns (n': nat)
    requires 0 < k <= results.Length && n <= k && Descending(results[..n])
    modifies results
    ensures n' == if n < k then n + 1 else n
    ensures results[..n'] == Take(Insert(x, old(results[..n])), k) && Descending(results[..n'])
  {
    hide Insert, Take, Descending;
    n' := n;
    ghost var s := results[..n];
    if n < k || x.score > results[k - 1].score {
      var last := if n < k then n else k - 1;
      var pos := FindPlace(results, last, x);
      InsertTaken(x, s, pos, k);
      assert results[..pos] == s[..pos] && results[pos..last] == s[pos..last];
      Splice(results, pos, last, x);
      n' := last + 1;
    } else {
      NotTaken(x, s);
    }
  }

  /** The loop that looks for a smaller score before the last position. */
  method FindPlace(results: array<Hit>, last: nat, x: Hit) returns (pos: nat)
    requires last < results.Length
    ensures pos <= last && (pos < last ==> x.score > results[pos].score)
    ensures forall j :: 0 <= j < pos ==> results[j].score >= x.score
  {
    pos := 0;
    while pos < last && x.score <= results[pos].score
      invariant 0 <= pos <= last
      invariant forall j :: 0 <= j < pos ==> results[j].score >= x.score
    {
      pos := pos + 1;
    }
  }

  /** The shift loop. */
  method Shift(results: array<Hit>, pos: nat, last: nat)
    requires pos <= last < results.Length
    modifies results
    ensures forall j :: 0 <= j < pos ==> results[j] == old(results[j])
    ensures forall j :: pos < j <= last ==> results[j] == old(results[j - 1])
  {
    var j: nat := last;
    while j > pos
      invariant pos <= j <= last
      invariant forall m :: 0 <= m <= j ==> results[m] == old(results[m])
      invariant forall m :: j < m <= last ==> results[m] == old(results[m - 1])
    {
      results[j] := results[j - 1];
      j := j - 1;
    }
  }

  /** What the scan has found after a prefix of the candidates. */
  function Best(cs: seq<Candidate>, k: nat): seq<Hit> { Take(Rank(Hits(cs)), k) }

  lemma BestStep(cs: seq<Candidate>, i: nat, k: nat)
    requires i < |cs|
    ensures Best(cs[..i + 1], k) ==
      if cs[i].key.MemVector? && cs[i].fits
      then Take(Insert(Hit(cs[i].score, cs[i].key.ino, cs[i].key.seqno, i), Best(cs[..i], k)), k)
      else Best(cs[..i], k)
  {
    var front, c := cs[..i], cs[i];
    assert cs[..i + 1][..i] == front && cs[..i + 1][i] == c;
    if c.key.MemVector? && c.fits {
      var x := Hit(c.score, c.key.ino, c.key.seqno, i);
      var hs := Hits(front) + [x];
      assert Hits(cs[..i + 1]) == hs && hs[..|hs| - 1] == Hits(front);
      TakeInsert(x, Rank(Hits(front)), k);
    } else {
      assert Hits(cs[..i + 1]) == Hits(front) + [] == Hits(front);
    }
  }

  /** How many results a query gets at most. */
  function Wanted(topK: int): (k: nat)
    ensures 1 <= k <= MAX_RESULTS
    ensures 1 <= topK <= 16 ==> k == topK
    ensures topK <= 0 ==> k == 5
    ensures topK > 16 ==> k == 16
  {
    if topK <= 0 then DEFAULT_RESULTS else if topK > MAX_RESULTS then MAX_RESULTS else topK
  }

  /** mem_search over the vectors of the store, in the order of iteration. */
  method Search(cs: seq<Candidate>, topK: int) returns (results: array<Hit>, n: nat)
    requires forall i :: 0 <= i < |cs| ==> Selects(AllVectors, cs[i].key)
    ensures n <= results.Length && results[..n] == Best(cs, Wanted(topK))
    ensures n == if |Hits(cs)| < Wanted(topK) then |Hits(cs)| else Wanted(topK)
    ensures 1 <= topK <= 16 && |Hits(cs)| >= topK ==> n == topK
    ensures topK <= 0 && |Hits(cs)| >= 5 ==> n == 5
    ensures topK > 16 && |Hits(cs)| >= 16 ==> n == 16
  {
    hide Rank, Hits, Take, Insert;
    var k := Wanted(topK);
    results := new Hit[MAX_RESULTS](_ => Hit(-1.0, 0, 0, 0));
    n := 0;
    var i := 0;
    NothingBest(cs[..0], k);
    while i < |cs|
      invariant 0 <= i <= |cs| && n <= k && fresh(results) && results.Length == MAX_RESULTS
      invariant results[..n] == Best(cs[..i], k) && Descending(results[..n])
      invariant n == Size(cs[..i], k)
    {
      var c := cs[i];
      SkipsExactlySummaries(c.key);
      BestStep(cs, i, k);
      SizeStep(cs, i, k);
      if IsSummary(c.key) || !c.fits {
        i := i + 1;
        continue;
      }
      n := InsertTop(results, n, k, Hit(c.score, c.key.ino, c.key.seqno, i));
      i := i + 1;
    }
    assert cs[..i] == cs;
  }

  function Size(cs: seq<Candidate>, k: nat): nat { if |Hits(cs)| < k then |Hits(cs)| else k }

  lemma SizeStep(cs: seq<Candidate>, i: nat, k: nat)
    requires i < |cs|
    ensures Size(cs[..i + 1], k) == if cs[i].key.MemVector? && cs[i].fits && Size(cs[..i], k) < k then Size(cs[..i], k) + 1 else Size(cs[..i], k)
  {
    assert cs[..i + 1][..i] == cs[..i];
  }

  /** The test the code makes on the key text. */
  predicate IsSummary(k: Key) { |Encode(k)| > 6 && Encode(k)[4..6] == "s:" }

  lemma NothingBest(cs: seq<Candidate>, k: nat)
    requires |cs| == 0
    ensures Best(cs, k) == [] && Size(cs, k) == 0
  {
  }

  /** The results are the first k of the only stable descending order of the hits. */
  lemma SearchRanks(cs: seq<Candidate>, order: seq<Hit>, k: nat)
    requires Ranked(order) && multiset(order) == multiset(Hits(cs))
    ensures Best(cs, k) == Take(order, k)
  {
    hide Rank, Hits;
    HitsExact(cs);
    RankSorts(Hits(cs));
    RankUnique(order, Rank(Hits(cs)));
  }
}
