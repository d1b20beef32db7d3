/** Scoring and ranking in `processar_pdf`: one `(titulo, similaridade,
    link)` triple per reference, `sort(key=score, reverse=True)`, and the
    first five. `calcular_similaridade` (difflib's ratio) is a parameter. */
module Ranking {
  import opened PyStr
  import opened Crossref

  /** How many ranked entries are shown and reported. */
  const Shown := 5

  /** `(ref["titulo"], similaridade, link)` */
  datatype Scored = Scored(title: string, score: real, link: string)

  /** The triple for one reference: the text is compared with
      `titulo + " " + resumo`. */
  function ScoreOf(text: string, r: Reference, sim: (string, string) -> real): Scored {
    Scored(r.title, sim(text, r.title + " " + r.abstractText), r.link)
  }

  function ScoreAll(text: string, refs: seq<Reference>, sim: (string, string) -> real): seq<Scored> {
    seq(|refs|, i requires 0 <= i < |refs| => ScoreOf(text, refs[i], sim))
  }

  /** The scoring loop, appending one triple per reference. */
  method ScoreReferences(text: string, refs: seq<Reference>, sim: (string, string) -> real)
    returns (scored: seq<Scored>)
    ensures |scored| == |refs|
    ensures forall i :: 0 <= i < |refs| ==>
              scored[i].title == refs[i].title && scored[i].link == refs[i].link
              && scored[i].score == sim(text, refs[i].title + " " + refs[i].abstractText)
    ensures scored == ScoreAll(text, refs, sim)
  {
    scored := [];
    var i := 0;
    while i < |refs|
      invariant 0 <= i <= |refs|
      invariant scored == ScoreAll(text, refs[..i], sim)
    {
      var ref := refs[i];
      var textoBase := ref.title + " " + ref.abstractText;
      var similaridade := sim(text, textoBase);
      scored := scored + [Scored(ref.title, similaridade, ref.link)];
      i := i + 1;
    }
    assert refs[..i] == refs;
  }

  /** Non-increasing by score. */
  predicate SortedDesc(s: seq<Scored>) {
    forall i, j :: 0 <= i < j < |s| ==> s[i].score >= s[j].score
  }

  /** The entries of `s` whose score is `k`, in their order in `s`. */
  function WithScore(s: seq<Scored>, k: real): seq<Scored> {
    if s == [] then []
    else (if s[0].score == k then [s[0]] else []) + WithScore(s[1..], k)
  }

  /** `r` lists, for every score, the same entries in the same order as `s`:
      equal scores keep their relative order. */
  ghost predicate SameOrderPerScore(r: seq<Scored>, s: seq<Scored>) {
    forall k :: WithScore(r, k) == WithScore(s, k)
  }

  /** Places `x` before the first entry that does not score above it. */
  function Insert(x: Scored, s: seq<Scored>): seq<Scored> {
    if s == [] then [x]
    else if x.score >= s[0].score then [x] + s
    else [s[0]] + Insert(x, s[1..])
  }

  /** Python's stable `list.sort(key=lambda x: x[1], reverse=True)`. */
  function SortByScoreDesc(s: seq<Scored>): seq<Scored> {
    if s == [] then [] else Insert(s[0], SortByScoreDesc(s[1..]))
  }

  lemma {:induction false} InsertSorted(x: Scored, s: seq<Scored>)
    requires SortedDesc(s)
    ensures SortedDesc(Insert(x, s))
    ensures Insert(x, s) != [] && (Insert(x, s)[0] == x || (s != [] && Insert(x, s)[0] == s[0]))
  {
    if s != [] && x.score < s[0].score {
      InsertSorted(x, s[1..]);
    }
  }

  lemma {:induction false} InsertPermutes(x: Scored, s: seq<Scored>)
    ensures multiset(Insert(x, s)) == multiset([x] + s)
  {
    if s != [] && x.score < s[0].score {
      InsertPermutes(x, s[1..]);
      assert s == [s[0]] + s[1..];
    }
  }

  lemma {:induction false} InsertKeepsOrderPerScore(x: Scored, s: seq<Scored>, k: real)
    ensures WithScore(Insert(x, s), k) == WithScore([x] + s, k)
  {
    if s != [] && x.score < s[0].score {
      var s0, s1 := s[0], s[1..];
      var t := Insert(x, s1);
      assert Insert(x, s) == [s0] + t;
      assert s == [s0] + s1;
      InsertKeepsOrderPerScore(x, s1, k);
      if x.score == k {
        calc {
          WithScore([s0] + t, k);
          == { WithScoreSkip(s0, t, k); }
          WithScore(t, k);
          == WithScore([x] + s1, k);
          == { WithScoreKeep(x, s1, k); }
          [x] + WithScore(s1, k);
          == { WithScoreSkip(s0, s1, k); }
          [x] + WithScore([s0] + s1, k);
          == { WithScoreKeep(x, s, k); }
          WithScore([x] + s, k);
        }
      } else {
        WithScoreSkip(x, s1, k);
        WithScoreSkip(x, s, k);
        if s0.score == k {
          WithScoreKeep(s0, t, k);
          WithScoreKeep(s0, s1, k);
        } else {
          WithScoreSkip(s0, t, k);
          WithScoreSkip(s0, s1, k);
        }
      }
    }
  }

  lemma WithScoreKeep(y: Scored, t: seq<Scored>, k: real)
    requires y.score == k
    ensures WithScore([y] + t, k) == [y] + WithScore(t, k)
  {
    assert ([y] + t)[1..] == t;
  }

  lemma WithScoreSkip(y: Scored, t: seq<Scored>, k: real)
    requires y.score != k
    ensures WithScore([y] + t, k) == WithScore(t, k)
  {
    assert ([y] + t)[1..] == t;
  }

  /** The ranked list is non-increasing by score. */
  lemma {:induction false} SortIsSorted(s: seq<Scored>)
    ensures SortedDesc(SortByScoreDesc(s))
  {
    if s != [] {
      SortIsSorted(s[1..]);
      InsertSorted(s[0], SortByScoreDesc(s[1..]));
    }
  }

  /** The ranked list is a permutation of the scored list. */
  lemma {:induction false} SortPermutes(s: seq<Scored>)
    ensures multiset(SortByScoreDesc(s)) == multiset(s)
  {
    if s != [] {
      SortPermutes(s[1..]);
      InsertPermutes(s[0], SortByScoreDesc(s[1..]));
      assert s == [s[0]] + s[1..];
    }
  }

  /** The sort is stable: entries with equal scores keep their order. */
  lemma {:induction false} SortIsStable(s: seq<Scored>)
    ensures SameOrderPerScore(SortByScoreDesc(s), s)
  {
    if s != [] {
      SortIsStable(s[1..]);
      forall k ensures WithScore(SortByScoreDesc(s), k) == WithScore(s, k) {
        InsertKeepsOrderPerScore(s[0], SortByScoreDesc(s[1..]), k);
        assert s == [s[0]] + s[1..];
      }
    }
  }

  /** Two lists sorted by score that agree score by score are equal. */
  lemma {:induction false} SortedStableUnique(a: seq<Scored>, b: seq<Scored>)
    requires SortedDesc(a) && SortedDesc(b)
    requires SameOrderPerScore(a, b)
    ensures a == b
    decreases |a|
  {
    if a == [] || b == [] {
      EmptyTogether(a, b);
    } else {
      HeadsAgree(a, b);
      TailsAgree(a, b);
      SortedTail(a);
      SortedTail(b);
      SortedStableUnique(a[1..], b[1..]);
      assert a == [a[0]] + a[1..] && b == [b[0]] + b[1..];
    }
  }

  lemma SortedTail(s: seq<Scored>)
    requires SortedDesc(s) && s != []
    ensures SortedDesc(s[1..])
  {
    forall i, j | 0 <= i < j < |s| - 1 ensures s[1..][i].score >= s[1..][j].score {
      assert s[1..][i] == s[i + 1] && s[1..][j] == s[j + 1];
    }
  }

  lemma EmptyTogether(a: seq<Scored>, b: seq<Scored>)
    requires SameOrderPerScore(a, b)
    ensures a == [] <==> b == []
  {
    if a != [] {
      assert WithScore(a, a[0].score) != [];
      assert WithScore(b, a[0].score) != [];
    }
    if b != [] {
      assert WithScore(b, b[0].score) != [];
      assert WithScore(a, b[0].score) != [];
    }
  }

  lemma HeadsAgree(a: seq<Scored>, b: seq<Scored>)
    requires SortedDesc(a) && SortedDesc(b) && a != [] && b != []
    requires SameOrderPerScore(a, b)
    ensures a[0] == b[0]
  {
    var ka, kb := a[0].score, b[0].score;
    var wa, wb := WithScore(a, ka), WithScore(b, kb);
    assert wa != [] && wb != [];
    assert WithScore(b, ka) == wa;
    assert WithScore(a, kb) == wb;
    WithScoreHead(b, ka);
    WithScoreHead(a, kb);
    assert ka == kb;
    assert wa[0] == a[0] && WithScore(b, ka)[0] == b[0];
  }

  /** In a sorted list, a score that occurs is at most the head's. */
  lemma WithScoreHead(s: seq<Scored>, k: real)
    requires SortedDesc(s) && s != [] && WithScore(s, k) != []
    ensures k <= s[0].score
  {
    var y := WithScore(s, k)[0];
    WithScoreMember(s, k, y);
    var j :| 0 <= j < |s| && s[j] == y;
  }

  /** The entries kept for a score are entries of the list with that score. */
  lemma {:induction false} WithScoreMember(s: seq<Scored>, k: real, y: Scored)
    requires y in WithScore(s, k)
    ensures y in s && y.score == k
  {
    if s != [] && !(s[0].score == k && y == s[0]) {
      WithScoreMember(s[1..], k, y);
    }
  }

  lemma TailsAgree(a: seq<Scored>, b: seq<Scored>)
    requires a != [] && b != [] && a[0] == b[0]
    requires SameOrderPerScore(a, b)
    ensures SameOrderPerScore(a[1..], b[1..])
  {
    forall k ensures WithScore(a[1..], k) == WithScore(b[1..], k) {
      var h := if a[0].score == k then [a[0]] else [];
      assert WithScore(a, k) == WithScore(b, k);
      assert WithScore(a, k) == h + WithScore(a[1..], k);
      assert WithScore(b, k) == h + WithScore(b[1..], k);
      assert (h + WithScore(a[1..], k))[|h|..] == WithScore(a[1..], k);
      assert (h + WithScore(b[1..], k))[|h|..] == WithScore(b[1..], k);
    }
  }

  /** The ranking is determined by its two properties: any arrangement of
      the scored list that is sorted by score and keeps equal scores in
      their original order is the ranked list. */
  lemma RankingIsUnique(s: seq<Scored>, r: seq<Scored>)
    requires SortedDesc(r) && SameOrderPerScore(r, s)
    ensures r == SortByScoreDesc(s)
  {
    SortIsSorted(s);
    SortIsStable(s);
    SortedStableUnique(r, SortByScoreDesc(s));
  }

  /** `referencias_com_similaridade[:5]` */
  function Top(s: seq<Scored>): seq<Scored> {
    s[..Min(Shown, |s|)]
  }

  /** The shown entries are the first min(5, n) ranked entries, and no
      entry of the scored list left out of them scores higher than any
      shown entry. */
  lemma TopAreBest(scored: seq<Scored>)
    ensures var shown := Top(SortByScoreDesc(scored));
            |shown| == Min(Shown, |scored|)
            && multiset(shown) <= multiset(scored)
            && forall x, y :: x in shown && y in multiset(scored) - multiset(shown) ==> x.score >= y.score
  {
    var ranked := SortByScoreDesc(scored);
    SortPermutes(scored);
    SortIsSorted(scored);
    var n := Min(Shown, |ranked|);
    SplitMultiset(ranked, n);
    forall x: Scored, y: Scored | x in ranked[..n] && y in multiset(scored) - multiset(ranked[..n])
      ensures x.score >= y.score
    {
      PrefixOutranksSuffix(ranked, n, x, y);
    }
  }

  lemma SplitMultiset(s: seq<Scored>, n: nat)
    requires n <= |s|
    ensures multiset(s) - multiset(s[..n]) == multiset(s[n..])
    ensures multiset(s[..n]) <= multiset(s)
  {
    assert s == s[..n] + s[n..];
  }

  lemma PrefixOutranksSuffix(ranked: seq<Scored>, n: nat, x: Scored, y: Scored)
    requires SortedDesc(ranked) && n <= |ranked|
    requires x in ranked[..n] && y in multiset(ranked[n..])
    ensures x.score >= y.score
  {
    var i :| 0 <= i < n && ranked[..n][i] == x;
    var j :| 0 <= j < |ranked| - n && ranked[n..][j] == y;
    assert ranked[i] == x && ranked[n + j] == y;
  }
}
