/** `fuzzyScore`: how well a search query matches a bookmark or project field.
    A case-insensitive substring scores 1000 minus its position; otherwise the
    query's characters are matched greedily, left to right, as a subsequence
    of the target, each match earning 10 when it directly follows the previous
    one, 8 when it starts a word, and 1 otherwise; no subsequence scores -1. */
module Utils {
  import opened Chars

  /** The characters of the regular expression `[\s\-_.]`. */
  predicate IsSeparator(c: char)
  {
    IsWhitespace(c) || c == '-' || c == '_' || c == '.'
  }

  /** `ps` places each character of `q` at a position of `t`, in increasing order. */
  predicate Embeds(q: string, t: string, ps: seq<nat>)
  {
    && |ps| == |q|
    && (forall k :: 0 <= k < |ps| ==> ps[k] < |t| && t[ps[k]] == q[k])
    && (forall k :: 0 < k < |ps| ==> ps[k - 1] < ps[k])
  }

  /** `q` is a subsequence of `t`. */
  ghost predicate IsSubsequence(q: string, t: string)
  {
    exists ps :: Embeds(q, t, ps)
  }

  /** The first position at or after `from` that holds `c`. */
  function NextMatch(c: char, t: string, from: nat): (r: Option<nat>)
    ensures r.Some? ==> from <= r.value < |t| && t[r.value] == c
    ensures r.Some? ==> forall j :: from <= j < r.value ==> t[j] != c
    ensures r.None? ==> forall j :: from <= j < |t| ==> t[j] != c
    decreases |t| - from
  {
    if from >= |t| then None
    else if t[from] == c then Some(from)
    else NextMatch(c, t, from + 1)
  }

  /** Where the search for the next query character starts. */
  function After(ps: seq<nat>): nat
  {
    if ps == [] then 0 else ps[|ps| - 1] + 1
  }

  /** The greedy left-to-right matching: each query character at the first
      position after the previous match. */
  function Greedy(q: string, t: string): (r: Option<seq<nat>>)
    ensures r.Some? ==> Embeds(q, t, r.value)
    decreases |q|
  {
    if q == [] then Some([])
    else
      match Greedy(q[..|q| - 1], t)
      case None => None
      case Some(ps) =>
        match NextMatch(q[|q| - 1], t, After(ps))
        case None => None
        case Some(p) => Some(ps + [p])
  }

  /** The points a match at `p` earns, `prev` being the previous match (-1 if
      none): 10 right after it, 8 after a separator, 1 otherwise. The start of
      the target counts as "right after" -1. */
  function Bonus(t: string, prev: int, p: nat): (b: int)
    ensures 1 <= b <= 10
  {
    if prev == p - 1 then 10
    else if 1 <= p <= |t| && IsSeparator(t[p - 1]) then 8
    else 1
  }

  /** The points earned by the matches `ps`. */
  function ScoreOf(t: string, ps: seq<nat>): int
    decreases |ps|
  {
    if ps == [] then 0
    else
      var prev: int := if |ps| == 1 then -1 else ps[|ps| - 2];
      ScoreOf(t, ps[..|ps| - 1]) + Bonus(t, prev, ps[|ps| - 1])
  }

  /** What `fuzzyScore(q, target)` returns. */
  function FuzzyScoreOf(q: string, target: string): int
  {
    var ql := Lower(q);
    var tl := Lower(target);
    var i := IndexOf(ql, tl);
    if i >= 0 then 1000 - i
    else
      match Greedy(ql, tl)
      case None => -1
      case Some(ps) => ScoreOf(tl, ps)
  }

  /** `fuzzyScore`. */
  method FuzzyScore(q: string, target: string) returns (score: int)
    ensures score == FuzzyScoreOf(q, target)
  {
    var ql := Lower(q);
    var tl := Lower(target);
    var found := IndexOf(ql, tl);
    if found >= 0 {
      return 1000 - found;
    }
    score := SubsequenceScore(ql, tl);
  }

  /** What holds between iterations of the loop of `fuzzyScore`: the first
      `qi` query characters are matched greedily at `ps`, `last` is the last
      of them, nothing between it and `ti` matches the next one, and `score`
      is what `ps` earns. */
  ghost predicate Scanned(ql: string, tl: string, ti: nat, qi: nat, last: int, score: int, ps: seq<nat>)
  {
    && qi <= |ql| && ti <= |tl|
    && Greedy(ql[..qi], tl) == Some(ps) && |ps| == qi
    && last == (if qi == 0 then -1 else ps[qi - 1])
    && After(ps) <= ti
    && (qi < |ql| ==> forall j :: After(ps) <= j < ti ==> tl[j] != ql[qi])
    && score == ScoreOf(tl, ps)
  }

  /** The loop of `fuzzyScore`, run on the lower-cased query and target. */
  method SubsequenceScore(ql: string, tl: string) returns (score: int)
    ensures score == match Greedy(ql, tl) case None => -1 case Some(ps) => ScoreOf(tl, ps)
  {
    var qi := 0;
    var last := -1;
    score := 0;
    ghost var ps: seq<nat> := [];
    var ti := 0;
    while ti < |tl| && qi < |ql|
      invariant Scanned(ql, tl, ti, qi, last, score, ps)
      decreases |tl| - ti
    {
      if tl[ti] == ql[qi] {
        ScanMatch(ql, tl, ti, qi, last, score, ps);
        score := score + Bonus(tl, last, ti);
        last := ti;
        ps := ps + [ti];
        qi := qi + 1;
      } else {
        ScanPast(ql, tl, ti, qi, last, score, ps);
      }
      ti := ti + 1;
    }
    if qi == |ql| {
      assert ql[..qi] == ql;
    } else {
      GreedyStuck(ql, tl, qi, ps);
      score := -1;
    }
  }

  /** A target character that is not the next query character is skipped. */
  lemma ScanPast(ql: string, tl: string, ti: nat, qi: nat, last: int, score: int, ps: seq<nat>)
    requires Scanned(ql, tl, ti, qi, last, score, ps)
    requires ti < |tl| && qi < |ql| && tl[ti] != ql[qi]
    ensures Scanned(ql, tl, ti + 1, qi, last, score, ps)
  {
  }

  /** A target character that is the next query character is matched. */
  lemma ScanMatch(ql: string, tl: string, ti: nat, qi: nat, last: int, score: int, ps: seq<nat>)
    requires Scanned(ql, tl, ti, qi, last, score, ps)
    requires ti < |tl| && qi < |ql| && tl[ti] == ql[qi]
    ensures Scanned(ql, tl, ti + 1, qi + 1, ti, score + Bonus(tl, last, ti), ps + [ti])
  {
    GreedyStep(ql, tl, qi, ps, ti);
  }

  /** One matched character of the loop extends the greedy matching by the
      current position and adds its bonus. */
  lemma GreedyStep(q: string, t: string, qi: nat, ps: seq<nat>, ti: nat)
    requires qi < |q| && ti < |t| && t[ti] == q[qi]
    requires Greedy(q[..qi], t) == Some(ps) && |ps| == qi && After(ps) <= ti
    requires forall j :: After(ps) <= j < ti ==> t[j] != q[qi]
    ensures Greedy(q[..qi + 1], t) == Some(ps + [ti])
    ensures ScoreOf(t, ps + [ti]) == ScoreOf(t, ps) + Bonus(t, if qi == 0 then -1 else ps[qi - 1], ti)
  {
    var q' := q[..qi + 1];
    assert q'[..|q'| - 1] == q[..qi] && q'[|q'| - 1] == q[qi];
    NextMatchAt(q[qi], t, After(ps), ti);
    GreedySnoc(q', t, ps, ti);
    ScoreExtends(t, ps, ti);
  }

  /** The first position from `from` on that holds `c` is the next match. */
  lemma NextMatchAt(c: char, t: string, from: nat, p: nat)
    requires from <= p < |t| && t[p] == c
    requires forall j :: from <= j < p ==> t[j] != c
    ensures NextMatch(c, t, from) == Some(p)
  {
  }

  /** The greedy matching of a query is that of all but its last character,
      extended by the next match of the last one. */
  lemma GreedySnoc(q: string, t: string, ps: seq<nat>, p: nat)
    requires q != [] && Greedy(q[..|q| - 1], t) == Some(ps)
    requires NextMatch(q[|q| - 1], t, After(ps)) == Some(p)
    ensures Greedy(q, t) == Some(ps + [p])
  {
  }

  /** The points of one more match. */
  lemma ScoreExtends(t: string, ps: seq<nat>, p: nat)
    ensures ScoreOf(t, ps + [p]) == ScoreOf(t, ps) + Bonus(t, if ps == [] then -1 else ps[|ps| - 1], p)
  {
    var ps' := ps + [p];
    assert ps'[..|ps'| - 1] == ps && ps'[|ps'| - 1] == p;
    if ps != [] {
      assert ps'[|ps'| - 2] == ps[|ps| - 1];
    }
  }

  /** The loop ran out of target before the query: the greedy matching fails. */
  lemma GreedyStuck(q: string, t: string, qi: nat, ps: seq<nat>)
    requires qi < |q| && Greedy(q[..qi], t) == Some(ps)
    requires forall j :: After(ps) <= j < |t| ==> t[j] != q[qi]
    ensures Greedy(q, t).None?
  {
    assert q[..qi + 1][..qi] == q[..qi];
    assert Greedy(q[..qi + 1], t).None?;
    GreedyPrefixNone(q, t, qi + 1);
  }

  // ─── Properties ─────────────────────────────────────────────────────────

  /** Once a prefix of the query fails to match, the whole query fails. */
  lemma {:induction false} GreedyPrefixNone(q: string, t: string, n: nat)
    requires n <= |q| && Greedy(q[..n], t).None?
    ensures Greedy(q, t).None?
    decreases |q| - n
  {
    if n < |q| {
      assert q[..n + 1][..n] == q[..n];
      GreedyPrefixNone(q, t, n + 1);
    } else {
      assert q[..n] == q;
    }
  }

  /** The greedy matching finds an embedding whenever one exists, and each of
      its positions is no later than that embedding's: it is the leftmost. */
  lemma {:induction false} GreedyComplete(q: string, t: string, es: seq<nat>)
    requires Embeds(q, t, es)
    ensures Greedy(q, t).Some?
    ensures forall k :: 0 <= k < |q| ==> Greedy(q, t).value[k] <= es[k]
    decreases |q|
  {
    if q != [] {
      var n := |q| - 1;
      var q' := q[..n];
      var es' := es[..n];
      assert Embeds(q', t, es');
      GreedyComplete(q', t, es');
      var ps := Greedy(q', t).value;
      assert After(ps) <= es[n] by {
        if n > 0 {
          assert ps[n - 1] <= es[n - 1] < es[n];
        }
      }
      var m := NextMatch(q[n], t, After(ps));
      assert m.Some? && m.value <= es[n] by {
        assert t[es[n]] == q[n];
      }
      assert q[..|q| - 1] == q' && q[|q| - 1] == q[n];
      var r := ps + [m.value];
      assert Greedy(q, t) == Some(r);
      forall k | 0 <= k < |q| ensures r[k] <= es[k] {
        if k < n {
          assert r[k] == ps[k] && es'[k] == es[k];
        }
      }
    }
  }

  /** Without a substring hit, the score is -1 exactly when the query is not
      a subsequence of the target (case-insensitively). */
  lemma FuzzyMissIffNotSubsequence(q: string, target: string)
    requires IndexOf(Lower(q), Lower(target)) < 0
    ensures FuzzyScoreOf(q, target) == -1 <==> !IsSubsequence(Lower(q), Lower(target))
  {
    var ql, tl := Lower(q), Lower(target);
    if IsSubsequence(ql, tl) {
      var es :| Embeds(ql, tl, es);
      GreedyComplete(ql, tl, es);
      ScoreBounds(tl, Greedy(ql, tl).value);
    }
  }

  /** Every match earns between 1 and 10 points. */
  lemma {:induction false} ScoreBounds(t: string, ps: seq<nat>)
    ensures |ps| <= ScoreOf(t, ps) <= 10 * |ps|
    decreases |ps|
  {
    if ps != [] {
      ScoreBounds(t, ps[..|ps| - 1]);
    }
  }

  /** The three bands of scores: a substring at position `i` scores
      `1000 - i` (at least `1000 - |target| + |q|`), a subsequence scores
      between `|q|` and `10 * |q|`, anything else -1. */
  lemma FuzzyScoreRange(q: string, target: string)
    ensures var ql, tl := Lower(q), Lower(target);
      var r := FuzzyScoreOf(q, target);
      && (IndexOf(ql, tl) >= 0 ==> 1000 - |target| + |q| <= r <= 1000)
      && (IndexOf(ql, tl) < 0 && IsSubsequence(ql, tl) ==> |q| <= r <= 10 * |q|)
      && (IndexOf(ql, tl) < 0 && !IsSubsequence(ql, tl) ==> r == -1)
  {
    var ql, tl := Lower(q), Lower(target);
    if IndexOf(ql, tl) < 0 {
      FuzzyMissIffNotSubsequence(q, target);
      if IsSubsequence(ql, tl) {
        ScoreBounds(tl, Greedy(ql, tl).value);
      }
    }
  }

  /** Scoring ignores case: lower-casing either side first changes nothing. */
  lemma FuzzyIgnoresCase(q: string, target: string)
    ensures FuzzyScoreOf(Lower(q), Lower(target)) == FuzzyScoreOf(q, target)
  {
    LowerIdempotent(q);
    LowerIdempotent(target);
  }

  /** The empty query is a substring of everything, at position 0. */
  lemma FuzzyEmptyQuery(target: string)
    ensures FuzzyScoreOf("", target) == 1000
  {
    assert OccursAt(Lower(""), Lower(target), 0);
  }

  /** A target that starts with the query (ignoring case) gets the top score. */
  lemma FuzzyPrefixScoresTop(q: string, target: string)
    requires StartsWith(Lower(target), Lower(q))
    ensures FuzzyScoreOf(q, target) == 1000
  {
    assert OccursAt(Lower(q), Lower(target), 0);
  }
}
