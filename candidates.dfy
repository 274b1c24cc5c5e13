/**
 * `find_candidates`: every element the action's filter accepts and whose
 * score is positive, in document order, then sorted by score, highest first.
 * Python's `list.sort(key=score, reverse=True)` is stable, so equal scores
 * keep document order; `SortByScore` is that sort, written as an insertion
 * sort, and `Ranked` is the order it produces.
 */
module Candidates {
  import opened Wrappers
  import opened Tasks
  import opened Dom
  import opened Scoring

  /** One entry of the candidate list: the element and its score. */
  datatype Candidate = Candidate(node: nat, score: nat)

  /** Element `i` passes the action's filter and scores above zero. */
  predicate Found(d: Doc, task: Task, i: nat)
    requires Valid(d) && 1 <= i < |d.nodes|
  {
    Eligible(d.nodes[i], task.action) && Score(d, i, task) > 0
  }

  /** What the walk records for each node: the score of a found element, `None` for the rest (and the root). */
  function Outcomes(d: Doc, task: Task): (o: seq<Option<nat>>)
    requires Valid(d)
    ensures |o| == |d.nodes|
  {
    seq(|d.nodes|, i requires 0 <= i < |d.nodes| =>
      if 1 <= i && Found(d, task, i) then Some(Score(d, i, task)) else None)
  }

  /** The recorded entries among nodes `0 .. k-1`, in document order. */
  function Gather(o: seq<Option<nat>>, k: nat): seq<Candidate>
    requires k <= |o|
  {
    if k == 0 then []
    else
      var last := if o[k - 1].Some? then [Candidate(k - 1, o[k - 1].value)] else [];
      Gather(o, k - 1) + last
  }

  /** The candidate list before sorting. */
  function Discovered(d: Doc, task: Task): seq<Candidate>
    requires Valid(d)
  {
    Gather(Outcomes(d, task), |d.nodes|)
  }

  // ---------------------------------------------------------------
  // The stable sort
  // ---------------------------------------------------------------

  /** Places `x` after every entry scoring at least as much, before the first that scores less. */
  function Insert(x: Candidate, s: seq<Candidate>): seq<Candidate> {
    if s == [] then [x]
    else if s[0].score < x.score then [x] + s
    else [s[0]] + Insert(x, s[1..])
  }

  /** `sort(key=score, reverse=True)`: each entry in turn is inserted into the sorted prefix. */
  function SortByScore(s: seq<Candidate>): seq<Candidate> {
    if s == [] then []
    else Insert(s[|s| - 1], SortByScore(s[..|s| - 1]))
  }

  /** `a` comes before `b` in the sorted list: a higher score, or the same score and an earlier node. */
  predicate Before(a: Candidate, b: Candidate) {
    a.score > b.score || (a.score == b.score && a.node < b.node)
  }

  /** Higher scores first; equal scores in document order. */
  predicate Ranked(s: seq<Candidate>) {
    forall i, j :: 0 <= i < j < |s| ==> Before(s[i], s[j])
  }

  /** Strictly increasing node indices, as the walk over the document yields them. */
  predicate Increasing(s: seq<Candidate>) {
    forall i, j :: 0 <= i < j < |s| ==> s[i].node < s[j].node
  }

  lemma {:induction false} InsertPerm(x: Candidate, s: seq<Candidate>)
    ensures multiset(Insert(x, s)) == multiset(s) + multiset{x}
    ensures |Insert(x, s)| == |s| + 1
  {
    if s != [] && s[0].score >= x.score {
      InsertPerm(x, s[1..]);
      assert s == [s[0]] + s[1..];
    }
  }

  lemma {:induction false} InsertRanked(x: Candidate, s: seq<Candidate>)
    requires Ranked(s)
    requires forall c :: c in s ==> c.node < x.node
    ensures Ranked(Insert(x, s))
  {
    if s == [] {
    } else if s[0].score < x.score {
      var q := Insert(x, s);
      forall i, j | 0 <= i < j < |q| ensures Before(q[i], q[j]) {
        if i > 0 {
          assert q[i] == s[i - 1] && q[j] == s[j - 1];
        } else if j > 1 {
          assert Before(s[0], s[j - 1]);
        }
      }
    } else {
      var t := s[1..];
      InsertRanked(x, t);
      var r := Insert(x, t);
      HeadBefore(x, s);
      var q := Insert(x, s);
      assert q == [s[0]] + r;
      forall i, j | 0 <= i < j < |q| ensures Before(q[i], q[j]) {
        if i == 0 {
          assert q[j] == r[j - 1] && r[j - 1] in r;
        } else {
          assert q[i] == r[i - 1] && q[j] == r[j - 1];
        }
      }
    }
  }

  /** When `x` goes behind the head of `s`, the head comes before everything in the rest of the insertion. */
  lemma HeadBefore(x: Candidate, s: seq<Candidate>)
    requires Ranked(s) && s != [] && s[0].score >= x.score
    requires forall c :: c in s ==> c.node < x.node
    ensures forall c :: c in Insert(x, s[1..]) ==> Before(s[0], c)
  {
    var t := s[1..];
    InsertPerm(x, t);
    forall c | c in Insert(x, t) ensures Before(s[0], c) {
      assert c in multiset(Insert(x, t));
      if c != x {
        assert c in multiset(t);
        var j :| 0 <= j < |t| && t[j] == c;
        assert s[j + 1] == c;
      }
    }
  }

  /** The sort keeps exactly the entries it was given. */
  lemma {:induction false} SortPerm(s: seq<Candidate>)
    ensures multiset(SortByScore(s)) == multiset(s)
    ensures |SortByScore(s)| == |s|
  {
    if s != [] {
      var p := s[..|s| - 1];
      SortPerm(p);
      InsertPerm(s[|s| - 1], SortByScore(p));
      assert s == p + [s[|s| - 1]];
    }
  }

  /** Sorting entries that arrive in document order ranks them: score first, document order on ties. */
  lemma {:induction false} SortRanked(s: seq<Candidate>)
    requires Increasing(s)
    ensures Ranked(SortByScore(s))
  {
    if s != [] {
      var p := s[..|s| - 1];
      var x := s[|s| - 1];
      SortRanked(p);
      SortPerm(p);
      forall c | c in SortByScore(p) ensures c.node < x.node {
        assert c in multiset(p);
        var j :| 0 <= j < |p| && p[j] == c;
        assert s[j] == c;
      }
      InsertRanked(x, SortByScore(p));
    }
  }

  /** Two ranked arrangements of the same entries are equal: ranking fixes the order completely. */
  lemma {:induction false} RankedUnique(a: seq<Candidate>, b: seq<Candidate>)
    requires Ranked(a) && Ranked(b) && multiset(a) == multiset(b)
    ensures a == b
    decreases |a|
  {
    if a != [] {
      RankedHead(a, b);
      TailMultiset(a);
      TailMultiset(b);
      RankedUnique(a[1..], b[1..]);
      assert a == [a[0]] + a[1..] && b == [b[0]] + b[1..];
    } else {
      assert |b| == |multiset(b)| == 0;
    }
  }

  /** Two ranked arrangements of the same entries start with the same entry. */
  lemma RankedHead(a: seq<Candidate>, b: seq<Candidate>)
    requires Ranked(a) && Ranked(b) && multiset(a) == multiset(b) && a != []
    ensures b != [] && a[0] == b[0]
  {
    assert a[0] in multiset(b);
    var k :| 0 <= k < |b| && b[k] == a[0];
    assert b[0] in multiset(a);
    var m :| 0 <= m < |a| && a[m] == b[0];
    assert k == 0;
  }

  lemma TailMultiset(a: seq<Candidate>)
    requires a != []
    ensures multiset(a[1..]) == multiset(a) - multiset{a[0]}
  {
    assert a == [a[0]] + a[1..];
  }

  /** The sorted list is the one ranked arrangement of the discovered entries. */
  lemma SortIsRanking(s: seq<Candidate>, r: seq<Candidate>)
    requires Increasing(s) && Ranked(r) && multiset(r) == multiset(s)
    ensures r == SortByScore(s)
  {
    SortPerm(s);
    SortRanked(s);
    RankedUnique(r, SortByScore(s));
  }

  // ---------------------------------------------------------------
  // Discovery
  // ---------------------------------------------------------------

  /** The gathered entries are exactly the recorded ones below `k`, in document order. */
  lemma {:induction false} GatherSpec(o: seq<Option<nat>>, k: nat)
    requires k <= |o|
    ensures Increasing(Gather(o, k))
    ensures forall c :: c in Gather(o, k) <==> c.node < k && o[c.node] == Some(c.score)
  {
    if k > 0 {
      GatherSpec(o, k - 1);
      var p := Gather(o, k - 1);
      var s := Gather(o, k);
      forall i, j | 0 <= i < j < |s| ensures s[i].node < s[j].node {
        if j < |p| {
          assert s[i] == p[i] && s[j] == p[j];
        } else {
          assert s[i] == p[i] && p[i] in p;
        }
      }
    }
  }

  /** `c` is the entry of a found element: its node passes the filter and `c` carries its positive score. */
  predicate IsCandidate(d: Doc, task: Task, c: Candidate)
    requires Valid(d)
  {
    1 <= c.node < |d.nodes| && Found(d, task, c.node) && c.score == Score(d, c.node, task)
  }

  /** The unsorted list holds exactly the found elements, each once, in document order. */
  lemma DiscoveredSpec(d: Doc, task: Task)
    requires Valid(d)
    ensures Increasing(Discovered(d, task))
    ensures forall c :: c in Discovered(d, task) <==> IsCandidate(d, task, c)
  {
    var o := Outcomes(d, task);
    GatherSpec(o, |d.nodes|);
    forall c ensures c in Discovered(d, task) <==> IsCandidate(d, task, c) {
      if c.node < |d.nodes| {
        assert o[c.node] == if 1 <= c.node && Found(d, task, c.node) then Some(Score(d, c.node, task)) else None;
      }
    }
  }

  /** One step of the walk: the filter, then the scorer, keeping positive scores. */
  method Visit(d: Doc, task: Task, i: nat) returns (entry: Option<nat>)
    requires Valid(d) && 1 <= i < |d.nodes|
    ensures entry == Outcomes(d, task)[i]
  {
    entry := None;
    if Eligible(d.nodes[i], task.action) {
      var sc := ScoreTask(d, i, task);
      if sc > 0 {
        entry := Some(sc);
      }
    }
  }

  /** The walk of `find_candidates` over the document, before the sort. */
  method Walk(d: Doc, task: Task) returns (found: seq<Candidate>)
    requires Valid(d)
    ensures found == Discovered(d, task)
  {
    ghost var o := Outcomes(d, task);
    found := [];
    var i := 1;
    while i < |d.nodes|
      invariant 1 <= i <= |d.nodes|
      invariant found == Gather(o, i)
    {
      var entry := Visit(d, task, i);
      if entry.Some? {
        found := found + [Candidate(i, entry.value)];
      }
      i := i + 1;
    }
  }

  /** `find_candidates`. */
  method FindCandidates(d: Doc, task: Task) returns (cands: seq<Candidate>)
    requires Valid(d)
    ensures cands == SortByScore(Discovered(d, task))
    ensures Ranked(cands)
    ensures forall c :: c in cands <==> IsCandidate(d, task, c)
  {
    var found := Walk(d, task);
    cands := SortByScore(found);
    DiscoveredSpec(d, task);
    SortPerm(found);
    SortRanked(found);
    forall c ensures c in cands <==> c in found {
      assert c in cands <==> c in multiset(cands);
      assert c in found <==> c in multiset(found);
    }
  }
}
