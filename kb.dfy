/**
  The knowledge base of the automated player as values: the active clause
  set `kb` and the settled literals `kb0`. These functions are what the
  imperative `Player` methods are proved against, and the lemmas here are
  the properties the reasoner relies on: minimality under insertion,
  idempotent insertion, and soundness of every update with respect to the
  real mine layout.
*/
module KnowledgeBase {
  import opened Logic

  /** No clause of `kb` is a literal-subset of another one. */
  predicate Minimal(kb: set<Clause>)
  {
    forall c1, c2 :: c1 in kb && c2 in kb && c1 != c2 ==> !CheckSubsumption(c1, c2)
  }

  /** Every literal of `c` names a cell id in `0 .. cells - 1`. */
  predicate ClauseIdsWithin(c: Clause, cells: int)
  {
    forall l :: l in c ==> 0 <= l.id < cells
  }

  /** Every clause of `kb` names cells in `0 .. cells - 1` only. */
  predicate IdsWithin(kb: set<Clause>, cells: int)
  {
    forall c :: c in kb ==> ClauseIdsWithin(c, cells)
  }

  /** The same, for a sequence of candidate clauses. */
  predicate SeqIdsWithin(cs: seq<Clause>, cells: int)
  {
    forall i :: 0 <= i < |cs| ==> ClauseIdsWithin(cs[i], cells)
  }

  /** Every clause of a sequence of candidate clauses is true under `mines`. */
  predicate SeqSatisfies(mines: set<int>, cs: seq<Clause>)
  {
    forall i :: 0 <= i < |cs| ==> Satisfies(mines, cs[i])
  }

  /** No clause of `kb` mentions a cell whose value `kb0` has settled. */
  predicate AvoidsSettled(kb: set<Clause>, kb0: set<Literal>)
  {
    forall c :: c in kb ==> Ids(c) !! Ids(kb0)
  }

  // ---------------------------------------------------------------------
  // resolution_byKB0

  /**
    Reduction of a candidate clause against the settled literals: `None`
    when the clause already contains a settled literal (it is satisfied);
    otherwise the clause without the literals about settled cells.
  */
  function Reduce(kb0: set<Literal>, c: Clause): (r: Option<Clause>)
  {
    if c * kb0 != {} then None else Some(set l | l in c && l.id !in Ids(kb0))
  }

  /**
    Whenever the settled literals are true, a reduced clause is exactly as
    true as the original: the literals taken out are complements of settled
    literals, hence false.
  */
  lemma {:induction false} ReduceEquivalent(mines: set<int>, kb0: set<Literal>, c: Clause)
    requires HoldsAll(mines, kb0)
    ensures Reduce(kb0, c).None? ==> Satisfies(mines, c)
    ensures Reduce(kb0, c).Some? ==> (Satisfies(mines, c) <==> Satisfies(mines, Reduce(kb0, c).value))
  {
    match Reduce(kb0, c)
    case None =>
      var l :| l in c * kb0;
      assert Holds(mines, l);
    case Some(r) =>
      if Satisfies(mines, c) {
        var l :| l in c && Holds(mines, l);
        assert c * kb0 == {};
        forall k | k in kb0 ensures k.id != l.id {
          assert k != l by { assert l !in c * kb0; }
          assert Holds(mines, k);
        }
        assert l in r;
      }
  }

  // ---------------------------------------------------------------------
  // insertKB

  /**
    Insertion with forward and backward subsumption: the reduced clause is
    dropped when it is `None` or empty, or when some clause of `kb` is a
    literal-subset of it; otherwise every clause it subsumes goes and it
    comes in.
  */
  function Insert(kb: set<Clause>, kb0: set<Literal>, c: Clause): (r: set<Clause>)
  {
    match Reduce(kb0, c)
    case None => kb
    case Some(red) =>
      if red == {} then kb
      else if exists e :: e in kb && CheckSubsumption(e, red) then kb
      else (set e | e in kb && !CheckSubsumption(red, e)) + {red}
  }

  /**
    Once `kb` holds the empty clause, which subsumes every clause, insertion
    drops every candidate.
  */
  lemma InsertBlockedByEmpty(kb: set<Clause>, kb0: set<Literal>, c: Clause)
    requires {} in kb
    ensures Insert(kb, kb0, c) == kb
  {
    match Reduce(kb0, c)
    case None =>
    case Some(red) =>
      if red != {} {
        assert CheckSubsumption({}, red);
      }
  }

  /** Insertion never adds an empty clause. */
  lemma {:induction false} InsertNoEmpty(kb: set<Clause>, kb0: set<Literal>, c: Clause)
    requires {} !in kb
    ensures {} !in Insert(kb, kb0, c)
  {
  }

  /** Insertion keeps `kb` subsumption-minimal. */
  lemma {:induction false} InsertKeepsMinimal(kb: set<Clause>, kb0: set<Literal>, c: Clause)
    requires Minimal(kb)
    ensures Minimal(Insert(kb, kb0, c))
  {
    match Reduce(kb0, c)
    case None =>
    case Some(red) =>
      if red != {} && !(exists e :: e in kb && CheckSubsumption(e, red)) {
        var r := Insert(kb, kb0, c);
        forall c1, c2 | c1 in r && c2 in r && c1 != c2
          ensures !CheckSubsumption(c1, c2)
        {
          if c1 == red {
            assert c2 in kb && !CheckSubsumption(red, c2);
          } else if c2 == red {
            assert c1 in kb;
          }
        }
      }
  }

  /** Inserting the same clause a second time changes nothing. */
  lemma {:induction false} InsertIdempotent(kb: set<Clause>, kb0: set<Literal>, c: Clause)
    ensures Insert(Insert(kb, kb0, c), kb0, c) == Insert(kb, kb0, c)
  {
    match Reduce(kb0, c)
    case None =>
    case Some(red) =>
      if red != {} {
        var once := Insert(kb, kb0, c);
        if !(exists e :: e in kb && CheckSubsumption(e, red)) {
          assert red in once && CheckSubsumption(red, red);
        }
      }
  }

  /**
    Insertion is sound: when the settled literals and `kb` are true of the
    real mine layout and so is the inserted clause, the new `kb` is true of
    it too.
  */
  lemma {:induction false} InsertSound(mines: set<int>, kb: set<Clause>, kb0: set<Literal>, c: Clause)
    requires HoldsAll(mines, kb0) && SatisfiesAll(mines, kb) && Satisfies(mines, c)
    ensures SatisfiesAll(mines, Insert(kb, kb0, c))
  {
    ReduceEquivalent(mines, kb0, c);
  }

  /** The inserted clause only keeps literals of the candidate, so cell ids stay in range. */
  lemma {:induction false} InsertIdsWithin(kb: set<Clause>, kb0: set<Literal>, c: Clause, cells: int)
    requires IdsWithin(kb, cells)
    requires ClauseIdsWithin(c, cells)
    ensures IdsWithin(Insert(kb, kb0, c), cells)
  {
  }

  /** The inserted clause never mentions a settled cell. */
  lemma {:induction false} InsertAvoidsSettled(kb: set<Clause>, kb0: set<Literal>, c: Clause)
    requires AvoidsSettled(kb, kb0)
    ensures AvoidsSettled(Insert(kb, kb0, c), kb0)
  {
    match Reduce(kb0, c)
    case None =>
    case Some(red) =>
      assert Ids(red) !! Ids(kb0) by {
        forall i | i in Ids(red) ensures i !in Ids(kb0) {
          var l :| l in red && l.id == i;
        }
      }
  }

  /** Insertion of every clause of `cs`, in order. */
  function InsertAll(kb: set<Clause>, kb0: set<Literal>, cs: seq<Clause>): (r: set<Clause>)
    decreases |cs|
  {
    if cs == [] then kb else Insert(InsertAll(kb, kb0, cs[..|cs| - 1]), kb0, cs[|cs| - 1])
  }

  lemma {:induction false} InsertAllAppend(kb: set<Clause>, kb0: set<Literal>, cs: seq<Clause>, ds: seq<Clause>)
    ensures InsertAll(kb, kb0, cs + ds) == InsertAll(InsertAll(kb, kb0, cs), kb0, ds)
    decreases |ds|
  {
    if ds == [] {
      assert cs + ds == cs;
    } else {
      assert (cs + ds)[..|cs + ds| - 1] == cs + ds[..|ds| - 1];
      InsertAllAppend(kb, kb0, cs, ds[..|ds| - 1]);
    }
  }

  /** The properties of single insertions carry over to a sequence of them. */
  lemma {:induction false} InsertAllKeeps(mines: set<int>, kb: set<Clause>, kb0: set<Literal>, cs: seq<Clause>, cells: int)
    ensures {} !in kb ==> {} !in InsertAll(kb, kb0, cs)
    ensures Minimal(kb) ==> Minimal(InsertAll(kb, kb0, cs))
    ensures AvoidsSettled(kb, kb0) ==> AvoidsSettled(InsertAll(kb, kb0, cs), kb0)
    ensures IdsWithin(kb, cells) && SeqIdsWithin(cs, cells) ==> IdsWithin(InsertAll(kb, kb0, cs), cells)
    ensures HoldsAll(mines, kb0) && SatisfiesAll(mines, kb) && SeqSatisfies(mines, cs)
            ==> SatisfiesAll(mines, InsertAll(kb, kb0, cs))
    decreases |cs|
  {
    if cs != [] {
      var front := cs[..|cs| - 1];
      var last := cs[|cs| - 1];
      InsertAllKeeps(mines, kb, kb0, front, cells);
      var mid := InsertAll(kb, kb0, front);
      if {} !in kb { InsertNoEmpty(mid, kb0, last); }
      if Minimal(kb) { InsertKeepsMinimal(mid, kb0, last); }
      if AvoidsSettled(kb, kb0) { InsertAvoidsSettled(mid, kb0, last); }
      if IdsWithin(kb, cells) && SeqIdsWithin(cs, cells) {
        assert SeqIdsWithin(front, cells) by {
          forall i | 0 <= i < |front| ensures ClauseIdsWithin(front[i], cells) {
            assert front[i] == cs[i];
          }
        }
        InsertIdsWithin(mid, kb0, last, cells);
      }
      if HoldsAll(mines, kb0) && SatisfiesAll(mines, kb) && SeqSatisfies(mines, cs) {
        assert SeqSatisfies(mines, front) by {
          forall i | 0 <= i < |front| ensures Satisfies(mines, front[i]) {
            assert front[i] == cs[i];
          }
        }
        assert Satisfies(mines, cs[|cs| - 1]);
        InsertSound(mines, mid, kb0, last);
      }
    }
  }

  // ---------------------------------------------------------------------
  // match_remaining_in_KB

  /**
    Unit propagation of a settled literal `l`: the clauses containing `l`
    go (they are satisfied) and the clauses containing its complement lose
    that literal. The shrunk clause is added as it is, with no subsumption
    test, so it may be empty or subsumed by another clause.
  */
  function Propagate(kb: set<Clause>, l: Literal): (r: set<Clause>)
  {
    (set c | c in kb && l !in c && Complement(l) !in c)
    + (set c | c in kb && l !in c && Complement(l) in c :: c - {Complement(l)})
  }

  /** A clause mentions the cell of `l` exactly when it holds `l` or its complement. */
  lemma MentionsCell(c: Clause, l: Literal)
    ensures l.id in Ids(c) <==> l in c || Complement(l) in c
  {
    if l.id in Ids(c) {
      var k :| k in c && k.id == l.id;
      assert k == l || k == Complement(l);
    }
  }

  /**
    The effect of propagation, clause by clause: afterwards no clause
    mentions the cell of `l` (so none contains `l`); a clause that did not
    mention it is still there; a clause that held the complement and not
    `l` is there without the complement; and nothing else is there.
  */
  lemma {:induction false} PropagateEffect(kb: set<Clause>, l: Literal)
    ensures forall c :: c in Propagate(kb, l) ==> l.id !in Ids(c) && l !in c
    ensures forall c :: c in kb && l.id !in Ids(c) ==> c in Propagate(kb, l)
    ensures forall c :: c in kb && l !in c && Complement(l) in c ==> c - {Complement(l)} in Propagate(kb, l)
    ensures forall r :: r in Propagate(kb, l) ==> exists c :: c in kb && l !in c && r == c - {Complement(l)}
  {
    forall c | c in Propagate(kb, l) ensures l.id !in Ids(c) && l !in c {
      MentionsCell(c, l);
    }
    forall c | c in kb && l.id !in Ids(c) ensures c in Propagate(kb, l) {
      MentionsCell(c, l);
    }
    forall r | r in Propagate(kb, l) ensures exists c :: c in kb && l !in c && r == c - {Complement(l)} {
      if r in kb && l !in r && Complement(l) !in r {
        assert r == r - {Complement(l)};
      }
    }
  }

  /**
    Propagating a true literal is sound, and then it cannot produce the
    empty clause: a true clause that loses a false literal keeps a true one.
  */
  lemma {:induction false} PropagateSound(mines: set<int>, kb: set<Clause>, l: Literal)
    requires Holds(mines, l) && SatisfiesAll(mines, kb)
    ensures SatisfiesAll(mines, Propagate(kb, l))
    ensures {} !in Propagate(kb, l)
  {
    ComplementFlips(mines, l);
    forall r | r in Propagate(kb, l) ensures Satisfies(mines, r) {
      PropagateEffect(kb, l);
      var c :| c in kb && l !in c && r == c - {Complement(l)};
      var w :| w in c && Holds(mines, w);
      assert w in r;
    }
  }

  /** Propagation keeps cell ids in range and keeps settled cells, now with `l`'s, out of `kb`. */
  lemma {:induction false} PropagateKeeps(kb: set<Clause>, kb0: set<Literal>, l: Literal, cells: int)
    ensures IdsWithin(kb, cells) ==> IdsWithin(Propagate(kb, l), cells)
    ensures AvoidsSettled(kb, kb0) ==> AvoidsSettled(Propagate(kb, l), kb0 + {l})
  {
    PropagateEffect(kb, l);
    if AvoidsSettled(kb, kb0) {
      forall r | r in Propagate(kb, l) ensures Ids(r) !! Ids(kb0 + {l}) {
        var c :| c in kb && l !in c && r == c - {Complement(l)};
        forall i | i in Ids(r) ensures i !in Ids(kb0 + {l}) {
          var k :| k in r && k.id == i;
          assert k in c;
          assert i in Ids(c);
          assert i != l.id;
        }
      }
    }
  }

  // ---------------------------------------------------------------------
  // pair_wise_matching

  /**
    What one pair contributes: its resolvent, when one of the two clauses
    is binary and they have exactly one complementary pair; otherwise nothing.
  */
  function ResolveStep(c1: Clause, c2: Clause): (r: seq<Clause>)
  {
    if (|c1| == 2 || |c2| == 2) && |Pivots(c1, c2)| == 1 then [Resolvent(c1, c2)] else []
  }

  /** The contributions of the pairs `(list[i], list[k])` for `i < k < j`, in order. */
  function Row(list: seq<Clause>, i: nat, j: nat): (r: seq<Clause>)
    requires i < |list| && j <= |list|
    decreases j
  {
    if j <= i + 1 then [] else Row(list, i, j - 1) + ResolveStep(list[i], list[j - 1])
  }

  /** The contributions of all pairs whose first index is below `i`, in the order of the double loop. */
  function Rows(list: seq<Clause>, i: nat): (r: seq<Clause>)
    requires i <= |list|
  {
    if i == 0 then [] else Rows(list, i - 1) + Row(list, i - 1, |list|)
  }

  /** One more pair of the inner loop: the insertions so far followed by that pair's. */
  lemma InsertRowStep(start: set<Clause>, kb0: set<Literal>, list: seq<Clause>, i: nat, j: nat,
                      mid: set<Clause>, after: set<Clause>)
    requires i < j < |list|
    requires mid == InsertAll(start, kb0, Row(list, i, j))
    requires after == InsertAll(mid, kb0, ResolveStep(list[i], list[j]))
    ensures after == InsertAll(start, kb0, Row(list, i, j + 1))
  {
    assert Row(list, i, j + 1) == Row(list, i, j) + ResolveStep(list[i], list[j]);
    InsertAllAppend(start, kb0, Row(list, i, j), ResolveStep(list[i], list[j]));
  }

  /** One more row of the outer loop. */
  lemma InsertRowsStep(start: set<Clause>, kb0: set<Literal>, list: seq<Clause>, i: nat,
                       mid: set<Clause>, after: set<Clause>)
    requires i < |list|
    requires mid == InsertAll(start, kb0, Rows(list, i))
    requires after == InsertAll(mid, kb0, Row(list, i, |list|))
    ensures after == InsertAll(start, kb0, Rows(list, i + 1))
  {
    InsertAllAppend(start, kb0, Rows(list, i), Row(list, i, |list|));
  }

  /** A clause that came out of a pair with its qualifying conditions. */
  ghost predicate ResolvedFrom(list: seq<Clause>, r: Clause)
  {
    exists i, j :: 0 <= i < j < |list| && ResolveStep(list[i], list[j]) == [r]
  }

  lemma {:induction false} RowProvenance(list: seq<Clause>, i: nat, j: nat)
    requires i < |list| && j <= |list|
    ensures forall k :: 0 <= k < |Row(list, i, j)| ==> ResolvedFrom(list, Row(list, i, j)[k])
    decreases j
  {
    if j > i + 1 {
      RowProvenance(list, i, j - 1);
      var front, step := Row(list, i, j - 1), ResolveStep(list[i], list[j - 1]);
      forall k | 0 <= k < |front + step| ensures ResolvedFrom(list, (front + step)[k]) {
        if k >= |front| {
          assert step == [(front + step)[k]];
        } else {
          assert (front + step)[k] == front[k];
        }
      }
    }
  }

  lemma {:induction false} RowsProvenance(list: seq<Clause>, i: nat)
    requires i <= |list|
    ensures forall k :: 0 <= k < |Rows(list, i)| ==> ResolvedFrom(list, Rows(list, i)[k])
  {
    if i > 0 {
      RowsProvenance(list, i - 1);
      RowProvenance(list, i - 1, |list|);
      var front, row := Rows(list, i - 1), Row(list, i - 1, |list|);
      forall k | 0 <= k < |front + row| ensures ResolvedFrom(list, (front + row)[k]) {
        if k >= |front| {
          assert (front + row)[k] == row[k - |front|];
        } else {
          assert (front + row)[k] == front[k];
        }
      }
    }
  }

  /**
    Every clause the pairwise pass derives from `list` is non-empty, names
    only cells of its parents, and is true under every assignment that makes
    all of `list` true.
  */
  lemma {:induction false} PairwiseResolventsSound(mines: set<int>, list: seq<Clause>, cells: int)
    ensures forall k :: 0 <= k < |Rows(list, |list|)| ==> Rows(list, |list|)[k] != {}
    ensures SeqIdsWithin(list, cells) ==> SeqIdsWithin(Rows(list, |list|), cells)
    ensures SeqSatisfies(mines, list) ==> SeqSatisfies(mines, Rows(list, |list|))
  {
    var rs := Rows(list, |list|);
    RowsProvenance(list, |list|);
    forall k | 0 <= k < |rs|
      ensures rs[k] != {}
      ensures SeqIdsWithin(list, cells) ==> ClauseIdsWithin(rs[k], cells)
      ensures SeqSatisfies(mines, list) ==> Satisfies(mines, rs[k])
    {
      var i, j :| 0 <= i < j < |list| && ResolveStep(list[i], list[j]) == [rs[k]];
      var p :| p in Pivots(list[i], list[j]);
      assert Pivots(list[i], list[j]) == {p} by {
        assert |Pivots(list[i], list[j]) - {p}| == 0;
      }
      ResolventNonEmpty(list[i], list[j], p);
      if SeqSatisfies(mines, list) {
        ResolventSound(mines, list[i], list[j]);
      }
      if SeqIdsWithin(list, cells) {
        assert ClauseIdsWithin(list[i], cells) && ClauseIdsWithin(list[j], cells);
      }
    }
  }
}
