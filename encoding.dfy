/**
  The cardinality encoding the automated player uses for a revealed cell
  and for the global hint: "exactly m of these n cells are mines" written as
  clauses over all subsets of a fixed size (`itertools.combinations`).
*/
module Encoding {
  import opened Logic
  import opened KnowledgeBase

  /** `x` put in front of every sequence of `cs`. */
  function Prepend<T>(x: T, cs: seq<seq<T>>): (r: seq<seq<T>>)
    ensures |r| == |cs|
    ensures forall i :: 0 <= i < |cs| ==> r[i] == [x] + cs[i]
  {
    if cs == [] then [] else [[x] + cs[0]] + Prepend(x, cs[1..])
  }

  /** The binomial coefficient "n choose k", by Pascal's rule. */
  function Binomial(n: nat, k: nat): nat
  {
    if k == 0 then 1 else if n == 0 then 0 else Binomial(n - 1, k - 1) + Binomial(n - 1, k)
  }

  /**
    `itertools.combinations(xs, k)`: the `k`-element subsequences of `xs`,
    those that take `xs[0]` first. No subsequence for `k > |xs|`, and the
    single empty one for `k == 0`.
  */
  function Combinations<T>(xs: seq<T>, k: nat): (r: seq<seq<T>>)
    decreases |xs|
  {
    if k == 0 then [[]]
    else if xs == [] then []
    else Prepend(xs[0], Combinations(xs[1..], k - 1)) + Combinations(xs[1..], k)
  }

  /** There are "|xs| choose k" combinations. */
  lemma {:induction false} CombinationsCount<T>(xs: seq<T>, k: nat)
    ensures |Combinations(xs, k)| == Binomial(|xs|, k)
    decreases |xs|
  {
    if k > 0 && xs != [] {
      CombinationsCount(xs[1..], k - 1);
      CombinationsCount(xs[1..], k);
    }
  }

  /** Every combination has `k` elements, all taken from `xs`. */
  lemma {:induction false} CombinationsShape<T>(xs: seq<T>, k: nat)
    ensures forall i :: 0 <= i < |Combinations(xs, k)| ==> |Combinations(xs, k)[i]| == k
    ensures forall i, j :: 0 <= i < |Combinations(xs, k)| && 0 <= j < |Combinations(xs, k)[i]| ==>
              Combinations(xs, k)[i][j] in xs
    decreases |xs|
  {
    if k > 0 && xs != [] {
      var tail := xs[1..];
      CombinationsShape(tail, k - 1);
      CombinationsShape(tail, k);
      var withHead, without := Combinations(tail, k - 1), Combinations(tail, k);
      var front := Prepend(xs[0], withHead);
      var all := front + without;
      assert Combinations(xs, k) == all;
      forall i | 0 <= i < |all|
        ensures |all[i]| == k
        ensures forall j :: 0 <= j < |all[i]| ==> all[i][j] in xs
      {
        if i < |front| {
          assert all[i] == [xs[0]] + withHead[i];
          forall j | 0 <= j < |all[i]| ensures all[i][j] in xs {
            if j > 0 { assert all[i][j] == withHead[i][j - 1]; assert withHead[i][j - 1] in tail; }
          }
        } else {
          assert all[i] == without[i - |front|];
          forall j | 0 <= j < |all[i]| ensures all[i][j] in xs {
            assert without[i - |front|][j] in tail;
          }
        }
      }
    }
  }

  /** There are no combinations larger than the sequence. */
  lemma {:induction false} CombinationsTooLarge<T>(xs: seq<T>, k: nat)
    requires k > |xs|
    ensures Combinations(xs, k) == []
    decreases |xs|
  {
    if xs != [] {
      CombinationsTooLarge(xs[1..], k - 1);
      CombinationsTooLarge(xs[1..], k);
    }
  }

  /** The combinations of size one are the elements, one by one, in order. */
  lemma {:induction false} CombinationsOfOne<T>(xs: seq<T>)
    ensures |Combinations(xs, 1)| == |xs|
    ensures forall i :: 0 <= i < |xs| ==> Combinations(xs, 1)[i] == [xs[i]]
    decreases |xs|
  {
    if xs != [] {
      CombinationsOfOne(xs[1..]);
      assert Combinations(xs[1..], 0) == [[]];
      assert [xs[0]] + [] == [xs[0]];
      assert Prepend(xs[0], [[]]) == [[xs[0]]];
    }
  }

  /** The clause made of the literals of a combination. */
  function ClauseOf(c: seq<Literal>): (r: Clause)
    ensures forall l :: l in r <==> l in c
  {
    set l | l in c
  }

  /** `[Literal(id, bar) for id in ids]`. */
  function LitSeq(ids: seq<int>, bar: bool): (r: seq<Literal>)
    ensures |r| == |ids|
    ensures forall i :: 0 <= i < |ids| ==> r[i] == Literal(ids[i], bar)
  {
    if ids == [] then [] else [Literal(ids[0], bar)] + LitSeq(ids[1..], bar)
  }

  /** One clause per `k`-combination of `lits`: "at least one of these `k` holds". */
  function AtLeastOne(lits: seq<Literal>, k: nat): (r: seq<Clause>)
    ensures |r| == |Combinations(lits, k)|
    ensures forall i :: 0 <= i < |r| ==> r[i] == ClauseOf(Combinations(lits, k)[i])
  {
    var cs := Combinations(lits, k);
    seq(|cs|, i requires 0 <= i < |cs| => ClauseOf(cs[i]))
  }

  /** How many literals of `lits` are false under `mines`. */
  function Falsified(mines: set<int>, lits: seq<Literal>): nat
  {
    if lits == [] then 0 else (if Holds(mines, lits[0]) then 0 else 1) + Falsified(mines, lits[1..])
  }

  /** How many entries of `ids` are mines. */
  function CountMines(ids: seq<int>, mines: set<int>): (r: nat)
    ensures r <= |ids|
  {
    if ids == [] then 0 else (if ids[0] in mines then 1 else 0) + CountMines(ids[1..], mines)
  }

  /** Counting one more id at the end. */
  lemma {:induction false} CountMinesAppend(ids: seq<int>, i: int, mines: set<int>)
    ensures CountMines(ids + [i], mines) == CountMines(ids, mines) + (if i in mines then 1 else 0)
    decreases |ids|
  {
    if ids != [] {
      assert (ids + [i])[1..] == ids[1..] + [i];
      CountMinesAppend(ids[1..], i, mines);
    } else {
      assert ([] + [i])[1..] == [];
    }
  }

  ghost predicate AllHit(mines: set<int>, cs: seq<seq<Literal>>)
  {
    forall i :: 0 <= i < |cs| ==> Satisfies(mines, ClauseOf(cs[i]))
  }

  lemma AllHitAppend(mines: set<int>, a: seq<seq<Literal>>, b: seq<seq<Literal>>)
    ensures AllHit(mines, a + b) <==> AllHit(mines, a) && AllHit(mines, b)
  {
    if AllHit(mines, a) && AllHit(mines, b) {
      forall i | 0 <= i < |a + b| ensures Satisfies(mines, ClauseOf((a + b)[i])) {
        if i < |a| { assert (a + b)[i] == a[i]; } else { assert (a + b)[i] == b[i - |a|]; }
      }
    }
    if AllHit(mines, a + b) {
      forall i | 0 <= i < |a| ensures Satisfies(mines, ClauseOf(a[i])) {
        assert (a + b)[i] == a[i];
      }
      forall i | 0 <= i < |b| ensures Satisfies(mines, ClauseOf(b[i])) {
        assert (a + b)[i + |a|] == b[i];
      }
    }
  }

  lemma AllHitPrepend(mines: set<int>, x: Literal, cs: seq<seq<Literal>>)
    ensures AllHit(mines, Prepend(x, cs)) <==> Holds(mines, x) || AllHit(mines, cs)
  {
    var p := Prepend(x, cs);
    if Holds(mines, x) {
      forall i | 0 <= i < |p| ensures Satisfies(mines, ClauseOf(p[i])) {
        assert x in p[i];
      }
    } else if AllHit(mines, p) {
      forall i | 0 <= i < |cs| ensures Satisfies(mines, ClauseOf(cs[i])) {
        var w :| w in ClauseOf(p[i]) && Holds(mines, w);
        assert w != x;
        assert w in cs[i];
      }
    } else if AllHit(mines, cs) {
      forall i | 0 <= i < |p| ensures Satisfies(mines, ClauseOf(p[i])) {
        var w :| w in ClauseOf(cs[i]) && Holds(mines, w);
        assert w in p[i];
      }
    }
  }

  /**
    The at-least-one-of-every-`k`-subset encoding: all its clauses hold
    exactly when fewer than `k` of the literals are false.
  */
  lemma {:induction false} AtLeastOneExact(mines: set<int>, lits: seq<Literal>, k: nat)
    ensures SeqSatisfies(mines, AtLeastOne(lits, k)) <==> Falsified(mines, lits) < k
    decreases |lits|
  {
    AtLeastOneHit(mines, lits, k);
  }

  lemma {:induction false} AtLeastOneHit(mines: set<int>, lits: seq<Literal>, k: nat)
    ensures SeqSatisfies(mines, AtLeastOne(lits, k)) <==> AllHit(mines, Combinations(lits, k))
    ensures AllHit(mines, Combinations(lits, k)) <==> Falsified(mines, lits) < k
    decreases |lits|
  {
    var cs := Combinations(lits, k);
    assert SeqSatisfies(mines, AtLeastOne(lits, k)) <==> AllHit(mines, cs);
    if k == 0 {
      assert cs == [[]];
      assert !Satisfies(mines, ClauseOf(cs[0]));
    } else if lits != [] {
      AtLeastOneHit(mines, lits[1..], k - 1);
      AtLeastOneHit(mines, lits[1..], k);
      AllHitAppend(mines, Prepend(lits[0], Combinations(lits[1..], k - 1)), Combinations(lits[1..], k));
      AllHitPrepend(mines, lits[0], Combinations(lits[1..], k - 1));
    }
  }

  /** Literals claiming "mine" are false exactly at the safe cells. */
  lemma {:induction false} FalsifiedMineLiterals(mines: set<int>, ids: seq<int>)
    ensures Falsified(mines, LitSeq(ids, false)) == |ids| - CountMines(ids, mines)
    decreases |ids|
  {
    if ids != [] {
      FalsifiedMineLiterals(mines, ids[1..]);
      assert LitSeq(ids, false)[1..] == LitSeq(ids[1..], false);
    }
  }

  /** Literals claiming "safe" are false exactly at the mined cells. */
  lemma {:induction false} FalsifiedSafeLiterals(mines: set<int>, ids: seq<int>)
    ensures Falsified(mines, LitSeq(ids, true)) == CountMines(ids, mines)
    decreases |ids|
  {
    if ids != [] {
      FalsifiedSafeLiterals(mines, ids[1..]);
      assert LitSeq(ids, true)[1..] == LitSeq(ids[1..], true);
    }
  }

  /**
    The general encoding for `k` cells of which `m` are mines: every
    `(k - m + 1)`-subset of "mine" literals (at least `m` mines) and every
    `(m + 1)`-subset of "safe" literals (at most `m` mines).
  */
  function CardinalityClauses(ids: seq<int>, k: nat, m: nat): (r: seq<Clause>)
    requires m <= k
  {
    AtLeastOne(LitSeq(ids, false), k - m + 1) + AtLeastOne(LitSeq(ids, true), m + 1)
  }

  lemma SeqSatisfiesAppend(mines: set<int>, a: seq<Clause>, b: seq<Clause>)
    ensures SeqSatisfies(mines, a + b) <==> SeqSatisfies(mines, a) && SeqSatisfies(mines, b)
  {
    if SeqSatisfies(mines, a + b) {
      forall i | 0 <= i < |a| ensures Satisfies(mines, a[i]) {
        assert (a + b)[i] == a[i];
      }
      forall i | 0 <= i < |b| ensures Satisfies(mines, b[i]) {
        assert (a + b)[i + |a|] == b[i];
      }
    }
    if SeqSatisfies(mines, a) && SeqSatisfies(mines, b) {
      forall i | 0 <= i < |a + b| ensures Satisfies(mines, (a + b)[i]) {
        if i < |a| { assert (a + b)[i] == a[i]; } else { assert (a + b)[i] == b[i - |a|]; }
      }
    }
  }

  /**
    The encoding is exact: when `ids` lists the `k` cells, an assignment
    satisfies all its clauses if and only if exactly `m` of the cells are
    mines.
  */
  lemma {:induction false} CardinalityExact(mines: set<int>, ids: seq<int>, k: nat, m: nat)
    requires |ids| == k && m <= k
    ensures SeqSatisfies(mines, CardinalityClauses(ids, k, m)) <==> CountMines(ids, mines) == m
  {
    var atLeast, atMost := AtLeastOne(LitSeq(ids, false), k - m + 1), AtLeastOne(LitSeq(ids, true), m + 1);
    var n := CountMines(ids, mines);
    assert SeqSatisfies(mines, CardinalityClauses(ids, k, m)) <==>
      SeqSatisfies(mines, atLeast) && SeqSatisfies(mines, atMost) by {
      SeqSatisfiesAppend(mines, atLeast, atMost);
    }
    assert SeqSatisfies(mines, atLeast) <==> k - n < k - m + 1 by {
      AtLeastOneExact(mines, LitSeq(ids, false), k - m + 1);
      FalsifiedMineLiterals(mines, ids);
    }
    assert SeqSatisfies(mines, atMost) <==> n < m + 1 by {
      AtLeastOneExact(mines, LitSeq(ids, true), m + 1);
      FalsifiedSafeLiterals(mines, ids);
    }
  }

  /** One unit clause `{Literal(id, bar)}` per cell. */
  function Units(ids: seq<int>, bar: bool): (r: seq<Clause>)
    ensures |r| == |ids|
    ensures forall i :: 0 <= i < |ids| ==> r[i] == {Literal(ids[i], bar)}
  {
    seq(|ids|, i requires 0 <= i < |ids| => {Literal(ids[i], bar)})
  }

  /**
    The clauses a revealed safe cell contributes: all-safe units when none
    of its `k` neighbours is a mine, all-mine units when all are, and the
    general encoding otherwise.
  */
  function HintClauses(ids: seq<int>, k: nat, m: nat): (r: seq<Clause>)
    requires m <= k
  {
    if m == 0 then Units(ids, true)
    else if k == m then Units(ids, false)
    else CardinalityClauses(ids, k, m)
  }

  /**
    The unit-clause branches give the clauses the general encoding would:
    all-safe units for no mine among the cells, all-mine units for all.
  */
  lemma {:induction false} UnitBranchAgrees(ids: seq<int>, bar: bool)
    ensures CardinalityClauses(ids, |ids|, if bar then 0 else |ids|) == Units(ids, bar)
  {
    var m := if bar then 0 else |ids|;
    var none, ones := LitSeq(ids, !bar), LitSeq(ids, bar);
    CombinationsTooLarge(none, |ids| + 1);
    CombinationsOfOne(ones);
    var units, general := Units(ids, bar), AtLeastOne(ones, 1);
    assert CardinalityClauses(ids, |ids|, m) == general by {
      if bar {
        assert CardinalityClauses(ids, |ids|, m) == AtLeastOne(none, |ids| + 1) + general;
      } else {
        assert CardinalityClauses(ids, |ids|, m) == general + AtLeastOne(none, |ids| + 1);
      }
    }
    forall i | 0 <= i < |ids| ensures general[i] == units[i] {
      assert Combinations(ones, 1)[i] == [Literal(ids[i], bar)];
      assert ClauseOf([Literal(ids[i], bar)]) == {Literal(ids[i], bar)};
    }
  }

  /**
    A revealed safe cell with `k` neighbours of which `m` are mines: the
    clauses it contributes are all true under an assignment exactly when
    that assignment puts exactly `m` mines among the neighbours.
  */
  lemma {:induction false} HintExact(mines: set<int>, ids: seq<int>, k: nat, m: nat)
    requires |ids| == k && m <= k
    ensures SeqSatisfies(mines, HintClauses(ids, k, m)) <==> CountMines(ids, mines) == m
  {
    UnitBranchAgrees(ids, true);
    UnitBranchAgrees(ids, false);
    CardinalityExact(mines, ids, k, m);
  }

  /** Every generated clause talks only about the given cells. */
  lemma {:induction false} AtLeastOneIds(lits: seq<Literal>, k: nat, cells: int)
    requires forall i :: 0 <= i < |lits| ==> 0 <= lits[i].id < cells
    ensures SeqIdsWithin(AtLeastOne(lits, k), cells)
  {
    CombinationsShape(lits, k);
    var cs := Combinations(lits, k);
    forall i | 0 <= i < |cs| ensures ClauseIdsWithin(ClauseOf(cs[i]), cells) {
      forall l | l in ClauseOf(cs[i]) ensures 0 <= l.id < cells {
        var j :| 0 <= j < |cs[i]| && cs[i][j] == l;
        assert l in lits;
      }
    }
  }

  lemma {:induction false} HintIds(ids: seq<int>, k: nat, m: nat, cells: int)
    requires m <= k
    requires forall i :: 0 <= i < |ids| ==> 0 <= ids[i] < cells
    ensures SeqIdsWithin(HintClauses(ids, k, m), cells)
    ensures SeqIdsWithin(CardinalityClauses(ids, k, m), cells)
  {
    AtLeastOneIds(LitSeq(ids, false), k - m + 1, cells);
    AtLeastOneIds(LitSeq(ids, true), m + 1, cells);
    SeqIdsWithinAppend(AtLeastOne(LitSeq(ids, false), k - m + 1), AtLeastOne(LitSeq(ids, true), m + 1), cells);
  }

  lemma SeqIdsWithinAppend(a: seq<Clause>, b: seq<Clause>, cells: int)
    requires SeqIdsWithin(a, cells) && SeqIdsWithin(b, cells)
    ensures SeqIdsWithin(a + b, cells)
  {
    forall i | 0 <= i < |a + b| ensures ClauseIdsWithin((a + b)[i], cells) {
      if i < |a| { assert (a + b)[i] == a[i]; } else { assert (a + b)[i] == b[i - |a|]; }
    }
  }
}
