/**
  Literals and clauses of the automated player's propositional reasoner.

  A literal speaks about one cell of the board: `bar == true` claims "the
  cell is safe", `bar == false` claims "the cell holds a mine". A clause is
  a disjunction, represented by the set of its literals, so that the order
  in which the literals were collected never matters.

  The meaning of literals and clauses is given with respect to an
  assignment, the set of cell ids that hold a mine.
*/
module Logic {

  datatype Option<T> = None | Some(value: T)

  /** A proposition about cell `id`; `bar` is true when it says "safe". */
  datatype Literal = Literal(id: int, bar: bool)

  /** A disjunction of literals. */
  type Clause = set<Literal>

  /** The literal about the same cell with the opposite claim. */
  function Complement(l: Literal): (r: Literal)
    ensures r.id == l.id && r.bar != l.bar
  {
    Literal(l.id, !l.bar)
  }

  /** Literal `l` is true when the cells in `mines` are exactly the mined ones. */
  predicate Holds(mines: set<int>, l: Literal)
  {
    if l.bar then l.id !in mines else l.id in mines
  }

  /** A clause is true when at least one of its literals is. */
  predicate Satisfies(mines: set<int>, c: Clause)
  {
    exists l :: l in c && Holds(mines, l)
  }

  /** Every clause of `cs` is true under `mines`. */
  predicate SatisfiesAll(mines: set<int>, cs: set<Clause>)
  {
    forall c :: c in cs ==> Satisfies(mines, c)
  }

  /** Every literal of `ls` is true under `mines`. */
  predicate HoldsAll(mines: set<int>, ls: set<Literal>)
  {
    forall l :: l in ls ==> Holds(mines, l)
  }

  /** Literals that all hold never mark one cell both safe and mined. */
  lemma HoldsAllConsistent(mines: set<int>, ls: set<Literal>)
    requires HoldsAll(mines, ls)
    ensures forall i :: !(Literal(i, true) in ls && Literal(i, false) in ls)
  {
    forall i | Literal(i, true) in ls && Literal(i, false) in ls ensures false {
      assert Holds(mines, Literal(i, true)) && Holds(mines, Literal(i, false));
    }
  }

  /** The cell ids a set of literals talks about. */
  function Ids(ls: set<Literal>): (r: set<int>)
    ensures forall l :: l in ls ==> l.id in r
    ensures forall i :: i in r ==> exists l :: l in ls && l.id == i
  {
    set l | l in ls :: l.id
  }

  /** A literal and its complement never hold together, and one of them always does. */
  lemma ComplementFlips(mines: set<int>, l: Literal)
    ensures Holds(mines, Complement(l)) <==> !Holds(mines, l)
  {
  }

  /**
    `check_subsumption`: the left clause is a literal-subset of the right one,
    scanned literal by literal.
  */
  predicate CheckSubsumption(c1: Clause, c2: Clause)
  {
    forall l :: l in c1 ==> l in c2
  }

  /** A clause that subsumes another is at least as strong: it entails it. */
  lemma SubsumptionEntails(mines: set<int>, c1: Clause, c2: Clause)
    requires CheckSubsumption(c1, c2)
    ensures c1 <= c2
    ensures Satisfies(mines, c1) ==> Satisfies(mines, c2)
  {
  }

  /**
    The literals of `a` whose complement occurs in `b`: the complementary
    pairs between two clauses, named by their `a` side.
  */
  function Pivots(a: Clause, b: Clause): (r: set<Literal>)
    ensures r <= a
    ensures forall l :: l in r <==> l in a && Complement(l) in b
  {
    set l | l in a && Complement(l) in b
  }

  /** Both sides of the complementary pairs between two clauses correspond one to one. */
  lemma PivotsMirror(a: Clause, b: Clause, l: Literal)
    requires Pivots(a, b) == {l}
    ensures Pivots(b, a) == {Complement(l)}
  {
    forall l' | l' in Pivots(b, a) ensures l' == Complement(l) {
      assert Complement(l') in Pivots(a, b);
    }
    assert Complement(l) in Pivots(b, a);
  }

  /**
    The binary resolvent of two clauses: their union with every
    complementary pair taken out.
  */
  function Resolvent(a: Clause, b: Clause): (r: Clause)
    ensures r <= a + b
  {
    (a - Pivots(a, b)) + (b - Pivots(b, a))
  }

  /** With a single complementary pair `l`/`¬l`, the resolvent is the union minus that pair. */
  lemma {:induction false} ResolventOnPivot(a: Clause, b: Clause, l: Literal)
    requires Pivots(a, b) == {l}
    ensures Resolvent(a, b) == (a - {l}) + (b - {Complement(l)})
  {
    PivotsMirror(a, b, l);
  }

  /**
    Resolution on exactly one complementary pair is sound: every assignment
    satisfying both parents satisfies the resolvent.
  */
  lemma {:induction false} ResolventSound(mines: set<int>, a: Clause, b: Clause)
    requires |Pivots(a, b)| == 1
    requires Satisfies(mines, a) && Satisfies(mines, b)
    ensures Satisfies(mines, Resolvent(a, b))
  {
    var l :| l in Pivots(a, b);
    assert Pivots(a, b) == {l} by {
      assert |Pivots(a, b) - {l}| == 0;
    }
    ResolventOnPivot(a, b, l);
    ComplementFlips(mines, l);
    if Holds(mines, l) {
      var w :| w in b && Holds(mines, w);
      assert w != Complement(l);
      assert w in Resolvent(a, b);
    } else {
      var w :| w in a && Holds(mines, w);
      assert w != l;
      assert w in Resolvent(a, b);
    }
  }

  /** A resolvent of a pair with a binary member on one pivot keeps at least one literal. */
  lemma {:induction false} ResolventNonEmpty(a: Clause, b: Clause, l: Literal)
    requires Pivots(a, b) == {l}
    requires |a| == 2 || |b| == 2
    ensures Resolvent(a, b) != {}
  {
    ResolventOnPivot(a, b, l);
    PivotsMirror(a, b, l);
    if |a| == 2 {
      assert |a - {l}| == 1;
      var w :| w in a - {l};
      assert w in Resolvent(a, b);
    } else {
      assert Complement(l) in b;
      assert |b - {Complement(l)}| == 1;
      var w :| w in b - {Complement(l)};
      assert w in Resolvent(a, b);
    }
  }
}
