/**
  The automated player (`Player` in minesweeper.py): a knowledge base made
  of the active clause set `KB` and the settled literals `KB0`, updated in
  place. Each method is proved against the value-level definitions of
  module KnowledgeBase.
*/
module Players {
  import opened Logic
  import opened KnowledgeBase

  class Player {
    /** The active CNF clauses. */
    var KB: set<Clause>
    /** The literals whose cells have been marked. */
    var KB0: set<Literal>

    /** Both sets start empty; the game's set-up seeds them. */
    constructor ()
      ensures KB == {} && KB0 == {}
    {
      KB := {};
      KB0 := {};
    }

    /** `get_single_literal_clause`: some clause of length 1, if there is one. */
    method GetSingleLiteralClause() returns (r: Option<Clause>)
      ensures r.Some? ==> r.value in KB && |r.value| == 1
      ensures r.None? <==> forall c :: c in KB ==> |c| != 1
    {
      var rest := KB;
      while rest != {}
        invariant rest <= KB
        invariant forall c :: c in KB - rest ==> |c| != 1
        decreases rest
      {
        var c :| c in rest;
        if |c| == 1 {
          return Some(c);
        }
        rest := rest - {c};
      }
      return None;
    }

    /**
      `check_subsumption`: scans the literals of `c1` for one missing from
      `c2`.
    */
    static method CheckSubsumptionScan(c1: Clause, c2: Clause) returns (r: bool)
      ensures r <==> CheckSubsumption(c1, c2)
      ensures r <==> c1 <= c2
    {
      var rest := c1;
      while rest != {}
        invariant rest <= c1
        invariant c1 - rest <= c2
        decreases rest
      {
        var l :| l in rest;
        if l !in c2 {
          return false;
        }
        rest := rest - {l};
      }
      return true;
    }

    /**
      `resolution_byKB0`: `None` when the candidate shares a literal with
      `KB0`; otherwise the candidate minus exactly the literals whose cell
      is settled in `KB0`.
    */
    method ResolutionByKB0(c: Clause) returns (r: Option<Clause>)
      ensures r == Reduce(KB0, c)
      ensures r.None? <==> c * KB0 != {}
      ensures r.Some? ==> r.value <= c && Ids(r.value) !! Ids(KB0)
      ensures r.Some? ==> forall l :: l in c && l.id !in Ids(KB0) ==> l in r.value
    {
      if c * KB0 != {} {
        return None;
      }
      var ids := Ids(KB0);
      var tmp: set<Literal> := {};
      var rest := c;
      while rest != {}
        invariant rest <= c
        invariant tmp == set l | l in c - rest && l.id in ids
        decreases rest
      {
        var l :| l in rest;
        if l.id in ids {
          tmp := tmp + {l};
        }
        rest := rest - {l};
      }
      var literals := c - tmp;
      assert literals == set l | l in c && l.id !in ids;
      assert Ids(literals) !! ids by {
        forall i | i in Ids(literals) ensures i !in ids {
          var l :| l in literals && l.id == i;
        }
      }
      return Some(literals);
    }

    /**
      `match_remaining_in_KB`: once `l` is settled, the clauses containing
      it are removed, and every clause still mentioning its cell is replaced
      by that clause without the complement of `l` (added directly, with no
      subsumption test).
    */
    method MatchRemainingInKB(l: Literal)
      modifies this`KB
      ensures KB == Propagate(old(KB), l)
    {
      ghost var kb := KB;
      var tmp: set<Clause> := {};
      var rest := KB;
      while rest != {}
        invariant rest <= kb
        invariant tmp == set c | c in kb - rest && l in c
        decreases rest
      {
        var c :| c in rest;
        if l in c {
          tmp := tmp + {c};
        }
        rest := rest - {c};
      }
      KB := KB - tmp;
      ghost var kept := KB;
      assert kept == set c | c in kb && l !in c;

      tmp := {};
      rest := KB;
      while rest != {}
        invariant rest <= kept
        invariant tmp == set c | c in kept - rest && l.id in Ids(c)
        decreases rest
      {
        var c :| c in rest;
        if l.id in Ids(c) {
          tmp := tmp + {c};
        }
        rest := rest - {c};
      }
      ghost var mentioning := tmp;
      forall c | c in kept ensures c in mentioning <==> Complement(l) in c {
        MentionsCell(c, l);
      }

      rest := tmp;
      ghost var done: set<Clause> := {};
      while rest != {}
        invariant rest <= mentioning && done == mentioning - rest
        invariant KB == (kept - done) + (set c | c in done :: c - {Complement(l)})
        decreases rest
      {
        var c :| c in rest;
        ghost var shrunk := set d | d in done :: d - {Complement(l)};
        assert c !in shrunk by {
          forall d | d in done ensures c != d - {Complement(l)} {
            assert Complement(l) in c;
          }
        }
        KB := KB - {c};
        KB := KB + {c - {Complement(l)}};
        done := done + {c};
        rest := rest - {c};
        assert (set d | d in done :: d - {Complement(l)}) == shrunk + {c - {Complement(l)}};
      }
      assert kept - mentioning == set c | c in kb && l !in c && Complement(l) !in c;
    }

    /**
      `insertKB`: reduce the candidate against `KB0`; drop it when the
      result is `None` or empty, or when some clause of `KB` is a subset of
      it; otherwise remove every clause it is a subset of and add it.
    */
    method InsertKB(c: Clause)
      modifies this`KB
      ensures KB == Insert(old(KB), KB0, c)
    {
      ghost var kb := KB;
      var literals := ResolutionByKB0(c);
      if literals.Some? && literals.value != {} {
        var clause := literals.value;
        var rest := KB;
        while rest != {}
          invariant KB == kb && rest <= KB
          invariant forall e :: e in KB - rest ==> !CheckSubsumption(e, clause)
          decreases rest
        {
          var element :| element in rest;
          var sub := CheckSubsumptionScan(element, clause);
          if sub {
            return;
          }
          rest := rest - {element};
        }
        assert !exists e :: e in kb && CheckSubsumption(e, clause);
        var tmp: set<Clause> := {};
        rest := KB;
        while rest != {}
          invariant KB == kb && rest <= KB
          invariant tmp == set e | e in KB - rest && CheckSubsumption(clause, e)
          decreases rest
        {
          var element :| element in rest;
          var sub := CheckSubsumptionScan(clause, element);
          if sub {
            tmp := tmp + {element};
          }
          rest := rest - {element};
        }
        assert KB - tmp == set e | e in kb && !CheckSubsumption(clause, e);
        KB := (KB - tmp) + {clause};
      }
    }

    /** A `for` loop of `insertKB` calls over a sequence of generated clauses. */
    method InsertEach(cs: seq<Clause>)
      modifies this`KB
      ensures KB == InsertAll(old(KB), KB0, cs)
    {
      ghost var kb, k0 := KB, KB0;
      var i := 0;
      while i < |cs|
        invariant 0 <= i <= |cs|
        invariant KB0 == k0
        invariant KB == InsertAll(kb, k0, cs[..i])
      {
        assert cs[..i + 1][..i] == cs[..i];
        InsertKB(cs[i]);
        i := i + 1;
      }
      assert cs[..i] == cs;
    }

    /**
      `pair_wise_matching`: every pair of the snapshot `list(KB)` taken
      before the pass, in the order of the double loop, contributes its
      resolvent (see `ResolveStep`), which goes through `InsertKB`. Clauses
      that an earlier insertion of the same pass removed are still paired.
    */
    method PairWiseMatching() returns (ghost snapshot: seq<Clause>)
      modifies this`KB
      ensures |snapshot| == |old(KB)| && (forall c :: c in snapshot <==> c in old(KB))
      ensures KB == InsertAll(old(KB), KB0, Rows(snapshot, |snapshot|))
    {
      var clauseList := ListOf(KB);
      snapshot := clauseList;
      ghost var kb, k0 := KB, KB0;
      var i := 0;
      while i < |clauseList|
        invariant 0 <= i <= |clauseList|
        invariant KB0 == k0
        invariant KB == InsertAll(kb, k0, Rows(clauseList, i))
      {
        ghost var mid := KB;
        MatchRow(clauseList, i);
        InsertRowsStep(kb, k0, clauseList, i, mid, KB);
        i := i + 1;
      }
      assert i == |clauseList|;
    }

    /** The inner loop of `pair_wise_matching`: `list[i]` against every later clause of the snapshot. */
    method MatchRow(list: seq<Clause>, i: nat)
      requires i < |list|
      modifies this`KB
      ensures KB == InsertAll(old(KB), KB0, Row(list, i, |list|))
    {
      ghost var start, k0 := KB, KB0;
      var j := i + 1;
      while j < |list|
        invariant i + 1 <= j <= |list|
        invariant KB0 == k0
        invariant KB == InsertAll(start, k0, Row(list, i, j))
      {
        ghost var mid := KB;
        MatchPair(list[i], list[j]);
        InsertRowStep(start, k0, list, i, j, mid, KB);
        j := j + 1;
      }
      assert j == |list|;
    }

    /**
      The body of the double loop of `pair_wise_matching` for one pair: when
      one clause is binary and there is exactly one complementary pair, the
      union minus that pair goes through `InsertKB`.
    */
    method MatchPair(c1: Clause, c2: Clause)
      modifies this`KB
      ensures KB == InsertAll(old(KB), KB0, ResolveStep(c1, c2))
    {
      if |c1| == 2 || |c2| == 2 {
        var cnt, lhs := CountComplementary(c1, c2);
        if cnt == 1 {
          ResolventOnPivot(c1, c2, lhs);
          assert [Resolvent(c1, c2)][..0] == [];
          InsertKB((c1 - {lhs}) + (c2 - {Complement(lhs)}));
        }
      }
    }

    /**
      The counting loop of `pair_wise_matching`: the number of complementary
      pairs between `c1` and `c2`, and the `c1` side of the last one found.
    */
    static method CountComplementary(c1: Clause, c2: Clause) returns (cnt: nat, lhs: Literal)
      ensures cnt == |Pivots(c1, c2)|
      ensures cnt == 1 ==> Pivots(c1, c2) == {lhs}
    {
      cnt, lhs := 0, Literal(0, false);
      ghost var found: set<Literal> := {};
      var rest := c1;
      while rest != {}
        invariant rest <= c1
        invariant found == set l | l in c1 - rest && Complement(l) in c2
        invariant cnt == |found|
        invariant cnt > 0 ==> lhs in found
        decreases rest
      {
        var literal1 :| literal1 in rest;
        // the inner scan over `c2` meets a literal of the same cell with the
        // other claim exactly when the complement is a member of `c2`
        if Complement(literal1) in c2 {
          lhs := literal1;
          found := found + {literal1};
          cnt := cnt + 1;
        }
        rest := rest - {literal1};
      }
      assert found == Pivots(c1, c2);
      if cnt == 1 {
        assert |found - {lhs}| == 0;
      }
    }

    /** `list(self.KB)`: the clauses of a set, each once, in some order. */
    static method ListOf(s: set<Clause>) returns (xs: seq<Clause>)
      ensures |xs| == |s| && (forall c :: c in xs <==> c in s)
    {
      xs := [];
      var rest := s;
      while rest != {}
        invariant rest <= s
        invariant forall c :: c in xs <==> c in s - rest
        invariant |xs| == |s - rest|
        decreases rest
      {
        var c :| c in rest;
        assert s - (rest - {c}) == (s - rest) + {c};
        xs := xs + [c];
        rest := rest - {c};
      }
    }
  }
}
