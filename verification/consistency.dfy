/** The consistency checker and the completeness test of the crossword
    generator (`consistent` and `assignment_complete`). */
module Consistency {
  import opened Grid

  /** What a consistent assignment is: distinct words, each of its variable's
      length, and every two assigned overlapping variables agreeing on their
      shared letter. */
  ghost predicate Valid(cw: Crossword, a: Assignment) {
    && DistinctValues(a)
    && (forall v | v in a :: |a[v]| == v.length)
    && (forall x, y | x in a && y in a && (x, y) in cw.overlaps :: Fits(cw.overlaps[(x, y)], a[x], a[y]))
  }

  /** A crossword solution: every variable filled, consistently. */
  ghost predicate Solution(cw: Crossword, s: Assignment) {
    AssignmentComplete(cw, s) && Valid(cw, s)
  }

  /** `s` agrees with `a` on every variable `a` assigns. */
  ghost predicate Extends(s: Assignment, a: Assignment) {
    forall v | v in a :: v in s && s[v] == a[v]
  }

  /** True when every variable holds a non-empty word. */
  predicate AssignmentComplete(cw: Crossword, a: Assignment): (r: bool)
    ensures r <==> a.Keys == cw.variables && "" !in a.Values
  {
    a.Keys == cw.variables && forall v | v in a :: a[v] != ""
  }

  /** A consistent assignment of every variable is complete: slots are at
      least two cells long, so no word of the right length is empty. */
  lemma FullValidIsComplete(cw: Crossword, a: Assignment)
    requires WellFormed(cw) && Valid(cw, a)
    ensures AssignmentComplete(cw, a) <==> a.Keys == cw.variables
  {
    if a.Keys == cw.variables {
      forall v | v in a ensures a[v] != "" {
        assert |a[v]| == v.length >= 2;
      }
    }
  }

  /** The check `generate.py` makes, in its order: as many distinct words as keys,
      then lengths, then the shared letter with every assigned neighbour. */
  function Consistent(cw: Crossword, a: Assignment): (r: bool)
    requires WellFormed(cw) && a.Keys <= cw.variables
    ensures r <==> Valid(cw, a)
  {
    InjectiveByCardinality(a);
    if |a.Values| != |a.Keys| then false
    else if exists v | v in a :: v.length != |a[v]| then false
    else
      forall v, n | v in a && n in Neighbors(cw, v) * a.Keys ::
        var o := cw.overlaps[(v, n)].value;
        a[v][o.0] == a[n][o.1]
  }

  /** A map has as many distinct values as keys exactly when no two keys
      share a value. */
  lemma {:induction false} InjectiveByCardinality<K, V>(m: map<K, V>)
    ensures |m.Values| <= |m.Keys|
    ensures |m.Values| == |m.Keys| <==> DistinctValues(m)
    decreases |m.Keys|
  {
    if m.Keys != {} {
      var k :| k in m.Keys;
      var rest := m - {k};
      InjectiveByCardinality(rest);
      assert m.Keys == rest.Keys + {k};
      assert |m.Keys| == |rest.Keys| + 1;
      assert m.Values == rest.Values + {m[k]} by {
        forall u | u in m.Values ensures u in rest.Values + {m[k]} {
          var k' :| k' in m && m[k'] == u;
          if k' != k { assert rest[k'] == u; }
        }
        forall u | u in rest.Values ensures u in m.Values {
          var k' :| k' in rest && rest[k'] == u;
          assert m[k'] == u;
        }
      }
      if m[k] in rest.Values {
        var k' :| k' in rest && rest[k'] == m[k];
        assert k' != k && m[k'] == m[k];
        assert !DistinctValues(m);
      } else {
        assert |m.Values| == |rest.Values| + 1;
        if DistinctValues(rest) {
          forall x, y | x in m && y in m && x != y ensures m[x] != m[y] {
            if x != k && y != k {
              assert rest[x] == m[x] && rest[y] == m[y];
            } else if x == k {
              assert rest[y] in rest.Values;
            } else {
              assert rest[x] in rest.Values;
            }
          }
        } else {
          var x, y :| x in rest && y in rest && x != y && rest[x] == rest[y];
          assert m[x] == m[y];
        }
      }
    }
  }

  /** No two keys share a value (for an assignment: no word is used twice). */
  ghost predicate DistinctValues<K, V>(m: map<K, V>) {
    forall x, y | x in m && y in m && x != y :: m[x] != m[y]
  }

  /** The empty assignment is consistent, whatever the crossword. */
  lemma ConsistentEmpty(cw: Crossword)
    requires WellFormed(cw)
    ensures Consistent(cw, map[])
  {
  }

  /** An assignment that gives two variables the same word is not
      consistent. */
  lemma ConsistentRejectsDuplicates(cw: Crossword, a: Assignment, x: Variable, y: Variable)
    requires WellFormed(cw) && a.Keys <= cw.variables
    requires x in a && y in a && x != y && a[x] == a[y]
    ensures !Consistent(cw, a)
  {
  }

  /** Dropping variables from a consistent assignment keeps it consistent;
      this is what makes checking partial assignments sound. */
  lemma ValidShrinks(cw: Crossword, s: Assignment, a: Assignment)
    requires Valid(cw, s) && Extends(s, a)
    ensures Valid(cw, a)
  {
  }
}
