/** Backtracking search of the crossword generator: the least-constraining
    value ordering, the variable-selection heuristic, the recursive search
    and `solve`. */
module Search {
  import opened Wrappers
  import opened Grid
  import opened Consistency
  import opened Propagation
  import opened Collections

  /** How many (neighbour, word) candidates choosing `w` for `v` would rule
      out: pairs of an unassigned neighbour `n` of `v` and a word of `n`'s
      domain whose letter on the shared cell differs from `w`'s. `generate.py`
      adds one per such pair, so the count is the size of this set. */
  function Conflicts(cw: Crossword, d: Domains, a: Assignment, v: Variable, w: string): (r: nat)
    requires WellFormed(cw) && d.Keys == cw.variables && NodeConsistent(d)
    requires v in cw.variables && |w| == v.length
    ensures r == 0 <==> forall n, u | n in Neighbors(cw, v) && n !in a && u in d[n] ::
                          Fits(cw.overlaps[(v, n)], w, u)
  {
    var conflicting := set n, u | n in Neighbors(cw, v) - a.Keys && u in d[n] &&
                         (var o := cw.overlaps[(v, n)].value; w[o.0] != u[o.1]) :: (n, u);
    assert conflicting == {} <==> forall n, u | n in Neighbors(cw, v) && n !in a && u in d[n] ::
                                   Fits(cw.overlaps[(v, n)], w, u) by {
      if conflicting == {} {
        forall n, u | n in Neighbors(cw, v) && n !in a && u in d[n]
          ensures Fits(cw.overlaps[(v, n)], w, u)
        {
          assert (n, u) !in conflicting;
        }
      }
    }
    |conflicting|
  }

  /** The domain of `v` as a list, fewest conflicts first (least
      constraining value). `generate.py` sorts a dictionary built by iterating
      a set, so the order among equal counts is left open. */
  method OrderDomainValues(cw: Crossword, d: Domains, v: Variable, a: Assignment) returns (r: seq<string>)
    requires WellFormed(cw) && d.Keys == cw.variables && NodeConsistent(d)
    requires v in cw.variables
    ensures forall w :: w in r <==> w in d[v]
    ensures forall i, j | 0 <= i < j < |r| :: r[i] != r[j]
    ensures forall i, j | 0 <= i < j < |r| ::
              Conflicts(cw, d, a, v, r[i]) <= Conflicts(cw, d, a, v, r[j])
  {
    var weights := map w | w in d[v] :: Conflicts(cw, d, a, v, w);
    r := SortByKey(d[v], weights);
  }

  /** `u` is unassigned and has strictly fewer remaining values than every
      other unassigned variable. */
  ghost predicate UniqueFewest(cw: Crossword, d: Domains, a: Assignment, u: Variable)
    requires d.Keys == cw.variables
  {
    u in cw.variables && u !in a &&
    forall w | w in cw.variables && w !in a && w != u :: |d[u]| < |d[w]|
  }

  /** Picks the unassigned variable with the fewest remaining values when it
      is the only one with that many; otherwise, as `generate.py` does, the
      unassigned variable of highest degree among ALL unassigned variables,
      tied on remaining values or not. */
  method SelectUnassignedVariable(cw: Crossword, d: Domains, a: Assignment) returns (v: Variable)
    requires WellFormed(cw) && d.Keys == cw.variables
    requires cw.variables - a.Keys != {}
    ensures v in cw.variables && v !in a
    ensures (exists u :: UniqueFewest(cw, d, a, u)) ==> UniqueFewest(cw, d, a, v)
    ensures !(exists u :: UniqueFewest(cw, d, a, u)) ==>
              forall u | u in cw.variables && u !in a :: |Neighbors(cw, u)| <= |Neighbors(cw, v)|
  {
    var unassigned := cw.variables - a.Keys;
    var remaining := map u | u in unassigned :: |d[u]|;
    v := Lightest(unassigned, remaining);
    forall u | u in cw.variables && u !in a ensures |d[v]| <= |d[u]| {
      assert u in unassigned && remaining[u] == |d[u]|;
    }
    var tied := set u | u in unassigned && remaining[u] == remaining[v];
    assert forall u :: u in tied <==> u in cw.variables && u !in a && |d[u]| == |d[v]|;
    if |tied| == 1 {
      OnlyFewestIsUniqueFewest(cw, d, a, v, tied);
      return v;
    }
    TiedFewestIsNotUnique(cw, d, a, v, tied);
    v := HighestDegree(cw, unassigned);
  }

  /** A variable of `vs` with the most neighbours. */
  method HighestDegree(cw: Crossword, vs: set<Variable>) returns (v: Variable)
    requires WellFormed(cw) && vs != {} && vs <= cw.variables
    ensures v in vs && forall u | u in vs :: |Neighbors(cw, u)| <= |Neighbors(cw, v)|
  {
    var degrees := map u | u in vs :: |Neighbors(cw, u)|;
    v := Heaviest(vs, degrees);
  }

  lemma OnlyFewestIsUniqueFewest(cw: Crossword, d: Domains, a: Assignment, v: Variable, tied: set<Variable>)
    requires d.Keys == cw.variables && v in cw.variables && v !in a
    requires forall u | u in cw.variables && u !in a :: |d[v]| <= |d[u]|
    requires forall u :: u in tied <==> u in cw.variables && u !in a && |d[u]| == |d[v]|
    requires |tied| == 1
    ensures UniqueFewest(cw, d, a, v)
  {
    assert tied == (tied - {v}) + {v};
    assert tied - {v} == {};
    forall u | u in cw.variables && u !in a && u != v ensures |d[v]| < |d[u]| {
      assert u !in tied - {v};
    }
  }

  lemma TiedFewestIsNotUnique(cw: Crossword, d: Domains, a: Assignment, v: Variable, tied: set<Variable>)
    requires d.Keys == cw.variables && v in cw.variables && v !in a
    requires forall u | u in cw.variables && u !in a :: |d[v]| <= |d[u]|
    requires forall u :: u in tied <==> u in cw.variables && u !in a && |d[u]| == |d[v]|
    requires |tied| != 1
    ensures forall u :: !UniqueFewest(cw, d, a, u)
  {
    assert tied == (tied - {v}) + {v};
    assert tied - {v} != {};
    var t :| t in tied && t != v;
    forall u ensures !UniqueFewest(cw, d, a, u) {
      if u == v {
        assert |d[t]| == |d[v]|;
      }
    }
  }

  /** `s` is a solution that extends `a` and takes every word it adds from
      the domains `d`. */
  ghost predicate Completes(cw: Crossword, d: Domains, a: Assignment, s: Assignment) {
    Solution(cw, s) && Extends(s, a) && forall v | v in s && v !in a :: v in d && s[v] in d[v]
  }

  ghost predicate NoCompletion(cw: Crossword, d: Domains, a: Assignment) {
    forall s :: !Completes(cw, d, a, s)
  }

  /** An inconsistent assignment extends to no solution. */
  lemma InvalidHasNoCompletion(cw: Crossword, d: Domains, a: Assignment)
    requires !Valid(cw, a)
    ensures NoCompletion(cw, d, a)
  {
    forall s ensures !Completes(cw, d, a, s) {
      if Extends(s, a) && Valid(cw, s) {
        ValidShrinks(cw, s, a);
      }
    }
  }

  /** A solution extending `a` also extends `a` plus its own word for `v`. */
  lemma CompletesBranch(cw: Crossword, d: Domains, a: Assignment, v: Variable, s: Assignment)
    requires v in cw.variables && v !in a
    ensures Completes(cw, d, a, s) ==> v in s && s[v] in d[v] && Completes(cw, d, a[v := s[v]], s)
  {
  }

  /** None of the first `n` words of `ws`, given to `v`, extends `a` to a
      solution. */
  ghost predicate Exhausted(cw: Crossword, d: Domains, a: Assignment, v: Variable, ws: seq<string>, n: nat)
    requires n <= |ws|
  {
    forall k | 0 <= k < n :: NoCompletion(cw, d, a[v := ws[k]])
  }

  lemma ExhaustedExtend(cw: Crossword, d: Domains, a: Assignment, v: Variable, ws: seq<string>, n: nat)
    requires n < |ws| && Exhausted(cw, d, a, v, ws, n) && NoCompletion(cw, d, a[v := ws[n]])
    ensures Exhausted(cw, d, a, v, ws, n + 1)
  {
  }

  /** If no value of the domain of `v` leads to a solution, nothing does. */
  lemma NoCompletionFromBranches(cw: Crossword, d: Domains, a: Assignment, v: Variable, values: seq<string>)
    requires v in cw.variables && v !in a && v in d
    requires forall w :: w in values <==> w in d[v]
    requires Exhausted(cw, d, a, v, values, |values|)
    ensures NoCompletion(cw, d, a)
  {
    forall s ensures !Completes(cw, d, a, s) {
      CompletesBranch(cw, d, a, v, s);
    }
  }

  lemma OutsiderExists<T>(small: set<T>, large: set<T>)
    requires small <= large && small != large
    ensures large - small != {}
  {
    var t :| t in large && t !in small;
    assert t in large - small;
  }

  /** What a successful search returns for `a`: a complete assignment that
      extends `a` with words from `d`, and that is consistent unless it is
      `a` itself (which the search returns unchecked once it is complete). */
  ghost predicate Found(cw: Crossword, d: Domains, a: Assignment, s: Assignment) {
    && AssignmentComplete(cw, s)
    && Extends(s, a)
    && (forall v | v in s && v !in a :: v in d && s[v] in d[v])
    && (s == a || Valid(cw, s))
  }

  /** A result found below the consistent branch `a[v := w]` is a result for `a`. */
  lemma FoundThroughBranch(cw: Crossword, d: Domains, a: Assignment, v: Variable, w: string, s: Assignment)
    requires v !in a && v in d && w in d[v] && Valid(cw, a[v := w])
    requires Found(cw, d, a[v := w], s)
    ensures Found(cw, d, a, s)
  {
  }

  /** Assigning one more variable brings the search one step closer to a
      complete assignment. */
  lemma OneMoreAssigned(cw: Crossword, a: Assignment, v: Variable, w: string)
    requires a.Keys <= cw.variables && v in cw.variables && v !in a
    ensures a[v := w].Keys <= cw.variables
    ensures |cw.variables - a[v := w].Keys| < |cw.variables - a.Keys|
  {
    assert cw.variables - a[v := w].Keys == (cw.variables - a.Keys) - {v};
  }

  /** Recursive backtracking: returns the assignment once it is complete;
      otherwise selects a variable and tries its values in least-constraining
      order (`TryValues`). */
  method Backtrack(cw: Crossword, d: Domains, a: Assignment) returns (r: Option<Assignment>)
    requires WellFormed(cw) && d.Keys == cw.variables && NodeConsistent(d)
    requires a.Keys <= cw.variables
    requires a.Keys == cw.variables ==> AssignmentComplete(cw, a)
    ensures r.Some? ==> Found(cw, d, a, r.value)
    ensures r.None? ==> NoCompletion(cw, d, a)
    decreases |cw.variables - a.Keys|, 2
  {
    if AssignmentComplete(cw, a) {
      return Some(a);
    }
    OutsiderExists(a.Keys, cw.variables);
    var v := SelectUnassignedVariable(cw, d, a);
    var values := OrderDomainValues(cw, d, v, a);
    r := TryValues(cw, d, a, v, values);
  }

  /** The loop of the search over the ordered values of `v`: each value that
      keeps the assignment consistent is explored recursively, and the first
      solution found is returned. The assignment is a value here, so taking
      `v` out again after a failed value, as `generate.py` does, is implicit. */
  method TryValues(cw: Crossword, d: Domains, a: Assignment, v: Variable, values: seq<string>)
    returns (r: Option<Assignment>)
    requires WellFormed(cw) && d.Keys == cw.variables && NodeConsistent(d)
    requires a.Keys <= cw.variables && v in cw.variables && v !in a
    requires forall w :: w in values <==> w in d[v]
    ensures r.Some? ==> Found(cw, d, a, r.value)
    ensures r.Some? ==> exists i | 0 <= i < |values| ::
              v in r.value && r.value[v] == values[i] && Exhausted(cw, d, a, v, values, i)
    ensures r.None? ==> NoCompletion(cw, d, a)
    decreases |cw.variables - a.Keys|, 1
  {
    var i := 0;
    while i < |values|
      invariant 0 <= i <= |values|
      invariant Exhausted(cw, d, a, v, values, i)
    {
      var result := TryValue(cw, d, a, v, values[i]);
      if result.Some? {
        assert Exhausted(cw, d, a, v, values, i);
        return result;
      }
      ExhaustedExtend(cw, d, a, v, values, i);
      i := i + 1;
    }
    NoCompletionFromBranches(cw, d, a, v, values);
    return None;
  }

  /** One turn of that loop: gives `w` to `v` and, when the assignment stays
      consistent, continues the search below it. */
  method TryValue(cw: Crossword, d: Domains, a: Assignment, v: Variable, w: string)
    returns (r: Option<Assignment>)
    requires WellFormed(cw) && d.Keys == cw.variables && NodeConsistent(d)
    requires a.Keys <= cw.variables && v in cw.variables && v !in a && w in d[v]
    ensures r.Some? ==> Found(cw, d, a, r.value) && v in r.value && r.value[v] == w
    ensures r.None? ==> NoCompletion(cw, d, a[v := w])
    decreases |cw.variables - a.Keys|, 0
  {
    var test := a[v := w];
    if !Consistent(cw, test) {
      InvalidHasNoCompletion(cw, d, test);
      return None;
    }
    FullValidIsComplete(cw, test);
    OneMoreAssigned(cw, a, v, w);
    r := Backtrack(cw, d, test);
    if r.Some? {
      FoundThroughBranch(cw, d, a, v, w, r.value);
    }
  }

  /** Every variable starts with the whole vocabulary as its domain. */
  function InitialDomains(cw: Crossword): (d: Domains)
    ensures d.Keys == cw.variables && forall v | v in d :: d[v] == cw.words
  {
    map v | v in cw.variables :: cw.words
  }

  /** Node consistency, then AC-3 (whose verdict `generate.py` ignores), then
      backtracking from the empty assignment. */
  method Solve(cw: Crossword) returns (r: Option<Assignment>)
    requires WellFormed(cw)
    ensures r.Some? ==> Solution(cw, r.value) && forall v | v in r.value :: r.value[v] in cw.words
    ensures r.None? ==> forall s | Solution(cw, s) :: exists v | v in s :: s[v] !in cw.words
  {
    var d := InitialDomains(cw);
    var nodeConsistent := EnforceNodeConsistency(d);
    var _, pruned := AC3(cw, nodeConsistent, None);
    forall s | Solution(cw, s) && Within(s, d) ensures Completes(cw, pruned, map[], s) {
      NodeConsistencyKeepsSolutions(cw, d, s);
    }
    r := Backtrack(cw, pruned, map[]);
  }
}
