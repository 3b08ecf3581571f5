/** Domain pruning of the crossword generator: node consistency (word
    length), `revise` and the AC-3 worklist algorithm. Domains are values
    here: each operation returns the pruned domains instead of updating
    them in place. */
module Propagation {
  import opened Wrappers
  import opened Grid
  import opened Consistency
  import opened Collections

  /** Drops every candidate whose length differs from its variable's. */
  function EnforceNodeConsistency(d: Domains): (r: Domains)
    ensures r.Keys == d.Keys
    ensures NodeConsistent(r)
    ensures forall v | v in d :: r[v] <= d[v]
    ensures forall v, w | v in d && w in d[v] && w !in r[v] :: |w| != v.length
  {
    map v | v in d :: set w | w in d[v] && |w| == v.length
  }

  /** Node consistency removes no word a solution could use. */
  lemma NodeConsistencyKeepsSolutions(cw: Crossword, d: Domains, s: Assignment)
    requires Solution(cw, s) && Within(s, d)
    ensures Within(s, EnforceNodeConsistency(d))
  {
  }

  /** Pruning for node consistency a second time removes nothing. */
  lemma NodeConsistencyIdempotent(d: Domains)
    ensures EnforceNodeConsistency(EnforceNodeConsistency(d)) == EnforceNodeConsistency(d)
  {
    var once := EnforceNodeConsistency(d);
    var twice := EnforceNodeConsistency(once);
    forall v | v in once ensures twice[v] == once[v] {
      assert forall w :: w in twice[v] <==> w in once[v];
    }
  }

  /** `w`, a candidate of `x`, has a partner in the domain of `y`, or the
      two variables do not overlap at all. */
  ghost predicate Supported(cw: Crossword, d: Domains, x: Variable, y: Variable, w: string)
    requires (x, y) in cw.overlaps && y in d
  {
    cw.overlaps[(x, y)].None? || exists u :: u in d[y] && Fits(cw.overlaps[(x, y)], w, u)
  }

  /** Every candidate of `x` has a partner in the domain of `y`. */
  ghost predicate ArcConsistent(cw: Crossword, d: Domains, x: Variable, y: Variable)
    requires (x, y) in cw.overlaps && x in d && y in d
  {
    forall w | w in d[x] :: Supported(cw, d, x, y, w)
  }

  /** `revise` returns whether it pruned, along with the pruned domains. */
  datatype Revision = Revision(revised: bool, domains: Domains)

  /** Makes `x` arc consistent with `y` by removing the candidates of `x`
      whose overlap letter is not the overlap letter of any candidate of `y`. */
  function Revise(cw: Crossword, d: Domains, x: Variable, y: Variable): (r: Revision)
    requires WellFormed(cw) && IsArc(cw, (x, y))
    requires x in d && y in d && NodeConsistent(d)
    ensures cw.overlaps[(x, y)].None? ==> r == Revision(false, d)
    ensures x in r.domains && r.domains == d[x := r.domains[x]]
    ensures r.domains.Keys == d.Keys && r.domains[x] <= d[x]
    ensures r.revised <==> r.domains[x] != d[x]
    ensures forall w :: w in r.domains[x] <==> w in d[x] && Supported(cw, d, x, y, w)
    ensures r.revised <==> exists w :: w in d[x] && !Supported(cw, d, x, y, w)
  {
    match cw.overlaps[(x, y)]
    case None => Revision(false, d)
    case Some(o) =>
      var letters := set u | u in d[y] :: u[o.1];
      var doomed := set w | w in d[x] && w[o.0] !in letters;
      Revision(doomed != {}, d[x := d[x] - doomed])
  }

  /** After `revise(x, y)`, the arc from `x` to `y` is consistent. */
  lemma ReviseMakesArcConsistent(cw: Crossword, d: Domains, x: Variable, y: Variable)
    requires WellFormed(cw) && IsArc(cw, (x, y))
    requires x in d && y in d && NodeConsistent(d)
    ensures ArcConsistent(cw, Revise(cw, d, x, y).domains, x, y)
  {
    var r := Revise(cw, d, x, y).domains;
    forall w | w in r[x] ensures Supported(cw, r, x, y, w) {
      if cw.overlaps[(x, y)].Some? {
        var u :| u in d[y] && Fits(cw.overlaps[(x, y)], w, u);
        assert u in r[y];
      }
    }
  }

  /** Revising an arc a second time removes nothing. */
  lemma ReviseIdempotent(cw: Crossword, d: Domains, x: Variable, y: Variable)
    requires WellFormed(cw) && IsArc(cw, (x, y))
    requires x in d && y in d && NodeConsistent(d)
    ensures !Revise(cw, Revise(cw, d, x, y).domains, x, y).revised
  {
    ReviseMakesArcConsistent(cw, d, x, y);
  }

  /** `revise` removes no word a solution could use. */
  lemma ReviseKeepsSolutions(cw: Crossword, d: Domains, x: Variable, y: Variable, s: Assignment)
    requires WellFormed(cw) && IsArc(cw, (x, y))
    requires x in d && y in d && NodeConsistent(d)
    requires Solution(cw, s) && Within(s, d)
    ensures Within(s, Revise(cw, d, x, y).domains)
  {
    assert x in s && y in s;
    assert Fits(cw.overlaps[(x, y)], s[x], s[y]);
  }

  /** Revising `x` against `y` cannot spoil the opposite arc: a candidate of
      `y` supported by some word of `x` supports that word in turn, because
      the overlap map is symmetric. */
  lemma ReviseKeepsReverseArc(cw: Crossword, d: Domains, x: Variable, y: Variable)
    requires WellFormed(cw) && IsArc(cw, (x, y))
    requires x in d && y in d && NodeConsistent(d)
    requires ArcConsistent(cw, d, y, x)
    ensures ArcConsistent(cw, Revise(cw, d, x, y).domains, y, x)
  {
    var r := Revise(cw, d, x, y).domains;
    if cw.overlaps[(y, x)].Some? {
      var p := cw.overlaps[(y, x)].value;
      assert cw.overlaps[(x, y)] == Some((p.1, p.0));
      forall u | u in r[y] ensures Supported(cw, r, y, x, u) {
        var w :| w in d[x] && Fits(Some(p), u, w);
        assert Fits(Some((p.1, p.0)), w, u);
        assert Supported(cw, d, x, y, w);
        assert w in r[x];
      }
    }
  }

  /** An arc stays consistent when its source loses words and its target
      keeps its words. */
  lemma ShrinkKeepsArc(cw: Crossword, d: Domains, e: Domains, x: Variable, y: Variable)
    requires (x, y) in cw.overlaps && x in d && y in d && x in e && y in e
    requires ArcConsistent(cw, d, x, y)
    requires e[x] <= d[x] && e[y] == d[y]
    ensures ArcConsistent(cw, e, x, y)
  {
    forall w | w in e[x] ensures Supported(cw, e, x, y, w) {
      assert Supported(cw, d, x, y, w);
    }
  }

  /** Every overlapping arc is arc consistent or still waits in the queue. */
  ghost predicate Settled(cw: Crossword, d: Domains, queue: seq<Arc>)
    requires WellFormed(cw) && d.Keys == cw.variables
  {
    forall x, y | Overlapping(cw, x, y) :: (x, y) in queue || ArcConsistent(cw, d, x, y)
  }

  /** One step of AC-3 keeps every arc settled: the revised arc becomes
      consistent, and each arc that revising `x` may spoil is queued again. */
  lemma StepKeepsSettled(cw: Crossword, d: Domains, x: Variable, y: Variable, rest: seq<Arc>, incoming: seq<Arc>)
    requires WellFormed(cw) && d.Keys == cw.variables && NodeConsistent(d)
    requires IsArc(cw, (x, y))
    requires Settled(cw, d, [(x, y)] + rest)
    requires Revise(cw, d, x, y).revised ==>
               forall z | Overlapping(cw, z, x) && z != y :: (z, x) in incoming
    ensures Settled(cw, Revise(cw, d, x, y).domains, rest + incoming)
  {
    var rev := Revise(cw, d, x, y);
    var r := rev.domains;
    forall p, q | Overlapping(cw, p, q)
      ensures (p, q) in rest + incoming || ArcConsistent(cw, r, p, q)
    {
      if (p, q) == (x, y) {
        ReviseMakesArcConsistent(cw, d, x, y);
      } else if (p, q) !in rest {
        assert (p, q) !in [(x, y)] + rest;
        assert ArcConsistent(cw, d, p, q);
        if q != x {
          ShrinkKeepsArc(cw, d, r, p, q);
        } else if p == y {
          ReviseKeepsReverseArc(cw, d, x, y);
        } else if !rev.revised {
          assert r[x] == d[x];
          assert r == d;
        } else {
          assert (p, q) in incoming;
        }
      }
    }
  }

  /** The (variable, word) candidate pairs; AC-3 shrinks this set each time
      it prunes. */
  ghost function Candidates(d: Domains): set<(Variable, string)> {
    set v, w | v in d && w in d[v] :: (v, w)
  }

  lemma PruningShrinksCandidates(d: Domains, x: Variable, smaller: set<string>)
    requires x in d && smaller < d[x]
    ensures Candidates(d[x := smaller]) < Candidates(d)
  {
    var w :| w in d[x] && w !in smaller;
    assert (x, w) in Candidates(d);
    assert (x, w) !in Candidates(d[x := smaller]);
  }

  /** What a revision keeps of AC-3's loop invariant: the domains shrink
      from the ones AC-3 started with and still admit every solution they
      admitted. */
  lemma RevisionKeepsInvariant(cw: Crossword, d: Domains, r: Domains, x: Variable, y: Variable)
    requires WellFormed(cw) && d.Keys == cw.variables && IsArc(cw, (x, y))
    requires r.Keys == d.Keys && NodeConsistent(r) && Shrunk(r, d)
    requires KeepsSolutions(cw, d, r)
    ensures var e := Revise(cw, r, x, y).domains;
      e.Keys == d.Keys && NodeConsistent(e) && Shrunk(e, d) && KeepsSolutions(cw, d, e)
  {
    var e := Revise(cw, r, x, y).domains;
    forall s | Solution(cw, s) && Within(s, d) ensures Within(s, e) {
      ReviseKeepsSolutions(cw, r, x, y, s);
    }
  }

  /** Every solution whose words are candidates in `d` still has its words
      among the candidates in `e`. */
  ghost predicate KeepsSolutions(cw: Crossword, d: Domains, e: Domains) {
    forall s | Solution(cw, s) && Within(s, d) :: Within(s, e)
  }

  /** Every domain of `e` is a subset of the same variable's domain in `d`. */
  ghost predicate Shrunk(e: Domains, d: Domains) {
    forall v | v in d :: v in e && e[v] <= d[v]
  }

  /** The arcs `(z, x)` from every neighbour `z` of `x` other than `y`, in
      the unspecified order of Python's set iteration. */
  method IncomingArcs(cw: Crossword, x: Variable, y: Variable) returns (arcs: seq<Arc>)
    requires WellFormed(cw) && x in cw.variables
    ensures forall k | 0 <= k < |arcs| ::
              IsArc(cw, arcs[k]) && Overlapping(cw, arcs[k].0, x) && arcs[k].1 == x && arcs[k].0 != y
    ensures forall z | Overlapping(cw, z, x) && z != y :: (z, x) in arcs
    ensures forall i, j | 0 <= i < j < |arcs| :: arcs[i] != arcs[j]
  {
    arcs := [];
    var rest := Neighbors(cw, x) - {y};
    while rest != {}
      invariant rest <= Neighbors(cw, x) - {y}
      invariant forall k | 0 <= k < |arcs| ::
                  IsArc(cw, arcs[k]) && Overlapping(cw, arcs[k].0, x) && arcs[k].1 == x && arcs[k].0 != y
                  && arcs[k].0 !in rest
      invariant forall z | Overlapping(cw, z, x) && z != y && z !in rest :: (z, x) in arcs
      invariant forall i, j | 0 <= i < j < |arcs| :: arcs[i] != arcs[j]
      decreases rest
    {
      var z :| z in rest;
      arcs := arcs + [(z, x)];
      rest := rest - {z};
    }
  }

  /** One turn of AC-3's loop: pops the arc `(x, y)` at the head of the
      queue and revises it. `emptied` reports that the revision left the
      domain of `x` empty; otherwise, if it pruned, the arcs into `x` other
      than the one from `y` join the back of the queue. */
  method ProcessArc(cw: Crossword, d: Domains, r: Domains, queue: seq<Arc>, tracked: bool)
    returns (emptied: bool, r': Domains, queue': seq<Arc>)
    requires WellFormed(cw) && d.Keys == cw.variables
    requires r.Keys == d.Keys && NodeConsistent(r) && Shrunk(r, d) && KeepsSolutions(cw, d, r)
    requires queue != [] && forall k | 0 <= k < |queue| :: IsArc(cw, queue[k])
    requires tracked ==> Settled(cw, r, queue)
    ensures r'.Keys == d.Keys && NodeConsistent(r') && Shrunk(r', d) && KeepsSolutions(cw, d, r')
    ensures forall v | v in d && v != queue[0].0 :: r'[v] == r[v]
    ensures IsArc(cw, queue[0]) && queue[0].0 in r'
    ensures emptied <==> r'[queue[0].0] == {} && r[queue[0].0] != {}
    ensures r' == Revise(cw, r, queue[0].0, queue[0].1).domains
    ensures !emptied ==> |queue'| >= |queue| - 1 && queue'[..|queue| - 1] == queue[1..]
    ensures !emptied ==> forall k | 0 <= k < |queue'| :: IsArc(cw, queue'[k])
    ensures !emptied ==> forall k | |queue| - 1 <= k < |queue'| ::
              Overlapping(cw, queue'[k].0, queue[0].0) && queue'[k].1 == queue[0].0 && queue'[k].0 != queue[0].1
    ensures !emptied && Revise(cw, r, queue[0].0, queue[0].1).revised ==>
              forall z | Overlapping(cw, z, queue[0].0) && z != queue[0].1 :: (z, queue[0].0) in queue'[|queue| - 1..]
    ensures !emptied && tracked ==> Settled(cw, r', queue')
    ensures !emptied ==> Candidates(r') < Candidates(r) || (r' == r && |queue'| < |queue|)
  {
    var (x, y) := queue[0];
    var rest := queue[1..];
    assert queue == [(x, y)] + rest;
    var revised;
    revised, r' := ReviseHead(cw, d, r, x, y);
    if revised && r'[x] == {} {
      return true, r', rest;
    }
    emptied := false;
    queue' := Requeue(cw, r, x, y, rest, revised, tracked);
  }

  /** The revision of the arc `(x, y)` at the head of AC-3's queue: it keeps
      the loop's invariants, changes only the domain of `x`, and when it
      prunes without emptying that domain it lowers the count of candidates. */
  method ReviseHead(cw: Crossword, d: Domains, r: Domains, x: Variable, y: Variable)
    returns (revised: bool, r': Domains)
    requires WellFormed(cw) && d.Keys == cw.variables && IsArc(cw, (x, y))
    requires r.Keys == d.Keys && NodeConsistent(r) && Shrunk(r, d) && KeepsSolutions(cw, d, r)
    ensures revised == Revise(cw, r, x, y).revised && r' == Revise(cw, r, x, y).domains
    ensures r'.Keys == d.Keys && NodeConsistent(r') && Shrunk(r', d) && KeepsSolutions(cw, d, r')
    ensures forall v | v in d && v != x :: r'[v] == r[v]
    ensures revised ==> r'[x] < r[x]
    ensures revised && r'[x] != {} ==> Candidates(r') < Candidates(r)
    ensures !revised ==> r' == r
  {
    var rev := Revise(cw, r, x, y);
    RevisionKeepsInvariant(cw, d, r, x, y);
    revised, r' := rev.revised, rev.domains;
    if revised {
      PruningShrinksCandidates(r, x, r'[x]);
    } else {
      assert r' == r;
    }
  }

  /** The queue after arc `(x, y)` is taken off it: the rest of the queue, and
      when `x`'s domain was pruned, every arc into `x` except the one from `y`. */
  method Requeue(cw: Crossword, r: Domains, x: Variable, y: Variable, rest: seq<Arc>, revised: bool, tracked: bool)
    returns (queue': seq<Arc>)
    requires WellFormed(cw) && r.Keys == cw.variables && NodeConsistent(r) && IsArc(cw, (x, y))
    requires revised == Revise(cw, r, x, y).revised
    requires forall k | 0 <= k < |rest| :: IsArc(cw, rest[k])
    requires tracked ==> Settled(cw, r, [(x, y)] + rest)
    ensures |queue'| >= |rest| && queue'[..|rest|] == rest
    ensures forall k | 0 <= k < |queue'| :: IsArc(cw, queue'[k])
    ensures forall k | |rest| <= k < |queue'| :: Overlapping(cw, queue'[k].0, x) && queue'[k].1 == x && queue'[k].0 != y
    ensures revised ==> forall z | Overlapping(cw, z, x) && z != y :: (z, x) in queue'[|rest|..]
    ensures forall i, j | |rest| <= i < j < |queue'| :: queue'[i] != queue'[j]
    ensures tracked ==> Settled(cw, Revise(cw, r, x, y).domains, queue')
    ensures !revised ==> queue' == rest
  {
    var incoming: seq<Arc> := [];
    if revised {
      incoming := IncomingArcs(cw, x, y);
    }
    if tracked {
      StepKeepsSettled(cw, r, x, y, rest, incoming);
    }
    queue' := rest + incoming;
    assert queue'[..|rest|] == rest && queue'[|rest|..] == incoming;
  }

  /** AC-3 over a FIFO worklist of arcs: all overlapping arcs when `arcs`
      is `None`, the given arcs otherwise. Pops an arc, revises it, fails as
      soon as a revision empties a domain, and otherwise queues every arc
      `(z, x)` into the revised variable `x` except the one from `y`. */
  method AC3(cw: Crossword, d: Domains, arcs: Option<seq<Arc>>) returns (ok: bool, r: Domains)
    requires WellFormed(cw) && d.Keys == cw.variables && NodeConsistent(d)
    requires arcs.Some? ==> forall k | 0 <= k < |arcs.value| :: IsArc(cw, arcs.value[k])
    ensures r.Keys == d.Keys && NodeConsistent(r)
    ensures forall v | v in d :: r[v] <= d[v]
    ensures forall s | Solution(cw, s) && Within(s, d) :: Within(s, r)
    ensures !ok ==> exists v | v in d :: r[v] == {} && d[v] != {}
    ensures ok ==> forall v | v in d && r[v] == {} :: d[v] == {}
    ensures ok && arcs.None? ==> forall x, y | Overlapping(cw, x, y) :: ArcConsistent(cw, r, x, y)
    ensures ok && arcs.None? ==> forall x, y | Overlapping(cw, x, y) && d[y] == {} :: d[x] == {}
  {
    var queue: seq<Arc>;
    if arcs.None? {
      var all := set x, y | x in cw.variables && y in cw.variables && x != y && cw.overlaps[(x, y)].Some? :: (x, y);
      assert forall a | a in all :: IsArc(cw, a);
      queue := Enumerate(all);
    } else {
      queue := arcs.value;
    }
    ok, r := Drain(cw, d, queue, arcs.None?);
    if ok && arcs.None? {
      forall x, y | Overlapping(cw, x, y) && d[y] == {} ensures d[x] == {} {
        EmptyTargetEmptiesSource(cw, r, x, y);
      }
    }
  }

  /** AC-3's loop: processes the queue from the front until it runs out or a
      revision empties a domain. When `tracked`, the queue starts with every
      overlapping arc, and then every arc ends up consistent. */
  method Drain(cw: Crossword, d: Domains, queue: seq<Arc>, tracked: bool) returns (ok: bool, r: Domains)
    requires WellFormed(cw) && d.Keys == cw.variables && NodeConsistent(d)
    requires forall k | 0 <= k < |queue| :: IsArc(cw, queue[k])
    requires tracked ==> Settled(cw, d, queue)
    ensures r.Keys == d.Keys && NodeConsistent(r) && Shrunk(r, d) && KeepsSolutions(cw, d, r)
    ensures !ok ==> exists v | v in d :: r[v] == {} && d[v] != {}
    ensures ok ==> forall v | v in d && r[v] == {} :: d[v] == {}
    ensures ok && tracked ==> forall x, y | Overlapping(cw, x, y) :: ArcConsistent(cw, r, x, y)
  {
    var q := queue;
    r := d;
    while q != []
      invariant r.Keys == d.Keys && NodeConsistent(r) && Shrunk(r, d) && KeepsSolutions(cw, d, r)
      invariant forall k | 0 <= k < |q| :: IsArc(cw, q[k])
      invariant forall v | v in d && r[v] == {} :: d[v] == {}
      invariant tracked ==> Settled(cw, r, q)
      decreases Candidates(r), |q|
    {
      var emptied;
      emptied, r, q := DrainStep(cw, d, r, q, tracked);
      if emptied {
        return false, r;
      }
    }
    ok := true;
  }

  /** One turn of `Drain`'s loop, stated as the loop needs it: the
      invariants are kept and the measure goes down, unless a domain that
      had candidates was emptied. */
  method DrainStep(cw: Crossword, d: Domains, r: Domains, queue: seq<Arc>, tracked: bool)
    returns (emptied: bool, r': Domains, queue': seq<Arc>)
    requires WellFormed(cw) && d.Keys == cw.variables
    requires r.Keys == d.Keys && NodeConsistent(r) && Shrunk(r, d) && KeepsSolutions(cw, d, r)
    requires queue != [] && forall k | 0 <= k < |queue| :: IsArc(cw, queue[k])
    requires forall v | v in d && r[v] == {} :: d[v] == {}
    requires tracked ==> Settled(cw, r, queue)
    ensures r'.Keys == d.Keys && NodeConsistent(r') && Shrunk(r', d) && KeepsSolutions(cw, d, r')
    ensures emptied ==> exists v | v in d :: r'[v] == {} && d[v] != {}
    ensures !emptied ==> forall k | 0 <= k < |queue'| :: IsArc(cw, queue'[k])
    ensures !emptied ==> forall v | v in d && r'[v] == {} :: d[v] == {}
    ensures !emptied && tracked ==> Settled(cw, r', queue')
    ensures !emptied ==> Candidates(r') < Candidates(r) || (r' == r && |queue'| < |queue|)
  {
    emptied, r', queue' := ProcessArc(cw, d, r, queue, tracked);
    var x := queue[0].0;
    if emptied {
      assert r'[x] == {} && d[x] != {};
    }
  }

  /** An arc into a slot with no candidates is consistent only when its
      source has no candidates either. */
  lemma EmptyTargetEmptiesSource(cw: Crossword, d: Domains, x: Variable, y: Variable)
    requires WellFormed(cw) && d.Keys == cw.variables && Overlapping(cw, x, y)
    requires ArcConsistent(cw, d, x, y) && d[y] == {}
    ensures d[x] == {}
  {
  }
}
