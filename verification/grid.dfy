/** The crossword structure the solver works on: its variables (slots), the
    vocabulary, and the overlap map between ordered pairs of variables.
    Building these from the structure and word files is not part of this
    model; a structure is taken as given, subject to `WellFormed`. */
module Grid {
  import opened Wrappers

  datatype Direction = Across | Down

  /** A slot: start cell, direction and number of cells. */
  datatype Variable = Variable(i: int, j: int, direction: Direction, length: nat)

  /** `(k, l)`: letter `k` of the first variable's word sits on the same cell
      as letter `l` of the second variable's word. */
  type Overlap = (nat, nat)

  type Arc = (Variable, Variable)

  datatype Crossword = Crossword(
    variables: set<Variable>,
    words: set<string>,
    overlaps: map<Arc, Option<Overlap>>)

  /** Candidate words per variable. */
  type Domains = map<Variable, set<string>>

  /** A (partial) choice of one word per variable. */
  type Assignment = map<Variable, string>

  function Flip(o: Option<Overlap>): Option<Overlap> {
    match o
    case None => None
    case Some(p) => Some((p.1, p.0))
  }

  /** What the construction of a crossword guarantees: every slot spans at
      least two cells, there is an overlap entry for every ordered pair of
      distinct variables and for nothing else, entries of opposite arcs are
      mirror images, and offsets fall inside their slots. */
  ghost predicate WellFormed(cw: Crossword) {
    && (forall v | v in cw.variables :: v.length >= 2)
    && (forall x, y :: (x, y) in cw.overlaps <==>
          x in cw.variables && y in cw.variables && x != y)
    && (forall x, y | (x, y) in cw.overlaps ::
          cw.overlaps[(y, x)] == Flip(cw.overlaps[(x, y)]))
    && (forall x, y | (x, y) in cw.overlaps && cw.overlaps[(x, y)].Some? ::
          cw.overlaps[(x, y)].value.0 < x.length && cw.overlaps[(x, y)].value.1 < y.length)
  }

  /** An arc the solver may revise: two distinct variables of the crossword. */
  predicate IsArc(cw: Crossword, arc: Arc) {
    arc.0 in cw.variables && arc.1 in cw.variables && arc.0 != arc.1
  }

  /** An arc whose two slots share a cell. */
  ghost predicate Overlapping(cw: Crossword, x: Variable, y: Variable)
    requires WellFormed(cw)
  {
    IsArc(cw, (x, y)) && cw.overlaps[(x, y)].Some?
  }

  /** The variables sharing a cell with `x`. The overlap is looked up from
      the neighbour's side; symmetry makes that the same as looking it up
      from `x`'s side. */
  function Neighbors(cw: Crossword, x: Variable): (r: set<Variable>)
    requires WellFormed(cw) && x in cw.variables
    ensures forall y :: y in r <==> Overlapping(cw, x, y)
  {
    set v | v in cw.variables && v != x && cw.overlaps[(v, x)].Some?
  }

  /** Words fit an overlap when they carry the same letter on the shared cell;
      variables that do not overlap impose nothing. */
  ghost predicate Fits(o: Option<Overlap>, wx: string, wy: string) {
    match o
    case None => true
    case Some(p) => p.0 < |wx| && p.1 < |wy| && wx[p.0] == wy[p.1]
  }

  /** Every candidate word has its variable's length. */
  ghost predicate NodeConsistent(d: Domains) {
    forall v, w | v in d && w in d[v] :: |w| == v.length
  }

  /** Every word `s` chooses is still a candidate in `d`. */
  ghost predicate Within(s: Assignment, d: Domains) {
    forall v | v in s :: v in d && s[v] in d[v]
  }
}
