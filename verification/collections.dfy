/** Helpers shared by the modules that iterate over sets. */
module Collections {
  /** The elements of a set in some order, each once; stands for iterating
      over a Python set, whose order the program does not rely on. */
  method Enumerate<T>(s: set<T>) returns (r: seq<T>)
    ensures forall t :: t in r <==> t in s
    ensures forall i, j | 0 <= i < j < |r| :: r[i] != r[j]
  {
    r := [];
    var rest := s;
    while rest != {}
      invariant rest <= s
      invariant forall t :: t in r <==> t in s && t !in rest
      invariant forall i, j | 0 <= i < j < |r| :: r[i] != r[j]
      decreases rest
    {
      var t :| t in rest;
      r := r + [t];
      rest := rest - {t};
    }
  }

  /** An element of `s` with the least key; ties go to any of them. */
  method Lightest<T>(s: set<T>, key: map<T, int>) returns (t: T)
    requires s != {} && s <= key.Keys
    ensures t in s && forall u | u in s :: key[t] <= key[u]
  {
    t :| t in s;
    var rest := s - {t};
    while rest != {}
      invariant t in s && rest <= s
      invariant forall u | u in s - rest :: key[t] <= key[u]
      decreases rest
    {
      var u :| u in rest;
      if key[u] < key[t] {
        t := u;
      }
      rest := rest - {u};
    }
  }

  /** An element of `s` with the greatest key; ties go to any of them. */
  method Heaviest<T>(s: set<T>, key: map<T, int>) returns (t: T)
    requires s != {} && s <= key.Keys
    ensures t in s && forall u | u in s :: key[u] <= key[t]
  {
    t :| t in s;
    var rest := s - {t};
    while rest != {}
      invariant t in s && rest <= s
      invariant forall u | u in s - rest :: key[u] <= key[t]
      decreases rest
    {
      var u :| u in rest;
      if key[t] < key[u] {
        t := u;
      }
      rest := rest - {u};
    }
  }

  /** The elements of `s`, each once, in ascending order of their keys; the
      order among equal keys is left open. */
  method SortByKey<T>(s: set<T>, key: map<T, int>) returns (r: seq<T>)
    requires s <= key.Keys
    ensures forall t :: t in r <==> t in s
    ensures forall i, j | 0 <= i < j < |r| :: r[i] != r[j]
    ensures forall i, j | 0 <= i < j < |r| :: key[r[i]] <= key[r[j]]
  {
    r := [];
    var rest := s;
    while rest != {}
      invariant rest <= s
      invariant forall t :: t in r <==> t in s && t !in rest
      invariant forall i, j | 0 <= i < j < |r| :: r[i] != r[j]
      invariant forall i, j | 0 <= i < j < |r| :: key[r[i]] <= key[r[j]]
      invariant forall i, t | 0 <= i < |r| && t in rest :: key[r[i]] <= key[t]
      decreases rest
    {
      var t := Lightest(rest, key);
      r := r + [t];
      rest := rest - {t};
    }
  }
}
