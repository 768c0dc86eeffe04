/**
 * Faceted filters of the dashboard sidebar. Each school carries six text
 * columns the user can filter on; a filter with an empty selection does not
 * restrict anything. The option list of one filter is computed from the
 * schools that pass the global mask and every OTHER non-empty filter, so a
 * filter never narrows its own options.
 */
module Filters {

  datatype Column = DRE | SUBPREF | TIPOESC | BAIRRO | DISTRITO | NOMES

  /** The keys of `current_filters`, in the dictionary's order. */
  const FilterKeys: seq<Column> := [DRE, SUBPREF, TIPOESC, BAIRRO, DISTRITO, NOMES]

  datatype School = School(
    speed: real,
    dre: string, subpref: string, tipoesc: string,
    bairro: string, distrito: string, nome: string)

  function Value(s: School, col: Column): string {
    match col
    case DRE => s.dre
    case SUBPREF => s.subpref
    case TIPOESC => s.tipoesc
    case BAIRRO => s.bairro
    case DISTRITO => s.distrito
    case NOMES => s.nome
  }

  /** The current selection of each filter (`current_filters`). */
  datatype Selections = Selections(
    dre: seq<string>, subpref: seq<string>, tipoesc: seq<string>,
    bairro: seq<string>, distrito: seq<string>, nomes: seq<string>)

  function Selected(f: Selections, col: Column): seq<string> {
    match col
    case DRE => f.dre
    case SUBPREF => f.subpref
    case TIPOESC => f.tipoesc
    case BAIRRO => f.bairro
    case DISTRITO => f.distrito
    case NOMES => f.nomes
  }

  /** A school satisfies one filter: the filter is empty or holds the
      school's value (`isin`). */
  predicate Matches(s: School, f: Selections, col: Column) {
    Selected(f, col) == [] || Value(s, col) in Selected(f, col)
  }

  /** Row i survives the global mask and every filter other than `exclude`. */
  predicate PassesOthers(rows: seq<School>, globalMask: seq<bool>, f: Selections, exclude: Column, i: int)
    requires |globalMask| == |rows| && 0 <= i < |rows|
  {
    globalMask[i] && forall col :: col != exclude ==> Matches(rows[i], f, col)
  }

  /** Row i survives the global mask and every filter (`mask_interactive`). */
  predicate PassesAll(rows: seq<School>, globalMask: seq<bool>, f: Selections, i: int)
    requires |globalMask| == |rows| && 0 <= i < |rows|
  {
    globalMask[i] && forall col :: Matches(rows[i], f, col)
  }

  /** `mask &= rows[col].isin(sel)` */
  function Narrow(mask: seq<bool>, rows: seq<School>, col: Column, sel: seq<string>): (r: seq<bool>)
    requires |mask| == |rows|
    ensures |r| == |rows|
    ensures forall i :: 0 <= i < |rows| ==> (r[i] <==> mask[i] && Value(rows[i], col) in sel)
  {
    seq(|rows|, i requires 0 <= i < |rows| => mask[i] && Value(rows[i], col) in sel)
  }

  // ---------------------------------------------------------------------
  // Python's ordering of strings: lexicographic by code point

  predicate Less(a: string, b: string)
    decreases |a|
  {
    |b| > 0 && (|a| == 0 || a[0] < b[0] || (a[0] == b[0] && Less(a[1..], b[1..])))
  }

  lemma {:induction false} LessIrreflexive(a: string)
    ensures !Less(a, a)
    decreases |a|
  {
    if |a| > 0 { LessIrreflexive(a[1..]); }
  }

  lemma {:induction false} LessTransitive(a: string, b: string, c: string)
    requires Less(a, b) && Less(b, c)
    ensures Less(a, c)
    decreases |a|
  {
    if |a| > 0 && a[0] == b[0] && b[0] == c[0] {
      LessTransitive(a[1..], b[1..], c[1..]);
    }
  }

  lemma {:induction false} LessTotal(a: string, b: string)
    requires a != b
    ensures Less(a, b) || Less(b, a)
    decreases |a|
  {
    if |a| > 0 && |b| > 0 && a[0] == b[0] {
      assert a == [a[0]] + a[1..] && b == [b[0]] + b[1..];
      LessTotal(a[1..], b[1..]);
    }
  }

  lemma LessAsymmetric(a: string, b: string)
    requires Less(a, b)
    ensures !Less(b, a)
  {
    if Less(b, a) {
      LessTransitive(a, b, a);
      LessIrreflexive(a);
    }
  }

  predicate StrictlySorted(s: seq<string>) {
    forall i, j :: 0 <= i < j < |s| ==> Less(s[i], s[j])
  }

  /** Insertion of a value into a strictly sorted list without duplicates. */
  function Insert(s: seq<string>, v: string): (r: seq<string>)
    requires StrictlySorted(s)
    ensures StrictlySorted(r)
    ensures forall x :: x in r <==> x in s || x == v
  {
    if s == [] then [v]
    else if v == s[0] then s
    else if Less(v, s[0]) then
      assert forall j :: 0 <= j < |s| ==> Less(v, s[j]) by {
        forall j | 0 < j < |s| { LessTransitive(v, s[0], s[j]); }
      }
      [v] + s
    else
      LessTotal(v, s[0]);
      var rest := Insert(s[1..], v);
      assert forall x :: x in rest ==> Less(s[0], x);
      [s[0]] + rest
  }

  /** `sorted(set(values))`: the distinct values in increasing order. */
  function SortedDistinct(values: seq<string>): (r: seq<string>)
    ensures StrictlySorted(r)
    ensures forall x :: x in r <==> x in values
  {
    if values == [] then []
    else Insert(SortedDistinct(values[..|values| - 1]), values[|values| - 1])
  }

  /** A strictly sorted list is determined by its elements. */
  lemma {:induction false} SortedUnique(a: seq<string>, b: seq<string>)
    requires StrictlySorted(a) && StrictlySorted(b)
    requires forall x :: x in a <==> x in b
    ensures a == b
  {
    assert b != [] ==> b[0] in a;
    if a != [] {
      assert a[0] in b;
      assert b != [] && b[0] in a;
      if a[0] != b[0] {
        var i :| 0 <= i < |a| && a[i] == b[0];
        var j :| 0 <= j < |b| && b[j] == a[0];
        assert Less(a[0], b[0]);
        assert Less(b[0], a[0]);
        LessAsymmetric(a[0], b[0]);
      }
      SameTail(a, b);
      SameTail(b, a);
      SortedUnique(a[1..], b[1..]);
      assert a == [a[0]] + a[1..] && b == [b[0]] + b[1..];
    }
  }

  lemma SameTail(a: seq<string>, b: seq<string>)
    requires StrictlySorted(a) && StrictlySorted(b) && a != [] && b != [] && a[0] == b[0]
    requires forall x :: x in a <==> x in b
    ensures forall x :: x in a[1..] ==> x in b[1..]
  {
    forall x | x in a[1..] ensures x in b[1..] {
      var i :| 0 <= i < |a[1..]| && a[1..][i] == x;
      assert Less(a[0], a[i + 1]);
      LessIrreflexive(x);
      assert a[i + 1] == x && x in a;
      var j :| 0 <= j < |b| && b[j] == x;
      assert j != 0;
      assert b[1..][j - 1] == x;
    }
  }

  /** The values of column `col` on the rows whose mask entry is true
      (`rows.loc[mask, col]`). */
  function Picked(rows: seq<School>, mask: seq<bool>, col: Column): (vs: seq<string>)
    requires |mask| == |rows|
    ensures forall v :: v in vs <==> exists i :: 0 <= i < |rows| && mask[i] && Value(rows[i], col) == v
  {
    if rows == [] then []
    else
      var n := |rows| - 1;
      var init := Picked(rows[..n], mask[..n], col);
      assert forall i :: 0 <= i < n ==> rows[..n][i] == rows[i] && mask[..n][i] == mask[i];
      init + (if mask[n] then [Value(rows[n], col)] else [])
  }

  // ---------------------------------------------------------------------
  // Options and masks

  /** The option list of one filter is strictly sorted and holds exactly the
      `col` values of the schools that pass the global mask and every
      non-empty filter other than `exclude`. */
  ghost predicate IsOptionList(opts: seq<string>, rows: seq<School>, globalMask: seq<bool>,
                         col: Column, exclude: Column, f: Selections)
    requires |globalMask| == |rows|
  {
    && StrictlySorted(opts)
    && forall v :: v in opts <==>
         exists i :: 0 <= i < |rows| && PassesOthers(rows, globalMask, f, exclude, i) && Value(rows[i], col) == v
  }

  function KeyIndex(col: Column): (j: nat)
    ensures j < |FilterKeys| && FilterKeys[j] == col
  {
    match col
    case DRE => 0
    case SUBPREF => 1
    case TIPOESC => 2
    case BAIRRO => 3
    case DISTRITO => 4
    case NOMES => 5
  }

  /** `available_options(col, exclude_filter, current_filters)`: starts from
      the global mask, ANDs in every other non-empty filter, and returns the
      sorted distinct values of `col` on the surviving rows. */
  method AvailableOptions(rows: seq<School>, globalMask: seq<bool>, col: Column, exclude: Column, f: Selections)
    returns (opts: seq<string>)
    requires |globalMask| == |rows|
    ensures IsOptionList(opts, rows, globalMask, col, exclude, f)
  {
    var mask := globalMask;
    for k := 0 to |FilterKeys|
      invariant |mask| == |rows|
      invariant forall i :: 0 <= i < |rows| ==>
        (mask[i] <==> globalMask[i] &&
                      forall j :: 0 <= j < k && FilterKeys[j] != exclude ==> Matches(rows[i], f, FilterKeys[j]))
    {
      var key := FilterKeys[k];
      var sel := Selected(f, key);
      if key != exclude && sel != [] {
        mask := Narrow(mask, rows, key, sel);
      }
    }
    forall i | 0 <= i < |rows|
      ensures mask[i] <==> PassesOthers(rows, globalMask, f, exclude, i)
    {
      if mask[i] {
        forall col | col != exclude ensures Matches(rows[i], f, col) {
          var j := KeyIndex(col);
        }
      }
    }
    opts := SortedDistinct(Picked(rows, mask, col));
  }

  /** The excluded filter's own selection plays no part in its option list:
      two option lists that differ only in that selection are equal. */
  lemma OptionsIgnoreExcluded(opts: seq<string>, opts': seq<string>, rows: seq<School>, globalMask: seq<bool>,
                              col: Column, exclude: Column, f: Selections, f': Selections)
    requires |globalMask| == |rows|
    requires forall c :: c != exclude ==> Selected(f, c) == Selected(f', c)
    requires IsOptionList(opts, rows, globalMask, col, exclude, f)
    requires IsOptionList(opts', rows, globalMask, col, exclude, f')
    ensures opts == opts'
  {
    forall i | 0 <= i < |rows|
      ensures PassesOthers(rows, globalMask, f, exclude, i) == PassesOthers(rows, globalMask, f', exclude, i)
    {
      assert forall c :: c != exclude ==> Matches(rows[i], f, c) == Matches(rows[i], f', c);
    }
    SortedUnique(opts, opts');
  }

  lemma MatchesEveryColumn(s: School, f: Selections)
    ensures (forall col :: Matches(s, f, col)) <==>
      && Matches(s, f, DRE) && Matches(s, f, SUBPREF) && Matches(s, f, TIPOESC)
      && Matches(s, f, BAIRRO) && Matches(s, f, DISTRITO) && Matches(s, f, NOMES)
  {
  }

  /** `mask_interactive`: the global mask ANDed with every non-empty
      selection, one `if` per filter. */
  method InteractiveMask(rows: seq<School>, globalMask: seq<bool>, f: Selections)
    returns (mask: seq<bool>)
    requires |globalMask| == |rows|
    ensures |mask| == |rows|
    ensures forall i :: 0 <= i < |rows| ==> (mask[i] <==> PassesAll(rows, globalMask, f, i))
  {
    mask := globalMask;
    if f.dre != [] { mask := Narrow(mask, rows, DRE, f.dre); }
    if f.subpref != [] { mask := Narrow(mask, rows, SUBPREF, f.subpref); }
    if f.tipoesc != [] { mask := Narrow(mask, rows, TIPOESC, f.tipoesc); }
    if f.bairro != [] { mask := Narrow(mask, rows, BAIRRO, f.bairro); }
    if f.distrito != [] { mask := Narrow(mask, rows, DISTRITO, f.distrito); }
    if f.nomes != [] { mask := Narrow(mask, rows, NOMES, f.nomes); }
    forall i | 0 <= i < |rows|
      ensures mask[i] <==> PassesAll(rows, globalMask, f, i)
    {
      MatchesEveryColumn(rows[i], f);
    }
  }

  /** Every school left on the map after filtering has its value of each
      column among that column's options, computed with the same selections:
      no displayed school is missing from a filter's choices. */
  lemma ShownSchoolIsOffered(rows: seq<School>, globalMask: seq<bool>, f: Selections,
                             i: int, col: Column, opts: seq<string>)
    requires |globalMask| == |rows| && 0 <= i < |rows|
    requires PassesAll(rows, globalMask, f, i)
    requires IsOptionList(opts, rows, globalMask, col, col, f)
    ensures Value(rows[i], col) in opts
  {
    assert PassesOthers(rows, globalMask, f, col, i);
  }

  /** With every selection empty, a filter offers the value of every row in
      the global mask. */
  lemma NoSelectionOffersAll(rows: seq<School>, globalMask: seq<bool>, col: Column,
                             f: Selections, opts: seq<string>)
    requires |globalMask| == |rows|
    requires forall c :: Selected(f, c) == []
    requires IsOptionList(opts, rows, globalMask, col, col, f)
    ensures forall i :: 0 <= i < |rows| && globalMask[i] ==> Value(rows[i], col) in opts
  {
    forall i | 0 <= i < |rows| && globalMask[i] ensures Value(rows[i], col) in opts {
      assert PassesOthers(rows, globalMask, f, col, i);
    }
  }
}
