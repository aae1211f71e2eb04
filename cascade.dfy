/** `updateDependentCells`: after a cell changes, every formula cell whose formula text
    contains the changed id is re-evaluated into its display value, and the cascade goes on
    from that cell. The JavaScript recursion has no bound: a cell whose formula contains its
    own id recurses until the stack overflows. Here the recursion depth is a parameter and
    running out of it is the overflow, reported as a failed cascade. */
module Cascade {

  import opened Types
  import opened Text
  import opened FormulaFunctions
  import opened FormulaEval

  /** How deep the cascade may recurse before the stack overflows. */
  const CascadeDepth: nat := 1000

  /** The evaluator the cascade calls: `evaluateFormula(formula, cells, currentCellId)`. */
  type Evaluator = (string, Grid, string) -> CellValue

  /** What the cascade relies on: the evaluator never reads a display value. */
  ghost predicate DisplayBlind(eval: Evaluator) {
    forall f, a, b, id :: SameContent(a, b) ==> eval(f, a, id) == eval(f, b, id)
  }

  // ---------------------------------------------------------------- the specification

  /** `cell.type === 'formula' && cell.formula && cell.formula.includes(id)`: a substring
      test, so "=A10" depends on A1 as well. */
  predicate DependsOn(c: Cell, id: string) {
    c.kind == FormulaCell && c.formula.Some? && c.formula.value != "" && Contains(c.formula.value, id)
  }

  function Dependents(cells: Grid, id: string): set<string> {
    set k | k in cells && DependsOn(cells[k], id)
  }

  /** There is a chain of n dependencies starting at id. */
  ghost predicate Chain(cells: Grid, id: string, n: nat)
    decreases n
  {
    n == 0 || exists k :: k in Dependents(cells, id) && Chain(cells, k, n - 1)
  }

  /** The cells reached from id in at most n dependency steps. */
  ghost function Reach(cells: Grid, id: string, n: nat): set<string>
    decreases n, 0
  {
    if n == 0 then {} else Gathered(cells, id, cells.Keys, n - 1)
  }

  /** The dependents of id among `seen`, with what each reaches in n more steps. */
  ghost function Gathered(cells: Grid, id: string, seen: set<string>, n: nat): set<string>
    decreases n, 2
  {
    var ds := Dependents(cells, id) * seen;
    ds + Flatten(cells, ds, n)
  }

  ghost function Flatten(cells: Grid, ds: set<string>, n: nat): set<string>
    decreases n, 1, |ds|
  {
    if ds == {} then {}
    else
      var k :| k in ds;
      Reach(cells, k, n) + Flatten(cells, ds - {k}, n)
  }

  /** A formula cell with its display value recomputed. */
  function Recomputed(cells: Grid, id: string, eval: Evaluator): Cell
    requires id in cells
  {
    cells[id].(displayValue := Some(eval(FormulaOrEmpty(cells[id].formula), cells, id)))
  }

  /** The grid with the cells of `ids` recomputed. */
  function Refresh(cells: Grid, ids: set<string>, eval: Evaluator): Grid {
    map k | k in cells :: if k in ids then Recomputed(cells, k, eval) else cells[k]
  }

  /** What the cascade from a changed cell commits: nothing when it overflows the stack. */
  ghost function Cascaded(cells: Grid, id: string, eval: Evaluator): Option<Grid> {
    if Chain(cells, id, CascadeDepth + 1) then None
    else Some(Refresh(cells, Reach(cells, id, CascadeDepth + 1), eval))
  }

  // ---------------------------------------------------------------- the method

  /** `updateDependentCells(cells, changedCellId)` with `fuel` recursion levels left below this
      one. `base` is the grid the cascade started from and `done` what it has recomputed. */
  method UpdateDependentCells(cells: Grid, changedCellId: string, fuel: nat, eval: Evaluator,
                              ghost base: Grid, ghost done: set<string>)
    returns (out: Grid, ok: bool)
    requires DisplayBlind(eval)
    requires cells == Refresh(base, done, eval)
    ensures ok <==> !Chain(base, changedCellId, fuel + 1)
    ensures ok ==> out == Refresh(base, done + Reach(base, changedCellId, fuel + 1), eval)
    decreases fuel, 1
  {
    RefreshKeeps(base, done, eval);
    out := cells;
    var keys := cells.Keys;
    ghost var seen: set<string> := {};
    ghost var acc := done;
    GatheredNone(base, changedCellId, fuel);
    while keys != {}
      invariant keys <= base.Keys && seen == base.Keys - keys
      invariant out == Refresh(base, acc, eval)
      invariant acc == done + Gathered(base, changedCellId, seen, fuel)
      invariant forall k :: k in seen && k in Dependents(base, changedCellId) ==> !Chain(base, k, fuel)
      decreases |keys|
    {
      var cellId :| cellId in keys;
      var visited;
      ghost var acc0 := acc;
      out, visited, acc := Visit(out, cellId, changedCellId, fuel, eval, base, acc);
      if !visited {
        ChainStep(base, changedCellId, cellId, fuel);
        return out, false;
      }
      AccStep(base, changedCellId, seen, cellId, fuel, done, acc0, acc);
      KeysStep(base.Keys, keys, seen, cellId);
      keys := keys - {cellId};
      seen := seen + {cellId};
    }
    NoChain(base, changedCellId, fuel);
    AccDone(base, changedCellId, fuel, done, acc, keys, seen);
    ok := true;
  }

  /** One key of the loop: a dependent is re-evaluated and the cascade goes on from it. */
  method Visit(cells: Grid, cellId: string, changedCellId: string, fuel: nat, eval: Evaluator,
               ghost base: Grid, ghost done: set<string>)
    returns (out: Grid, ok: bool, ghost acc: set<string>)
    requires DisplayBlind(eval)
    requires cellId in base
    requires cells == Refresh(base, done, eval)
    ensures ok <==> (cellId in Dependents(base, changedCellId) ==> !Chain(base, cellId, fuel))
    ensures ok ==> acc == done + (if cellId in Dependents(base, changedCellId) then {cellId} + Reach(base, cellId, fuel) else {})
    ensures ok ==> out == Refresh(base, acc, eval)
    decreases fuel, 0
  {
    RefreshKeeps(base, done, eval);
    out, acc := cells, done;
    var cell := cells[cellId];
    if cell.kind == FormulaCell && cell.formula.Some? && cell.formula.value != "" && Contains(cell.formula.value, changedCellId) {
      assert cellId in Dependents(base, changedCellId);
      out := Recompute(cells, cellId, eval, base, done);
      if fuel == 0 {
        return out, false, acc;
      }
      out, ok := UpdateDependentCells(out, cellId, fuel - 1, eval, base, done + {cellId});
      acc := done + {cellId} + Reach(base, cellId, fuel);
    } else {
      assert cellId !in Dependents(base, changedCellId);
      ok := true;
    }
  }

  /** `cells[cellId].displayValue = evaluateFormula(cell.formula, cells, cellId)`. */
  method Recompute(cells: Grid, cellId: string, eval: Evaluator, ghost base: Grid, ghost done: set<string>)
    returns (out: Grid)
    requires DisplayBlind(eval)
    requires cellId in base && base[cellId].formula.Some?
    requires cells == Refresh(base, done, eval)
    ensures out == Refresh(base, done + {cellId}, eval)
  {
    RefreshKeeps(base, done, eval);
    var cell := cells[cellId];
    var result := eval(cell.formula.value, cells, cellId);
    RefreshStep(base, done, cellId, eval, result);
    out := cells[cellId := cell.(displayValue := Some(result))];
  }

  // ---------------------------------------------------------------- lemmas for the method

  /** Recomputing changes display values only. */
  lemma RefreshKeeps(base: Grid, ids: set<string>, eval: Evaluator)
    ensures Refresh(base, ids, eval).Keys == base.Keys
    ensures SameContent(Refresh(base, ids, eval), base)
    ensures forall k :: k in base ==> Refresh(base, ids, eval)[k].(displayValue := base[k].displayValue) == base[k]
    ensures forall x :: Dependents(Refresh(base, ids, eval), x) == Dependents(base, x)
  {
  }

  /** Writing the value the formula has in the current grid is recomputing that cell. */
  lemma RefreshStep(base: Grid, acc: set<string>, k: string, eval: Evaluator, v: CellValue)
    requires DisplayBlind(eval)
    requires k in base && base[k].formula.Some?
    requires v == eval(base[k].formula.value, Refresh(base, acc, eval), k)
    ensures Refresh(base, acc, eval)[k := Refresh(base, acc, eval)[k].(displayValue := Some(v))]
         == Refresh(base, acc + {k}, eval)
  {
    var cur := Refresh(base, acc, eval);
    RefreshKeeps(base, acc, eval);
    assert v == eval(base[k].formula.value, base, k);
    assert cur[k].(displayValue := Some(v)) == Recomputed(base, k, eval);
    var after := Refresh(base, acc + {k}, eval);
    assert forall j :: j in after ==> cur[k := Recomputed(base, k, eval)][j] == after[j];
  }

  lemma ChainStep(cells: Grid, id: string, k: string, n: nat)
    requires k in Dependents(cells, id) && Chain(cells, k, n)
    ensures Chain(cells, id, n + 1)
  {
  }

  lemma NoChain(cells: Grid, id: string, n: nat)
    requires forall k :: k in Dependents(cells, id) ==> !Chain(cells, k, n)
    ensures !Chain(cells, id, n + 1)
  {
  }

  lemma GatheredStep(cells: Grid, id: string, seen: set<string>, k: string, n: nat)
    requires k !in seen
    ensures Gathered(cells, id, seen + {k}, n)
      == Gathered(cells, id, seen, n) + (if k in Dependents(cells, id) then {k} + Reach(cells, k, n) else {})
  {
    var ds := Dependents(cells, id) * seen;
    if k in Dependents(cells, id) {
      assert Dependents(cells, id) * (seen + {k}) == ds + {k};
      FlattenAdd(cells, ds, k, n);
    } else {
      assert Dependents(cells, id) * (seen + {k}) == ds;
    }
  }

  /** The loop's bookkeeping for one key. */
  lemma AccStep(base: Grid, id: string, seen: set<string>, k: string, n: nat,
                done: set<string>, acc0: set<string>, acc: set<string>)
    requires k !in seen
    requires acc0 == done + Gathered(base, id, seen, n)
    requires acc == acc0 + (if k in Dependents(base, id) then {k} + Reach(base, k, n) else {})
    ensures acc == done + Gathered(base, id, seen + {k}, n)
  {
    GatheredStep(base, id, seen, k, n);
  }

  /** The loop's bookkeeping of keys: one more is seen and one fewer is left. */
  lemma KeysStep(all: set<string>, keys: set<string>, seen: set<string>, k: string)
    requires keys <= all && seen == all - keys && k in keys
    ensures keys - {k} <= all && seen + {k} == all - (keys - {k})
    ensures |keys - {k}| < |keys| && k !in seen
  {
  }

  lemma GatheredNone(base: Grid, id: string, n: nat)
    ensures Gathered(base, id, {}, n) == {}
  {
    assert Dependents(base, id) * {} == {};
  }

  /** Once every key is seen, the loop has gathered the whole reach. */
  lemma AccDone(base: Grid, id: string, n: nat, done: set<string>, acc: set<string>,
                keys: set<string>, seen: set<string>)
    requires keys == {} && seen == base.Keys - keys
    requires acc == done + Gathered(base, id, seen, n)
    ensures acc == done + Reach(base, id, n + 1)
  {
    assert seen == base.Keys;
  }

  /** What a set of cells reaches is the union of what each reaches. */
  lemma {:induction false} FlattenIff(cells: Grid, ds: set<string>, n: nat)
    ensures forall j :: j in Flatten(cells, ds, n) <==> exists k :: k in ds && j in Reach(cells, k, n)
    decreases |ds|
  {
    if ds != {} {
      var k :| k in ds && Flatten(cells, ds, n) == Reach(cells, k, n) + Flatten(cells, ds - {k}, n);
      FlattenIff(cells, ds - {k}, n);
    }
  }

  lemma FlattenAdd(cells: Grid, ds: set<string>, k: string, n: nat)
    requires k !in ds
    ensures Flatten(cells, ds + {k}, n) == Flatten(cells, ds, n) + Reach(cells, k, n)
  {
    FlattenIff(cells, ds + {k}, n);
    FlattenIff(cells, ds, n);
  }

  // ---------------------------------------------------------------- what the cascade means

  /** k is reached from id in at least one and at most n dependency steps. */
  ghost predicate Reaches(cells: Grid, id: string, k: string, n: nat)
    decreases n
  {
    n > 0 && (k in Dependents(cells, id) || exists j :: j in Dependents(cells, id) && Reaches(cells, j, k, n - 1))
  }

  /** The cells the cascade recomputes are exactly those a dependency path of at most n steps
      leads to. */
  lemma {:induction false} ReachIff(cells: Grid, id: string, k: string, n: nat)
    ensures k in Reach(cells, id, n) <==> Reaches(cells, id, k, n)
    decreases n
  {
    if n > 0 {
      var d: nat := n - 1;
      var ds := Dependents(cells, id) * cells.Keys;
      assert ds == Dependents(cells, id);
      assert Reach(cells, id, n) == ds + Flatten(cells, ds, d);
      FlattenIff(cells, ds, d);
      forall j | j in ds
        ensures k in Reach(cells, j, d) <==> Reaches(cells, j, k, d)
      {
        ReachIff(cells, j, k, d);
      }
    }
  }

  lemma RefreshNone(cells: Grid, eval: Evaluator)
    ensures Refresh(cells, {}, eval) == cells
  {
  }

  /** Recomputing twice is recomputing the union: the order of the visits does not matter. */
  lemma RefreshCompose(cells: Grid, a: set<string>, b: set<string>, eval: Evaluator)
    requires DisplayBlind(eval)
    ensures Refresh(Refresh(cells, a, eval), b, eval) == Refresh(cells, a + b, eval)
  {
    var mid := Refresh(cells, a, eval);
    RefreshKeeps(cells, a, eval);
    forall k | k in cells
      ensures Refresh(mid, b, eval)[k] == Refresh(cells, a + b, eval)[k]
    {
      var f := FormulaOrEmpty(cells[k].formula);
      assert eval(f, mid, k) == eval(f, cells, k);
    }
  }

  /** Grids with the same keys and the same dependencies have the same chains and paths. */
  lemma {:induction false} SameDependencies(a: Grid, b: Grid, id: string, k: string, n: nat)
    requires forall x :: Dependents(a, x) == Dependents(b, x)
    ensures Chain(a, id, n) <==> Chain(b, id, n)
    ensures Reaches(a, id, k, n) <==> Reaches(b, id, k, n)
    decreases n
  {
    if n > 0 {
      assert Dependents(a, id) == Dependents(b, id);
      forall j | j in Dependents(a, id)
        ensures (Chain(a, j, n - 1) <==> Chain(b, j, n - 1)) && (Reaches(a, j, k, n - 1) <==> Reaches(b, j, k, n - 1))
      {
        SameDependencies(a, b, j, k, n - 1);
      }
    }
  }

  /** A committed cascade keeps every key and every cell's value, kind, formula and format;
      a cell a dependency path leads to shows its formula's value in the final grid, and
      every other cell is unchanged. */
  lemma CascadeMeaning(cells: Grid, id: string, eval: Evaluator)
    requires DisplayBlind(eval)
    ensures Cascaded(cells, id, eval).None? <==> Chain(cells, id, CascadeDepth + 1)
    ensures Cascaded(cells, id, eval).Some? ==>
      var g := Cascaded(cells, id, eval).value;
      g.Keys == cells.Keys &&
      forall k :: k in cells ==>
        g[k] == if Reaches(cells, id, k, CascadeDepth + 1)
                then cells[k].(displayValue := Some(eval(FormulaOrEmpty(cells[k].formula), g, k)))
                else cells[k]
  {
    if !Chain(cells, id, CascadeDepth + 1) {
      var r := Reach(cells, id, CascadeDepth + 1);
      var g := Refresh(cells, r, eval);
      RefreshKeeps(cells, r, eval);
      forall k | k in cells
        ensures g[k] == if Reaches(cells, id, k, CascadeDepth + 1)
                        then cells[k].(displayValue := Some(eval(FormulaOrEmpty(cells[k].formula), g, k)))
                        else cells[k]
      {
        ReachIff(cells, id, k, CascadeDepth + 1);
        var f := FormulaOrEmpty(cells[k].formula);
        assert eval(f, g, k) == eval(f, cells, k);
      }
    }
  }

  /** Cascading again from the same cell changes nothing. */
  lemma CascadeIdempotent(cells: Grid, id: string, eval: Evaluator)
    requires DisplayBlind(eval)
    requires Cascaded(cells, id, eval).Some?
    ensures Cascaded(Cascaded(cells, id, eval).value, id, eval) == Cascaded(cells, id, eval)
  {
    var r := Reach(cells, id, CascadeDepth + 1);
    var g := Refresh(cells, r, eval);
    RefreshKeeps(cells, r, eval);
    SameDependencies(g, cells, id, id, CascadeDepth + 1);
    forall k
      ensures k in Reach(g, id, CascadeDepth + 1) <==> k in r
    {
      ReachIff(g, id, k, CascadeDepth + 1);
      ReachIff(cells, id, k, CascadeDepth + 1);
      SameDependencies(g, cells, id, k, CascadeDepth + 1);
    }
    assert Reach(g, id, CascadeDepth + 1) == r;
    RefreshCompose(cells, r, r, eval);
    assert r + r == r;
  }

  /** A path from a to b followed by a chain from b is a longer chain from a. */
  lemma {:induction false} ReachesChain(cells: Grid, a: string, b: string, m: nat, n: nat)
    requires Reaches(cells, a, b, m) && Chain(cells, b, n)
    ensures Chain(cells, a, n + 1)
    decreases m
  {
    if b in Dependents(cells, a) {
      assert Chain(cells, b, n + 1 - 1);
    } else {
      var j :| j in Dependents(cells, a) && Reaches(cells, j, b, m - 1);
      ReachesChain(cells, j, b, m - 1, n);
      ChainShorter(cells, j, n);
      assert Chain(cells, j, n + 1 - 1);
    }
  }

  /** A chain contains shorter chains. */
  lemma {:induction false} ChainShorter(cells: Grid, id: string, n: nat)
    requires Chain(cells, id, n + 1)
    ensures Chain(cells, id, n)
    decreases n
  {
    if n > 0 {
      var k :| k in Dependents(cells, id) && Chain(cells, k, n);
      ChainShorter(cells, k, n - 1);
    }
  }

  /** A cell on a dependency cycle, such as one whose formula contains its own id, has chains
      of every length. */
  lemma {:induction false} CycleChains(cells: Grid, id: string, m: nat, n: nat)
    requires Reaches(cells, id, id, m)
    ensures Chain(cells, id, n)
    decreases n
  {
    if n > 0 {
      CycleChains(cells, id, m, n - 1);
      ReachesChain(cells, id, id, m, n - 1);
    }
  }

  /** So the cascade from such a cell overflows the stack. */
  lemma CycleOverflows(cells: Grid, id: string, m: nat, eval: Evaluator)
    requires Reaches(cells, id, id, m)
    ensures Cascaded(cells, id, eval).None?
  {
    CycleChains(cells, id, m, CascadeDepth + 1);
  }

  /** Every dependent of every dependent is recomputed. */
  lemma DependentsRecomputed(cells: Grid, id: string, j: string, k: string)
    requires j in Dependents(cells, id) && k in Dependents(cells, j)
    ensures j in Reach(cells, id, CascadeDepth + 1) && k in Reach(cells, id, CascadeDepth + 1)
  {
    ReachIff(cells, id, j, CascadeDepth + 1);
    ReachIff(cells, id, k, CascadeDepth + 1);
    assert Reaches(cells, j, k, CascadeDepth);
  }
}
