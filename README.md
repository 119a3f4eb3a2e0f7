# jigsaw-doubler, modelled in Dafny

jigsaw-doubler encodes a jigsaw question as a SAT problem. The question is whether two different solutions exist for the same set of edge shapes, with every piece moving to a new place and changing neighbours. The model covers three layers:

- **The incremental CNF builder** (`src/sat.rs`):
  - `SatProblem` allocates variables and appends clauses.
  - It builds Tseytin gates (`and_var`, `or_var`, `xor_var`, `eq_var`).
  - It builds a sequential-counter cardinality circuit (`count_up_to_vars`, `count_var`) used by `exact_count_clause`.
  - `SatSolution` reads literals from a model.
  - A formula is `Cnf(varCount, clauses)` and a literal is `Lit(v, positive)`.
  - `SatProblem` is a class whose one field holds the formula. Every method is proved to leave it equal to a pure transformer of the old formula, such as `AndVarF` or `ExactCountF`. The meaning of each transformer, under every assignment, is proved in module `SatFacts`.
- **The key types and the square grid** (`src/puzzle.rs`, `src/puzzle/square.rs`):
  - Piece and edge keys with their derived orders.
  - Orbit descriptors.
  - The index arithmetic that converts `(orbit, index)` keys into grid cells with implicit rotations, and edge keys into cell sides.
  - The `Puzzle` trait becomes a record `Puzzles.Puzzle` whose fields are the orbit lists and the three query functions.
  - `Square.SquarePuzzle.AsPuzzle` is the square puzzle seen through that record.
- **The encoder** (`src/main.rs`):
  - The triangular match table, the rectangular destination and rotation tables, and the symmetric adjacency map.
  - The clause-emitting stages of `JigsawDoubler`. Each stage is a method that loops over a precomputed list of rows or steps, in the source's loop order. Its invariant ties the formula so far to a pure function of the prefix already processed.
  - `Doubler.Run` counts how many stages of `run` complete before the first panic.

Each panic in the source is an `Option`/`None` or an `ok: bool` that is false in the model:

- an `assert!` that fails;
- an index out of bounds;
- `unwrap` on an absent map key;
- the `usize` underflow of `orbit.len - 1`;
- `panic!("not satisfiable")`;
- the `todo!()`.

Where the source is wrong (see Findings), the model keeps the code as written and proves the defect. The corrected definition sits beside it, with the intended property proved about it:

- The CNF builder and the encoder stages follow the code as written, so `Doubler.StagesDone` says what `run` actually does.
- The corrected rotation index is available as the `RotationFixed` row kind.
- The square puzzle's `Puzzle` implementation is given both ways:
  - `Square.SquarePuzzle.AsWrittenPuzzle` uses `piece_loc_rot`, `edge_loc` and `edge_orbit` as written.
  - `Square.SquarePuzzle.AsPuzzle` uses the corrected `LocRotFixed`, `EdgeLocFixed` and `EdgeOrbitFixed`.
  - The two agree on every valid piece key, and on every border and vertical interior edge key (`SquareFacts.PieceFunctionsAgree`, `SquareFacts.EdgeLocAgrees`).
- The counter encoder takes a flag `asBuilt`. With `true` it is the source's encoder, which every `SatProblem` method and the encoder stages use. With `false` the `c == 0` entry uses the corrected `or_var`.

## Model

| member | source | states |
|---|---|---|
| Cnf.NegValue | src/sat.rs:36-39 | a negated literal has the opposite value under every assignment; negation is an involution with no fixed point |
| Cnf.NegAll | src/sat.rs:37 | negating a list keeps its length and negates each literal in place |
| Cnf.CoverClause | src/sat.rs:33-35 | adding a clause grows the variable count to cover every literal in it, and leaves the count alone when all are already counted |
| Cnf.CoverClauseBound | src/sat.rs:33-35 | every literal of an added clause is below the new variable count |
| Cnf.CoverAll | src/sat.rs:40-44 | adding clauses never shrinks the variable count |
| Cnf.CoverAllBound | src/sat.rs:40-44 | after a run of clauses, every literal in them is counted |
| Cnf.CoverAllAppend | src/sat.rs:40-44 | growing over `a` and then `b` is growing over `a + b` |
| Cnf.AddClauses | src/sat.rs:40-44 | the clause list becomes the old list followed by exactly the new clauses; the variable count does not shrink |
| Cnf.AddClausesWf | src/sat.rs:33-35 | adding clauses keeps every literal of the formula below its variable count |
| Cnf.AddClausesBelow | src/sat.rs:33-35 | clauses over already-allocated variables do not change the variable count |
| Cnf.AddClause | src/sat.rs:33-35 | `or_clause` appends exactly one clause, its argument |
| Cnf.AddClausesAppend | src/sat.rs:40-44 | adding `a` and then `b` equals adding `a + b` |
| Cnf.AddClauseStep | src/sat.rs:41-43 | one more loop step of `and_clause` appends one more clause |
| Cnf.NewVar | src/sat.rs:29-31 | `var` returns the positive literal of a variable numbered by the old count; the count grows by one and the clauses are unchanged, so successive variables are distinct and increasing |
| Cnf.Values | src/sat.rs:178-184 | evaluating a list of literals gives one value per literal, in order |
| Cnf.Extend | src/sat.rs:29-31 | giving a fresh variable a value changes that variable only |
| Cnf.SatAppend | src/sat.rs:33-35 | a formula extended by clauses holds exactly when both parts hold |
| Cnf.SatisfiesSingle | src/sat.rs:33-35 | a one-clause list holds exactly when that clause does |
| Cnf.SatPrefix | src/sat.rs:33-35 | a model of the extended formula is a model of the old one |
| Cnf.SatPrefixOf | src/sat.rs:33-35 | a model of a formula is a model of each of its prefixes |
| Cnf.ExtendUnused | src/sat.rs:29-31 | re-valuing a variable that no clause mentions keeps every model a model |
| Cnf.ExtendFresh | src/sat.rs:29-31 | re-valuing the next fresh variable keeps every model of a well-formed formula |
| Cnf.ValueExtend | src/sat.rs:29-31 | re-valuing a fresh variable leaves the values of older literals alone |
| Sat.UnitClauses | src/sat.rs:40-44 | `and_clause` emits one unit clause per literal |
| Sat.NorClauses | src/sat.rs:36-39 | the unit clauses `¬v` of `nor_clause`; their meaning is `SatFacts.NorClausesMeaning` |
| Sat.NandLits | src/sat.rs:45-48 | the one clause of `nand_clause`; its meaning is `SatFacts.NandMeaning` |
| Sat.NotLits | src/sat.rs:49-51 | the clause of `not_clause`; its meaning is `SatFacts.NotMeaning` |
| Sat.ImpliesLits | src/sat.rs:52-54 | the clause of `implies_clause`; its meaning is `SatFacts.ImpliesMeaning` |
| Sat.AndImpliesLits | src/sat.rs:55-62 | the clause of `and_implies_clause`; its meaning is `SatFacts.AndImpliesMeaning` |
| Sat.ImpliesOrLits | src/sat.rs:63-66 | the clause of `implies_or_clause` as written; its meaning is `SatFacts.ImpliesOrMeaning` |
| Sat.AndGate | src/sat.rs:82-93 | the clauses `and_var` adds; their meaning is `SatFacts.AndGateMeaning` |
| Sat.OrGate | src/sat.rs:94-105 | the clauses `or_var` adds as written; their meaning is `SatFacts.OrGateMeaning` |
| Sat.OrGateFixed | src/sat.rs:97-102 | the `or_var` clauses with the first literal of the last clause negated; their meaning is `SatFacts.OrGateFixedMeaning` |
| Sat.XorGate | src/sat.rs:106-113 | the four clauses `xor_var` adds; their meaning is `SatFacts.XorGateMeaning` |
| Sat.CountGate | src/sat.rs:146-165 | the four clauses of the middle case of `count_var`; their meaning is `SatFacts.CountGateMeaning` |
| Sat.EqVarF | src/sat.rs:114-116 | `eq_var(a, b)` is `xor_var(a, ¬b)`; its meaning is `SatFacts.EqVarModels` with `SatFacts.EqVarExtends` |
| Sat.OrVarFixedF | src/sat.rs:94-105 | `or_var` with the corrected clauses takes a fresh `r` and appends exactly `OrGateFixed` |
| Sat.AndVarF | src/sat.rs:82-93 | `and_var` takes a fresh variable `r` and appends exactly the gate clauses `¬r ∨ v` for each input and `¬v1 ∨ … ∨ ¬vn ∨ r` |
| Sat.OrVarF | src/sat.rs:94-105 | `or_var` takes a fresh `r` and appends `¬v ∨ r` for each input and then the `implies_or_clause` clause `r ∨ v1 ∨ … ∨ vn`, exactly as the code builds it |
| Sat.XorVarF | src/sat.rs:106-113 | `xor_var` takes a fresh `r` and appends the four clauses |
| Sat.CountVarF | src/sat.rs:131-166 | `count_var` only appends clauses and never frees variables; what its result means is `SatFacts.CountVarModels` with `SatFacts.CountVarExtends` |
| Sat.RowF | src/sat.rs:123-127 | one counter row has exactly `row_len` entries |
| Sat.CountRowsF | src/sat.rs:117-130 | the counter has `min(up_to, len(vars))` entries, so it is empty when `up_to == 0` or `vars` is empty |
| Sat.CountRowsSnoc | src/sat.rs:122-128 | processing one more input is one more loop iteration over the previous row |
| Sat.CountUpToF | src/sat.rs:117-130 | `count_up_to_vars` returns `[]` for `up_to == 0`, otherwise `min(up_to, len(vars))` entries, and only appends clauses |
| Sat.ExactCountF | src/sat.rs:67-79 | `exact_count_clause` fails exactly when `count > len(vars)`; otherwise it only appends clauses (the counter indices `count-1` and `count` are in bounds) |
| Sat.SatProblem.constructor | src/sat.rs:12-16 | a new problem holds the empty formula |
| Sat.SatProblem.Var | src/sat.rs:29-31 | the formula after `var` is `NewVar` of the old one, and the result is its fresh literal |
| Sat.SatProblem.OrClause | src/sat.rs:33-35 | appends exactly the given clause |
| Sat.SatProblem.AndClause | src/sat.rs:40-44 | the loop appends exactly one unit clause per literal, in order |
| Sat.SatProblem.NorClause | src/sat.rs:36-39 | appends exactly one unit `¬v` per literal |
| Sat.SatProblem.NandClause | src/sat.rs:45-48 | appends exactly one clause of all the negations |
| Sat.SatProblem.NotClause | src/sat.rs:49-51 | appends exactly `{¬a}` |
| Sat.SatProblem.ImpliesClause | src/sat.rs:52-54 | appends exactly `{¬a, b}` |
| Sat.SatProblem.AndImpliesClause | src/sat.rs:55-62 | appends exactly `{¬a1, …, ¬an, b}` |
| Sat.SatProblem.ImpliesOrClause | src/sat.rs:63-66 | appends exactly `{a, b1, …, bn}`, with `a` not negated |
| Sat.SatProblem.ExactCountClause | src/sat.rs:67-79 | succeeds exactly when `count <= len(vars)`, leaving `ExactCountF` of the old formula; on failure the formula is untouched |
| Sat.SatProblem.AndVar | src/sat.rs:82-93 | the loop leaves the formula and result equal to `AndVarF` of the old formula |
| Sat.SatProblem.OrVar | src/sat.rs:94-105 | the loop leaves the formula and result equal to `OrVarF` of the old formula |
| Sat.SatProblem.XorVar | src/sat.rs:106-113 | the formula and result are `XorVarF` of the old formula |
| Sat.SatProblem.EqVar | src/sat.rs:114-116 | the formula and result are `xor_var(a, ¬b)` on the old formula |
| Sat.SatProblem.CountUpToVars | src/sat.rs:117-130 | the loop that reassigns `prior` leaves formula and rows equal to `CountUpToF` of the old formula |
| Sat.SatProblem.CountRow | src/sat.rs:123-127 | one `(0..row_len).map(count_var)` pass leaves formula and row equal to `RowF` |
| Sat.SatProblem.CountVar | src/sat.rs:131-166 | each of the three cases of `count_var` leaves formula and result equal to `CountVarF` |
| Sat.NewSolution | src/sat.rs:174-177 | a solution keeps exactly the positive literals of the model |
| Sat.Get | src/sat.rs:178-184 | `get` reads a literal from the solution; `SatFacts.GetIsValue`, `GetNeg`, `GetAbsent` and `GetListed` state what it reads |
| Sat.AsAssignment | src/sat.rs:178-184 | the assignment a solution stands for; `SatFacts.GetIsValue` shows `get` evaluates literals under it |
| SatFacts.CountTrue | src/sat.rs:67-79 | the number of true values is at most the length of the list |
| SatFacts.AllTrueTwo | src/sat.rs:77 | `and_clause` over two literals holds exactly when both are true |
| SatFacts.UnitClausesMeaning | src/sat.rs:40-44 | `and_clause` holds exactly when every literal is true |
| SatFacts.NorClausesMeaning | src/sat.rs:36-39 | `nor_clause` holds exactly when every literal is false |
| SatFacts.NandMeaning | src/sat.rs:45-48 | `nand_clause` holds exactly when not all literals are true |
| SatFacts.NotMeaning | src/sat.rs:49-51 | `not_clause(a)` holds exactly when `a` is false |
| SatFacts.ImpliesMeaning | src/sat.rs:52-54 | `implies_clause(a, b)` holds exactly when `a ⇒ b` |
| SatFacts.AndImpliesMeaning | src/sat.rs:55-62 | `and_implies_clause(a, b)` holds exactly when `AND(a) ⇒ b` |
| SatFacts.ImpliesOrMeaning | src/sat.rs:63-66 | `implies_or_clause(a, b)` holds exactly when `a ∨ OR(b)`, not `a ⇒ OR(b)` |
| SatFacts.AndGateMeaning | src/sat.rs:82-93 | the `and_var` clauses hold exactly when `r == AND(vars)` |
| SatFacts.OrGateMeaning | src/sat.rs:94-105 | the `or_var` clauses as written hold exactly when `r` is true |
| SatFacts.OrGateNotDisjunction | src/sat.rs:101-102 | an assignment with `x` false and `r` true satisfies `or_var([x])`, so `r == OR(vars)` fails |
| SatFacts.OrGateFixedMeaning | src/sat.rs:97-102 | with the first literal negated, as the comment "result => or(vars)" intends, the clauses hold exactly when `r == OR(vars)` |
| SatFacts.XorGateMeaning | src/sat.rs:106-113 | the four clauses hold exactly when `r == (a != b)` |
| SatFacts.CountGateMeaning | src/sat.rs:146-165 | the four clauses of the middle case hold exactly when `r == ((m ∧ v) ∨ p)`, as the derivation in the comments claims |
| SatFacts.AndVarModels | src/sat.rs:82-93 | in every model of the clauses `and_var` adds, `r == AND(vars)` |
| SatFacts.AndVarExtends | src/sat.rs:82-93 | every model of the old formula extends, by `r := AND(vars)`, to a model of the new one with the inputs unchanged |
| SatFacts.OrVarModels | src/sat.rs:94-105 | in every model of the clauses `or_var` adds, `r` is true |
| SatFacts.OrVarExtends | src/sat.rs:94-105 | every model of the old formula extends, by `r := true`, to a model of the new one, whatever the inputs |
| SatFacts.OrVarFixedModels | src/sat.rs:94-105 | in every model of the corrected `or_var` clauses, `r == OR(vars)` |
| SatFacts.OrVarFixedExtends | src/sat.rs:94-105 | every model of the old formula extends, by `r := OR(vars)`, to a model of the corrected clauses, with the inputs unchanged |
| SatFacts.XorVarModels | src/sat.rs:106-113 | in every model of the clauses `xor_var` adds, `r == (a != b)` |
| SatFacts.XorVarExtends | src/sat.rs:106-113 | every model of the old formula extends, by `r := (a != b)`, to a model of the new one |
| SatFacts.EqVarModels | src/sat.rs:114-116 | in every model of the clauses `eq_var` adds, `r == (a == b)` |
| SatFacts.EqVarExtends | src/sat.rs:114-116 | every model of the old formula extends, by `r := (a == b)`, to a model of the new one, with `a` and `b` unchanged |
| SatFacts.CounterRow | src/sat.rs:123-127 | a counter row over values has `row_len` entries |
| SatFacts.CounterRows | src/sat.rs:117-130 | the counter over values has `min(up_to, len(vars))` entries |
| SatFacts.IntendedCounterCounts | src/sat.rs:117-166 | with a true disjunction in the `c == 0` case, entry `c` of the counter is "more than `c` inputs are true" |
| SatFacts.BuiltCounterFirstEntry | src/sat.rs:132-135 | as built, entry 0 of the counter is true from two inputs on, whatever the inputs |
| SatFacts.BuiltCounterSecondEntry | src/sat.rs:141-165 | as built over three inputs, entry 1 is `c ∨ (a ∧ b)` |
| SatFacts.CountVarModels | src/sat.rs:131-166 | in every model, `count_var`'s result has the value of the counter bit, as built or corrected as `asBuilt` says |
| SatFacts.AnyTrueTwo | src/sat.rs:133 | the disjunction of two literals is true exactly when one of them is |
| SatFacts.CountVarExtends | src/sat.rs:131-166 | every model of the old formula extends to a model after `count_var`, agreeing on every older variable; the formula stays well formed and the result is a counted variable |
| SatFacts.NewVarWf | src/sat.rs:29-31 | allocating keeps the formula well formed |
| SatFacts.RowModels | src/sat.rs:123-127 | in every model, a counter row has the values of the counter row over the prior row |
| SatFacts.RowSnoc | src/sat.rs:123-127 | extending a row by one correct bit gives the next counter row |
| SatFacts.RowExtends | src/sat.rs:123-127 | every model of the old formula extends to a model after one counter row, agreeing on every older variable; the row holds counted variables |
| SatFacts.CountRowsModels | src/sat.rs:117-130 | in every model of the formula, the counter's literals carry the counter (`CounterRows`) over the input values |
| SatFacts.CountRowsExtends | src/sat.rs:117-130 | every model of the old formula extends to a model after the whole counter, agreeing on every older variable; the last row holds counted variables |
| SatFacts.CounterRowsSnoc | src/sat.rs:122-128 | the truth-value counter over one more input is one more row over the previous counter |
| SatFacts.ExactCountModels | src/sat.rs:67-79 | every model of the clauses `exact_count_clause` adds meets its demands on its counter: all false for 0, all true for `len(vars)`, otherwise entry `count-1` true and entry `count` false |
| SatFacts.ExactCountExact | src/sat.rs:67-79 | the converse too: a model of the old formula extends to a model after `exact_count_clause`, agreeing on every older variable, exactly when the inputs' values meet those demands; the formula stays well formed |
| SatFacts.IntendedExactCount | src/sat.rs:67-79 | over the intended counter, those demands hold exactly when precisely `count` inputs are true |
| SatFacts.IntendedMiddleCount | src/sat.rs:76-77 | for `0 < count < len(vars)`, entry `count-1` true and entry `count` false on the intended counter means exactly `count` true |
| SatFacts.AllFalseCount | src/sat.rs:69-70 | all inputs false exactly when none is counted true |
| SatFacts.AllTrueCount | src/sat.rs:71-72 | all inputs true exactly when all are counted true |
| SatFacts.BuiltExactOneOfTwoAdmitsNone | src/sat.rs:67-79 | as built, `exact_count_clause(1, [a, b])` admits `a = b = false` |
| SatFacts.FixedExactCountModels | src/sat.rs:67-79 | every model of the clauses of the corrected `exact_count_clause(count, vars)` makes exactly `count` inputs true |
| SatFacts.FixedExactCountMeaning | src/sat.rs:67-79 | a model of the old formula extends to a model of the corrected `exact_count_clause(count, vars)` clauses exactly when `count` inputs are true |
| SatFacts.GetNeg | src/sat.rs:178-184 | `get(!l) == !get(l)` |
| SatFacts.GetIsValue | src/sat.rs:178-184 | `get` is literal evaluation under the solution's assignment |
| SatFacts.GetAbsent | src/sat.rs:178-184 | a variable absent from the model reads false, and its negation true |
| SatFacts.GetListed | src/sat.rs:174-184 | a literal listed in a consistent model reads true |
| Puzzles.PieceKeyEdgeOrder | src/puzzle.rs:15-19 | the derived order on piece edges, piece first and then edge, is a strict total order |
| Puzzles.KeyOrders | src/puzzle.rs:4-8 | the derived orders on piece keys and edge keys, lexicographic on `(orbit, index)`, are strict total orders |
| Puzzles.MinEdge | src/main.rs:88 | `a.min(b)` is one of the two and not above either |
| Puzzles.MaxEdge | src/main.rs:88 | `a.max(b)` is one of the two and not below either |
| Puzzles.RotateEdge | src/puzzle.rs:53-57 | rotating an edge gives an edge number below `edges` |
| Puzzles.RotateEdgeCompose | src/puzzle.rs:53-57 | rotating by `r1` and then by `r2` is rotating by `r1 + r2` |
| Puzzles.RotateEdgeFullTurn | src/puzzle.rs:44-57 | when `rotations * increment` is a multiple of `edges`, a full turn gives the same edge |
| Square.PieceLoc.UpEdge | src/puzzle/square.rs:37-45 | the edge above a cell is the `Down` side of the cell above; `None` on row 0 (the `usize` underflow); partner `SquareFacts.TowardBack` |
| Square.PieceLoc.RightEdge | src/puzzle/square.rs:46-51 | the `Right` side of the cell; partner `SquareFacts.TowardBack` |
| Square.PieceLoc.DownEdge | src/puzzle/square.rs:52-57 | the `Down` side of the cell; partner `SquareFacts.TowardBack` |
| Square.PieceLoc.LeftEdge | src/puzzle/square.rs:58-67 | the `Right` side of the cell to the left; `None` on column 0; partner `SquareFacts.TowardBack` |
| Square.PieceLoc.UpPiece | src/puzzle/square.rs:68-73 | the cell above; `None` on row 0; partner `SquareFacts.TowardBack` |
| Square.PieceLoc.RightPiece | src/puzzle/square.rs:74-79 | the cell to the right; partner `SquareFacts.TowardBack` |
| Square.PieceLoc.DownPiece | src/puzzle/square.rs:80-85 | the cell below; partner `SquareFacts.TowardBack` |
| Square.PieceLoc.LeftPiece | src/puzzle/square.rs:86-91 | the cell to the left; `None` on column 0; partner `SquareFacts.TowardBack` |
| Square.EdgeToward | src/puzzle/square.rs:398-404 | the `match edge` of `piece_edge`: the edge of a cell in direction `d`; partner `SquareFacts.TowardBack` |
| Square.Toward | src/puzzle/square.rs:411-416 | the `match edge` of `piece_neighbor`: the next cell in direction `d`; partner `SquareFacts.TowardBack` |
| Square.Opposite | src/puzzle/square.rs:411-416 | the local edge of the neighbour facing back (`2, 3, 0, 1` for `0, 1, 2, 3`) is `d + 2` mod 4 and differs from `d` |
| Square.New | src/puzzle/square.rs:140-145 | `new` succeeds exactly when `rows >= 2 && cols >= 2`, storing both unchanged |
| Square.SquarePuzzle.LocRot | src/puzzle/square.rs:172-225 | `piece_loc_rot` as written; `SquareFacts.LocRotPlaces` states where it puts valid keys and `SquareFacts.CenterBoundAccepts` the key it wrongly accepts |
| Square.SquarePuzzle.LocRotFixed | src/puzzle/square.rs:213-222 | `piece_loc_rot` with the centre bound `>=`; `SquareFacts.LocRotFixedDomain` shows it accepts exactly the valid keys |
| Square.SquarePuzzle.KeyEdgeAt | src/puzzle/square.rs:226-260 | `piece_key_edge`; `SquareFacts.CellRoundTrip` and `SquareFacts.KeyEdgeRoundTrip` show it inverts `piece_loc_rot` |
| Square.SquarePuzzle.EdgeLocOf | src/puzzle/square.rs:261-313 | `edge_loc` as written; `SquareFacts.EdgeLocAgrees`, `EdgeLocInGrid` and `HorzInnerEdgeMisplaced` state what it does |
| Square.SquarePuzzle.EdgeLocFixed | src/puzzle/square.rs:301-307 | `edge_loc` with horizontal interior edges as `Down` edges; `SquareFacts.EdgeLocFixedRoundTrip` shows `edge_key` inverts it |
| Square.SquarePuzzle.EdgeKeyOf | src/puzzle/square.rs:314-343 | `edge_key`; `SquareFacts.EdgeKeyRoundTrip` shows every grid edge gets a valid key that maps back |
| Square.SquarePuzzle.PieceOrbit | src/puzzle/square.rs:350-375 | `piece_orbit`; `SquareFacts.PieceOrbitsCover` shows the orbits partition the grid |
| Square.SquarePuzzle.EdgeOrbit | src/puzzle/square.rs:381-393 | `edge_orbit` as written; `SquareFacts.InnerOrbitProduct` shows its interior count is wrong |
| Square.SquarePuzzle.EdgeOrbitFixed | src/puzzle/square.rs:389 | `edge_orbit` with the interior count a sum; `SquareFacts.EdgeOrbitsCover` shows the orbits hold every grid edge |
| Square.SquarePuzzle.PieceEdge | src/puzzle/square.rs:395-406 | `piece_edge` over the corrected `piece_loc_rot`; `SquareFacts.Located`, `NeighborInvolution` and `EdgePiecesMeet` state what it returns |
| Square.SquarePuzzle.PieceNeighbor | src/puzzle/square.rs:408-418 | `piece_neighbor` over the corrected `piece_loc_rot`; `SquareFacts.NeighborInvolution` shows it is an involution |
| Square.SquarePuzzle.EdgePieces | src/puzzle/square.rs:420-432 | `edge_pieces` over the corrected `edge_loc`; `SquareFacts.EdgePiecesMeet` shows its two sides meet at the key |
| Square.SquarePuzzle.PieceEdgeAsWritten | src/puzzle/square.rs:395-406 | `piece_edge` as written; equal to `PieceEdge` on valid keys (`SquareFacts.PieceFunctionsAgree`), not on the centre key `SquareFacts.CenterKeyAsWritten` |
| Square.SquarePuzzle.PieceNeighborAsWritten | src/puzzle/square.rs:408-418 | `piece_neighbor` as written; equal to `PieceNeighbor` on valid keys (`SquareFacts.PieceFunctionsAgree`) |
| Square.SquarePuzzle.EdgePiecesAsWritten | src/puzzle/square.rs:420-432 | `edge_pieces` as written; `SquareFacts.EdgePiecesMeetAsWritten` states what its pair is |
| Square.SquarePuzzle.AsPuzzle | src/puzzle/square.rs:345-393 | the square puzzle over the corrected functions has three piece orbits and two edge orbits |
| Square.SquarePuzzle.AsWrittenPuzzle | src/puzzle/square.rs:345-432 | the square puzzle as the source implements `Puzzle` has three piece orbits and two edge orbits |
| SquareFacts.PieceOrbitsCover | src/puzzle/square.rs:350-375 | the piece orbit lengths sum to `rows * cols`; each orbit is well formed, with `rotations * increment % edges == 0`; there is no fourth orbit |
| SquareFacts.EdgeOrbitsCover | src/puzzle/square.rs:381-393 | with the interior count as a sum, the edge orbits hold exactly the `rows*(cols-1) + (rows-1)*cols` grid edges |
| SquareFacts.InnerOrbitProduct | src/puzzle/square.rs:389 | as written, the interior orbit has 36 edges on 4x4 (12 exist) and 0 on 2x3 (1 exists) |
| SquareFacts.LocRotPlaces | src/puzzle/square.rs:172-225 | a valid key is placed on an in-grid cell of its own orbit; corners get rotations 1, 2, 0, 3 in order; centre pieces get rotation 0 |
| SquareFacts.LocRotFixedDomain | src/puzzle/square.rs:213-222 | with `>=` at the centre bound, `piece_loc_rot` accepts exactly the valid keys |
| SquareFacts.CenterBoundAccepts | src/puzzle/square.rs:214 | as written, the centre index equal to the orbit's length is accepted and lands on `(rows-1, 1)`, a border cell |
| SquareFacts.KeyEdgeRoundTrip | src/puzzle/square.rs:172-260 | `piece_key_edge(loc(k), (e + rot(k)) % 4) == (k, e)` for every valid key and `e < 4` |
| SquareFacts.CellRoundTrip | src/puzzle/square.rs:226-260 | `piece_key_edge` of an in-grid cell gives a valid key of that cell's orbit, which `piece_loc_rot` places back on the same cell and direction |
| SquareFacts.TowardBack | src/puzzle/square.rs:37-91 | stepping to a neighbour and back returns to the cell, and both sides name the same edge |
| SquareFacts.DirectionInside | src/puzzle/square.rs:395-418 | for a valid key, `(e + rot) % 4` points inside the grid exactly when `e` is below its orbit's edge count |
| SquareFacts.NeighborInvolution | src/puzzle/square.rs:395-418 | `piece_neighbor(piece_neighbor(k, e)) == (k, e)`, and both sides report the same `piece_edge` |
| SquareFacts.Located | src/puzzle/square.rs:395-418 | `piece_neighbor` and `piece_edge` read the neighbour cell and edge in direction `(e + rot) % 4` |
| SquareFacts.EdgeLocFixedRoundTrip | src/puzzle/square.rs:261-343 | the corrected `edge_loc` accepts exactly the valid edge keys, gives an in-grid edge, and `edge_key` maps it back |
| SquareFacts.VertInnerRoundTrip | src/puzzle/square.rs:293-299 | each vertical inner edge key round-trips |
| SquareFacts.HorzInnerRoundTrip | src/puzzle/square.rs:301-307 | each horizontal inner edge key round-trips once the edge is a `Down` edge |
| SquareFacts.EdgeKeyRoundTrip | src/puzzle/square.rs:314-343 | every in-grid edge gets a valid key, which the corrected `edge_loc` maps back to it |
| SquareFacts.EdgeLocAgrees | src/puzzle/square.rs:261-313 | the written and corrected `edge_loc` accept the same keys and agree on outer and vertical inner edges |
| SquareFacts.HorzInnerEdgeMisplaced | src/puzzle/square.rs:303 | on 3x3, horizontal inner key `(1, 2)` becomes a `Right` edge at `(0, 1)`, whose key is the outer key `(0, 1)`; the intended edge is `Down` |
| SquareFacts.EdgePiecesMeet | src/puzzle/square.rs:420-432 | over the corrected `edge_loc` and `piece_loc_rot`, `edge_pieces` gives two distinct valid piece edges that are each other's `piece_neighbor`, both with `piece_edge` equal to the key |
| SquareFacts.PieceFunctionsAgree | src/puzzle/square.rs:395-418 | on every valid piece key, `piece_edge` and `piece_neighbor` as written equal the corrected ones |
| SquareFacts.CenterKeyAsWritten | src/puzzle/square.rs:214 | as written, the centre key with `index == len` gets a `piece_edge` and a `piece_neighbor` (above `(rows-1, 1)`), where the corrected functions give none |
| SquareFacts.EdgeLocInGrid | src/puzzle/square.rs:261-313 | `edge_loc` as written places every valid edge key on an edge of the grid |
| SquareFacts.EdgePiecesMeetAsWritten | src/puzzle/square.rs:420-432 | as written, `edge_pieces` of a valid key gives two distinct valid piece edges, each other's `piece_neighbor`, with the same `piece_edge`; that edge is the key exactly on border and vertical interior edges |
| SquareFacts.HorzInnerPairAsWritten | src/puzzle/square.rs:303 | on 3x3, the as-written pair for horizontal interior key `(1, 2)` has `piece_edge` equal to border key `(0, 1)` |
| Tables.FreshLits | src/main.rs:27 | `n` fresh literals are numbered consecutively from the base |
| Tables.AllocF | src/main.rs:27 | allocating `n` variables grows the count by `n`, adds no clauses, and yields the next `n` literals |
| Tables.Alloc | src/main.rs:27 | the loop of `sat.var()` calls leaves formula and literals equal to `AllocF` |
| Tables.TriStep | src/main.rs:19-20 | `Tri(r + 1) = Tri(r) + r` for `Tri(r) = r*(r-1)/2` |
| Tables.TriMono | src/main.rs:19-20 | `Tri` is monotone |
| Tables.PairIndexBelow | src/main.rs:34-36 | for `c < r < len`, the index `r*(r-1)/2 + c` is below `len*(len-1)/2` |
| Tables.PairIndexInjective | src/main.rs:34-36 | distinct pairs `c < r` get distinct indices |
| Tables.NewEdgeMatchingF | src/main.rs:25-29 | `EdgeMatchingVars::new` fails (the `len - 1` underflow) exactly when `len == 0`; otherwise it allocates exactly `len*(len-1)/2` fresh literals and no clauses |
| Tables.NewEdgeMatching | src/main.rs:25-29 | the method matches `NewEdgeMatchingF` and leaves the formula untouched on failure |
| Tables.EdgeMatchingVars.Matches | src/main.rs:30-37 | `matches(a, b)`; `Tables.MatchesSomeIff`, `MatchesSymmetric`, `MatchesDefined` and `MatchesDistinct` state what it returns |
| Tables.MatchesSomeIff | src/main.rs:30-37 | on a full table, `matches(a, b)` is defined exactly when `a < len`, `b < len` and `a != b` |
| Tables.MatchesSymmetric | src/main.rs:34-36 | `matches(a, b) == matches(b, a)` |
| Tables.MatchesDefined | src/main.rs:25-37 | on a freshly allocated table, `matches(a, b)` is the literal at `max*(max-1)/2 + min` from the base |
| Tables.MatchesDistinct | src/main.rs:30-37 | only the same unordered pair shares a match literal |
| Tables.NewPieceDestF | src/main.rs:52-58 | `PieceDestVars::new` allocates `len*len` destination literals and then `len*rotations` rotation literals |
| Tables.NewPieceDest | src/main.rs:52-58 | the method matches `NewPieceDestF` |
| Tables.PieceDestVars.Dest | src/main.rs:59-63 | `dest(s, d)`; `Tables.SizedDestDefined`, `DestBijection`, `DestOnto` and `DestInjective` state what it returns |
| Tables.PieceDestVars.Rot | src/main.rs:64-68 | `rot(s, r)` as written; `Tables.RotInBounds` and `RotCornerOutOfBounds` state where it is defined |
| Tables.PieceDestVars.RotFixed | src/main.rs:64-68 | `rot(s, r)` with index `s*rotations + r`; `Tables.RotFixedBijection` and `RotFixedInjective` state what it returns |
| Tables.SizedDestDefined | src/main.rs:59-63 | on full tables, `dest(s, d)` is defined exactly when `s, d < len`, and corrected `rot(s, r)` exactly when `s < len`, `r < rotations` |
| Tables.DestBijection | src/main.rs:59-63 | `dest(s, d)` is the literal at `s*len + d` from the base |
| Tables.DestOnto | src/main.rs:53-54 | every destination literal is `dest(i / len, i % len)` |
| Tables.DestInjective | src/main.rs:59-63 | distinct `(s, d)` pairs get distinct literals |
| Tables.RotInBounds | src/main.rs:64-68 | on a full table with `len >= 1` and `rotations >= 1`, `rot(s, r)` as written is in bounds for every `s < len` and `r < rotations` exactly when `rotations >= len` |
| Tables.RotCornerOutOfBounds | src/main.rs:67 | for the square's corner orbit (4 pieces, 1 rotation), `rot(1, 0)` indexes past the end of the rotation vector |
| Tables.RotFixedBijection | src/main.rs:55-56 | indexing with `s*rotations + r` maps exactly the valid pairs onto the allocated rotation literals |
| Tables.RotFixedInjective | src/main.rs:55-56 | the corrected rotation index gives distinct literals to distinct pairs |
| Tables.Key | src/main.rs:81-88 | the map key `(min, max)`; `Tables.KeySymmetric` and `KeyOfOrdered` state what it is |
| Tables.Lookup | src/main.rs:87-90 | `get` on the map value; `Tables.LookupSymmetric` and `LookupAfterPut` state what it reads |
| Tables.KeySymmetric | src/main.rs:88 | the lookup key `(min, max)` does not depend on argument order |
| Tables.KeyOfOrdered | src/main.rs:81-88 | for `a < b`, the key is `(a, b)`, and only `(a, b)` and `(b, a)` give that key |
| Tables.LookupSymmetric | src/main.rs:87-90 | `get(a, b) == get(b, a)` |
| Tables.LookupAfterPut | src/main.rs:80-90 | after `put(a, b, v)`, `get(a, b) == get(b, a) == v`, and every other pair reads as before |
| Tables.PieceDestAdjacentVars.constructor | src/main.rs:75-79 | a new map is empty |
| Tables.PieceDestAdjacentVars.Put | src/main.rs:80-85 | succeeds exactly when `a < b` and the key is absent, then stores the entry; otherwise nothing changes |
| Tables.PieceDestAdjacentVars.Get | src/main.rs:87-90 | returns the entry under `(min, max)`; an absent pair gives `None` (the `unwrap` panic) |
| Tables.PutKeepsOrder | src/main.rs:80-85 | `put` keeps every key ordered `a < b` |
| Doubler.EdgeTablesF | src/main.rs:126-131 | `add_edge_vars` builds one table per edge orbit and adds no clauses |
| Doubler.EdgeTablesNoneGrows | src/main.rs:127-130 | once an orbit fails, the whole stage fails |
| Doubler.PieceTablesF | src/main.rs:132-137 | `add_piece_vars` builds one table per piece orbit and adds no clauses |
| Doubler.Others | src/main.rs:142-143 | the row indices are exactly the `b < len` with `b != a` |
| Doubler.MatchRow | src/main.rs:141-145 | the row of `matches(a, b)` for `b != a`; `DoublerFacts.MatchRowShape` states its length |
| Doubler.EdgeRows | src/main.rs:139-147 | the rows of the matching stage in order; `DoublerFacts.EdgeRowsElems` states which they are |
| Doubler.PieceRow | src/main.rs:150-175 | one row of a piece stage (`dest` row, `rot` row, `dest` column); `DoublerFacts.DestRowShape`, `RotRowUsable` and `RotLastRowUnusable` state when it is built |
| Doubler.PieceRows | src/main.rs:150-175 | the rows of a piece stage in order; `DoublerFacts.PieceRowsElems` states which they are |
| Doubler.EdgeKeys | src/main.rs:184-186 | the edge keys the not-same stage visits; `DoublerFacts.EdgeKeysElems` states which they are |
| Doubler.NotSameLit | src/main.rs:187-190 | the adjacency literal of an edge's two pieces; `DoublerFacts.NotSameIff` and `NotSameModels` state when it exists and what the stage makes of it |
| Doubler.MatchSteps | src/main.rs:196-219 | the steps of the to-matching loops in order; `DoublerFacts.MatchStepsElems` states which they are |
| Doubler.StagesDone | src/main.rs:101-111 | how many stages of `run` complete; `DoublerFacts.RunStops` characterises it |
| Doubler.Collect | src/main.rs:144-145 | a row is built exactly when every accessor call succeeds, and it holds their literals in order |
| Doubler.ExactOnes | src/main.rs:146 | a run of `exact_count_clause(1, ...)` only appends clauses |
| Doubler.ExactOnesNoneGrows | src/main.rs:140-148 | once a row panics, the stage panics |
| Doubler.EmitExactOnes | src/main.rs:139-175 | the loop over rows leaves the formula equal to `ExactOnes` of the old formula, and succeeds exactly when that is defined |
| Doubler.NotSameF | src/main.rs:183-193 | `add_piece_dst_adjacent_not_same` only appends clauses |
| Doubler.NotSameNoneGrows | src/main.rs:184-192 | once an edge fails, the stage fails |
| Doubler.PairF | src/main.rs:201-217 | one `(a, b)` step only appends clauses and allocates variables |
| Doubler.StepF | src/main.rs:197-217 | one step of `add_piece_dst_adjacent_to_matching` only appends clauses |
| Doubler.StepsF | src/main.rs:195-220 | the whole stage only appends clauses |
| Doubler.StepsNoneGrows | src/main.rs:196-219 | once a step fails, the stage fails |
| Doubler.JigsawDoubler.constructor | src/main.rs:117-125 | a new encoder has the empty formula, no tables and an empty adjacency map |
| Doubler.JigsawDoubler.AddEdgeVars | src/main.rs:126-131 | the loop over edge orbits leaves formula and tables equal to `EdgeTablesF`, and fails exactly when it is undefined |
| Doubler.JigsawDoubler.AddPieceVars | src/main.rs:132-137 | the loop over piece orbits leaves formula and tables equal to `PieceTablesF` |
| Doubler.JigsawDoubler.AddEdgeOneHotMatching | src/main.rs:139-149 | emits `exact_count_clause(1, …)` over the literals `matches(a, b)` for all `b != a`, for every edge `a` of every orbit (the as-built demands of `DoublerFacts.ExactOnesExact`) |
| Doubler.JigsawDoubler.AddPieceOneHotDst | src/main.rs:150-157 | emits `exact_count_clause(1, …)` over each row of the `dest` matrix (the as-built demands of `DoublerFacts.ExactOnesExact`) |
| Doubler.JigsawDoubler.AddPieceOneHotRot | src/main.rs:158-167 | emits `exact_count_clause(1, …)` over each piece's rotation row, through the as-written `rot` (the as-built demands of `DoublerFacts.ExactOnesExact`) |
| Doubler.JigsawDoubler.AddPieceOneHotSrc | src/main.rs:168-175 | emits `exact_count_clause(1, …)` over each column of the `dest` matrix (the as-built demands of `DoublerFacts.ExactOnesExact`) |
| Doubler.JigsawDoubler.AddPieceDstAdjacentNotSame | src/main.rs:183-193 | the loop over edges leaves the formula equal to `NotSameF`, and fails exactly when it is undefined |
| Doubler.JigsawDoubler.AddPair | src/main.rs:202-216 | one inner step leaves the formula equal to `PairF` |
| Doubler.JigsawDoubler.AddPieceDstAdjacentToMatching | src/main.rs:195-220 | the nested loops leave the formula equal to `StepsF` over all steps in source order |
| Doubler.Run | src/main.rs:101-116 | `run` completes exactly `StagesDone(puzzle)` stages before it panics |
| DoublerFacts.EdgeTablesFailIff | src/main.rs:126-131 | `add_edge_vars` fails exactly when some edge orbit is empty |
| DoublerFacts.EdgeTablesShape | src/main.rs:126-131 | each table belongs to its orbit, is full, and uses only variables allocated by this stage |
| DoublerFacts.PieceTablesShape | src/main.rs:132-137 | each piece table belongs to its orbit and is full |
| DoublerFacts.ExactOnesIff | src/main.rs:139-175 | a one-hot stage succeeds exactly when every row is built and non-empty |
| DoublerFacts.ExactOnesModels | src/main.rs:139-175 | every model of a one-hot stage meets the as-built demands of `exact_count_clause(1, …)` on every row |
| DoublerFacts.ExactOnesExtends | src/main.rs:139-175 | a model of the formula before a one-hot stage that meets every row's demand extends to a model after it, agreeing on every older variable |
| DoublerFacts.ExactOnesExact | src/main.rs:139-175 | so a model of the formula before a one-hot stage extends to one after it exactly when every row meets the as-built demand of `exact_count_clause(1, …)` |
| DoublerFacts.EdgeRowsElems | src/main.rs:140-147 | the rows of the matching stage are exactly the rows of every edge of every orbit |
| DoublerFacts.MatchRowShape | src/main.rs:141-145 | each matching row is built and has `len - 1` literals |
| DoublerFacts.EdgeOneHotIff | src/main.rs:139-149 | on full tables, the matching stage succeeds exactly when no orbit has a single edge |
| DoublerFacts.PieceRowsElems | src/main.rs:151-172 | the rows of a piece stage are exactly the rows of every piece of every orbit |
| DoublerFacts.DestRowShape | src/main.rs:150-175 | each `dest` row and column is built and has `len` literals |
| DoublerFacts.DstSrcSucceed | src/main.rs:150-175 | on full tables, the destination and source stages always succeed |
| DoublerFacts.RotRowUsable | src/main.rs:158-167 | when `rotations >= len`, every rotation row is built and non-empty |
| DoublerFacts.RotLastRowUnusable | src/main.rs:64-67 | when `rotations < len`, the last piece's rotation row indexes out of bounds |
| DoublerFacts.RotStageIff | src/main.rs:158-167 | as written, the rotation stage succeeds exactly when every non-empty orbit has `rotations >= len` |
| DoublerFacts.RotFixedStageIff | src/main.rs:158-167 | with the corrected index, it succeeds exactly when every non-empty orbit has a rotation |
| DoublerFacts.EdgeKeysElems | src/main.rs:184-186 | the not-same stage visits exactly the keys `(o, a)` with `o` an orbit and `a < len` |
| DoublerFacts.NotSameIff | src/main.rs:183-193 | the not-same stage succeeds exactly when every edge has both pieces and an adjacency entry |
| DoublerFacts.NotSameModels | src/main.rs:183-193 | in every model, the adjacency literal of the two sides of every edge is false |
| DoublerFacts.NotSameWithoutAdjacency | src/main.rs:177-193 | with the adjacency map empty, which is all `run` can leave, the stage fails on any edge |
| DoublerFacts.AndVarWf | src/sat.rs:82-93 | `and_var` keeps the formula well formed and allocates |
| DoublerFacts.OrVarWf | src/sat.rs:94-105 | `or_var` keeps the formula well formed and allocates |
| DoublerFacts.OrbitStepsElems | src/main.rs:197-218 | the loops over one orbit visit each edge `a < len` and each pair `b < a < len` |
| DoublerFacts.MatchStepsElems | src/main.rs:196-219 | the to-matching loops visit every edge of every orbit and every pair `b < a` within an orbit |
| DoublerFacts.PairImposesNothing | src/main.rs:205-216 | every model of the formula before a step extends to a model after it, agreeing on the old variables |
| DoublerFacts.StepsImposeNothing | src/main.rs:195-220 | as written, the whole to-matching stage constrains no earlier variable: every earlier model extends |
| DoublerFacts.RunStops | src/main.rs:101-111 | `run` stops after 0, 2, 4 or 6 stages: an empty edge orbit, a single-edge orbit, a piece orbit with fewer rotations than pieces, or the `todo!()` |
| DoublerFacts.InnerEdgeCount | src/puzzle/square.rs:158-163 | the interior edge count is 0 only for 2x2 and 1 only for 2x3 and 3x2 |
| DoublerFacts.SquareStagesDone | src/main.rs:101-111 | on the square puzzle with corrected orbits, `run` completes 0 stages for 2x2, 2 for 2x3 and 3x2, and 4 otherwise |
| DoublerFacts.ProductEdgeCount | src/puzzle/square.rs:389 | the as-written interior count is 0 exactly on two rows or columns and is never 1 |
| DoublerFacts.SquareStagesDoneAsWritten | src/puzzle/square.rs:381-393 | on the square puzzle as written, `run` completes 0 stages on two rows or columns and 4 otherwise |
| DoublerFacts.MainStopsAtRotations | src/main.rs:11-15 | `main`'s 5x5 puzzle completes four stages and panics in `add_piece_one_hot_rot`, with either interior count |

## Left out

- `SatProblem::solve` (src/sat.rs:17-26) calls the external varisat solver, so it is not modelled. `SatSolution` is modelled from the model it would return.
- varisat's `CnfFormula`, `Var` and `Lit` are modelled abstractly as a variable count, a clause list and a `(variable, polarity)` pair. `add_clause` grows the count to cover its literals.
- `add_piece_dst_adjacent_vars` is `todo!()` (src/main.rs:177-181), so it has no behaviour to model beyond the panic. `Doubler.StagesDone` stops there.
- The stages after it are modelled over an arbitrary adjacency map.
- `run` does no solving, decoding or printing. `Doubler.Run` reports only how many stages complete before the panic.
- `main`'s `println!` and all `Debug` output are left out.
- The commented-out `PieceOrbit`/`EdgeOrbit` enums (src/puzzle/square.rs:3-26) are left out.
- `HashMap` hashing is left out. The adjacency map is a Dafny `map` keyed by ordered pairs.
- `usize` is modelled as unbounded `nat`. Products such as `len * len` are assumed not to overflow.
- Five `usize` subtractions can underflow, and each is modelled as a failure (`None`). In a release build each would wrap instead, and that wrap is not modelled.
  - `orbit.len - 1` for an empty edge orbit (src/main.rs:26).
  - `row - 1` in `up_edge` and `up_piece` on row 0 (src/puzzle/square.rs:40, src/puzzle/square.rs:70).
  - `col - 1` in `left_edge` and `left_piece` on column 0 (src/puzzle/square.rs:62, src/puzzle/square.rs:89).
  - `piece_edge` and `piece_neighbor` reach the `square.rs` sites whenever a rotated edge points off the top or left of the grid, for example `piece_edge(PieceKey(0, 0), 3)` on the top-left corner.
- The Rust iterator chains and nested `for` loops in the stages are each modelled as one `while` loop over a precomputed list of rows or steps, in the same order.
- `PieceKey::new`, `PieceKeyEdge::new` and `EdgeKey::new` are datatype constructors.
- `Puzzle` trait dispatch is modelled as a record of the orbit lists and the query functions.
- `num_piece_orbits`/`num_edge_orbits` are the lengths of those lists.
- `piece_edge`, `piece_neighbor` and `edge_pieces`, both as written and corrected, return `None` where the source would panic: a step off the grid, or a key `piece_loc_rot` or `edge_loc` rejects. The corrected ones also return `None` on the centre key with `index == len`, which the source accepts (`SquareFacts.CenterKeyAsWritten`).
- DoublerFacts.RotRowUsable states only that `rotations >= len` implies each row is usable. Rows can be usable with fewer rotations when they are not the last, so the converse is false. The stage-level equivalence is `DoublerFacts.RotStageIff`.
- Sat.CountVarF, Doubler.PairF and the other clause-emitting functions state only growth in their own contracts. Their meaning is stated by the `...Models` lemmas in `SatFacts` and `DoublerFacts`.

## Findings

| source | as written | input that shows it | evidently intended | confidence | as-written member | corrected member |
|---|---|---|---|---|---|---|
| src/sat.rs:63-66 | `implies_or_clause(a, b)` emits `a ∨ b1 ∨ … ∨ bn`, so the clause `or_var` adds for "result => or(vars)" is `r ∨ OR(vars)` and the gate forces `r` true | `or_var([x])` with `x` false and `r` true satisfies every clause | `¬a ∨ b1 ∨ … ∨ bn`, making `r == OR(vars)` | not executed | SatFacts.OrGateNotDisjunction | SatFacts.OrGateFixedMeaning |
| src/sat.rs:131-135 | the `c == 0` counter entry is built with that `or_var`, so it is always true from two inputs on, and `exact_count_clause(1, ...)` no longer means "exactly one" | `exact_count_clause(1, [a, b])` with `a = b = false` | entry `c` means "more than `c` inputs true", so the clauses hold exactly when `count` inputs are true | not executed | SatFacts.BuiltExactOneOfTwoAdmitsNone | SatFacts.FixedExactCountMeaning |
| src/puzzle/square.rs:214 | the centre bound rejects only `index > len` | the centre key with `index == (cols-2)*(rows-2)` on any grid with `cols > 2` is placed on border cell `(rows-1, 1)` | `index >= len` is rejected | not executed | SquareFacts.CenterKeyAsWritten | SquareFacts.LocRotFixedDomain |
| src/puzzle/square.rs:303 | horizontal inner edges are built as `Right` edges, so `edge_pieces` returns the pieces across a different edge | on 3x3, key `(1, 2)` gives `Right` at `(0, 1)`; its pair's `piece_edge` is border key `(0, 1)` | a `Down` edge at that cell, whose pieces meet at the key | not executed | SquareFacts.HorzInnerPairAsWritten | SquareFacts.EdgePiecesMeet |
| src/puzzle/square.rs:389 | the interior edge orbit length is `vert * horz` | 4x4 gives 36 instead of 12; 2x3 gives 0 instead of 1 | `vert + horz`, so the orbits cover the grid's edges | not executed | SquareFacts.InnerOrbitProduct | SquareFacts.EdgeOrbitsCover |
| src/main.rs:67 | `rot(s, r)` indexes `s*len + r` into a vector of `len*rotations` literals | the corner orbit (4 pieces, 1 rotation): `rot(1, 0)` indexes past the end, so `main`'s 5x5 run panics in `add_piece_one_hot_rot` | `s*rotations + r` | not executed | Tables.RotCornerOutOfBounds | Tables.RotFixedBijection |

The first finding has a consequence for `add_piece_dst_adjacent_to_matching`. Each `matches(a, b) ⇒ dest_matches` implication can be met by setting the `or_var` result true, so the stage constrains none of the earlier variables (`DoublerFacts.StepsImposeNothing`). At stage level, the last finding is `DoublerFacts.RotStageIff` (as written) against `DoublerFacts.RotFixedStageIff` (corrected).
