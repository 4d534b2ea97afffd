# Verified models of the course code

This project models, in Dafny, the parts of the course repository whose behaviour rests on real theorems, and
proves those theorems. `dafny verify dfyconfig.toml` checks everything.

- **ParaCL compiler** (`Paracl*.dfy`). The syntax tree with its interpreter `calc`, the parser actions with their
  scopes and symbol tables, the code generator as a class that grows basic blocks, and a small-step machine for the
  LLVM instructions it emits. Between interpreter and machine stands a *strict* reading of the tree: operands left to
  right, each exactly once, none skipped, arithmetic wrapping at 32 bits. What a program means is said on its text, by
  visible names in a stack of scopes; the interpreter gives it this meaning. The generated code means exactly the
  strict reading, divergence included; the strict reading agrees with `calc` for every evaluation order C++ allows;
  collapsing all scopes into one slot per name is harmless. What is printed agrees as well when a run stops on a fault
  or never ends. No order of evaluation can be told from another when each operator reads input on one side at most.
  For each condition of these results `ParaclLimits` holds a program that breaks it and on which the two part: a
  skipped division, a skipped `?`, input that has run out, a declaration that reads itself, `? - ?`, `6 / ?`, an `and`
  of integers, and a sum that overflows.
- **GPU kernels** (`GpuHistogram.dfy`, `GpuGemm.dfy`, `Strides.dfy`). Work items are step machines that interleave
  freely between barriers (sections 6.12.8 and 6.12.11 of the OpenCL 1.2 specification). The local-memory histogram and
  the tiled matrix product are race free, cannot deadlock, have only finite runs, and always end with the
  sequential result; the matrix product without assuming that addition is associative.
- **Permutations** (`PermLoops.dfy`, `PermTables.dfy`, `Perms.dfy`, `PermObjects.dfy`). Cycles of a table and their
  in-place action, Algorithm B of section 1.3.3 of Knuth's TAOCP, uniqueness of the canonical form, the group laws
  down to the stored cycles, and orbits with representatives.
- **LRU caches** (`Lru*.dfy`, `Owning*.dfy`, `CHeap.dfy`, `Seqs.dfy`). Four implementations of one list model:
  intrusive links with back pointers, owned nodes with failing allocations and rollback, head and tail pointers with
  one-way chains, and standard containers with iterators. The first and the third are proved on linked heap objects, the
  second on memory cells with addresses: no freed cell is read, written or pointed at.
- **Stern-Brocot arithmetic** (`SternBrocot*.dfy`). Continued fractions both ways, the children of a node, and the
  three traversals.
- **Vectors whose copies throw** (`MyVector.dfy`). The strong guarantee of the copying and of the moving version, with
  every resource and buffer accounted for.
- **Prim-style growth** (`Prim.dfy`), **grammars** (`ArithGrammars.dfy`, `SumGrammars.dfy`) and the **64-bit integer
  reader** (`ReadInteger.dfy`).

Code that changes state in the repository is a class or a loop here, tied by its `ensures` to a specification whose
properties are proved as lemmas. Where a property turned out to need a condition the code does not check, the condition
is proved sufficient and a lemma exhibits an input on which the property fails without it
(`ParaclLimits`, `GpuGemm.TailIsLost`).

Where the code and its surroundings disagree, the model follows the code: the interpreter reads 0 at the end of the input
while the compiled program's runtime exits; the interpreter short-circuits `&&` and `||` while the generated code is
strict; `calc` evaluates a divisor twice; the histogram and matrix kernels check no divisibility. The third sum
grammar rejects the empty program that the other two accept.

## Model

| member | source | states |
|---|---|---|
| ParaclMeaning.InterpreterMeans | 15-llvm/naive-pcl/Node.hpp:74-209 | the interpreter gives every accepted program its meaning: for every evaluation order, input and number of rounds it ends, fails or goes on as a run of the source text does, names looked up in a stack of scopes, with the same output and rest of the input |
| ParaclUnique.MeaningUnique | 15-llvm/naive-pcl/Node.cc:73-125 | if no operator reads input on both sides, two runs of the text end alike |
| ParaclUnique.MeaningIsInterpreted | 15-llvm/naive-pcl/Node.hpp:74-209 | if no operator reads input on both sides, every run of the text is what the interpreter does, under any evaluation order |
| ParaclUnique.CompiledMeans | 15-llvm/naive-pcl/Codegen.cc:45-56 | from text to machine: if conditions compare, operands are orderly and skipped ones do not divide, a run of the text that ends without having missed input is the run of the compiled program |
| ParaclTheorems.CompilerCorrect | 15-llvm/naive-pcl/Node.hpp:119-195 | for every accepted program with orderly operands, declarations that read themselves included: a terminating interpreter run is printed identically by the compiled program, which then returns with the same input left, exactly when the strict reading of the program does not fail; otherwise the compiled program never returns |
| ParaclTheorems.CompilerForward | 15-llvm/naive-pcl/Node.hpp:119-195 | the forward half of that |
| ParaclTheorems.CompilerBackward | 15-llvm/naive-pcl/Node.hpp:119-195 | with orderly operands and no declaration that reads itself: whatever the compiled program prints before it returns, the interpreter prints too, unless it overflows an int |
| ParaclTheorems.CompilerCorrectStatically | 15-llvm/naive-pcl/Node.cc:108-116 | conditions on the program text: if conditions compare, the operands that the logical operators may skip do not divide and operands are orderly, then an interpreter run that ends without having missed input is the run of the compiled program |
| ParaclTheorems.CodeMeansStrict | 15-llvm/naive-pcl/Node.hpp:119-195 | with no declaration that reads itself: the compiled program returns with some output if and only if the scoped tree, read strictly, ends with that output |
| ParaclTheorems.Diverges | 15-llvm/naive-pcl/Node.hpp:145-157 | with no declaration that reads itself: the block graph runs for ever if and only if no number of rounds is enough for the loops of the tree |
| ParaclTheorems.DivergeTogether | 15-llvm/naive-pcl/Node.hpp:145-157 | with orderly operands and no declaration that reads itself: the compiled program runs for ever and the interpreter never overflows if and only if the interpreter runs for ever and the strict reading meets no fault |
| ParaclTheorems.MachineOutputIsInterpreted | 15-llvm/naive-pcl/Node.hpp:119-195 | with orderly operands and no declaration that reads itself, for every number of steps, in runs that return, stop on a fault or never end: what the machine has printed is a prefix of what the interpreter prints, unless that overflows |
| ParaclTheorems.InterpretedOutputIsCompiled | 15-llvm/naive-pcl/Node.hpp:119-195 | with orderly operands, for every number of rounds: the machine at some time has printed just what the interpreter has printed, unless the strict reading meets a fault |
| ParaclTheorems.OrderInvisible | 15-llvm/naive-pcl/Node.cc:73-125 | if no operator other than the logical ones has `?` on both sides, two runs under any two evaluation orders end alike: the same result and state, or both a fault after the same output, or both going on after the same output, for every input and number of rounds |
| ParaclTheorems.EndedRunIsSet | 15-llvm/naive-pcl/Node.cc:92-95 | where the interpreter ends, the strict reading of the same program reads no unwritten variable |
| ParaclUnset.StmSet | 15-llvm/naive-pcl/Node.hpp:74-209 | the same for statements and loops: visible variables stay written, and a declaration that reads itself stops the interpreter as well |
| ParaclUnset.CalcUnset | 15-llvm/naive-pcl/Node.cc:73-125 | calc of an expression that mentions an unwritten variable does not end normally, under any evaluation order |
| ParaclOrder.StmSame | 15-llvm/naive-pcl/Node.hpp:74-209 | statements under two evaluation orders end alike |
| ParaclOrder.ExprSame | 15-llvm/naive-pcl/Node.cc:73-125 | expressions under two evaluation orders give the same value and state, or neither gives one |
| ParaclOrder.PureSame | 15-llvm/naive-pcl/Node.cc:73-125 | an expression without `?` has the same value in any two states with the same variables, under any two orders |
| ParaclOrder.OrderlyIsOneSided | 15-llvm/naive-pcl/Node.cc:73-125 | the condition of the compiler theorems implies that of OrderInvisible |
| ParaclTheorems.InterpretAgrees | 15-llvm/naive-pcl/Node.cc:73-125 | interpreter and strict reading end alike or go on alike, with the same output; short of that the one that meets a fault of its own has printed a prefix of what the other prints |
| ParaclTheorems.ValidIffRelational | 15-llvm/naive-pcl/Codegen.hpp:83-115 | the emitted function is well formed for LLVM (one terminator closing each block, jumps inside the function, `i1` conditions) if and only if every leaf of every condition is a comparison |
| ParaclTheorems.ReturnsOnce | 15-llvm/naive-pcl/Codegen.hpp:58-58 | a compiled program that returns has one output and one unread rest of the input |
| ParaclLimits.ShortCircuitShows | 15-llvm/naive-pcl/Node.cc:108-111 | a program without faults for the interpreter, which skips a division by zero, on which the compiled program never returns |
| ParaclLimits.EmptyInputShows | 15-llvm/naive-pcl/Node.cc:99-101 | on empty input the interpreter reads 0 and prints it while the compiled program stops without returning |
| ParaclLimits.SelfReadShows | 15-llvm/naive-pcl/Node.cc:42-55 | a declaration that reads itself: undefined for the interpreter, while the compiled program prints the value left in the slot by another variable of that name |
| ParaclLimits.OrderShows | 15-llvm/naive-pcl/Node.cc:80-83 | `? - ?`, with input on both sides, prints different numbers under the two evaluation orders |
| ParaclLimits.DivisorShows | 15-llvm/naive-pcl/Node.cc:112-116 | `6 / ?`: the interpreter reads a number for its check and divides by the next one, the compiled program reads once, so the order condition on divisors is needed |
| ParaclLimits.OverflowShows | 15-llvm/naive-pcl/Codegen.cc:61-64 | a sum that does not fit: undefined in the interpreter, wrapped and printed by the compiled program |
| ParaclLimits.SkippedReadShows | 15-llvm/naive-pcl/Node.cc:108-111 | an operand of `&&` that reads: the interpreter skips it and prints the first number, the compiled program reads it and prints the second; evaluation order is not to blame |
| ParaclLimits.UntypedShows | 15-llvm/naive-pcl/Codegen.cc:95-96 | an `and` of integers: the interpreter takes the branch and prints, while the emitted function is invalid and never returns |
| ParaclSimulation.SimExpr | 15-llvm/naive-pcl/Codegen.cc:58-111 | running the code of an expression leaves its strict value in the operand and every earlier register untouched, or gets stuck exactly on a fault |
| ParaclSimulation.SimNot | 15-llvm/naive-pcl/Codegen.cc:93-94 | the same for negation, which is defined on bits |
| ParaclSimulation.SimBinary | 15-llvm/naive-pcl/Codegen.cc:60-104 | the same for every two-operand operator: both operand codes, then the instruction, give the strict value of the operator; `and` and `or` on bits only |
| ParaclSimulation.SimOperandStm | 15-llvm/naive-pcl/Node.hpp:120-129 | the same for assignments and prints: the slot or the output changes as the statement says |
| ParaclSimulation.SimIf | 15-llvm/naive-pcl/Codegen.hpp:83-97 | the two blocks of an if run the body exactly when the condition holds and join again |
| ParaclSimulation.SimWhile | 15-llvm/naive-pcl/Codegen.hpp:101-115 | the inverted loop, its condition generated twice, runs like the while statement, for any number of rounds and for none |
| ParaclSimulation.SimTest | 15-llvm/naive-pcl/Node.hpp:150-157 | either copy of the loop test leads to the body or to the exit as the condition says |
| ParaclSimulation.SimStm | 15-llvm/naive-pcl/Node.hpp:119-195 | machine and strict reading agree on every statement: same variables, input and output; on a fault the machine stops having printed the same, and when it goes on it has printed the same and made at least as many steps as rounds |
| ParaclSimulation.SimScope | 15-llvm/naive-pcl/Node.hpp:86-90 | the same for the branches of a scope |
| ParaclProgram.MachineFollowsFlat | 15-llvm/naive-pcl/Codegen.cc:45-56 | the whole function from its allocations to its return: three ways the flat reading ends, three ways the machine does, the output the same in each |
| ParaclProgram.RunAllocas | 15-llvm/naive-pcl/Codegen.hpp:75-81 | after the entry allocations every slot exists and is undefined |
| ParaclProgram.FlattenStmCode | 15-llvm/naive-pcl/Codegen.hpp:62-73 | the code of a tree does not change when Decls are replaced by the slots of their names |
| ParaclAgree.AgreeExpr | 15-llvm/naive-pcl/Node.cc:73-125 | on an orderly expression calc and the strict reading give the same value and leave the same input, in any evaluation order, unless the strict reading is at fault or calc overflows (ParaclSkips.StrictOk excludes the first) |
| ParaclAgree.AgreeStm | 15-llvm/naive-pcl/Node.hpp:74-209 | the same for statements, loops included: calc and the strict reading end alike or run out of rounds alike with the same output, or the one that meets a fault of its own has printed a prefix of what the other prints |
| ParaclAgree.AgreeScope | 15-llvm/naive-pcl/Node.hpp:80-84 | the same for the branches of a scope |
| ParaclAgree.StrictPure | 15-llvm/naive-pcl/Node.cc:99-101 | without `?` a value depends on the variables only |
| ParaclAgree.ApplyComputes | 15-llvm/naive-pcl/Node.cc:73-125 | for each arithmetic and comparing operator: where the selected instruction has a result, the operator calc applies gives the same or overflows |
| ParaclMeaning.StmMeans | 15-llvm/naive-pcl/compiler.y:58-127 | the tree built for a statement runs as the statement: scopes, assignment to the innermost scope that has the name, branches and loops |
| ParaclMeaning.LogicMeans | 15-llvm/naive-pcl/compiler.y:106-111 | the tree built for a condition decides what the condition says: `&&` conjunction, the other one disjunction, `!` negation, comparisons of integers |
| ParaclMeaning.ExprMeans | 15-llvm/naive-pcl/compiler.y:75-90 | the tree built for an expression has the value of the expression: unary minus negates, operators apply left to right operand |
| ParaclMeaning.GivesApply | 15-llvm/naive-pcl/Node.cc:73-125 | calc computes sums, differences, products, truncated quotients and remainders that fit an int, or reports the fault |
| ParaclMeaning.PoppedView | 15-llvm/naive-pcl/Node.cc:42-64 | after a nested scope is left the outer names are there with the values they got in it |
| ParaclTree.ComparisonLaws | 15-llvm/naive-pcl/Node.cc:84-91 | the six comparisons are those of a total order of the integers |
| Base.DivisionTruncates | 15-llvm/naive-pcl/Node.cc:112-120 | quotient and remainder are the one pair with a = b q + r, a remainder smaller than the divisor and of the sign of the dividend |
| ParaclIr.ArithmeticWraps | 15-llvm/naive-pcl/Codegen.cc:61-68 | add, sub and mul give the one int equal to the exact result modulo 2^32 |
| ParaclIr.DivisionComputes | 15-llvm/naive-pcl/Codegen.cc:99-104 | sdiv and srem together truncate toward zero |
| ParaclAgree.AgreeOperands | 15-llvm/naive-pcl/Node.cc:73-125 | from operands that agree to an operation that agrees, for every two-operand operator, the logical ones and the divisor computed twice included |
| ParaclAgree.CalcPrints | 15-llvm/naive-pcl/Node.hpp:74-209 | whatever way a statement ends, calc takes back nothing that was printed |
| ParaclSkips.StrictOk | 15-llvm/naive-pcl/Node.cc:108-116 | an expression calc evaluates without running out of input has a strict value as well, when conditions compare and skipped operands do not divide, or only a variable nobody wrote is to blame |
| ParaclSkips.ConditionIsBit | 15-llvm/naive-pcl/Codegen.cc:93-98 | a condition whose leaves compare has strict value 0 or 1, so `and`, `or` and `not` mean the logical operators |
| ParaclSkips.StmOk | 15-llvm/naive-pcl/Node.hpp:74-209 | the same for statements: strict reading succeeds with the same state, or only a variable nobody wrote is to blame |
| ParaclSkips.FailedStays | 15-llvm/naive-pcl/Node.cc:99-101 | a failed read is never forgotten by the stream |
| ParaclProgram.CollapseScopes | 15-llvm/naive-pcl/Codegen.hpp:75-81 | one slot per name instead of one Decl per scope and name changes no run that ends, goes on for ever or stops on a fault, nor what it prints, unless the fault is the read of an unwritten variable, which takes a declaration that reads itself |
| ParaclScopes.FlatStms | 15-llvm/naive-pcl/Node.cc:42-64 | statement lists: every read of a name through its slot gives the value its Decl has |
| ParaclScopes.FlatStm | 15-llvm/naive-pcl/Node.cc:42-64 | single statements |
| ParaclScopes.FlatWhile | 15-llvm/naive-pcl/compiler.y:113-125 | loops, whose body re-declares its variables in every round |
| ParaclScopes.FlatIf | 15-llvm/naive-pcl/compiler.y:92-104 | if statements, whose declarations end with them |
| ParaclScopes.FlatExpr | 15-llvm/naive-pcl/compiler.y:75-90 | expressions: reading the visible Decl and reading the slot agree |
| ParaclScopes.FlatUnset | 15-llvm/naive-pcl/Node.cc:92-95 | an expression that also reads an unset variable runs the same through the slots until it uses that variable, whatever the slot holds |
| ParaclScopes.SelfReadFails | 15-llvm/naive-pcl/Node.cc:92-95 | a declaration that reads itself is a fault the first time it runs |
| ParaclScopes.LeaveScope | 15-llvm/naive-pcl/compiler.y:49-52 | values matched for the names at the end of a nested scope stay matched for the outer names after it is left |
| ParaclValid.StmSealed | 15-llvm/naive-pcl/Codegen.hpp:83-115 | between two points of code generation every block but the open one gets its terminator and every jump its target |
| ParaclValid.StmTyped | 15-llvm/naive-pcl/Codegen.hpp:83-115 | the code of a statement is well typed if and only if its conditions compare |
| ParaclValid.ExprTyped | 15-llvm/naive-pcl/Codegen.cc:60-104 | integer code always types; a condition yields an `i1` exactly when its leaves compare |
| ParaclSource.StmTreeOk | 15-llvm/naive-pcl/compiler.y:54-127 | the tree built for a statement is a statement over the declared names and the tables stay consistent |
| ParaclSource.StmsTreeOk | 15-llvm/naive-pcl/compiler.y:54-56 | the same for statement lists |
| ParaclSource.ExprIsExpr | 15-llvm/naive-pcl/compiler.y:75-90 | an accepted expression builds an integer tree over names declared so far |
| ParaclCodegenSpec.StmCode | 15-llvm/naive-pcl/Node.hpp:119-195 | code generation only appends: it never rewrites emitted code, and ends in an open block with the same names |
| ParaclCodegenSpec.ExprCode | 15-llvm/naive-pcl/Node.hpp:119-129 | code for an expression is appended to the current block only; names and other blocks stay as they are |
| ParaclCodegen.CodeGen.StartFunction | 15-llvm/naive-pcl/Codegen.cc:45-56 | one empty open block and no names |
| ParaclCodegen.CodeGen.AddDecl | 15-llvm/naive-pcl/Codegen.hpp:75-81 | a slot for every Decl so far at the top of the entry block, the name now meaning the new one |
| ParaclCodegen.CodeGen.AddDeclRead | 15-llvm/naive-pcl/Codegen.hpp:62-67 | a load from the slot of the name into a fresh register |
| ParaclCodegen.CodeGen.AddDeclWrite | 15-llvm/naive-pcl/Codegen.hpp:69-73 | a store to the slot of the name |
| ParaclCodegen.CodeGen.StartIf | 15-llvm/naive-pcl/Codegen.hpp:83-91 | two new blocks, the branch to them, and code going on in the first |
| ParaclCodegen.CodeGen.EndIf | 15-llvm/naive-pcl/Codegen.hpp:93-97 | the body jumps to the block behind the statement, where code goes on |
| ParaclCodegen.CodeGen.StartWhile | 15-llvm/naive-pcl/Codegen.hpp:101-109 | the entry test of the inverted loop |
| ParaclCodegen.CodeGen.EndWhile | 15-llvm/naive-pcl/Codegen.hpp:111-115 | the second test, back to the body or on |
| ParaclCodegen.CodeGen.AddBinary | 15-llvm/naive-pcl/Codegen.cc:58-111 | the instruction whose meaning is the operator, in a fresh register of the right type; a null left operand of plus and minus is the constant 0 |
| ParaclCodegen.CodeGen.CodegenExpr | 15-llvm/naive-pcl/Node.hpp:119-129 | the imperative generator emits the specified code for every expression |
| ParaclCodegen.CodeGen.CodegenStm | 15-llvm/naive-pcl/Node.hpp:74-209 | and for every statement and scope |
| ParaclCodegen.CodeGen.CodegenIf | 15-llvm/naive-pcl/Node.hpp:185-196 | and for an if, between StartIf and EndIf |
| ParaclCodegen.CodeGen.CodegenWhile | 15-llvm/naive-pcl/Node.hpp:150-157 | and for a while, generating the condition twice |
| ParaclParser.Parser.Push | 15-llvm/naive-pcl/Node.hpp:100-100 | a fresh scope inside the current one sees exactly what the current one sees |
| ParaclParser.Parser.Reset | 15-llvm/naive-pcl/Node.hpp:101-101 | the enclosing scope is current again, with its own names only |
| ParaclParser.Parser.Visible | 15-llvm/naive-pcl/Node.cc:57-64 | the walk outwards through the tables finds the innermost declaration, or none |
| ParaclParser.Parser.Access | 15-llvm/naive-pcl/Node.cc:42-55 | the visible Decl, or a new one in the current scope with a slot of its own; outer scopes are unchanged |
| ParaclParser.Parser.ParseStm | 15-llvm/naive-pcl/compiler.y:58-127 | the actions build the specified tree and tables, or stop exactly at an undeclared name |
| ParaclParser.Parser.ParseStms | 15-llvm/naive-pcl/compiler.y:54-56 | the same for statement lists, each statement becoming a branch of the current scope |
| ParaclParser.CompileProgram | 15-llvm/naive-pcl/compiler.y:43-43 | the whole compiler: the specified function for accepted programs and nothing for the others |
| GpuHistogram.HistogramCorrect | 11-compute/hist.cl:22-33 | for every number of groups and items, data and interleaving, the final histogram is the initial one plus the number of occurrences |
| GpuHistogram.BinsBounded | 11-compute/hist.cl:22-33 | in every reachable state every global bin lies between its initial and its final value and every local bin between 0 and the number of occurrences, so counters that can hold the result never wrap around |
| GpuHistogram.StepKeepsInv | 11-compute/hist.cl:22-33 | every step of every item keeps the invariant that ties local bins, pending adds and merged groups to the data already processed |
| GpuHistogram.RunInv | 11-compute/hist.cl:22-33 | the invariant holds in every reachable state |
| GpuHistogram.NeverUninitialised | 11-compute/hist.cl:22-28 | no local bin is counted into or read before it has been zeroed |
| GpuHistogram.NoRace | 11-compute/hist.cl:22-33 | two items of a group that can both move never make conflicting plain accesses to a local bin |
| GpuHistogram.NoDeadlock | 11-compute/hist.cl:25-30 | as long as an item is in the kernel, some item can move |
| GpuHistogram.StopsWhenFinished | 11-compute/hist.cl:25-33 | a run can go on exactly while an item has not left the kernel |
| GpuHistogram.RunIsBounded | 11-compute/hist.cl:22-33 | no run has more steps than the launch has work |
| GpuHistogram.WindowCounts | 11-compute/hist.cl:27-28 | the strided windows cover every datum exactly once |
| GpuHistogram.AllMerged | 11-compute/hist.cl:32-33 | once every group has merged a bin, each datum is counted once in it |
| GpuHistogram.HistRef | 11-compute/cl_hist.cc:327-333 | every bin grows by the number of data equal to it |
| GpuGemm.TiledIsSimple | 11-compute/gemm_localmem.cl:18-48 | when TS divides AY every finished run of the tiled kernel leaves the same array as any kernel computing the product, additions in the same order |
| GpuGemm.TiledResult | 11-compute/gemm_localmem.cl:18-48 | without that condition the result still is the product over all whole tiles |
| GpuGemm.TailIsLost | 11-compute/gemm_localmem.cl:28-28 | whenever TS does not divide AY there are matrices on which no finished run gives the product |
| GpuGemm.OnesExist | 11-compute/gemm_localmem.cl:28-28 | such matrices exist for every shape |
| GpuGemm.StepKeepsInv | 11-compute/gemm_localmem.cl:30-47 | every step keeps the invariant on accumulators, tile cells and barrier phases |
| GpuGemm.NoRace | 11-compute/gemm_localmem.cl:33-42 | while an item can work on a tile no item of its group can write a cell of it |
| GpuGemm.OwnCells | 11-compute/gemm_localmem.cl:33-47 | no step of an item changes the cell of either tile that another item loads, nor its element of C |
| GpuGemm.CellsShared | 11-compute/gemm_localmem.cl:33-34 | the items of a group load every cell [col][row] of a tile, no two of them the same |
| GpuGemm.StopsWhenFinished | 11-compute/gemm_localmem.cl:37-43 | a run can go on exactly while an item has not stored its result: the barriers cannot deadlock |
| GpuGemm.RunIsBounded | 11-compute/gemm_localmem.cl:30-47 | no run has more steps than its items have in all |
| GpuGemm.ProductUnique | 11-compute/gemm_simple.cl:17-24 | there is one array that is the product |
| GpuGemm.SimpleKernel | 11-compute/gemm_simple.cl:17-24 | the simple kernel computes the product, its items taken in any order that includes them all |
| GpuGemm.MatrixMultRef | 11-compute/cl_gemm.cc:382-395 | the reference product computes the product |
| GpuGemm.TransposeMultRef | 11-compute/cl_gemm.cc:398-417 | so does the version over the transposed copy, with the same additions in the same order |
| PermLoops.PermLoop.constructor | 17-algorithms/permutations/permloops.hpp:195-202 | the loop is rolled to start with its least element and acts as given |
| PermLoops.PermLoop.Reroll | 17-algorithms/permutations/permloops.hpp:132-135 | rotation to the least element |
| PermLoops.RerolledIsLoop | 17-algorithms/permutations/permloops.hpp:132-135 | rolling changes neither the elements nor the action and gives a canonical loop |
| PermLoops.PermLoop.Add | 17-algorithms/permutations/permloops.hpp:210-216 | one more element, rolled again |
| PermLoops.PermLoop.Inverse | 17-algorithms/permutations/permloops.hpp:218-225 | the stored loop is reversed behind its first element and stays canonical |
| PermLoops.InvertedIsLoop | 17-algorithms/permutations/permloops.hpp:218-225 | the reversed loop undoes the loop on every element |
| PermLoops.PermLoop.ApplyTo | 17-algorithms/permutations/permloops.hpp:233-241 | the next element of the loop, cyclically, or the element itself |
| PermLoops.ApplyInjective | 17-algorithms/permutations/permloops.hpp:233-241 | the action of a loop is injective |
| PermLoops.PermLoop.ApplyTable | 17-algorithms/permutations/permloops.hpp:243-260 | the in-place pass leaves the table composed with the loop: every entry is the old table at the image of its index |
| PermTables.CreateLoops | 17-algorithms/permutations/permloops.hpp:309-328 | the loops of a permutation table: disjoint, covering the domain, least elements first and ascending, each following the table |
| PermTables.DecomposedAction | 17-algorithms/permutations/permloops.hpp:309-328 | such loops act on every element as the table does |
| PermTables.NextIsNew | 17-algorithms/permutations/permloops.hpp:321-324 | the walk along the table never meets an element of an earlier loop or of its own path before it closes |
| PermTables.LoopRolled | 17-algorithms/permutations/permloops.hpp:132-135 | the rotation inside `add` never moves anything while a table is walked |
| PermTables.SimplifyLoops | 17-algorithms/permutations/permloops.hpp:330-339 | whatever overlapping cycles go in, the disjoint cycles that come out have the same product |
| PermTables.ComposedIsPerm | 17-algorithms/permutations/permloops.hpp:243-260 | composing a permutation table with a loop gives a permutation table |
| Perms.CanonicalUnique | 17-algorithms/permutations/perms.hpp:119-119 | two canonical permutations are stored alike if and only if they map every element alike |
| Perms.SortedIsCanonical | 17-algorithms/permutations/perms.hpp:274-279 | sorting the loops of a table gives the canonical form and keeps the action |
| Perms.ProductAssociative | 17-algorithms/permutations/perms.hpp:163-168 | products do not depend on the bracketing, down to the stored cycles |
| Perms.InverseUndoes | 17-algorithms/permutations/perms.hpp:88-91 | inverting every loop keeps the canonical form and undoes the permutation |
| Perms.ProductWithInverse | 17-algorithms/permutations/perms.hpp:170-173 | a permutation times its inverse is the default permutation, cycle for cycle |
| Perms.IdentityCanonical | 17-algorithms/permutations/perms.hpp:181-188 | the default permutation is canonical and moves nothing |
| PermObjects.CanonicalPassesCheck | 17-algorithms/permutations/perms.hpp:255-272 | canonical permutations pass every test of `check` |
| PermObjects.Permutation.Identity | 17-algorithms/permutations/perms.hpp:181-188 | the default constructor stores the canonical identity and passes `check` |
| PermObjects.Permutation.FromLoops | 17-algorithms/permutations/perms.hpp:68-74 | any cycles, applied first to last, in canonical form |
| PermObjects.Permutation.Lmul | 17-algorithms/permutations/perms.hpp:223-234 | the product with the argument acting first, canonical again |
| PermObjects.Permutation.Rmul | 17-algorithms/permutations/perms.hpp:236-247 | the product with the argument acting last, canonical again |
| PermObjects.Permutation.Inverse | 17-algorithms/permutations/perms.hpp:88-91 | the stored inverse, canonical again |
| PermObjects.Permutation.ApplyTo | 17-algorithms/permutations/perms.hpp:196-201 | the product of the loops on one element |
| PermObjects.Permutation.Equals | 17-algorithms/permutations/perms.hpp:119-119 | comparing the stored cycles decides equality as maps |
| PermObjects.Product | 17-algorithms/permutations/perms.hpp:163-168 | a fresh permutation that is the product; the arguments are unchanged |
| PermObjects.Invert | 17-algorithms/permutations/perms.hpp:170-173 | a fresh inverse; the argument is unchanged |
| PermObjects.ProductWithInvert | 17-algorithms/permutations/perms.hpp:163-173 | `product(P, invert(P))` is stored exactly like the default permutation |
| PermObjects.Orbit | 17-algorithms/permutations/groups.hpp:20-33 | the least set that contains the start and is closed under all generators |
| PermObjects.OrbitReps | 17-algorithms/permutations/groups.hpp:36-51 | the same key set, every stored permutation being canonical, a product of generators, and sending the start to its key |
| PermObjects.SomethingNew | 17-algorithms/permutations/groups.hpp:23-31 | every nonempty round adds an element of the domain, so the loop ends |
| PermObjects.OneMoreLetter | 17-algorithms/permutations/groups.hpp:43-46 | a representative times a generator represents the image |
| LruAgreement.ReferenceHits | 01-basics/lru-in-c-datastructs/tests/test_lru.py:13-22 | the loop of the tests computes the hits of the list model |
| LruAgreement.CompareHits | 01-basics/lru-in-c-datastructs/tests/test_lru.py:78-84 | the four caches and the reference report the same hits for every capacity, request sequence and hash function, but for the owning one running out of memory |
| LruModel.ClampingIsHarmless | 01-basics/lru-in-c/src/main.c:48-50 | clamping the capacity to the number of requests never changes the number of hits |
| LruModel.EnoughRoom | 01-basics/lru-in-c/src/main.c:48-50 | two caches that never evict behave alike |
| LruModel.RunOk | 01-basics/lru-in-c-datastructs/tests/test_lru.py:13-22 | after any run the keys differ and fit the capacity |
| LruModel.AccessCases | 01-basics/lru-in-c-datastructs/tests/test_lru.py:17-21 | a hit moves the key to the front; a miss puts it in front of the most recent others |
| LruIntrusive.ListRemove | 01-basics/lru-in-c-datastructs/src/list.c:14-18 | the ring without the link, which points at itself |
| LruIntrusive.ListPushFront | 01-basics/lru-in-c-datastructs/src/list.c:7-12 | the ring with the link first |
| LruIntrusive.IntMap.constructor | 01-basics/lru-in-c-datastructs/src/int_map.c:15-24 | an empty map of the given size |
| LruIntrusive.IntMap.Find | 01-basics/lru-in-c-datastructs/src/int_map.c:43-51 | the linked entry of the key, or null exactly when no entry has it |
| LruIntrusive.IntMap.Insert | 01-basics/lru-in-c-datastructs/src/int_map.c:53-63 | links the entry if and only if there are buckets, it is not linked yet and its key is new; chains and back pointers stay correct |
| LruIntrusive.IntMap.Remove | 01-basics/lru-in-c-datastructs/src/int_map.c:26-33 | exactly that entry leaves its chain, through whichever cell points at it |
| LruIntrusive.IntMap.Destroy | 01-basics/lru-in-c-datastructs/src/int_map.c:35-41 | every entry ends up detached and the map empty |
| LruIntrusive.PushInto | 01-basics/lru-in-c-datastructs/src/int_map.c:56-62 | pushing onto one chain leaves every chain correct |
| LruIntrusive.PullFrom | 01-basics/lru-in-c-datastructs/src/int_map.c:26-33 | pulling from one chain leaves every chain correct |
| LruIntrusive.LruCache.constructor | 01-basics/lru-in-c-datastructs/src/lru.c:20-36 | an empty cache whose list, index and entries agree |
| LruIntrusive.LruCache.Access | 01-basics/lru-in-c-datastructs/src/lru.c:46-72 | the hit flag and the recency order are those of the list model; circular list, bucket chains and entries[0..used) hold the same distinct keys again |
| LruIntrusive.Register | 01-basics/lru-in-c-datastructs/src/lru.c:64-68 | the asserted insertion never fails for a detached entry with a new key |
| LruIntrusive.LruCache.Hit | 01-basics/lru-in-c-datastructs/src/lru.c:51-53 | the entry leaves the list and stays in the index |
| LruIntrusive.LruCache.Miss | 01-basics/lru-in-c-datastructs/src/lru.c:54-69 | a spare or the least recent entry is re-keyed and indexed, on no list |
| LruIntrusive.LruCache.KeysOk | 01-basics/lru-in-c-datastructs/src/lru.c:46-72 | the keys on the list differ, are the keys of the index, and number `used` |
| LruIntrusive.RunRequests | 01-basics/lru-in-c-datastructs/src/main.c:45-61 | over every run the hits are those of the list model |
| CHeap.Memory.Malloc | 01-basics/lru-in-c/src/lru.c:30-32 | an address that was not allocated, or failure, as the oracle decides |
| CHeap.Memory.Free | 01-basics/lru-in-c/src/lru.c:24-24 | exactly one allocated address is given back |
| OwningList.List.Create | 01-basics/lru-in-c/src/list.c:14-21 | an empty list, or null with nothing allocated |
| OwningList.List.PushFront | 01-basics/lru-in-c/src/list.c:47-54 | a new first node, linked between head and old front, or nothing changed when the allocation fails |
| OwningList.List.MoveFront | 01-basics/lru-in-c/src/list.c:56-59 | the node first, the others in order, addresses kept |
| OwningList.List.Remove | 01-basics/lru-in-c/src/list.c:61-65 | the neighbours are linked to each other and the node is freed, nothing else; every pointer followed is to a struct the list still owns |
| OwningList.List.Destroy | 01-basics/lru-in-c/src/list.c:67-73 | every node and the list are freed, each once |
| OwningList.List.Prepend | 01-basics/lru-in-c/src/list.c:35-40 | four pointer writes make the node the first of the ring |
| OwningList.List.Detach | 01-basics/lru-in-c/src/list.c:42-45 | two pointer writes take the node out of the ring |
| OwningList.RingDetached | 01-basics/lru-in-c/src/list.c:42-45 | after these writes the remaining cells are a ring of the other nodes, for a ring of any size |
| OwningList.RingPrepended | 01-basics/lru-in-c/src/list.c:35-40 | after these writes the cells are a ring that starts with the new node |
| OwningMap.HashMap.Create | 01-basics/lru-in-c/src/hash_map.c:26-39 | an empty map exactly when the size is legal and both allocations succeed, else nothing stays allocated |
| OwningMap.HashMap.Find | 01-basics/lru-in-c/src/hash_map.c:56-65 | the walk along the next pointers finds the value of the key if and only if it is there |
| OwningMap.HashMap.Insert | 01-basics/lru-in-c/src/hash_map.c:67-79 | duplicate, no memory or inserted, exactly when it should; unchanged unless inserted |
| OwningMap.HashMap.Remove | 01-basics/lru-in-c/src/hash_map.c:81-91 | the entry of the key, if any, is bypassed and freed; no pointer to it is left or followed |
| OwningMap.HashMap.Destroy | 01-basics/lru-in-c/src/hash_map.c:41-54 | every entry, the table and the map are freed, each once |
| OwningMap.HashMap.Seek | 01-basics/lru-in-c/src/hash_map.c:82-84 | the link, bucket or next field, that leads to the entry of the key |
| OwningMap.HashMap.Bypass | 01-basics/lru-in-c/src/hash_map.c:87-89 | writing through that link bypasses exactly that entry; all other chains stay as they are |
| OwningMap.LinkedBypass | 01-basics/lru-in-c/src/hash_map.c:87-88 | the chain without the entry is linked again |
| LruOwning.LruCache.Create | 01-basics/lru-in-c/src/lru.c:54-68 | a cache exactly when all four allocations succeed and the size is legal, else nothing stays allocated |
| LruOwning.LruCache.EvictOldest | 01-basics/lru-in-c/src/lru.c:19-26 | the last page leaves list, index and memory; everything else stays |
| LruOwning.LruCache.Allocate | 01-basics/lru-in-c/src/lru.c:28-44 | entry, node and map entry exactly when three allocations in a row succeed, else order, index, entries and allocations as before; the index error cannot happen |
| LruOwning.LruCache.InsertPage | 01-basics/lru-in-c/src/lru.c:28-52 | on success the loaded page is first and the least recent made room; after NO_MEMORY pages, recency order, index, entries, allocations and output are as before, and the loader did not run |
| LruOwning.LruCache.Request | 01-basics/lru-in-c/src/lru.c:80-97 | hit, miss or no memory exactly when each should be, and what each does to pages, recency order, output and memory; after NO_MEMORY pages, recency order, index, entries, allocations and output are as before |
| LruOwning.LookupUpdate | 01-basics/lru-in-c/src/lru.c:80-97 | the public operation with null arguments: INDEX_ERROR never, keys follow the list model, the loader runs exactly on misses, no memory leaks; after NO_MEMORY pages, recency order, index, entries, allocations and output are as before |
| LruOwning.LruCache.Destroy | 01-basics/lru-in-c/src/lru.c:70-78 | everything the cache owns is freed, each piece once, and nothing else |
| LruOwning.RunRequests | 01-basics/lru-in-c/src/main.c:48-76 | over every run the hits are those of the list model unless an allocation fails; either way nothing stays allocated |
| LruOwning.CoherentRemoved | 01-basics/lru-in-c/src/lru.c:19-26 | taking one page out of list, entries and index keeps the three in agreement |
| LruOwning.CoherentPush | 01-basics/lru-in-c/src/lru.c:28-40 | so does adding one with a new key |
| LruOwning.CoherentMoved | 01-basics/lru-in-c/src/list.c:56-59 | so does moving one to the front |
| LruNaive.Cache.Unlink | 01-basics/lru-in-c-naive/main.c:29-38 | the null-terminated list without the node, head and tail updated |
| LruNaive.Cache.Prepend | 01-basics/lru-in-c-naive/main.c:40-48 | the list with the node first |
| LruNaive.Find | 01-basics/lru-in-c-naive/main.c:93-96 | the node of the value in its chain, or null exactly when there is none |
| LruNaive.Pull | 01-basics/lru-in-c-naive/main.c:107-111 | the walk along the links bypasses exactly that node; all chains stay correct |
| LruNaive.Push | 01-basics/lru-in-c-naive/main.c:115-116 | the node becomes first of its chain; all chains stay correct |
| LruNaive.Cache.Access | 01-basics/lru-in-c-naive/main.c:90-118 | one turn of the loop: hit and recency order of the list model, list and chains holding the same nodes again |
| LruNaive.Cache.Reuse | 01-basics/lru-in-c-naive/main.c:104-113 | the tail leaves chain and list |
| LruNaive.RunRequests | 01-basics/lru-in-c-naive/main.c:58-119 | over every run the hits are those of the list model |
| LruCxx.Cache.LookupUpdate | 01-basics/lru-in-cxx/cache.hpp:35-56 | hit flag and key order of the list model, pages kept or loaded, the loader run only on misses of a cache with room, iterators valid again |
| LruCxx.KeysDistinct | 01-basics/lru-in-cxx/cache.hpp:23-28 | the hash table has exactly the keys of the list, each once |
| LruCxx.Spliced | 01-basics/lru-in-cxx/cache.hpp:39-43 | splicing keeps every iterator of the hash table valid |
| LruCxx.RunRequests | 01-basics/lru-in-cxx/cache.cc:42-52 | over every run, without clamping, the hits are those of the list model |
| SternBrocot.ComputeGcd | archive/older/09-containers/sbt.cc:10-19 | the loop computes Gcd in either argument order |
| SternBrocot.GcdGreatest | archive/older/09-containers/sbt.cc:10-19 | Gcd divides both numbers and everything that divides both divides it |
| SternBrocot.GcdOfCoprime | archive/older/09-containers/sbt.cc:10-19 | Gcd is 1 exactly for coprime numbers |
| SternBrocot.ToContfrac | archive/older/09-containers/sbt.cc:21-37 | the terms of the fraction, although it is reduced on the way |
| SternBrocot.TermsScaled | archive/older/09-containers/sbt.cc:32-34 | the terms do not depend on the representation of the fraction |
| SternBrocot.TermsCanonical | archive/older/09-containers/sbt.cc:21-37 | only the first term may be 0 and a last 1 stands alone |
| SternBrocot.FromContfrac | archive/older/09-containers/sbt.cc:39-51 | the value of the continued fraction; the divisions by the gcd do nothing |
| SternBrocot.ValueCoprime | archive/older/09-containers/sbt.cc:39-51 | every value is in lowest terms |
| SternBrocot.ExpandCollapse | archive/older/09-containers/sbt.cc:21-51 | expanding p/q and collapsing gives p/q divided by the gcd |
| SternBrocot.TermsReduced | archive/older/09-containers/sbt.cc:21-51 | `from_contfrac(to_contfrac(p, q))` is p/q in lowest terms |
| SternBrocot.CollapseExpand | archive/older/09-containers/sbt.cc:21-51 | a canonical continued fraction is the expansion of its value |
| SternBrocot.Childs | archive/older/09-containers/sbt.cc:69-80 | the imperative code returns the specified pair |
| SternBrocot.ChildrenOk | archive/older/09-containers/sbt.cc:69-80 | for p/q in lowest terms: l/m < p/q < r/s at unit determinants, both in lowest terms and positive, (l + r, m + s) = (3p, 3q), and numerator plus denominator grows |
| SternBrocotWalks.TestStack | archive/older/09-containers/adapters-queue.cc:14-27 | the stack prints the tree in preorder |
| SternBrocotWalks.BreadthFirst | archive/older/09-containers/adapters-queue.cc:29-42 | the queue prints the tree level by level, each level from left to right, every node once |
| SternBrocotWalks.PrintedIsAll | archive/older/09-containers/adapters-queue.cc:20-42 | the fifteen printed fractions, in the order of the queue: those with both numbers below 4 and their children |
| SternBrocotWalks.GreaterIsReal | archive/older/09-containers/sbt.h:22-27 | the heap compares the values of the fractions |
| SternBrocotWalks.LevelsAreTrees | archive/older/09-containers/adapters-queue.cc:29-42 | the levels below some nodes hold exactly the nodes of their subtrees |
| SternBrocotWalks.SweepGoesOn | archive/older/09-containers/adapters-queue.cc:29-42 | taking out the first node and queueing its children keeps the sweep through the levels |
| SternBrocotWalks.TestPriqueue | archive/older/09-containers/adapters-queue.cc:44-67 | the heap prints the same nodes in ascending order |
| SternBrocotWalks.Below | archive/older/09-containers/adapters-queue.cc:20-24 | the visited part of the tree is finite: depth decreases towards the children |
| SternBrocotWalks.NotGreaterTransitive | archive/older/09-containers/sbt.h:22-27 | the order of the heap, compared exactly, is transitive |
| MyVector.Store.Copy | 08-exceptions/myvec-demo/controllable.hh:19-26 | a copy owns a new resource with the same value, or throws and leaves nothing allocated |
| MyVector.EverySixth | 08-exceptions/myvec-demo/controllable.hh:19-26 | from its initial value the static counter makes exactly every sixth copy throw |
| MyVector.Vector.Make | 08-exceptions/myvec-demo/myvec-3.cc:57-60 | an empty buffer, or nothing when the allocation throws |
| MyVector.Vector.Destroy | 08-exceptions/myvec-demo/myvec-3.cc:62-65 | every resource and the buffer are freed, each once |
| MyVector.Vector.CopyOf | 08-exceptions/myvec-demo/myvec-3.cc:79-84 | an equal vector with resources of its own, or no trace of the attempt |
| MyVector.Vector.Assign | 08-exceptions/myvec-demo/myvec-3.cc:86-90 | the elements of the right side (which may be the vector itself), or everything as before; no resource leaks |
| MyVector.Vector.Push | 08-exceptions/myvec-demo/myvec-3.cc:105-117 | one more element, also of the vector itself, with the capacity of the growth rule, or everything as before |
| MyVector.Vector.Enlarged | 08-exceptions/myvec-demo/myvec-3.cc:107-111 | the larger copy, or no trace of it, whichever copy throws |
| MyVector.Vector.Top | 08-exceptions/myvec-demo/myvec-3.cc:92-96 | the caller gets a copy of the last element, an empty report, or no trace of the attempt |
| MyVector.Vector.Pop | 08-exceptions/myvec-demo/myvec-3.cc:98-103 | the last element ends with its resource; false exactly for an empty vector |
| MyVector.Vector.PushCopied | 08-exceptions/myvec-demo/myvec-4.cc:108-111 | the copying push of the moving version: one more element or everything as before |
| MyVector.Vector.PushMoving | 08-exceptions/myvec-demo/myvec-4.cc:113-128 | the temporary hands its resource over, or keeps it when the allocation throws |
| MyVector.Vector.GrowMoving | 08-exceptions/myvec-demo/myvec-4.cc:117-123 | growing by moves keeps all elements and resources and can only fail before anything moved |
| MyVector.LaidBuild | 08-exceptions/myvec-demo/myvec-3.cc:115-116 | constructing in the first raw place keeps exactly the places below `used` constructed |
| MyVector.LaidUnbuild | 08-exceptions/myvec-demo/myvec-3.cc:101-102 | destroying the last element does as well |
| Prim.Graph.AddEdge | 16-containers/prim.cc:39-42 | the new edge can be taken from both ends; all others are as before |
| Prim.Scan | 16-containers/prim.cc:81-90 | after scanning a list every vertex outside the tree knows its heaviest edge into it and waits in the queue if it has one |
| Prim.Turn | 16-containers/prim.cc:74-91 | one turn takes the greatest vertex in the queue, keeps the tree and its frontier and either shortens the queue or adds a vertex |
| Prim.Grow | 16-containers/prim.cc:66-93 | ends with a tree grown from 0, each time by the greatest vertex that an edge above INT_MIN reaches, hung on the earliest vertex with a heaviest edge to it, and no edge leading out; None exactly for the empty graph |
| Prim.GrownUnique | 16-containers/prim.cc:66-93 | these properties leave one order and one parent vector only |
| Prim.FirstIsEarliest | 16-containers/prim.cc:81-90 | of several heaviest edges the one from the vertex that joined first is kept |
| Prim.Joins | 16-containers/prim.cc:75-79 | a vertex taken from the queue hangs on the tree by a heaviest edge |
| Prim.AllFromIs | 16-containers/prim.cc:81-90 | what has been scanned is exactly the edges out of the tree |
| Prim.ParentIffReachable | 16-containers/prim.cc:66-93 | the parent is -1 exactly at 0 and at the vertices that no walk over edges above INT_MIN reaches |
| Prim.ClimbEnds | 16-containers/prim.cc:88-88 | following the parents reaches 0 without a cycle |
| Prim.TreeReachable | 16-containers/prim.cc:66-93 | every vertex of the tree is reachable |
| Prim.WalkStays | 16-containers/prim.cc:66-93 | every reachable vertex is in the tree |
| ArithGrammars.SameLanguage | 07-parsers/simplest-arith/simplest-lr.yy:60-73 | both grammars derive the same token strings with the same values |
| ArithGrammars.RightEKeeps | 07-parsers/simplest-arith/simplest-nlr.yy:64-83 | a left-recursive tree has a right-recursive one with the same tokens and value |
| ArithGrammars.LeftEKeeps | 07-parsers/simplest-arith/simplest-nlr.yy:67-72 | and the other way round |
| ArithGrammars.Unambiguous | 07-parsers/simplest-arith/simplest-lr.yy:60-73 | a token string has at most one value |
| ArithGrammars.EvaluateIsDerivation | 07-parsers/simplest-arith/simplest-nlr.yy:64-83 | printing an expression and parsing the tokens gives its value; nothing else is accepted |
| ArithGrammars.EvaluateWritten | 07-parsers/simplest-arith/simplest-lr.yy:60-73 | an arithmetic expression, written with brackets where the grammar needs them, evaluates to its value |
| ArithGrammars.FindsE | 07-parsers/simplest-arith/simplest-nlr.yy:67-83 | parsing the tokens of a tree finds that tree, whatever may follow an expression |
| ArithGrammars.ParseE | 07-parsers/simplest-arith/simplest-nlr.yy:67-83 | what parsing finds has exactly the tokens it consumed |
| SumGrammars.SameOutput | 07-parsers/numgrammar/numgrammar.y:61-82 | the three grammars accept the same nonempty programs and print the same comparisons in source order; only the third rejects the empty program |
| SumGrammars.PrintsTheTokens | 07-parsers/numgrammar/numgrammar.y:61-82 | what all three print can be read off the tokens: for each equation the numbers at the start or behind a plus less those behind a minus, on both sides, and whether the two are equal |
| SumGrammars.LeftWorth | 07-parsers/numgrammar/numgrammar.y:76-82 | the value of a sum is the total of what is added less the total of what is taken away |
| SumGrammars.ToRightKeeps | 07-parsers/numgrammar/numgrammar-sr-fixed.y:77-80 | a left-recursive sum has a right-recursive one with the same tokens and value |
| SumGrammars.ToLeftKeeps | 07-parsers/numgrammar/numgrammar.y:76-82 | and the other way round |
| SumGrammars.VectorSum | 07-parsers/advgrammar/numgrammar.y:73-76 | the collected vector sums to the value of the sum |
| SumGrammars.CollectedLines | 07-parsers/advgrammar/numgrammar.y:63-67 | collecting backwards and inserting in reverse prints in source order |
| SumGrammars.NumDriver.Insert | 07-parsers/advgrammar/numdriver.hpp:46-48 | the equations the other way round |
| SumGrammars.NumDriver.Printout | 07-parsers/advgrammar/numdriver.hpp:50-58 | one line an equation with both sums and whether they are equal |
| SumGrammars.RunThird | 07-parsers/advgrammar/numdriver.hpp:40-58 | the third program prints what the second grammar prints |
| ReadInteger.Read | 01-basics/lru-in-c/src/main.c:10-36 | accepts exactly the optionally signed decimal tokens in the int64 range and returns their value; accepted input is consumed up to one character behind the token, rejected input up to the first character after which nothing could have been accepted any more |
| ReadInteger.ReadWritten | 01-basics/lru-in-c/src/main.c:12-36 | any string over space, tab, newline, vertical tab, form feed and carriage return, a numeral with or without plus, and the end or one of these: read as the number exactly if 64 bits hold it |
| ReadInteger.ReadSpoilt | 01-basics/lru-in-c/src/main.c:30-31 | a numeral followed by any other character that is no digit is rejected |
| ReadInteger.StopsTooLarge | 01-basics/lru-in-c/src/main.c:22-26 | the digit that passes the limit is the first after which no continuation is a 64-bit integer |
| ReadInteger.StopsAtOther | 01-basics/lru-in-c/src/main.c:30-31 | so is a character behind the digits that is no white space |
| ReadInteger.StopsAtNoDigit | 01-basics/lru-in-c/src/main.c:14-20 | so is anything but a digit where the first digit has to be |
| ReadInteger.ReadDigits | 01-basics/lru-in-c/src/main.c:20-28 | stops exactly when the limit would be passed; the accumulator never leaves uint64 |
| ReadInteger.ReadPrinted | 01-basics/lru-in-c/src/main.c:10-36 | reading undoes decimal printing for every int64, the minimum included |

## Left out

- Flex, Bison and LLVM themselves: token streams and grammar derivations are inputs, instructions are a datatype, and the builder's constant folding is not modelled (folded or not, the values are the same; an operation that LLVM would fold to an undefined value counts as stopping the machine).
- ParaclIr.Compute: `and`, `or` and `not` have results on bits only; on wider integers LLVM computes them bit by bit, in functions that are not valid (ParaclTheorems.ValidIffRelational), and the machine stops there.
- ParaclTree.Calc: reads standard input as a sequence of 32-bit integers; printing is an output sequence; signed overflow, division of the minimum by -1 and reads of unset variables are faults.
- ParaclSource.StmTreeOk: a statement list may also start with a scope, which the grammar does not allow for the first statement; the results hold for this larger language.
- Destruction of scopes, trees and symbol tables (`Scope::~Scope`, `Symtab::free`), dumps and source positions.
- GpuHistogram.HistogramCorrect: counters and bins are unbounded integers; GpuHistogram.BinsBounded says when bins of a fixed width hold them. Wrap-around of the loop counters is not modelled; the bytes of the data are naturals below the number of bins.
- GpuGemm.TiledIsSimple: reading the two tile elements and adding their product is one step of an item, which NoRace justifies; index arithmetic does not overflow.
- GpuGemm.SimpleKernel: its items run one after the other, in any order; they share no memory they write.
- OpenCL host code, device selection, profiling, and `hist-onlyg.cl`, which is deliberately wrong.
- PermLoops.PermLoop.Reroll: `std::min_element`, `std::rotate`, `std::find` and `std::sort` are taken at their specified meaning; cycles are over integer domains with at least two elements, and incrementing past the largest value of a type is not modelled.
- `less` on cycles and permutations, and printing them: only lexicographic comparison and output.
- The hash mixing arithmetic of the caches: an arbitrary function stands for it.
- LruIntrusive.LruCache.constructor: the allocations of `lru_create` succeed; their failure is modelled in the owning version. The two records embedded in an entry are one object, so the `value` pointer back to the entry is the entry itself.
- LruOwning.LruCache.Allocate: a freshly allocated entry has page 0 until it is loaded.
- LruNaive.RunRequests: its two allocations succeed, and requests are a sequence, as for the other caches; input errors are modelled in ReadInteger only.
- LruCxx.Cache.LookupUpdate: keys and pages are integers, and the standard containers do not throw.
- SternBrocot.Childs: integers are unbounded and the minimum and maximum of two fractions are compared exactly instead of through doubles; arguments are positive, as in every call.
- SternBrocotWalks.TestPriqueue: the standard heap is any choice of a least element.
- MyVector.Store.Copy: which copies throw is an arbitrary pattern, of which the static counter is one; the element type is an owner of one integer.
- MyVector.Vector.Assign: the move constructor and move assignment are the exchange of the three fields and are not modelled apart from it.
- `myvec-1.cc` and `myvec-2.cc`, which are unfinished on purpose.
- Prim.Grow: the standard queue is a sequence from which a greatest pair is taken; vertices are natural numbers and weights unbounded below only by `INT_MIN`. That the tree has maximal weight is not claimed: the queue orders pairs by vertex first.
- ArithGrammars.SameLanguage: values are unbounded integers and lexing is not modelled; error recovery of the generated parsers is not either.
- SumGrammars.SameOutput: speaks of accepted programs; what the first two print before they meet a syntax error is not modelled.
- ReadInteger.Read: the input is a sequence of characters without read errors.
- `numgrammar-sr.y`, `simplest-amb.yy`, `simplest-bad.yy`, geometry over doubles, demos of language features, benchmarks, and older copies of the same programs.
