# Proofs about the compiler, its parser generator and its runtime library

This project models the hardest algorithms of the C compiler and proves what they are for. All of it is Dafny. It has seven parts.

- **The optimizer of the intermediate representation** (`ir*`, `live*`, `transform`, `flow_graph`, `dataflow`, `passes`, `optimizer`, `merge_limits`, `target_machine`, `example_code`). Control-flow graphs get a semantics over a machine that is a parameter: what calls and stores a run makes, what it returns, and what memory it leaves. "Every machine" below is every one that meets the laws of `IrSemantics.Lawful`: conversions are idempotent, what is stored to an object can be read back from the same place, a store to a whole scalar leaves nothing of its old value, and bit-fields keep the low bits of their width. Operators, calls, pointers and what a store does elsewhere are arbitrary. `TargetMachine.TargetLawful` proves that integers in two's complement, objects made of bytes and bit-fields that keep all their bits meet the laws. The optimizer is a class with the compiler's block list, symbol numbers and blocks as fields. It is proved that optimizing keeps every run if, in every round, the analysis was right about each statement with the set recorded for it and each pair that was really merged was harmless; for a single statement and a single pair both conditions are proved exact. A test of the source alone that is enough for them is proved as well.
- **The LALR(1) parser generator and the parsers it generates** (`grammar`, `first_sets`, `automaton`, `lalr_*`, `action_rows`, `compression`, `packed_tables`, `parser_*`). From any grammar, the generator's tables implement the least LALR automaton, and whatever the generated parser accepts is derivable; if no state has a conflict, it accepts exactly the sentences of the grammar, each as its parse tree.
- **The open-addressed hash table** (`triangular`, `roundup`, `khash*`), with its in-place rehash, as a finite map over whole runs.
- **Arbitrary-precision integers** (`arith`, `bits`, `gcds`, `bigint_*`) on word buffers: addition to modular powers, and text.
- **Switch lowering** (`switch_*`): a chain, a tree or a table of comparisons, and exactly when each selects the right case.
- **The chained hash table and the scopes of the symbol table on top of it** (`hash_chains`, `hash_table`, `symtab`), cleared lazily, as a stack of maps.
- **Argument passing, frames and initializers** (`arguments`, `calls`, `frames`, `initializers`): caller and callee agree about every eightbyte, slots are disjoint, and an initializer covers its object exactly once.

Pointers between blocks, symbols, states and table entries are positions in a sequence. Loops over arrays and fields that change are methods; each is proved against a function or a predicate about which lemmas are proved.

## Model

| member | source | states |
|---|---|---|
| Optimizing.Optimizer.Optimize | src/optimizer/optimize.c:253-281 | The numbering and the rounds that were made are given; rounds are made unless 64 objects are mentioned. If in all of them the analysis was right about each statement and the merged pairs were harmless, or if the code passes the test that needs no analysis, then for every machine and start state the optimized graph shows exactly the outcomes of the original one: the same calls, stores and results. |
| Optimizing.Optimizer.Iterate | src/optimizer/optimize.c:266-277 | The loop over analysis and both transformations ends, whatever the code, after a round that erases nothing; if all rounds were safe, the graph's behaviour is kept. |
| Optimizing.Optimizer.OneRound | src/optimizer/optimize.c:266-277 | One round solves the sets, erases all dead stores and merges all that can be merged; it leaves fewer assignments by at least the number it reports, and sets from which the next analysis ends; if it was safe it keeps the behaviour. |
| Optimizing.Optimizer.ExecuteIterativeDataflow | src/optimizer/optimize.c:189-196 | Started from empty sets or from any that a round leaves, the iteration ends, changes nothing but recorded sets, and leaves all equations solved; from empty sets, the set before a block has exactly the symbols that some path from it reads before storing to them. |
| Optimizing.Optimizer.LiveVariableAnalysis | src/optimizer/liveness.c:141-182 | One block gets exactly the sets that solve its statements' equations for its successors' in sets, and the answer says whether its in set changed. What the equations mean is said by the rows of LivePaths and LivenessLeast. |
| LivePaths.BackwardIff | src/optimizer/liveness.c:141-182 | A symbol is live before a list of statements if and only if one of them reads it and none before that one stores to it, or it is live at the end and none stores to it. |
| LivePaths.SolvedHasRead | src/optimizer/liveness.c:141-182 | Solved sets have every symbol that some path reads before storing to it. |
| LivePaths.SolvedIsExact | src/optimizer/liveness.c:141-182 | Solved sets that were built up from empty ones have no others. |
| LivePaths.DeadIff | src/optimizer/transform.c:74-97 | With such sets, exactly those stores to local objects are taken for dead whose object no path reads afterwards before storing to it. |
| LivePaths.OwnStoreKills | src/optimizer/liveness.c:21-31 | A whole store to a local of arithmetic or pointer type ends what was live of it; the analysis is right about it. |
| LivePaths.AggregateStoreKeeps | src/optimizer/liveness.c:21-31 | A store to a struct, a union or an array ends nothing, whatever part it stores to; the analysis is right about it. |
| LivenessLeast.LeastIff | src/optimizer/liveness.c:21-129 | Where the analysis is sound, a local symbol is in every sound set before the statement if and only if its value is passed on to something that is read or called, or is left to be read afterwards. |
| LivenessLeast.SpareIff | src/optimizer/liveness.c:21-129 | The analysis has all of these, and beyond them only symbols that the statement names for their address, or for a value that is dropped. |
| Ir.PointerTestIff | src/optimizer/liveness.c:83-102 | The test for arguments that let a callee reach memory is right for all types without arrays, and never finds a pointer where there is none. |
| Optimizing.Optimizer.SerializeBasicBlocks | src/optimizer/optimize.c:31-47 | The block list ends up with every block reachable from the entry, each once, and nothing else. |
| Optimizing.Optimizer.SkipEmptyBlocks | src/optimizer/optimize.c:151-170 | Both jumps of the block lead to the end of their chain of empty blocks. |
| Optimizing.Optimizer.EnumerateUsedSymbols | src/optimizer/optimize.c:103-142 | Objects that the block mentions get numbers of their own, and no others; while fewer than 64 are numbered, all of them do. |
| Optimizing.Optimizer.EraseDeadStores | src/optimizer/transform.c:74-97 | Erasing in place leaves what erasing statement by statement leaves, and counts what it erased. |
| Optimizing.Optimizer.MergeNeighbours | src/optimizer/transform.c:50-72 | Merging in place leaves what merging from the front leaves. |
| Dataflow.SolvingMoves | src/optimizer/liveness.c:141-182 | Each in set splits into a part that only shrinks and a part that only grows; solving one block keeps it so and uses up room whenever it changes a set: the reason why the iteration ends. |
| Liveness.CodeSimilar | src/optimizer/liveness.c:108-182 | From states that agree on what is live before the code, a run does the same things and ends in states that agree on what is live after it, if the analysis is right about each statement. |
| Transform.DseSimilar | src/optimizer/transform.c:74-97 | Erasing dead stores changes nothing live, and no event, for every machine and state. |
| Transform.DseLeavesNone | src/optimizer/transform.c:74-97 | No dead store is left. |
| Transform.MergeSimilar | src/optimizer/transform.c:50-72 | The merge pass changes nothing live, and no event, though it goes by sets recorded before it, if the pairs that it really merges are harmless. |
| Transform.MergeLeavesNone | src/optimizer/transform.c:50-72 | No two neighbouring statements can be merged any more. |
| Transform.StaleOutUnread | src/optimizer/transform.c:50-72 | The out set that a merged statement keeps from its first half is never read by the pass. |
| Transform.AnnotateReadsBare | src/optimizer/liveness.c:141-182 | Solving the sets again reads no old set, stale ones included. |
| Passes.DseEquivalent | src/optimizer/optimize.c:266-277 | Erasing dead stores in all listed blocks keeps the graph's behaviour, if the recorded sets cover their equations. |
| Passes.MergeEquivalent | src/optimizer/optimize.c:266-277 | So does merging. |
| Passes.MergeSettles | src/optimizer/optimize.c:266-277 | After merging, whatever was merged, every block's new equation asks for no more than its in set and what it reads itself, which is why the next round need not start from empty sets. |
| Passes.OptimizableHistory | src/optimizer/optimize.c:253-281 | Code that passes the test of the source alone passes it again after every round, and every round is safe for it. |
| TargetMachine.TargetLawful | src/backend/compile.c:569-643 | A machine that keeps integers in two's complement, cuts off in conversions, and keeps objects and bit-fields as bits of memory is one of those that the optimizer's results are about, whatever its operators, calls and other types do. |
| TargetMachine.FieldKeepsAll | src/parser/typetree.c:676-684 | On it a bit-field gives back every number of its type and width. |
| FlowGraph.ForwardedEquivalent | src/optimizer/optimize.c:151-170 | Forwarding jumps past empty blocks keeps all runs of the graph, on any machine at all. |
| FlowGraph.ChainEndsIff | src/optimizer/optimize.c:156-163 | The search past empty blocks ends if and only if it meets no cycle of empty blocks, and then within as many steps as there are blocks. |
| FlowGraph.EndlessLoop | src/optimizer/optimize.c:156-163 | On the graph of `for (;;) ;` it does not end. |
| FlowGraph.RankedIffNoEmptyCycle | src/optimizer/optimize.c:151-170 | One measure falls along every jump out of a listed empty block if and only if no listed block is on such a cycle. |
| LivenessLimits.TransferSoundIff | src/optimizer/liveness.c:21-129 | The analysis is right about a statement and what is live after it if and only if a store that counts as overwriting a local scalar covers it, or reads it as well, or nobody reads it afterwards, and an argument has no pointer hidden inside an array, unless all is live that it could reach. |
| LivenessLimits.ErasureIff | src/optimizer/transform.c:74-97 | Of two stores to one local scalar, erasing the first keeps the program if and only if the second covers all of the scalar. |
| LivenessLimits.PunnedStoreLost | src/optimizer/liveness.c:21-31 | `int i = 0x1234; *(char *) &i = 1; return i;` returns 1 after optimization on a machine where it returned 0x1201. |
| LivenessLimits.ArrayPointerLost | src/optimizer/liveness.c:83-129 | A store is erased that the callee reads through an array of pointers in a struct passed by value. |
| MergeLimits.MergePreservesIff | src/optimizer/transform.c:35-48 | Of all pairs that the compiler merges, those keep their meaning whose types agree, whose bit-fields do not narrow and are no wider than their type, and whose copy is not stored through the temporary, or whose target is never read; all others lose it. |
| MergeLimits.ChainsMerge | src/optimizer/transform.c:35-48 | A store to a local object that is not live after it and a copy of that object to another one of its type are always merged. |
| MergeLimits.MergedChains | src/optimizer/transform.c:35-48 | Nothing is merged but a store to a local object that is not live afterwards and a cast of what stands at its place. |
| Ir.TypeEqualIff | src/parser/typetree.c:899-919 | The comparison of types goes by all of a type but the pointer flags and what an array or a pointer leads to. |
| MergeLimits.TruncationLost | src/optimizer/transform.c:35-48 | A copy out of a bit-field is merged though it cut bits off. |
| MergeLimits.MemberConfused | src/parser/typetree.c:899-919 | A union member is merged with another one whose type differs only in being a pointer. |
| MergeLimits.WideningLost | src/parser/eval.c:1503-1508 | An integer converted to a pointer counts as a copy, and merging it loses the conversion. |
| MergeLimits.PointerMoved | src/optimizer/transform.c:35-48 | A store through the temporary that is merged goes to where the temporary pointed before. |
| FirstSets.FirstExact | utility/myacc.c:238-275 | At the fixpoint, the first set of a string of symbols holds exactly the tokens that can begin what it derives, and it is nullable if and only if it derives the empty string. |
| FirstSets.Symbols.Ginit | utility/myacc.c:276-306 | The fixpoint iteration ends with exact tables of nullable symbols and first tokens. |
| LalrItems.Icmp | utility/myacc.c:388-405 | The comparison of item sets is the total order on kernels. |
| LalrStates.Igoto | utility/myacc.c:371-386 | The goto of an item set is exactly the moved terms, sorted. |
| LalrItems.HandedIff | utility/myacc.c:320-368 | The lookaheads that a term hands to the rules of the nonterminal it expects are exactly the tokens that can begin what follows it, and its own if all of that can vanish. |
| LalrClosure.Iclose | utility/myacc.c:320-368 | The closure loop ends with a closed set, and it is the least one above the given terms. |
| LalrGenerator.Generator.Stadd | utility/myacc.c:408-449 | A kernel is found by binary search and its lookaheads merged, or a new state is inserted and the table stays strictly sorted. |
| LalrGenerator.Generator.Stgen | utility/myacc.c:452-489 | State construction ends, though the table shifts during the scan, with all states closed and all gotos in place, below every LALR system of the grammar. |
| LalrTables.TableIsSystem | utility/myacc.c:452-489 | The finished table is itself an LALR system, and so the least one. |
| LalrTables.Generate | utility/myacc.c:1374-1379 | From any valid grammar, the tables that are written out implement the least LALR automaton, whose states are closed and hand on all lookaheads. |
| ActionRows.TblSet | utility/myacc.c:513-561 | One term changes the action row entry by entry as shifts, reductions and the resolution of conflicts say. |
| ActionRows.ResolutionOrder | utility/myacc.c:492-561 | A shift and a reduction on one token are resolved by precedence and associativity, in whichever order the state lists them. |
| ActionRows.FirstReductionStands | utility/myacc.c:513-561 | Where no term shifts the token, the entry is the reduction by the first listed complete term that has it as a lookahead; later ones change nothing. |
| ActionRows.ShiftStands | utility/myacc.c:492-561 | Beside a shift, only the first reduction of all and those after a term that shifts are weighed; if all of these lose, the entry is the shift. |
| ActionRows.WinnerStands | utility/myacc.c:492-561 | The first of these that beats the shift is the entry, whatever comes after it. |
| ActionRows.ErrorStands | utility/myacc.c:492-561 | The first that has the shift's precedence and is not associative makes the entry an error, up to the next term that shifts. |
| ActionRows.SetDef | utility/myacc.c:564-594 | The default of a row is its most frequent eligible entry, and taking it out loses nothing. |
| ActionRows.TblGen | utility/myacc.c:597-625 | Both tables hold, state by state and column by column, what the automaton says. |
| Compression.LaterRowKeepsEarlier | utility/myacc.c:656-702 | A row laid down later cannot fill a hole of an earlier one at the same displacement, since rows are sorted by their number of empty entries. |
| Compression.Compressor.PlaceAction | utility/myacc.c:633-702 | The search for a displacement ends inside the array, and the row decodes to itself. |
| Compression.Compressor.PlaceGoto | utility/myacc.c:704-719 | A column meets empty cells only, and disturbs no row. |
| PackedTables.ActGen | utility/myacc.c:633-719 | All rows and all columns decode at the end, in at most as many cells as states times symbols. |
| PackedTables.TblOut | utility/myacc.c:721-770 | Every lookup in the tables as written finds the action or the goto of the uncompressed tables, or the row's default. |
| ParserDriver.RunKeepsInv | utility/myacc.c:1423-1468 | At every point of every run the stack spells a goto path of the automaton. |
| ParserDriver.AcceptedIsDerivable | utility/myacc.c:1423-1468 | However long the parser runs, if it accepts then the tokens it consumed are a sentence derivable from the start symbol and the end mark, and its value is a parse tree of that sentence. |
| ParserDriver.RejectionMeans | utility/myacc.c:1438-1452 | A syntax error is reported only where no term of the state acts on the token, the other error only where the row has the entry for it. |
| ParserDriver.Parse | utility/myacc.c:1423-1468 | The parser's loop is that run. |
| ParserCompleteness.EntryIs | utility/myacc.c:513-561 | In a state without conflicts, a token's entry is what any one term that acts on the token makes of it. |
| ParserCompleteness.ParsesTree | utility/myacc.c:1423-1468 | Facing a tree that its state expects and a token that may follow, the parser pushes the tree as one frame, or overflows exactly if the tree is too deep for the stack that is left. |
| ParserCompleteness.AcceptsExactly | utility/myacc.c:1423-1468 | If no state has a conflict, the parser returns a tree if and only if it is a parse tree of the input that takes less than 100 places of the stack; for a deeper parse tree, it overflows. |
| ParserCompleteness.AcceptsSentences | utility/myacc.c:1423-1468 | If no state has a conflict, the parser accepts every input that is derivable from the start symbol, unless its stack is too small, and no other input. |
| ParserCompleteness.OneParse | utility/myacc.c:1423-1468 | So without conflicts no sentence with a parse tree that fits the stack has another one. |
| Triangular.ProbeCovers | kcsrt/include/kcs/khash.h:233-241 | Triangular probing of a power of two of buckets visits every bucket within as many probes. |
| Triangular.ProbesDiffer | kcsrt/include/kcs/khash.h:233-241 | No bucket is visited twice before, and the first one is met again only after all. |
| RoundUp.RoundsUp | kcsrt/include/kcs/khash.h:175-177 | The macro rounds 1 to 2^31 up to the least power of two, and gives 0 otherwise. |
| Khash.Table.Get | kcsrt/include/kcs/khash.h:230-243 | The probe loop ends at the key's bucket, or reports that there is none. |
| Khash.Table.EnsureRoom | kcsrt/include/kcs/khash.h:310-318 | A table that is not full stays as it is; a full one gets four buckets at first, loses its deleted ones if less than half are live, and doubles else. |
| Khash.Table.Put | kcsrt/include/kcs/khash.h:307-348 | A key is put in unless it is there, resizing first if need be; the answer is 1 for an empty bucket and 2 for a deleted one. Only a table of 2^31 live buckets cannot take it, and then reports that it is there. |
| Khash.Table.Del | kcsrt/include/kcs/khash.h:349-355 | Deleting a bucket removes its pair and no other. |
| Khash.Table.Resize | kcsrt/include/kcs/khash.h:244-306 | Growing, shrinking or rehashing in place keeps exactly the pairs. |
| Khash.MoveAll | kcsrt/include/kcs/khash.h:269-305 | The kick-out rehash ends, loses and doubles no pair, and leaves no empty bucket on the way to a key. |
| KhashRehash.KickOut | kcsrt/include/kcs/khash.h:277-291 | Exchanging the entry in hand for the one in its new bucket keeps all pairs, and one fewer waits. |
| KhashRuns.Run | kcsrt/include/kcs/khash.h:223-355 | Over any sequence of operations the table answers as a finite map does. |
| BigintKaratsuba.Karatsuba | kcsrt/libsrc/kcs/bigint.c:437-497 | For all lengths the product buffer holds exactly the product of the factors, and nothing outside it and the scratch space changes. |
| BigintKaratsuba.ScratchBound | kcsrt/libsrc/kcs/bigint.c:517-519 | The recursion's scratch space is at most the 11 words per word and 180 more that the caller gives it. |
| BigintObject.Bigint.AddSigned | kcsrt/libsrc/kcs/bigint.c:576-639 | Signed addition, in place or not, gives the sum of the values. |
| BigintObject.Bigint.Mul | kcsrt/libsrc/kcs/bigint.c:499-527 | Multiplication gives the product of the values by either method. |
| BigintShift.ShiftLeft | kcsrt/libsrc/kcs/bigint.c:674-723 | Shifting words up multiplies by the power of two, in place or not. |
| BigintShift.ShiftRight | kcsrt/libsrc/kcs/bigint.c:725-760 | Shifting them down divides by it. |
| BigintDivision.DivMod | kcsrt/libsrc/kcs/bigint.c:794-858 | On all three paths the quotient times the denominator plus the remainder is the numerator, the remainder is smaller than the denominator, and the signs are those of truncation; zero is refused. |
| BigintGcd.WordGcd | kcsrt/libsrc/kcs/bigint.c:128-135 | Euclid's loop on words gives the greatest common divisor. |
| BigintGcd.Gcd | kcsrt/libsrc/kcs/bigint.c:926-963 | The binary algorithm ends with the greatest common divisor of the magnitudes, and no other number is one. |
| BigintPower.PowMod | kcsrt/libsrc/kcs/bigint.c:1094-1128 | The result is the remainder of the power by the modulus, with the sign of the power, for all signs and lengths; only for modulus 1 and exponent 0 it is 1. |
| BigintText.WriteBase | kcsrt/libsrc/kcs/bigint.c:1007-1044 | The buffer holds the text of the number in the base, or its end if there is no room for all of it. |
| BigintText.FromStrBase | kcsrt/libsrc/kcs/bigint.c:540-553 | Parsing gives the number that the text stands for, and its sign. |
| BigintText.TextRoundTrip | kcsrt/libsrc/kcs/bigint.c:365-378 | Reading the text of a number in a base from 2 to 36 gives its magnitude and sign back. |
| BigintText.DigitIff | kcsrt/libsrc/kcs/bigint.c:74-120 | The digits are 0 to 9 and the letters of both cases, each with its value, and no other character. |
| BigintText.CaseIgnored | kcsrt/libsrc/kcs/bigint.c:74-120 | Texts that differ in the case of letters only stand for the same number. |
| BigintText.TextIs | kcsrt/libsrc/kcs/bigint.c:1007-1044 | A text is a sign, if the number is negative, and digits of the base with letters in lower case, without leading zeros. |
| BigintText.RoundTrip | kcsrt/libsrc/kcs/bigint.c:1007-1044 | Printing a number and parsing the text gives the same number. |
| BigintText.CapacitySuffices | kcsrt/libsrc/kcs/bigint.c:540-553 | One word more than the power of the base needs is enough for any text. |
| SwitchSpec.TreeRightIff | src/parser/statement.c:312-361 | The tree of comparisons selects the right case for every int if and only if the shortcut for neighbouring values never fires where the test before it is missing. |
| SwitchSpec.NoThreeNoMisfire | src/parser/statement.c:331-338 | It never does among cases of which no three are consecutive. |
| SwitchSpec.MisfireExample | src/parser/statement.c:331-352 | Five cases for which the tree sends 50 to the case for 2. |
| SwitchSpec.TableRightIff | src/parser/statement.c:372-433 | The jump table selects the right case for every int if and only if the greatest case less the least one is an int. |
| SwitchSpec.OverflowExample | src/parser/statement.c:435-456 | Five cases for which a table is chosen though its range is no int, and every value goes to the default. |
| SwitchSpec.TableSize | src/parser/statement.c:435-456 | A table that is used has at most fifteen entries per step between neighbours. |
| SwitchSpec.ChosenIff | src/parser/statement.c:435-456 | A table is chosen if and only if every two neighbours are at most 15 apart, or further apart than an int can tell. |
| SwitchLowering.SortCases | src/parser/statement.c:458-494 | Inserting the cases into the linked list sorts them. |
| SwitchBlocks.PicksOne | src/parser/statement.c:496-524 | Control gets to one block only, so that what a linked definition selects is unique. |
| SwitchLowering.Definition.BsearchItem | src/parser/statement.c:312-361 | The blocks linked for a range of cases lead where the tree says, for every int. |
| SwitchLowering.Definition.JumpTable | src/parser/statement.c:372-433 | The blocks linked for a table lead where the lookup says, with an entry for every value of the range. |
| SwitchLowering.Definition.Link | src/parser/statement.c:496-524 | Whichever way the cases are linked, control reaches the block that the chosen strategy selects; five or more close cases get a table with an entry for every value of their range, and all others get none. |
| SwitchLowering.CloseIsRight | src/parser/statement.c:435-524 | Up to four cases, and more whose neighbours are close and whose range is an int, are always lowered rightly. |
| SwitchLowering.OutcomeRightIff | src/parser/statement.c:496-524 | That is what section 6.8.4.2 of C99 asks for, for every int, if and only if the chosen strategy is not one of the two that fail. |
| HashTables.HashTable.Insert | src/util/hash.c:243-255 | An element is entered unless its key is there, and the element of that key is returned. |
| HashTables.HashTable.Lookup | src/util/hash.c:257-263 | Walking the chain finds the element of the key, or none. |
| HashTables.HashTable.Remove | src/util/hash.c:265-272 | Removing takes out the key and no other, and finalizes its element once. |
| HashTables.HashTable.Clear | src/util/hash.c:198-221 | Clearing finalizes every element once and puts every allocated entry on the free list, none lost and none twice. |
| HashTables.HashTable.Destroy | src/util/hash.c:223-241 | Destroying gives every allocated entry back once, after its element was finalized. |
| Symtab.Namespace.Run | src/parser/symtab.c:179-263 | Any sequence of entering and leaving scopes, making symbols visible and looking names up does what it does to a stack of maps searched innermost first, over the real chained tables. |
| Symtab.ScopesNest | src/parser/symtab.c:179-236 | Whatever happens in inner scopes, once they are left names mean what they meant before. |
| Symtab.Namespace.SymLookup | src/parser/symtab.c:238-263 | A lookup finds the symbol of the innermost scope that has the name, and nothing exactly if no scope has it. |
| Symtab.AnswersInnermost | src/parser/symtab.c:238-263 | So does every search in any sequence of operations, and it changes nothing for the operations after it. |
| Symtab.Shadows | src/parser/symtab.c:179-263 | A symbol entered in a new scope hides all outer ones of its name and no others, a second one of the name does not replace it, and leaving the scope brings everything back. |
| Symtab.Namespace.PushScope | src/parser/symtab.c:179-197 | A new scope shows an empty map, though its table may still hold the symbols of an earlier scope. |
| Symtab.Namespace.PopScope | src/parser/symtab.c:199-236 | Leaving a scope uncovers the one around it; leaving the last one destroys every table that was created. |
| Symtab.Namespace.SymMakeVisible | src/parser/symtab.c:406-425 | The scope's table is created, or cleared, when the first symbol is entered, and the symbol is entered unless its name is there. |
| Arguments.PlacesDiffer | src/backend/compile.c:1229-1248 | No two eightbytes of a call's arguments share a register or a stack slot. |
| Arguments.PlacesFollowAbi | src/backend/compile.c:1229-1248 | A parameter of classes INTEGER and SSE gets registers if and only if all of its eightbytes find room in six integer registers, less one for a result in memory, and eight SSE registers; it then gets the lowest that are free. Any other is on the stack, next to those before it (section 3.2.3 of the System V AMD64 ABI). |
| Arguments.WordArguments | src/backend/compile.c:1229-1248 | Of one-word integers the first six are in the registers in order, the others on the stack in order. |
| Calls.Machine.PushFunctionArguments | src/backend/compile.c:1323-1414 | Every eightbyte ends up where section 3.2.3 of the System V AMD64 ABI puts it, and the stack pointer is a multiple of 16 at the call. |
| Frames.PlaceParams | src/backend/compile.c:1522-1572 | The callee computes for every parameter the offset of the place that the caller filled, or of its own slot. |
| Frames.SlotsDisjoint | src/backend/compile.c:1421-1440 | Slots of saved registers, of the result's address, of parameters and of locals do not overlap, and all lie in the frame. |
| Frames.SlotsAligned | src/backend/compile.c:1421-1440 | Every slot starts at a multiple of eight bytes from %rbp. |
| Frames.AllocateRegisters | src/backend/compile.c:1448-1498 | The first five integer temporaries get the five temporary registers, one each, in order; no other local gets one. |
| Frames.SpillRegisters | src/backend/compile.c:1576-1603 | Every register parameter is stored to its slot, whatever registers it came in. |
| Frames.Enter | src/backend/compile.c:1500-1603 | After the frame is set up every eightbyte of every parameter is where its offset says, all slots are below %rbp and above %rsp, and %rsp is a multiple of 16. |
| Frames.Call | src/backend/compile.c:1323-1603 | From the caller's arguments to the callee's frame: the callee reads at its own offsets what the caller passed. |
| Frames.Leave | src/backend/compile.c:3047-3056 | Returning restores the saved registers, the caller's frame pointer and its stack pointer. |
| Frames.Perform | src/backend/compile.c:1323-1603 | A call with any sequence of assignments to the callee's locals and parameters, in registers or in memory, and of calls in turn: every call finds an aligned stack pointer, and in the end the caller has its stack pointer, frame, registers and memory back. |
| Initializers.SortAndTrim | src/parser/initializer.c:807-841 | The assignments come out strictly increasing in offset, the last one to each offset and no other. |
| Initializers.ZeroInitializeBytes | src/parser/initializer.c:651-696 | A range is covered exactly by stores of zero; each has 8 bytes if a multiple of 8 is left, the rest by 8 if that is 1, 2 or 4, and else 1. |
| Initializers.PostprocessObjectInitialization | src/parser/initializer.c:843-900 | The result tiles the object from its first byte to its last exactly once, with the last assignments and zeros. |
| Initializers.ApartIsDisjoint | src/parser/initializer.c:843-900 | Assignments to objects that are equal or apart meet what the postprocessing asks of its input. |
| Initializers.SameObject | src/parser/initializer.c:843-900 | Running the result leaves every byte as zeroing the object and then making all assignments in order would (section 6.7.8 of C99). |

## Findings

Where the code does not do what it is for, the input and the exact condition are proved.

- A direct store to part of a local scalar counts as overwriting all of it (src/optimizer/liveness.c:21-31). Input: `int i = 0x1234; *(char *) &i = 1; return i;`, where the first store is erased (`LivenessLimits.PunnedStoreLost`). Condition: the store covers the scalar, or reads it as well, or nobody reads it afterwards, or it has linkage (`TransferSoundIff`, `ErasureIff`).
- Pointers inside arrays are not seen in arguments (src/optimizer/liveness.c:83-102). Input: `struct { int *a[2]; } s; s.a[0] = &x; x = 1; f(s);`, where `x = 1` is erased (`LivenessLimits.ArrayPointerLost`). Condition: the argument's type holds no pointer, or the compiler's test finds one, or all that it could reach is live anyway (`TransferSoundIff`).
- Merging chained assignments (src/optimizer/transform.c:35-48) is wrong in four ways, one exact condition for all of them (`MergeLimits.MergePreservesIff`, `Transform.Harmless`). Inputs: `s.b = f(); x = s.b;` with a bit-field `int b : 3` (`TruncationLost`); `u.c = f(); q = u.p;` with `union { char c; char *p; } u` (`MemberConfused`); `a = f(); q = (int) a;` with `short a, *q`, which the compiler accepts with a warning (`WideningLost`); `p = f(); *(void **) p = p;` with `void *p` (`PointerMoved`).
- The shortcut of the comparison tree (src/parser/statement.c:331-338) takes for granted that the value is below the next case, which the test for two cases (348-352) does not establish. Input: cases -100, 0, 1, 2, 3 and the value 50 (`SwitchSpec.MisfireExample`). Condition: `SwitchSpec.TreeRightIff`; no three consecutive cases are enough (`NoThreeNoMisfire`).
- A jump table whose range does not fit an int (src/parser/statement.c:435-456) sends every value to the default (`SwitchSpec.TableWrong`). The step between neighbours wraps as well, so that such a table is chosen: cases -2000000000, -1999999999, 1999999998, 1999999999 and 2000000000 (`SwitchSpec.OverflowExample`). That table has about four thousand million entries, so that in practice the compiler runs out of memory before it emits the wrong code. Condition: the greatest case less the least is an int (`TableRightIff`).
- The search past empty blocks (src/optimizer/optimize.c:156-163) does not end on a cycle of empty blocks. Input: `for (;;) ;`, whose body jumps to itself without any code (`FlowGraph.EndlessLoop`). Condition: following the jumps of empty blocks from the target meets no cycle of them (`ChainEndsIff`).
- A hash table of 2^31 live buckets reports of every new key that it is there (kcsrt/include/kcs/khash.h:307-348); both cases are in the contract of `Khash.Table.Put`.
- The modular power is 1, not 0, for exponent 0 and modulus 1 (kcsrt/libsrc/kcs/bigint.c:1094-1128); `BigintPower.PowMod` states that these are the only inputs for which it is not the truncated remainder.

## Left out

- Optimizing.Optimizer.Optimize: assumes that no block reachable from the entry is on a cycle of empty blocks, where the compiler does not end. That behaviour is kept is promised for safe rounds only; the test of the source alone is enough for that, but shuts out some code that the compiler treats rightly.
- LivePaths.SolvedIsExact: for the first round of the optimizer, which starts from empty sets. Later rounds start from the sets of the round before, so that in a loop a symbol can stay live though nothing reads it any more; the sets are still large enough.
- ActionRows.ErrorStands: what a further term that shifts makes of an error entry depends on the memory in front of the rule table, as said below.
- LivenessLimits.ErasureIff: for a first store without a call and a second one that does not read the scalar; with a call the store stays an expression statement.
- ParserCompleteness.AcceptsExactly: for grammars without conflicts; which sentences are lost where a conflict is resolved by precedence is not characterised. No rule mentions the end mark, which a grammar file cannot name, and the scanner goes on returning it at the end of its input.
- ParserDriver.Parse: runs the loop for a given number of trips, since a parser may read tokens for ever; the lemmas hold for every number.
- BigintText.FromStrBase: the capacity is given by the caller instead of computed in floating point.
- BigintText.WriteBase: the size of the buffer is given, for the same reason.
- Khash.Table.Put: allocation does not fail, flags are one value per bucket instead of two bits, and 0.77 n + 0.5 is (77 n + 50) / 100.
- Symtab.Namespace.Run: redeclaration and type checks of a name that is there already are not modelled; the first symbol of the name stays.
- Optimizer: blocks with jump tables, whose targets are never followed; volatile objects, arrays of variable length and variable arguments; locals that a callee reaches through a pointer that escaped before the call. Qualifiers and the flags of function, flexible and incomplete types are not part of a type.
- Optimizer: sets of 64 bits are sets of numbers below 64; the shifts of `1ul` are taken to be 64 bits wide.
- Parser generator: semantic actions, the printing of the generated C text, reading the grammar file, and reports of conflicts. The precedence read at index -1 after a non-associative conflict (utility/myacc.c:527) is an arbitrary number. Fixed capacities are not modelled.
- Integers: `bigint_cmp`, which crosses a length and an operand for two negatives (kcsrt/libsrc/kcs/bigint.c:200); square roots, doubles, logarithms, random numbers and the primality test. Right shifts are by fewer words than the number has.
- Switch statements: duplicate cases are excluded, as C99 does, and the conversion of cases to the switch's type is not modelled.
- Hash table of the compiler: the hash function is arbitrary, and so are the functions for keys, copies and finalization.
- Calls: the classes of a parameter's eightbytes are given; variable arguments, their save area, and the Windows convention are not modelled. A function's own code, in `Frames.Perform`, assigns to its locals and parameters and makes calls; stores through pointers are left out.
- Initializers: bit-fields and their padding, and reading the initializer.
- `qsort`, macro expansion, instruction selection, object files, the virtual machine and the rest of the runtime library.
