# The constrained-random solver of the SystemC Verification library, verified

The library fills in the fields of a test object at random, subject to constraints. This project models
the parts that decide which values come out, and proves what they promise.

* **The expression compiler** (`Words`, `Circuits`, `Expressions`, `Compiler`). A constraint expression
  becomes decision diagrams: vectors of them for numbers (ripple adder, two's complement, shift-and-add
  multiplier, equality, comparison), one for a truth value. `Bdds` is a small library of ordered, reduced
  diagrams with complement edges; two diagrams are equal exactly when their functions are. `Exactness`
  compares the compiled meaning with arithmetic over the integers and says when each circuit is exact;
  `Interpreter` does the same for the direct evaluator of expressions.
* **Counting and sampling** (`Counting`, `Weights`, `Randomness`, `Sampling`, `Uniformity`, `Extraction`).
  Memoised model counting on the shared diagram gives each node a branch share; a walk to the one node and a
  fill of the untested bits draw a solution. `Extraction` is about the bits taken from the random words.
* **Constraint objects** (`Fields`, `Construction`, `Drawing`, `Solver`, `Runs`, `Objects`). Building the
  diagrams of an object, pinning initialised fields, dropping soft constraints on conflict, drawing, and
  taking used solutions out of the record. `Cycles` is what drawing without repetition means, for diagrams
  and interval lists alike. `FieldCounts` and
  `Chances` say how likely each solution of an object would be with exact branch shares, `Fairness` and
  `Redraws` how likely it is with the stored ones and the words as the code uses them. `WordCounts`, `Outcomes`
  and `DrawCounts` tie those chances to the draw: they are the parts of the word sequences under which the
  object's own method leaves the values of a solution in the fields.
* **Interval lists** (`Intervals`, `Scans`, `Sweeps`, `Ranges`, `Generators`) over 32-bit unsigned values,
  with the wrap-around convention that size 0 means the whole domain. The interval algebra itself is for
  any modulus.
* **The random stream** (`Congruential`, `Rand48`, `Streams`, `SeedReplay`): the 48-bit generator in three
  words, its period, saving and restoring its state, when two streams are the same, and seeds read back in
  another order than they were stored.
* **The weighted bag** (`Copies`, `Bags`) and **the hash table** (`Primes`, `OpenTable`).

Objects whose methods update fields are classes here, with the same fields; loops are loops, proved
against functions or invariants whose own properties are lemmas. Long proofs hide definitions and get
the facts they need from small lemmas, so many lemmas are single steps; the table below lists the members
that say something about the library. `dafny verify dfyconfig.toml` checks everything.

## Where the code does not do what it should

Each of these is a theorem: an input on which the promise fails, and the exact condition under which it holds.

* `10 - x == 3` over a byte has no solution, because a constant keeps its 32 bits and the two's complement
  is taken at the width of `x` (`ConstantMinusByteHasNoSolution`, `MinusExactIff`).
* `x <= 300` over a byte is compiled to `x <= 44`: bits above the left operand are never read
  (`ByteAtMostWiderConstant`, `AtMostIff`, `AtMostExactIff`).
* `x >= -5` over a signed byte has no solution, because the widened constant has bits set between the widths of the
  two (`NegativeLowerBoundHasNoSolution`). Signed comparison is right for all values exactly at equal widths
  (`SignedAtMostExactIff`), and for given operands exactly under the condition of `SignedAtMostIff`; for signed
  equality, sum, difference and product the conditions are those of `SignedEqualIff`, `SignedPlusIff`,
  `SignedMinusIff` and `SignedMultiplyIff`.
* `!` on a vector inverts its bits (`VectorNotExactIff`); a constant beside a truth value is dropped by
  `&&` and has no case in `||` (`ConstantBesideTruth`).
* The interpreter takes a negative operand of `!`, `&&` and `||`, and a negative whole, for false
  (`NegationExactIff`, `LogicExactIff`, `EvaluateExactIff`). Beside an unsigned left operand it reads a negative one
  as unsigned, so that `u > -1` is never true (`NeverAboveMinusOne`).
* The weight memo is never cleared between objects. `x1` counted over two variables and then `x0 | x1` over
  three gives the second an else share of 13107 in place of 21845 (`StaleRun`); whatever is remembered, the
  new shares are right exactly when no new node has two satisfiable branches for which what is remembered is
  off by different factors (`CountExactIff`), and then all shares of the table stay right (`UnmixedShares`).
* The bits of a field that the walk leaves undecided are not fair coins, whatever the random words are: a word
  is shifted until nothing is left, so the last bit taken from it is 1 (`TopBitForced`), and the first one is 1
  for 2^31 + 1 of 2^32 words (`FirstBitChance`). A field's values are equally likely exactly when none of its
  bits is undecided (`FieldFairIff`).
* The stored shares are never the exact ones: `x == 0 || x == 3` over two bits is decided bit by bit, yet a newly
  drawn word gives 0 in 32769 and 3 in 32767 of 65536 cases (`EndsUnfair`). With the shares the count gives, a draw
  is uniform over the field values that solve an object's constraints exactly when there is one such
  combination, whatever word is left from before (`DrawUniformIff`, `ObjectUniformIff`);
  with exact shares it would be when no way through the diagram leaves a field bit undecided
  (`ExactUniformIff`). From a diagram that was never counted, as with pinned fields, it can be uniform only with
  one solution or with 32769 parts in 65536 of the models in the else branch of the first choice (`RedrawUniform`).
* With 16-bit shares a then-branch with too few solutions is never taken (`ThenReachableIff`): in
  `x0 -> (x1 & ... & xn-1)` it is reachable up to 16 variables (`ImplicationThenIff`).
* `keepOut` with reversed bounds damages some list (`KeepOutExactIff`): whatever was legal, it leaves the values from
  the least legal one up to below the lower bound and from above the upper bound up to the greatest
  (`KeptOutReversed`); `keepOnly` with reversed bounds on
  an unconstrained object leaves an object that holds nothing and reads as unconstrained (`KeepOnly`,
  `ReversedBoundsReadAsFull`); `keepOnly` of a list needs its legal values distinct (`SinglesOrderedIff`).
* A scan step whose addition wraps past its base can return an illegal value (`LappingScan`, `ScanExactIff`).
* The bag can end up with more unmarked copies in a record than copies (`OvermarkedRun`); exactly a
  `remove` that finds the last peek marked and no marked copy in a record of several does that (`Remove`).
* After `mark(true)` of an object just seen, `peekNext('u')` returns that object again, although none of its copies
  is unmarked (`MarkedPeek`), because the count of copies seen has gone negative. A round of peeks sees every
  record as often as it has unmarked copies exactly when that count is not negative any more as it begins, or
  all unmarked copies are of that one record (`RoundVisits`).

## Model

| member | source | states |
|---|---|---|
| Bdds.ZeroIffUnsatisfiable | scv-2.0.0/src/scv/scv_constraint.cpp:2897-2911 | The pointer test against the zero node is a satisfiability test: a diagram is the zero node exactly when no assignment satisfies it. |
| Circuits.ConstantVector | scv-2.0.0/src/scv/scv_constraint.cpp:1202-1274 | The vector of a constant at a larger size: the constant's low bits, then zeros or copies of its sign bit as its kind demands. |
| Circuits.Plus | scv-2.0.0/src/scv/scv_constraint.cpp:1780-1829 | Under every assignment the ripple adder denotes the exact sum, one bit wider than the wider operand. |
| Circuits.TwosComplement | scv-2.0.0/src/scv/scv_constraint.cpp:1831-1849 | Denotes the negative modulo two to the vector's own width. |
| Circuits.Minus | scv-2.0.0/src/scv/scv_constraint.cpp:1890-1912 | Denotes what adding the two's complement of the right operand, taken at that operand's width, leaves in the wider width. |
| Circuits.Multiply | scv-2.0.0/src/scv/scv_constraint.cpp:1953-2008 | The in-place shift-and-add loop denotes exactly the product, in as many bits as both operands together, although the accumulator widens at every addition. |
| Circuits.NotVector | scv-2.0.0/src/scv/scv_constraint.cpp:1719-1737 | Denotes the bitwise inverse at the vector's width. |
| Circuits.Equal | scv-2.0.0/src/scv/scv_constraint.cpp:2102-2126 | Holds exactly when the two vectors denote the same natural number, the missing bits of the shorter one being zero. |
| Circuits.AtMost | scv-2.0.0/src/scv/scv_constraint.cpp:2201-2247 | Holds exactly when the comparison as the code makes it does: unsigned, v1 is at most the part of v2 that the width of the left operand shows; signed, by the sign bits. |
| Circuits.NonZero | scv-2.0.0/src/scv/scv_constraint.cpp:1573-1601 | Holds exactly when the vector denotes a number other than zero. |
| Exactness.MinusExactIff | scv-2.0.0/src/scv/scv_constraint.cpp:1890-1912 | Subtraction gives v1 - v2 if and only if v1 >= v2 and the right operand is at least as wide as the left or zero. |
| Exactness.MinusModularIff | scv-2.0.0/src/scv/scv_constraint.cpp:1890-1912 | Subtraction is exact modulo two to the result width for all values if and only if the right operand is at least as wide as the left. |
| Exactness.AtMostExactIff | scv-2.0.0/src/scv/scv_constraint.cpp:2201-2247 | Unsigned comparison is v1 <= v2 for all values if and only if the left operand is at least as wide. |
| Exactness.AtMostIff | scv-2.0.0/src/scv/scv_constraint.cpp:2201-2247 | For given values: if and only if v2 fits the left width or v1 is at most the part of v2 that is read. |
| Exactness.SignedAtMostExactIff | scv-2.0.0/src/scv/scv_constraint.cpp:2201-2247 | Signed comparison is the comparison of the signed values for all values if and only if the widths are equal. |
| Exactness.SignedAtMostIff | scv-2.0.0/src/scv/scv_constraint.cpp:2201-2247 | For given operands of any two widths: if and only if, the left one being the narrower, the right one fits its width, the signs differ, or the low bits happen to order as the numbers do; and, the left one being the wider, under the mirrored conditions on the bits that are read. |
| Exactness.SignedEqualIff | scv-2.0.0/src/scv/scv_constraint.cpp:2102-2126 | Equality of the vectors is equality of the signed numbers if and only if the narrower operand is not negative or the wider one is neither the same number of bits nor its sign extension. |
| Exactness.SignedPlusIff | scv-2.0.0/src/scv/scv_constraint.cpp:1780-1829 | A sum of signed operands is right if and only if neither is negative, or both are and the widths agree. |
| Exactness.SignedMinusIff | scv-2.0.0/src/scv/scv_constraint.cpp:1890-1912 | A signed difference is right if and only if it fits the result width and the widths agree, or a narrower minuend is not negative, or a narrower subtrahend is zero or negative. |
| Exactness.SignedMultiplyIff | scv-2.0.0/src/scv/scv_constraint.cpp:1953-2008 | A product of signed operands is right if and only if neither is negative, one is zero, or both are the least numbers of their widths. |
| Exactness.SignedWhenSources | scv-2.0.0/src/scv/scv_constraint.cpp:1739-1951 | A compiled vector is compared as signed exactly when one of the variables of its sums, products and minuends is signed. |
| Exactness.VectorNotExactIff | scv-2.0.0/src/scv/scv_constraint.cpp:1690-1737 | As a truth value, the inverse of a vector is the negation of the vector if and only if the vector is zero or all ones. |
| Exactness.ConstantBesideTruth | scv-2.0.0/src/scv/scv_constraint.cpp:1508-1571 | `exprAnd` of a constant and a truth value is right exactly when the constant is true or the other side false; `exprOr` of the two is an error. |
| Exactness.TruthArithmetic | scv-2.0.0/src/scv/scv_constraint.cpp:1739-1951 | Sum, difference and product of two truth values, read as 0 and 1, hold exactly when the number is positive. |
| Exactness.FaithfulMeaning | scv-2.0.0/src/scv/scv_constraint.cpp:1352-1488 | Compilation preserves meaning: for every tree whose nodes meet the side conditions, signed operands of unequal widths among them, the compiled word stands for the expression's value over the integers. |
| Exactness.WidthSafeMeaning | scv-2.0.0/src/scv/scv_constraint.cpp:1352-1488 | The same for all values of the variables, under conditions on widths, signs and constants alone. |
| Exactness.ByteBoundSafeIff | scv-2.0.0/src/scv/scv_constraint.cpp:2160-2199 | An upper bound on a byte, strict or not, written as a 32-bit constant meets those conditions if and only if the constant is a byte. |
| Exactness.SignedByteBoundSafeIff | scv-2.0.0/src/scv/scv_constraint.cpp:2160-2247 | An upper bound on a signed byte written as a 32-bit constant meets them if and only if the constant is a signed byte, a lower bound if and only if it is one and not negative. |
| Exactness.ConstantMinusByteHasNoSolution | scv-2.0.0/src/scv/scv_constraint.cpp:1851-1912 | The compiled `10 - x == 3` is false for every byte although 7 solves it. |
| Exactness.NegativeLowerBoundHasNoSolution | scv-2.0.0/src/scv/scv_constraint.cpp:2201-2290 | The compiled `x >= c` with a negative 32-bit `c` is false for every signed byte although 0 solves it. |
| Exactness.ByteAtMostWiderConstant | scv-2.0.0/src/scv/scv_constraint.cpp:2201-2247 | The compiled `x <= 300` is `x <= 44` for a byte although every byte satisfies it. |
| Interpreter.InterpreterAgrees | scv-2.0.0/src/scv/scv_expression.cpp:515-647 | Where the operands and the result of every operator fit the 32-bit type it computes in (signed, unsigned or truth value, as its left operand is) and negative operands do not decide a logical one, the interpreter computes the value over the integers. |
| Interpreter.ComputesInType | scv-2.0.0/src/scv/scv_expression.cpp:550-580 | Whatever the operands hold: each is read as the number of the left operand's 32-bit type with the same remainder modulo 2^32, and the result is the one with the remainder of the outcome. |
| Interpreter.BooleanOperations | scv-2.0.0/src/scv/scv_expression.cpp:550-570 | On a Boolean left operand the arithmetic operators and comparisons are the logical ones: or, exclusive or, and, implication and their kin. |
| Interpreter.NeverAboveMinusOne | scv-2.0.0/src/scv/scv_expression.cpp:570-580 | `u > -1` is false for every unsigned 32-bit `u`, true over the integers. |
| Interpreter.LogicExactIff | scv-2.0.0/src/scv/scv_expression.cpp:474-488 | And and or are right if and only if a negative operand does not decide the result. |
| Interpreter.NegationExactIff | scv-2.0.0/src/scv/scv_expression.cpp:474-488 | `!` is right if and only if its operand is not negative. |
| Interpreter.EvaluateExactIff | scv-2.0.0/src/scv/scv_expression.cpp:474-488 | `evaluate` says whether the expression is true if and only if its value is not negative. |
| Compiler.ConstantRep | scv-2.0.0/src/scv/scv_constraint.cpp:1202-1274 | A constant as a vector of at least a given width denotes the constant word of that width. |
| Compiler.ExprPlus | scv-2.0.0/src/scv/scv_constraint.cpp:1739-1778 | The case analysis on operand kinds: two truth values are or-ed, constants are widened, anything else is an error; under every assignment it is the word operation. |
| Compiler.ExprMinus | scv-2.0.0/src/scv/scv_constraint.cpp:1851-1888 | Likewise for subtraction. |
| Compiler.ExprMultiply | scv-2.0.0/src/scv/scv_constraint.cpp:1914-1951 | Likewise for multiplication. |
| Compiler.ExprEqual | scv-2.0.0/src/scv/scv_constraint.cpp:2010-2100 | Likewise for equality. |
| Compiler.ExprLEq | scv-2.0.0/src/scv/scv_constraint.cpp:2160-2199 | Likewise for comparison, signed exactly when an operand is a signed vector, at any two widths; `AtMostIff` and `SignedAtMostIff` say when it is the comparison of the integers. |
| Compiler.ExprAnd | scv-2.0.0/src/scv/scv_constraint.cpp:1508-1571 | All nine combinations of truth value, vector and constant, including the dropped constant. |
| Compiler.ExprOr | scv-2.0.0/src/scv/scv_constraint.cpp:1603-1656 | The same combinations for or, including the missing case. |
| Compiler.ExprNot | scv-2.0.0/src/scv/scv_constraint.cpp:1690-1717 | Negation of a truth value, bitwise inverse of a vector or constant. |
| Compiler.VariableTable.GetExpressionRep | scv-2.0.0/src/scv/scv_constraint.cpp:1352-1488 | Under every assignment the compiled expression means what the word semantics says of the numbers the assignment gives the variables; old variables keep their vectors. |
| Compiler.VariableTable.CreateBddVec | scv-2.0.0/src/scv/scv_constraint.cpp:2381-2402 | A new object gets the next column of the interleaving, bit i at diagram variable maxvar*i+nthvar. |
| Compiler.BitIndexInjective | scv-2.0.0/src/scv/scv_constraint.cpp:2381-2402 | Interleaved bit indices determine the variable and the bit. |
| Compiler.VariableTable.CountMaxVar | scv-2.0.0/src/scv/scv_constraint.cpp:1276-1312 | Counts every object of an expression once and tracks the widest. |
| Compiler.VariableTable.InitConstraint | scv-2.0.0/src/scv/scv_constraint.cpp:1276-1350 | After the count and the set-up all variables of an object have columns of their own, as many as there are variables. |
| Counting.CountIsCardinality | scv-2.0.0/src/scv/scv_constraint.cpp:2818-2880 | The brute-force count the weights are compared with is the number of satisfying assignments. |
| Weights.WeightTable.GetWeightNode | scv-2.0.0/src/scv/scv_constraint.cpp:2818-2880 | From any memo, left by whatever objects: the result, every new entry and every new share are what the recursion makes of the memo, at every moment of the recursion over shared nodes; from a right memo that is the number of satisfying assignments (`ComputedCorrect`). |
| Weights.ComputedCorrect | scv-2.0.0/src/scv/scv_constraint.cpp:2818-2880 | From a right memo the computed weight is the number of satisfying assignments over the variables from the node's own on. |
| Weights.WeightTable.GenerateWeight | scv-2.0.0/src/scv/scv_constraint.cpp:2800-2812 | The same for a whole object, over maxvar*maxNumBits variables; a right memo stays right. |
| Weights.SharesCoverWalk | scv-2.0.0/src/scv/scv_constraint.cpp:2596-2601 | After counting a diagram every node a walk from it can meet has its share. |
| Weights.CountExactIff | scv-2.0.0/src/scv/scv_constraint.cpp:2840-2844 | Whatever positive weights are remembered, all else probabilities stored for a diagram are the true ones if and only if no new node has two satisfiable branches whose remembered weights are off by different factors. |
| Weights.SameOriginIff | scv-2.0.0/src/scv/scv_constraint.cpp:2840-2844 | For weights that were each counted over some number of variables: the factors are the same if and only if those numbers are. |
| Weights.UnmixedShares | scv-2.0.0/src/scv/scv_constraint.cpp:2840-2867 | From a table with right shares, a count that does not mix leaves a table with right shares, for every number of variables; so in any run of such counts all shares stay right. |
| Weights.TrueWalk | scv-2.0.0/src/scv/scv_constraint.cpp:2596-2601 | From such a table every node a walk can meet has its right share. |
| Weights.RememberedShare | scv-2.0.0/src/scv/scv_constraint.cpp:2846-2867 | A share remembered from an object with another number of variables is still right. |
| Weights.StaleRun | scv-2.0.0/src/scv/scv_constraint.cpp:2840-2844 | Two counts after which the second diagram has the share 13107 for one third of its solutions. |
| Sampling.WalkSound | scv-2.0.0/src/scv/scv_constraint.cpp:2566-2618 | From any diagram but zero, whatever the tables and random words, every assignment that agrees with the branches the walk took satisfies the diagram. |
| Sampling.HalvesUsed | scv-2.0.0/src/scv/scv_constraint.h:606-612 | A word is used for its lower half, then exactly if it exceeds 65536 for its upper half, which is between 1 and 65535; the call after that draws. |
| Sampling.HalvesElse | scv-2.0.0/src/scv/scv_constraint.cpp:2599-2604 | Of all words, (t+1)*65536 take the else branch at threshold t as lower halves; as upper halves t*65536 - 1, and none at threshold 0. |
| Sampling.Sampler.GetVectorFromBdd | scv-2.0.0/src/scv/scv_constraint.cpp:2566-2618 | The loop reaches a constant node and records exactly the branches of the walk, leaving all other entries as they were. |
| Sampling.Sampler.SetValue | scv-2.0.0/src/scv/scv_constraint.cpp:2690-2722 | The value is the recorded bits with undecided ones from the random word; no recorded entry changes. |
| Sampling.FillBits | scv-2.0.0/src/scv/scv_constraint.cpp:2690-2722 | Every decided bit of a field appears in its value, which fits the width. |
| Extraction.ExtractedBit | scv-2.0.0/src/scv/scv_constraint.h:596-604 | While a word lasts the k-th bit taken is bit k of the word; bit 0 is never used. |
| Extraction.LastingWords | scv-2.0.0/src/scv/scv_constraint.h:596-604 | Of the words that last for k bits, 2^31 give 1 and 2^31 - 2^k give 0 for the k-th. |
| Extraction.FillTakesBits | scv-2.0.0/src/scv/scv_constraint.cpp:2704-2720 | The undecided bits of a field are the bits of the stream in order. |
| Extraction.TopBitForced | scv-2.0.0/src/scv/scv_constraint.cpp:2690-2722 | If the low k bits of a field are undecided and the word's highest bit is bit k, the field's bit k-1 is 1. |
| Extraction.FirstBitChance | scv-2.0.0/src/scv/scv_constraint.cpp:2694-2719 | With all words equally likely the first undecided bit is 1 for 2^31 + 1 of 2^32 words. |
| Extraction.FieldFairIff | scv-2.0.0/src/scv/scv_constraint.cpp:2694-2719 | All values of a field's undecided bits are equally likely if and only if there is no undecided bit. |
| Uniformity.SamplingIsUniform | scv-2.0.0/src/scv/scv_constraint.cpp:2576-2616 | With exact branch shares, and if a fair coin were tossed for each skipped variable, every solution would have probability one over the number of solutions, everything else zero. |
| Uniformity.RoundingError | scv-2.0.0/src/scv/scv_constraint.cpp:2846-2867 | The floor to 16 bits and the `<=` test give the else branch more than its exact share, by at most one part in 65536. |
| Uniformity.WalkError | scv-2.0.0/src/scv/scv_constraint.cpp:2576-2616 | Over a whole walk, with the stored shares in place of the exact ones, the probability of a solution is off by at most one part in 65536 for every variable. |
| Uniformity.SetError | scv-2.0.0/src/scv/scv_constraint.cpp:2576-2616 | The same for the probability of every set of solutions, however many: at most one part in 65536 for every variable. |
| Uniformity.ThenReachableIff | scv-2.0.0/src/scv/scv_constraint.cpp:2599-2604 | The then branch can be taken at all if and only if it has more than one 65536th of the solutions. |
| Uniformity.ImplicationThenIff | scv-2.0.0/src/scv/scv_constraint.cpp:2599-2604 | For `x0 -> (x1 & ... & xn-1)` it can be taken if and only if n is at most 16. |
| Fields.EncodeDecode | scv-2.0.0/src/scv/scv_constraint.cpp:2690-2722 | Values written to field bits are the values read back from the field's vector. |
| Fields.EncodeOfValues | scv-2.0.0/src/scv/scv_constraint.cpp:2690-2722 | An assignment cut to the field bits is the encoding of the values it gives the fields. |
| Construction.AddSparseVar | scv-2.0.0/src/scv/scv_constraint.cpp:662-699 | Conjoins exactly that the unused bits of a narrow field are off. |
| Construction.GetBdd | scv-2.0.0/src/scv/scv_constraint.cpp:644-660 | The compiled constraint with unused bits off, or true when the expression is an error or has no solution. |
| Construction.BuiltConfined | scv-2.0.0/src/scv/scv_constraint.cpp:644-711 | Dropping every variable that is not a field bit keeps a solution a solution. |
| Construction.BuiltBelow | scv-2.0.0/src/scv/scv_constraint.cpp:2800-2802 | A built diagram tests only the maxvar*maxNumBits variables the weights count over. |
| Construction.BuiltSatisfiable | scv-2.0.0/src/scv/scv_constraint.cpp:644-660 | What `get_bdd` returns has a solution. |
| Construction.BddAnd | scv-2.0.0/src/scv/scv_constraint.cpp:3114-3127 | Hard and soft constraint joined, or the hard one alone when they exclude each other; the result is counted, from whatever is remembered of other objects. |
| Solver.ConstraintObject.SimplifyField | scv-2.0.0/src/scv/scv_constraint.cpp:785-849 | Restricts a diagram to the value of an initialised field; other fields change nothing. |
| Solver.ConstraintObject.SimplifyMember | scv-2.0.0/src/scv/scv_constraint.cpp:719-761 | On a conflict the soft constraints are dropped and the simplification restarts from the hard ones, once; a second conflict ends it. |
| Solver.ConstraintObject.SimplifyConstraint | scv-2.0.0/src/scv/scv_constraint.cpp:763-783 | The result has exactly the solutions of the active constraint that agree with every initialised field; if there are none, those of the hard constraint, and the soft ones stay dropped. |
| Solver.ConstraintObject.InitMember | scv-2.0.0/src/scv/scv_constraint.cpp:976-990 | Exactly the bits of the field become undecided. |
| Solver.ConstraintObject.AssignValueMember | scv-2.0.0/src/scv/scv_constraint.cpp:1031-1055 | An uninitialised field gets the value its recorded bits and one new random word determine, and the condition returned says it has that value. |
| Solver.ConstraintObject.AssignRandomValue | scv-2.0.0/src/scv/scv_constraint.cpp:1057-1153 | Which values come out: the branches of the walk under the given shares at the bits it decides, and for each field without a value, in member order, a fill from new words. From a satisfiable diagram that respects the pinned fields that is a solution, for any tables and random words; in avoid-duplicate mode the record then has exactly the other solutions. |
| Solver.ConstraintObject.Next | scv-2.0.0/src/scv/scv_constraint.cpp:69-73 | A draw on an uninitialised object: the values the walk under the given shares and the fills in member order make of the words, from the active constraint or the record; a solution; in avoid-duplicate mode one not drawn since the record was renewed. |
| Drawing.DrawIsSolution | scv-2.0.0/src/scv/scv_constraint.cpp:1105-1133 | Recorded bits, free bits and pinned fields together encode a solution. |
| Runs.StepIsDraw | scv-2.0.0/src/scv/scv_constraint.cpp:1078-1147 | One draw takes exactly the drawn combination out of the pool of solutions. |
| Runs.NoSolutionTwice | scv-2.0.0/src/scv/scv_constraint.cpp:1057-1153 | In every run from an empty record with no field pinned, two draws of one cycle differ in some field, and the record is empty exactly after complete cycles. |
| Runs.EverySolutionDrawn | scv-2.0.0/src/scv/scv_constraint.cpp:1057-1153 | Every combination of values that satisfies the constraint is drawn in every complete cycle. |
| Runs.DrawCycle | scv-2.0.0/src/scv/scv_constraint.cpp:69-73 | As many calls of `next` as there are solutions draw each of them once and leave nothing recorded. |
| FieldCounts.ModelsAreSolutions | scv-2.0.0/src/scv/scv_constraint.cpp:662-699 | The models the weights count are the solutions, times two for every diagram variable that is no field bit and does not matter (the upper rows of a Boolean). |
| FieldCounts.BuiltSettled | scv-2.0.0/src/scv/scv_constraint.cpp:644-699 | Every variable of what `get_bdd` returns is a field bit, does not matter, or is off in all solutions. |
| Chances.FieldsDrawnUniformly | scv-2.0.0/src/scv/scv_constraint.cpp:2576-2616 | With exact shares, and if undecided bits were fair coins, all combinations of field values that satisfy the constraint would be equally likely. |
| Chances.ExactUniformIff | scv-2.0.0/src/scv/scv_constraint.cpp:2576-2722 | If the branch shares were exact, undecided bits being taken from equally likely words as the code takes them, all combinations would be equally likely if and only if no way to a solution leaves a bit of a field undecided. |
| Fairness.TotalGo | scv-2.0.0/src/scv/scv_constraint.cpp:2576-2616 | With shares from any table and both halves of the words used as the code uses them, the chances of all ways through a diagram add up to one. |
| Fairness.UniformFirstChoice | scv-2.0.0/src/scv/scv_constraint.cpp:2576-2722 | For any table: a uniform draw has a first choice made by a newly drawn word with exactly the right number of words for the else branch, or no choice and one solution. |
| Fairness.DrawUniformIff | scv-2.0.0/src/scv/scv_constraint.cpp:2576-2722 | With right shares in the table, and from whatever word is left: a draw is uniform over the combinations that satisfy the constraint if and only if there is exactly one. |
| Fairness.EndsUnfair | scv-2.0.0/src/scv/scv_constraint.cpp:2599-2604 | The constraint that a two-bit field is 0 or 3: if the walk draws a new word, its two solutions have 32769 and 32767 of 65536. |
| Redraws.RedrawUniform | scv-2.0.0/src/scv/scv_constraint.cpp:2596-2604 | For any diagram drawn from, counted or not: a uniform draw means one solution, or an uncounted first choice with 32769 parts in 65536 of the models in its else branch, their number a multiple of 65536. |
| Redraws.PinnedNarrows | scv-2.0.0/src/scv/scv_constraint.cpp:763-849 | Pinning fields gives a diagram with all that chances need. |
| Redraws.RecordComplete | scv-2.0.0/src/scv/scv_constraint.cpp:1078-1147 | So does every record of a run. |
| Fairness.UnconstrainedUnfair | scv-2.0.0/src/scv/scv_constraint.cpp:2690-2722 | An object whose constraint says nothing is not drawn uniformly. |
| WordCounts.PartIsShare | scv-2.0.0/src/scv/scv_constraint.h:606-612 | The part used in the counts below is the number of word sequences with the property over the number of all. |
| Outcomes.WalkPart | scv-2.0.0/src/scv/scv_constraint.cpp:2576-2618 | Of the sequences of at least as many words as a walk may draw, the part under which it goes the way of an assignment, and then leaves words with a property, is the chance of the way times the part with the property. |
| Outcomes.BitsPart | scv-2.0.0/src/scv/scv_constraint.h:596-604 | The same for undecided bits taken from a word and the words after it. |
| Outcomes.MembersPart | scv-2.0.0/src/scv/scv_constraint.cpp:2690-2722 | The same for the fields of an object, filled one after another. |
| DrawCounts.OutcomeIff | scv-2.0.0/src/scv/scv_constraint.cpp:1057-1153 | What `next` promises of the values, tied to the run of the words: the fields hold the values of a combination exactly when the walk goes its way and each field's bits then come out so, and the stream is left where that run ends. |
| DrawCounts.DrawCount | scv-2.0.0/src/scv/scv_constraint.cpp:2576-2722 | For any diagram, shares and word left over: of all sequences of at least as many words as a draw may use, the number that give a combination is its chance times the number of all. |
| DrawCounts.NextWordsDecide | scv-2.0.0/src/scv/scv_constraint.cpp:1057-1153 | A draw leaves a combination exactly when the next words of the stream are one of those sequences. |
| DrawCounts.FirstBitByWord | scv-2.0.0/src/scv/scv_constraint.cpp:2596-2606 | With no half word left, the field bit of the first choice is decided by the next word, and is off for exactly (t+1)*65536 of the 2^32 words, t being the node's share, or one half when it has none. |
| DrawCounts.DrawOnce | scv-2.0.0/src/scv/scv_constraint.cpp:69-73 | A call of `next` is such a draw. |
| Objects.Build | scv-2.0.0/src/scv/scv_constraint.cpp:228-240 | A constraint object set up from two expressions, after any others, meets everything a draw needs and everything its chances depend on; its weights are counted, right if those remembered were, and its shares right if all in the table were and the count does not mix. |
| Objects.BuiltIsIdeal | scv-2.0.0/src/scv/scv_constraint.cpp:644-660 | For a constraint that is true at some field values, at all values the compiler gets right (`FaithfulMeaning`) the built diagram is solved exactly if the expression is true over the integers. |
| Objects.ObjectIsIdeal | scv-2.0.0/src/scv/scv_constraint.cpp:228-240 | When hard and soft constraint can be met together, the solutions among the values the compiler gets right are exactly those that meet both. |
| Objects.ConflictDropsSoft | scv-2.0.0/src/scv/scv_constraint.cpp:3120-3124 | When they cannot, they are exactly those that meet the hard one. |
| Objects.SolverAgreesWithEvaluate | scv-2.0.0/src/scv/scv_expression.cpp:515-647 | Where the compiler is right and the values fit the interpreter, the diagram is solved exactly when `evaluate` says yes, if and only if the value of the whole constraint is not negative. |
| Objects.ObjectUniformIff | scv-2.0.0/src/scv/scv_constraint.cpp:228-240 | For every object that is built, with right shares in the table and as the code draws: its draws are uniform if and only if its constraints have exactly one solution. |
| Objects.ObjectDraws | scv-2.0.0/src/scv/scv_constraint.cpp:228-240 | So are the draws of every object that is built. |
| Objects.ObjectExactUniformIff | scv-2.0.0/src/scv/scv_constraint.cpp:228-240 | With exact shares they would be if and only if no way through its diagram leaves a bit of a field undecided. |
| Cycles.RenewedExactly | scv-2.0.0/src/scv/scv_constraint_range.cpp:776-788 | Drawing without repetition starts afresh exactly after every N draws, N being the size of the pool. |
| Cycles.NoDuplicate | scv-2.0.0/src/scv/scv_constraint_range.cpp:780-783 | Two draws of one cycle differ. |
| Cycles.CycleCoversAll | scv-2.0.0/src/scv/scv_constraint_range.cpp:780-788 | The draws of a complete cycle are the whole pool. |
| Intervals.Subtract | scv-2.0.0/src/scv/scv_constraint_range.cpp:151-176 | Interval subtraction is set difference also when a bound plus or minus one wraps around. |
| Intervals.Intersect | scv-2.0.0/src/scv/scv_constraint_range.cpp:141-145 | Set intersection. |
| Intervals.Overlap | scv-2.0.0/src/scv/scv_constraint_range.cpp:129-140 | True exactly when the two intervals have a common value. |
| Intervals.Contain | scv-2.0.0/src/scv/scv_constraint_range.cpp:124-128 | True exactly when every value of the one is a value of the other. |
| Intervals.ZeroSizeIffFull | scv-2.0.0/src/scv/scv_constraint_range.cpp:253-267 | For a non-empty disjoint list the summed size is 0 modulo the domain size exactly when the list covers the whole domain. |
| Intervals.ReversedBoundsReadAsFull | scv-2.0.0/src/scv/scv_constraint_range.h:90-97 | A one-interval list covers nothing and yet has size 0 exactly when its bounds are reversed. |
| Intervals.KeepOutExactIff | scv-2.0.0/src/scv/scv_constraint_range.cpp:604-667 | `keepOut` removes exactly its bounds from every list if and only if the lower is at most the upper one. |
| Intervals.KeptOutReversed | scv-2.0.0/src/scv/scv_constraint_range.cpp:604-667 | What `keepOut` leaves of any list for bounds the wrong way round, in terms of its least and greatest value alone. |
| Intervals.RankIsBijection | scv-2.0.0/src/scv/scv_constraint_range.cpp:306-314 | Every legal value is the value of exactly one rank, and only legal values are. |
| Intervals.NthMonotone | scv-2.0.0/src/scv/scv_constraint_range.cpp:306-314 | Ranks and values are in the same order. |
| Intervals.NthHasRank | scv-2.0.0/src/scv/scv_constraint_range.cpp:306-314 | Exactly k legal values are below the one of rank k. |
| Scans.ScanExactIff | scv-2.0.0/src/scv/scv_constraint_range.cpp:330-383 | `getScanValue` returns the least legal value a whole number of steps above its base, or the base if there is none, for every list if and only if the steps cannot lap. |
| Scans.LappingScan | scv-2.0.0/src/scv/scv_constraint_range.cpp:349-352 | When they can, a list on which the returned value is wrong. |
| Sweeps.SinglesOrderedIff | scv-2.0.0/src/scv/scv_constraint_range.cpp:562-582 | The list built from single values covers exactly them, and is disjoint if and only if none is repeated. |
| Ranges.ConstraintRange.EmptyExactly | scv-2.0.0/src/scv/scv_constraint_range.cpp:283-291 | The mode is EMPTY exactly when the set is empty. |
| Ranges.ConstraintRange.IsUnconstrained | scv-2.0.0/src/scv/scv_constraint_range.h:196-198 | True exactly for the whole domain. |
| Ranges.ConstraintRange.KeepOnly | scv-2.0.0/src/scv/scv_constraint_range.cpp:480-525 | Intersection with the bounds; the object stays well formed exactly when the bounds are the right way round or it was constrained before. |
| Ranges.ConstraintRange.KeepOut | scv-2.0.0/src/scv/scv_constraint_range.cpp:604-667 | Set difference for bounds the right way round, list kept ordered and disjoint. |
| Ranges.ConstraintRange.KeepOutList | scv-2.0.0/src/scv/scv_constraint_range.cpp:676-683 | Removes exactly the listed values. |
| Ranges.ConstraintRange.KeepOnlyList | scv-2.0.0/src/scv/scv_constraint_range.cpp:545-602 | Intersection with the listed values; well formed exactly when no legal value is listed twice. |
| Ranges.ConstraintRange.Satisfy | scv-2.0.0/src/scv/scv_constraint_range.cpp:685-705 | Membership, in spite of the early exit. |
| Ranges.ConstraintRange.Merge | scv-2.0.0/src/scv/scv_constraint_range.cpp:430-478 | A new object for the intersection of two. |
| Ranges.RandomValueRank | scv-2.0.0/src/scv/scv_constraint_range.cpp:298-314 | The value a word selects has exactly as many legal values below it as the word's remainder by their number says; for the whole domain it is the word. |
| Ranges.EachValueOnce | scv-2.0.0/src/scv/scv_constraint_range.cpp:298-314 | As many words on end as there are legal values select each of them, and none twice. |
| Ranges.ConstraintRange.GetRandomValue | scv-2.0.0/src/scv/scv_constraint_range.cpp:298-328 | The legal value that exactly w mod N legal values are below, w being the new word and N their number; the word itself when unconstrained; 0, and no word drawn, when empty. |
| Ranges.ConstraintRange.GetScanValue | scv-2.0.0/src/scv/scv_constraint_range.cpp:330-383 | The loop computes the scan function that `ScanExactIff` is about. |
| Generators.RangeGenerator.KeepOut | scv-2.0.0/src/scv/scv_constraint_range.h:453-456 | For all bounds: resets the generator and reports the EMPTY mode; removes the values exactly for bounds the right way round, and leaves the list the constraint's own `keepOut` leaves for the others. |
| Generators.RangeGenerator.KeepOnly | scv-2.0.0/src/scv/scv_constraint_range.h:441-444 | For all bounds the intersection; reports an over-constraint exactly when nothing is left, unless reversed bounds meet an unconstrained object, which then is not well formed. |
| Generators.RangeGenerator.SetScanInterval | scv-2.0.0/src/scv/scv_constraint_range.cpp:867-882 | A fixed increment, or one drawn from the bounds at every step; a lower bound of 0 is an error, and exactly then a step of 0 can follow. |
| Generators.RangeGenerator.IncrementDrawn | scv-2.0.0/src/scv/scv_constraint_range.cpp:805-812 | An increment drawn from bounds is the lower bound plus the remainder of the new word by their distance plus one. |
| Generators.RangeGenerator.RandomNext | scv-2.0.0/src/scv/scv_constraint_range.cpp:755-760 | The legal value that the new word selects by rank, or an error for an empty generator. |
| Generators.RangeGenerator.RandomAvoidDuplicateNext | scv-2.0.0/src/scv/scv_constraint_range.cpp:772-790 | One draw without repetition from the legal values, in the sense of `Cycles`, with renewal at the last value; the value drawn is the one of those left that the new word selects by rank. |
| Generators.DrawPermutation | scv-2.0.0/src/scv/scv_constraint_range.cpp:772-790 | As many draws as there are legal values are a permutation of them, and the generator is renewed after the last. |
| Generators.RangeGenerator.ScanNext | scv-2.0.0/src/scv/scv_constraint_range.cpp:792-819 | The first value is the least of the list; after that, unless its steps can lap, the least value of the list a whole number of steps of the fixed or newly drawn increment above the current one and, when there is none, the least legal value, with a fresh list. One word is drawn for a new increment, otherwise none. |
| Generators.NextScanSteps | scv-2.0.0/src/scv/scv_constraint_range.cpp:792-819 | The same of the scan function, which restarts exactly when no value of the list is a whole number of steps above the current one. |
| Generators.ScanListsLegalValues | scv-2.0.0/src/scv/scv_constraint_range.cpp:792-819 | With the default increment the k-th value of a scan is the legal value of rank k modulo N: ascending, all of them, then from the start. |
| Generators.Scan | scv-2.0.0/src/scv/scv_constraint_range.cpp:792-819 | Calls of `scanNext` over and over return those values. |
| Congruential.FullPeriod | scv-2.0.0/src/scv/scv_random.cpp:949-971 | For every power of two as modulus, multiplier 1 modulo 4 and odd increment: n steps lead back to the start exactly when the modulus divides n. |
| Rand48.Generator.Iterate | scv-2.0.0/src/scv/scv_random.cpp:949-971 | The three 16-bit words step exactly as X -> (0x5DEECE66D X + 0xB) mod 2^48, whether or not the shared parameters were filled in before. |
| Rand48.Generator.Next | scv-2.0.0/src/scv/scv_random.cpp:973-991 | Draws the upper 32 bits of the new state. |
| Rand48.Recurrence | scv-2.0.0/src/scv/scv_random.cpp:949-991 | The step is X -> (0x5DEECE66D X + 0xB) mod 2^48, and a draw the new state divided by 2^16. |
| Rand48.Generator.GetCurrentSeed | scv-2.0.0/src/scv/scv_random.cpp:396-423 | The state as one number. |
| Rand48.Generator.SetCurrentSeed | scv-2.0.0/src/scv/scv_random.cpp:425-440 | Setting back a saved state restores the three words; of a larger number the low 48 bits count. |
| Rand48.SameStartIff | scv-2.0.0/src/scv/scv_random.cpp:193-196 | Two stored seeds fill the three words alike if and only if their low 32 bits agree; a seed of 0 given by a caller is replaced by a generated one before it is stored. |
| Rand48.PeriodOfState | scv-2.0.0/src/scv/scv_random.cpp:949-971 | From every state the generator is back after n draws exactly when 2^48 divides n. |
| Rand48.StatesDiffer | scv-2.0.0/src/scv/scv_random.cpp:949-971 | No state comes twice among 2^48 consecutive ones. |
| Rand48.StreamAfter | scv-2.0.0/src/scv/scv_random.cpp:396-440 | From a state saved after m draws the stream continues with draw m. |
| Streams.SameStreamIff | scv-2.0.0/src/scv/scv_random.cpp:949-991 | Two states draw the same numbers for ever if and only if they are the same, although a draw shows 32 of 48 bits. |
| Streams.SameSeedIff | scv-2.0.0/src/scv/scv_random.cpp:193-196 | Two stored seeds give the same numbers for ever if and only if their low 32 bits agree. |
| SeedReplay.Replay.RetrieveSeed | scv-2.0.0/src/scv/scv_random.cpp:820-859 | The k-th request for a name gets the k-th seed stored under it, whatever was asked for in between; none beyond the last; the outstanding counter is the total queue length. |
| SeedReplay.QueueTotalUpdate | scv-2.0.0/src/scv/scv_random.cpp:824-843 | How the total queue length changes with one queue. |
| Copies.CopiesCount | scv-2.0.0/src/scv/scv_bag.h:459-475 | Each record owns as many residues as it has unmarked copies. |
| Bags.EvenResidues | scv-2.0.0/src/scv/scv_bag.h:459 | Within the words below 2^31, and within those from 2^31 on, any n on end give every residue below n once. |
| Bags.Bag.Add | scv-2.0.0/src/scv/scv_bag.h:430-441 | Appends a record of unmarked copies, counters kept; a count below one is an error. |
| Bags.Bag.PeekRandom | scv-2.0.0/src/scv/scv_bag.h:450-476 | The whole new state: the cursor is on the record that owns the residue of the new word, which is the word itself or its distance from 2^32 when below the number of unmarked copies; one copy is marked on request; without unmarked copies nothing changes. |
| Bags.RandomPeeksEven | scv-2.0.0/src/scv/scv_bag.h:450-476 | Of as many such words on end as there are unmarked copies, `peekRandom` returns each record for exactly as many as it has unmarked copies. |
| Bags.Bag.PeekNextUnmarked | scv-2.0.0/src/scv/scv_bag.h:522-538 | Ends, and puts the cursor on the next unmarked copy, from the last one round to the first; the list does not change. |
| Bags.Bag.PeekNextMarked | scv-2.0.0/src/scv/scv_bag.h:541-558 | The same for marked copies. |
| Bags.DistinctPeekMoves | scv-2.0.0/src/scv/scv_bag.h:522-558 | A distinct peek ends on the first copy of a record, and on the last object's own record only if that has all copies. |
| Bags.PeekFindsCopyIff | scv-2.0.0/src/scv/scv_bag.h:238-254 | The object found has a copy of the kind asked for, unless the cursor's count had gone negative on a record without one. |
| Bags.RoundVisits | scv-2.0.0/src/scv/scv_bag.h:238-254 | In any stretch of N 'u' peeks, N being the number of unmarked copies, every record is seen as often as it has such copies, if and only if the count of copies seen is not negative any more when it begins or all are of the one record the cursor is on. |
| Bags.MarkedPeek | scv-2.0.0/src/scv/scv_bag.h:238-254 | A run of public calls after which `peekNext('u')` returns an object without unmarked copies, although another has one. |
| Bags.Peeks | scv-2.0.0/src/scv/scv_bag.h:522-538 | Calls of `peekNext('u')` over and over are a run in that sense, and return the objects it visits. |
| Bags.Bag.Mark | scv-2.0.0/src/scv/scv_bag.h:593-606 | The new counts of the last object, the cursor and the flag; counters stay the sums over the list. |
| Bags.Bag.UnMark | scv-2.0.0/src/scv/scv_bag.h:608-621 | The converse. |
| Bags.Bag.Remove | scv-2.0.0/src/scv/scv_bag.h:630-643 | The whole new state: one or all copies less, and as many unmarked ones as the record loses; a record without copies dropped and the cursor stepped back; counters stay the sums; unmarked stays at most total exactly when no copy of a mark that is not there is taken. |
| Bags.UnseenKept | scv-2.0.0/src/scv/scv_bag.h:95-110 | A removal that finds a copy of its mark leaves as many copies of either mark unseen as before, and one that does not leaves the cursor's counts. |
| Bags.Bag.MarkAll | scv-2.0.0/src/scv/scv_bag.h:672-679 | Every copy of every record marked, counters kept. |
| Bags.Bag.UnmarkAll | scv-2.0.0/src/scv/scv_bag.h:661-668 | Every copy unmarked, counters kept. |
| Bags.OvermarkedRun | scv-2.0.0/src/scv/scv_bag.h:608-643 | A run after which a record has more unmarked copies than copies. |
| Primes.IsPrime | scv-2.0.0/src/scv/scv_constraint.h:131-140 | Accepts exactly the primes, and 0 and 1. |
| Primes.NextPrime | scv-2.0.0/src/scv/scv_constraint.h:142-145 | Ends, and returns the least accepted number from its argument on, which is 0 exactly for 0, a size hint no caller passes. |
| OpenTable.Table.Update | scv-2.0.0/src/scv/scv_constraint.h:241-250 | For any hash function: the finite map with the key set, and whether it was there; the element count is the size of the map. |
| OpenTable.Table.Get | scv-2.0.0/src/scv/scv_constraint.h:251-258 | The element of the key in the map, if any. |
| OpenTable.Table.Remove | scv-2.0.0/src/scv/scv_constraint.h:221-239 | The map without the key, and whether it was there. |

## Left out

* The decision diagram package itself (unique table, garbage collection, reordering): its source is not
  part of the repository; diagrams are values, and variable order is index order.
* The manager is one object in the source; here its fields are split over the classes that use them:
  variables, weights, random state, constraint object.
* Weights are natural numbers and branch shares exact quotients, where the source has doubles.
* Chances are counts over all sequences of words a draw may use (`DrawCount`); that the words of a stream are
  independent and equally likely is assumed of none. The stream is an arbitrary function, or the 48-bit generator.
  `SamplingIsUniform`, `WalkError`, `SetError` and `FieldsDrawnUniformly` also have fair coins for undecided bits,
  `ExactUniformIff` exact shares; `Fairness` and `Redraws` have neither.
* Records and arrays among the fields are flattened to their scalar fields; enumerations, values wider
  than 64 bits and floating point fields are not modelled.
* Fields the solver does not know keep their own generators; a draw leaves them alone here. Fields whose
  own mode is a distribution or a range are not drawn separately.
* Drawing a single field of an object (the other two forms of `assignRandomValue`) and SCAN mode of the solver.
- Compiler.VariableTable.CreateExprRep: makes a vector for scalars only; signals and their bounds are not modelled.
- Interpreter.InterpreterAgrees: does not model double and string values, because they depend on floating point.
- Exactness.WidthSafeMeaning: admits no subtraction, whose exactness depends on the values; `FaithfulMeaning`
  and the theorems of `Objects` admit it.
- Compiler.ExprEqual: does not model the branches for records, arrays, doubles and strings, because those values
  are flattened or not modelled here.
- Construction.GetBdd: does not conjoin the constraint that an enumeration field has one of its values.
- Solver.ConstraintObject.InitMember: does not model the initialisation of fields that are drawn by their own
  distribution or range.
- Solver.ConstraintObject.AssignValueMember: leaves a field the solver does not know alone, where the source
  calls the field's own generator.
- Solver.ConstraintObject.AssignRandomValue: does not draw fields that have a generation mode of their own, nor
  model SCAN mode.
- Fairness.DrawUniformIff: takes the members to be different fields, as the set-up of an object lists them.
- OpenTable.Table.Get: returns the element, not a pointer through which a caller could change it.
* The chains of the hash table are values, not linked nodes, so sharing and freeing of nodes is not modelled.
* Interval lists of the signed, 64-bit, arbitrary-width and floating point instances, and generators with a
  weight distribution.
* In the bag: `peekNext('a')`, priorities, copying and printing; random peeks on an empty unmarked set
  return no object here, where the source returns whatever lies past the end of the list.
* Custom and `rand_r` generators, parsing of the seed file (a sequence of name and seed here), and all
  messages; an error the source reports becomes a result.
* Memory management.
