# Model of the BEAM run-time core

This project models parts of the Erlang run-time system in Dafny and proves properties of them:

- **big.c**: word-level carries and products, short and long division with a signed remainder,
  multiplication and squaring, decimal output and its size estimate, arithmetic shift; with the shift
  instructions of beam_emu.c and `list_to_integer` of bif.c. A digit is a natural below B = 2^64, and
  every machine operation is taken modulo B. Vectors are arrays, updated in place.
- **copy.c**: `size_object`, `copy_struct`, `copy_shallow`, and the literal mover of beam_load.c. Memory
  is one array of tagged words; the local that receives the result of `copy_struct` is a word of it,
  because the code writes it through the same pointer as any other slot.
- **dist.c, dist.h**: the output queue of a distribution entry as a state machine over all interleavings.
  One step is one lock section or one atomic exchange of a sender, the dist command, a port event, a kill,
  the teardown or the set-up of a connection. The exchange of `dist_cmd_scheduled` and the queueing of the port
  task are two steps for every thread. A command whose port dies inside a send lives on as a stale
  command while the next connection may already exist.
- **beam_load.c with beam_emu.c**: lowering of select instructions and their execution; label references
  threaded through the code.
- **beam_bp.c, beam_catches.c, beam_bif_load.c, node monitors of dist.c**: the breakpoint ring, the catch
  table, the table of code ranges, and the list of node-event subscriptions. Pointers into nodes are
  addresses into a map, written in the order the code writes them.

`dafny verify dfyconfig.toml` covers the whole project.

## Where the code does not meet the natural statement

Each of these has a concrete case and an exact condition in the model.

- `D2DIVREM` (big.c:330-367) returns a quotient one too small for certain multiples of the divisor, told by
  the parity of a chain of quotients that can be computed from dividend and divisor. For all other
  dividends it is exact. `I_div` tolerates this, because it only needs an estimate.
- `do_list_to_integer` computes its buffer size in 32 bits (bif.c:2481). Up to 9336884 digits the
  buffer is large enough; beyond that it is too small for every number of that length. The result is in
  canonical form except for -2^59 built as a bignum.
- `I_lshift` keeps its digit count in an `int` (big.c:1327). A right shift is exact if and only if the count
  fits or the truncated count still shifts everything out. The count 2^59 used for huge right shifts
  leaves the number unchanged. The instruction sizes the result from the untruncated count, so that what
  is moved fits the heap reserved if and only if the count fits or at most five digits are left.
- A new connection may be set up before the bytes of earlier ones are deducted (dist.c:596-615). If threads
  that will resume nobody still have the busy limit or more to deduct, a process can end up suspended with
  nothing left to run: no task, no command, no late deduction. Otherwise it cannot; then an entry left to
  itself always comes to rest with everybody resumed and everything sent. A command whose port died inside
  send does not count if it will resume, and neither does what its own teardown freed, since its thread
  deducts that first. The debug assertion at dist.c:2389 asks for more than is needed.
- A debug breakpoint leaves the function without moving pc[-4] (beam_emu.c:4738-4749). Unless it comes first
  in the ring, pc[-4] then stays before it: the next call starts at the debug node and misses the debug
  breakpoint, and clearing all breakpoints leaves it in pc[0] (beam_bp.c:712-727).
- Adding a breakpoint where the node before the last one holds a debug breakpoint (beam_bp.c:597-602) makes
  the new node and the last one be used as each other's kind.

## Model

| member | source | states |
|---|---|---|
| DigitOps.DSum | erts/emulator/beam/big.c:66-72 | sum and carry of two words from wrap-around comparison: s + B*c = a + b |
| DigitOps.DSumC | erts/emulator/beam/big.c:54-63 | the same with a carry coming in: s + B*c = a + b + ci |
| DigitOps.DSub | erts/emulator/beam/big.c:85-91 | difference and borrow: d - B*r = a - b |
| DigitOps.DSubB | erts/emulator/beam/big.c:74-83 | the same with a borrow coming in |
| DigitOps.DMulC | erts/emulator/beam/big.c:181-202 | the double digit built from four half-digit products is exactly a*b + d, and no intermediate carry is lost |
| DigitOps.D2PF | erts/emulator/beam/big.c:219-229 | the shift returned brings the top bit of any non-zero word to the top, losing nothing |
| DigitOps.CorrectEstimate | erts/emulator/beam/big.c:281-287 | the correction loop ends on the true half-digit quotient although its guard is evaluated modulo B |
| DigitOps.HalfQuotient | erts/emulator/beam/big.c:281-288 | one half-digit estimate and correction gives true quotient and remainder |
| DigitOps.DDivRem | erts/emulator/beam/big.c:263-298 | for a1 < b: a1*B + a0 = q*b + r with r < b |
| DoubleDigit.EstimateProgress | erts/emulator/beam/big.c:340-351 | an estimate times the divisor fits two digits and is below twice the dividend, so the rounds make progress |
| DoubleDigit.SignedRoundsSum | erts/emulator/beam/big.c:337-359 | the alternating rounds add up to a = q*d + r or a = q*d - r with 0 <= r < d |
| DoubleDigit.D2DivRem | erts/emulator/beam/big.c:330-367 | for every dividend and every divisor of two digits: the true quotient, or one less for the dividends of ReturnedExact, and the remainder that this leaves |
| DoubleDigit.SignedDivRem | erts/emulator/beam/big.c:334-366 | the word loop, modulo B, computes the signed rounds and folds a negative rest back |
| DoubleDigit.ReturnedBounds | erts/emulator/beam/big.c:330-367 | the quotient returned is never too large and at most one too small |
| DoubleDigit.ReturnedExact | erts/emulator/beam/big.c:340-363 | the quotient returned is floor(a/d) unless a is a multiple k*d, d >= 2B, whose chain of overshoots k, floor(k*b0/(b1*B)), ... has odd length; there it is one less |
| DoubleDigit.PlainRounds | erts/emulator/beam/big.c:346-358 | with the plain estimate, a multiple ends with a negative sign exactly if the number of overshoots is odd |
| DoubleDigit.CautiousEstimate | erts/emulator/beam/big.c:344-345 | the cautious estimate of a multiple never overshoots and is made at most once |
| DoubleDigit.NarrowRounds | erts/emulator/beam/big.c:342-343 | for divisors below 2B no estimate of a multiple overshoots |
| DoubleDigit.ReturnedTooSmall | erts/emulator/beam/big.c:360-363 | 3(3B-1) divided by 3B-1 returns 2: a case of the exception |
| Vectors.IComp | erts/emulator/beam/big.c:426-446 | comparing by length and then from the top digit is comparing the numbers |
| Vectors.DAdd | erts/emulator/beam/big.c:484-499 | vector plus digit, in place or not; nothing outside the result changes |
| Vectors.ISub | erts/emulator/beam/big.c:506-535 | x - y for y <= x, normalised, whichever operand the result overwrites |
| Vectors.DSubtract | erts/emulator/beam/big.c:540-558 | vector minus digit, normalised |
| Vectors.ZSub | erts/emulator/beam/big.c:563-580 | the complement B^n - y, normalised |
| Vectors.DMulSub | erts/emulator/beam/big.c:752-785 | x - d*y when that is not negative; otherwise 0 is returned and the vector holds the result modulo B^n |
| Vectors.Strip | erts/emulator/beam/big.c:530-534 | dropping leading zeros keeps the value and leaves a normal vector |
| ShortDivision.DDiv | erts/emulator/beam/big.c:792-831 | X = Q*d + r with r < d and a normal Q, also when q is x itself |
| ShortDivision.QuotientNormal | erts/emulator/beam/big.c:802-810 | the quotient length chosen before the loop is the right one |
| Division.ChooseDigit | erts/emulator/beam/big.c:874-896 | whatever branch estimates it, q0 times the top of the divisor is at most the window, and the rest is below one more length of the divisor |
| Division.OvershootBound | erts/emulator/beam/big.c:903-910 | an overshooting digit leaves a window below the divisor length, and takes off less than twice the window |
| Division.ReduceWindow | erts/emulator/beam/big.c:903-915 | subtract, negate on overshoot: the new remainder is the absolute value of R - q0*Y*B^s, and the flag tells its sign |
| Division.UpdateQuotient | erts/emulator/beam/big.c:898-901 | adding or subtracting the digit at its position, with carries and borrows running upward, changes Q by exactly q0*B^s |
| Division.UpdateAllowed | erts/emulator/beam/big.c:898-901 | a subtracted digit never exceeds the quotient so far, and an added one never carries beyond the quotient vector |
| Division.BalanceStep | erts/emulator/beam/big.c:869-918 | every iteration keeps X = Q*Y + R or X = Q*Y - R |
| Division.DivLoop | erts/emulator/beam/big.c:869-918 | the signed-remainder loop terminates with a remainder below Y in absolute value |
| Division.IDiv | erts/emulator/beam/big.c:841-936 | X = Q*Y + R with 0 <= R < Y, both normal, for every X not below Y and Y of at least two digits |
| Division.IRem | erts/emulator/beam/big.c:963-1028 | the remainder alone is X mod Y, normal |
| Division.DivRemAgree | erts/emulator/beam/big.c:841-1028 | the division and the remainder routine called on the same operands leave the same remainder, in length and in every digit |
| Multiplication.MulDigit | erts/emulator/beam/big.c:603-631 | the cases for digits 1 and 2 and the general case put the same sum into the column and the carries |
| Multiplication.RowCarryFits | erts/emulator/beam/big.c:632 | the carry out of a row is a single digit |
| Multiplication.IMul | erts/emulator/beam/big.c:586-639 | the exact product, normal for normal non-zero operands |
| Multiplication.DMul | erts/emulator/beam/big.c:708-742 | the exact product with one digit, including the cases 0, 1 and 2, in place or not |
| Multiplication.SquareColumn | erts/emulator/beam/big.c:675-683 | a column adds twice the product; four carries and the high digit together hold what is pending |
| Multiplication.LastRowFits | erts/emulator/beam/big.c:684-696 | the row of the last digit cannot overflow |
| Multiplication.ISqr | erts/emulator/beam/big.c:647-702 | the exact square, normal for a normal non-zero operand, also when the operand lies in the upper half of the result |
| Multiplication.SquareAdvance | erts/emulator/beam/big.c:658-697 | one row adds its share; a digit of an operand inside the result is read before its word is overwritten |
| Multiplication.SqrMulAgree | erts/emulator/beam/big.c:586-702 | squaring a number and multiplying it by itself leave the same length and the same digits |
| Decimal.DecRoundTrip | erts/emulator/beam/big.c:1527-1575 | the decimal expansion used as reference reads back as the number |
| Decimal.DecLength | erts/emulator/beam/big.c:1513-1521 | an expansion has at most n characters exactly if the number is below 10^n |
| BigText.WriteBig | erts/emulator/beam/big.c:1527-1575 | the characters written are the sign and the exact decimal expansion, for every magnitude |
| BigText.ChunkSplit | erts/emulator/beam/big.c:1553-1569 | padding every chunk but the top one gives the expansion |
| BigText.ILg | erts/emulator/beam/big.c:1420-1431 | the position of the top bit |
| BigText.BinaryBelowDecimal | erts/emulator/beam/big.c:1513-1521 | 2^b <= 10^(28b/93 + 1), from 2^93 < 10^28 |
| BigText.EstimateEnough | erts/emulator/beam/big.c:1513-1521 | the text and a final null never exceed the estimate |
| BigParse.BufferEnough | erts/emulator/beam/bif.c:2481-2486 | up to 9336884 digits the heap buffer holds every number of that many digits |
| BigParse.BufferTooSmall | erts/emulator/beam/bif.c:2481-2486 | beyond that the 32-bit size computation overflows and no number of that many digits fits |
| BigParse.CountDigits | erts/emulator/beam/bif.c:2445-2463 | the counting pass finds the digit run and, for short runs, its value |
| BigParse.BuildBig | erts/emulator/beam/bif.c:2488-2520 | nine digits at a time, the value accumulated in one buffer is the value of the run |
| BigParse.Convert | erts/emulator/beam/bif.c:2477-2530 | the value is right for either sign; it is in canonical form if and only if it is not -2^59 built as a bignum |
| BigParse.DoListToInteger | erts/emulator/beam/bif.c:2396-2542 | for any list, proper or not: outcome, value and rest, up to the digit bound |
| BigParse.PrintThenParse | erts/emulator/beam/bif.c:2352-2384 | printing a bignum and parsing the text gives the value back |
| Shift.ShiftLeft | erts/emulator/beam/big.c:1333-1355 | the left branch computes x*2^y, normal |
| Shift.ShiftRight | erts/emulator/beam/big.c:1356-1413 | the right branch computes the shift by its truncated digit count, rounding negative numbers toward minus infinity |
| Shift.ILshift | erts/emulator/beam/big.c:1314-1415 | both branches, for every number and count |
| Shift.RightShiftExact | erts/emulator/beam/big.c:1326-1328 | the right shift is the true one if and only if the digit count fits an int, or the truncated count shifts everything out anyway |
| Shift.HugeCountKeepsNumber | erts/emulator/beam/beam_emu.c:2298-2306 | the count 2^59 that stands in for a huge right shift loses its digit part, so the number stays unshifted |
| ShiftInstr.RoomEnough | erts/emulator/beam/beam_emu.c:2340-2356 | the words that a right shift moves fit the heap reserved for it if and only if the digit count fits an int or the truncated count leaves at most five digits; for the count 2^59 all digits are moved |
| ShiftInstr.FitsShiftedExact | erts/emulator/beam/beam_emu.c:2328-2333 | the bit-mask test of the fast path holds exactly if the shifted value is a small |
| ShiftInstr.SmallShift | erts/emulator/beam/beam_emu.c:2315-2334 | the fast path is taken exactly when it can give floor(a*2^i), and gives it |
| ShiftInstr.NormResult | erts/emulator/beam/big.c:1619-1645 | normalisation yields the canonical term of the same value, or no value when there are too many digits |
| ShiftInstr.BigShift | erts/emulator/beam/beam_emu.c:2337-2376 | the vector path: a system limit exactly if the product has too many digits, else a canonical term; it is floor(a*2^i) if and only if i > 0 or the digit count of the right shift holds |
| ShiftInstr.ShiftInteger | erts/emulator/beam/beam_emu.c:2282-2376 | for every integer: a system limit exactly if the product has too many digits, a canonical term otherwise; it is floor(a*2^i) if and only if it is not a bignum shifted right by a digit count that the int truncates harmfully |
| Terms.RepUnique | erts/emulator/beam/copy.c:61-65 | a word of a memory represents at most one term |
| SizeObject.SizeOf | erts/emulator/beam/copy.c:73-184 | the stack loop returns the flat size of the term |
| SizeObject.EnterBoxed | erts/emulator/beam/copy.c:92-170 | one boxed object: its words, and what is left to visit |
| CopyProofs.ConsHigh | erts/emulator/beam/copy.c:253-257 | a list cell with an immediate head fills two words at the high end and keeps the copy invariant |
| CopyProofs.ConsLow | erts/emulator/beam/copy.c:258-262 | any other cell fills two words at the low end |
| CopyProofs.TupleLow | erts/emulator/beam/copy.c:286-304 | a tuple goes to the low end, its elements wait for the scan |
| CopyProofs.FlatHigh | erts/emulator/beam/copy.c:436-443 | a flat object goes to the high end, where the scan never looks |
| CopyProofs.Scanned | erts/emulator/beam/copy.c:232-280 | the scan can tell from the word alone whether anything is left to copy |
| CopyProofs.Pick | erts/emulator/beam/copy.c:244 | taking a word from the scan moves its size from the queue to the object in hand |
| CopyProofs.CaughtUp | erts/emulator/beam/copy.c:456-469 | when the scan meets the low end, both ends meet and the block decodes to the term |
| CopyStruct.CopyList | erts/emulator/beam/copy.c:247-273 | a list, proper or improper, of any mixture of heads |
| CopyStruct.CopyBoxed | erts/emulator/beam/copy.c:282-444 | a tuple or a flat object, and which tuple is the latest constant one |
| CopyStruct.ScanWord | erts/emulator/beam/copy.c:230-454 | one turn of the scan, including the step over a constant tuple |
| CopyStruct.Copy | erts/emulator/beam/copy.c:189-470 | given the size of the term: the ends meet exactly, the result decodes to the same term with every cell in the block, and nothing else is written |
| CopyStruct.CopyObject | erts/emulator/beam/copy.c:53-67 | size and copy together: the size is exactly enough, the copy equals the source and the source is intact |
| Relocate.NextItem | erts/emulator/beam/copy.c:906-980 | behind an item come its data words, which no pointer leads to, and then the next item |
| Relocate.MovedKeeps | erts/emulator/beam/copy.c:897-984 | a block closed under its own pointers decodes to the same term after every pointer is offset |
| Relocate.CopyShallow | erts/emulator/beam/copy.c:897-984 | the copy takes exactly the given words, keeps every term of the block and changes nothing else |
| Relocate.MoveLiteral | erts/emulator/beam/beam_load.c:3398-3421 | copying one literal heap and fixing it up in place keeps its terms |
| Relocate.MoveLiterals | erts/emulator/beam/beam_load.c:3390-3422 | all literals are packed without gap or overlap and each keeps its terms |
| Relocate.PlaceLiterals | erts/emulator/beam/beam_load.c:3384-3439 | every patched operand represents the term of the literal whose number it held |
| DistQueueProofs.SenderKeeps | erts/emulator/beam/dist.c:1484-1545 | every lock section of a sender keeps the whole invariant |
| DistQueueProofs.CommandKeeps | erts/emulator/beam/dist.c:1660-1965 | every step of the dist command keeps it |
| DistQueueProofs.ConnectionKeeps | erts/emulator/beam/dist.c:432-492 | port events, kill, teardown in three sections, late deductions and set-up keep it |
| DistQueueProofs.PutBackKeeps | erts/emulator/beam/dist.c:1946-1960 | putting unhandled buffers back in front keeps order and byte count |
| DistQueueProofs.FinaliseOnlyKeeps | erts/emulator/beam/dist.c:1761-1807 | finalising while the port is busy, with the split on preemption |
| DistQueueProofs.ClearKeeps | erts/emulator/beam/dist.c:558-616 | tearing down inside send hands the buffers of the command and the bytes freed to a stale command; otherwise only the freed bytes are left to deduct |
| DistQueueRuns.ByteCountExact | erts/emulator/beam/dist.c:577-615 | in every run qsize is the total of all buffers queued, held, sent or freed and not yet deducted, so it is never negative |
| DistQueueRuns.SentInOrder | erts/emulator/beam/dist.c:1695-1860 | in every run what the driver got is a prefix of what was finalised, and that a prefix of what was enqueued, in order |
| DistQueueRuns.NothingLost | erts/emulator/beam/dist.c:1695-1963 | when nothing is queued and no command runs, the driver has had everything |
| DistQueueRuns.StepServes | erts/emulator/beam/dist.c:1484-1545 | every step of a run keeps the promise that somebody will look after the suspended processes |
| DistQueueRuns.NobodyStranded | erts/emulator/beam/dist.c:160-176 | in calm runs a suspended process implies the busy or exit flag; without exit a command is coming, has the decision before it or waits for a busy port, a sender is about to schedule one, or a stale command will resume; with exit the teardown is coming |
| DistQueueStrands.SetUpStrandsIff | erts/emulator/beam/dist.c:2387-2393 | a connection, busy port or not, can leave a process suspended with nothing at all left to run if and only if it is set up while threads that resume nobody still have the busy limit or more to deduct; what a teardown inside send freed counts with the command whose thread deducts it first |
| DistQueueStrands.RescuerFails | erts/emulator/beam/dist.c:1864-1880 | a stale command that could resume everybody, having deducted what its own teardown freed, resumes nobody while that much is left to others |
| DistQueueStrands.StrandingReachable | erts/emulator/beam/dist.c:596-615 | such a set-up is reachable: the previous connection dies with a full queue and its bytes are deducted late |
| DistQueueSettles.SettlesInTime | erts/emulator/beam/dist.c:1660-1965 | left to itself, the entry stops after a bounded number of steps, whatever the order of the threads, what the driver does inside sends and where commands are preempted after doing something |
| DistQueueSettles.RestIsQuiet | erts/emulator/beam/dist.c:1660-1965 | on a connection that is up, no thread can go on exactly if there is no task, command, sender, teardown, late deduction or busy port |
| DistQueueSettles.EverybodyResumed | erts/emulator/beam/dist.c:1864-1880 | after any calm run, once the entry is left to itself it stops, and then nobody is suspended, qsize is 0 and everything enqueued was sent |
| DistQueueSettles.Settle | erts/emulator/beam/dist.c:1660-1965 | from every state that satisfies the invariant a rest is reached: no run gets stuck before it |
| Select.UseJumpTab | erts/emulator/beam/beam_load.c:2144-2171 | the test with unsigned comparisons holds exactly for integer keys whose words span at most two per key |
| Select.GenJumpTab | erts/emulator/beam/beam_load.c:3010-3075 | the table maps each key to its label and everything else to Fail |
| Select.JumpIsLookup | erts/emulator/beam/beam_emu.c:1817-1847 | indexing the table, negative values and wrap-around included, is association-list lookup |
| Select.TagOrder | erts/emulator/beam/beam_load.c:3081-3090 | sorting untagged words sorts the tagged terms |
| Select.TableIncreasing | erts/emulator/beam/beam_load.c:3097-3136 | the sorted table is strictly increasing in the words the emulator compares |
| Select.BinarySearch | erts/emulator/beam/beam_emu.c:1769-1815 | the search finds the pair of the key or fails |
| Select.SelectVal | erts/emulator/beam/beam_emu.c:1766-1815 | select on integers or atoms is association-list lookup for every term |
| Select.SelectTupleArity | erts/emulator/beam/beam_emu.c:2680-2690 | select on tuple arity is lookup of the arity; other terms fail |
| Select.SearchBig | erts/emulator/beam/beam_emu.c:2711-2724 | skipping larger headers and comparing digits finds the bignum if it is in the table |
| Select.SelectBig | erts/emulator/beam/beam_emu.c:2692-2733 | select on bignums is association-list lookup for every term |
| Select.SplitValues | erts/emulator/beam/beam_load.c:2981-2993 | the two halves are the entries of the first type and the rest, in order |
| Select.SplitLookup | erts/emulator/beam/beam_load.c:2939-3003 | looking in the first half and then in the second is looking in the whole list |
| Select.Lower | erts/emulator/beam/beam_load.c:2880-3187 | the transformation rules produce a form for every non-empty list of distinct keys, with a fresh label between split halves |
| Select.Execute | erts/emulator/beam/beam_emu.c:1766-1847 | whatever form was chosen, execution jumps to the label of association-list lookup |
| Labels.Loader.EmitLabel | erts/emulator/beam/beam_load.c:1830-1847 | a reference becomes the head of its label's list; all lists stay disjoint and acyclic |
| Labels.Loader.DefineLabel | erts/emulator/beam/beam_load.c:1848-1862 | refused exactly for an invalid number or a second definition |
| Labels.Loader.FuncInfo | erts/emulator/beam/beam_load.c:2005-2022 | a function-table slot joins the list of the last label, out of address order |
| Labels.Thread | erts/emulator/beam/beam_load.c:1919-1924 | recording a reference at a fresh word keeps every list intact, disjoint and acyclic |
| Labels.ResolveOne | erts/emulator/beam/beam_load.c:3527-3534 | walking one list changes exactly its words |
| Labels.Loader.ResolveLabels | erts/emulator/beam/beam_load.c:3518-3535 | fails exactly if a referenced label is undefined; otherwise every reference holds its label's address and no other word changes |
| Breakpoints.SplicedLinks | erts/emulator/beam/beam_bp.c:85-101 | splicing a node in keeps the double links of the ring |
| Breakpoints.UnlinkedLinks | erts/emulator/beam/beam_bp.c:57-66 | the pointer swaps take exactly one node out of the ring |
| Breakpoints.DebugIn | erts/emulator/beam/beam_bp.c:597-602 | inserting before a debug breakpoint leaves a ring whose last two nodes are used as each other's kind |
| Breakpoints.Function.IsBreak | erts/emulator/beam/beam_bp.c:757-785 | finds the node of a kind by the kinds stored in predecessors |
| Breakpoints.Function.Set | erts/emulator/beam/beam_bp.c:502-627 | the ring stays well formed with one node per kind; nodes stay what they were made for if and only if no node is added where the node before the last one holds a debug breakpoint |
| Breakpoints.Function.Remove | erts/emulator/beam/beam_bp.c:712-730 | removing the first, a middle, the last or the only node |
| Breakpoints.Function.Clear | erts/emulator/beam/beam_bp.c:680-743 | one kind is removed and the others stay in order; clearing all leaves in pc[0] the word of the node at pc[-4], the instruction of the program exactly if that node holds it |
| Breakpoints.Function.Break | erts/emulator/beam/beam_bp.h:88-113 | one breakpoint instruction moves pc[-4] to its node and yields the next instruction |
| Breakpoints.Function.Pass | erts/emulator/beam/beam_emu.c:4248-4270 | one call visits the nodes behind pc[-4] up to a debug breakpoint once and in order and counts them; the next call reads the ring turned by as many nodes; pc[-4] is where it was if and only if that is none or all |
| Breakpoints.Turned | erts/emulator/beam/beam_bp.h:88-113 | whatever node pc[-4] is left at, the ring read from there is well formed |
| Breakpoints.Function.TwoCalls | erts/emulator/beam/beam_emu.c:4738-4749 | with a debug breakpoint behind other nodes only every other call reaches it; the second call runs one breakpoint instruction on the debug node and then the program |
| Breakpoints.CountThenDebug | erts/emulator/beam/beam_bp.c:712-727 | a concrete case from a function without breakpoints: set count, set debug, two calls, a third one, clear all; the debug breakpoint stays in pc[0] without a node |
| Catches.MovedKeeps | erts/emulator/beam/beam_catches.c:42-66 | moving a slot between lists keeps all lists disjoint, acyclic and covering the slots below the high mark |
| Catches.CatchTable.Cons | erts/emulator/beam/beam_catches.c:42-66 | a slot that no module uses is taken; live slots keep their code pointers; fails exactly when the table is full of live slots |
| Catches.CatchTable.Delmod | erts/emulator/beam/beam_catches.c:78-102 | exactly the module's list goes to the free list; aborts exactly if for one of its catches the signed difference of code pointer and code start is not below the code size |
| CodeIndex.CodeTable.FindFunction | erts/emulator/beam/beam_load.c:4535-4568 | whatever the cached start, the result is the function that contains pc, or none if none does |
| CodeIndex.FindsOne | erts/emulator/beam/beam_load.c:4535-4568 | at most one function contains an address |
| CodeIndex.CodeTable.InsertRange | erts/emulator/beam/beam_load.c:815-824 | shifting from the end inserts at the right place |
| CodeIndex.CodeTable.Load | erts/emulator/beam/beam_load.c:778-826 | refused exactly if current and old code exist; else the table gains the area, current code becomes old and the total grows by its size |
| CodeIndex.CodeTable.MakeCurrentOld | erts/emulator/beam/beam_bif_load.c:641-661 | what becomes of current and old code before a load |
| CodeIndex.CodeTable.Delete | erts/emulator/beam/beam_bif_load.c:208-245 | current code becomes old; nothing else changes |
| CodeIndex.CodeTable.Purge | erts/emulator/beam/beam_bif_load.c:515-573 | exactly the old code leaves the table and the total |
| NodeMonitors.Monitors.Insert | erts/emulator/beam/dist.c:2952-3036 | one subscription more for the process and options, none other changes, also when the 16-bit count wraps; the result is true exactly if the process held one with these options before |
| NodeMonitors.Monitors.LinkAfter | erts/emulator/beam/dist.c:2997-3018 | a new entry stays with the entries of its process |
| NodeMonitors.Monitors.Remove | erts/emulator/beam/dist.c:3038-3082 | the subscriptions asked for are gone, all others stay, and the result tells whether there were any |
| NodeMonitors.Monitors.SendMsgs | erts/emulator/beam/dist.c:2872-2950 | a node event sends, per process and options, as many messages as there are subscriptions if these match the node type, and none otherwise |
| NodeMonitors.FirstDrop | erts/emulator/beam/dist.c:3072-3075 | after an entry is freed each process still points to its first entry |

## Left out

- BigParse.DoListToInteger: states the value for runs of at most 9336884 digits only; beyond that the
  buffer is too small (BigParse.BufferTooSmall) and the model does not follow the code.
- BigParse.PrintThenParse: states the round trip for numbers of at most 9336884 decimal digits, for the same reason.
- ShiftInstr.ShiftInteger: right shifts of bignums by a digit count that the int truncates so that more than four
  digits are left are excluded, because the reserved heap does not hold the result (ShiftInstr.RoomEnough; five
  digits fit unless rounding adds one).
- ShiftInstr.BigShift: excludes the same shifts.
- SizeObject.SizeOf: funs and sub-binaries are not words of the model.
- SizeObject.EnterBoxed: the cases of the switch for funs and sub-binaries are left out.
- CopyStruct.CopyBoxed: the cases for reference-counted binaries, sub-binaries, funs and externals are left out.
- Select.Lower: float keys and the merging of a preceding type test are left out.
- Breakpoints.Function.Set: match specifications and tracer processes of trace breakpoints are not modelled, and
  setting a debug breakpoint a second time while pc[-4] stands before the first one is excluded.
- Breakpoints.Function.Clear: clearing debug breakpoints in a function left with one in pc[0] and no node is excluded.
- Labels.Loader.ResolveLabels: what the code array holds after a failed load is only promised outside recorded references.
- CodeIndex.CodeTable.Load: that new code does not overlap loaded code is the allocator's promise and is required.
- big.c: `I_add`, `D_rem`, bit operations on vectors, conversion to and from double and bytes, and the
  configuration with a double-digit machine type.
- copy.c: reference-counted binaries, sub-binaries, funs and external identifiers with their off-heap lists, and the
  lazy copy of the shared-heap build. Heap binaries, floats, bignums and local references are flat objects of the model.
- dist.c: the process-exit side of links and monitors, encoding and the atom cache itself (finalising is an
  abstract, ordered event), reductions (preemption may happen anywhere the code tests for it), and a driver that
  leaves the busy state again inside the send in which it entered it.
- beam_load.c: operand packing, the transformation engine, float selects, and merging of a preceding type test into a select.
- Table sizes that only the allocator bounds (code buffer, range table) and the wrap of the connection counter.
- Breakpoints in more than one function, native code, and the search of all modules for functions to break in.
