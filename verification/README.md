# A model of firesnek

firesnek compiles Python to C. The emitted C calls a runtime library in which every value is one
64-bit word (a "duck"): a NaN-boxed tag with a payload, where heap objects are named by an arena id
and an offset. This project models the parts of the compiler and the runtime whose correctness is
not obvious from reading one function, as the code is written, and proves what they promise.
Where the code falls short of that, the exact condition under which it is right is proved.

| file | content |
|---|---|
| `Bits.dfy` | two's complement of any width by recursion; the 64-bit operators of C, specified bit by bit |
| `Duckbox.dfy` | the NaN-boxed word: type dispatch, packers and unpackers |
| `Arithmetic.dfy` | the operators of the library on integer and Boolean words |
| `Python.dfy` | Python's integer and Boolean expressions, with calls that leave a trace |
| `CLang.dfy` | the emitted C expressions and their evaluation on words, with either argument of a call first |
| `Transpiler.dfy`, `Decimals.dfy` | the expression emitter and its counter of temporaries; decimal numerals, and what they mean |
| `Preservation.dfy`, `EndToEnd.dfy` | emitted C means what the Python means |
| `Interleaving.dfy` | the same in small steps, with the evaluations of two arguments interleaved at will |
| `Literals.dfy` | string constants: escaping, and reading the result as a C string literal |
| `Ranges.dfy` | the range stepper and the emitted `for` loop |
| `Sequences.dfy`, `Bytes.dfy`, `Memory.dfy` | sequences, bytes in words, and the list and string blocks in the memory of an arena |
| `Arena.dfy`, `Growth.dfy`, `IntLists.dfy`, `Strings.dfy` | one arena, its bump allocator, its growable lists and its strings |
| `Registry.dfy` | many arenas and their handles |
| `Programs.dfy`, `Budgets.dfy`, `Runs.dfy` | programs on lists: what they mean on sequences, where they end, which ones fit, and their runs on the registry |
| `Rendering.dfy`, `Stringify.dfy` | `str()` of nested lists: the text, and the two passes that make it in arena memory |
| `HashTable.dfy` | what the insertion-ordered hash map holds, its links as numbers, right or wrong, and what calls make of them |
| `HashMap.dfy` | the hash map in memory, with its two chains |
| `Wrappers.dfy` | an option type |

## How the code is represented

- A word is an integer from 0 to 2^64 - 1. The packers are written with the masks and shifts of the
  source; lemmas turn them into sums of disjoint fields.
- A panic is `None`, `Raised`, `Panicked`, `Panic` or `Stuck`, and ends the operation. Division by zero
  and shift counts that C leaves undefined are `Undefined`, an increment that leaves `int64_t` is
  `Overflow`.
- The memory of an arena is a sequence of words that is replaced when `realloc` moves it. A list block
  is one metadata word and its elements, a string block one word for the length and then its bytes,
  eight to a word with the lowest first; the ghost map `blocks` says which lists and strings are live,
  and every write is on the memory and shown to keep all other blocks. The allocator counts words and
  its callers ask it for bytes, as in the source, so blocks are reserved eight times too large.
- The ghost field `top` of an arena is the number of words handed out. The 32-bit bumper is `top`, save
  in a full arena, of which all 2^32 words are handed out: there it is 0. What `Arenas.Arena.Alloc`
  does then is part of its contract; the list and string operations that allocate are described for
  arenas that are not full when they begin, the one that fills the last word included.
- A list is named by arena id and offset, and its cells are looked up again at each use. The source
  keeps raw pointers across an allocation in places (`list_resize`, `list_concat`, `list_mult`,
  `list_str`, `str_concat`, `str_mult`); those pointers dangle when `realloc` moves the memory, and the
  model does not have them. For all of these but `list_str` the contracts say exactly when the code
  is right as written: the arena that allocates keeps its `logCap`, which it does exactly when it has
  the room already (`Arenas.Arena.Stays`), or the operands are in other arenas.
- In a program two variables can name one list. A state is the list objects and, for each variable, the
  object it names; the words handed out by each arena and the capacity of each object are counted
  beside it (`Sizes`), and decide when a program stops on the arenas though not on sequences.
- In the hash map a `Node` object stands for an address. The bucket array holds one node per slot, for
  the inline first nodes. `HashMap.Valid` says that the nodes and links in memory are those of the
  field `table`, in which entries are linked by their numbers, rightly or not; `HashTables.Sound` says
  that all links are right. `AddDict` is modelled as written, on any such map: when it resizes, it
  links the new node behind the chain end it found before the resize.
- C does not fix the order in which the arguments of a call run, and lets the evaluations inside them
  interleave. `Preservation.Preserves` is about the two orders in which one argument runs as a whole
  before the other, `Interleaving.EveryRunPreserves` about every interleaving of small steps; both are
  for expressions in which at most one argument of each call makes calls itself (`OrderSafe`).
  `Preservation.OrderMatters` shows what happens otherwise.

- A definition that both sides of a contract use, such as that of an insertion for a list in memory and
  for Python's, or that of the digits of a number, has laws of its own that say what it is without its
  body: by positions, by reading back, bit by bit, or with the constants of the source written out.

## Where the code and its intent differ

- `-x` always emits the integer negation: right on INT words only (`EndToEnd.NegationNeedsInt`).
- A result of -2^50 packs to a "negative zero" that reads as 0: `&`, `^` and `~` reach it, `|` does not.
  On this word `if x` and `bool(x)` disagree.
- A NaN packs to a word that is dispatched as UINT; a UINT of 2^50 or more is misread by arithmetic.
- In an `and` / `or` with two operands, a second operand that mentions a variable named like the
  temporary of the first reads that temporary: `x and _bop0`, say, silently gives `x`
  (`Preservation.CaptureGivesFirst`).
- A new key that makes `AddDict` resize cannot be found afterwards, unless the entry it is linked
  behind hashes to the new bucket of the key and is not the first there
  (`HashTables.SurvivalIsExact`). Put again, a lost key is there twice (`HashMaps.RepeatKey`); a later
  resize links it again (`HashTables.FoundAfter`).
- An append or insert that meets a full list moves it, and only the variable it was called with is told.
  Another variable that names the list keeps a handle to the elements from before, with a capacity
  twice that of their block (`Arenas.Arena.LeftBehind`); Python's shared list is kept exactly as long
  as no append or insert meets a full list with a second name (`Programs.Stranded`).
- The `for` loop emitted for `range` tests `<` whatever the sign of the step, and its last increment can
  leave `int64_t` when the bounds are literals (`Ranges.LiteralLoopOverflows`).
- A repetition count is taken modulo 2^32, and so is the length of a repeated list. Where that length
  wraps and can still be allocated, as in `[a, b] * 2147483648`, the copies leave the block
  (`Memory.WrappedRepetition`).
- `len` next to a string literal counts characters where the runtime counts bytes.
- `insert` refuses an index equal to the length, and so every index of an empty list.
- An arena filled to its last word, 2^32, has a bumper of 0 and hands out live words again.

## Model

| member | source | states |
|---|---|---|
| `Duckbox.TypeCodeByFields` | src/runtime/duckbox.h:92-97 | The branch-free dispatcher computes, for every word, the code that a case split on sign, exponent and mantissa gives, and it is always one of the 19 types. |
| `Duckbox.UnpackPackI` | src/runtime/duckbox.h:102-188 | For every 64-bit signed i, the minimum included, the packed word is an INT and reads back as sign(i) * (abs(i) mod 2^50); it reads back as i exactly when abs(i) < 2^50. |
| `Duckbox.PackIInjective` | src/runtime/duckbox.h:102-106 | Two canonical integers have the same word exactly when they are equal. |
| `Duckbox.IntWordsArePacked` | src/runtime/duckbox.h:184-188 | The INT words are the packed canonical integers and one more, the negative zero. |
| `Duckbox.NegativeZero` | src/runtime/duckbox.h:102-106 | Packing gives the negative zero exactly for negative multiples of 2^50, and that word reads as 0. |
| `Duckbox.NegateNegates` | src/runtime/duckbox.h:207-209 | On any word, negation gives an INT whose value is the negated value read from the word. |
| `Duckbox.UnpackPackU` | src/runtime/duckbox.h:109-192 | An unsigned integer is packed as UINT and read back modulo 2^51. |
| `Duckbox.UIntReadAsInt` | src/runtime/duckbox.c:164-167 | Arithmetic, which reads a UINT word as an INT, sees its value exactly when that is below 2^50. |
| `Duckbox.UnpackPackB` | src/runtime/duckbox.h:172-202 | A packed Boolean is tagged BOOL and read back. |
| `Duckbox.PackNIsNone` | src/runtime/duckbox.h:177-179 | The None word is tagged NONE. |
| `Duckbox.PackFType` | src/runtime/duckbox.h:114-119 | A double is tagged FLOAT, unchanged, exactly when it is no NaN; a NaN becomes one particular UINT. |
| `Duckbox.NaNByFields` | src/runtime/duckbox.h:114-119 | A pattern is a NaN exactly when its exponent is all ones and its mantissa is not zero. |
| `Duckbox.RefRoundTrip` | src/runtime/duckbox.h:134-169 | For all 13 reference types, every arena id and every offset: the typed and the generic packer agree, and type, id and offset are recovered. |
| `Duckbox.RefTypes` | src/runtime/duckbox.h:57-77 | The reference types are all but doubles, None, NaN, Booleans and the two integer types. |
| `Duckbox.RefWord` | src/runtime/duckbox.h:134-156 | The word of a reference, for each of the 13 types: these upper 16 bits, then the arena, then the offset. |
| `Arithmetic.TruncLaw` | src/runtime/duckbox.c:222-223 | The modelled `/` and `%` satisfy the law of section 6.5.5 of C11. |
| `Arithmetic.FloorFromTrunc` | src/runtime/duckbox.c:222-223 | For all integers, truncating division corrected where the signs differ and the remainder is not zero is floor division, and likewise the remainder. |
| `Arithmetic.FloorDivAndMod` | src/runtime/duckbox.c:222-223 | On all canonical operands with a nonzero divisor, `//` and `%` give words of the q and r of Python's law (a = b*q + r, r zero or with the sign of b, abs(r) < abs(b)), both canonical. |
| `Python.FloorLawUnique` | src/runtime/duckbox.c:222-223 | Python's law determines quotient and remainder. |
| `Python.ComparisonMeans` | src/compiler/transpiler.py:129-133 | In Python, each of the six comparisons of two operands gives the Boolean of that comparison of their numbers, with True and False as 1 and 0. |
| `Python.ArithmeticMeans` | src/compiler/transpiler.py:87-92 | In Python, sums, differences and products are those of the numbers, and division by zero and negative shift counts raise. |
| `Python.DivisionMeans` | src/compiler/transpiler.py:87-92 | In Python, `//` and `%` give q and r with a = b*q + r and r between 0 and b. |
| `Python.ShiftsMean` | src/compiler/transpiler.py:87-92 | In Python, shifts multiply by a power of two, or give the greatest integer not above the quotient. |
| `Python.BitwiseMeans` | src/compiler/transpiler.py:87-92 | In Python, each bit of `&`, `\|` and `^` is that of its table, and two Booleans give a Boolean. |
| `Python.UnaryMeans` | src/compiler/transpiler.py:98-113 | In Python, the four unary operators are the negative, the number, the negative less one, and whether the number is zero. |
| `Python.BoolOpMeans` | src/compiler/transpiler.py:117-127 | In Python, `x or ..` is x where x is not zero and else what comes behind, and `x and ..` the other way round. |
| `Arithmetic.BitwiseExact` | src/runtime/duckbox.c:235-253 | On canonical words, the and, or and exclusive or decode to Python's answer exactly when that is not -2^50; then they decode to 0. |
| `Bits.BitAtIsDivMod` | src/runtime/duckbox.c:251-253 | The bits by which the operators are specified are those of the two's complement: bit k of x is the parity of the floor of x / 2^k, also for negative x. |
| `Bits.BitwiseTable` | src/runtime/duckbox.c:251-253 | Bit by bit, what and, or and exclusive or are. |
| `Arithmetic.OrStaysCanonical` | src/runtime/duckbox.c:252 | The or of canonical integers is never -2^50. |
| `Arithmetic.AndLeavesTheRange` | src/runtime/duckbox.c:251 | The and of 1 - 2^50 and -2 is -2^50. |
| `Arithmetic.XorLeavesTheRange` | src/runtime/duckbox.c:253 | The exclusive or of 2^50 - 1 and -1 is -2^50. |
| `Arithmetic.InvertExact` | src/runtime/duckbox.c:268-274 | Inversion is -a - 1 on every canonical operand, BOOL words included, and decodes to that exactly when a is not 2^50 - 1. |
| `Arithmetic.BinaryExact` | src/runtime/duckbox.c:153-255 | Each of + - * // % & \| ^ << >> on INT or BOOL words gives the word of Python's unbounded result, when that is canonical and C defines the shift. |
| `Arithmetic.BinaryOfWords` | src/runtime/duckbox.c:153-256 | On the words of integers, of unsigned integers below 2^50, of Booleans and of None (`Carries`), an operator depends on the numbers alone: it is its own C expression of them. |
| `Arithmetic.ComparisonOfWords` | src/runtime/duckbox.c:278-304 | Each of the six comparisons of two such words gives the BOOL word of that comparison of the numbers. |
| `Arithmetic.CompareExact` | src/runtime/duckbox.c:278-304 | And that is Python's. |
| `Arithmetic.SumsOfWords` | src/runtime/duckbox.c:173-194 | Sum and difference of any two such words are the packed sum and difference. |
| `Arithmetic.ProductOfWords` | src/runtime/duckbox.c:196-210 | The product is the packed product exactly where that is an `int64_t`. |
| `Arithmetic.QuotientsOfWords` | src/runtime/duckbox.c:222-223 | `//` and `%` give packed q and r with a = b*q + r and r between 0 and b, for any two such words, the divisor not zero. |
| `Arithmetic.DivisionByZero` | src/runtime/duckbox.c:222-223 | With divisor zero both are undefined in C. |
| `Arithmetic.ShiftsOfWords` | src/runtime/duckbox.c:254-255 | `<<` gives the packed product with the power of two exactly where that is neither negative nor above `int64_t`, and `>>` the greatest integer not above the quotient. |
| `Arithmetic.WideShift` | src/runtime/duckbox.c:254-255 | Shift counts that are not 0 to 63 are undefined in C. |
| `Arithmetic.BitsOfWords` | src/runtime/duckbox.c:251-253 | `&`, `\|` and `^` of two such words pack the integer with these bits. |
| `Arithmetic.AddDispatches` | src/runtime/duckbox.c:188-193 | `+` of two references goes to concatenation for two strings and for two lists, and panics otherwise. |
| `Arithmetic.MultDispatches` | src/runtime/duckbox.c:211-216 | `*` of a reference and a number, in either order, goes to repetition for strings and lists, and panics otherwise. |
| `Arithmetic.ReferencesRefused` | src/runtime/duckbox.c:153-296 | All other operators and the comparisons panic on a reference and a number. |
| `Arithmetic.DoublesDispatch` | src/runtime/duckbox.c:153-296 | With a double, arithmetic and comparisons take the float branch and bitwise operators panic. |
| `Arithmetic.TruthAgreesWithCast` | src/runtime/duckbox.c:19-131 | On INT words, truth in a condition and the cast to bool agree exactly when the word is not the negative zero. |
| `Arithmetic.CastsOfInteger` | src/runtime/duckbox.c:18-147 | The word of an integer is cast to itself and to whether it is not zero, which is also its truth. |
| `Arithmetic.CastsOfConstants` | src/runtime/duckbox.c:18-147 | BOOL words are cast to 0 or 1 and to themselves, None to 0 and to false. |
| `Arithmetic.CastsOfUInt` | src/runtime/duckbox.c:18-147 | UINT words are cast by their value modulo 2^51. |
| `Arithmetic.CastsOfReference` | src/runtime/duckbox.c:18-147 | References are true and cannot be cast, but for a big integer to an integer. |
| `Arithmetic.CastsOfNaN` | src/runtime/duckbox.c:18-147 | A NaN word is false and not cast to an integer. |
| `Arithmetic.TruthOfDouble` | src/runtime/duckbox.c:21 | A double is true exactly when its pattern is not one of the two zeros. |
| `Arithmetic.AbsExact` | src/runtime/duckbox.c:258-265 | Clearing the sign bit gives the word of the absolute value. |
| `Arithmetic.AbsOfOthers` | src/runtime/duckbox.c:258-265 | BOOL words stay, UINT words lose bit 50, doubles their sign; None panics. |
| `Arithmetic.AbsOfReference` | src/runtime/duckbox.c:258-265 | References panic. |
| `Transpiler.Emitter.ExprStr` | src/compiler/transpiler.py:65-139 | The emitter as it runs, with its counter as state, produces the tree and the counter that the function `Emit` gives. |
| `Transpiler.Emitter.FoldOperands` | src/compiler/transpiler.py:117-127 | The loop that folds operands from the right into nested temporaries produces the tree of the recursive definition. |
| `Transpiler.TempsAreCounted` | src/compiler/transpiler.py:117-127 | An expression emitted from counter n to n' declares exactly the temporaries numbered n to n' - 1, each once, in order. |
| `Transpiler.TempsAreDistinct` | src/compiler/transpiler.py:117-127 | No two temporaries of an expression have the same name. |
| `Transpiler.TempNameReads` | src/compiler/transpiler.py:121 | A temporary is named `_bop` and the decimal number of the counter. |
| `Preservation.Preserves` | src/compiler/transpiler.py:65-139 | For every library that is right on canonical numbers, every expression, environment, world and counter, and whichever argument of each call runs first: C gives the word of Python's value and the same trace of calls. |
| `Interleaving.StepsEnd` | src/compiler/transpiler.py:87-92 | Evaluated in small steps, with any argument of any operator taking the next step, an expression ends after at most as many steps as it has leaves and twice as many as it has operators. |
| `Interleaving.StepPreserves` | src/compiler/transpiler.py:87-92 | A step, whichever argument takes it, keeps the value and the trace that the expression has when left arguments run first, as long as at most one argument of each operator makes calls. |
| `Interleaving.EveryRunPreserves` | src/compiler/transpiler.py:65-139 | However the steps of the arguments are interleaved, the run of the emitted expression ends in the word of Python's value, after Python's calls in Python's order. |
| `Preservation.PreservesBool` | src/compiler/transpiler.py:117-127 | The same for `and` / `or` with any number of operands and any nesting: the value of the deciding operand, the same left-to-right trace, nothing run that Python does not run. |
| `Preservation.PreservesArgs` | src/compiler/transpiler.py:87-92 | Both arguments of an operator get the words of their operands and the trace is Python's, whichever argument C runs first as a whole. |
| `Preservation.PreservesUnary` | src/compiler/transpiler.py:98-113 | The same for `-`, `not`, `~` and `+`, with the folding of negated literals. |
| `Preservation.CapturedName` | src/compiler/transpiler.py:121-126 | A two-operand `and` / `or` whose first operand is a variable, and whose second captures no temporary, has a value in C exactly when the variable is not named like its own temporary. |
| `Preservation.CapturedOperand` | src/compiler/transpiler.py:121-126 | Where the second operand mentions a variable named like that temporary, C evaluates the expression as Python would if the variable had the value of the first operand. |
| `Preservation.CaptureGivesFirst` | src/compiler/transpiler.py:121-126 | `x and y` and `x or y`, with `y` named like the temporary, always give `x` in C; Python gives `x` exactly when `x` decides or the two are the same. |
| `Preservation.OrderMatters` | src/compiler/transpiler.py:87-92 | With a call on both sides and the right one run first, the trace is Python's exactly when both calls are of the same function. |
| `EndToEnd.DuckRuntimeImplements` | src/runtime/duckbox.c:153-305 | The real library is right on canonical numbers: truth, operators, comparisons, negation and inversion, for INT and BOOL words. |
| `EndToEnd.CompiledMeansPython` | src/compiler/transpiler.py:65-139 | The emitted C on 64-bit words yields a word that decodes to the number Python computes, tagged BOOL or INT, after the same calls, whenever all intermediate values lie strictly within 2^50, divisors are not zero and `-` meets no BOOL word. |
| `EndToEnd.AnExample` | src/compiler/transpiler.py:65-139 | `x + 3 < 10` emitted and run on the packed k gives the packed Boolean of k < 7, in every order. |
| `EndToEnd.CompiledRunsMeanPython` | src/compiler/transpiler.py:65-139 | So does every run of it in small steps, however the evaluations of arguments are interleaved. |
| `EndToEnd.NegationNeedsInt` | src/compiler/transpiler.py:107 | The emitted negation gives the word of -n exactly when the operand is not a BOOL word. |
| `Literals.EscapeIsCharMap` | src/compiler/transpiler.py:72-75 | For every string, the five whole-string replacements are one map over its characters. |
| `Literals.LiteralRoundTrip` | src/compiler/transpiler.py:72-75 | Read as a C string literal, the emitted text gives the UTF-8 form of the Python string and ends at the quote the compiler wrote, whatever follows, for every string if the C compiler accepts a NUL in a literal, and otherwise exactly for strings without one. |
| `Literals.EncodedDecodes` | src/compiler/transpiler.py:72-75 | The UTF-8 form of every string, decoded by lead bytes and six bits for each following byte, gives its characters. |
| `Literals.Utf8Decodes` | src/compiler/transpiler.py:72-75 | And has the least number of bytes for each character. |
| `Literals.LiteralDecodes` | src/compiler/transpiler.py:72-75 | So what C reads from the emitted literal decodes to the characters of the Python string. |
| `Literals.EscapeOfOne` | src/compiler/transpiler.py:72-75 | The C reader behind these, on the simple escapes of section 6.4.4.4 of C11. |
| `Literals.OctalEscape` | src/compiler/transpiler.py:72-75 | The same on three octal digits. |
| `Literals.ShortOctalEscape` | src/compiler/transpiler.py:72-75 | The same on one octal digit before another character. |
| `Literals.HexEscape` | src/compiler/transpiler.py:72-75 | The same on two hexadecimal digits. |
| `Literals.NotInLiterals` | src/compiler/transpiler.py:72-75 | The reader accepts no line break in a literal, escaped or not, and no literal without a closing quote. |
| `Literals.EncodedLength` | src/compiler/transpiler.py:75 | The UTF-8 form is never shorter than the string, and as long exactly when the string is ASCII. |
| `Literals.StoredIsPrefix` | src/compiler/transpiler.py:75 | With the length the compiler passes, the runtime keeps that many bytes from the front. |
| `Literals.StoredIsWhole` | src/compiler/transpiler.py:75 | With the length the compiler passes, the runtime keeps the whole string exactly when it is ASCII. |
| `Literals.AsciiIsItself` | src/compiler/transpiler.py:72-75 | The stored bytes of an ASCII string are its characters. |
| `Ranges.RangeLaw` | src/runtime/objects/generator.c:16-20 | The sequence the loops are compared with is Python's range: element k is start + k*step, and k is in range exactly while that lies before stop. |
| `Ranges.RangeElements` | src/runtime/objects/generator.c:16-20 | The same with the bounds written out: start + step*k is element k as long as it is below stop, or above it for a negative step. |
| `Ranges.Count` | src/runtime/objects/generator.c:6-14 | One call: no change and the end for an empty or misdirected range, otherwise one step and whether the new value lies before stop. |
| `Ranges.Drive` | src/runtime/objects/generator.c:16-20 | Driven from one step before the start, the stepper terminates and yields exactly Python's range for every nonzero step of either sign, and nothing for step 0. |
| `Ranges.ForLoop` | src/compiler/transpiler.py:459-465 | The emitted loop on `int64_t`, watched for some number of turns, has ended, still runs or has overflowed as its recursive definition says, and has seen the same values. |
| `Ranges.OneTurn` | src/compiler/transpiler.py:459-465 | One turn of that definition: it ends at or behind stop, overflows where the sum is no `int64_t`, and goes on otherwise. |
| `Ranges.ForLoopIsRange` | src/compiler/transpiler.py:459-465 | The emitted loop ends and sees exactly Python's range if and only if start equals stop, or the step is positive and the increment behind the last value is still an `int64_t`. |
| `Ranges.CanonicalLoop` | src/compiler/transpiler.py:459-465 | That increment is an `int64_t` whenever start, stop and step come out of ducks. |
| `Ranges.LiteralLoopOverflows` | src/compiler/transpiler.py:459-465 | `range(0, 2^63 - 1, 2^62)`, whose bounds are printed into the loop, has two values, and the loop overflows behind them. |
| `Ranges.RunsAway` | src/compiler/transpiler.py:465 | With a step that is not positive and start below stop, the loop has not ended after any number of turns. |
| `Ranges.LoopVariable` | src/compiler/transpiler.py:467 | With canonical bounds the body sees the exact value of each element through its duck. |
| `Sequences.RepeatAt` | src/runtime/objects/list.c:101-104 | Element k of a repeated list is element k modulo its length. |
| `Sequences.RepeatIsPython` | src/runtime/objects/list.c:96-102 | Repeating a list modulo 2^32 times is Python's repetition exactly for an empty list, a count from 0 to 2^32 - 1, or a negative multiple of 2^32. |
| `Sequences.InsertedAt` | src/runtime/objects/list.c:129-146 | After an insertion the value is at the normalised index, -1 being that of the last element, and the others keep their order around it. |
| `Sequences.ReplacedAt` | src/runtime/objects/list.c:54-66 | After an assignment exactly the element at the normalised index has changed. |
| `Sequences.LocatedIsFirst` | src/runtime/objects/list.c:166-193 | A search gives the first match between the normalised bounds, -1 where there is none, and an error where they are reversed. |
| `Sequences.LocatedNeedsBounds` | src/runtime/objects/list.c:166-193 | And an error for bounds outside -len to len. |
| `Sequences.LastOfAppended` | src/runtime/objects/list.c:118-126 | A pop gives back what was appended last, and the list before. |
| `Sequences.RemovedIsFirst` | src/runtime/objects/list.c:148-159 | A removal deletes the first match and keeps what is before and behind it. |
| `Memory.MultEscapes` | src/runtime/objects/list.c:97-104 | For every length that a list in an arena can have and every count: where the product wraps around 2^32 to a length that can be allocated, some copy starts behind the block. |
| `Memory.EscapingCopy` | src/runtime/objects/list.c:101-104 | What leaving the block means: a copy of the loop whose offset, as `unsigned`, is not within the block. |
| `Memory.WrappedRepetition` | src/runtime/objects/list.c:97-104 | A list of two elements, repeated 2^31 times, is asked for with length 0 and its copies leave the block, although the count is kept. |
| `Memory.CapForIsLeast` | src/runtime/objects/list.c:18-19 | The first capacity holds the length, is 32 times a power of two, and is less than twice the length unless it is 32. |
| `Memory.SizeOfList` | src/runtime/objects/list.c:12-30 | Exactly: the capacity is 32 * 2^k with the least k that is enough, and the block 8 + 8 times that. |
| `Memory.MetaLayout` | src/runtime/objects/ref_types.h:33-36 | The metadata word has the length in its lower and the capacity in its upper half. |
| `Memory.MultIsUnsigned` | src/runtime/objects/list.c:96-97 | The length of a repetition is the product with the count as `uint32_t`, modulo 2^32, and wraps exactly when the product does not fit. |
| `Memory.CapBound` | src/runtime/arena.c:94-100 | A list whose block fits an arena has a capacity of at most 2^28. |
| `Arenas.GrownLogIsLeast` | src/runtime/arena.c:92-97 | The growth loop finds the least exponent that makes room, and 32 is too small only when 2^32 words are. |
| `Arenas.GrownLogStays` | src/runtime/arena.c:92-97 | The memory is not grown, and so not moved, exactly when the bumper and the size fit it. |
| `Arenas.Arena.Alloc` | src/runtime/arena.c:91-107 | Returns the old bumper, fails exactly when it and the size exceed 2^32, and keeps old words across growth. The words are apart from every live block, up to the very last one; in an arena that is full already they start at 0, and overlap exactly the live blocks that begin among them. |
| `Arenas.Arena.MemoryResize` | src/runtime/arena.c:81-88 | Growth keeps every live block. |
| `Arenas.Arena.ListCreate` | src/runtime/objects/list.c:12-30 | A fresh list of this length with the initial elements, everything else unchanged; fails exactly above 2^31 elements or without room. |
| `Arenas.Arena.ListResize` | src/runtime/objects/list.c:71-80 | The list moves, with its elements, to a new block of twice the capacity; all other lists stay. The old words keep the elements, under a capacity that is doubled there, too, and the raw pointer to them stays good exactly when the arena had the room already. |
| `Arenas.Arena.ListAppend` | src/runtime/objects/list.c:108-116 | The element goes last, in place or in a moved list; fails exactly when a full list cannot grow. |
| `Arenas.Arena.ListPop` | src/runtime/objects/list.c:118-126 | Removes and returns the last element; fails exactly on an empty list. |
| `Arenas.Arena.ListInsert` | src/runtime/objects/list.c:129-146 | For every length and index: a splice at the normalised index, also when the list moves; fails exactly for an index of no element or without room. |
| `Arenas.Arena.ListRemove` | src/runtime/objects/list.c:148-159 | Deletes the first matching word only; fails exactly when there is none. |
| `Arenas.Arena.ListFind` | src/runtime/objects/list.c:166-193 | The first match between the normalised bounds, or -1; fails exactly for bounds out of range or reversed. |
| `Arenas.Arena.ListReverse` | src/runtime/objects/list.c:195-205 | The two-pointer loop reverses lists of every length, 0 and 1 included. |
| `Arenas.Arena.ListIndex` | src/runtime/objects/list.c:40-52 | The element at the normalised index, or a failure exactly outside -len to len - 1. |
| `Arenas.Arena.ListSet` | src/runtime/objects/list.c:54-66 | Assignment through the index pointer changes that element only. |
| `Arenas.Arena.ListClear` | src/runtime/objects/list.c:161-164 | The list is empty and keeps its capacity. |
| `Arenas.Arena.CopyTimes` | src/runtime/objects/list.c:101-104 | In a list of the true length, the copying loop leaves that many copies and touches nothing else. |
| `Growth.CapacityInvariant` | src/runtime/objects/list.c:71-80 | In every valid state a list's capacity is 32*2^k, at least its length and at most 2^28, so doubling never wraps and the size guard of the doubling never fires. |
| `Growth.UnitsInTotal` | src/runtime/objects/list.c:71-80 | The blocks of a list that grew to cap = 32*2^k took 8(k+1) + 16*cap - 256 arena units. |
| `Growth.CapForNext` | src/runtime/objects/list.c:108-113 | One more element doubles the capacity exactly when the list is full. |
| `Growth.FewCopies` | src/runtime/objects/list.c:71-80 | The capacity reached by n appends is less than 2n + 32. |
| `Growth.AppendAll` | src/runtime/objects/list.c:108-116 | n appends to a new list leave exactly the n elements, copy cap - 32 elements, fewer than 2n, and use exactly those units; all other lists stay. |
| `IntLists.FindIsNumeric` | src/runtime/objects/list.c:188-192 | On canonical integers, the bitwise search finds the first numerically equal element. |
| `IntLists.RemoveIsNumeric` | src/runtime/objects/list.c:148-159 | On canonical integers, removal succeeds exactly when the number is in the list, and deletes its first occurrence. |
| `Registries.Registry.constructor` | src/runtime/arena.c:9-22 | The zeroed registry is valid and has no live arena. |
| `Registries.Registry.GetFreeIndex` | src/runtime/arena.c:41-59 | Finds the lowest clear bit of the first word, cyclically from the cursor, that has one, wherever the cursor stands; fails exactly when every slot is live. |
| `Registries.Registry.ArenaCreate` | src/runtime/arena.c:61-79 | Of the slots that are not live, the one that the scan from the cursor word meets first, lowest first in a word, becomes an empty arena with that id, and no other arena changes; fails exactly when every slot is live. |
| `Registries.StepsGoUp` | src/runtime/arena.c:41-53 | The scan goes up from the cursor word, and from word 0 on behind the last one. |
| `Registries.Registry.ArenaFree` | src/runtime/arena.c:118-127 | The slot is free again and exactly the lists of that arena are gone. |
| `Registries.Registry.ArenaClear` | src/runtime/arena.c:130-136 | Exactly the lists of that arena are gone; the slot stays in use. |
| `Registries.Registry.HandlesNameLists` | src/runtime/arena.h:34-43 | The duck of a list gives back its arena and offset, so two live lists never have the same duck. |
| `Registries.Registry.ListsAreApart` | src/runtime/arena.c:91-107 | In every valid state, two live lists of one arena have no word in common. |
| `Registries.Registry.ListAppend` | src/runtime/objects/list.c:108-116 | Over all arenas: exactly the one list changes, and its handle changes exactly when it was full; then the old handle names no list any more, and the words there still hold the old elements. |
| `Registries.Registry.ListInsert` | src/runtime/objects/list.c:129-146 | Likewise for insertion, with the exact condition of failure. |
| `Registries.Registry.ListConcat` | src/runtime/objects/list.c:82-92 | A new list with the elements of both, in an arena that may hold either operand and may grow; every old handle reads what it read before. The raw pointers to operands in that arena are good exactly when it had the room already, other arenas are not touched. |
| `Registries.Registry.ListMult` | src/runtime/objects/list.c:94-106 | Panics exactly when the arena has no room for the wrapped length; otherwise the copies leave the block when the product wraps, and when it does not there is a new list with the elements repeated (count modulo 2^32), and every old handle reads as before. The raw pointer to an operand in that arena is good exactly when it had the room already. |
| `Registries.Registry.ListMultIsPython` | src/runtime/objects/list.c:94-106 | The new list is Python's repetition, or the code panics, exactly when there is no room for the wrapped length, or the product does not wrap and the count is kept; when the model stops, some copy of the code is outside the block. |
| `Registries.Registry.ListSet` | src/runtime/objects/list.c:54-66 | Over all arenas, exactly the one element changes, or the index is refused. |
| `Registries.Registry.ListRemove` | src/runtime/objects/list.c:148-159 | Over all arenas, exactly the one list loses the first match. |
| `Registries.Registry.ListReverse` | src/runtime/objects/list.c:195-205 | Over all arenas, exactly the one list is reversed. |
| `Runs.Program.constructor` | src/runtime/arena.c:9-22 | A program starts with no variables on any valid registry, with arenas and lists in it that it does not name, such as that of the character table. |
| `Runs.Program.Step` | src/runtime/objects/list.c:12-205 | One operation, on any state: its outcome is the one that the sequences, the words handed out and the capacities determine (`Programs.Fate`): excluded, where it names what the program has not, asks a full arena for words, moves a list that has a second name or repeats a list by a count or to a length that is not kept; else a panic exactly where there is no free arena slot or no room; else an error exactly where it is one on sequences; else done. What is done changes the sequences as Python does, for all names of a list, and the sizes as computed. |
| `Runs.Program.Run` | src/runtime/objects/list.c:12-205 | Every program on lists, on any registry: it ends with the outcome, at the operation, in the state and with the sizes that the computation on sequences determines (`Programs.Ends`). The state is the one that the operations before have on plain sequences, in every variable and in all that was read; a run is done exactly when every operation is, and the operation that stops any other run is named with its fate. |
| `Programs.IndexingMeans` | src/runtime/objects/list.c:40-146 | On sequences, what insertion, assignment and indexing do at the position of the index, for every name of the list. |
| `Programs.BadIndexRaises` | src/runtime/objects/list.c:40-146 | And that they are errors for any other index. |
| `Programs.ChangingMeans` | src/runtime/objects/list.c:108-205 | What appending, reversing and clearing do to every name of the list, and to nothing else. |
| `Programs.RemovingMeans` | src/runtime/objects/list.c:118-159 | What popping and removing do, with the word that a pop reads. |
| `Programs.FindingMeans` | src/runtime/objects/list.c:166-193 | What a search reads, and what a second name is. |
| `Programs.MakingMeans` | src/runtime/objects/list.c:12-106 | Creation, concatenation and repetition make a list of its own in the arena and change no other. |
| `Programs.ArenasMean` | src/runtime/arena.c:61-136 | Making, clearing and freeing an arena, variable by variable. |
| `Programs.EndsIsRunOn` | src/runtime/objects/list.c:12-205 | The computed end of a run: the state there is that of Python's sequences, the outcome is the fate of the next operation, and where it is an error, the program is an error on sequences. |
| `Budgets.Finishes` | src/runtime/arena.c:91-107 | From any state whose charges are paid, a program that means something on sequences, repeats by counts that are kept, grows lists with one name only, has the arena slots and charges each arena less than 2^32 words (264 for a list, 34 for an element put in) is done. |
| `Budgets.FinishesFromStart` | src/runtime/arena.c:91-107 | So is such a program from the start. |
| `Runs.Execute` | src/runtime/objects/list.c:12-205 | Such a program, run on any valid registry, leaves in its variables what it computes on sequences. |
| `Rendering.ScalarFits` | src/runtime/duckbox.c:51-79 | No scalar text is as long as the 64-byte buffer. |
| `Decimals.DigitsReadBack` | src/runtime/duckbox.c:57-58 | The numeral of n consists of digits, reads back as n from left to right, and begins with a zero only for 0. |
| `Rendering.TextOfInteger` | src/runtime/duckbox.c:57 | The text of a packed integer reads back as that integer, with a minus exactly when it is negative. |
| `Rendering.TextOfUnsigned` | src/runtime/duckbox.c:58 | The text of a packed unsigned integer reads back as its value modulo 2^51. |
| `Rendering.TextOfConstants` | src/runtime/duckbox.c:59-61 | The texts of the packed Booleans and of None. |
| `Rendering.TextOfDouble` | src/runtime/duckbox.c:55-62 | A double has the text that `%g` gives, and a NaN word is "NaN". |
| `Rendering.TextOfReference` | src/runtime/duckbox.c:49-76 | A string is its own text, and every other reference but a list has a fixed one. |
| `Rendering.TextOfList` | src/runtime/objects/list.c:209-246 | The text of a list is what is between the brackets. |
| `Rendering.TextOfOneMore` | src/runtime/objects/list.c:231-242 | Each further element puts a comma, a space and its text there, in single quotes if it is a string. |
| `Rendering.NeedIsExact` | src/runtime/objects/list.c:209-246 | Rendering a nested list allocates as long as the sum of all the strings it makes, inner lists and numbers included, fits the arena, and fails exactly when it does not, even if it happens in the middle. |
| `Strings.StrNew` | src/runtime/objects/string.c:10-28 | A string block in arena memory with this content, with a NUL behind it unless it is empty, all other blocks unchanged; fails exactly when the arena cannot hold it. |
| `Strings.SizeOfString` | src/runtime/objects/string.c:17-20 | The exact size that is asked for: 9 and 32 * 2^k, with the least k that is enough. |
| `Bytes.ByteIsShift` | src/runtime/objects/string.c:30-32 | The byte that the model reads at a place in a word is what a little-endian machine has at that address. |
| `Bytes.CharIsByte` | src/runtime/objects/string.c:30-32 | Character i of a text is the byte at that address. |
| `Strings.PutText` | src/runtime/objects/string.c:66-67 | Bytes written into a string, eight to a word of the arena, change exactly those characters of that string and no other block. |
| `Strings.Terminate` | src/runtime/objects/string.c:82-83 | Afterwards there is a NUL behind the text, within its block, and no text has changed. |
| `Stringify.Runtime.Gather` | src/runtime/objects/list.c:217-229 | The first pass: one string per element with the element's text, and a total equal to the length of what the second pass writes. |
| `Stringify.Runtime.WriteAll` | src/runtime/objects/list.c:231-243 | The second pass fills its string exactly, never writes outside it and changes no other block. |
| `Stringify.Runtime.ListStr` | src/runtime/objects/list.c:209-246 | On every acyclic nesting of lists and strings in any arenas it terminates with the recursive rendering and a NUL behind it, and keeps all existing blocks; fails exactly when the arena cannot hold the strings it makes. |
| `Stringify.Str` | src/runtime/objects/list.c:209-246 | The same with the type dispatch and the handles of the runtime itself. |
| `Rendering.WrittenIsJoin` | src/runtime/objects/list.c:232-241 | Writing a separator behind all elements but the last is joining with separators. |
| `Rendering.TextByNesting` | src/runtime/objects/list.c:209-246 | The rendering is the same whatever ranking shows the nesting to be acyclic. |
| `Stringify.Runtime.StrConcat` | src/runtime/objects/string.c:59-69 | A new string with both texts and a NUL behind them, all blocks unchanged, with the exact condition of failure, and of the raw pointers to the operands being good. |
| `Stringify.Runtime.StrMult` | src/runtime/objects/string.c:71-84 | A new string with the text repeated and a NUL behind it, count modulo 2^32, all blocks unchanged, with the same two conditions. |
| `Stringify.Runtime.InitCharTable` | src/runtime/objects/string.c:38-45 | In an empty arena, fills the table with one one-character string per byte, and never fails. |
| `Stringify.CharTableStays` | src/runtime/objects/string.c:38-57 | Any operation that keeps the existing blocks leaves the table as it is, so that indexing stays right. |
| `Stringify.Runtime.StrIndex` | src/runtime/objects/string.c:47-57 | Yields a string of the one character at the normalised index, or fails exactly outside -len to len - 1. |
| `HashMaps.GetHashCode` | src/runtime/objects/hashmap.c:70-77 | The loop computes the polynomial of the bytes at 31 modulo 2^32, times the large prime, modulo 2^32. |
| `HashTables.HashIsPolynomial` | src/runtime/objects/hashmap.c:70-82 | The same of the hash that all results are about, and the bucket is that modulo the capacity. |
| `HashTables.PolynomialOfBoth` | src/runtime/objects/hashmap.c:73-75 | The polynomial of two keys one behind the other is that of the first times 31 to the length of the second, and that of the second. |
| `HashTables.LoadedIsThreeQuarters` | src/runtime/objects/hashmap.c:116 | The load check is met from three quarters on, where three times the capacity fits 32 bits. |
| `HashTables.HashCodeIsInjectiveOnRolling` | src/runtime/objects/hashmap.c:70-77 | The final multiplication adds no collision: two keys collide exactly when their rolling hashes do. |
| `HashTables.PutNew` | src/runtime/objects/hashmap.c:119-125 | On the abstract map, a new key goes last and nothing else changes. |
| `HashTables.PutKnown` | src/runtime/objects/hashmap.c:104-110 | On the abstract map, a known key keeps its place and only its value changes. |
| `HashTables.LastPutCounts` | src/runtime/objects/hashmap.c:104-110 | The entries a run on the abstract map leaves hold, for every key, the value put last. |
| `HashTables.RebuiltPath` | src/runtime/objects/hashmap.h:14-24 | In a sound table the chain of a bucket goes through exactly the entries that hash to it, in order. |
| `HashTables.RebuiltFinds` | src/runtime/objects/hashmap.h:14-24 | In a sound table every key that is there is found, and no other. |
| `HashTables.BehindRebuilds` | src/runtime/objects/hashmap.c:122 | Linking a new entry behind another one gives the sound table with it exactly when that one is the last of its bucket. |
| `HashTables.MoreRebuilds` | src/runtime/objects/hashmap.c:147-158 | Put in an empty bucket or behind the end of its chain, one more entry gives the sound table with it. |
| `HashTables.AddsWhenNotFound` | src/runtime/objects/hashmap.c:101-125 | On any table, sound or not: a call changes the value of the entry it finds, in place, or, when it finds none, puts a new entry last, even if the key is there. |
| `HashTables.FoundAfter` | src/runtime/objects/hashmap.c:81-128 | On any table, sound or not, exactly which keys are found after a call. Without a resize: those found before, and the new one. With one: every key that is there, lost before or not, but in the bucket of the entry that the new one is linked behind only those up to that entry and the new key; where it is linked into another bucket, or nowhere, the new key is not found. |
| `HashTables.AddToSound` | src/runtime/objects/hashmap.c:81-128 | On a sound table a call puts the entry as an insertion-ordered map does, and all old keys are found. The table stays sound, which is to say that the key itself is found, exactly when the call does not resize or the old chain end survives the resize. |
| `HashTables.SurvivalIsExact` | src/runtime/objects/hashmap.c:116-122 | On a sound table that is resized, the new key is found exactly when the last old entry of its bucket hashes to its new bucket and is not the first there. |
| `HashTables.LoneNodeIsLost` | src/runtime/objects/hashmap.c:116-122 | The second key of a bucket is always lost in a resize. |
| `HashTables.LostKeyExample` | src/runtime/objects/hashmap.c:116-122 | For the entries of the one-byte keys 0 to 23, the one-byte key 32 is new, finds the map loaded and its bucket occupied, and does not survive the resize. |
| `HashTables.RunIsSound` | src/runtime/objects/hashmap.c:81-128 | A run of calls on a new map that loses no key leaves a sound table with the entries of an insertion-ordered map. |
| `HashTables.FirstLoss` | src/runtime/objects/hashmap.c:116-122 | The first call of a run that loses its key is the first that resizes without its chain end surviving; the entries are still right, and all keys from before are found. |
| `HashTables.LossIsExact` | src/runtime/objects/hashmap.c:116-122 | Any call of any run, also behind lost keys, loses its key exactly when it resizes and the entry it is linked behind leads no search for the key to it. |
| `HashTables.RunIsMap` | src/runtime/objects/hashmap.c:81-128 | Any run, whatever it loses, leaves the entries of an insertion-ordered map exactly when no call has a key that is there and cannot be found. |
| `HashTables.FewPutsLoseNone` | src/runtime/objects/hashmap.c:115-117 | The first 24 calls on a new map never resize and lose no key. |
| `HashTables.FewPutsHaveRoom` | src/runtime/objects/hashmap.c:116-117 | In every run of at most 2^29 calls all doublings fit 32 bits. |
| `HashMaps.OrderWalk` | src/runtime/objects/hashmap.h:14-24 | Following the order links visits every node once, in insertion order, and ends. |
| `HashMaps.BucketWalk` | src/runtime/objects/hashmap.h:14-24 | Following the bucket links visits exactly the nodes of the entries of that chain of the table, and ends. |
| `HashMaps.HashMap.FoundIsLookUp` | src/runtime/objects/hashmap.c:101-113 | The walk in memory from the slot of a key meets the key exactly when the search in the table does. |
| `HashMaps.Walk` | src/runtime/objects/hashmap.c:101-113 | The walk ends at the node that the search in the table hits, or at the last node of the chain. |
| `HashMaps.LinkBehind` | src/runtime/objects/hashmap.c:122 | Linking a node behind that of an entry, or behind one of no entry, does to memory what the table says. |
| `HashMaps.Rehash` | src/runtime/objects/hashmap.c:141-163 | One turn of the rehash, copying into an empty slot or linking behind the tail, extends both new chains by one entry. |
| `HashMaps.RehashAll` | src/runtime/objects/hashmap.c:136-166 | The whole pass over the order chain, which it overwrites behind itself, gives the sound links of all entries in order. |
| `HashMaps.HashMap.CreateDict` | src/runtime/objects/hashmap.c:55-68 | A sound empty map of 32 buckets. |
| `HashMaps.HashMap.ResizeDict` | src/runtime/objects/hashmap.c:130-174 | From the order chain alone, whatever the bucket chains are: sound links, twice the capacity, the same entries in the same order. The nodes that were copied into slots are no longer part of the map, the others hold the entries they held. |
| `HashMaps.HashMap.PutInEmptyBucket` | src/runtime/objects/hashmap.c:85-99 | A key with an empty slot is put inline, and goes last. |
| `HashMaps.HashMap.Update` | src/runtime/objects/hashmap.c:104-110 | The node found gets its new value in place, and no link changes. |
| `HashMaps.HashMap.Append` | src/runtime/objects/hashmap.c:119-125 | The common end, on any map: a new node goes last and is linked behind the node given, which may be that of no entry. |
| `HashMaps.HashMap.ResizeAndAppend` | src/runtime/objects/hashmap.c:116-125 | The resizing path as written, on any map: the new links are sound but for the new node, which is behind the old chain end if that was moved, and behind nothing if it was copied. |
| `HashMaps.HashMap.AddDict` | src/runtime/objects/hashmap.c:81-128 | The whole call, as written, on any map, also one that has lost keys: entries and links in memory become those of `HashTables.AddTo`. |
| `HashMaps.Build` | src/runtime/objects/hashmap.c:55-128 | Any run of calls on a new map whose doublings fit 32 bits, whatever keys it loses: the map in memory is that of `HashTables.TableOf`. |
| `HashMaps.LoseKey` | src/runtime/objects/hashmap.c:81-128 | The 25 calls with the keys 0 to 23 and 32, on a new map, end in a map that has all 25 entries, finds the first 24 and does not find 32. |
| `HashMaps.RepeatKey` | src/runtime/objects/hashmap.c:81-128 | One more call with the key 32 puts it into the map a second time. |
| `HashMaps.HashMap.ClearDict` | src/runtime/objects/hashmap.c:177-182 | The map is sound and empty and keeps its capacity. |

## Left out

- Float arithmetic, true division, `**` and comparisons with floats: they rest on IEEE rounding and libm. FLOAT appears as a type only; the operators answer `Elsewhere` for it.
- None as an operand of the compiled expressions: the library reads it as 0 where Python raises.
- Printing, file access, `main`, error texts: input and output.
- Functions, classes, assignments, augmented assignments, attributes, chained comparisons, f-strings and scoping of the compiler: unfinished in the source.
- `registry_resize`: marked in the source as not properly implemented; the number of arena slots is any fixed multiple of 64 below 2^16.
- Failing `malloc` and `realloc`: every allocation of the C library succeeds.
- The contents of fresh memory are arbitrary.
- Arenas.Arena.ListCreate: and all operations above it that allocate (`ListResize`, `ListAppend`, `ListInsert`, `Strings.StrNew`, those of the registry) are not described in an arena that is full when they begin; what the allocator does there is described by `Arenas.Arena.Alloc`, and no list or string in the overlapped words means anything any more.
- Stringify.Str: is not described where an allocation of the rendering would begin in a full arena (`TopAfter` is `WRAPPED`), for the same reason; an allocation that fills the arena to its last word is.
- Rendering.ScalarFits: takes the text of a double, by `%g`, as a function whose results are shorter than 64.
- Registries.Registry.ListMult: stops where the length wraps around 2^32 to one that can be allocated, and does not say what the copies that leave the block overwrite.
- Runs.Program.Run: says nothing of a run behind an operation that is excluded: one in a full arena, a move of a list that has a second name, or a repetition whose count or length is not kept.
- Stringify.Runtime.InitCharTable: takes an empty arena as its argument where the code creates one, which `Registries.Registry.ArenaCreate` describes.
- HashMaps.HashMap.AddDict: and `Build` above it, excludes a resize whose doubled capacity would not fit 32 bits, and takes `malloc(0)`, for an empty key, to give a pointer.
- EndToEnd.CompiledMeansPython: asks that no variable is named like a temporary and that at most one argument of each call makes calls; what happens otherwise is shown by `Preservation.CapturedName`, `Preservation.CapturedOperand` and `Preservation.OrderMatters`.
- Literals.LiteralRoundTrip: reads neither trigraphs nor universal character names, and takes the emitted file to be UTF-8.
- The text of emitted C other than string literals: the emitter produces trees.
- Raw pointers into an arena that are used after an allocation: cells are looked up again from handles. When those of the source are good is part of the contracts, except for the pointer to the elements in `list_str`.
- Left shift of negative values and shift counts of 64 or more: undefined in C, and excluded.
- Uses of a handle whose list has moved away: what is in memory there when it moves is described by `Registries.Registry.ListAppend`, and the run is excluded from there on.
- `list_len`, `str_len`, `arena_alloc_copy`, `index` and `len` dispatch: each only reads a field or calls one function that is modelled.
