# A model of liric

Liric compiles and runs LLVM IR.  It reads IR as text or as bitcode, optimises it, and turns
functions into machine code when they are first needed.  This project models the parts of it
whose correctness is not visible from reading one function, in Dafny, and proves what they are
for.  `dafny verify dfyconfig.toml` checks everything.

| part | files |
|---|---|
| numbers, bits, bytes | `Numbers`, `BitFields`, `ByteOrder` |
| the peephole optimiser | `Ir`, `ConstantFold`, `Dominance`, `PeepholeFacts`, `LoadReuse`, `Refinement`, `Peephole` |
| phi copies and the symbol index | `PhiCopies`, `SymbolIndex` |
| type layout and address folding | `Types`, `Layout`, `GepFold` |
| binary128 soft-float | `Words`, `Float128`, `Rounding`, `FloatPack`, `FloatRound`, `FloatShort`, `FloatMul`, `LongDivision`, `FloatDiv`, `FloatAdd`, `FloatConvert` |
| bitcode: records and switches | `Bitstream`, `BitReader`, `RecordStream`, `NestedBlock`, `PhiRewrite`, `SwitchChain`, `SwitchLowering` |
| the lazy JIT: materialisation, code cache, patching | `LazyWorld`, `LazyJit`, `Signature`, `SignatureShape`, `CodeCache`, `Patch` |
| text: types and initializers, printed and parsed | `Lexer`, `TypeText`, `TypeLex`, `LexForms`, `InitText`, `InitClean`, `InitRead`, `GlobalText`, `TextParser` |
| the intrusive block list | `BlockList` |

How the parts are modelled:

- **Optimiser.**  `Ir` is an interpreter for functions in static single assignment form: an
  environment, byte memory, a trace of stores and calls.  Link-time constants, the operations
  the optimiser does not look into and called functions are arbitrary (`World`).  The pass edits
  the instruction lists of a `Function` object in place, round by round, as the source does; its
  contract is `Preserves`: stores, calls, memory and result of every defined run, and never
  anything more, even when the run does not end; and `ConstantsFolded`: what is gone for certain.
- **Soft-float.**  Values are pairs of 64-bit limbs; every shift, carry and mask of the source
  is there.  Magnitudes are integers in units of the smallest positive value, and correct
  rounding is stated against all values of the format.  The results say exactly when the code
  rounds correctly.
- **Bitcode.**  A reader object with a bit position and an error flag follows the source's
  loops and is proved to compute a specification, which inverts an encoder; the ids of records and
  definitions are those of the format.  Switch lowering
  works on the blocks of a decoder object; the original and the lowered graph are compared.
- **Lazy JIT.**  An object with symbols, entries, code pieces and a depth.  What the page
  protection, the code cache, the compiler and the patcher answer is a parameter, any sequence of
  answers; a failure always has a bad answer as its excuse.  The state is summarised in a `World`
  value on which the invariants are stated.
- **Text.**  The lexer's cursor and the parser object follow the source; printing is a function
  to strings.  The round trips go from the value through characters and tokens back.
- **Block list.**  Nodes with `next`, a function with `first` and `last`, relinked in place; the
  list is a ghost sequence.

What the proofs found in the code:

- A branch or select on an `i1` immediate other than 0 that is even takes the other side after
  folding (`src/ir.c:593`, `src/ir.c:656`); immediates there have to be canonical.
- Division of normal values never rounds correctly when the dividend's significand is the larger
  one, unless the quotient vanishes or overflows (`src/lr_float128.c:294`): three divided by two
  is one.  Subnormal results are shifted one place too far (`src/lr_float128.c:143`).
- Multiplication cuts at least fifteen bits of every product, and division never computes more than
  113, which is too few for some subnormal operands (`src/lr_float128.c:260`,
  `src/lr_float128.c:294`); the conditions of `Mul` and `Div` are exact for these as well.
- Narrowing to double turns the value just below two into three (`src/lr_float128.c:353`), and
  subnormal doubles widen to values 2^52 times too small (`src/lr_float128.c:317`).
- The alignment trick needs powers of two, and vector alignments need not be
  (`src/ir.c:1567`).
- The two constant address folders disagree on steps into scalars and on fields that do not
  exist (`src/bc_decode.c:1221`, `src/ll_parser.c:1018`).
- Signatures leave out vector shapes, pointees, the calling convention, symbol id and block count of
  functions, and whether globals are local or weak (`src/jit.c:389`, `src/jit.c:500`,
  `src/jit.c:544`): code compiled for two lanes is found in the cache for four, and code compiled
  for one calling convention for the other.
- They do contain half an address: predicates and the pointer to the indices share a word
  (`src/ir.h:71`, `src/jit.c:452`), so a copy of a function with an `extractvalue` is missed unless the halves agree.
- Giving up a function leaves a stale address in the code of the ready functions that refer to
  it, so the bindings stay right if and only if there are none (`src/jit.c:2774`).  A
  materialisation that succeeds gives nothing up unless a data relocation passed over a failure
  (`src/jit.c:1616`).
- A nested block that a decoder skips is not skipped to its end in some positions, because only one
  integer of four-bit chunks is read where block id and width stand (`src/bc_decode.c:344`); from 24
  bits into a word the width is taken for the length.
- Moving or inserting a block next to one that is bound but not on the list succeeds and breaks
  the list (`src/llvm_compat_c.c:1209`, `src/llvm_compat_c.c:1241`).
- Erasing a block renumbers only the linked ones, so a bound block that is not linked keeps a
  stale id (`src/llvm_compat_c.c:1195`).

## Model
| member | source | states |
|---|---|---|
| ConstantFold.FoldValueSound | src/ir.c:397-491 | where the language defines the operation, the folded bits are its result modulo 2^width, for every width from 1 to 64 |
| ConstantFold.FoldCompareSound | src/ir.c:493-536 | the folded comparison is the comparison of the signed or unsigned readings |
| ConstantFold.SignExtendIsToSigned | src/ir.c:302-310 | flipping and subtracting the sign bit is the two's complement reading |
| ConstantFold.IdentityFoldSound | src/ir.c:538-587 | an operand returned by an identity (x + 0, x * 1, x & -1, ...) has the value of the instruction |
| ConstantFold.SelectFoldSound | src/ir.c:589-604 | the arm chosen for a constant condition, or for equal arms, is the value of the select |
| ConstantFold.ConditionResidue | src/ir.c:589-604 | an i1 immediate is read alike by the optimiser (not zero) and by the language (its last bit) if and only if it is zero or odd |
| ConstantFold.ReplacementSound | src/ir.c:606-616 | whatever fold applies, the operand returned has the value the instruction would have written, in every environment in which it is defined |
| ConstantFold.ReplacementShape | src/ir.c:606-616 | only selects, comparisons and binary operations are replaced, by one of their operands or by a canonical immediate of the result type |
| Dominance.NoReturn | src/ir.c:618-793 | graph fact the chains of replacements rest on: between the last passage of d and a point d dominates, no dominator of d is passed again |
| Dominance.Stability | src/ir.c:618-793 | at every point dominated by its definition a register holds what the last execution of the definition wrote, loops included |
| Dominance.StableOperand | src/ir.c:618-793 | and the operands of that definition still hold what it read |
| Dominance.RunFits | src/ir.c:618-793 | in every run every register holds a value of its type |
| PeepholeFacts.SubstituteKnown | src/ir.c:339-357 | following one replacement gives an operand that is readable at the use and has the same value there, in every run |
| PeepholeFacts.FoldKnown | src/ir.c:691-704 | a folded instruction makes its replacement valid wherever its definition dominates |
| PeepholeFacts.SelfReplacementNever | src/ir.c:691-704 | a register that would be replaced by itself belongs to code that no run reaches |
| LoadReuse.CacheAdvance | src/ir.c:668-689 | a cached load stays valid over every instruction that is neither a store nor a call |
| LoadReuse.CacheReuse | src/ir.c:668-685 | a load through a cached pointer of the same type gives the value of the cached register |
| Peephole.RootWithin | src/ir.c:339-357 | chains of replacements end within the guard counter |
| Peephole.ResolveOperand | src/ir.c:339-357 | the loop follows the chain to its end and reports a change only when it made one |
| Peephole.FindLoad | src/ir.c:671-678 | the scan of the load cache finds a matching entry exactly if there is one |
| Peephole.PeepholeBlock | src/ir.c:638-725 | one in-place traversal of a block keeps the invariant that everything removed is explained by a recorded replacement or is unreachable |
| Peephole.FoldPhase | src/ir.c:635-739 | six rounds at most and the final substitution leave no operand that names a removed register |
| Peephole.PassFolds | src/ir.c:635-739 | why: after the first round no instruction without registers is left that a rule would remove, and every branch on a constant is folded |
| Peephole.DropDead | src/ir.c:758-789 | unlinking an effect-free definition that nobody reads keeps the simulation |
| Peephole.DeadPhase | src/ir.c:741-789 | the rounds of counting uses and unlinking keep the simulation |
| Refinement.KeepsUp | src/ir.c:618-793 | the rewritten run reaches a matching state in at most as many steps |
| Refinement.CatchesUp | src/ir.c:618-793 | the original run reaches every state of the rewritten one, so the rewritten run never gets ahead, not even of a run that does not end |
| Refinement.SimulatesPreserves | src/ir.c:618-793 | a rewriting that keeps the simulation preserves stores, calls, memory and returned value of every defined run, in both directions |
| Peephole.RunPeepholePasses | src/ir.c:618-793 | for every function in static single assignment form, every outside world and every input the function after the pass does what the function before it does; every conditional branch on a constant has become a branch to the block it goes to, and registers that the rules compute from constants alone are defined nowhere |
| Peephole.EvenConditionMisread | src/ir.c:656-664 | on an i1 immediate 2 the folded branch takes the other side: immediates of branches and selects have to be zero or odd |
| PhiCopies.BuildPhiCopies | src/ir.c:1676-1732 | the count-then-fill builder sets every slot of every predecessor: each slot holds destination and operand of one pair of a phi that names the predecessor, every such pair has its slot, and later pairs stand first |
| PhiCopies.SlotsHoldPairs | src/ir.c:1676-1732 | the traversal lists every pair of every phi once, with its own operand |
| PhiCopies.SlotPerPair | src/ir.c:1690-1712 | there are as many slots as pairs that name the predecessor |
| PhiCopies.CopiesAreReversedEdges | src/ir.c:1676-1732 | in terms of the traversal: the edges that lead to the predecessor, in reverse order |
| PhiCopies.FillStep | src/ir.c:1714-1729 | at every moment of the filling there is a free slot for the next edge |
| SymbolIndex.IdsAreStable | src/ir.c:962-1012 | over every sequence of interns ids never change, no name gets two, and exactly the names seen have one |
| SymbolIndex.ProbeEnds | src/ir.c:11-40 | while an entry is missing, linear probing from any slot meets a free one |
| SymbolIndex.PlaceNext | src/ir.c:11-40 | storing at the first free slot keeps every entry findable behind occupied slots |
| SymbolIndex.SymbolTable.FreeSlot | src/ir.c:30-38 | the probing loop stops at the first free slot |
| SymbolIndex.SymbolTable.Rebuild | src/ir.c:20-40 | the rebuilt index holds every name and leaves at least half of its slots free |
| SymbolIndex.SymbolTable.Intern | src/ir.c:962-1012 | interning returns the id of the name in the list of names first seen, appending it only when it is new |
| SymbolIndex.SymbolTable.Lookup | src/ir.c:1020-1040 | a lookup finds the id of a name if and only if it was interned |
| SymbolIndex.SymbolTable.Find | src/jit.c:1694-1708 | the lookup from the JIT agrees, except that it refuses the empty name |
| Layout.AlignUpRounds | src/ir.c:199-201 | for a power of two the mask trick gives the least multiple not below n |
| Layout.AlignUpCorrectIff | src/ir.c:199-201 | the trick yields multiples for every n if and only if the alignment is a power of two |
| Layout.TypeSize | src/ir.c:1515-1550 | the loop over struct fields computes the specified size |
| Layout.TypeAlign | src/ir.c:1552-1586 | the loop computes the largest field alignment |
| Layout.StructFieldOffset | src/ir.c:1609-1625 | the loop computes the specified offset, for any index |
| Layout.AggregateIndexPath | src/ir.c:1627-1674 | the loop computes offset and type of the part a path names, or fails |
| Layout.SizeIsAligned | src/ir.c:1515-1586 | with vectors of power-of-two size the size of every type is a multiple of its alignment |
| Layout.FieldIsAligned | src/ir.c:1609-1625 | and unpacked fields are aligned |
| Layout.AlignedBehindIff | src/ir.c:1609-1625 | a field type is aligned behind every list of fields if and only if its alignment is a power of two |
| Layout.SizeFitsIff | src/ir.c:1515-1586 | all unpacked structs with the alignment of a type have sizes that are multiples of it if and only if it is a power of two |
| Layout.FieldsInOrder | src/ir.c:1609-1625 | each field of any struct ends before the next begins |
| Layout.FieldsTight | src/ir.c:1609-1625 | a packed field starts where the one before ends, any other at the first multiple of its alignment from there on |
| Layout.StructTight | src/ir.c:1515-1586 | a struct ends with its last field, up to the next multiple of its alignment, which is the largest of its fields\' or 1 |
| Layout.ElementsTight | src/ir.c:1529-1530 | elements of arrays and vectors follow each other without gaps and fill the whole |
| Layout.ElementsAligned | src/ir.c:1566-1573 | an array is aligned as its elements, a vector also to its size |
| Layout.BasicLayout | src/ir.c:1515-1565 | integers, floating-point values and pointers take the least power of two of bytes that holds them, and are aligned to it |
| Layout.PathInside | src/ir.c:1627-1674 | what a path names lies inside the base |
| Layout.PathsDisjoint | src/ir.c:1627-1674 | two paths neither of which is a prefix of the other name disjoint bytes, for all types |
| Layout.OddVectorMisplaced | src/ir.c:1567-1573 | a vector of three i32 has alignment 12: it is placed at offset 4 and the struct has a size that is no multiple of its alignment |
| GepFold.ConstGepTryComputeOffset | src/bc_decode.c:1221-1248 | the bitcode reader's folding loop |
| GepFold.ParseConstGepOffset | src/ll_parser.c:980-1040 | the text parser's folding loop, which goes on reading after it has given up |
| GepFold.FoldersAgreeIff | src/bc_decode.c:1221-1248 | both readers fold if and only if the indices are constants that step through the type without 64-bit overflow, and then to the same offset |
| GepFold.FoldersDiffer | src/ll_parser.c:980-1040 | outside of that they differ: one concrete address for either direction |
| GepFold.FoldsEqualIndexPath | src/ir.c:1750-1799 | a first index n goes n times the size of the type, forwards or backwards; on a path that names a part of the type both folds add the offset of that part |
| GepFold.FirstIndexIsElement | src/ir.c:1766-1775 | which is where element n of an array of the type has that part |
| GepFold.RuntimeStep | src/ir.c:1750-1799 | an index known only at run time is scaled by the size of the type stepped into, so that any value of it gives the step of that constant |
| Words.AddVal | src/lr_float128.c:28-30 | addition on two limbs is exact below 2^128 |
| Words.ShlVal | src/lr_float128.c:41-47 | a left shift that loses no bit multiplies by the power of two |
| Words.ShrVal | src/lr_float128.c:48-54 | a right shift divides by the power of two |
| Words.ClzVal | src/lr_float128.c:69-73 | the leading zeros give the length of the number |
| Words.Mul64Val | src/lr_float128.c:75-83 | the four 32-bit partial products with their carries give the exact 128-bit product |
| Words.Mul128Val | src/lr_float128.c:85-97 | the four 64-bit partial products with their carries give the exact 256-bit product |
| FloatPack.Packed | src/lr_float128.c:123-162 | what packing a 113-bit significand yields in the normal range, above it and below it, where it is shifted one place too far |
| FloatPack.PackExact | src/lr_float128.c:123-162 | a shorter significand is packed exactly if its value is at least the smallest normal one, and halved otherwise |
| FloatRound.PackCorrectIff | src/lr_float128.c:123-162 | packing a significand rounded to nearest gives the nearest binary128 value to the exact quotient (section 4.3.1 of IEEE 754-2019), or infinity, if and only if that is normal, or too small to be anything but zero |
| FloatShort.ShortPackIff | src/lr_float128.c:123-162 | packing a shorter quotient that was rounded to an integer: right if and only if the result is normal and rounding it to all the bits of the format changes nothing, or it rounds to zero, or it lies just above one half at a place where halving repairs it |
| FloatShort.SharpIff | src/lr_float128.c:123-162 | the normal case: nearest if and only if rounding to an integer loses nothing against rounding to the bits of the format |
| FloatShort.HalvedIff | src/lr_float128.c:143-151 | below the normal range, from a quotient of at least half a unit: right only just above one half |
| FloatShort.BelowIff | src/lr_float128.c:143-151 | from places below the lowest one: right only if the exact value rounds to zero |
| FloatMul.ShiftedProduct | src/lr_float128.c:259-278 | the shifted product and its round and sticky bits are quotient and remainder of the exact product |
| FloatMul.Mul | src/lr_float128.c:246-281 | NaNs, infinities and zeros as specified; for all other operands, subnormal ones included, the exact product correctly rounded if and only if the stated condition on significands and places holds; in every case what packing makes of the product of the significands rounded to 113 bits, or fewer where fifteen bits are cut |
| FloatMul.NormalsAreLong | src/lr_float128.c:257-260 | the significands of normal values have products of at least 128 bits, for which the condition is that the product rounds to a normal value or vanishes |
| FloatMul.ShortProduct | src/lr_float128.c:259-278 | a product of fewer than 128 bits that is rounded too early: the smallest value times one with 113 ones gives 2^113 units instead of 2^113 - 1 |
| FloatDiv.DivideSignificands | src/lr_float128.c:294-303 | the 113-step loop rounds the quotient to nearest while the dividend is the smaller; in every case each quotient bit says whether the remainder so far, doubled and cut to 128 bits, holds the divisor, and the next bit rounds |
| LongDivision.DivisionStep | src/lr_float128.c:294-303 | one step more keeps the bits so far, sets the next one by the doubled remainder, and leaves the remainder that belongs to them |
| FloatDiv.RemainderRounding | src/lr_float128.c:303-303 | no tie can occur, so comparing twice the remainder rounds to nearest |
| FloatDiv.Div | src/lr_float128.c:283-306 | special operands as specified; for all others, subnormal ones included, the result is correctly rounded if and only if the stated condition on significands and places holds; in every case what packing makes of the rounded quotient, and where all quotient bits are ones a power of two, as for three divided by two |
| FloatDiv.DivInRange | src/lr_float128.c:283-306 | for significands less than a factor of two apart and a quotient in range the condition is that the significand of the dividend is at most that of the divisor |
| FloatDiv.LargerSignificand | src/lr_float128.c:294-305 | with the larger significand on top and a quotient in range nothing the loop can produce is right |
| FloatDiv.LargerDividend | src/lr_float128.c:294-305 | the condition for the larger significand on top, for all operands: the quotient vanishes, or overflows and the overflow is recognised |
| FloatDiv.NormalsWithinTwo | src/lr_float128.c:283-306 | all pairs of normal values are less than a factor of two apart |
| FloatDiv.ThreeHalves | src/lr_float128.c:294-305 | three divided by two saturates the divider and comes out as one, which is not the correctly rounded quotient |
| FloatDiv.ShortQuotient | src/lr_float128.c:294-305 | a quotient of too few bits: the smallest value divided by one and a half times the smallest normal one comes out a quarter too small |
| FloatAdd.AddSameSignCorrect | src/lr_float128.c:207-244 | finite non-zero values of the same sign: infinity where the sum overflows; otherwise the exact sum rounded toward zero (section 4.3.2 of IEEE 754-2019) if and only if it is not subnormal, and half of it if it is |
| FloatAdd.AddOppositeCorrect | src/lr_float128.c:215-244 | opposite signs, subnormals included: the sign of the larger operand, and the exact difference taken up to the next multiple of the larger operand\'s last place, which is the difference itself if aligning loses no bit; halved if subnormal |
| FloatAdd.AddCancels | src/lr_float128.c:215-244 | equal magnitudes of opposite signs give positive zero |
| FloatAdd.AddNan | src/lr_float128.c:223-224 | the first NaN is the result |
| FloatAdd.AddInfinity | src/lr_float128.c:225-227 | a finite operand leaves an infinity as it is, infinities of the same sign too; opposite infinities give a NaN |
| FloatAdd.AddZero | src/lr_float128.c:228-230 | adding a zero gives the other operand; two zeros give a negative one if and only if both are |
| FloatAdd.CmpIsOrder | src/lr_float128.c:187-202 | comparison is the order of the numbers on all values but NaNs, subnormals, signed zeros and infinities included (section 5.11 of IEEE 754-2019) |
| FloatConvert.PackUnpackIff | src/lr_float128.c:106-162 | packing what was unpacked gives the value back if and only if it is normal |
| FloatConvert.FromI64Exact | src/lr_float128.c:366-374 | every integer but the smallest converts exactly |
| FloatConvert.ToI64Truncates | src/lr_float128.c:383-390 | conversion to an integer drops the fraction and saturates, for every finite value |
| FloatConvert.NoInteger | src/lr_float128.c:383-390 | NaNs and infinities become 0 |
| FloatConvert.IntegerRoundTrip | src/lr_float128.c:366-390 | integers survive the round trip |
| FloatConvert.TruncDropsFraction | src/lr_float128.c:408-416 | truncation keeps the sign and drops the fraction; infinities and NaNs stay |
| FloatConvert.WideningExactIff | src/lr_float128.c:308-319 | widening keeps the value of a finite double if and only if it is not subnormal |
| FloatConvert.WideningSpecials | src/lr_float128.c:313-314 | NaNs and infinities stay what they are, infinities with their sign |
| FloatConvert.NarrowingCorrectIff | src/lr_float128.c:348-355 | narrowing into the normal doubles rounds to nearest, ties to even, if and only if the top 54 bits of the significand are not all ones |
| FloatConvert.NarrowingTruncates | src/lr_float128.c:340-347 | below the normal doubles the value is truncated instead |
| FloatConvert.NarrowingOverflows | src/lr_float128.c:339-339 | values from 2^1024 on become infinite |
| FloatConvert.NarrowingSpecials | src/lr_float128.c:332-339 | NaNs, infinities and zeros stay what they are, with their sign |
| FloatConvert.AlmostTwoNarrowsToThree | src/lr_float128.c:353-353 | the value just below two is narrowed to three |
| FloatConvert.DoubleRoundTripIff | src/lr_float128.c:308-355 | a double survives widening and narrowing if and only if it is not subnormal and not a NaN other than the canonical one |
| Bitstream.VbrReadAll | src/bc_decode.c:119-137 | reading a variable-width integer inverts writing it, for every width from 2 to 64 and every 64-bit value |
| Bitstream.SignedRoundTrip | src/bc_decode.c:1250-1256 | signed integers: decoding inverts encoding and encoding inverts decoding, the minimum included; the lowest bit is the sign |
| Bitstream.Char6RoundTrip | src/bc_decode.c:1258-1268 | the six-bit characters are in bijection with 0..63 |
| Bitstream.Char6Table | src/bc_decode.c:1258-1268 | which stand for a to z, A to Z, 0 to 9, the full stop and the underscore |
| Bitstream.BlobRead | src/bc_decode.c:327-338 | a blob is read back byte for byte, with its padding on both sides |
| Bitstream.UnabbreviatedRoundTrip | src/bc_decode.c:261-268 | every unabbreviated record is read back and the reader stops at its end |
| Bitstream.AbbreviatedRoundTrip | src/bc_decode.c:270-341 | so is every record of every abbreviation that starts with a scalar, arrays and blobs included |
| Bitstream.AbbrevRoundTrip | src/bc_decode.c:221-253 | an abbreviation definition is read back as the abbreviation |
| BitReader.Reader.ReadFixed | src/bc_decode.c:100-117 | the bit loop reads the specified field, or sets the error and moves nothing |
| BitReader.Reader.ReadVbr | src/bc_decode.c:119-137 | the chunk loop with its masks and shifts reads the specified integer |
| BitReader.Reader.ReadElements | src/bc_decode.c:314-325 | the element loop appends exactly the elements of the stream |
| BitReader.Reader.ReadBlob | src/bc_decode.c:327-338 | the blob pointer and the position after it |
| BitReader.Reader.ReadOps | src/bc_decode.c:280-340 | the operand loop yields the specified record |
| BitReader.Reader.ReadRecord | src/bc_decode.c:255-342 | either form of record, by abbreviation id; ids below 3 and ids without a definition are refused |
| BitReader.Reader.ReadDefineAbbrev | src/bc_decode.c:221-253 | a definition is appended to the list |
| BitReader.Reader.SkipBlock | src/bc_decode.c:344-351 | what is skipped in front of a nested block\'s length, and the length |
| BitReader.Reader.ReadEntry | src/bc_decode.c:1684-1702 | one turn of a block decoder\'s loop: the end of the block, a nested block, a definition, which is added to the list, or a record |
| RecordStream.EntryRoundTrip | src/bc_decode.c:1684-1702 | an entry is read back as it was written: id 2 as a definition, id 3 as a record without abbreviation, id 4 + k as a record of the k-th definition |
| RecordStream.StreamRoundTrip | src/bc_decode.c:221-342 | any stream of definitions and records is read back entry by entry, every record with its code, fields and blob by the definition its id stands for |
| NestedBlock.SkipNestedIff | src/bc_decode.c:344-351 | a nested block is skipped to its end if and only if the four-bit integer read ends in front of the same word as block id and width, or the word taken for the length happens to lead there |
| NestedBlock.SkipsWhen | src/bc_decode.c:344-351 | with a block id below 128 and a width below 8 the position decides: up to 20 or from 29 bits into a word it is |
| NestedBlock.WidthForLength | src/bc_decode.c:344-351 | 24 bits into a word the width is taken for the length, so that only a block of that many words less one is skipped to its end |
| SwitchChain.ChainReachesFirstMatch | src/bc_decode.c:4013-4123 | for every value the test chain leads to the block of the first matching case, or the default, and is left from the test of that case, or the last one |
| SwitchChain.OwnerOfNewBlock | src/bc_decode.c:4046-4058 | every new block is a test of exactly one switch |
| SwitchChain.PredsAreCfg | src/bc_decode.c:4082-4123 | the predecessors computed per switch are exactly the edges of the lowered graph |
| SwitchLowering.AppendUnique | src/bc_decode.c:1521-1535 | the unique append, and when it fails for lack of room |
| SwitchLowering.CollectPreds | src/bc_decode.c:4140-4151 | the loop collects the distinct predecessors of a target within its buffer, and whether the old block is one |
| SwitchLowering.DropPred | src/bc_decode.c:4168-4173 | the in-place filter keeps the predecessors other than the old block |
| SwitchLowering.FunctionDecoder.EmitChain | src/bc_decode.c:4013-4123 | emission succeeds if and only if all case blocks exist, and leaves the chain and its list of edges |
| SwitchLowering.FunctionDecoder.QueueFixup | src/bc_decode.c:4140-4188 | a repair is queued for a successor exactly when its predecessors change, with exactly the new ones |
| SwitchLowering.FunctionDecoder.QueueFixups | src/bc_decode.c:4125-4188 | each successor gets at most one repair |
| SwitchLowering.FunctionDecoder.LowerSwitch | src/bc_decode.c:3938-4185 | the whole case, with its range errors and the switch without cases |
| PhiRewrite.PairBoundMonotone | src/bc_decode.c:1537-1632 | the size computed beforehand bounds what is written at every moment |
| PhiRewrite.RemapPhi | src/bc_decode.c:1537-1632 | the rewriting loop stays inside a buffer of the size it computed, and replaces every entry for the old block by one per new predecessor |
| PhiRewrite.RemapFacts | src/bc_decode.c:1537-1632 | what the rewritten phi contains, entry by entry |
| PhiRewrite.DedupPhi | src/bc_decode.c:4230-4260 | the in-place compaction keeps the first entry per predecessor |
| PhiRewrite.DedupFacts | src/bc_decode.c:4230-4260 | on consistent entries compaction leaves one per predecessor and loses none |
| SwitchLowering.AllQueuedStep | src/bc_decode.c:4125-4188 | queueing the repairs of one more block keeps the queue exact |
| SwitchLowering.RepairedEntries | src/bc_decode.c:4209-4225 | after all repairs the entry of a source block stands under exactly the blocks that do its work |
| SwitchLowering.FunctionDecoder.ApplyFixups | src/bc_decode.c:4209-4225 | the repairs are made in order; when that fails |
| SwitchLowering.FunctionDecoder.DedupPhis | src/bc_decode.c:4230-4260 | every phi is compacted, nothing else changes |
| SwitchLowering.SwitchesPreserved | src/bc_decode.c:3938-4260 | control goes where the switches say, every phi receives the value it received before, and every phi has exactly one entry per actual predecessor |
| SwitchLowering.FunctionDecoder.Decode | src/bc_decode.c:3938-4260 | for every well-formed function decoding succeeds and preserves it in that sense |
| LazyWorld.CacheResult | src/jit.c:1389-1430 | remembering a provider's answer changes no answer |
| LazyWorld.CacheMiss | src/jit.c:1389-1430 | nor does remembering that there was none |
| LazyWorld.PatchValid | src/jit.c:1874-2034 | patching code that is being compiled disturbs nothing that is ready |
| LazyWorld.FinishedValid | src/jit.c:2751-2753 | publishing a fully patched function keeps every binding |
| LazyWorld.RegisteredAllFacts | src/jit.c:2549-2588 | after registration the names are pending and the rest is as before; a name comes loose only if a ready function referred to it, and does if that function is not registered anew |
| LazyWorld.ReachableIsReady | src/jit.c:2590-2803 | between outermost calls every function reachable by relocations from a ready one without passing a loose name is ready, and each reference holds the address of its code |
| LazyWorld.AbandonKeepsBindingsIff | src/jit.c:2771-2777 | giving up a function that is being compiled leaves all bindings right if and only if no ready function refers to it |
| LazyWorld.RunValid | src/jit.c:2549-2803 | over every run of registering, entering, compiling, patching, publishing, giving up, remembering lookups and leaving, the bindings outside the loose names are right, and none comes loose without a registration or a function given up |
| LazyWorld.BrokenRunBreaks | src/jit.c:2771-2777 | a concrete run, of f that refers to g and to a name nobody provides, and g that refers to f: it ends with g ready and the stale address of f in its code |
| LazyJit.Jit.Lookup | src/jit.c:1389-1430 | a lookup answers what the name stands for, whatever the caches hold, and undoes nothing |
| LazyJit.Jit.ApplyRelocs | src/jit.c:1874-2034 | the relocation loop binds every target or names one that does not resolve; it gives up only at such a target or when an address does not fit |
| LazyJit.Jit.Materialize | src/jit.c:2590-2803 | it terminates on every graph, cycles included; no ready function becomes unready, the same functions are being compiled as before, the depth is restored; a function that is ready or being compiled is left alone with success; on success the function is ready, and nothing was given up and nothing came loose unless a data relocation passed over a failed materialisation; a failure always has its reason in a refusal, an empty compilation or a name nobody knows; what it did is a run |
| LazyJit.Jit.CompileAndPatch | src/jit.c:2637-2777 | the part between entering the function and its cleanup, with the same guarantees on success and on failure |
| LazyJit.Jit.PatchAll | src/jit.c:2719-2749 | the loop that materialises what is missing and patches again ends with everything patched, and then gave nothing up unless a data relocation passed over a failed materialisation; it fails only for a reason of that kind |
| LazyJit.Jit.GiveUp | src/jit.c:2771-2777 | the cleanup: the function is pending again, and its name comes loose exactly if a ready function refers to it |
| LazyJit.Jit.Publish | src/jit.c:2751-2753 | publishing a patched function keeps every binding and makes it ready |
| LazyJit.Jit.GlobalRelocs | src/jit.c:1607-1627 | unless a failure was passed over, for which there is such a reason, every function that data relocations name is no longer pending |
| LazyJit.Jit.LookupMaterializing | src/jit.c:1590-1605 | the answer is what the name stands for afterwards unless a materialisation failed, for such a reason; a name that is not pending is answered as it stands |
| LazyJit.Jit.GetSymbol | src/jit.c:2984-2999 | from outside: a name that is not pending is answered as it stands, a ready function with its address; a pending one gets the address of a function that is then ready, unless there was a refusal, an empty compilation or a name nobody knows; every state it leaves is reached by a run |
| LazyJit.Jit.Register | src/jit.c:2549-2588 | registration, which starts a name over, is one move of a run |
| Signature.SameType | src/jit.c:353-392 | the serialisation of types, the parts of vectors and pointers left out, is prefix-free |
| Signature.SameInst | src/jit.c:428-464 | the serialisation of instructions is prefix-free; the word shared by predicates and index address is written by its low half |
| Signature.SameFunction | src/jit.c:500-542 | functions likewise, on what is written of them |
| Signature.SameGlobal | src/jit.c:544-577 | globals with their relocations likewise, on what is written of them |
| Signature.FunctionSignatureInjective | src/jit.c:500-542 | for functions with everything that is not written set to a fixed value equal signatures mean equal functions |
| Signature.ModuleSignatureInjective | src/jit.c:579-642 | modules likewise |
| Signature.VectorsCollide | src/jit.c:353-392 | any two vector types have the same bytes |
| SignatureShape.FunctionSignatureIff | src/jit.c:500-542 | two functions have the same signature if and only if they agree in all but vector shapes, pointees, calling convention, symbol id and block count, and the addresses of their index lists have the same low halves |
| SignatureShape.ModuleSignatureIff | src/jit.c:579-642 | two modules likewise, whether globals are local or weak not being written either |
| SignatureShape.LanesCollide | src/jit.c:389-391 | two functions that differ in the number of lanes have the same signature |
| SignatureShape.ConventionsCollide | src/jit.c:500-542 | so do a function and itself under the other calling convention |
| SignatureShape.CopiesDiffer | src/jit.c:452-455 | a function and its copy with the index list at another address have different signatures |
| CodeCache.Cache.Lookup | src/jit.c:724-752 | for every hash function: a hit is what was stored under this very key, every stored key is found, and the statistics count hits and misses |
| CodeCache.Cache.Insert | src/jit.c:754-823 | the first insertion under a key stays |
| CodeCache.Cache.InvalidateAll | src/jit.c:825-830 | nothing stored before is held afterwards, under a new epoch |
| CodeCache.HitIff | src/jit.c:654-752 | two requests have the same key if and only if epoch, target and pointer size are the same and function and module agree in all that is written, low halves of index addresses included |
| CodeCache.WrongHits | src/jit.c:654-752 | so code for two lanes is found for four, and code of any function for one calling convention is found for the other |
| CodeCache.WrongModuleHit | src/jit.c:579-642 | likewise when another function of the module changes its convention |
| CodeCache.MissedCopy | src/jit.c:654-752 | and code of a function is not found for an identical copy with its index list elsewhere |
| Patch.BranchSet | src/jit.c:1827-1829 | masking and or-ing writes the 26-bit field and no other bit |
| Patch.PagesSet | src/jit.c:1842-1845 | the page number goes to its two fields, bits 29-30 and 5-23, and no other bit changes |
| Patch.OffsetSet | src/jit.c:1858-1861 | the twelve-bit field and no other bit |
| Patch.KeepsPage | src/jit.c:1836-1837 | masking the low twelve bits rounds an address down to its page |
| Patch.ReadU32 | src/jit.c:1787-1792 | shifts and ors read a little-endian word |
| Patch.WriteU32 | src/jit.c:1794-1802 | the four bytes and nothing else, if they fit |
| Patch.WriteU64 | src/jit.c:1804-1810 | the eight bytes and nothing else, if they fit |
| Patch.PatchX86Rel32 | src/jit.c:1812-1818 | succeeds exactly in range and in bounds, and then the operand reaches the target |
| Patch.PatchBranch26 | src/jit.c:1820-1830 | succeeds exactly in range and in bounds; the branch reaches the target if and only if the distance is a multiple of four |
| Patch.PatchPage21 | src/jit.c:1832-1846 | succeeds exactly in range and in bounds; the instruction computes the page of the target |
| Patch.PatchPageOff12 | src/jit.c:1848-1863 | succeeds exactly in bounds and, for a slot, on an aligned address; the field holds the offset in the page |
| Patch.PairReaches | src/jit.c:1832-1863 | page and offset together give the target |
| Patch.PairReadsSlot | src/jit.c:1832-1863 | page and scaled offset together give an eight-byte aligned slot |
| Patch.PatchedPair | src/jit.c:1832-1863 | two patches in one buffer do not disturb each other |
| Lexer.Cursor.SkipBlanks | src/ll_lexer.c:56-74 | blanks and comments |
| Lexer.Cursor.Number | src/ll_lexer.c:698-761 | decimal and hexadecimal numbers, with wrap-around, and what counts as floating point |
| Lexer.Cursor.Next | src/ll_lexer.c:579-781 | each call yields the next token of the specified list and stops at the end of input |
| LexForms.LexLexeme | src/ll_lexer.c:579-781 | each written form, names after % and @, quoted names, strings, numbers, words, brackets, becomes its token |
| LexForms.GapSkipped | src/ll_lexer.c:56-74 | a blank, or a comment with the newline that ends it, changes no tokens |
| LexForms.LexRoundTrip | src/ll_lexer.c:579-781 | so any text of such forms with blanks and comments between them lexes to exactly their tokens |
| LexForms.IntegerWraps | src/ll_lexer.c:721-760 | a decimal number outside the 64-bit range is read modulo 2^64 |
| TypeLex.DecimalValue | src/ll_lexer.c:721-760 | the digits printed for a number are read as the number |
| TypeLex.LexType | src/ir.c:1839-1925 | the printed text of a type lexes to its tokens, whatever follows that ends a word |
| TypeText.TypeRead | src/ll_parser.c:799-914 | after the tokens of a type the parser has that type and goes on with suffixes |
| TypeLex.TypeRoundTrip | src/ir.c:1861-1925 | parsing the printed text of any anonymous type gives the type back and stops right behind it |
| TypeLex.WordTypes | src/ll_parser.c:799-870 | the words of the basic types, spelled out |
| TypeLex.BracketTypes | src/ll_parser.c:799-870 | the brackets of arrays, vectors and structs, spelled out |
| TypeLex.NamedTypeRead | src/ll_parser.c:799-870 | a name stands for the type it was given, or for an empty struct as long as it has none |
| TypeLex.TypeNotRead | src/ll_parser.c:813-912 | what happens instead before a star, and for fp128 |
| TextParser.Parser.ParseType | src/ll_parser.c:799-914 | the recursive parser consumes exactly the specified tokens, or reports an error |
| TextParser.Parser.ParseList | src/ll_parser.c:830-905 | the list loop with its limit of 256 |
| TextParser.Parser.ParseSuffixes | src/ll_parser.c:875-911 | the suffix loop |
| InitText.LexConst | src/ir.c:3717-3875 | the printed text of a constant lexes to its tokens |
| InitRead.StoreNumber | src/ll_parser.c:2784-2897 | the number printed for an integer is stored as its bytes; of an i1 the last bit |
| InitRead.ValueRead | src/ll_parser.c:2784-2971 | reading the tokens of a constant copies its bytes, without padding, into a zeroed buffer |
| InitRead.BooleanWords | src/ll_parser.c:2840-2849 | where an i1 is due the words true and false are read as 1 and 0 |
| InitRead.ZeroWords | src/ll_parser.c:2866-2896 | null, undef and zeroinitializer leave the bytes as they are |
| InitClean.CanonicalIff | src/ir.c:3717-3875 | printing forgets nothing of the bytes if and only if padding is zero and i1 bytes are 0 or 1 |
| GlobalText.InitializerRead | src/ll_parser.c:2784-2971 | for every byte image of every printable type of integers, arrays, vectors and structs the parsed bytes are the printed ones without what printing forgets |
| GlobalText.InitializerRoundTrip | src/ir.c:3717-3875 | so they are the same bytes if and only if the image is canonical |
| GlobalText.BooleanGlobal | src/ll_parser.c:3162-3166 | a global of type i1 given as a word has the same byte as if given as a number |
| GlobalText.DecodeEscaped | src/ir.c:2255-2267 | decoding undoes the escaping of any bytes |
| GlobalText.DecodeForms | src/ll_parser.c:3070-3101 | what each character of a literal stands for, escapes that are none included |
| GlobalText.DecodeLiteral | src/ll_parser.c:3070-3101 | the decoding loop computes the specified bytes and never writes more than there are characters |
| GlobalText.StringRoundTrip | src/ir.c:2255-2267 | the c"..." form gives any bytes back |
| GlobalText.GlobalRoundTrip | src/ir.c:3905-3945 | whichever form the printer chooses for an initializer, the bytes come back if and only if the image is canonical |
| TextParser.Parser.ParseValue | src/ll_parser.c:2784-2897 | the value parser writes exactly the specified bytes into the buffer |
| TextParser.Parser.ParseAggregate | src/ll_parser.c:2898-2971 | the aggregate parser likewise |
| TextParser.Parser.ParseInitializer | src/ll_parser.c:3066-3158 | the bytes stored for a global |
| BlockList.Function.Attached | src/liric_compat.c:6022-6035 | the constant-time test agrees with membership in the list |
| BlockList.Function.FindPrev | src/llvm_compat_c.c:1144-1153 | the scan finds the predecessor, or none |
| BlockList.Function.MoveAfter | src/llvm_compat_c.c:1209-1239 | when nothing is done; otherwise the list is the specified edit if and only if the anchor is on it, and else the block ends off the list, behind the anchor |
| BlockList.Function.MoveBefore | src/llvm_compat_c.c:1241-1273 | the same before an anchor; with an anchor that is bound but not on the list the function starts with the block and the anchor, and the other blocks are lost |
| BlockList.Function.Bind | src/liric_compat.c:6037-6056 | a new block gets the next id |
| BlockList.Function.Append | src/liric_compat.c:6102-6130 | appending a block to the list |
| BlockList.Function.Insert | src/llvm_compat_c.c:1289-1328 | insertion of new, linked and detached blocks: when it reports success, when the list stays intact, the specified edit if so, and the broken list if not; a block that is neither linked nor detached is left alone |
| BlockList.Function.UsesId | src/liric_compat.c:6164-6179 | whether another block refers to an id |
| BlockList.Function.RemapRefs | src/liric_compat.c:6181-6194 | references above the removed id move down |
| BlockList.Function.Renumber | src/llvm_compat_c.c:1195-1198 | ids above the removed one move down, on the linked blocks |
| BlockList.Function.Erase | src/llvm_compat_c.c:1164-1207 | for any list, well numbered or not: erasing succeeds exactly when the block is linked and unused; list, ids and references afterwards; ids that were 0..n-1 are so again if and only if no block that is bound but not linked had a higher id |
| BlockList.RenumberedIff | src/llvm_compat_c.c:1188-1198 | the counting argument behind that condition |
| BlockList.StaleId | src/llvm_compat_c.c:1188-1198 | a higher id that stays collides or is out of range |

## Left out
- Peephole.RunPeepholePasses: of what is removed only the folds of constants are stated; a pass that reuses fewer loads or drops fewer definitions would meet its contract as well, since the source promises preservation only.
- Operands without a type object, functions whose block array has holes, vectors and packed vector immediates in folding; floating point, casts and aggregate access are opaque operations.
- Memory of the interpreter is one flat space of bytes; reading a byte never written makes a run undefined, and a called function that does not return is not modelled.
- FloatConvert.FromI64Exact: the smallest integer is excluded, because negating it is not defined in C.
- Square root, remainder and power of binary128, 32-bit integers and floats, and NaN payloads.
- Bitstream.AbbreviatedRoundTrip: abbreviations whose first operand is an array or a blob, and variable-width operands narrower than two bits, are not covered: the former have no code, the latter never end.
- Entering blocks of bitcode, block info, the string table and the type and constant tables; running out of memory while a record grows.
- BitReader.Reader.ReadEntry: what the decoders make of a record is left to the caller.
- NestedBlock.SkipsWhen: block ids from 128 on and widths from 8 on are covered by NestedBlock.SkipNestedIff alone.
- SwitchLowering.FunctionDecoder.Decode: case values and the switched value are numbers, all other terminators are lists of targets, and the retyping passes that follow deduplication are not part of the model.
- Underscore and tag aliases of names, competing host bindings, symbols added by the host later, and the caches of the last lookups in the lazy JIT; providers of symbols are a fixed map.
- LazyJit.Jit.GlobalRelocs: the bytes written into data are not modelled, only which functions they make ready and whether a failure was passed over.
- LazyJit.Jit.Materialize: prefetching threads and slots for indirect loads are not modelled, page protection only as an answer; what a compilation produces is arbitrary.
- Signature.ModuleSignatureInjective: what is not written has to have a fixed value; SignatureShape.ModuleSignatureIff covers the rest. Floating-point constants are their bits.
- Signature.FunctionSignatureInjective: likewise, with SignatureShape.FunctionSignatureIff.
- SignatureShape.FunctionSignatureIff: a missing name and an empty one are the same, as are a missing list of parameters and one of missing types; arrays that repeat the instruction lists, and links between objects, are not part of a function.
- CodeCache.Cache.Insert: allocation failure while an entry is copied.
- Patch.PatchBranch26: the difference of two addresses is taken without overflow, which C leaves undefined.
- TextParser.Parser.ParseList: a list of more than 256 entries ends in an error, where the source writes past its array.
- Keyword tokens are kept as the words themselves.
- TypeLex.TypeRoundTrip: named types are left out, because their printed form is the name only.
- TextParser.Parser.ParseInitializer: floating-point literals, pointers, relocations and constant expressions in initializers are not part of the model and end it with a failure.
- GepFold.ParseConstGepOffset: offsets are integers; where a product or sum leaves 64 bits, C defines no result.
- GepFold.RuntimeStep: how many bytes of a narrow index are sign-extended at run time is not modelled.
- GepFold.ConstGepTryComputeOffset: types with 2^32 fields or more are excluded from the comparison of the two folders.
- BlockList.Function.Insert: the order in which detached blocks are remembered is not modelled; what further edits do to a list that is already broken is not stated.
- The switch lowering of the text parser, which repairs no phis; the merging and renaming of modules; object files, debug information, the compiler front end, diagnostics and environment variables.
- Wrap-around of 32-bit counters and capacities, and exhaustion of the arena.
