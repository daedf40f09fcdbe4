# Primordial Soup, verified

Primordial Soup is the virtual machine of the Newspeak language. This project models the parts of it whose correctness
is hardest to see from the code, and proves what they are for:

- **the garbage-collected heap** (`vm/heap.cc`): the copying scavenger with tenuring, ephemerons, weak arrays and the
  weak class table; mark-sweep with region-wise sweeping; one-way become with the exchange of class ids; and the write
  barrier that keeps the remembered set complete between collections;
- **unbounded integers** (`vm/large_integer.cc`): sign-magnitude addition, subtraction and multiplication, long division
  with all its roundings, shifts, two's-complement bitwise operations computed on sign-magnitude digits, decimal text,
  and conversion from and to 64-bit words and doubles;
- **printing and reading doubles** (`double-conversion/`): fast and exact digits, the shortest ones (Grisu3), a given
  number of digits and a given number of places; the 64-bit reader with its error estimate, the exact comparison behind
  it, the cut at 780 digits, and the fixed-capacity numbers (`bignum.cc`) that the exact parts compute with;
- **contexts and sends** (`vm/interpreter.cc`, `vm/lookup_cache.*`): stack frames and heap activations as two forms of
  one chain of contexts, local and non-local return, and the send cache against the slow lookups.

Everything the source does step by step is a Dafny method over mutable state: a class per heap, interpreter, cache or
number, an array where the source works in a buffer. Each method is proved against a specification that is defined
without reference to the method: reachability as the least closed set, integer arithmetic on `int`, the rounding
interval of a double over `real`, the chain of contexts as a map. Where such a specification has the shape of the code,
as a search along a chain has, further lemmas say what it comes to without it: for every path of senders, every lineage
of superclasses, every trail of references, every survivor and every region.

| file | module | about |
|---|---|---|
| `HeapModel.dfy`, `ScavengeInvariant.dfy`, `ScavengeResult.dfy`, `Scavenger.dfy`, `WriteBarrier.dfy` | `HeapModel`, `ScavengeInvariant`, `ScavengeResult`, `Scavenger`, `WriteBarrier` | new-space collection and stores |
| `Marking.dfy`, `Mourning.dfy`, `Sweeping.dfy`, `MarkSweep.dfy` | `Marking`, `Mourning`, `Sweeping`, `MarkSweep` | whole-heap collection |
| `Trails.dfy` | `Trails` | what both collectors keep, told as trails from the roots |
| `Become.dfy`, `BecomeForward.dfy` | `Become`, `BecomeForward` | one-way become |
| `Digits.dfy`, `LargeInteger.dfy`, `LongDivision.dfy`, `Shifts.dfy`, `Bitwise.dfy` | `Digits`, `LargeIntegers`, `LongDivision`, `Shifts`, `Bitwise` | unbounded integers |
| `Multiplication.dfy`, `IntegerText.dfy`, `IntegerDouble.dfy`, `IntegerFromDouble.dfy` | `Multiplication`, `IntegerText`, `IntegerDouble`, `IntegerFromDouble` | products, decimal text, doubles |
| `DiyFp.dfy`, `Ieee.dfy`, `Rounding.dfy`, `Decimals.dfy` | `DiyFps`, `Ieee`, `Rounding`, `Decimals` | doubles, rounding and decimal strings |
| `Grisu.dfy`, `BignumDtoa.dfy` | `Grisu`, `BignumDtoa` | shortest digits, fast and exact; exact digits in all modes |
| `Counted.dfy`, `GrisuCounted.dfy`, `FixedDtoa.dfy` | `Counted`, `GrisuCounted`, `FixedDtoa` | a given number of digits or places |
| `Columns.dfy`, `Bignum.dfy` | `Columns`, `Bignums` | exact numbers in 128 bigits, which both printer and reader use |
| `DecimalReading.dfy`, `DecimalCompare.dfy`, `DiyFpStrtod.dfy`, `Strtod.dfy` | `DecimalReading`, `DecimalComparison`, `DiyFpStrtods`, `Strtods` | reading decimal numbers |
| `Contexts.dfy`, `ContextSteps.dfy`, `SenderChain.dfy`, `Interpreter.dfy` | `Contexts`, `ContextSteps`, `SenderChain`, `Interpreters` | frames, activations, returns |
| `Lookup.dfy`, `LookupRules.dfy`, `LookupCache.dfy`, `Sends.dfy` | `Lookup`, `LookupRules`, `LookupCaches`, `Sends` | sends, what each kind finds, and their cache |
| `Arith.dfy` | `Arith` | powers, products and quotients |

The one specification of shortest printing, `Rounding.ShortestFor`, is met by the fast and the exact printer, and so are
those of a given number of places and of digits, `BignumDtoa.FixedFor` and `BignumDtoa.CountedFor`, which leave room for
one answer each (`FixedOnce`, `CountedOnce`). `DecimalReading.ReadsAs` (round to nearest, ties to even, section 4.3.1 of
IEEE 754-2008) is met by the reader; `DecimalReading.RoundTrip` joins printing and reading.

## Model

| member | source | states |
|---|---|---|
| `Scavenger.Heap.Scavenge` | vm/heap.cc:308-371 | From any well-formed heap, with or without free blocks and corpses between its objects: `moved` is one-to-one; if the roots, handles or remembered objects touch new space it moves exactly the live new objects, otherwise nothing; every surviving slot and root is its old value followed through `moved`, dead weak slots and dead ephemerons are nil, exactly the ids of dead classes join the free list, and the heap is ready for the next collection. New space is packed from its start to its top, and all that is left there is below the survivor line. |
| `Scavenger.Heap.Collect` | vm/heap.cc:324-341 | Roots, the trace loop and the mourning passes end in a state where nothing is grey, no list is left and nothing refers to from-space. |
| `Scavenger.Heap.FlipSpaces` | vm/heap.cc:373-393 | The spaces are exchanged, a too small one is replaced, and the new to-space is empty, no smaller, and apart from the old one. |
| `Scavenger.Heap.ScavengeRemembered` | vm/heap.cc:421-432 | The remembered set is filtered in place without ever overwriting an entry that has not been read, every remembered ephemeron is listed, and something moves exactly if some remembered object touches new space. |
| `Scavenger.Heap.ScavengeRootPointers` | vm/heap.cc:434-445 | Afterwards no root refers to from-space; something moves exactly if a root did. |
| `Scavenger.Heap.ScavengeToSpace` | vm/heap.cc:447-465 | The scan pointer ends at the allocation pointer with every copy scanned, those made meanwhile included. |
| `Scavenger.Heap.ProcessTenureStack` | vm/heap.cc:489-494 | The stack ends empty, whatever the scan of a tenured object pushes; termination is by the words of from-space that are left. |
| `Scavenger.Heap.MoveObject` | vm/heap.cc:535-571 | A first visit moves a survivor to old space or a young object to to-space, leaves a forwarding pointer, and keeps the invariant. |
| `ScavengeInvariant.TenureKeepsInv` | vm/heap.cc:467-472 | There is room for the push: the tenure stack growing down never meets the allocation pointer growing up, because every push gives back an object of at least two words. |
| `Scavenger.Heap.ScavengeOldObject` | vm/heap.cc:573-589 | A scanned old object is remembered again if a slot or its class is still new, and queued instead if it is a weak array or an ephemeron. |
| `Scavenger.Heap.ScavengeEphemeronList` | vm/heap.cc:853-877 | Ephemerons with live keys are scanned, the others go back on the list; if nothing moved, all that are left have dead keys. |
| `Scavenger.Heap.MournEphemeronList` | vm/heap.cc:913-931 | Every ephemeron left on the list is cleared to nil, and nothing else changes. |
| `Scavenger.Heap.MournWeakList` | vm/heap.cc:939-961 | Weak slots follow moved targets, dead ones become nil, and arrays that still refer to new space stay remembered. |
| `Scavenger.Heap.MournClassTable` | vm/heap.cc:1022-1042 | Moved classes are followed under their number, exactly the dead ones leave the table, and the free ids still form a chain. |
| `ScavengeInvariant.LiveIsLeastClosed` | vm/heap.cc:324-333 | What the trace is to keep, `Live`, is closed under strong slots, classes and ephemerons with live keys, and is the least such set. |
| `Trails.ScavengedByTrail` | vm/heap.cc:421-533 | What is kept is exactly what has a trail that starts at a root or at any old object, remembered or not, and goes on through slots and classes of ordinary objects and through slots of ephemerons whose key is old or already on it. |
| `ScavengeResult.SurvivorsAre` | vm/heap.cc:853-961 | Every slot of a survivor and every root follows its target; a weak array has nil for each reference to the dead, and an ephemeron with a dead key has three nils. |
| `ScavengeResult.OldAfterTwo` | vm/heap.cc:348-551 | What a scavenge leaves in new space and the next one keeps is old after that, whatever happens in between, with its body; what has been allocated in between stays new unless everything is tenured. |
| `ScavengeResult.SoundAfter` | vm/heap.cc:308-371 | Afterwards every reference leads to an object and every object has the shape its class asks for. |
| `ScavengeResult.EphemeronsKeptExactly` | vm/heap.cc:330-341 | The trace loop is skipped if the roots moved nothing; the values of ephemerons with live keys are kept if and only if the roots touch new space or those ephemerons are empty already. |
| `ScavengeResult.EphemeronCanBeLost` | vm/heap.cc:330-341 | A well-formed heap that meets neither condition. |
| `Scavenger.Heap.Store` | vm/object.h:262-273 | A store leaves a heap that is ready for a collection and differs in that slot and, exactly if an old object that was not remembered now refers to a new one, in the remembered set and the bit of that object. |
| `WriteBarrier.StoreKeeps` | vm/object.h:262-273 | After a store the remembered set holds every old object that refers to a new one, each once and with its bit set. |
| `MarkSweep.Heap.MarkSweep` | vm/heap.cc:627-682 | Exactly the live objects are left, with weak slots and dead ephemerons cleared; the class table keeps exactly the live classes; the remembered set is rebuilt; empty regions go, free blocks of the others are the free list, live words are counted, and headers still tile new space and every region. Marked blocks that are no objects are counted as live and kept, this once. |
| `Marking.LiveIsLeast` | vm/heap.cc:684-745 | `Live` is closed under what marking follows and is the least closed set. |
| `Trails.MarkedByTrail` | vm/heap.cc:684-745 | It is exactly what has a trail from the roots, through slots and classes of ordinary objects and through slots of ephemerons whose key is already on it; a weak array leads nowhere. |
| `Marking.MarkedIsLive` | vm/heap.cc:644-660 | When the mark stack is empty and no listed ephemeron has a marked key, the marked objects are exactly the live ones. |
| `MarkSweep.Heap.ProcessObject` | vm/heap.cc:713-745 | One object off the mark stack: what it keeps alive is marked, or it is queued; the remembered set and its bits stay exact. |
| `MarkSweep.Heap.Mark` | vm/heap.cc:646-651 | The loop over mark stack and ephemeron list ends, with nothing left to mark. |
| `Mourning.NothingDangles` | vm/heap.cc:879-1057 | After the mourning passes no surviving object, root, weak array, ephemeron or class-table entry refers to anything that is swept. |
| `Mourning.SurvivorsAre` | vm/heap.cc:879-1016 | A survivor is what it was, except that a weak array has nil for each reference to the dead, and only for those, and that an ephemeron has three nils exactly if its key is dead. |
| `Mourning.RememberedExactly` | vm/heap.cc:713-745 | The rebuilt remembered set holds exactly the surviving old objects that refer to surviving new ones. |
| `MarkSweep.Heap.Sweep` | vm/heap.cc:747-798 | What is not marked goes, marks are cleared, regions without a marked block are dropped, and the layout of the rest is kept, whether or not what is marked is an object. |
| `MarkSweep.Heap.SweepRegion` | vm/heap.cc:800-829 | Adjacent dead blocks become one free block, also across earlier free blocks, and the answer says whether anything lives there. |
| `Sweeping.CoalesceKeeps` | vm/heap.cc:805-825 | Coalescing keeps the live blocks and the total size, and leaves no two free blocks next to each other. |
| `Sweeping.RegionDivided` | vm/heap.cc:800-829 | The live blocks and the free ones that a region is swept into fill it without a gap. |
| `Sweeping.KeptExactly` | vm/heap.cc:779-797 | The regions that are left are exactly those with a live block. |
| `Sweeping.FreeExactly` | vm/heap.cc:747-798 | The free list holds exactly the free blocks of the regions that are left. |
| `Sweeping.WordsExactly` | vm/heap.cc:747-798 | Live words and free words together are all the words of the regions that are left. |
| `BecomeForward.Heap.BecomeForward` | vm/heap.cc:1072-1179 | It succeeds exactly if the request has no small integers, splits, chains or the arrays themselves. Then every slot, root and class follows the forwarding; otherwise nothing changes. Either way the heap is valid again, with corpses of this and earlier becomes around that nothing refers to. The ids that join the free list are exactly those that had a class and have none any more, and none on failure. |
| `BecomeForward.Heap.Check` | vm/heap.cc:1077-1111 | Marks tell an orderly request from any other, and all marks set for it are taken back. |
| `Become.OrderlyRequest` | vm/heap.cc:1077-1111 | What an orderly request is, index by index: references only, no old object twice, none that is also a new one, and neither array among them. |
| `BecomeForward.Heap.MakeCorpses` | vm/heap.cc:1118-1138 | Old objects become corpses of the same size; each new object gets the hash of the last old object that becomes it. |
| `Become.ForwardingPairs` | vm/heap.cc:1118-1138 | Each old object is forwarded to the new object at its own index. |
| `Become.HashFromLast` | vm/heap.cc:1124 | The hash of a new object is that of the old one at the last index at which it occurs, and what it was for all others. |
| `BecomeForward.Heap.ExchangeClassIds` | vm/heap.cc:1237-1269 | Every index of the class table is handed to the class its own class becomes, also when classes merge or swap. |
| `Become.CidFits` | vm/heap.cc:395-408 | After the exchange the id every instance is given leads to what its class has become. |
| `BecomeForward.Heap.UnmarkCorpses` | vm/heap.cc:1271-1276 | Exactly the marked corpses that are still in the table are unmarked. |
| `BecomeForward.Heap.ForwardHeap` | vm/heap.cc:1198-1235 | Every object is forwarded once, dead cells are stepped over, and the remembered set is rebuilt exactly. |
| `BecomeForward.Heap.MournClassTableForwarded` | vm/heap.cc:1059-1070 | Exactly the indices whose entries lead to corpses are freed: each joins the chain of free ids, and no other entry changes. |
| `BecomeForward.CorpseCanStayMarked` | vm/heap.cc:1271-1276 | A request on a sound heap that leaves a corpse marked. |
| `Become.NothingRefersToCorpses` | vm/heap.cc:1140-1143 | After a become no object, root or class-table entry refers to a corpse. |
| `Become.SoundAgain` | vm/heap.cc:1147-1176 | Without the corpses the heap is sound, and each class in the table has its index as its id. |
| `LargeIntegers.Add` | vm/large_integer.cc:322-340 | The value of the result is the sum, for all signs and sizes. |
| `LargeIntegers.Subtract` | vm/large_integer.cc:342-360 | The value of the result is the difference. |
| `LargeIntegers.AbsAddOneInPlace` | vm/large_integer.cc:268-284 | The magnitude grows by one, or wraps to zero exactly if every digit was the largest. |
| `LargeIntegers.Divide` | vm/large_integer.cc:887-1171 | Truncated quotient and remainder, floored remainder and exact quotient (null exactly if the remainder is not zero) are right for all operands; the floored quotient is right if and only if `FlooredQuotientFits`. The result is in canonical form unless the digits of that quotient have wrapped to zeros. |
| `LargeIntegers.RoundingLaws` | vm/large_integer.cc:887-1171 | The specification of the roundings: the truncated remainder is smaller than the divisor and has the sign of the dividend, and the floored quotient is the only floor. |
| `LargeIntegers.FlooredQuotientCanFail` | vm/large_integer.cc:980-986 | Inputs of every size in every base whose floored quotient loses its carry. |
| `LongDivision.Estimate` | vm/large_integer.cc:1065-1075 | The estimate of a quotient digit is right or one too large, and is a digit. |
| `LongDivision.DivideStep` | vm/large_integer.cc:1065-1098 | Multiply, subtract and add back leave the remainder of the window, smaller than the divisor. |
| `LongDivision.DivideDigits` | vm/large_integer.cc:1064-1099 | The digits of the dividend end as quotient and remainder. |
| `Shifts.ShiftLeft` | vm/large_integer.cc:750-808 | The value times a power of two. |
| `Shifts.ShiftRight` | vm/large_integer.cc:810-885 | The floor of the value over a power of two if and only if `ShiftRightFits`, and zero otherwise; in canonical form under the same condition. |
| `Shifts.ShiftCanFail` | vm/large_integer.cc:868-880 | Inputs of every size in every base whose shifted value loses its carry. |
| `Bitwise.And` | vm/large_integer.cc:373-476 | Bit by bit the conjunction of two's complements if and only if `BitwiseFits`, and zero otherwise. |
| `Bitwise.Or` | vm/large_integer.cc:478-616 | Bit by bit the disjunction, for all signs and sizes. |
| `Bitwise.Xor` | vm/large_integer.cc:618-748 | Bit by bit the exclusive or if and only if `BitwiseFits`, and zero otherwise. |
| `Bitwise.OrFits` | vm/large_integer.cc:570-616 | A negative disjunction never carries out. |
| `Bitwise.AndCanFail` | vm/large_integer.cc:441-473 | Negative operands for every width whose conjunction carries out. |
| `Bitwise.XorCanFail` | vm/large_integer.cc:652-714 | Operands of mixed sign for every width whose exclusive or carries out. |
| `Multiplication.Multiply` | vm/large_integer.cc:362-371 | The value of the result is the product, for all signs and sizes. |
| `Multiplication.MultiplyRow` | vm/large_integer.cc:302-313 | A row adds one digit's multiple in place and its last carry fits into one digit. |
| `IntegerText.PrintString` | vm/large_integer.cc:1173-1240 | The decimal text of every number that is not zero: no leading zero, and a minus sign exactly for negative numbers. The buffer is long enough. |
| `IntegerText.TextUnique` | vm/large_integer.cc:1223-1231 | A number has at most one such text. |
| `IntegerText.DecimalEstimate` | vm/large_integer.cc:1182-1187 | A power of ten below a power of two has no more zeros than the estimate from the number of bits. |
| `IntegerText.LogOfTwo` | vm/large_integer.cc:1182-1184 | The published approximation is not below the logarithm of two: 2^100000 does not exceed 10^30103. |
| `IntegerDouble.AsDouble` | vm/large_integer.cc:1242-1367 | The double nearest to the integer, ties to even, or infinity. |
| `IntegerDouble.RoundedFromLeading` | vm/large_integer.cc:1268-1280 | The leading 54 bits and whether anything is below them decide the rounding. |
| `IntegerFromDouble.Reduce` | vm/large_integer.cc:58-97 | The value is kept, and the result is a word exactly if the value fits into 64 bits. |
| `IntegerFromDouble.Expand` | vm/large_integer.cc:19-56 | The digits of every word, the least one included, have its value. |
| `IntegerFromDouble.NewFromShiftedInt64` | vm/large_integer.cc:1433-1491 | The word times a power of two, without a zero digit on top. |
| `IntegerFromDouble.FromDouble` | vm/large_integer.cc:1493-1534 | The integer part of every finite double, in its one form. |
| `IntegerFromDouble.ThereAndBack` | vm/large_integer.cc:1242-1534 | A double of at least 2^52 is converted to an integer and back without a change. |
| `IntegerFromDouble.BackAndThere` | vm/large_integer.cc:1242-1534 | An integer is converted to a double and back without a change if and only if it is a number below 2^53 times a power of two up to 2^971. |
| `DiyFps.DiyFp.Multiply` | double-conversion/diy-fp.h:68-85 | Four 32-bit products give the upper half of the product, rounded to nearest, without overflow. |
| `DiyFps.DiyFp.Normalize` | double-conversion/diy-fp.h:92-114 | The value is kept and the top bit is set. |
| `Ieee.NormalizedBoundaries` | double-conversion/ieee.h:170-185 | The boundaries halfway to the neighbours, the closer lower one included, at one exponent and without losing a bit. |
| `Grisu.BiggestPowerTen` | double-conversion/fast-dtoa.cc:240-256 | A power of ten that the number is less than ten times of, with the number of its digits; not larger than the number if that uses all but two of its bits. |
| `Grisu.RoundWeed` | double-conversion/fast-dtoa.cc:61-166 | If trusted, the chosen digit is not zero and its number is safely inside and closest whatever the exact numbers within the error are. |
| `Grisu.DigitGen` | double-conversion/fast-dtoa.cc:300-396 | If trusted, the digits are safely between the boundaries, no shorter ones are, and no neighbour of the same length is closer; no 64-bit step overflows. There are at most seventeen digits if the unsafe interval is not below the 10^16th part of the number, and twenty in any case. |
| `Grisu.ChosenExactly` | double-conversion/fast-dtoa.cc:258-299 | The choice made on rounded numbers is right for all exact numbers within one unit of them. |
| `Grisu.NoShorterString` | double-conversion/fast-dtoa.cc:258-299 | No decimal number at all in the unsafe interval has fewer digits, at whatever exponent. |
| `Grisu.Grisu3` | double-conversion/fast-dtoa.cc:519-583 | With a cached power within half a unit of the power of ten, trusted digits, seventeen at most, are the shortest and closest of the double: the specification that the exact printer meets. |
| `GrisuCounted.RoundWeedCounted` | double-conversion/fast-dtoa.cc:181-223 | If trusted, the remainder with its error on either side is on one side of the half, and the digits are rounded to that side, nines carried over. |
| `GrisuCounted.DigitGenCounted` | double-conversion/fast-dtoa.cc:428-507 | If trusted, so many digits are written, and they are nearest for every number within one unit of the scaled one; no 64-bit step overflows. |
| `GrisuCounted.Grisu3Counted` | double-conversion/fast-dtoa.cc:591-632 | Trusted digits are the double rounded at the last place written. With up to seventeen digits they are those of the exact printer, and with more they are unless the double is below the power of ten that they write by more than half a unit of the place it would then have. |
| `FixedDtoa.UInt128.Multiply` | double-conversion/fixed-dtoa.cc:42-57 | The product, whenever it has no more than 128 bits; the carries never overflow a word. |
| `FixedDtoa.UInt128.Shift` | double-conversion/fixed-dtoa.cc:59-78 | The floor of the quotient by a power of two, or the product with it modulo 2^128. |
| `FixedDtoa.UInt128.DivModPowerOf2` | double-conversion/fixed-dtoa.cc:82-95 | Quotient and remainder. |
| `FixedDtoa.FillDigits32` | double-conversion/fixed-dtoa.cc:130-150 | The digits of the number, found backwards and exchanged in place; no other digit changes. |
| `FixedDtoa.FillDigits64` | double-conversion/fixed-dtoa.cc:168-186 | The same for 64 bits, from three parts. |
| `FixedDtoa.RoundUp` | double-conversion/fixed-dtoa.cc:189-218 | One more in the last place, whatever nines there are. |
| `FixedDtoa.FillFractionals` | double-conversion/fixed-dtoa.cc:230-287 | Integer part and fraction are rounded to so many places, halves up; multiplying by five instead of ten never overflows 64 or 128 bits. |
| `FixedDtoa.TrimZeros` | double-conversion/fixed-dtoa.cc:292-307 | The same number without zeros at either end. |
| `FixedDtoa.FastFixedDtoa` | double-conversion/fixed-dtoa.cc:310-403 | It gives up exactly for an exponent or a number of places above twenty. Otherwise the digits and the decimal point are the double rounded to so many places, halves up: the specification that the exact printer meets. |
| `Bignums.Bignum.MultiplyByUInt32` | double-conversion/bignum.cc:250-276 | The product, in place and without a zero bigit on top, if it fits. |
| `Bignums.Bignum.MultiplyByUInt64` | double-conversion/bignum.cc:279-308 | The same for a factor of 64 bits, although no word is wider. |
| `Bignums.MultiplyHalves` | double-conversion/bignum.cc:294-301 | Two products with the halves of the factor give the bigit and the carry of the whole one, and no sum overflows. |
| `Bignums.Bignum.ShiftLeft` | double-conversion/bignum.cc:239-247 | The value times a power of two. |
| `Bignums.Bignum.MultiplyByPowerOfTen` | double-conversion/bignum.cc:311-352 | The value times a power of ten, as factors of five and a shift. |
| `Bignums.Bignum.Align` | double-conversion/bignum.cc:726-748 | Hidden zero bigits become real ones, and the value stays. |
| `Bignums.Bignum.AddBignum` | double-conversion/bignum.cc:166-209 | The sum, whatever the two exponents are; one bigit more than the longer one is enough. |
| `Bignums.Bignum.SubtractBignum` | double-conversion/bignum.cc:212-236 | The difference; the borrow never runs off the top. |
| `Bignums.Bignum.SubtractTimes` | double-conversion/bignum.cc:767-794 | The value less a multiple of another number. |
| `Bignums.Bignum.DivideModuloIntBignum` | double-conversion/bignum.cc:502-565 | Quotient and remainder, for every quotient of 16 bits. |
| `Bignums.EstimateFits` | double-conversion/bignum.cc:551-561 | The quotient of the top bigits is never too large, and right if the test on them says so. |
| `Bignums.Bignum.Square` | double-conversion/bignum.cc:355-424 | The square, column by column in place; nothing is overwritten that is still read, and no column overflows a word. |
| `Columns.ProductIs` | double-conversion/bignum.cc:360-373 | The columns with their weights add up to the product. |
| `Bignums.Bignum.AssignPowerUInt16` | double-conversion/bignum.cc:427-498 | The power of every base of 16 bits; the capacity that is asked for at the start is enough for every square on the way. |
| `Bignums.Bignum.AssignDecimalString` | double-conversion/bignum.cc:97-115 | The number that the digits write. |
| `Bignums.Compare` | double-conversion/bignum.cc:644-667 | The order of the values, whatever the two exponents are. |
| `Bignums.PlusCompare` | double-conversion/bignum.cc:670-712 | The order of a sum and a number, without computing the sum. |
| `BignumDtoa.InitialScaledStartValues` | double-conversion/bignum-dtoa.cc:568-598 | Numerator and denominator represent the double over the estimated power of ten, and the deltas both boundaries if they are needed, in all three cases. |
| `BignumDtoa.FixupMultiply10` | double-conversion/bignum-dtoa.cc:612-639 | An estimate that is one too small is corrected, so that the first digit is the leading one, with deltas or without. |
| `BignumDtoa.PowerOfTenEven` | double-conversion/bignum-dtoa.cc:617-623 | No double with an odd significand is a power of ten, so that the strict comparison for odd ones loses nothing when there are no deltas. |
| `BignumDtoa.GenerateShortestDigits` | double-conversion/bignum-dtoa.cc:185-274 | The digits are in the interval, none shorter is, none of the same length is closer, ties go to the even digit, and the last digit is never rounded up from nine. |
| `BignumDtoa.IntervalIsRounding` | double-conversion/bignum-dtoa.cc:189-203 | Being in the scaled interval is the same as being read back as the double. |
| `BignumDtoa.GenerateCountedDigits` | double-conversion/bignum-dtoa.cc:283-317 | So many digits, the first not zero, are the double rounded at that place, halves up; the decimal point moves by at most one, when nines are carried over. |
| `BignumDtoa.BignumToFixed` | double-conversion/bignum-dtoa.cc:326-366 | So many places are the double rounded there, halves up, also if its first digit is at or below the place that decides. |
| `BignumDtoa.BignumDtoa` | double-conversion/bignum-dtoa.cc:89-169 | For every positive finite double: the shortest and closest digits, at most seventeen; or the one right answer for a number of places or of digits. |
| `BignumDtoa.FixedOnce` | double-conversion/bignum-dtoa.cc:320-324 | Two answers for a number of places have the same decimal point and differ at most in zeros at the end: so do those of the fast and the exact printer. |
| `BignumDtoa.CountedOnce` | double-conversion/bignum-dtoa.cc:277-282 | There is one answer for a number of digits. |
| `DecimalReading.ReadingUnique` | double-conversion/strtod.cc:455-486 | Every number is read as at most one double or infinity. |
| `DecimalReading.ReadIsNearest` | double-conversion/strtod.cc:455-486 | No other double is nearer to the number than the one it is read as, and if one is as near, the one it is read as is even. |
| `DecimalReading.RoundTrip` | double-conversion/strtod.cc:455-486 | Reading the shortest digits of a double gives that double. |
| `DecimalComparison.CompareBufferWithDiyFp` | double-conversion/strtod.cc:388-414 | The comparison with a binary number is exact in both directions, and 128 bigits are enough for it at up to 780 digits and every exponent that gets there. |
| `DecimalReading.NoBoundaryBetween` | double-conversion/strtod.cc:88-119 | No boundary between doubles lies strictly between consecutive numbers of 779 digits. |
| `DecimalReading.CutToMaxSignificantDigits` | double-conversion/strtod.cc:104-119 | Replacing all digits after the 779th by a one never changes the double that is read. |
| `DecimalReading.TrimAndCut` | double-conversion/strtod.cc:122-143 | Trimming zeros and cutting keep the reading, for strings of any length. |
| `DiyFpStrtods.ReadDiyFp` | double-conversion/strtod.cc:149-187 | The significand is the number to within half a unit, and exact if nothing remains. |
| `DiyFpStrtods.ExactProductFits` | double-conversion/strtod.cc:311-322 | If the adjusted digits fit into a word, the rounded product of the two normalized factors is exact. |
| `DiyFpStrtods.ProductClose` | double-conversion/strtod.cc:325-336 | The error of a product with a power that is off by half a unit is below the error that the code adds up. |
| `DiyFpStrtods.ScaleByPower` | double-conversion/strtod.cc:299-340 | The accumulated error bounds the true error of the scaled number. |
| `DiyFpStrtods.RoundOff` | double-conversion/strtod.cc:342-377 | If the rounding bits are farther from one half than the error, the rounded double is right; otherwise it is right or the next lower one. |
| `DiyFpStrtods.CornerOnly` | double-conversion/strtod.cc:342-347 | A number whose approximation is rounded to zero and that is larger than half of the smallest double starts with nineteen particular digits; for these the approximation is not that small. |
| `DiyFpStrtods.DiyFpStrtod` | double-conversion/strtod.cc:270-377 | True means correctly rounded; false means correctly rounded or the next lower double. |
| `Strtods.ComputeGuess` | double-conversion/strtod.cc:419-442 | The guess is right if it says so, and otherwise right or the next lower double, also out of range. |
| `Strtods.StrtodTrimmed` | double-conversion/strtod.cc:466-486 | The guess and at most one exact comparison give the correctly rounded double. |
| `Strtods.Strtod` | double-conversion/strtod.cc:488-495 | Every string of decimal digits with every exponent is read as the double it rounds to, or as infinity. |
| `Interpreters.Interpreter.EnsureActivation` | vm/interpreter.cc:1581-1605 | A frame gets its activation at most once, and no context changes. |
| `Interpreters.Interpreter.FlushAllFrames` | vm/interpreter.cc:1607-1650 | Moving every frame to the heap changes no context, and the top one can be resumed. |
| `Interpreters.Interpreter.CreateBaseFrame` | vm/interpreter.cc:786-838 | Rebuilding a frame from an activation changes no context. |
| `Interpreters.Interpreter.LocalReturn` | vm/interpreter.cc:872-883 | Ends the running context and resumes its sender with the value, or cannot return; the same for the fast and the base frame case. |
| `Interpreters.Interpreter.LocalBaseReturn` | vm/interpreter.cc:885-906 | The same effect when the sender is only in the heap. |
| `SenderChain.LocalReturnRule` | vm/interpreter.cc:872-906 | Exactly if the sender is alive, the running context alone ends and the sender goes on with the value; otherwise nothing changes. |
| `Interpreters.Interpreter.NonLocalReturn` | vm/interpreter.cc:908-1002 | The home of the closure is found, and the outcome, the chain and the contexts that end are those of the search over the chain, whether or not every frame involved is on the stack. |
| `SenderChain.NonLocalReturnRule` | vm/interpreter.cc:924-1002 | Read off any path of ordinary contexts from the sender of the running one: an unwind context behind it is told and nothing changes; a simulation root or the end of the chain means that it cannot return; the home behind it, with a sender that is alive, means that exactly the running context, the path and the home end and that sender goes on with the value. |
| `SenderChain.HomeAtEnd` | vm/interpreter.cc:908-920 | The home is the activation at the end of the chain of closures, the one that is of a method. |
| `Interpreters.Interpreter.NonLocalReturnSlowly` | vm/interpreter.cc:941-1002 | The path over flushed frames: a dead or missing context on the way, an unwind block, and the return itself. |
| `Interpreters.Interpreter.HasLivingFrame` | vm/interpreter.cc:1652-1673 | Whether an activation has a frame; if its frame is gone it is marked as dead, which no one can tell. |
| `Interpreters.Interpreter.ActivationSender` | vm/interpreter.cc:1690-1701 | The sender of the context, from wherever it is kept. |
| `Interpreters.Interpreter.ActivationBCI` | vm/interpreter.cc:1721-1742 | The bytecode index of the context, from the frame above if it has one. |
| `Interpreters.Interpreter.ActivationSenderPut` | vm/interpreter.cc:1703-1719 | Changes the sender of that context and of no other. |
| `Lookup.SameClassSameTarget` | vm/interpreter.cc:404-456 | A receiver of the same class finds the same method with itself in the receiver's place if and only if the lookup does not come back to the first receiver as an object around itself: the object whose mixin application has the method, or for an outer send the object so many steps outward. |
| `Lookup.OuterReceiver` | vm/interpreter.cc:458-495 | An outer send ends at the object reached by so many steps outward, and cannot be looked up exactly if there is none or its class does not apply the mixin reached. |
| `Lookup.NeverComesBack` | vm/interpreter.cc:429-456 | It does not if the receiver is not around itself. |
| `Lookup.KernelAndNilAroundThemselves` | newspeak/KernelForPrimordialSoup.ns:2134-2543 | The kernel and nil are: nil is around the kernel, whose class inherits from a class nested in the kernel, and so does the class of nil. |
| `LookupRules.MethodInIs` | vm/interpreter.cc:290-305 | The method of a class for a selector is the first one with that selector, and there is none exactly if no method has it. |
| `LookupRules.ApplicationRule` | vm/interpreter.cc:358-366 | The application of a mixin is the first class on the way up that applies it, and is missing exactly if none does. |
| `LookupRules.OrdinaryRule` | vm/interpreter.cc:316-356 | A method is activated exactly if it is public and its class is the first on the way up with a method for the selector that is not private. Otherwise, also if that one is protected, the send is not understood. |
| `LookupRules.ProtectedRule` | vm/interpreter.cc:544-576 | The first method on the way up that is not private is activated. |
| `LookupRules.LexicalRule` | vm/interpreter.cc:525-542 | A private method of the receiver's application of the mixin comes before anything that subclasses have; otherwise it is a protected lookup from the receiver's class. |
| `LookupRules.SuperRule` | vm/interpreter.cc:368-402 | A protected lookup that starts above the first class that applies the caller's mixin. |
| `LookupRules.OutwardRule` | vm/interpreter.cc:436-449 | One step outwards leads to the object around that application and to the mixin around the mixin. |
| `LookupRules.OuterRule` | vm/interpreter.cc:458-495 | A lexical send to the object so many steps outwards, with the mixin reached there. |
| `LookupRules.ImplicitRule` | vm/interpreter.cc:404-456 | A lexical send to the first object on the way outwards whose application of the mixin has the method, else a protected lookup in the receiver. |
| `LookupRules.SendRules` | vm/interpreter.cc:368-523 | Which of these each kind of send is. |
| `LookupCaches.NsInsertedFound` | vm/lookup_cache.cc:26-50 | What was inserted last is found, even if both of its probes had been taken. No part of an entry that ordinary sends use changes. |
| `LookupCaches.NsInsertedCoherent` | vm/lookup_cache.cc:26-50 | An insertion keeps every entry right, whatever it overwrites, if and only if its answer is right for every receiver of the class. |
| `LookupCaches.LookupCache.InsertOrdinary` | vm/lookup_cache.cc:9-24 | The same for ordinary sends, in place. |
| `LookupCaches.LookupCache.Clear` | vm/lookup_cache.cc:52-57 | Nothing is found in a cleared cache, so it is right for any classes. |
| `Sends.NsForAll` | vm/interpreter.cc:404-523 | The answer that a send caches is right for every receiver of the class if and only if it is `Cacheable`: the lookup does not come back, or it is an implicit one and the class has no other instance. |
| `Sends.Sender.OrdinarySend` | vm/interpreter.cc:316-356 | With or without a hit, the target the slow lookup finds; the cache stays coherent. A hit changes no entry, and a miss enters exactly the method found, for the next send to hit. |
| `Sends.Sender.SelfSend` | vm/interpreter.cc:497-523 | The same for self sends. |
| `Sends.Sender.SuperSend` | vm/interpreter.cc:368-402 | The same for super sends. |
| `Sends.Sender.OuterSend` | vm/interpreter.cc:458-495 | From a coherent cache, with or without a hit, the target the slow lookup finds; the cache stays coherent if and only if the answer is `Cacheable`, was there already, or is no method. A miss enters the method and, if it is not the sender itself, the receiver. |
| `Sends.Sender.ImplicitReceiverSend` | vm/interpreter.cc:404-456 | The same for sends that search the enclosing objects. |
| `Sends.WrongHit` | vm/interpreter.cc:404-456 | With another instance of the class of an object around itself, an insert leads to a hit that activates the wrong receiver. |
| `Sends.NoReceiver` | vm/interpreter.cc:458-495 | An outer send of the kernel that comes back to the kernel is cached without an absent receiver. |

## Findings

Where the code does not do what its comments, assertions or callers ask for, the code is modelled as it is, an input is
given, and the condition is stated that decides it for all inputs.

- **An ephemeron with a live key can lose its value** (vm/heap.cc:330). The loop that traces copies also processes the
  ephemeron list, but it is not entered if the roots and the remembered set moved nothing. Then every remembered
  ephemeron is mourned, even one with an old, live key. `ScavengeResult.EphemeronsKeptExactly`: nothing is lost if and
  only if the roots touch new space or each remembered ephemeron whose key is outside new space holds only nil.
  `ScavengeResult.EphemeronCanBeLost` is such a heap, with the classes registered that a snapshot registers.
- **An object can be remembered for a class that is old by now** (vm/heap.cc:591-624). `ScavengeClass` answers that its
  target is new whenever it has just moved it, also to old space. `ScavengeResult.RememberedOnly` says that there is no
  other reason for an object to be remembered without referring to new space: its class was new before. It does no
  harm.
- **A floored quotient can lose its carry** (vm/large_integer.cc:980-986, 1120-1126). `AbsAddOneInPlace` works on digits
  that `Clamp` has already trimmed, so a quotient whose digits are all the largest becomes zero; and for one-digit
  operands with a quotient of zero the sign is lost too. `LargeIntegers.FlooredQuotientFits` is the exact condition: if
  the signs differ and the division is not exact, the truncated quotient plus one must not be a power of the base, or,
  if the quotient is zero, the divisor must have more than one digit. `LargeIntegers.FlooredQuotientCanFail`:
  -(2B^k - 1) and 2 give 0, not -B^k, for every k. Up to 64 bits another path divides (vm/primitives.cc), so for large
  integers that is from B^k = 2^64 on.
- **A right shift of a negative number can lose its carry** (vm/large_integer.cc:836, 870-876), for the same reason:
  `Shifts.ShiftRightFits`, and in `Shifts.ShiftCanFail` the same numbers shifted by one bit.
- **And of two negative numbers and Xor of mixed signs can lose their carry** (vm/large_integer.cc:470, 679, 710). The
  results are right if and only if the operands have a result bit of one within the width of the longer one
  (`Bitwise.BitwiseFits`); `Bitwise.AndCanFail` and `Bitwise.XorCanFail` are inputs for every width. Or cannot fail:
  `Bitwise.OrFits`.
- **The send cache lets the class of the receiver stand for the receiver** (vm/interpreter.cc:404-427, 458-495). That
  is right if and only if the lookup does not come back to the receiver as an object around itself
  (`Lookup.SameClassSameTarget`). Being around oneself is no exception: the kernel and nil always are
  (newspeak/KernelForPrimordialSoup.ns:2134, 2543; newspeak/Mirrors.ns:674-677), as in
  `Lookup.KernelAndNilAroundThemselves`. A send still finds what the lookup finds as long as the cache is coherent, and
  it stays so if and only if the answer is `Lookup.Cacheable`, no method was found, or the answer was there before. An
  implicit send that comes back is cacheable if its class has no other instance, as that of nil; with another one, which
  also adopting an instance can make (vm/primitives.cc:2885-2907), there is a wrong hit: `Sends.WrongHit`. An outer send
  that comes back never is. It is cached without an absent receiver, and the next hit, even one by the same sender, has
  none to activate the method with, which is only asserted (vm/interpreter.cc:473): `Sends.NoReceiver`, with the kernel.
- **A corpse can keep its mark bit** (vm/heap.cc:1271-1276). Marks set during the exchange of class ids are cleared
  through the class table, but a corpse whose target had no id yet is no longer in it. `BecomeForward.StaysMarked` says
  which corpses these are, and `BecomeForward.CorpseCanStayMarked` gives one: a class becomes another one that has not
  been instantiated yet. Nothing refers to such a corpse, and later becomes are not affected. The next sweep takes it
  for live (vm/heap.cc:805-809): `MarkSweep.Heap.MarkSweep` keeps its block and its region and counts its size, but
  clears the mark, so the sweep after that frees it.

## Left out

- Word size: the digit base of large integers is a parameter `Pow(2, bits)`, and sizes are unbounded; the double-width
  intermediate of a digit product is an integer. Combining two disjoint shifted parts with `|` is modelled as `+`.
- IntegerDouble.AsDouble: requires 54 significant bits, which every integer that is not reduced to a word has
  (`IntegerFromDouble.Reduced`); the source asserts only a number of digits. NaN is not a value of the model.
- Small and medium integers are one constructor, `Fixed`; where the boundary between them lies depends on the word size.
- `Bignum` in hexadecimal (double-conversion/bignum.cc:132-153, 589-630), which only unit tests use, and the debug
  assertions on intermediate bigits in its division (double-conversion/bignum.cc:523-524, 531): quotient and remainder
  are right from its precondition (double-conversion/bignum.cc:501) alone. Its exponent is not limited to 16 bits.
- Single precision, and the grammar and layout of numbers (double-conversion/string-to-double.cc,
  double-conversion/double-to-string.cc).
- `BignumDtoa.BignumDtoa` and `BignumDtoa.GenerateCountedDigits`: at least one digit has to be asked for. The source
  asserts only that the number is not negative (double-conversion/bignum-dtoa.cc:286), but its caller answers a request
  for none itself (double-conversion/double-to-string.cc:405-409).
- `GrisuCounted.Grisu3Counted`: beyond seventeen digits whether a double is that close below a power of ten depends on
  the entries of the table of powers, which are not part of the model.
- Hardware floating point: `EstimatePower` is a number that undershoots by at most one, and `DoubleStrtod` a function
  that is right when it answers. The cached powers of ten are any table with each entry within half a unit of its last
  place and the published first entry.
- DiyFpStrtod: the exponent is bounded with all digits counted, which its only caller guarantees with room to spare; the
  source asserts a bound that counts fewer of them.
- Buffers of characters hold the values of digits, except in `IntegerText`.
- Scavenger: old space gives any free even address for a tenured object, in place of the free lists and regions
  (vm/heap.cc:180-265, 1525-1596); where the operating system puts a larger semispace, and when to grow, are parameters.
- MarkSweep: the mark stack is unbounded, and the free list is the sequence of blocks handed to it, without size
  classes.
- Scavenger, MarkSweep and BecomeForward describe the heap in three classes, each with the fields its operation works
  on. In BecomeForward an object also has its identity hash and cells may be corpses or free blocks; in MarkSweep
  headers carry sizes. Only the scavenger and the barrier share their class.
- BecomeForward: moving frames to the heap before the corpses are made (vm/heap.cc:1115) is `FlushAllFrames`, and
  clearing the caches afterwards is `Clear`; they are not part of the method. That every class that turns is registered
  or has no id is required, as the source asserts it.
- Contexts: instruction pointers are bytecode offsets, and the identity of an activation that a frame will get is
  chosen when the frame is made. What a dead context's temporaries were is not part of the chain.
- `Interpreters.Interpreter.LocalReturn` and `NonLocalReturn`: they require that a context is not its own sender and
  that the chain of senders is finite; on a circular chain the source's search does not end.
- Sends to what is not understood end in `NotUnderstood`; building the message and the second send are not modelled.
- Bytecode dispatch, primitives, snapshots, message loops, processes, handles and ports.
