# The PAR 2.0 engine, modelled and verified

This project models the engine in `jni/libpar2`: the Reed-Solomon coder over the fields of 2^16 and 2^8 elements, the scanner
that slides a window over data files, and the planner that decides what goes where. It follows the Parity Volume Set
Specification 2.0 (Main packet, Recovery Slice packet) as the code implements it, and RFC 1321 for the streaming hash. Where the
code and its comments disagree, the code is modelled.

Code that computes by changing things step by step is modelled by methods with loops over arrays and by classes whose methods
change their fields; what such a method does is stated with functions, and the properties are lemmas about those functions.

The files, in the order in which they build on each other:

- **Fields.** `Bits` (exclusive or on numbers), `Galois` (polynomial multiplication modulo a generator, and its laws), `Orders`
  (powers of x, their order), `Words` and `Generators` (x is primitive for 0x1100B and 0x11D), `GaloisTables` (the log and antilog
  tables), `Fields` and `Galois16` (the field laws, and the 16-bit field).
- **Linear algebra.** `Matrices`, `Elimination` (Gauss-Jordan in place, without pivoting), `Vandermonde` (when no zero pivot is
  met), `ReedSolomon` (building and solving the system).
- **Coding.** `Coprime` and `BaseSelection` (the bases of the data blocks), `Cuts` (exponents cut to 16 bits), `LongMultiply`
  (multiply and accumulate through split tables), `Blocks` (reading and writing blocks), `Repair` (the passes over the data),
  `RoundTrip` (creator and repairer together).
- **Scanning.** `Bytes`, `Crc` (the CRC and its sliding form), `CrcPolynomial` (what it is the remainder of), `Md5` (the buffered
  hash), `FileCheckSummer` (the window over a file), `HashOrder`, `HashTrees` and `VerificationHashTable` (the index of blocks),
  `Matches` (what is found for a window), `Traces` (runs of the scan), `Intact` (runs over intact files), `Scan` (the methods),
  `PacketScan` (the search for packets).
- **Planning.** `Ceilings` and `Planner` (block size, distribution of recovery blocks over files), `Ranges` (runs of exponents),
  `Layout` (packets in a file), `Creation` (the packets and the rows of the matrix).

Main results:

- Recovery blocks that the creator makes restore every lost data block in the repairer, for every pattern of lost blocks, if
  elimination meets no zero pivot; and that is so exactly if all leading blocks of the system are regular
  (`RoundTrip.RepairBlocks`, `RoundTrip.CreateAndRepair`, `Elimination.GaussElim`). For exponents e, e + s, e + 2s, ... there is
  an exact condition on the lost blocks (`RoundTrip.ProgressionSolvable`, `RoundTrip.PowersAgree`), and consecutive exponents
  always work. The comments at `reedsolomon.h:374-389` promise more: `RoundTrip.SingularExample` is a singular system, and
  `RoundTrip.SwapExample` a regular one that is refused because rows are not swapped.
- The repairer cuts the exponents of recovery packets to 16 bits. The repair is right for all data exactly if 65535 divides
  e / 65536 for each exponent e it uses (`Cuts.CutPower`, `Cuts.CutReconstruction`); with exponent 65536 it restores wrong data
  (`Cuts.CutExample`).
- Over every run of `Start`, `Step` and `Jump` the checksum is the CRC of the window, and the file is hashed once and in order.
- The CRC is the remainder of the block on division by x^32 + x^26 + ... + 1 (`CrcPolynomial.CrcIsRemainder`).
- The index of blocks agrees with the list of what was loaded. The scan of a data file misses no block: wherever a full block of a
  loaded entry lies, there is a match, or it lies within the block of a match or of a skipped duplicate
  (`Scan.Par2Repairer.ScanDataFile`, `Traces.NothingMissed`).
- A full match means the whole file in order. An intact file is not always a full match: there is an exact condition on what has
  been found before and on the order of loading, for copies under any name (`Intact.IntactConfirmed`);
  `Intact.RepeatedStart` and `Intact.EarlierStart` are files that fail it.
- The size of the chunks, of the packet buffer and of the pieces that are hashed makes no difference.
- The chosen block size is a best one, though a tie can make the choice fail (`Planner.TieExample`); the recovery blocks are
  partitioned over the files as the scheme says, unless, in the variable scheme, the number of files is a multiple of 32
  (`Planner.VariableEnds`); and the critical packets are spread evenly, each in the right number of copies.

## Model

| member | source | states |
|---|---|---|
| Generators.Primitive16 | jni/libpar2/galois.h:336-336 | x has order 65535 modulo 0x1100B, so its powers are all the nonzero elements of the 16-bit field |
| Generators.Primitive8 | jni/libpar2/galois.h:335-335 | x has order 255 modulo 0x11D |
| Galois.GMulIsRemainder | jni/libpar2/galois.h:164-177 | the product of the field is the remainder of the carry-less polynomial product on division by the generator polynomial |
| Galois.GMulComm | jni/libpar2/galois.h:164-177 | the product is commutative |
| Galois.GMulAssoc | jni/libpar2/galois.h:164-177 | the product is associative |
| Galois.GMulAddLeft | jni/libpar2/galois.h:164-177 | the product distributes over exclusive or |
| Orders.PrimitiveByPrimes | jni/libpar2/galois.h:134-152 | x has full order if its powers by the order divided by each prime factor are not one |
| GaloisTables.XPowInjective | jni/libpar2/galois.h:134-152 | the antilog entries below the limit are pairwise different |
| GaloisTables.LogExists | jni/libpar2/galois.h:134-152 | every nonzero element is an antilog entry: with XPowInjective, antilog is a bijection onto the nonzero elements |
| GaloisTables.GaloisTable.constructor | jni/libpar2/galois.h:134-152 | the loop fills log and antilog for any primitive generator so that each undoes the other, with the limit and zero standing for each other |
| GaloisTables.GaloisTable.Mul | jni/libpar2/galois.h:164-177 | multiplication through logarithms is polynomial multiplication modulo the generator |
| GaloisTables.GaloisTable.Div | jni/libpar2/galois.h:202-219 | the quotient times the divisor is the dividend; division by zero gives zero |
| GaloisTables.GaloisTable.Pow | jni/libpar2/galois.h:242-259 | for exponents up to the limit, the shift-and-mask reduction gives the repeated product |
| GaloisTables.FoldProduct | jni/libpar2/galois.h:242-259 | adding the high part of an exponent to its low part does not change the power, because x to the limit is one |
| GaloisTables.ProductFits | jni/libpar2/galois.h:242-259 | the product of the logarithm and the exponent does not leave 32 bits |
| GaloisTables.GaloisTable.ALog | jni/libpar2/galois.h:307-311 | the power of x, and zero at the limit |
| GaloisTables.GaloisTable.Log | jni/libpar2/galois.h:301-305 | the logarithm is below the limit and inverts the power of x; zero has the limit |
| Galois16.GF16IsField | jni/libpar2/galois.h:36-111 | exclusive or, the product and the quotient satisfy the field laws on all 16-bit words |
| Galois16.TablesImplementField | jni/libpar2/galois.h:164-259 | the table operators compute the operations of that field |
| Matrices.ScalingKeepsSolutions | jni/libpar2/reedsolomon.h:400-418 | dividing a row of both matrices by a nonzero pivot keeps the solutions of left * x = right * y |
| Matrices.SubtractingKeepsSolutions | jni/libpar2/reedsolomon.h:433-475 | subtracting a multiple of one row from another in both matrices keeps the solutions |
| Matrices.ZeroPivotMeansSingular | jni/libpar2/reedsolomon.h:391-398 | a zero pivot after k columns have been reduced shows that the leading block of size k + 1 of the original right matrix is singular |
| Matrices.IdentityMeansRegular | jni/libpar2/reedsolomon.h:386-478 | and columns reduced to the identity show that the leading block is regular |
| Elimination.ScalePivotRow | jni/libpar2/reedsolomon.h:391-418 | the pivot row is divided by the pivot although the columns of the right matrix before the pivot are skipped |
| Elimination.ClearColumn | jni/libpar2/reedsolomon.h:420-477 | clearing a column, with the entries and the columns that are skipped, keeps the solutions and makes one more identity column |
| Elimination.GaussElim | jni/libpar2/reedsolomon.h:346-507 | it succeeds exactly if all leading blocks of the right matrix are regular, and then the reduced system has the same solutions and identity columns |
| Vandermonde.PowerSumsKernel | jni/libpar2/reedsolomon.h:374-398 | sums of consecutive powers of distinct elements vanish only with all weights zero |
| Vandermonde.RowIsPowerSum | jni/libpar2/reedsolomon.h:269-280 | a row of the right matrix applied to the weights is such a sum |
| Vandermonde.ProgressionRegular | jni/libpar2/reedsolomon.h:360-398 | for exponents e, e + s, e + 2s, ... no zero pivot is met exactly if the s-th powers of the bases of the missing blocks are distinct |
| Vandermonde.ConsecutiveRegular | jni/libpar2/reedsolomon.h:360-398 | for consecutive exponents no zero pivot is met, for any nonzero distinct bases, although rows are never swapped |
| Vandermonde.SingularInside | jni/libpar2/reedsolomon.h:374-398 | with three bases of which the first two have the same s-th power, and the exponents 0, s, s + 1, the whole system is regular but its leading two by two block is not, contrary to the comments that swapping is not necessary |
| ReedSolomon.StartMeans | jni/libpar2/reedsolomon.h:238-328 | the system that Compute sets up holds, for every set of data blocks and any words in place of the recovery blocks, exactly if these are the recovery words of the data |
| ReedSolomon.SolvedReconstructs | jni/libpar2/reedsolomon.h:332-343 | once the right matrix is the identity, each row of the left matrix computes a missing data word or a missing recovery word, for all data, and from no other words than the recovery words |
| ReedSolomon.ReedSolomon.SetOutput | jni/libpar2/reedsolomon.h:153-172 | one output row is appended, and the counts of present and missing rows agree with the rows |
| ReedSolomon.ReedSolomon.SetOutputs | jni/libpar2/reedsolomon.h:176-186 | the rows of a range of exponents, both ends included, are appended in order |
| ReedSolomon.ReedSolomon.FillUsedRows | jni/libpar2/reedsolomon.h:242-284 | the rows for recovery blocks that stand in for missing data are those of the system, in the order of the recovery blocks |
| ReedSolomon.ReedSolomon.FillAbsentRows | jni/libpar2/reedsolomon.h:285-328 | likewise the rows for recovery blocks that are missing themselves |
| ReedSolomon.ReedSolomon.Compute | jni/libpar2/reedsolomon.h:189-343 | it succeeds exactly if there is something to compute, there are enough recovery blocks and no zero pivot is met; then the left matrix reconstructs the missing blocks and recovery blocks from the present ones, and does so only from the right recovery words |
| BaseSelection.Gcd | jni/libpar2/reedsolomon.cpp:30-52 | the greatest common divisor of positive numbers, zero if one is zero |
| BaseSelection.UsableMeansGcdOne | jni/libpar2/reedsolomon.cpp:215-225 | gcd(65535, l) = 1 says that none of 3, 5, 17, 257 divides l |
| BaseSelection.UsableTotal | jni/libpar2/reedsolomon.cpp:215-225 | there are 32768 such logs below the limit |
| Coprime.CountIsTotient | jni/libpar2/reedsolomon.cpp:215-225 | how many numbers below a product of distinct primes are divisible by none of them |
| BaseSelection.NextLog | jni/libpar2/reedsolomon.cpp:215-220 | the inner search ends, at the next usable log |
| BaseSelection.SetInput | jni/libpar2/reedsolomon.cpp:192-234 | it succeeds exactly for at most 32768 blocks; the base of block i depends on i alone, not on which blocks are present; the indexes of present and missing blocks are in order |
| BaseSelection.SetInputCount | jni/libpar2/reedsolomon.cpp:236-268 | with all blocks present the bases are the same |
| BaseSelection.LogOrder | jni/libpar2/reedsolomon.cpp:215-227 | the logs increase with the block number |
| BaseSelection.BasesDistinct | jni/libpar2/reedsolomon.cpp:192-268 | the bases are nonzero and pairwise different |
| BaseSelection.BaseOrder | jni/libpar2/reedsolomon.cpp:192-268 | each base has multiplicative order 65535 |
| LongMultiply.LongMultiplyTable.constructor | jni/libpar2/galois.h:314-333 | the three tables that are kept hold the products of low and high bytes |
| LongMultiply.FillProducts | jni/libpar2/galois.h:319-331 | one table of products of bytes, and nothing else is written |
| LongMultiply.SplitProduct | jni/libpar2/reedsolomon.cpp:282-328 | the product with a word is the sum of the products with its two bytes |
| LongMultiply.CombineTables | jni/libpar2/reedsolomon.cpp:282-328 | the L and H tables for a factor, with the high-by-low products read by stride from the low-by-high table, hold the products of the factor with low and with high bytes |
| LongMultiply.ProcessWord | jni/libpar2/reedsolomon.cpp:335-346 | one 32-bit step adds factor times source to both 16-bit halves and touches nothing else |
| LongMultiply.Process | jni/libpar2/reedsolomon.cpp:270-370 | for every factor and every size that is a multiple of four, each 16-bit word of the output row becomes itself plus factor times source, and nothing else changes |
| Blocks.ReadData | jni/libpar2/datablock.cpp:45-79 | the bytes of the block, with zeros after its end |
| Blocks.WriteData | jni/libpar2/datablock.cpp:82-107 | only what lies within the block is written, and its amount is reported |
| Repair.ProcessRows | jni/libpar2/par2repairer.cpp:2272-2279 | running one input block through every row adds its share to every output buffer |
| Repair.CopyOnly | jni/libpar2/par2repairer.cpp:2301-2354 | if nothing is missing, the blocks that are wanted are copied |
| Repair.ProcessInputs | jni/libpar2/par2repairer.cpp:2231-2300 | after all input blocks the output buffers hold the whole sums, and every wanted block has been copied |
| Repair.WriteOutputs | jni/libpar2/par2repairer.cpp:2367-2381 | what was computed is written to the targets |
| Repair.ProcessData | jni/libpar2/par2repairer.cpp:2215-2387 | one pass brings every target that is set from the start of the pass to its end, by copying or by reconstruction |
| Repair.ProcessAll | jni/libpar2/par2repairer.cpp:289-306 | whatever the chunk size, the passes leave in every target the whole content of its block, cut to its length, and change nothing else |
| Repair.ChunkSizeWorks | jni/libpar2/par2repairer.cpp:2188-2212 | the chunk size is the block size if that fits the memory limit, else the largest multiple of four that does; it is positive exactly if the limit leaves four bytes for each missing block |
| RoundTrip.CreatorMatrix | jni/libpar2/par2creator.cpp:850-868 | the creator succeeds exactly for at most 32768 blocks, and its matrix computes the recovery words with exponents first, first + 1, ..., which the casts leave as they are |
| RoundTrip.Create | jni/libpar2/par2creator.cpp:870-975 | each recovery block of full length holds, for every word of the data blocks, the recovery word with its exponent |
| RoundTrip.SortBlocks | jni/libpar2/par2repairer.cpp:2105-2143 | the present blocks are inputs and may be copied, the missing ones are outputs |
| RoundTrip.ChooseRecovery | jni/libpar2/par2repairer.cpp:2149-2176 | the first recovery packets fill up the inputs, and their exponents, cut to 16 bits, are the rows |
| RoundTrip.RepairerMatrix | jni/libpar2/par2repairer.cpp:2091-2185 | it succeeds exactly if there are at most 32768 blocks and elimination meets no zero pivot with the exponents cut to 16 bits, and then the matrix reconstructs the missing blocks from the recovery words with the cut exponents and from no other words |
| Cuts.CutPower | jni/libpar2/par2repairer.cpp:2171-2171 | a base has the same power for an exponent e and for e cut to 16 bits exactly if 65535 divides e / 65536 |
| Cuts.CutReconstruction | jni/libpar2/par2repairer.cpp:2149-2176 | a matrix computed for the cut exponents gives back the missing words of all data from the recovery words with the exponents in full exactly if 65535 divides e / 65536 for every exponent e that is used |
| Cuts.CutExample | jni/libpar2/par2repairer.cpp:2171-2171 | one block, lost, and its recovery block with exponent 65536: every word that is not zero comes back wrong |
| RoundTrip.HarmlessMeansRestored | jni/libpar2/par2repairer.cpp:2149-2176 | the same condition for the recovery packets that the repairer takes |
| RoundTrip.RepairBlocks | jni/libpar2/par2repairer.cpp:2091-2387 | given genuine blocks and recovery blocks, repair succeeds exactly under the condition of RepairerMatrix, and then, if 65535 divides e / 65536 for every exponent e that is used, every target holds the original data block, whatever is missing and whatever the chunk size |
| RoundTrip.ConsecutiveSolvable | jni/libpar2/reedsolomon.h:360-398 | repair with recovery blocks of consecutive exponents always succeeds |
| RoundTrip.ProgressionSolvable | jni/libpar2/reedsolomon.h:360-398 | with exponents e, e + s, ... it succeeds exactly if the s-th powers of the bases of the lost blocks are distinct |
| RoundTrip.PowersAgree | jni/libpar2/reedsolomon.h:360-398 | the s-th powers of two bases agree exactly if 65535 divides s times the difference of their logs |
| RoundTrip.SingularExample | jni/libpar2/reedsolomon.h:374-375 | three blocks of which the first and the last are lost cannot be repaired with the exponents 0 and 21845, contrary to the comment that Vandermonde matrices are never singular |
| RoundTrip.SwapExample | jni/libpar2/reedsolomon.h:378-398 | with blocks 0, 2 and 4 of five lost and the exponents 0, 21845 and 21846 repair is refused, although the whole system is regular and swapping rows would solve it |
| RoundTrip.CreateAndRepair | jni/libpar2/par2creator.cpp:850-975 | recovery blocks made by the creator and read back restore the data in the repairer exactly if the exponents of those that are left make a system with regular leading blocks; consecutive ones always do |
| Crc.TableStep | jni/libpar2/crc.h:52-55 | the table form of entering a byte is eight shifts of the register |
| Crc.RegisterAdd | jni/libpar2/crc.h:80-92 | the register is linear in its initial value |
| Crc.RegisterWidth | jni/libpar2/crc.h:52-68 | the register stays within 32 bits |
| Crc.GenerateCRC32Table | jni/libpar2/crc.cpp:34-47 | entry b is b after eight shifts |
| Crc.UpdateChar | jni/libpar2/crc.h:52-55 | one byte enters the register |
| Crc.UpdateBlock | jni/libpar2/crc.h:58-68 | all bytes of a buffer enter it, in order |
| Crc.UpdateBlockZeros | jni/libpar2/crc.h:71-79 | so many zero bytes enter it |
| Crc.GenerateWindowTable | jni/libpar2/crc.cpp:50-63 | entry b is what a byte b at the start of a window leaves in the register after the window |
| Crc.ComputeWindowMask | jni/libpar2/crc.cpp:66-78 | the mask is what the initial value of the register leaves |
| Crc.Masked | jni/libpar2/crc.h:94-110 | the mask turns the CRC of a window into the register without initial value, and back |
| Crc.SlideChar | jni/libpar2/crc.h:89-92 | sliding with the two tables |
| Crc.SlideIsCrc | jni/libpar2/crc.h:94-110 | for every window and every next byte, mask, slide and mask again give the CRC of the window moved by one byte |
| CrcPolynomial.ShiftDivides | jni/libpar2/crc.cpp:34-47 | one shift of the register is multiplication by x modulo 0x104C11DB7, with the powers in reverse order |
| CrcPolynomial.RegisterIsRemainder | jni/libpar2/crc.h:52-68 | the register is the remainder of the message, times x^32, with the initial value in front of it, on division by that polynomial |
| CrcPolynomial.CrcIsRemainder | jni/libpar2/filechecksummer.cpp:226-238 | the CRC of a block is the complemented remainder with 32 ones in front |
| CrcPolynomial.RemainderUnique | jni/libpar2/crc.h:52-68 | there is only one remainder of degree below 32 |
| Md5.MD5Context.constructor | jni/libpar2/md5.cpp:180-185 | nothing has been hashed |
| Md5.MD5Context.Copy | jni/libpar2/filechecksummer.cpp:197-197 | a copy has hashed the same message |
| Md5.MD5Context.Assign | jni/libpar2/filechecksummer.cpp:180-180 | after assignment both have hashed the same message |
| Md5.MD5Context.Update | jni/libpar2/md5.cpp:225-263 | the message grows by the bytes given, however they are cut |
| Md5.MD5Context.UpdateZeros | jni/libpar2/md5.cpp:195-222 | the message grows by so many zeros |
| Md5.MD5Context.PadUp | jni/libpar2/md5.cpp:274-288 | the padding fills the block up to the eight bytes of the length |
| Md5.MD5Context.Final | jni/libpar2/md5.cpp:266-307 | the digest of the whole message, padded as in sections 3.1 and 3.2 of RFC 1321, for any way in which it was cut into updates |
| Md5.PaddingIs | jni/libpar2/md5.cpp:271-294 | the padding is an octet 128, zeros, and eight octets that are the length in bits modulo 2^64, low end first; it is 9 to 72 octets long and fills up the last block |
| Md5.WordsAreNumbers | jni/libpar2/md5.cpp:240-252 | the words of a block are the numbers of its groups of four octets, low end first |
| Md5.OutputIs | jni/libpar2/md5.cpp:296-306 | the digest is the four words of the state, low end first |
| Md5.InitialIs | jni/libpar2/md5.cpp:66-72 | the state begins with the octets of section 3.3 of RFC 1321 |
| Bytes.OctetsNumber | jni/libpar2/md5.cpp:283-294 | n octets of a number are the number modulo 256 to the n |
| FileCheckSummer.FileCheckSummer.constructor | jni/libpar2/filechecksummer.cpp:32-46 | nothing has been read or hashed |
| FileCheckSummer.FileCheckSummer.UpdateHashes | jni/libpar2/filechecksummer.cpp:164-191 | each byte is hashed once and in order, in the context of the first 16384 bytes and from there on in the other |
| FileCheckSummer.FileCheckSummer.Fill | jni/libpar2/filechecksummer.cpp:132-161 | the buffer is filled behind the tail and blanked after it, unless the whole file has been read: then nothing changes and what follows the tail is stale |
| FileCheckSummer.FileCheckSummer.Start | jni/libpar2/filechecksummer.cpp:54-69 | the invariant of the window holds, and the first window is the start of the file followed by zeros |
| FileCheckSummer.FileCheckSummer.Roll | jni/libpar2/filechecksummer.h:153-158 | the checksum remains the CRC of what is in the window, stale bytes included |
| FileCheckSummer.FileCheckSummer.Rewind | jni/libpar2/filechecksummer.h:160-173 | moving the window back to the start of the buffer does not change it |
| FileCheckSummer.FileCheckSummer.Step | jni/libpar2/filechecksummer.h:136-174 | the invariant is kept: the buffer from the window on is the file from the current offset on, far enough for the window, and the checksum is the CRC of the window; the offset grows by one, and at the end the checksum is zero |
| FileCheckSummer.FileCheckSummer.Jump | jni/libpar2/filechecksummer.cpp:72-128 | the same for a jump of up to one block; longer distances are cut |
| FileCheckSummer.FileCheckSummer.WindowIsSlice | jni/libpar2/filechecksummer.h:118-127 | a full window is the slice of the file at the current offset, and the checksum is its CRC |
| FileCheckSummer.FileCheckSummer.WindowInFile | jni/libpar2/filechecksummer.h:118-127 | a window that is not full agrees with the file as far as the file goes |
| FileCheckSummer.FileCheckSummer.ShortChecksum | jni/libpar2/filechecksummer.cpp:226-238 | the CRC of the first bytes of the window padded with zeros; up to the end of the file these are the bytes of the file |
| FileCheckSummer.FileCheckSummer.Hash | jni/libpar2/filechecksummer.cpp:215-224 | the hash of the window; on a full window that of the slice of the file |
| FileCheckSummer.FileCheckSummer.ShortHash | jni/libpar2/filechecksummer.cpp:240-256 | the hash of the first bytes of the window padded with zeros |
| FileCheckSummer.FileCheckSummer.GetFileHashes | jni/libpar2/filechecksummer.cpp:194-212 | after any run that has reached the end of the file, the hashes of the whole file and of its first min(16384, size) bytes |
| HashOrder.HashLess | jni/libpar2/md5.h:124-133 | comparing from the last byte down is comparing the 128-bit numbers, so the order is total |
| HashOrder.KeyLess | jni/libpar2/verificationhashtable.h:64-71 | entries are ordered by checksum, then by hash |
| HashOrder.Trichotomy | jni/libpar2/verificationhashtable.h:64-78 | of two different keys exactly one is below the other |
| HashTrees.InsertedOrdered | jni/libpar2/verificationhashtable.h:131-155 | insertion keeps a tree ordered |
| HashTrees.InsertedFound | jni/libpar2/verificationhashtable.h:131-155 | insertion appends the entry to the chain of its key and leaves every other chain alone |
| HashTrees.WithCrcComplete | jni/libpar2/verificationhashtable.h:158-201 | searching for a hash from the node found by checksum finds what searching from the root finds |
| HashTrees.ChecksumFound | jni/libpar2/verificationhashtable.h:158-177 | the search for a checksum fails exactly if the list has no entry with it |
| VerificationHashTable.InsertBelow | jni/libpar2/verificationhashtable.h:131-155 | the two pointer loops end at a place where storing the new pointer makes the tree the one with the entry inserted |
| VerificationHashTable.InsertAgrees | jni/libpar2/verificationhashtable.h:131-155 | after that every bucket agrees with the list of all entries again |
| VerificationHashTable.FindPlace | jni/libpar2/verificationhashtable.h:131-152 | the loops compute that place |
| VerificationHashTable.SearchCrc | jni/libpar2/verificationhashtable.h:158-177 | the node that is found has the subtree of the first entry with the checksum |
| VerificationHashTable.SearchHash | jni/libpar2/verificationhashtable.h:180-201 | the node that is found has the chain of the key |
| VerificationHashTable.LookedUp | jni/libpar2/verificationhashtable.h:248-263 | what the two searches find is the list of entries with the key, oldest first |
| VerificationHashTable.VerificationHashTable.constructor | jni/libpar2/verificationhashtable.cpp:51-65 | the size is the least power of two not below the limit, but at least 256 and at most 65536 |
| VerificationHashTable.VerificationHashTable.Insert | jni/libpar2/verificationhashtable.cpp:90-96 | one more entry, and every bucket still agrees with the list |
| VerificationHashTable.VerificationHashTable.Load | jni/libpar2/verificationhashtable.cpp:68-107 | the entries of a source file follow in order, each pointing to the next one and the last to none |
| VerificationHashTable.VerificationHashTable.Lookup | jni/libpar2/verificationhashtable.h:248-256 | it fails exactly if no entry with the checksum was loaded |
| VerificationHashTable.VerificationHashTable.LookupHash | jni/libpar2/verificationhashtable.h:259-263 | the chain of the result holds exactly the entries that were loaded with the checksum and the hash, in the order in which they were loaded |
| Matches.LastBlock | jni/libpar2/par2repairersourcefile.cpp:149-160 | a block number is below the block count exactly if the block begins before the end of the file |
| Matches.NoneFound | jni/libpar2/verificationhashtable.h:265-443 | if nothing is found, every loaded entry with the checksum and the hash of the window belongs to a complete file, has been found or has the wrong length; a duplicate has such entries, and without one none of them has the right length |
| Matches.WhatIsFound | jni/libpar2/verificationhashtable.h:265-443 | what is found has the checksum and the hash of the window, or of the window cut to the length of the last block of a file, and was expected, or has the right length and is free or a first block at the start |
| Matches.FirstFreeEarliest | jni/libpar2/verificationhashtable.h:394-442 | no entry that qualifies was loaded before the one that is taken |
| Scan.Par2Repairer.constructor | jni/libpar2/par2repairer.cpp:1112-1147 | the table holds the entries of all verification packets, source file by source file and block by block, no file is complete, and no block has been found |
| Scan.AllLoadedIs | jni/libpar2/par2repairer.cpp:1112-1147 | there is exactly one entry for each block of each verification packet, with its checksum and hash, and they are in order |
| Scan.Par2Repairer.TrySuggested | jni/libpar2/verificationhashtable.h:279-315 | the suggested entry is accepted exactly if the window is its block and it has not been found; of the last block of a file only its own length counts, and it may have been found |
| Scan.Par2Repairer.Single | jni/libpar2/verificationhashtable.h:334-392 | with one candidate: it is found exactly if its file is not complete, its length is right, and it is free, or is a first block at the start of the data file, or was expected and has been found in another data file; otherwise the window is a duplicate exactly if the file is complete or the length is right |
| Scan.Par2Repairer.Several | jni/libpar2/verificationhashtable.h:394-442 | with several: the first free one of the preferred source file, else the first free one; if none is free the window is a duplicate |
| Scan.Par2Repairer.FindMatch | jni/libpar2/verificationhashtable.h:265-443 | result and duplicate flag are determined by the window, by what is known of the blocks, and by the suggested entry and source file, through the checksum tree, the hash tree and the chain of equal entries |
| Scan.Par2Repairer.SetBlock | jni/libpar2/verificationhashtable.h:120-123 | one location changes |
| Scan.Par2Repairer.Match | jni/libpar2/par2repairer.cpp:1575-1625 | the match type stays full exactly if the match was the expected one; the first match decides the source file; one location is recorded |
| Scan.Par2Repairer.Conclude | jni/libpar2/par2repairer.cpp:1653-1672 | a full match is confirmed exactly if the number of blocks, the size and both hashes agree |
| Scan.Par2Repairer.ScanBlocks | jni/libpar2/par2repairer.cpp:1551-1650 | the loop ends at the end of the file, and what it has done is a run: turn by turn a match, a duplicate that is skipped as a whole block, or a step by one byte, each as FindMatch decides at that place |
| Scan.Par2Repairer.ScanDataFile | jni/libpar2/par2repairer.cpp:1494-1810 | for every data file: every byte belongs to exactly one turn; a full block of any loaded entry that lies anywhere in the file is met by a match or a skipped duplicate; every match is recorded, and lies where its block was found; a full match is reported exactly if all turns are matches in a row of all blocks of one source file and size and hashes agree, and then exactly its blocks are recorded, one after the other from offset 0; and an intact copy of a source file, under any name, is a full match of it exactly if all its blocks pass |
| Traces.NothingMissed | jni/libpar2/par2repairer.cpp:1551-1650 | wherever the bytes of a block lie in the part that has been scanned, there is a match, or it lies within the block of a match or of a duplicate |
| Traces.LastFollows | jni/libpar2/verificationhashtable.h:279-293 | the short last block of a source file is found wherever it follows a match of the block before it |
| Traces.MissIsRight | jni/libpar2/par2repairer.cpp:1640-1649 | the scan goes on by one byte only where no full block of a loaded entry lies |
| Traces.DuplicateMeans | jni/libpar2/par2repairer.cpp:1629-1638 | a whole block is skipped only for a window with the checksum and the hash of blocks each of which belongs to a complete file, has been found before the scan or earlier in it, or does not have the length of what is left |
| Traces.HitIsThere | jni/libpar2/par2repairer.cpp:1568-1625 | at the offset of a match the file holds content with the checksum and the hash of the block, up to the length of the block or the end of the file |
| Traces.TurnsTile | jni/libpar2/par2repairer.cpp:1551-1650 | each turn begins where the one before it ended, and no byte belongs to two |
| Traces.ChangedMeansHit | jni/libpar2/par2repairer.cpp:1611-1615 | a location that has changed is that of a match of this block |
| Traces.ChainedInOrder | jni/libpar2/par2repairer.cpp:1568-1625 | matches that were all expected are blocks 0, 1, 2, ... of one source file at offsets 0, blocksize, 2 * blocksize, ..., and nothing else has been recorded |
| Intact.IntactStart | jni/libpar2/verificationhashtable.h:317-442 | at the start of an intact file its first entry is found exactly if it passes: no other entry has its content, or it has not been found, and it is of the wanted source file or before all free entries with the content, none of which is wanted; anything else that is found is no first block or belongs to another source file |
| Intact.ChoiceIs | jni/libpar2/verificationhashtable.h:394-442 | which of several equal entries is chosen at the start |
| Intact.IntactLater | jni/libpar2/verificationhashtable.h:279-442 | further on, the next entry is found exactly if it is the last one, or has not been found, or no other entry has its content and it was found in another data file |
| Intact.IntactConfirmed | jni/libpar2/par2repairer.cpp:1494-1810 | the run over an intact copy of a source file ends with a full match of it exactly if all its blocks pass |
| Intact.SharedBlock | jni/libpar2/verificationhashtable.h:394-442 | a block that has been found before and whose content another entry shares keeps an intact file from being a full match |
| Intact.RepeatedStart | jni/libpar2/verificationhashtable.h:394-442 | so an intact file of three blocks, the first two equal, is only a partial match once the first has been found anywhere |
| Intact.EarlierStart | jni/libpar2/verificationhashtable.h:435-442 | an intact copy under another name is no full match if a free entry with the content of its first block was loaded earlier |
| Ceilings.CeilOfQuads | jni/libpar2/par2creator.cpp:281-347 | counting blocks in units of four bytes is counting them in bytes |
| Ceilings.BlocksDecrease | jni/libpar2/par2creator.cpp:320-347 | larger blocks never give a larger number of blocks |
| Ceilings.LowerBound | jni/libpar2/par2creator.cpp:262-277 | at the lower bound there are at least as many blocks as are wanted |
| Ceilings.UpperBound | jni/libpar2/par2creator.cpp:262-263 | at the upper bound at most as many, and the bounds are in order |
| Ceilings.NotFar | jni/libpar2/par2creator.cpp:265-277 | the lower bound gives fewer than twice as many and one for each file, so the initial best distance of 1000000 is always improved |
| Planner.SearchSize | jni/libpar2/par2creator.cpp:260-345 | the binary search ends with a size for which no other comes closer to the wanted number, the first of its kind among the lower bound, the upper bound and the sizes in the middle, and with its number of blocks |
| Planner.LargestIsBest | jni/libpar2/par2creator.cpp:229-243 | as many blocks as files: the rounded size of the largest file gives exactly that |
| Planner.SmallestIsBest | jni/libpar2/par2creator.cpp:252-256 | more blocks than units of four bytes: blocks of four bytes come closest |
| Planner.Par2Creator.ComputeBlockSizeAndBlockCount | jni/libpar2/par2creator.cpp:201-352 | the stored number of blocks is the sum over the files of size / blocksize rounded up, at most 32768; a block size that is chosen is a best one: for as many blocks as files the least multiple of four that holds every file, else the first closest size of the search, or four; it succeeds exactly if there are not more files than blocks wanted and that size, where there is a search, gives at most 32768 blocks; a failure changes nothing |
| Planner.TieExample | jni/libpar2/par2creator.cpp:268-345 | for 32768 blocks and files of 1073676288, 1073676288 and 4 bytes it fails with 32769 blocks, though a size that is just as close gives 32767 |
| Planner.Par2Creator.ComputeRecoveryFileCount | jni/libpar2/par2creator.cpp:417-482 | how many recovery files, in each scheme |
| Planner.PartitionCovers | jni/libpar2/par2creator.cpp:592-692 | in a partition every exponent of the range is in exactly one file, and no other is in any |
| Planner.PartitionAscends | jni/libpar2/par2creator.cpp:592-692 | the files are in ascending order within the range |
| Planner.AllocateUniform | jni/libpar2/par2creator.cpp:605-619 | a partition in which every file gets the quotient, and the first ones one block more |
| Planner.AllocateVariable | jni/libpar2/par2creator.cpp:622-645 | a partition into doubling counts, beginning with the least power of two for which the files suffice, where the shift takes the number of files modulo 32 |
| Planner.VariableEnds | jni/libpar2/par2creator.cpp:625-631 | the loop that looks for this power of two ends exactly if there are no recovery blocks or the number of files is not a multiple of 32 |
| Planner.SafeFiles | jni/libpar2/par2creator.cpp:425-438 | up to 31 files the capacity is the sum of the powers of two, and the number of files that is chosen by default is from 1 to 16 |
| Planner.ShareLimited | jni/libpar2/par2creator.cpp:462-477 | in the limited scheme the number of files is exactly enough: none is empty, and none holds more blocks than the largest source file has |
| Planner.AllocateFull | jni/libpar2/par2creator.cpp:656-667 | the full files at the top |
| Planner.VariableExample | jni/libpar2/par2creator.cpp:622-645 | one hundred blocks in seven files of the variable scheme are 1, 2, 4, 8, 16, 32 and 37 |
| Planner.AllocateLimited | jni/libpar2/par2creator.cpp:648-687 | a partition into 1, 2, 4, ... blocks below and full files above, which begin as soon as the others have a full file's worth of blocks; every file holds at least one block and at most as many as the largest source file |
| Planner.Par2Creator.AllocateRecoveryBlocks | jni/libpar2/par2creator.cpp:588-693 | in every scheme the ranges partition the exponents from the first one on, and one more file has none; the counts are those of the scheme: as even as possible with the larger ones first, doubling from the least power of two that suffices until the blocks run out, or doubling below and full files above |
| Layout.AddRecovery | jni/libpar2/par2creator.cpp:790-797 | a recovery packet finds its share of critical packets before it |
| Layout.Finished | jni/libpar2/par2creator.cpp:799-812 | the accumulator ends at zero, and then all copies have been placed |
| Layout.EachInTurn | jni/libpar2/par2creator.cpp:803-811 | taken in turn, every critical packet is placed equally often |
| Layout.LayOutRecovery | jni/libpar2/par2creator.cpp:772-813 | the packets tile the file; the exponents are in order; between them the critical packets are spread evenly |
| Layout.LayOutFile | jni/libpar2/par2creator.cpp:740-823 | each critical packet is placed as often as the number of recovery packets has binary digits, or once without recovery packets, and they take turns; the packets fill the file without gap or overlap; the creator packet is last |
| Layout.InitialiseOutputFiles | jni/libpar2/par2creator.cpp:583-830 | the recovery packets are created file by file, the k-th has the exponent first + k, and the files hold as many as the scheme says |
| Creation.LayOutAndComputeMatrix | jni/libpar2/par2creator.cpp:134-147 | the rows of the matrix belong to the recovery packets: row k computes, for all data, the recovery words with the exponent of the k-th packet that was laid out |
| PacketScan.PacketsComplete | jni/libpar2/par2repairer.cpp:395-550 | the byte-by-byte scanner misses no packet, unless it lies within one that is found |
| PacketScan.PacketsFit | jni/libpar2/par2repairer.cpp:477-520 | it finds only packets |
| PacketScan.IsPacket | jni/libpar2/par2repairer.cpp:430-518 | a packet begins with the eight octets of the magic value, then its length, which is a multiple of four, at least 64 and fits the file, then the hash of what follows the hash |
| PacketScan.PacketsAscend | jni/libpar2/par2repairer.cpp:395-550 | the packets that are found do not overlap |
| PacketScan.SelectedIs | jni/libpar2/par2repairer.cpp:506-514 | a packet is handed on exactly if octets 32 to 47 are the set that is known, or those of the first packet if none is; they are handed on in order |
| PacketScan.ScanBuffer | jni/libpar2/par2repairer.cpp:442-449 | the first magic value in the buffer at which a header still fits |
| PacketScan.FindMagic | jni/libpar2/par2repairer.cpp:428-465 | no magic value is missed across the ends of the buffer |
| PacketScan.HashPacket | jni/libpar2/par2repairer.cpp:487-518 | the hash of the packet from the set id on, read in pieces |
| PacketScan.CheckPacket | jni/libpar2/par2repairer.cpp:475-518 | accepted exactly if length and hash are right |
| PacketScan.LoadPacketsFromFile | jni/libpar2/par2repairer.cpp:383-551 | for every content and every buffer of at least one header, the packets handed on and the set that is known afterwards are those of the byte-by-byte scanner, and the scan ends |

## Left out

- The matrices and the output buffers are two-dimensional arrays rather than one array in row-major order, and the index arrays of `ReedSolomon`, its database and its output rows are sequences that are reassigned.
- `ReedSolomon` and `GaussElim` take the operations of the field as a record of functions instead of a template parameter; `Galois16.TablesImplementField` shows that the table operators compute these functions.
- `GaloisTables.GaloisTable.Pow`: exponents above the limit of the field are not modelled; the caller's exponents are 16 bits wide and the limit is 65535. Fields of more than 16 bits are left out, because products of logarithms would no longer fit 32 bits.
- `Galois8`: only the tables and the generator; its `SetInput` and `Process` belong to PAR 1.0.
- `Galois::operator ^=` and the compound assignments of `Galois`: not used by the engine.
- Division by zero gives zero, as in a build without assertions; so do the other places that `assert`.
- The second `SetInput`, for a number of blocks, is modelled as the first one with all blocks present; both have the same loop.
- `RoundTrip.CreatorMatrix`: the exponents of the creator are below 65536; the command line and `ComputeRecoveryBlockCount` admit no others (`commandline.cpp:312-358`, `par2creator.cpp:370-381`).
- All files that are written are one array, in which each target block has its own place; files that are read are sequences of bytes. Opening, creating, renaming and deleting files is left out, and reading and writing never fail.
- `Repair.ProcessAll`: with a memory limit of less than four bytes for each missing block the chunk size is zero and the passes do not advance; `Repair.ChunkSizeWorks` says exactly when, and the passes are modelled for positive chunk sizes.
- The deferred computation of file hashes in the creator's `ProcessData`, and the order in which files are opened and closed.
- `Md5.MD5Context.Final`: the compression of one block (`UpdateState`) is a parameter of the model, so nothing depends on what it computes; 64-bit lengths wrap as in the code.
- The CRC is that of the one polynomial the program uses.
- `FileCheckSummer.FileCheckSummer.Start`: after starting on an empty file the checksum is that of a buffer that was never filled; nothing is stated about it, and the scanner does not scan empty files.
- `VerificationHashTable.VerificationHashTable.Insert`: the entries are numbered in the order of their creation and the pointers between them are numbers, so deallocation and aliasing with other objects are not captured. `crc & hashmask` is the remainder by the size, which is a power of two.
- Loading is modelled for source files that are all recoverable, each loaded once, with verification packets of the right number of entries; others are discarded before (`par2repairer.cpp:940-960`).
- `Scan.Par2Repairer.FindMatch`: equal hashes are not taken to mean equal data; a match says that some content with the hash of the block agrees with the file there. After the end of the file the window holds stale bytes or zeros, so for a window that is not full the contracts compare only as far as the file goes, and a full match excludes this by its size.
- `Scan.Par2Repairer.ScanDataFile`: when an intact copy of- `Scan.Par2Repairer.ScanDataFile`: that no block is missed is stated for full blocks; the short last block of a source file is found after the block before it (`Traces.LastFollows`), but whether it is found elsewhere depends on the stale bytes. Also left out are the messages that tell duplicates and several targets apart, and the progress display.ile`, second part), renaming and the decision whether repair is possible.
- `Planner.Par2Creator.ComputeBlockSizeAndBlockCount`: source files are not empty (the command line skips empty ones) and the requested number of blocks is at most 32768, as the command line demands; sums do not wrap.
- `Planner.AllocateVariable`: a number of recovery files that is a multiple of 32 is left out, because the loop does not end there (`Planner.VariableEnds`). What a shift by 32 or more, or into the sign bit, gives is not fixed by the language; the model takes the shift modulo 32 and wraps, as common hardware does.
- The exponent of the one file without recovery blocks, which only widens file names.
- The names of files, the contents of the packets, and the number of recovery blocks from a percentage.
- `PacketScan.LoadPacketsFromFile`: an offset plus a packet length does not wrap; what is done with a packet of each type after it has been handed on is left out.
- Progress output, signals, the command line, PAR 1.0 files and big-endian machines.
