# BeamOS: a verified model of its hard parts

BeamOS is a digital-signage server with example content. This project models, in Dafny, the parts
of it that carry real logic, and proves what they are for:

- **The QR encoder** of the QR rotator example (`Examples/PIP-QR-Rotator/qr-overlay.js`), which
  follows ISO/IEC 18004:2015: GF(256) arithmetic, Reed-Solomon check symbols (section 7.5.2), the
  final codeword sequence (7.6), placement (7.7.3) and masking (7.8). A decoder is written as a
  specification, and reading a drawn picture back gives exactly the encoded bytes, for every byte
  sequence that fits. Since a decoder that shares the encoder's formulas could share its mistakes,
  the picture is also told without them, by what the standard shows: literal patterns and tables,
  places of bits, generator polynomials, and the look of each mask. The check symbols are shown to
  do their work: damage to at most half as many codewords of each block as it has check symbols can
  be undone in only one way.
- **The tamper-evident audit log** (`server/lib/activity-chain.js`): append, prune, backfill and
  verify on the two tables, tamper evidence of the whole log and of ranges as an if-and-only-if, and
  every interleaving of append and prune transactions statement by statement, with row lock,
  snapshots and rollbacks.
- **Status timelines** (`server/lib/device-audit.js`, `server/lib/outage-detection.js`): the heatmap
  and the outage query, both against the status at each second as the log itself has it, and against
  each other.
- **Limiters** (`server/lib/reconnect-throttle.js`, `server/lib/flap-limiter.js`): guarantees over
  whole runs of calls and sweeps, both ways: who is let in, and that refusals are enforced.
- **The status-log sweep** (`server/db/database.js`, `server/lib/chunked-prune.js`): batched,
  per-device deletion against pruning in one go.
- **Access logic**: the last-admin guard over interleaved transactions
  (`server/lib/platform-admin-guard.js`), the two walks of regional access
  (`server/lib/region-scope.js`), and the membership sync (`server/lib/entra-role-sync.js`).
- **CSV rows, PDF column widths and the geofence** (`server/lib/csv.js`,
  `Examples/PIP-Welcome-Board/welcome.js`, `server/lib/report-export.js`,
  `Examples/PIP-CAP-AU-Alert-Monitor/cap-parse.js`).

## How it is built

One module per component. Code that works in place keeps that form: the QR grids are `array2`
fields of a class, the limiters and the tables are classes whose methods reassign maps, sequences
or sets, and loops stay loops. Each such method is proved against a specification function, and
the lemmas about that function say what the source promises. Protocols over several transactions
are state machines whose steps are SQL statements.

| component | modules |
|---|---|
| QR encoder | Gf256, GfOrder, ReedSolomon, ErrorCorrection, QrTables, QrLimits, QrBits, QrInterleave, QrDamage, QrGeometry, QrCapacity, QrRoom, QrPicture, QrMasks, QrPatterns, QrStandard, QrMatrix, QrEncoder |
| audit log | AuditLog, AuditTamper, AuditRange, AuditRuns |
| timelines | Timeline, Outages |
| limiters | SlidingWindow, Reconnect, ReconnectRuns, Flap |
| sweep | StatusPrune |
| access | AdminGuard, RegionScope, EntraSync |
| text and layout | Text, Csv, Columns, Polygon |
| shared | Arithmetic, Sets, Wrappers |

`dafny verify dfyconfig.toml` checks everything.

## Where the code and its description differ

The model follows the code; each difference is a proved statement, with an input at which it shows.

- A quarantine shorter than the cooldown answers with a `retryAfterMs` at which the limiter refuses
  again (`Flap.ShortQuarantineRefusesAgain`, `Flap.QuarantineStarts`).
- The comment on `autoColumnWidths` calls the floors inviolable. They are not when the floors alone
  exceed the page while some column is above its floor (`Columns.FitKeepsFloors`; at
  `Columns.FloorMissed`).
- The per-device sweep starts behind the empty device id, so such rows are never pruned
  (`StatusPrune.SweptIsOneShot`; at `StatusPrune.EmptyIdSurvives`). The writer drops empty device ids
  (`server/lib/status-log-writer.js:29`), so the code itself makes no such rows.
- A device that was offline before the window counts as offline in the heatmap up to its first row
  but has no outage then, as the outage query documents. A status other than 'online', 'offline' and
  'offline_timeout' is online for the heatmap and offline for the outage query. The two agree but for
  that first stretch if and only if no second of the window has a row of such a status as its last
  (`Outages.OutagesAgreeWithHeatmap`; an instance is `Outages.OtherStatusDisagrees`). All writers pass
  one of the three (`server/services/heartbeat.js:92`, `server/ws/deviceSocket.js:438`, `606`, `1154`),
  so for the rows the code makes they always agree that far (`Outages.WrittenStatusesAgree`).
- The two regional walks differ for a scope whose region lies in another organization, which the
  foreign keys exclude, and for an empty id, which only the upward check refuses
  (`RegionScope.AgreeExactly`; at `RegionScope.ForeignScope`).
- A row of no values reads back as one empty field (`Csv.RowRoundTrip`).

## Model

| member | source | states |
|---|---|---|
| Gf256.RsMul | Examples/PIP-QR-Rotator/qr-overlay.js:15-22 | the shift-and-xor loop computes multiplication in GF(256), given by Horner's rule over the bits of y; the field laws below are about that product |
| Gf256.XorAssociates | Examples/PIP-QR-Rotator/qr-overlay.js:18-19 | addition of bytes is associative (with XorSelf and XorCancels: every element is its own inverse) |
| Gf256.Distributive | Examples/PIP-QR-Rotator/qr-overlay.js:15-22 | multiplication distributes over addition on both sides |
| Gf256.Associative | Examples/PIP-QR-Rotator/qr-overlay.js:15-22 | multiplication is associative |
| Gf256.Commutative | Examples/PIP-QR-Rotator/qr-overlay.js:15-22 | multiplication is commutative |
| Gf256.MulOne | Examples/PIP-QR-Rotator/qr-overlay.js:15-22 | 1 is neutral on both sides |
| GfOrder.DoubleIs | Examples/PIP-QR-Rotator/qr-overlay.js:18 | doubling by shift and reduction is plain arithmetic: twice the number, or twice the number less 255 with three bits flipped |
| GfOrder.NoEarlyOne | Examples/PIP-QR-Rotator/qr-overlay.js:15-22 | none of 2^1, ..., 2^254 is 1 |
| GfOrder.PowersDiffer | Examples/PIP-QR-Rotator/qr-overlay.js:27-35 | the first 255 powers of 2 are pairwise different |
| GfOrder.NonzeroIsPower | Examples/PIP-QR-Rotator/qr-overlay.js:15-22 | every nonzero byte is a power of 2 |
| GfOrder.NoZeroDivisors | Examples/PIP-QR-Rotator/qr-overlay.js:15-22 | a product is zero only if a factor is |
| ReedSolomon.EvalProduct | Examples/PIP-QR-Rotator/qr-overlay.js:23-46 | the product of polynomials evaluates to the product of the values, so it is multiplication of polynomials |
| ReedSolomon.GeneratorRoots | Examples/PIP-QR-Rotator/qr-overlay.js:23-37 | the generator of degree n vanishes at 2^0, ..., 2^(n-1) |
| ReedSolomon.MultiplyByRoot | Examples/PIP-QR-Rotator/qr-overlay.js:30-33 | one in-place pass multiplies the coefficients by (x - root), the leading one left out |
| ReedSolomon.RsDivisor | Examples/PIP-QR-Rotator/qr-overlay.js:23-37 | refused exactly outside degrees 1..255; otherwise the coefficients of the generator without its leading one |
| ReedSolomon.RsRemainder | Examples/PIP-QR-Rotator/qr-overlay.js:38-46 | the shift register holds the remainder of the data so far; partner lemmas Divides and RemainderCompletesCodeword |
| ReedSolomon.Divides | Examples/PIP-QR-Rotator/qr-overlay.js:38-46 | for data of any length, quotient times (monic) divisor is data followed by the remainder |
| ReedSolomon.QuotientIsUnique | Examples/PIP-QR-Rotator/qr-overlay.js:38-46 | a multiple of a monic polynomial is fixed by its leading coefficients |
| ReedSolomon.RemainderCompletesCodeword | Examples/PIP-QR-Rotator/qr-overlay.js:23-46 | for all data and every degree: data followed by its check symbols is a multiple of the product of (x - 2^i), zero at every root, and no other tail is |
| ErrorCorrection.Vandermonde | Examples/PIP-QR-Rotator/qr-overlay.js:23-46 | as many vanishing power sums as terms, with different bases, force every coefficient to zero |
| ErrorCorrection.CodewordsFarApart | Examples/PIP-QR-Rotator/qr-overlay.js:23-46 | two different codewords of at most 255 symbols differ in more places than there are check symbols |
| ErrorCorrection.DamageIsRepairable | Examples/PIP-QR-Rotator/qr-overlay.js:23-46 | a word damaged in at most half as many places as there are check symbols has only one codeword that close |
| ErrorCorrection.BoundIsSharp | Examples/PIP-QR-Rotator/qr-overlay.js:23-46 | the distance bound cannot be improved: two codewords exactly one place further apart |
| QrTables.TablesAreSound | Examples/PIP-QR-Rotator/qr-overlay.js:48-75 | for all 40 versions and 4 levels: every block has room for data beside its check symbols and is no longer than the code allows |
| QrTables.DataCodewordBounds | Examples/PIP-QR-Rotator/qr-overlay.js:64-75 | there is always a data codeword, fewer than 256 up to version 9 and fewer than 4096 otherwise, so the character count fits its 8 or 16 bits |
| QrLimits.DataCodewordsAre | Examples/PIP-QR-Rotator/qr-overlay.js:48-75 | number and size of the blocks and the formula for the raw modules leave as many data codewords as the capacities of table 7 of the standard need, for all versions and levels |
| QrEncoder.Capacities | Examples/PIP-QR-Rotator/qr-overlay.js:73-111 | n bytes fit a version and level exactly up to the capacity in table 7 of the standard, for all 40 versions and 4 levels |
| QrBits.UnpackPack | Examples/PIP-QR-Rotator/qr-overlay.js:132-136 | packing bits into bytes loses nothing |
| QrBits.PackUnpack | Examples/PIP-QR-Rotator/qr-overlay.js:132-136 | and is undone by writing the bytes out as bits |
| QrBits.AppendBits | Examples/PIP-QR-Rotator/qr-overlay.js:121 | appends exactly the bits of the number, most significant first; NumberOfBitsOf reads them back |
| QrBits.NumberOfBitsOf | Examples/PIP-QR-Rotator/qr-overlay.js:121 | reading the written bits gives the number, if it fits |
| QrBits.ParseHeader | Examples/PIP-QR-Rotator/qr-overlay.js:122-124 | mode, count and bytes are read back from the header, whatever follows |
| QrBits.PadTo | Examples/PIP-QR-Rotator/qr-overlay.js:129 | fills up to capacity with the two pad bytes in turn, ending exactly there |
| QrBits.PadAlternates | Examples/PIP-QR-Rotator/qr-overlay.js:129 | the xor step switches between the two pad bytes |
| QrBits.ParseDataStream | Examples/PIP-QR-Rotator/qr-overlay.js:119-129 | terminator, alignment and padding never hide the bytes: the full stream parses to exactly the input |
| QrStandard.StreamIs | Examples/PIP-QR-Rotator/qr-overlay.js:119-129 | bit by bit: mode 0100, the count in 8 or 16 bits, the bytes, up to four zeros, zeros up to a whole byte, then 236 and 17 in turn |
| QrBits.PackBits | Examples/PIP-QR-Rotator/qr-overlay.js:132-136 | the double loop packs eight bits per codeword |
| QrBits.EncodeData | Examples/PIP-QR-Rotator/qr-overlay.js:119-136 | the codewords are the padded data stream and fill the capacity exactly |
| QrInterleave.LayoutSizes | Examples/PIP-QR-Rotator/qr-overlay.js:142-147 | short and long blocks add up to exactly the raw codewords and the data codewords of the version and level |
| QrInterleave.BuildBlocks | Examples/PIP-QR-Rotator/qr-overlay.js:148-156 | each block holds its slice of the data, the filler of a short block, and the check symbols of that slice |
| QrInterleave.Interleave | Examples/PIP-QR-Rotator/qr-overlay.js:157-163 | the codewords in column order, leaving out exactly the fillers |
| QrInterleave.AddEccAndInterleave | Examples/PIP-QR-Rotator/qr-overlay.js:142-164 | the result has the raw length and is the interleaving of the coded blocks of the data |
| QrInterleave.InterleaveRoundTrip | Examples/PIP-QR-Rotator/qr-overlay.js:142-164 | de-interleaving gives back the data, and in every block data and check symbols form a multiple of the generator |
| QrStandard.FinalOrder | Examples/PIP-QR-Rotator/qr-overlay.js:157-163 | column by column: the i-th data codeword of each block in block order, then the last ones of the long blocks, then the check symbols in the same way, each at its literal place |
| QrStandard.BlocksTile | Examples/PIP-QR-Rotator/qr-overlay.js:142-156 | the blocks take the data in order without gaps, the short ones first, the long ones longer by one; their number and check symbols are those of the tables |
| QrDamage.BlocksFit | Examples/PIP-QR-Rotator/qr-overlay.js:48-75 | no block of any version and level is longer than 255 |
| QrDamage.SymbolIsRepairable | Examples/PIP-QR-Rotator/qr-overlay.js:142-164 | two symbols that could both have been damaged into the same codewords, at most half the check symbols in each block, carry the same data |
| QrGeometry.PathIsBijection | Examples/PIP-QR-Rotator/qr-overlay.js:216-231 | the zigzag visits every module outside column 6 exactly once |
| QrStandard.PathGoesOn | Examples/PIP-QR-Rotator/qr-overlay.js:216-231 | the zigzag starts at the lower right corner and walks pairs of columns row by row, right module before left, upwards and downwards in turn, past column 6 |
| QrGeometry.AlignSpacing | Examples/PIP-QR-Rotator/qr-overlay.js:76-84 | alignment coordinates are at least 5 apart, so alignment patterns never touch |
| QrStandard.AlignmentIsTable | Examples/PIP-QR-Rotator/qr-overlay.js:76-84 | for each of the 40 versions the centres are those of the table in annex E of the standard |
| QrCapacity.PathHasRoom | Examples/PIP-QR-Rotator/qr-overlay.js:64-72 | counted for each version: at least numRawDataModules modules of the path are free, so all codewords find a place |
| QrRoom.RoomIsExact | Examples/PIP-QR-Rotator/qr-overlay.js:64-72 | exactly numRawDataModules modules of the path are free: the formula counts what the patterns leave over, for every version |
| QrPicture.FormatUpper | Examples/PIP-QR-Rotator/qr-overlay.js:190-194 | the check bits and the fixed pattern leave level and mask readable in the upper five bits |
| QrStandard.BitIs | Examples/PIP-QR-Rotator/qr-overlay.js:85 | getBit: the bit of the given weight, dark standing for 1 |
| QrStandard.XorIs | Examples/PIP-QR-Rotator/qr-overlay.js:18-19 | exclusive or differs bit by bit |
| QrStandard.FormatIsCoded | Examples/PIP-QR-Rotator/qr-overlay.js:190-194 | level and mask in the upper five of fifteen bits, which are a multiple of x^10 + x^8 + x^5 + x^4 + x^2 + x + 1 before the fixed pattern is added |
| QrStandard.VersionIsCoded | Examples/PIP-QR-Rotator/qr-overlay.js:202-212 | the version in the upper six of eighteen bits, which are a multiple of x^12 + x^11 + x^10 + x^9 + x^8 + x^5 + x^2 + 1, and where each bit stands in both blocks |
| QrPicture.FormatRoundTrip | Examples/PIP-QR-Rotator/qr-overlay.js:190-201 | level and mask are read back from the format modules of the picture |
| QrStandard.FormatPlace | Examples/PIP-QR-Rotator/qr-overlay.js:195-201 | where the k-th format bit stands in each of the two copies, as literal coordinates |
| QrStandard.FormatOnly | Examples/PIP-QR-Rotator/qr-overlay.js:195-201 | the format takes no other modules but one that is always dark |
| QrPicture.ReadAllBits | Examples/PIP-QR-Rotator/qr-overlay.js:215-231 | unmasking and reading the zigzag gives back the placed bits |
| QrMasks.MaskIs | Examples/PIP-QR-Rotator/qr-overlay.js:239-246 | what each of the eight masks selects, told by its look and not by its formula (chessboard, stripes, diagonals, blocks of 3 by 2, and for masks 5 to 7 by divisors and remainders of x*y and the parity of x+y): exactly one pattern has that look, the one the encoder inverts |
| QrPatterns.AlignedApart | Examples/PIP-QR-Rotator/qr-overlay.js:182-188 | no module belongs to two alignment patterns |
| QrPatterns.PatternsStay | Examples/PIP-QR-Rotator/qr-overlay.js:166-214 | only modules outside the function patterns and inside the format can change without disturbing the patterns |
| QrStandard.FindersShown | Examples/PIP-QR-Rotator/qr-overlay.js:175-180 | each of the three finder patterns, turned to its corner, shows the 8 by 8 picture of the standard with its separators |
| QrStandard.AlignmentShown | Examples/PIP-QR-Rotator/qr-overlay.js:182-188 | every alignment pattern shows its 5 by 5 picture around its centre |
| QrStandard.TimingShown | Examples/PIP-QR-Rotator/qr-overlay.js:173 | row 6 and column 6 alternate between the finder patterns, dark at even coordinates |
| QrStandard.ColoursByLook | Examples/PIP-QR-Rotator/qr-overlay.js:216-250 | what a picture shows under a mask number, it shows under the pattern with the look of that mask: every codeword module has the colour of its bit, turned over where the look says so |
| QrMatrix.Matrix.constructor | Examples/PIP-QR-Rotator/qr-overlay.js:167-169 | all modules light, none reserved |
| QrMatrix.Matrix.Set | Examples/PIP-QR-Rotator/qr-overlay.js:170 | paints and reserves one module inside the symbol, changes nothing else |
| QrMatrix.Matrix.DrawTiming | Examples/PIP-QR-Rotator/qr-overlay.js:173 | exactly column 6 and row 6 alternate, nothing else changes |
| QrMatrix.Matrix.DrawSquares | Examples/PIP-QR-Rotator/qr-overlay.js:175-188 | concentric rings on exactly the modules within the radius |
| QrMatrix.AlignmentPositions | Examples/PIP-QR-Rotator/qr-overlay.js:76-84 | the spliced list is the arithmetic progression from the far edge, with 6 in front |
| QrMatrix.Matrix.DrawAlignment | Examples/PIP-QR-Rotator/qr-overlay.js:182-188 | reserves exactly the alignment patterns; every one of them shows its rings at the end |
| QrMatrix.Matrix.DrawFinders | Examples/PIP-QR-Rotator/qr-overlay.js:172-180 | timing lines and the three finder patterns, each with its colours |
| QrMatrix.Matrix.DrawFormat | Examples/PIP-QR-Rotator/qr-overlay.js:190-201 | both copies of the format bits and the dark module, nothing else changes |
| QrMatrix.Matrix.DrawVersion | Examples/PIP-QR-Rotator/qr-overlay.js:202-212 | both copies of the version bits for versions from 7, nothing else changes |
| QrMatrix.Matrix.DrawFunctionPatterns | Examples/PIP-QR-Rotator/qr-overlay.js:172-214 | exactly the function modules are reserved and show their patterns, all others are light |
| QrMatrix.Matrix.PlaceBit | Examples/PIP-QR-Rotator/qr-overlay.js:222-228 | a free module takes the next bit, a reserved one none |
| QrMatrix.Matrix.PlacePair | Examples/PIP-QR-Rotator/qr-overlay.js:220-230 | one pair of columns, up or down |
| QrMatrix.Matrix.PlaceCodewords | Examples/PIP-QR-Rotator/qr-overlay.js:216-231 | the k-th free module of the path shows the k-th bit, function modules keep their colour |
| QrMatrix.Matrix.ApplyMask | Examples/PIP-QR-Rotator/qr-overlay.js:234-250 | inverts exactly the unreserved modules that the mask selects (QrMasks.MaskIs says which), so applying it twice changes nothing |
| QrMatrix.Matrix.TryMask | Examples/PIP-QR-Rotator/qr-overlay.js:254 | the picture a mask would give |
| QrMatrix.Matrix.ChooseMask | Examples/PIP-QR-Rotator/qr-overlay.js:252-259 | after trying and undoing all eight masks: the first mask of least penalty, drawn over the original modules |
| QrEncoder.SmallestVersion | Examples/PIP-QR-Rotator/qr-overlay.js:104-111 | the smallest version that holds the bytes; refused exactly when none does |
| QrEncoder.BoostLevel | Examples/PIP-QR-Rotator/qr-overlay.js:113-117 | the highest level that still fits, never below the one asked for |
| QrEncoder.BuildMatrix | Examples/PIP-QR-Rotator/qr-overlay.js:166-262 | function patterns and format are shown, every codeword module has the colour of its bit under the chosen mask, and that mask is the first of least penalty |
| QrEncoder.CodewordsComeBack | Examples/PIP-QR-Rotator/qr-overlay.js:216-262 | the codewords are read back from the picture |
| QrEncoder.DataComesBack | Examples/PIP-QR-Rotator/qr-overlay.js:119-164 | the bytes are read back from the codewords, through blocks and data stream |
| QrEncoder.DecodeUndoesEncode | Examples/PIP-QR-Rotator/qr-overlay.js:101-262 | reading version, level and mask off the picture alone, and undoing every stage, gives the bytes |
| QrEncoder.EncodeBytes | Examples/PIP-QR-Rotator/qr-overlay.js:101-140 | refused exactly when no version fits; otherwise the smallest version, the highest level that fits, the picture in which every module is drawn as the standard says for the first mask of least penalty, and decoding the picture alone gives exactly the input bytes, for every byte sequence |
| AuditLog.Store.AppendInTx | server/lib/activity-chain.js:101-140 | throws exactly without an action or a chain row, changing nothing; otherwise one row linked to the head, which moves on |
| AuditLog.Store.PruneChain | server/lib/activity-chain.js:171-220 | throws exactly without a chain row; otherwise finding the boundary id, the last row below it and deleting by id leaves the tables of the one-step prune, and the number of rows removed is returned |
| AuditLog.Store.BackfillChain | server/lib/activity-chain.js:232-295 | the batches of 500 leave the tables of the one-step backfill |
| AuditLog.Store.WalkRows | server/lib/activity-chain.js:343-404 | the batches of 1000 walk over exactly the rows of the range |
| AuditLog.Store.VerifyChain | server/lib/activity-chain.js:315-457 | reports exactly the failures of the one-pass check, whole or ranged, and how many rows it walked |
| AuditLog.OldPrefix | server/lib/activity-chain.js:178-193 | the block before the first row inside the window, all of it older than the cutoff |
| AuditLog.BoundaryIsPrefix | server/lib/activity-chain.js:178-193 | the boundary id (least id in the window, or one more than the greatest) deletes exactly that block, and the newest row below it is the last of the block; there is none exactly when there are no rows |
| AuditTamper.ChainHashInjective | server/lib/activity-chain.js:70-80 | different lengths of history end in different hashes |
| AuditTamper.VerifyAcceptsAll | server/lib/activity-chain.js:315-457 | a full check of an honest log reports nothing |
| AuditTamper.VerifyAcceptsRange | server/lib/activity-chain.js:323-335 | nor does the check of any range of ids |
| AuditTamper.AppendKeeps | server/lib/activity-chain.js:101-140 | an append keeps the log honest, with one more entry in its history: the new row has the next id and the scope given, and all rows before stay |
| AuditTamper.PruneKeeps | server/lib/activity-chain.js:171-220 | the rows with an id below the boundary are exactly an id-prefix, all older than the cutoff, and the first row behind it is not; a prune removes just these and keeps the log honest, with its note (cutoff, number and last of the rows removed, total) as the next entry of the history |
| AuditTamper.WalkBack | server/lib/activity-chain.js:366-402 | a walk without failures that ends at a hash of the history went over that history |
| AuditTamper.TamperEvident | server/lib/activity-chain.js:315-457 | with the chain row untouched and the rows altered at will, a full check passes if and only if the hashed contents are the honest ones and the first id is behind the one the checkpoint names |
| AuditRange.RowReport | server/lib/activity-chain.js:366-402 | for any tables and range, a row of the range is reported as unchained if and only if it lacks a hash or predecessor, else as altered if and only if its hash is not that of its contents, and as a broken link if and only if its predecessor differs from the hash before it; rows outside the range are not reported |
| AuditRange.RangePasses | server/lib/activity-chain.js:323-402 | for any tables and range, the check passes if and only if each row of the range is chained, whole and linked to the row before it, and, when no row precedes the range, it lies behind the checkpoint, of which the newest note tells |
| AuditRange.FullPasses | server/lib/activity-chain.js:315-457 | for any tables, the full check passes if and only if all that holds for all rows, the chain row has the newest hash, and it counts the rows that are there |
| AuditRange.HeadReport | server/lib/activity-chain.js:415-444 | a full check reports a head mismatch, with the newest row, if and only if there is no chain row or it lacks the newest hash, and a count mismatch if and only if the numbers of rows differ; a ranged check reports neither |
| AuditRange.RangeTamperEvident | server/lib/activity-chain.js:366-402 | tamper evidence of a range behind a first row: if the row in front of it and its last row show the hashes of honest rows i and j, the check passes if and only if the range holds what was written after i and up to j |
| AuditRange.HeadTamperEvident | server/lib/activity-chain.js:415-457 | tamper evidence of the chain row: with honest rows and the chain row altered at will, a full check passes if and only if it has the newest hash, counts the rows that are there, and tells of the same prune, or of none if there was none |
| AuditRange.CheckpointToldIs | server/lib/activity-chain.js:477-500 | the comparison of the checkpoint with the newest prune note in plain terms, and the row that its failure names |
| AuditTamper.DeletionDetected | server/lib/activity-chain.js:352-404 | deleting any block of rows: the broken link is reported at exactly the first row after it (or at the head), no content is called altered, and the checkpoint stays in order if the newest prune entry stays |
| AuditTamper.NoFork | server/lib/activity-chain.js:117-137 | no two rows share a predecessor, and id order is chain order |
| AuditTamper.BackfillKeepsRows | server/lib/activity-chain.js:222-295 | a backfill never rewrites a chained row, nor any content |
| AuditTamper.BackfillVerifies | server/lib/activity-chain.js:222-295 | after a backfill a full check passes if and only if the rows chained before form a valid chain with the checkpoint in order |
| AuditTamper.BackfilledIsHonest | server/lib/activity-chain.js:222-295 | a backfilled log that was never pruned passes a full check if and only if it is honest, with the contents of its rows as history |
| AuditTamper.UnchainedIsHonest | server/lib/activity-chain.js:222-295 | in particular a backfill makes every log of rows from before the chain honest |
| AuditTamper.BackfillKeepsHonest | server/lib/activity-chain.js:222-295 | a backfill makes honest any log whose chained rows continue an honest history, pruned or not |
| AuditRuns.StepKeeps | server/lib/activity-chain.js:101-220 | every statement of every interleaved transaction keeps the invariant, and the committed history only grows at its end |
| AuditRuns.CommittedStatesVerify | server/lib/activity-chain.js:101-220 | from any honest log on, in every state that interleaved appends and prunes with rollbacks reach, the committed log passes every check and no two rows share a predecessor |
| AuditRuns.MigratedStatesVerify | server/lib/activity-chain.js:101-295 | so does a log that predates the chain, was backfilled at boot and is then appended to and pruned |
| AuditRuns.HistoryOnlyGrows | server/lib/activity-chain.js:101-220 | from any honest log on, what has been committed stays in front of whatever is chained later |
| AuditRuns.AppendGoesThrough | server/lib/activity-chain.js:101-140 | the statements of an append that no other transaction comes between commit exactly the one-step append |
| AuditRuns.PruneGoesThrough | server/lib/activity-chain.js:171-220 | and those of a prune exactly the one-step prune, which stops after the plan when nothing is old enough |
| AuditRuns.OrdinaryReadForks | server/lib/activity-chain.js:122-127 | reading the head without FOR UPDATE admits a run that forks the chain |
| Timeline.StatusBetween | server/lib/device-audit.js:191-223 | between two rows the status is that of the earlier one |
| Timeline.WindowCounts | server/lib/device-audit.js:186-190 | the rows of the window are exactly the rows of the log of that device and time, each as often as there |
| Timeline.SecondsAre | server/lib/device-audit.js:179-223 | the seconds of a bucket are seconds of the log: those whose last row of the device, in the window or the one before it, has that status |
| Timeline.AddSegment | server/lib/device-audit.js:200-210 | adds to every hour bucket exactly the seconds it shares with the segment |
| Timeline.FillBuckets | server/lib/device-audit.js:179-223 | each bucket holds exactly the seconds of its hour with that status, the status at a second being the last row at or before it |
| Timeline.HeatmapConserves | server/lib/device-audit.js:173-223 | no bucket exceeds an hour, and all together hold exactly the seconds from the start of coverage to now |
| Timeline.PercentIs | server/lib/device-audit.js:232 | the percentage is the whole number nearest to the share of online seconds, the greater of two |
| Timeline.WindowIs | server/lib/device-audit.js:164-176 | the window begins at a midnight UTC, 1 to 14 days long, and ends in the day of now |
| Timeline.CellsAre | server/lib/device-audit.js:225-240 | the cells, one for each hour with a known second, in order, each with day, hour, share and seconds counted over the log itself |
| Timeline.BestIsLongestRun | server/lib/device-audit.js:254-267 | the counted run is the longest run of consecutive problem days |
| Timeline.BestRun | server/lib/device-audit.js:254-267 | the loop over the days finds it |
| Timeline.DetectPattern | server/lib/device-audit.js:252-289 | none exactly when no hour has a run of three; otherwise the widest block of such hours around the first hour with the longest run |
| Timeline.PatternMeans | server/lib/device-audit.js:252-289 | found exactly when some hour was below the limit on three days in a row; then it names the longest such run and the widest stretch of such hours around the first hour that has it |
| Timeline.GridIs | server/lib/device-audit.js:226-233 | the grid that the pattern is read from holds the rounded shares of the hours with known seconds |
| Timeline.Prior | server/lib/device-audit.js:180-184 | a row of the device before the window than which none is later, any one of several with that timestamp; none exactly when there is none |
| Timeline.BuildStatusHeatmap | server/lib/device-audit.js:173-243 | whichever row the query for the state before the window returns: a window of whole days, one cell for every hour of which something is known with its online share counted over the log itself, and the pattern in these cells |
| Outages.ChangesKeepStatus | server/lib/outage-detection.js:70-79 | collapsing repeated states does not change the status at any second |
| Outages.OutagesAreOfflineTime | server/lib/outage-detection.js:59-88 | whatever the statuses: outages are ordered and disjoint, only the last may be open, and they cover exactly the seconds at which the last row of the device in the log is in the window and not online |
| Outages.OutagesEndOnline | server/lib/outage-detection.js:70-88 | each outage begins at a row of the log that is not online, and each closed one ends at a row that is, so none is split |
| Outages.OutagesAgreeWithHeatmap | server/lib/outage-detection.js:59-88 | whatever the statuses, and whatever row precedes the window: the heatmap's offline seconds, plus the seconds whose last row has an unknown status, are the total length of the outages (an open one clipped to now), plus the stretch to the first row when the device was offline before; hence the two agree but for that stretch if and only if no second of the window has an unknown status |
| Outages.WrittenStatusesAgree | server/lib/outage-detection.js:59-88 | so with the statuses that are written, the offline seconds are the length of the outages plus that leading stretch |
| Outages.OtherStatusDisagrees | server/lib/outage-detection.js:65 | an instance of the other case of that law: a log with another status, offline throughout for the query, never for the heatmap |
| Reconnect.Throttle.Check | server/lib/reconnect-throttle.js:51-86 | one call answers and updates the bucket as the decision function does, and touches no other device |
| Reconnect.Throttle.Reject | server/lib/reconnect-throttle.js:37-46 | climbs a level, at most to the highest, and blocks for its backoff |
| Reconnect.Throttle.Admit | server/lib/reconnect-throttle.js:88-95 | lets in and steps down one level after a calm spell |
| Reconnect.Throttle.Sweep | server/lib/reconnect-throttle.js:101-106 | removes exactly the idle buckets and counts them |
| ReconnectRuns.CeilingHolds | server/lib/reconnect-throttle.js:51-86 | over any run: whenever a device is let in, its allowed reconnects of that window are within the ceiling, and within the base maximum after warm-up |
| ReconnectRuns.QuietDeviceAlwaysAllowed | server/lib/reconnect-throttle.js:51-86 | a device that keeps to the base maximum per window is never refused, whatever the bands |
| ReconnectRuns.SweepIsInvisible | server/lib/reconnect-throttle.js:57-61 | removing an idle bucket never changes an answer |
| ReconnectRuns.PatientClientReadmitted | server/lib/reconnect-throttle.js:37-95 | a client that waits out every retryAfterMs is refused at most k times in a row, k being any level whose backoff covers the window |
| ReconnectRuns.BucketsArePast | server/lib/reconnect-throttle.js:51-95 | every bucket of a run is as that guarantee asks |
| ReconnectRuns.BackoffEnforced | server/lib/reconnect-throttle.js:37-66 | after a refusal the next call before retryAfterMs is over is refused, one level up, whatever sweeps and other calls lie between |
| ReconnectRuns.BackoffIs | server/lib/reconnect-throttle.js:37-46 | the waits: the base backoff, twice as long on each level, times the factor of the load band, clipped to the maximum |
| ReconnectRuns.CalmStepsDown | server/lib/reconnect-throttle.js:88-95 | an allowed call steps down one level exactly when the calm spell since the last refusal or step is over |
| ReconnectRuns.RefusalReason | server/lib/reconnect-throttle.js:52-85 | outside a block a call is refused exactly over the ceiling, or over the base maximum once the warm-up is past; it is told the count of its window |
| ReconnectRuns.CallIsCounted | server/lib/reconnect-throttle.js:63-71 | a call outside a block is counted, refused or not, and a call inside one is not |
| ReconnectRuns.StartsAfresh | server/lib/reconnect-throttle.js:55-61 | an unknown or long idle device starts at level 0 with one call |
| Flap.Limiter.Check | server/lib/flap-limiter.js:42-91 | one call answers and updates the bucket as the decision function does; nothing happens when switched off |
| Flap.Limiter.Sweep | server/lib/flap-limiter.js:94-99 | removes exactly the idle buckets, never the anonymous one |
| Flap.PairedWaitsAtMostCooldown | server/lib/flap-limiter.js:50-90 | a paired caller is never refused for a quarantine nor told to wait longer than the cooldown |
| Flap.NextTry | server/lib/flap-limiter.js:42-91 | a caller who waits out retryAfterMs is let in exactly when the cooldown is over, so always when quarantines are at least as long |
| Flap.ShortQuarantineRefusesAgain | server/lib/flap-limiter.js:76-87 | with shorter quarantines, and only then, waiting one out meets another refusal |
| Flap.QuarantineStarts | server/lib/flap-limiter.js:76-87 | such quarantines do come about |
| Flap.RunGuarantees | server/lib/flap-limiter.js:42-91 | at any point of any run of calls and sweeps: a paired caller waits a cooldown at most; and with any sweeps and calls of other keys in between, whoever waits out retryAfterMs is let in exactly when the bucket has been swept or the cooldown is over |
| Flap.LetInUpToMax | server/lib/flap-limiter.js:35-75 | a call outside cooldown and quarantine is let in exactly up to the maximum of its window, the shared one for callers without an identity |
| Flap.TripCounts | server/lib/flap-limiter.js:75-88 | how trips add up, when the count starts anew, and which trip starts a quarantine |
| Flap.PairedEndsQuarantine | server/lib/flap-limiter.js:59-64 | a paired caller ends a quarantine and clears the trips |
| Flap.StartsAfresh | server/lib/flap-limiter.js:51-53 | a key without a bucket is let in and starts with one connection and no trip |
| Flap.QuietKeyAlwaysAllowed | server/lib/flap-limiter.js:42-91 | over any run: a key that keeps to its maximum per window is never refused |
| Flap.RefusalEnforced | server/lib/flap-limiter.js:59-69 | after a refusal the next call, if not paired, is refused until retryAfterMs is over, whatever lies between, and told to wait for the rest at least |
| StatusPrune.TopStable | server/db/database.js:449-454 | deleting rows beyond the newest k does not change which are the newest k |
| StatusPrune.TopIsNewest | server/db/database.js:449-454 | a row among the newest k is later than one that is not, or as late with a larger id |
| StatusPrune.StatusLog.DelOld | server/db/database.js:446-448 | at most the batch of rows past retention, whichever the engine picks |
| StatusPrune.StatusLog.DelCap | server/db/database.js:449-454 | the rows at the offsets behind the cap |
| StatusPrune.StatusLog.PruneOld | server/lib/chunked-prune.js:37-48 | in batches of any size: exactly the rows past retention go, and the loop ends |
| StatusPrune.StatusLog.PruneCap | server/lib/chunked-prune.js:37-48 | in batches of any size: exactly the newest cap rows of the device stay |
| StatusPrune.NextDevice | server/db/database.js:443-445 | the smallest device id behind the last |
| StatusPrune.StatusLog.PruneStatusLog | server/db/database.js:427-495 | the sweep leaves exactly what pruning every device in one go leaves, except that an empty device id is never reached; it returns the number of rows deleted, and nothing happens while one is running |
| StatusPrune.SweptIsOneShot | server/db/database.js:456-461 | it is the one-shot pruning if and only if no row with an empty device id is past retention and there are no more of them than the cap; so always for the rows that the writer makes |
| StatusPrune.EmptyIdSurvives | server/db/database.js:456-461 | an input at which it is not: one old row with an empty device id stays |
| StatusPrune.SweepSettles | server/db/database.js:443-478 | afterwards each device has at most cap rows, none past retention, and a second sweep finds nothing |
| StatusPrune.NewestSurvive | server/db/database.js:443-478 | what is within retention and still goes, goes because exactly cap rows of its device survive, each of them later, or as late with a larger id |
| AdminGuard.RemovalLeavesOne | server/lib/platform-admin-guard.js:61-65 | a removal that has passed the guard leaves an active platform admin, whatever other transactions committed since |
| AdminGuard.StepKeeps | server/lib/platform-admin-guard.js:17-25 | every statement of every interleaved transaction keeps the invariant |
| AdminGuard.SomeAdminRemains | server/lib/platform-admin-guard.js:10-25 | in every state that interleaved transactions reach, some committed user is an active platform admin |
| AdminGuard.RefusesOnlyTheLast | server/lib/platform-admin-guard.js:58-65 | counting on a fresh snapshot, the guard refuses exactly the change of an active admin besides whom there is no other |
| AdminGuard.ChangeTakesEffect | server/lib/platform-admin-guard.js:10-25 | by itself a change of a user's row, unless it is the only active admin's, goes through the four steps and leaves exactly that row changed |
| AdminGuard.OtherTakesEffect | server/lib/platform-admin-guard.js:17-25 | a committed transaction of another kind leaves exactly the rows it has written changed |
| AdminGuard.EarlyReadRemovesAll | server/lib/platform-admin-guard.js:17-21 | when an ordinary read may precede the lock, a run removes both admins |
| RegionScope.UpIsPath | server/lib/region-scope.js:50-57 | the walk up finds exactly the regions that a path of parents of at most that length leads to |
| RegionScope.InScopeMeans | server/lib/region-scope.js:45-66 | the upward check accepts exactly the workspaces, no id being empty, from whose region a path of at most four regions of the organization leads up to a scope of this very user there, who is a regional viewer of it by role |
| RegionScope.ListedMeans | server/lib/region-scope.js:72-90 | the downward list holds only workspaces of organizations in which this very user has such a scope |
| RegionScope.UpIsDown | server/lib/region-scope.js:45-90 | whatever the rows, the downward list holds every workspace the upward check accepts |
| RegionScope.WalksAgree | server/lib/region-scope.js:45-90 | when the user's scopes are in order in the sense of AgreeExactly, the upward check accepts a workspace exactly when the downward list holds it |
| RegionScope.AgreeExactly | server/lib/region-scope.js:45-90 | the walks agree on every possible workspace if and only if every scope that counts names a region of its own organization and neither the organization nor any region at or below the scope has an empty id (or the user id is empty) |
| RegionScope.ForeignScope | server/lib/region-scope.js:45-90 | an input at which they differ: a scope on another organization's region |
| RegionScope.DepthLosesNothing | server/lib/region-scope.js:27-28 | with strictly rising levels, in scope means exactly below some scope at any depth, no id being empty: four steps lose no ancestor |
| EntraSync.NormalizeRoleClaims | server/lib/entra-role-sync.js:41-54 | the first hundred different usable claims, in order, their lengths counted in UTF-16 units |
| EntraSync.NormalizedMeans | server/lib/entra-role-sync.js:37-54 | kept claims are cleaned, different and at most a hundred; none is lost below that |
| EntraSync.EarliestAreKept | server/lib/entra-role-sync.js:41-54 | the values kept are the earliest ones |
| EntraSync.Utf16LengthIs | server/lib/entra-role-sync.js:36-48 | the length counts one unit for each character of the basic multilingual plane and two for each other |
| EntraSync.ComputeTargetMemberships | server/lib/entra-role-sync.js:61-86 | exactly the organizations of granting mappings, and exactly their workspaces with the highest role any grants |
| EntraSync.HighestRoleWins | server/lib/entra-role-sync.js:29-86 | a workspace is a target exactly when some mapping gives a role in it, and that role is admin when one gives admin, else editor when one gives that, else viewer; an organization exactly when a mapping without a workspace gives org_admin |
| EntraSync.TargetsAreSound | server/lib/entra-role-sync.js:56-86 | a workspace is a target if and only if it exists and some mapping of its own organization grants it for a kept claim |
| EntraSync.TargetsAreUnique | server/lib/entra-role-sync.js:56-86 | so organizations, workspaces and roles do not depend on the order of the mappings |
| EntraSync.Upsert | server/lib/entra-role-sync.js:131-167 | every target is added, updated or skipped as its row asks, and so reported |
| EntraSync.RemoveUnwanted | server/lib/entra-role-sync.js:175-190 | exactly the owned rows in scope that are no longer wanted go, and are so reported |
| EntraSync.ScopeCoversOwned | server/lib/entra-role-sync.js:169-173 | no owned row escapes the removal scope unless its workspace is gone |
| EntraSync.Directory.SyncEntraRoles | server/lib/entra-role-sync.js:96-203 | the rows and the report are those of the specification for the computed targets; one audit row exactly when some row has changed; when it cannot be written nothing has changed, and something would have |
| EntraSync.ExactlyTheTargets | server/lib/entra-role-sync.js:13-19 | the owned rows are exactly the targets not held by hand if and only if no owned row belongs to a workspace that is gone; rows held by hand stay as they are |
| EntraSync.PastIsIrrelevant | server/lib/entra-role-sync.js:110-190 | whatever rows the sync owned before, the result is the same |
| EntraSync.IdleMeansUnchanged | server/lib/entra-role-sync.js:191-198 | nothing is reported exactly when nothing changes |
| EntraSync.IdleSyncChangesNothing | server/lib/entra-role-sync.js:191-203 | the same for both kinds of membership together |
| EntraSync.ReportIsDifference | server/lib/entra-role-sync.js:131-190 | rows new, rows with another role and rows gone, each with its role, and the targets held by a row of another source, which stays as it was |
| EntraSync.SecondSyncIsIdle | server/lib/entra-role-sync.js:110-190 | a second sync with the same targets changes nothing and reports nothing but skips |
| EntraSync.SecondSignInIsIdle | server/lib/entra-role-sync.js:96-203 | so does a second sign-in with the same claims, mappings and workspaces, whatever targets the two syncs compute |
| Text.TrimIs | Examples/PIP-Welcome-Board/welcome.js:59 | trimming leaves exactly the part between the white space at the two ends |
| Text.SpaceIs | Examples/PIP-Welcome-Board/welcome.js:59 | which characters are white space, as the list of the language standard |
| Csv.ParseLine | Examples/PIP-Welcome-Board/welcome.js:45-60 | the character loop reads the fields of the line, quotes and doubled quotes included |
| Csv.ScanField | server/lib/csv.js:5-9 | a written field, quoted or not, is read as the value it was written from |
| Csv.QuotedWhenNeeded | server/lib/csv.js:5-9 | a field is put in quotes exactly when it holds a quote, a comma or a line break, and is written as it is otherwise |
| Csv.DoubledIs | server/lib/csv.js:7 | inside, every quote stands twice and everything else once |
| Csv.StrayQuotes | Examples/PIP-Welcome-Board/welcome.js:45-60 | lines that the exports do not write: quotes in the middle of a field, and an open quote that runs to the end of the line |
| Csv.RowRoundTrip | server/lib/csv.js:11-13 | reading a written row gives the trimmed values if and only if there are any: the empty row reads as one empty field |
| Csv.RowUnchanged | server/lib/csv.js:5-13 | it gives the values themselves if and only if there are any and none has white space at an end |
| Columns.MedianSplits | server/lib/report-export.js:64-69 | the median lies half way between the two values in the middle of their order; half of the values are no more and half no less |
| Columns.MeasureColumns | server/lib/report-export.js:96-104 | the widths of exactly the cells that are there and not empty |
| Columns.ClampedShows | server/lib/report-export.js:105-111 | a clamped column is at its floor or within the cap, shows the header and every cell within the cap, and is no wider than its floor or the widest of them asks for; without cells it is as wide as its header |
| Columns.FitFills | server/lib/report-export.js:113-128 | the widths of any columns add up to the page, unless all are at their floors and do not fit |
| Columns.FitKeepsFloors | server/lib/report-export.js:86-128 | no column ends below its floor if and only if the floors fit the page or all columns are at their floors already |
| Columns.FloorMissed | server/lib/report-export.js:86-128 | a table at which a floor is missed: two columns on 28 points, the second gets 9 where its median asks for 10 |
| Columns.FitShares | server/lib/report-export.js:114-128 | spare width is shared in proportion to the widths, missing width in proportion to the slack |
| Columns.AutoColumnWidths | server/lib/report-export.js:91-131 | the fitted widths: when the floors fit, they fill the page exactly and none is below its floor |
| Polygon.MeetsBetween | Examples/PIP-CAP-AU-Alert-Monitor/cap-parse.js:68-69 | an edge that changes side meets the ray at a weighted mean of its ends, computed from either end |
| Polygon.CrossesEitherWay | Examples/PIP-CAP-AU-Alert-Monitor/cap-parse.js:68-69 | an edge counts the same in both directions |
| Polygon.PointInPolygon | Examples/PIP-CAP-AU-Alert-Monitor/cap-parse.js:62-73 | the toggling loop tells whether the ray crosses an odd number of edges of the closed polygon |
| Polygon.RotationInvariant | Examples/PIP-CAP-AU-Alert-Monitor/cap-parse.js:62-73 | the answer does not depend on the first vertex |
| Polygon.ReversalInvariant | Examples/PIP-CAP-AU-Alert-Monitor/cap-parse.js:62-73 | nor on the direction |
| Polygon.ChordSplits | Examples/PIP-CAP-AU-Alert-Monitor/cap-parse.js:62-73 | for a polygon split by a chord, inside the whole is inside exactly one of the parts |
| Polygon.OutsideIsOut | Examples/PIP-CAP-AU-Alert-Monitor/cap-parse.js:62-73 | no point outside the bounding box is inside |
| Polygon.RectangleIsHalfOpen | Examples/PIP-CAP-AU-Alert-Monitor/cap-parse.js:62-73 | a rectangle holds its southern and western edges and not the others, so neighbours share no point |

## Left out

- QR penalty scoring: `penalty` is an arbitrary function of the picture, so the choice of the mask is proved for any scoring.
- QR strings: UTF-8 conversion, the lookup of a level by name (the default M included), canvas drawing and the caption are not modelled; the input is a byte sequence and a level.
- QrPicture.FormatRoundTrip: reads the upper five format bits and does not use the check bits to repair them; the check bits are those of the code (QrStandard.FormatIsCoded), whose distance is not proved.
- QrDamage.SymbolIsRepairable: says that the data is determined, not how a reader finds it; no correcting decoder is modelled, since the repository has none.
- Audit hash: SHA-256 over the JSON text is a free constructor, hence injective and never the genesis value; the details column is a value, with the prune note as its one parsed form.
- Audit tables are sequences in id order; one check reads a single snapshot; the texts of failures, console output and the chain row's updated_at are not modelled. A non-numeric cutoff is not modelled.
- AuditRuns.CommittedStatesVerify: ordinary appends never use the action audit:pruned, and prune transactions contain nothing else, as in the source.
- Backfill runs before requests are served, so it is not a step of the interleavings; runs start from the log it leaves.
- Timeline.BuildStatusHeatmap: the percentage is an exact rational rounded half up, where the source divides in floating point; `opts.days` is an integer already; days are numbered instead of formatted. The log of a window is in the order of timestamp and id, as its query returns it; the query for the row before the window has no id tie-break (`server/lib/device-audit.js:182`), so the result is proved for any row it may return. The pattern's message, a text around its three numbers, is not modelled.
- `buildDeviceAuditTrail` and event phrasing in `server/lib/device-audit.js`: thresholds and texts over rows from other tables.
- The outage query's join with devices and its workspace filter: one device at a time is modelled.
- Limiters: log lines, throughput counters, timers and reading the configuration; configurations, load bands and times are parameters, times are reals.
- StatusPrune.StatusLog.PruneStatusLog: rows are only deleted while it runs, the band gate lets it pass, and statements do not fail; yielding between batches and the statistics are not modelled. A device id is its rank in the collation order.
- AdminGuard.SomeAdminRemains: holds for removals that follow the four steps; the unprotected deactivation path and account creation are not modelled. Deadlocks appear only as rollbacks.
- RegionScope: the SQL recursion is a sequence of parents and sets of regions by depth; `firstRegionalWorkspace` only orders the list by name.
- EntraSync: the report is four maps instead of four lists, so the order (by localeCompare) is not modelled, nor are the lock, the retry after a deadlock and the content of the audit row. Strings hold whole characters, so no unpaired surrogates. The organization and workspace halves share one upsert and one removal method.
- Csv: rows of objects, the header and the splitting into lines, which cuts a quoted line break, are not modelled; only one record is.
- Columns.AutoColumnWidths: real arithmetic instead of floating point; the font metrics are two arbitrary functions, not negative; padding is positive.
- Polygon: real arithmetic instead of floating point; parsing of coordinates, the circle with `haversineKm` and the alert filters are left out.
- `server/lib/ota-breaker.js`, `server/lib/content-ack-limiter.js`: limiters of the same kind as the two modelled, with fewer obligations.
- `server/lib/apk-signature-checksum.js`, `server/lib/billing.js`: one DER walk and sums with thresholds; they would add easy members only.
- Routes, sockets, storage, geocoding, image generation, the front end and the polling examples: input and output around libraries.
