# Advent of Code 2016 solvers, modelled in Dafny

This project models the computational kernels of a set of Rust solvers for
the 2016 Advent of Code puzzles, one Dafny module per source file. Each
module keeps the solver's own behaviour: the same branches, the same
constants and the same failure cases. A panic in a debug build becomes a
`Failure` of the `Result` type in `wrappers.dfy`. That covers an arithmetic
overflow, an out-of-range index, a failed `unwrap` and an explicit `panic!`.
The few overflows that only inputs of more than 2^31 lines or cells could
reach are listed under "Left out" instead.
Where the source has a defect, the defect is modelled as written, and a
lemma exhibits an input that shows it.

The modules:

- `Wrappers` (`wrappers.dfy`) and `Text` (`text.dfy`): `Option`/`Result`, and
  the string helpers the solvers share. These cover splitting and joining
  lines, decimal parsing with `u32`/`i32`/`usize` range checks, printing
  numbers, and Euclidean remainder facts.
- Day 1 `Taxicab`: turns and moves of a pose on a grid, with `i32` overflow.
- Day 2 `Keypad`, `KeypadMatrix`: a keypad walk clamped to the 3×3 pad, and
  the generic row-major matrix.
- Day 3 `Triangles`: the triangle test with `u32` sums, by rows and by
  columns of three.
- Day 4 `RoomChecksum`: the five-letter checksum and the Caesar shift of room
  names.
- Day 5 `DoorPassword`: nibble tests on a digest and the two password
  builders.
- Day 6 `Signals`: per-column byte histograms and the most and least common
  byte of each column.
- Day 7 `Ipv7`: the bracket-aware ABBA and SSL scanners.
- Day 8 `Matrix2D`, `Screen`: a row-major matrix with in-place rotations, and
  the screen commands that drive it.
- Day 9 `Decompression`: the marker decompressor (version 1), the size
  simulation of version 2, and version 1 iterated to a fixed point.
- Day 10 `ChipBots`: the chip-passing bot simulation.
- Day 11 `BitFloor`, `Facility`, `DepthFirst`, `ElevatorSearch`: one floor
  packed into a `u32`, the four-floor building with guarded elevator moves,
  and the depth-bounded search with iterative deepening.
- Day 12 `Assembunny`: the four-register interpreter and its parser.
- Day 13 `CubicleMaze`: the wall formula and the breadth-first searches.
- Day 14 `HexRuns`, `KeyStore`: hex encoding, the detectors for runs of
  three and of five, and the index database.
- Day 15 `Discs`: the disc-alignment scan.
- Day 16 `DragonChecksum`: the dragon-curve generator and the pairwise
  checksum.
- Day 17 `Vault`: the moves in the 4×4 vault and the path search, with the
  hash as a parameter.
- Day 18 `TrapRows`: the trap-row automaton.
- Day 19 `ElfRing`: the present-stealing circle of elves.
- Day 20 `Firewall`: interval parsing, merging and the count of open
  addresses.
- Day 21 `Scrambler`: the password scrambler's operations and instruction
  parser.

MD5 is not part of this model. Where a solver depends on a digest, the
digest is an input: a sequence of 16-byte digests for day 5, and a function
from strings to hex strings for day 17.

## Model

| member | source | states |
|---|---|---|
| Taxicab.Mult | day_1/src/main.rs:22-26 | scaling a vector fails exactly when a component product overflows `i32`; a success stays in range |
| Taxicab.Add | day_1/src/main.rs:35-37 | adding fails exactly when a component sum overflows; on success, subtracting the first vector gives back the second |
| Taxicab.ManhattanMagnitude | day_1/src/main.rs:29-31 | the magnitude fails exactly on overflow, and it equals the taxicab distance when both components are non-negative |
| Taxicab.MagnitudeIsNotDistance | day_1/src/main.rs:29-31 | for (2, -3) the source's magnitude is -1, while the taxicab distance is 5 |
| Taxicab.Rotated | day_1/src/main.rs:60-65 | a quarter turn fails only when negating `i32::MIN`, and it swaps the absolute values of the components |
| Taxicab.TurnBack | day_1/src/main.rs:60-65 | turning one way and then the other gives back the original vector |
| Taxicab.FourTurns | day_1/src/main.rs:60-65 | four turns the same way give back the vector, and they fail exactly when a component is `i32::MIN` |
| Taxicab.RotatedCompass | day_1/src/main.rs:60-65 | a unit compass direction turns into the next compass direction, left counter-clockwise and right clockwise |
| Taxicab.MultCompass | day_1/src/main.rs:22-26 | a compass direction scaled by a distance is the offset of that length along the heading |
| Taxicab.Accumulate | day_1/src/main.rs:68-73 | one instruction turns the direction first, and the new pose stays within `i32` |
| Taxicab.AccumulateCompass | day_1/src/main.rs:68-73 | from a compass heading, an instruction turns once and moves `dist` along the new heading, failing exactly when the position overflows |
| Taxicab.AsDirection | day_1/src/main.rs:75-80 | the turn is right exactly for the capture "R"; anything else, even a missing capture, turns left |
| Taxicab.Travel | day_1/src/main.rs:82-96 | the walk from the origin facing north keeps every pose within `i32` |
| Taxicab.TravelIsReference | day_1/src/main.rs:82-96 | the walk succeeds exactly when every distance parses and every position on the way fits in `i32`; it then ends at the heading and displacement of an independent reference walk |
| Taxicab.FirstExample | day_1/src/main.rs:101-116 | "R2, L3" ends at (2, 3), 5 blocks away |
| Taxicab.SecondExample | day_1/src/main.rs:118-132 | "R2, R2, R2" ends at (0, -2), facing west |
| Taxicab.ThirdExample | day_1/src/main.rs:134-147 | "R5, L5, R5, R3" ends 12 blocks away |
| Keypad.Clamp | day_2/src/main.rs:7-10 | the result never exceeds the upper bound; with ordered bounds it is the nearest point of the interval, and with reversed bounds it is the upper bound |
| Keypad.ClampIdempotent | day_2/src/main.rs:7-10 | clamping twice is the same as clamping once |
| Keypad.Advance | day_2/src/main.rs:39-50 | a letter other than U, D, L or R panics with "unknown input"; a move from a key always succeeds and lands on the pad |
| Keypad.Key | day_2/src/main.rs:18-32 | a key exists exactly for the nine pad positions; it is numbered row by row, 1 to 9, and any other position panics with "Invalid state" |
| Keypad.KeyPosition | day_2/src/main.rs:18-32 | key numbering and pad positions are inverse to each other |
| Keypad.AdvanceIsNextKey | day_2/src/main.rs:39-50 | a move takes a key to its neighbour in that direction, or leaves it in place at the edge of the keypad |
| Keypad.Walk | day_2/src/main.rs:57-59 | following a non-empty line of moves ends on the pad |
| Keypad.WalkIsKeyWalk | day_2/src/main.rs:57-59 | a line succeeds exactly when it holds only moves, and it ends on the key given by the key-to-key reference walk |
| Keypad.Digits | day_2/src/main.rs:56-62 | one digit from 1 to 9 per line |
| Keypad.DigitsIsKeyDigits | day_2/src/main.rs:56-62 | the digits are the reference code, each line starting from the previous line's key |
| Keypad.ProcessSequence | day_2/src/main.rs:53-70 | the code has one digit per input line |
| Keypad.ProcessIsKeyDigits | day_2/src/main.rs:53-70 | the code exists exactly when every line holds only moves, and it is the reference code starting from key 5 |
| Keypad.ExampleLines | day_2/src/main.rs:82-86 | the example input splits into its four lines |
| Keypad.ExampleWalks | day_2/src/main.rs:82-86 | the four example lines walk 5 → 1 → 9 → 8 → 5 |
| Keypad.Example1985 | day_2/src/main.rs:82-86 | the example's code is "1985" |
| KeypadMatrix.FromArray | day_2/src/matrix.rs:12-14 | the matrix keeps the given dimensions and a copy of the data, without checking them against each other |
| KeypadMatrix.At | day_2/src/matrix.rs:16-18 | a read succeeds exactly when the row-major index `column + row * width` is inside the data |
| KeypadMatrix.AtRowMajor | day_2/src/matrix.rs:16-18 | every element of a full matrix is read at the row `i / width` and column `i % width` of its index |
| KeypadMatrix.AtInRange | day_2/src/matrix.rs:16-18 | every cell inside the rectangle can be read, and holds the element at its row-major index |
| KeypadMatrix.IsValid | day_2/src/matrix.rs:20-25 | a cell counts as valid exactly when both coordinates are inside the dimensions cast to `i32`, the cell can be read, and it is not the empty value |
| KeypadMatrix.IsValidInRectangle | day_2/src/matrix.rs:20-25 | when the dimensions fit in `i32`, a cell is valid exactly when it lies inside the rectangle and does not hold the empty value |
| KeypadMatrix.WrappedHeightRejectsEveryRow | day_2/src/matrix.rs:20-25 | a height of 2^31 becomes negative when cast to `i32`, so no cell of such a matrix is valid |
| Triangles.ValidTriangle | day_3/src/main.rs:5-9 | the answer is the triangle inequality; it panics exactly when a `u32` sum that the short-circuiting `&&` reaches overflows |
| Triangles.ValidTrianglePermuted | day_3/src/main.rs:5-9 | without overflow, the test does not depend on the order of the three sides |
| Triangles.OverflowDependsOnOrder | day_3/src/main.rs:5-9 | with overflow it does: (2^31, 2^31, 0) panics while (0, 2^31, 2^31) answers false |
| Triangles.CountValid | day_3/src/main.rs:23-25 | counting succeeds exactly when no triple's test panics |
| Triangles.CountValidIsTriangleCount | day_3/src/main.rs:23-25 | a count that succeeds is the number of triples that are triangles |
| Triangles.Tokens | day_3/src/main.rs:19-20 | the tokens are non-empty and hold no separator |
| Triangles.ParseAll | day_3/src/main.rs:21-22 | parsing succeeds exactly when every token is a `u32`, and it keeps their order |
| Triangles.RowTriple | day_3/src/main.rs:19-23 | a row's triple is its first three parsed numbers |
| Triangles.RowCount | day_3/src/main.rs:17-26 | part 1 counts at most one triangle per line |
| Triangles.RowCountIsTriangleCount | day_3/src/main.rs:17-26 | part 1 succeeds exactly when every line yields a triple and no test panics, and it then counts the rows that are triangles |
| Triangles.Columns | day_3/src/main.rs:38-42 | each complete block of nine numbers gives three triples |
| Triangles.ColumnsAt | day_3/src/main.rs:38-42 | triple `k` of block `b` reads the numbers `9b+k`, `9b+k+3` and `9b+k+6`, one column of three rows |
| Triangles.ColumnsIgnoreTail | day_3/src/main.rs:38 | fewer than nine leftover numbers are ignored |
| Triangles.ByColumn | day_3/src/main.rs:37-47 | the nested loop over blocks and columns counts exactly the column triples that are triangles, or panics as the first panicking test does |
| RoomChecksum.Count | day_4/src/main.rs:27-32 | a histogram entry is the number of occurrences of the letter in the name |
| RoomChecksum.AheadTotal | day_4/src/main.rs:36-41 | the sort order, higher count first and then alphabetical, is strict and total on distinct letters |
| RoomChecksum.Letters | day_4/src/main.rs:27-35 | the histogram's keys are exactly the lower-case letters of the name, each once |
| RoomChecksum.Rank | day_4/src/main.rs:36-41 | sorting permutes the letters |
| RoomChecksum.RankRanked | day_4/src/main.rs:36-41 | the sorted letters are in the comparator's order |
| RoomChecksum.ComputeChecksum | day_4/src/main.rs:26-47 | the checksum is at most five letters of the name, in rank order, and every letter left out ranks behind all of them |
| RoomChecksum.ChecksumUnique | day_4/src/main.rs:26-47 | that description has exactly one solution, the computed checksum |
| RoomChecksum.VerifyChecksum | day_4/src/main.rs:51-55 | a room yields its sector ID exactly when the stored checksum is the correct checksum of the name, and nothing otherwise |
| RoomChecksum.VerifyDecoyExample | day_4/src/main.rs:102-107 | "totally-real-room" with stored checksum "decoy" is not a real room |
| RoomChecksum.TruncRem | day_4/src/main.rs:59 | Rust's `%` on `i32`: the remainder differs from the dividend by a multiple of the divisor, is smaller than the divisor in size, takes the dividend's sign, and agrees with the Euclidean remainder on non-negative operands |
| RoomChecksum.ShiftChar | day_4/src/main.rs:58-61 | a shift panics exactly when the `i32` sum overflows; a lower-case letter shifted forward is the letter that many places on, cyclically |
| RoomChecksum.ShiftCharBack | day_4/src/main.rs:58-61 | shifting a letter by `k` and then by `26 - k % 26` gives back the letter |
| RoomChecksum.Decrypt | day_4/src/main.rs:63-69 | dashes become spaces and every other character is shifted; decryption panics exactly when some shift panics |
| RoomChecksum.DecryptBack | day_4/src/main.rs:63-69 | decrypting a name of letters by `k` and then by `26 - k % 26` gives back the name |
| RoomChecksum.DecryptExample | day_4/src/main.rs:110-113 | "qzmt-zixmtkozy-ivhz" shifted by 343 reads "very encrypted name" |
| DoorPassword.FirstFiveHexZero | day_5/src/main.rs:12-15 | the sum is zero exactly when the first two bytes are zero and the third is below 16 |
| DoorPassword.FiveZerosInHex | day_5/src/main.rs:10-15 | that test holds exactly when the digest's hex form starts with five zeros |
| DoorPassword.LowerHex | day_5/src/main.rs:19 | `{:x}` prints a non-empty hex string with no leading zero |
| DoorPassword.LowerHexRoundTrip | day_5/src/main.rs:19 | reading the printed hex digits back gives the number |
| DoorPassword.ByteHexLength | day_5/src/main.rs:19 | a byte prints as one hex digit below 16, and as two otherwise |
| DoorPassword.SixthHexChar | day_5/src/main.rs:17-21 | the first printed digit of the third byte: its low nibble when the byte is below 16, its high nibble otherwise |
| DoorPassword.SixthOfPassing | day_5/src/main.rs:17-21 | for a digest that passes the five-zero test, it is the sixth character of the hex form |
| DoorPassword.SeventhHexChar | day_5/src/main.rs:23-27 | the seventh character of the hex form, always a lower-case hex digit |
| DoorPassword.Sixths | day_5/src/main.rs:50-53 | at most one character per digest |
| DoorPassword.SixthsPrefix | day_5/src/main.rs:50-53 | a prefix of the digest stream gives a prefix of the characters, so stopping early loses nothing before the stop |
| DoorPassword.FirstPassword | day_5/src/main.rs:43-58 | part 1 is the first eight sixth characters of the passing digests, or all of them if there are fewer |
| DoorPassword.Position | day_5/src/main.rs:74-79 | a passing digest names a position only when its sixth character is a digit below 8 |
| DoorPassword.PositionIsDigit | day_5/src/main.rs:74-79 | for a passing digest, a position exists exactly when the third byte is below 8 |
| DoorPassword.FirstFor | day_5/src/main.rs:78-83 | the character for a position is the seventh character of a digest naming that position, and is absent exactly when no digest names it |
| DoorPassword.FirstForSettled | day_5/src/main.rs:80-83 | once a position has its character, later digests do not change it |
| DoorPassword.FillOne | day_5/src/main.rs:80-82 | filling an empty slot increases the number of filled slots by one |
| DoorPassword.AllFilled | day_5/src/main.rs:88-90 | when the count reaches the number of slots, no slot is empty |
| DoorPassword.SecondPassword | day_5/src/main.rs:63-91 | part 2 returns eight slots and a count of the filled ones; each slot holds the first character found for its position, or 0 |
| DoorPassword.Place | day_5/src/main.rs:74-85 | one digest fills at most one empty slot, the first time its position is named, and keeps the count right |
| Signals.Tally | day_6/src/main.rs:15-18 | one line adds one to the entry of each of its bytes at that byte's column, and changes no other entry |
| Signals.Build | day_6/src/main.rs:12-19 | a table that comes out has 8 columns of 128 counters |
| Signals.BuildCounts | day_6/src/main.rs:12-19 | the table comes out exactly when every line has at most 8 ASCII bytes, and then every entry is the number of lines with that byte at that column |
| Signals.MostCommon | day_6/src/main.rs:26-30 | the chosen byte beats every other byte of the column in the `(count, byte)` order |
| Signals.MostCommonUnique | day_6/src/main.rs:26-30 | a byte that beats all others is the one chosen |
| Signals.LeastCommon | day_6/src/main.rs:38-43 | nothing is chosen exactly when the column is empty; otherwise the chosen byte occurs, and it is below every other byte that occurs |
| Signals.Keep | day_6/src/main.rs:31-34 | a byte is appended exactly when it is a lower-case letter |
| Signals.Most | day_6/src/main.rs:24-35 | part 1 has at most one letter per column, all lower-case |
| Signals.Least | day_6/src/main.rs:37-48 | part 2 has at most one letter per column, all lower-case |
| Signals.MostReadsEveryColumn | day_6/src/main.rs:24-35 | when every column's most common byte is a letter, part 1 spells those letters in column order |
| Signals.LeastReadsEveryColumn | day_6/src/main.rs:37-48 | when every column holds some byte and its least common byte is a letter, part 2 spells those letters in column order |
| Signals.Solve | day_6/src/main.rs:5-49 | both answers come out exactly when every line fits the table |
| Ipv7.AbbaFromAccepts | day_7/src/main.rs:42-64 | from any window on, the loop accepts exactly when no later window trips the assertion or shows an ABBA inside brackets, and some ABBA was or will be seen |
| Ipv7.AbbaFromFails | day_7/src/main.rs:42-64 | the loop panics exactly when a window holds both brackets before any window has shown an ABBA inside brackets |
| Ipv7.ValidAbba | day_7/src/main.rs:27-65 | an address supports TLS exactly when it has at least 3 characters, no window trips the assertion or hides an ABBA, and some window is an ABBA; `valid_abba` panics exactly when the address is shorter than 3 characters or a window holds both brackets before any hidden ABBA |
| Ipv7.ValidAbbaRejectsHidden | day_7/src/main.rs:56-58 | an ABBA inside brackets means the address never supports TLS |
| Ipv7.ClosesPairAt | day_7/src/main.rs:88-105 | an ABA window closes a pair exactly when its inverse is among the patterns collected on the other side of the bracket flag |
| Ipv7.SslFromAccepts | day_7/src/main.rs:82-108 | from any window on, the loop accepts exactly when some later window closes an ABA/BAB pair with an earlier window on the other side of the flag |
| Ipv7.ValidSsl | day_7/src/main.rs:68-109 | an address of fewer than 2 characters panics; a longer one supports SSL exactly when some window closes an ABA/BAB pair |
| Ipv7.AbbaExample1 | day_7/src/main.rs:111-114 | "abba[mnop]qrst" supports TLS |
| Ipv7.AbbaExample2 | day_7/src/main.rs:116-119 | "abcd[bddb]xyyx" does not |
| Ipv7.AbbaExample3 | day_7/src/main.rs:121-124 | "aaaa[qwer]tyui" does not |
| Ipv7.AbbaExample4 | day_7/src/main.rs:126-129 | "ioxxoj[asdfgh]zxcvbn" supports TLS |
| Ipv7.SslExample1 | day_7/src/main.rs:131-134 | "aba[bab]xyz" supports SSL |
| Ipv7.SslExample2 | day_7/src/main.rs:136-139 | "xyx[xyx]xyx" does not |
| Ipv7.SslExample3 | day_7/src/main.rs:141-144 | "aaa[kek]eke" supports SSL |
| Ipv7.SslExample4 | day_7/src/main.rs:146-149 | "zazbz[bzb]cdb" supports SSL |
| Matrix2D.PosUnique | day_8/src/matrix.rs:99-117 | inside a row, two cells with the same flat position are the same cell |
| Matrix2D.NewWithDefault | day_8/src/matrix.rs:13-24 | the new matrix has the given shape, `rows * cols` cells, and every cell holds the default |
| Matrix2D.At | day_8/src/matrix.rs:101-106 | a read succeeds exactly when `row * cols + col` is inside the data |
| Matrix2D.AtInGrid | day_8/src/matrix.rs:101-106 | every cell inside the grid can be read |
| Matrix2D.AtSpills | day_8/src/matrix.rs:101-106 | a column past the end of a row reads the next row, because the index is not checked against the width |
| Matrix2D.Swap | day_8/src/matrix.rs:47-51 | swapping succeeds exactly when both positions are inside the data; it exchanges the two cells, keeps every other cell, and permutes the data |
| Matrix2D.Set | day_8/src/matrix.rs:53-59 | filling succeeds exactly when every cell of the rectangle from `pos` up to (`num_rows`, `num_cols`) is inside the data; it writes the value there and leaves every other cell alone |
| Matrix2D.RotateRightMoves | day_8/src/matrix.rs:61-95 | rotating a sequence right by `d` moves the element at `k` to `(k + d) mod n` |
| Matrix2D.RotateFromKeeps | day_8/src/matrix.rs:67-76 | the swapping loop permutes the data and never touches a cell off the rotated line |
| Matrix2D.RotateFromValues | day_8/src/matrix.rs:67-76 | along the line, the swapping loop computes the same values as the rotation on values alone |
| Matrix2D.RunRotation | day_8/src/matrix.rs:67-76 | the loop as a method yields the recursive definition, permutes the data and keeps cells off the line |
| Matrix2D.RotateLine | day_8/src/matrix.rs:61-95 | a line rotation panics when the line is empty, when the distance cast to `i32` is negative or not below the line's length, or when the last cell is outside the data; a zero distance changes nothing; otherwise the values along the line end up rotated right by the distance and the rest is kept |
| Matrix2D.RotateLineView | day_8/src/matrix.rs:61-95 | for a line of distinct cells inside the data and a distance below its length, the line's values end up rotated right by the distance |
| Matrix2D.RowLineFits | day_8/src/matrix.rs:79-95 | the cells of an existing row are distinct and inside the data |
| Matrix2D.ColLineFits | day_8/src/matrix.rs:61-77 | the cells of an existing column are distinct and inside the data |
| Matrix2D.RotateRowRight | day_8/src/matrix.rs:79-95 | a distance whose `i32` cast is negative or not below the width panics; on an existing row, the rotation succeeds exactly when the cast distance `d` is in `0..cols`; the cell at column `c` moves to `(c + d) mod cols`, and the other rows are unchanged |
| Matrix2D.RotateColDown | day_8/src/matrix.rs:61-77 | a distance whose `i32` cast is negative or not below the height panics; on an existing column, the rotation succeeds exactly when the cast distance `d` is in `0..rows`; the cell at row `r` moves to `(r + d) mod rows`, and the other columns are unchanged |
| Screen.RectCell | day_8/src/main.rs:27-31 | inside the grid, `rect AxB` writes exactly the cells of the top-left A×B rectangle |
| Screen.RectFits | day_8/src/main.rs:27-31 | a rectangle no larger than the screen writes only inside the data |
| Screen.Execute | day_8/src/main.rs:27-50 | an unrecognised line panics; a command that fits the screen succeeds; `rect` lights its rectangle and keeps the rest; the rotations move one row or column cyclically and keep the rest |
| Screen.ProcessInstructions | day_8/src/main.rs:14-53 | commands that all fit give a screen of the requested shape whose every pixel is the one `Lit` traces back through the commands; an unrecognised line makes the run panic; no commands give the blank screen |
| Screen.ExecuteTraces | day_8/src/main.rs:27-50 | carrying out one more command that fits turns a screen showing `Lit` of the earlier commands into one showing `Lit` of them all |
| Screen.TurnBack | day_8/src/matrix.rs:61-95 | turning a line back by `s` and then forward by `s` returns every index to where it was, so `Lit` looks up the right pixel |
| Screen.CountLit | day_8/src/main.rs:55-63 | the count is the number of lit cells |
| Decompression.Repeat | day_9/src/main.rs:28-30 | `count` copies of the block have `count` times its length |
| Decompression.RepeatCopies | day_9/src/main.rs:28-30 | the `i`-th slice of the block's length in the output is the block |
| Decompression.ParseFields | day_9/src/main.rs:18-20 | one number per field of the marker |
| Decompression.ReadMarker | day_9/src/main.rs:14-26 | a marker without a later `)` panics; a marker that reads points its block just past the `)`, which is the first `)`, and the block fits in the input |
| Decompression.ReadMarkerText | day_9/src/main.rs:14-26 | a marker printed as `(WxC)` in front of at least W characters reads back as width W and count C |
| Decompression.DecompressMarker | day_9/src/main.rs:13-37 | a marker followed by its block decompresses to `count` copies of the block, followed by the decompressed rest |
| Decompression.UnclosedMarkerFails | day_9/src/main.rs:38-40 | a `(` with no `)` after it makes both the decompressor and the size simulation panic |
| Decompression.DecompressWithoutMarkers | day_9/src/main.rs:42-49 | text without markers decompresses to itself with the characters of code 32 or below dropped |
| Decompression.PlainTextUnchanged | day_9/src/main.rs:42-49 | printable text without markers is unchanged |
| Decompression.Printable | day_9/src/main.rs:42-44 | what is kept contains no character of code 32 or below |
| Decompression.DecompressedSize | day_9/src/main.rs:56-99 | a size that comes out fits in a `usize` |
| Decompression.SizeIsExpandedLength | day_9/src/main.rs:56-99 | a size that comes out is the length of the full recursive expansion and fits a `usize`; when the expansion fails, or has 2^64 characters or more, the simulation panics |
| Decompression.DecompressV2 | day_9/src/main.rs:103-111 | a result is a fixed point in length: one more pass over some text of its own length produces it |
| Decompression.PlainExample | day_9/src/main.rs:133-134 | "ADVENT" decompresses to itself |
| ChipBots.AddChip | day_10/src/main.rs:44-53 | adding panics exactly when the chip is no larger than either held chip; a chip above the higher one pushes the higher one down, and any other chip replaces the lower one; the hand-off rules are kept |
| ChipBots.AddChipKeepsOrder | day_10/src/main.rs:44-53 | ordered chip slots stay ordered after an add |
| ChipBots.AddChipToEmptyBot | day_10/src/main.rs:35-53 | an empty bot takes its first chip into the higher slot |
| ChipBots.AddChipTwice | day_10/src/main.rs:44-53 | the same chip added twice fills both slots, because the lower slot only compares strictly |
| ChipBots.RequireBot | day_10/src/main.rs:56-60 | the list grows with empty bots to `id + 1` entries only when `id` is past its length, and existing bots are kept |
| ChipBots.RequireBotAtLength | day_10/src/main.rs:56-60 | an id equal to the length leaves the list unchanged, so that bot does not exist yet |
| ChipBots.Apply | day_10/src/main.rs:77-99 | an input line panics exactly when its bot id equals the list length, or when the bot cannot take the value's chip |
| ChipBots.ApplyValue | day_10/src/main.rs:78-83 | a value line gives its chip to an existing bot and changes no other bot |
| ChipBots.ApplyGives | day_10/src/main.rs:84-98 | a rule line sets both destinations of an existing bot and changes nothing else |
| ChipBots.Setup | day_10/src/main.rs:77-100 | reading the lines never shrinks the list of bots |
| ChipBots.Deliver | day_10/src/main.rs:117-136 | handing a chip to an output bin overwrites that bin and changes no bot; handing it to a bot adds it to that bot only; a missing destination panics; the rules never change |
| ChipBots.Turn | day_10/src/main.rs:111-142 | a bot holding two chips hands both on and is emptied, and the pass is marked as updated; a bot holding fewer is skipped; the target is the last bot seen comparing the two chips; no bin is emptied, and a newly filled bin is one this bot's rule names |
| ChipBots.PassFrom | day_10/src/main.rs:109-143 | a pass that updates nothing left every bot with fewer than two chips, and changed nothing; the target stays or becomes a bot of the pass; no bin is emptied, and every newly filled bin is named by some rule |
| ChipBots.Run | day_10/src/main.rs:105-144 | when the passes stop, no bot holds two chips and the rules are the ones read from the input; the target is the starting one or an existing bot; bins are only added, each named by some rule |
| ChipBots.NamedSameRules | day_10/src/main.rs:117-136 | passing chips around keeps the set of bins the rules name |
| ChipBots.Process | day_10/src/main.rs:63-147 | when the whole process finishes, no bot holds two chips, the answer bot is -1 or an existing bot, and every filled output bin is one some bot's rule sends chips to |
| ChipBots.ExampleSetup | day_10/src/main.rs:164-175 | the example's lines give three bots holding 5 and 2, 3, and nothing |
| ChipBots.Example | day_10/src/main.rs:164-179 | the example finishes with bins 0, 1 and 2 holding 5, 2 and 3, and bot 2 compares chips 2 and 5 |
| BitFloor.IsSafe | day_11/src/bit_floor.rs:20-33 | a floor is safe exactly when it has no chip, or no generator, or every chip has its own generator beside it |
| BitFloor.AddGen | day_11/src/bit_floor.rs:35-39 | adding a generator sets bit `2m` and keeps every other bit |
| BitFloor.AddChip | day_11/src/bit_floor.rs:41-45 | adding a chip sets bit `2m + 1` and keeps every other bit |
| BitFloor.Set | day_11/src/bit_floor.rs:54-56 | after `set(i)`, `is_set` holds at `i` and is unchanged everywhere else |
| BitFloor.Clear | day_11/src/bit_floor.rs:58-60 | after `clear(i)`, `is_set` fails at `i` and is unchanged everywhere else |
| BitFloor.EmptyIff | day_11/src/bit_floor.rs:50-64 | a floor is empty exactly when it holds no items, and exactly when no bit is set |
| BitFloor.NumPairs | day_11/src/bit_floor.rs:66-71 | the pair count is the number of materials with both the generator and the chip on the floor |
| BitFloor.PairedBits | day_11/src/bit_floor.rs:73-81 | the result is below 32, a small number rather than a mask over the floor's 32 bits |
| BitFloor.UnpairedBits | day_11/src/bit_floor.rs:83-85 | the unpaired bits are a subset of the floor's bits, and the bits of the floor left out are exactly its bits among the paired bits |
| BitFloor.FloorEqIsEquivalence | day_11/src/bit_floor.rs:109-116 | the floor equality is reflexive, symmetric and transitive |
| BitFloor.PairedBitsIsNotAMask | day_11/src/bit_floor.rs:73-85 | `paired_bits` takes a population count before masking, so it is not the mask of paired items: for one generator and its chip it is 0, both items count as unpaired, and two floors that each hold one pair compare unequal |
| Facility.New | day_11/src/main.rs:59-64 | a new building has four empty floors and the elevator on the ground floor |
| Facility.Carry | day_11/src/main.rs:87-93 | the clears and sets take both items off the elevator's floor and put them on the target floor, move the elevator there, and leave the other floors alone |
| Facility.TryMoveUp | day_11/src/main.rs:82-102 | there is no move up from the top floor or when either item is missing from the elevator's floor; a move that happens carries both items one floor up and leaves a safe building |
| Facility.TryMoveDown | day_11/src/main.rs:105-125 | there is no move down from the ground floor or when either item is missing; a move that happens carries both items one floor down and leaves a safe building |
| Facility.CarriedUnique | day_11/src/main.rs:85-93 | the description of a carry fixes the resulting building |
| Facility.TryMoveUpExact | day_11/src/main.rs:82-102 | when the guard passes, the move up happens exactly when the carried building is safe |
| Facility.TryMoveDownExact | day_11/src/main.rs:105-125 | when the guard passes, the move down happens exactly when the carried building is safe |
| Facility.MoveDownUndoesMoveUp | day_11/src/main.rs:82-125 | from a safe building, carrying two items down again after carrying them up restores the building, if the upper floor did not already hold them |
| Facility.MovesKeepItems | day_11/src/main.rs:82-125 | a move never creates or loses an item, and it keeps every item on a single floor |
| Facility.IsSafe | day_11/src/main.rs:71-73 | a building is safe exactly when on each of its four floors there is no chip, or no generator, or every chip has its own generator beside it |
| Facility.IsFinal | day_11/src/main.rs:75-79 | the final state is the one with no item on the three lower floors |
| Facility.SameStateIsEquivalence | day_11/src/main.rs:53 | the derived building equality, built on the floor equality, is an equivalence relation |
| Facility.LithiumChipBesideHydrogenPairIsUnsafe | day_11/src/main.rs:309-324 | a floor with the hydrogen pair and a lonely lithium chip is unsafe, and so is the building |
| Facility.HydrogenPairBesideNothingIsSafe | day_11/src/main.rs:326-341 | the hydrogen pair alone on its floor is safe, and so is the building |
| DepthFirst.Process | day_11/src/main.rs:151-219 | the result is `NO_PATH` or a stack length between the current stack's length and the depth bound |
| DepthFirst.Scan | day_11/src/main.rs:180-217 | the pair loop never raises the fewest steps found so far |
| DepthFirst.Branch | day_11/src/main.rs:195-215 | one admitted move never raises the fewest steps found so far |
| DepthFirst.ProcessSound | day_11/src/main.rs:151-219 | a result other than `NO_PATH` is the length of a path that the search can walk from the stack to a final state |
| DepthFirst.ProcessComplete | day_11/src/main.rs:151-219 | every walkable path to a final state within the depth bound is at least as long as the result |
| DepthFirst.ProcessIsShortest | day_11/src/main.rs:151-219 | within the bound, the result is the length of a shortest walkable path, and `NO_PATH` means none exists |
| DepthFirst.ProcessId | day_11/src/main.rs:224-234 | iterative deepening returns `NO_PATH` or a length below the last bound it tries |
| DepthFirst.DeepenFrom | day_11/src/main.rs:225-232 | deepening from a given bound returns `NO_PATH` or a length below the last bound |
| DepthFirst.DeepenFromShortest | day_11/src/main.rs:225-232 | trying bounds in ascending order, the first success is a shortest walkable path |
| DepthFirst.ProcessIdIsShortest | day_11/src/main.rs:224-234 | iterative deepening returns the length of a shortest walkable path, and returns `NO_PATH` only when every such path reaches the last bound |
| DepthFirst.AdmitsRefusesReturn | day_11/src/main.rs:198 | from the third state on, the search refuses to step straight back to the previous state |
| ElevatorSearch.UpRule | day_11/src/main.rs:195 | the search's upward step is `try_move_up` on valid buildings and item indices |
| ElevatorSearch.DownRule | day_11/src/main.rs:206 | the search's downward step is `try_move_down` on valid buildings and item indices |
| ElevatorSearch.Process | day_11/src/main.rs:151-219 | the building search returns `NO_PATH` or a stack length within the bound |
| ElevatorSearch.ProcessId | day_11/src/main.rs:224-234 | the building search with iterative deepening returns `NO_PATH` or a length below 20 |
| ElevatorSearch.WalkedPathsStayValid | day_11/src/main.rs:151-219 | every building on a walked path is a valid four-floor building |
| ElevatorSearch.WalkedPathsMoveItems | day_11/src/main.rs:195-215 | each step of a walked path carries items one floor up or down |
| ElevatorSearch.ProcessIdIsShortest | day_11/src/main.rs:224-234 | the building search returns the number of states on a shortest walkable path, counting the start |
| ElevatorSearch.NoImmediateReturnFromThirdState | day_11/src/main.rs:198 | from the third state on, the building search never steps straight back |
| ElevatorSearch.ExampleStart | day_11/src/main.rs:286-292 | the example layout is a safe building that is not final |
| ElevatorSearch.ReturnToStartIsAdmitted | day_11/src/main.rs:198 | the guard is skipped while the stack holds two states, so the search admits a step straight back to the start |
| Assembunny.ParseRegister | day_12/src/main.rs:17-25 | a register parses exactly from "a", "b", "c" or "d" |
| Assembunny.ParseSource | day_12/src/main.rs:38-48 | a register name is read as a register first; otherwise the text must be an `i32` literal, and it parses to that literal's value |
| Assembunny.Token | day_12/src/main.rs:69-77 | a token exists exactly when the line has that many tokens; a missing one panics |
| Assembunny.ParseTokens | day_12/src/main.rs:68-80 | a first token other than `cpy`, `inc`, `dec` or `jnz` is an error; a parsed instruction is the kind its first token names, and its literals and offset fit in `i32` |
| Assembunny.ParseProgram | day_12/src/main.rs:128-131 | a program parses exactly when every line parses, and then into one instruction per line, each the one its line parses to |
| Assembunny.ParseSourceText | day_12/src/main.rs:38-48 | an operand printed as text parses back to itself |
| Assembunny.ParseInstruction | day_12/src/main.rs:68-80 | a line whose first space-separated word is not an opcode is an error; an instruction read from a line has its literals and offset within `i32` |
| Assembunny.ParseInstructionText | day_12/src/main.rs:68-80 | an instruction printed as text parses back to itself |
| Assembunny.ParseStepText | day_12/src/main.rs:72-73 | `inc r` and `dec r` parse back to themselves |
| Assembunny.Read | day_12/src/main.rs:105-108 | an operand reads its register's value, or its literal |
| Assembunny.AsUsize | day_12/src/main.rs:110-111 | a non-negative `i32` keeps its value as `usize`, while a negative one becomes a huge index past any program |
| Assembunny.Step | day_12/src/main.rs:90-117 | `cpy` writes one register, `inc` and `dec` change one register by one, each keeping the others and moving to the next instruction; `jnz` jumps by its offset exactly when its operand is non-zero; a step fails exactly on `i32` overflow of the register or of the jump target |
| Assembunny.Run | day_12/src/main.rs:85-119 | a machine past the end of the program halts with its registers; every state it reaches keeps four `i32` registers |
| Assembunny.RunWithMoreFuel | day_12/src/main.rs:90-117 | once the run has ended, more fuel gives the same outcome |
| Assembunny.RunSplits | day_12/src/main.rs:90-117 | running for `n + m` steps is running for `n` steps and then for `m` more from where the first run stopped |
| Assembunny.ExampleProgram | day_12/src/main.rs:85-119 | the six-instruction program from the puzzle statement halts with 42 in register a |
| CubicleMaze.PopCount | day_13/src/main.rs:24 | the number of set bits among the low `bits` bits never exceeds `bits` |
| CubicleMaze.Formula | day_13/src/main.rs:24 | the sum is `x*x + 3*x + 2*x*y + y + y*y` plus the designer's number, and evaluating it panics exactly when an intermediate `i32` result overflows |
| CubicleMaze.IsOpen | day_13/src/main.rs:21-28 | a cell is open exactly when the 32-bit pattern of the sum has an even number of set bits; it panics exactly when the sum does |
| CubicleMaze.FormulaInGrid | day_13/src/main.rs:24 | inside the 100×100 grid the polynomial lies between 0 and 39600, so only the final addition can overflow |
| CubicleMaze.OpenDefinedInGrid | day_13/src/main.rs:21-28 | with a designer's number at least 39600 below the `i32` maximum, the wall test never panics inside the grid |
| CubicleMaze.CheckOpen | day_13/src/main.rs:142-145 | cell (1, 1) is open for the designer's number 10 |
| CubicleMaze.ExtendTrail | day_13/src/main.rs:59-66 | a walk through open cells extends by one step to any neighbour of its last cell |
| CubicleMaze.ExpandKeepsClosed | day_13/src/main.rs:53-67 | visiting the head of the queue and queueing its four neighbours keeps every open neighbour of a visited cell visited or queued |
| CubicleMaze.ClosedReaches | day_13/src/main.rs:45-69 | when the queue is empty, every open cell reachable from (1, 1) has been visited |
| CubicleMaze.Explore | day_13/src/main.rs:35-76 | the search panics only when the wall test does; a distance it returns is below 10000, is the length of a walk through open cells from (1, 1) to the target, and no such walk is shorter; no distance means the target cannot be reached |
| CubicleMaze.Search | day_13/src/main.rs:35-76 | the same, shortest distance included, for the wall formula with the designer's number; with a designer's number at least 39600 below the `i32` maximum it never panics |
| CubicleMaze.RangeComplete | day_13/src/main.rs:89-108 | with a limit of at least 10000, the cells counted are exactly the reachable open cells |
| CubicleMaze.CountWithin | day_13/src/main.rs:79-110 | the count is the number of cells counted, and the cells counted are exactly the open cells reached from (1, 1) in at most `maxPath` steps; it panics only when the wall test does |
| CubicleMaze.MaxWithinRange | day_13/src/main.rs:79-110 | the same, for the wall formula with the designer's number |
| CubicleMaze.FrontStart | day_13/src/main.rs:36-44 | the queue holding only the start, at distance 0, is layered and leaves nothing forgotten |
| CubicleMaze.PendingAfterPop | day_13/src/main.rs:45-66 | a queued cell other than the popped head stays queued, whatever is pushed behind it |
| CubicleMaze.NeighboursPending | day_13/src/main.rs:59-66 | after expanding an entry, each of its four neighbours is queued one step further |
| CubicleMaze.FrontSkip | day_13/src/main.rs:45-51 | dropping an entry that is visited, walled, outside the grid or past the limit keeps the queue layered and forgets no open neighbour of a visited cell |
| CubicleMaze.PendingBefore | day_13/src/main.rs:45-66 | an unvisited open cell with a walk of `k` steps, `k` within the limit, leaves some queue entry at distance `k` or less |
| CubicleMaze.VisitShortest | day_13/src/main.rs:45-58 | the cell the walk visits has no shorter walk than the distance it is visited at |
| CubicleMaze.FrontVisit | day_13/src/main.rs:45-66 | visiting and expanding the head keeps the queue layered, keeps every open neighbour of a visited cell visited or queued, and records each visited cell at its shortest distance |
| CubicleMaze.FrontComplete | day_13/src/main.rs:45-69 | once the queue is empty, every open cell with a walk within the limit has been visited |
| CubicleMaze.NoShorterReached | day_13/src/main.rs:53-57 | a distance no walk undercuts is at most every distance the cell is reached in |
| CubicleMaze.SweepSkip | day_13/src/main.rs:89-94 | a skipped entry keeps the counting walk's invariant |
| CubicleMaze.SweepVisit | day_13/src/main.rs:89-107 | counting and expanding an entry keeps the counting walk's invariant and leaves fewer unvisited grid cells |
| CubicleMaze.SweepEnd | day_13/src/main.rs:79-110 | when the queue runs out, the counted cells are exactly the open cells reached within the limit |
| CubicleMaze.ExploreSkip | day_13/src/main.rs:45-51 | a skipped entry keeps the search's invariant |
| CubicleMaze.ExploreVisit | day_13/src/main.rs:45-66 | visiting an entry keeps the search's invariant: reaching the target records its shortest distance, any other cell is expanded |
| CubicleMaze.ExploreEnd | day_13/src/main.rs:45-76 | when the queue runs out, a recorded distance is a real walk's length and the shortest one, and no recorded distance means the target is out of reach |
| HexRuns.HexDigit | day_14/src/utils.rs:9 | every digit written is `0`–`9` or `a`–`f` |
| HexRuns.High | day_14/src/utils.rs:9 | the high digit of a byte is its value divided by 16 |
| HexRuns.HexValueOfDigit | day_14/src/utils.rs:9 | reading a written digit back gives its value |
| HexRuns.ToHex | day_14/src/utils.rs:5-12 | each byte becomes two digits, high digit first, so the text is twice as long as the bytes |
| HexRuns.FromHex | day_14/src/utils.rs:5-12 | reading pairs of digits gives half as many bytes as characters |
| HexRuns.FromToHex | day_14/src/utils.rs:5-12 | the hex text of any bytes is well formed and reads back to the same bytes |
| HexRuns.DigestHexLength | day_14/src/utils.rs:5-12 | a 16-byte digest becomes 32 hex digits |
| HexRuns.FirstTripleFrom | day_14/src/utils.rs:16-20 | the result is the first centre of a run of three at or after the start, and none means no such centre exists |
| HexRuns.FirstTriplet | day_14/src/utils.rs:14-22 | an empty hash panics (the length minus one underflows); otherwise the character returned is that of the first run of three, and none means the hash holds no run of three |
| HexRuns.RunsFrom | day_14/src/utils.rs:27-33 | a character is pushed exactly when some scanned window starts a run of five of it |
| HexRuns.Insert | day_14/src/utils.rs:34-35 | adding a character keeps the list strictly ascending and its contents are the old ones plus the new one |
| HexRuns.SortDedup | day_14/src/utils.rs:34-35 | the result is strictly ascending and holds exactly the characters of the input |
| HexRuns.AscendingUnique | day_14/src/utils.rs:34-35 | two strictly ascending lists with the same members are equal, so the sorted, deduplicated list is determined by its contents |
| HexRuns.Quintuplets | day_14/src/utils.rs:24-37 | a hash shorter than five panics (the length minus five underflows); otherwise the result is strictly ascending and holds exactly the characters of runs of five starting before index `len - 5` |
| HexRuns.SingleRun | day_14/src/utils.rs:24-37 | when every scanned window of five equal characters holds the same character, that character is the whole answer |
| HexRuns.LastWindowMissed | day_14/src/utils.rs:27 | the loop stops one window early: a run of five in the last five characters is not reported |
| HexRuns.QuintupletsExample1 | day_14/src/utils.rs:48-49 | `123aaaaacde` yields `a` |
| HexRuns.QuintupletsExample2 | day_14/src/utils.rs:51-53 | `123bbbbbcdeeeeeff` yields `b` then `e` |
| HexRuns.QuintupletsExample4 | day_14/src/utils.rs:58-59 | `3aeeeee1367614f3061d165a5fe3cac3` yields `e` |
| KeyStore.New | day_14/src/db.rs:16-19 | a new database holds no index for any key |
| KeyStore.Insert | day_14/src/db.rs:21-24 | inserting appends the index to that key's list and leaves every other key's list alone |
| KeyStore.FirstInRange | day_14/src/db.rs:35-40 | the result is the position of the first index inside `[lower, upper]`, and none means no index is inside |
| KeyStore.ContainsInRange | day_14/src/db.rs:33-41 | the query creates an empty entry for the key but changes no list; it returns the first stored index inside `[lower, upper]`, and none exactly when no stored index is inside |
| KeyStore.FoundAfterInsert | day_14/src/db.rs:21-41 | after inserting an index inside the range, the query for that key finds something |
| KeyStore.InsertElsewhere | day_14/src/db.rs:21-41 | inserting under one key does not change the answer for another |
| Discs.Residual | day_15/src/main.rs:49 | the residual exists exactly when both `u32` additions stay in range and the disc has positions; it is below the number of positions, and it is zero exactly when the slot is aligned at that time |
| Discs.ModZeroIsMultiple | day_15/src/main.rs:42-43 | a zero remainder means the sum is a multiple of the number of positions |
| Discs.TotalFrom | day_15/src/main.rs:47-53 | a total that comes out fits in `u32` and is at least the starting total |
| Discs.TotalZero | day_15/src/main.rs:47-54 | the total is zero exactly when it started at zero and every disc's residual is zero |
| Discs.TotalFits | day_15/src/main.rs:47-53 | when no sum overflows and all positions together fit in `u32`, the total comes out |
| Discs.ZeroTotalIsAligned | day_15/src/main.rs:42-54 | without overflow, the total is zero exactly when every disc is aligned at that time |
| Discs.Total | day_15/src/main.rs:47-53 | the loop over the discs computes the same total as the recursive definition, failing where it fails |
| Discs.Solve | day_15/src/main.rs:44-59 | every time before the answer is blocked; a positive answer has total zero; an answer of 0 means time 0 works or no time below `u32::MAX` does; a failure happens at the first time whose total overflows |
| Discs.ExampleTime | day_15/src/main.rs:6-8 | for the two example discs, times 0 to 4 are blocked and time 5 is aligned |
| Discs.NeverAligned | day_15/src/main.rs:44-58 | two discs of two positions each, one second apart, are never aligned together, so the scan runs to the end |
| Discs.LastTimeOverflows | day_15/src/main.rs:49 | a disc whose start position and id add to at least 2 overflows at the last scanned time |
| DragonChecksum.Invert | day_16/src/main.rs:14 | the inverted value is a bit, and differs from the input when the input is a bit |
| DragonChecksum.Flip | day_16/src/main.rs:11-15 | the reversed, inverted copy has the same length and is binary |
| DragonChecksum.FlipFlip | day_16/src/main.rs:11-15 | flipping a binary sequence twice gives it back |
| DragonChecksum.Grow | day_16/src/main.rs:11-17 | one step makes `2n + 1` bits and keeps the old ones as a prefix |
| DragonChecksum.GrowRecoversHalf | day_16/src/main.rs:11-17 | the middle bit is 0 and flipping the second half gives back the first |
| DragonChecksum.GenerateDragon | day_16/src/main.rs:8-21 | the curve has exactly the target length, starts with the initial state (or is its truncation), and stays binary |
| DragonChecksum.DragonPrefix | day_16/src/main.rs:8-21 | a shorter disk's curve is a prefix of a longer disk's curve |
| DragonChecksum.AsVec | day_16/src/main.rs:23-25 | parsing succeeds exactly when every character is `0` or `1`, and gives one bit per character |
| DragonChecksum.AsStr | day_16/src/main.rs:27-33 | bits are written one character each, `1` for 1 and `0` for 0 |
| DragonChecksum.AsStrAsVec | day_16/src/main.rs:23-33 | writing a parsed string gives the string back |
| DragonChecksum.AsVecAsStr | day_16/src/main.rs:23-33 | parsing written bits gives the bits back |
| DragonChecksum.Same | day_16/src/main.rs:45 | the pair's result is a bit |
| DragonChecksum.Reduce | day_16/src/main.rs:39-49 | one round halves the length and gives 1 for each equal pair |
| DragonChecksum.OnesConcat | day_16/src/main.rs:42-48 | the count of ones adds over concatenation |
| DragonChecksum.ReduceIsPairParity | day_16/src/main.rs:39-49 | one round gives the parity of each block of two |
| DragonChecksum.SameParity | day_16/src/main.rs:45 | comparing two blocks' parities gives the parity of the joined block |
| DragonChecksum.ReduceDoublesBlocks | day_16/src/main.rs:38-50 | a round over block parities gives the parities of blocks twice as large |
| DragonChecksum.HalveLength | day_16/src/main.rs:38-50 | halving the count while doubling the block size keeps the covered length |
| DragonChecksum.RoundStep | day_16/src/main.rs:38-50 | one more round keeps the loop invariant with doubled blocks |
| DragonChecksum.ChecksumBits | day_16/src/main.rs:35-50 | the loop stops at an odd length; the blocks cover the input exactly, their size is a power of two, and for even-length binary input each result bit is the parity of its block |
| DragonChecksum.Checksum | day_16/src/main.rs:35-58 | the checksum is an odd-length string of `0`s and `1`s; odd-length input is written back unchanged; for even-length input it is the written parities of equal blocks, of a power-of-two size, covering the curve |
| DragonChecksum.ExampleFirstFlip | day_16/src/main.rs:11-15 | the flipped copy of `10000` is `11110` |
| DragonChecksum.ExampleSecondFlip | day_16/src/main.rs:11-15 | the flipped copy of `10000011110` is `10000111110` |
| DragonChecksum.ExampleDisk | day_16/src/main.rs:63 | the 20-bit curve grown from `10000` is `10000011110010000111` |
| DragonChecksum.ExampleTruncation | day_16/src/main.rs:19 | truncating the grown curve to 20 bits gives the example disk |
| DragonChecksum.ExampleParities | day_16/src/main.rs:63-67 | the parities of the example disk's blocks of four are `01100` |
| DragonChecksum.ExampleChecksum | day_16/src/main.rs:67 | those parities are written as `01100` |
| Vault.IsOpen | day_17/src/main.rs:39-45 | a door is open exactly when its hash character is one of `b` to `f` |
| Vault.Code | day_17/src/main.rs:28-36 | every direction has a code below 4 |
| Vault.FromVal | day_17/src/main.rs:28-36 | decoding succeeds exactly for codes below 4 (any other panics) and gives the direction with that code |
| Vault.FromValOfCode | day_17/src/main.rs:28-36 | decoding a direction's code gives the direction back |
| Vault.Letter | day_17/src/main.rs:82-93 | each move writes one of `U`, `D`, `L`, `R` |
| Vault.LetterInjective | day_17/src/main.rs:82-93 | different directions write different letters, so the path determines the moves |
| Vault.Door | day_17/src/main.rs:52-55 | one hash position yields its direction exactly when that door is open |
| Vault.OpenDirections | day_17/src/main.rs:47-59 | a direction is listed exactly when the hash has a character at its code and that character opens the door |
| Vault.OpenDirectionsOrdered | day_17/src/main.rs:49-56 | the open directions come in the order up, down, left, right |
| Vault.NoDoorsNoDirections | day_17/src/main.rs:47-59 | when no door is open the list is empty |
| Vault.Start | day_17/src/main.rs:68-70 | the search starts in the top-left room with the passcode as its path |
| Vault.MoveDir | day_17/src/main.rs:80-97 | a move succeeds exactly when the next room is inside the 4×4 grid, appends the direction's letter, and changes the distance to the vault by one |
| Vault.MoveBack | day_17/src/main.rs:80-97 | the opposite move always succeeds afterwards and returns to the same room |
| Vault.Keep | day_17/src/main.rs:108-127 | the kept path is one of the two, is empty only when both are, and is at least as short (or, for the longest search, as long) as each |
| Vault.Search | day_17/src/main.rs:101-128 | a path found ends in the vault, extends the current path, and is at least as long as the grid distance still to go |
| Vault.Through | day_17/src/main.rs:108-111 | a path found through a door ends in the vault and starts with that door's letter after the current path |
| Vault.Best | day_17/src/main.rs:108-112 | a path found among the doors ends in the vault and strictly extends the current path |
| Vault.BestPicks | day_17/src/main.rs:108-112 | the best is empty exactly when every door's search is, and otherwise is one of them |
| Vault.BestBeats | day_17/src/main.rs:108-112 | the best is at least as short (or as long) as every door's search result |
| Vault.ClosedDoors | day_17/src/main.rs:101-113 | outside the vault, with every door closed, nothing is found |
| Vault.WalkEnd | day_17/src/main.rs:80-128 | a walk through open doors inside the grid that stops at the vault ends there, with one letter per move added to the path |
| Vault.WalkStep | day_17/src/main.rs:108-111 | a walk that starts through an open door is a walk from the room behind it |
| Vault.SearchIsWalk | day_17/src/main.rs:101-128 | whatever the search finds is the end of a walk of at most `fuel` moves |
| Vault.SearchPicksDoor | day_17/src/main.rs:101-128 | away from the vault, a path the search finds is found through one open door of the current room, one level deeper |
| Vault.SearchBeatsWalk | day_17/src/main.rs:101-128 | whenever a walk of at most `fuel` moves reaches the vault, the search finds a path, and it is no longer than that walk's (for `find_longest_path`, no shorter) |
| Vault.SearchNoneIffNoWalk | day_17/src/main.rs:101-128 | the search finds nothing exactly when no walk of at most `fuel` moves reaches the vault |
| Vault.SixMovesAtLeast | day_17/src/main.rs:101-128 | from the start room, any path found adds at least six moves to the passcode, the grid distance to the vault |
| TrapRows.GetChecked | day_18/src/main.rs:2-8 | an index inside the row reads its tile; any index outside it, on either side, reads as safe |
| TrapRows.WrappedBelow | day_18/src/main.rs:3 | the length cast to `i32` never exceeds the real length |
| TrapRows.TrapRule | day_18/src/main.rs:26-30 | the four trap patterns amount to: a tile is a trap exactly when its left and right neighbours differ |
| TrapRows.NextRow | day_18/src/main.rs:17-33 | the next row has the same length, holds only `^` and `.`, and has a trap exactly where the tiles diagonally above differ |
| TrapRows.SafeCount | day_18/src/main.rs:13 | a row has no more safe tiles than tiles |
| TrapRows.Generation | day_18/src/main.rs:16-34 | every generated row is as long as the first |
| TrapRows.TotalBound | day_18/src/main.rs:10-40 | `n` rows hold at most `n` times the row length safe tiles |
| TrapRows.TotalStep | day_18/src/main.rs:16-35 | one pass of the outer loop produces the next generation and adds its safe tiles to the total |
| TrapRows.GenerateRow | day_18/src/main.rs:17-33 | the inner loop builds the row the trap rule defines |
| TrapRows.CountSafe | day_18/src/main.rs:10-40 | with at most one row the answer is the first row's safe tiles; with more it panics exactly when the row is too long for `i32` indices, and otherwise is the safe-tile total of all the rows |
| TrapRows.SumRows | day_18/src/main.rs:16-37 | the outer loop's count is the safe-tile total over the requested rows |
| TrapRows.SmallExample | day_18/src/main.rs:43 | three rows from `..^^.` hold 6 safe tiles |
| ElfRing.LiveCount | day_19/src/main.rs:13-21 | no more elves hold presents than there are seats |
| ElfRing.SumUpdate | day_19/src/main.rs:24-25 | changing one seat's presents changes the total by the difference |
| ElfRing.LiveCountUpdate | day_19/src/main.rs:24-25 | changing one seat changes the count of elves with presents by whether that seat gained or lost them |
| ElfRing.SumPositiveLive | day_19/src/main.rs:13-21 | some presents are left exactly when some elf still holds presents |
| ElfRing.LiveWitness | day_19/src/main.rs:13-21 | when some elf holds presents, there is a seat that does |
| ElfRing.After | day_19/src/main.rs:14 | the next seat round the circle is still a seat |
| ElfRing.NextSeat | day_19/src/main.rs:14 | stepping round the circle is adding one modulo the number of elves |
| ElfRing.Search | day_19/src/main.rs:13-15 | the first seat from `j` onwards that holds presents, with every seat between empty; none means all of them are empty |
| ElfRing.FirstLive | day_19/src/main.rs:13-21 | the skip loop stops at a seat with presents, and every seat it passed round the circle is empty |
| ElfRing.FirstLiveUnique | day_19/src/main.rs:13-21 | any seat with presents that no earlier non-empty seat precedes is the one the skip loop stops at |
| ElfRing.DistAfter | day_19/src/main.rs:18 | starting one seat later shortens the distance to every other seat by one and puts the starting seat furthest away |
| ElfRing.VictimDiffers | day_19/src/main.rs:18-21 | with at least two elves holding presents, the victim is never the thief |
| ElfRing.TransferMoves | day_19/src/main.rs:24-25 | the thief gains the victim's presents, the victim is left with none, and every other seat is unchanged |
| ElfRing.TransferConserves | day_19/src/main.rs:24-25 | a theft keeps the total number of presents |
| ElfRing.TransferDropsOne | day_19/src/main.rs:24-25 | a theft leaves one fewer elf holding presents |
| ElfRing.OtherLive | day_19/src/main.rs:28-30 | a thief who does not hold all presents leaves at least one other elf with some |
| ElfRing.Game | day_19/src/main.rs:9-34 | the winner is one of the seats |
| ElfRing.GameEnds | day_19/src/main.rs:23-30 | the round in which the thief holds every present ends the game with that thief |
| ElfRing.GameContinues | day_19/src/main.rs:23-33 | otherwise the game goes on from the seat after the victim |
| ElfRing.GameOutcome | day_19/src/main.rs:4-35 | the winner holds every present and is the only elf holding any |
| ElfRing.Ones | day_19/src/main.rs:6-7 | the circle starts with one present per elf |
| ElfRing.Steal | day_19/src/main.rs:4-35 | the winning index is one of the elves |
| ElfRing.Advance | day_19/src/main.rs:13-15 | the skip loop stops at the first seat with presents round the circle |
| ElfRing.StealLoop | day_19/src/main.rs:4-35 | with no elves the first index panics; with two or more the loop returns the winner of the game |
| Firewall.ParsedValues | day_20/src/main.rs:18-21 | only pieces that parse as `u32` survive, each below 2^32, in order |
| Firewall.ParseRange | day_20/src/main.rs:18-23 | a line fails (the index panics) exactly when fewer than two of its `-`-separated pieces parse; both bounds fit in `u32` |
| Firewall.ParseRanges | day_20/src/main.rs:12-26 | a blacklist parses into one range per line, each the parse of its line, or fails at some line that does not parse |
| Firewall.ParseEach | day_20/src/main.rs:17-24 | each line is parsed on its own, in order |
| Firewall.Collect | day_20/src/main.rs:17-25 | collected ranges are one per line |
| Firewall.CollectSpec | day_20/src/main.rs:17-25 | collecting succeeds exactly when every line parsed, and then holds each line's range |
| Firewall.RangeText | day_20/src/main.rs:17-19 | a range is written on one line as `lo-hi` |
| Firewall.ParseRangeText | day_20/src/main.rs:18-23 | a written range parses back to itself |
| Firewall.RangeLines | day_20/src/main.rs:17 | the blacklist text has one line per range |
| Firewall.ParseBlacklistText | day_20/src/main.rs:12-26 | parsing the written blacklist gives the ranges back |
| Firewall.Insert | day_20/src/main.rs:32 | inserting into a list sorted by start keeps it sorted and adds exactly the new range |
| Firewall.SortByStart | day_20/src/main.rs:32 | the sorted blacklist is ordered by start and is a permutation of the input |
| Firewall.InsertIsStable | day_20/src/main.rs:32 | the inserted range goes after every range with the same start |
| Firewall.SortIsStable | day_20/src/main.rs:32 | ranges with equal starts keep their input order, as `sort_by_key` does |
| Firewall.Absorb | day_20/src/main.rs:39-42 | merging two neighbours leaves one range fewer |
| Firewall.AbsorbCovers | day_20/src/main.rs:38-42 | merging overlapping or touching neighbours blocks exactly the same addresses |
| Firewall.PermutationCovers | day_20/src/main.rs:32 | reordering the ranges blocks the same addresses |
| Firewall.PermutationKeeps | day_20/src/main.rs:32 | reordering keeps ranges well formed and within `u32` |
| Firewall.AbsorbKeeps | day_20/src/main.rs:38-42 | a merge keeps the list sorted, the ranges before it separated, and the later starts above the bound |
| Firewall.MergeAbsorbStep | day_20/src/main.rs:38-42 | the merging branch keeps the loop invariant |
| Firewall.MergeSkipStep | day_20/src/main.rs:43-46 | the skipping branch keeps the loop invariant with the index one further |
| Firewall.MergeSorted | day_20/src/main.rs:35-49 | on a sorted list the loop panics exactly when the list is empty or its second range starts at 0 (the `u32` subtraction underflows); otherwise the result is sorted, has a gap between consecutive ranges, and blocks exactly the input's addresses |
| Firewall.MergeRanges | day_20/src/main.rs:29-50 | the same, for any input, with the underflow decided by the sorted order |
| Firewall.OpenBelow | day_20/src/main.rs:52-69 | no more than `n` addresses below `n` are open |
| Firewall.OpenRun | day_20/src/main.rs:56-61 | a stretch of unblocked addresses adds its length to the open count |
| Firewall.BlockedRun | day_20/src/main.rs:56-61 | a stretch of blocked addresses adds nothing |
| Firewall.EndsBeforeLaterStarts | day_20/src/main.rs:56-61 | in a merged list every range ends before any later range starts |
| Firewall.GapIsOpen | day_20/src/main.rs:58-60 | an address between two consecutive merged ranges is open |
| Firewall.FrontIsOpen | day_20/src/main.rs:55 | an address before the first range is open |
| Firewall.FrontCount | day_20/src/main.rs:55 | up to the end of the first range, the open addresses are those before it |
| Firewall.GapCount | day_20/src/main.rs:56-61 | each gap adds its size to the open count |
| Firewall.TailCount | day_20/src/main.rs:63-66 | the addresses after the last range up to `max` are open |
| Firewall.CountOpen | day_20/src/main.rs:53-69 | an empty list panics; every count that comes out fits a `u32`; on a merged list the count never overflows and is the number of open addresses from 0 to `max` (or to the last range's end, if later) |
| Firewall.OpenBelowCovered | day_20/src/main.rs:53-69 | below a blocked address fewer addresses are open than there are addresses |
| Firewall.LowestOpenAddress | day_20/src/main.rs:78 | when the first merged range starts at 0, the address after its end is the lowest one not blocked |
| Scrambler.RotateLeftBy | day_21/src/main.rs:30-36 | the old `rotate(mid)` moves the first `mid` letters to the back, keeping the letters |
| Scrambler.SwapPos | day_21/src/main.rs:15-17 | the letters at the two positions trade places, nothing else moves, and the letters are kept |
| Scrambler.SwapPosInvolution | day_21/src/main.rs:15-17 | swapping the same two positions twice gives the password back |
| Scrambler.SwapLetter | day_21/src/main.rs:22-26 | the first occurrences of the two letters trade places, nothing else moves |
| Scrambler.RotateRight | day_21/src/main.rs:30-33 | the letter at `i` ends at `(i + amount) mod len`, for a non-empty password |
| Scrambler.RotateLeft | day_21/src/main.rs:34-36 | the letter at `(i + amount) mod len` ends at `i`, for the wrapped positions too; the letters are kept |
| Scrambler.RotateLeftUndoesRight | day_21/src/main.rs:30-36 | rotating left by `n` undoes rotating right by `n` |
| Scrambler.BasedAmount | day_21/src/main.rs:44-47 | the rotation is the index plus one, plus one more exactly when the index is at least 4 |
| Scrambler.RotateBased | day_21/src/main.rs:42-51 | the password is turned right by that amount, counted from the letter's first index before rotating |
| Scrambler.Reversed | day_21/src/main.rs:57 | the letter at `i` comes from the mirrored position |
| Scrambler.ReverseRange | day_21/src/main.rs:55-58 | exactly the inclusive span `[x, y]` is mirrored; the letters before and after stay put |
| Scrambler.ReverseRangeInvolution | day_21/src/main.rs:55-58 | reversing the same span twice gives the password back |
| Scrambler.MoveToPos | day_21/src/main.rs:62-73 | the letter at `x` is taken out and put back so that it lands at `y`, the others keeping their order; no move when `x` equals `y` |
| Scrambler.WalkForward | day_21/src/main.rs:65-68 | the forward swaps carry the letter to `y` and shift the ones between back by one |
| Scrambler.WalkBack | day_21/src/main.rs:69-72 | the backward swaps carry the letter to `y` and shift the ones between forward by one |
| Scrambler.MoveBack | day_21/src/main.rs:62-73 | moving from `y` back to `x` undoes a move from `x` to `y` |
| Scrambler.RelocatedSameLetters | day_21/src/main.rs:62-73 | a move keeps the letters |
| Scrambler.Execute | day_21/src/main.rs:91-121 | an instruction applies exactly when its positions and letters are in the password (otherwise it panics), and keeps the letters |
| Scrambler.Word | day_21/src/main.rs:91-118 | a word is read when the line has that many words; a missing word panics |
| Scrambler.Number | day_21/src/main.rs:92-119 | a position or step count is read when the word exists and parses as a `usize` |
| Scrambler.Letter | day_21/src/main.rs:97-102 | a letter argument is the first character of its word |
| Scrambler.Scramble | day_21/src/main.rs:86-127 | a scramble that completes is a rearrangement of the input password |
| Scrambler.ParseInstructions | day_21/src/main.rs:82-130 | each line is split into words at any Unicode whitespace character, as `split_whitespace` splits; the result, when the text parses and applies, has the same letters as the input |
| Scrambler.Words | day_21/src/main.rs:87 | the words written for an instruction are never empty |
| Scrambler.ParseWords | day_21/src/main.rs:91-124 | an instruction read from the words of a line has the line's first word as its keyword and numbers that fit in `usize`; any other first word, or no word, is "Unknown instruction!" or an indexing panic |
| Scrambler.ParseWordsOfInstruction | day_21/src/main.rs:91-124 | the words of any instruction whose numbers fit in `usize` parse back to that instruction |

## Left out

- File input, printing and the `Display` implementations of every solver: they only move text in and out.
- Regular-expression parsing (day 1 `main`, day 4 `unpack`, day 8 commands, day 10 rules, day 11 `read_input`, day 15 `parse_input`): the regex crate is not part of this model, so these operations take already-parsed values.
- MD5 (the `hasher.rs` files of days 14 and 17 and the digest loops of day 5): the digest is not part of this model. Day 5 takes the digests as a sequence of 16-byte values and day 17 takes the hash as a function parameter. Day 14's `compute_keys` and `compute_keys_2`, and the `get_triplets`, `has_triplet` and `has_quintuplet` helpers they and the tests call, are not defined in the files modelled and are left out.
- The `input` modules with the puzzle inputs of days 20 and 21, and day 21's `bf_crack`, which depends on the `permutohedron` crate: neither is part of this model.
- The concrete puzzle answers (day 5's passwords, day 11's example answer of 11, day 13's 82 and 138 and the test `search((7, 4), 10) == Some(11)`, day 15's 400589 and 3045959, day 19's five-elf example and 3005290 elves, day 16's 272- and 35651584-bit disks): each needs an evaluation far larger than a proof can carry.
- The smaller worked examples that unfold too many recursive calls to prove: day 4's three passing checksum examples, day 8's 3×7 screen sequence, day 9's examples other than `ADVENT`, and day 18's ten-row example.
- The bit-listing helpers `unpaired_indices` and `first_paired_indices` (day_11/src/bit_floor.rs:87-106): the search does not use them.
- Days 7, 9 and 14 read strings one character per byte, which holds for ASCII text such as the puzzle inputs and day 14's hex digests. The source scans the UTF-8 bytes, so on text with other characters the model and the source differ.
- Ipv7.ValidAbba: the windows and the length of at least 3 are over characters, not UTF-8 bytes; for `éxxé` the source sees no ABBA among its bytes but the model does.
- Ipv7.ValidSsl: the windows and the length of at least 2 are over characters, not UTF-8 bytes.
- Decompression.DecompressWithoutMarkers: the source re-emits each UTF-8 byte as its own character (`é` comes out as `Ã©`); the model keeps the character, so the statement holds for ASCII text only.
- Decompression.PlainTextUnchanged: holds for ASCII text only, for the same reason.
- Matrix2D.RotateLine: the start `(len - 1) as i32` is taken as exact; on a line of more than 2^31 cells the source's cast wraps, which the model does not follow. The cast of the distance is followed.
- Matrix2D.RotateRowRight: the success condition assumes a row of at most 2^31 cells, for the same cast of `cols - 1`.
- Matrix2D.RotateColDown: the success condition assumes a column of at most 2^31 cells, for the same cast of `rows - 1`.
- Decompression.SizeIsExpandedLength: it is not an if-and-only-if; a marker of count 0 around a block whose own expansion has 2^64 characters or more panics in the source and fails in the model, although the full expansion is short.
- Day 3's count of valid triangles and day 6's `i32` histogram counters are unbounded here; they would overflow only after more than 2^31 input lines.
- Decompression.DecompressV2: iterating version 1 until the length stops changing need not end, so a `fuel` bound limits the passes and running out is reported as a failure.
- ChipBots.Run: chips can circle between bots forever, so a `fuel` bound limits the passes of the `while had_update` loop.
- ChipBots.Run: that the answer bot, when not -1, held exactly the two chips asked about at some turn, and that each bin holds the last chip delivered to it, are in the definitions (`Turn`, `Deliver`) but not lifted to a finished run, which keeps no history of its turns.
- ChipBots.Process: for the same reason, its contract does not state that the answer bot, when not -1, held exactly the chips `(lowId, highId)` at some turn, nor that each bin holds the last chip delivered to it; it states only that the answer is -1 or a bot index and that every bin filled is one some bot's rule names.
- Assembunny.Run: a program need not halt, so a `fuel` bound limits the steps; `RunWithMoreFuel` shows the answer does not depend on the bound once it is large enough.
- Vault.Search: the recursion of `find_path` and `find_longest_path` need not end for a hash that keeps doors open, so a `fuel` bound limits its depth; shortest and longest are shown over the walks of at most `fuel` moves. Positions are unbounded integers; the `i32` coordinates of the source never come near overflow because every state kept is inside the 4×4 grid.
- Vault.Keep: the tie rule (`min_by_key` keeps the first shortest path, `max_by_key` the last longest) is in the definition, and the contract only says the kept path is at least as good as each.
- DragonChecksum.Checksum: the source loops forever on an empty curve, so the model requires a non-empty one; it also requires a binary curve, because only the digits `0` and `1` are written. `ChecksumBits` covers any bytes.
- ElfRing.StealLoop: with exactly one elf the source loops forever, so that input is excluded.
- Firewall.CountOpen: on a list that is not merged (a reversed range such as `10-5`, overlapping or unsorted ranges) the model follows the source's `u32` steps with their overflow panics, but the contract states only that a count that comes out fits a `u32`; what it counts is stated for merged lists.
