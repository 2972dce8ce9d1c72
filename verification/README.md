# Verified model of three CTF solver scripts

This project is a Dafny model of the algorithmic core of three Python
solver scripts from the Huntress CTF 2025 write-ups. Each script is
modelled as it is written, and properties of the model are proved.

- **Shamir secret recovery** (`miscellaneous/vx_underground_COMPLETE/decrypt.py`).
  - `modinv` is an iterative extended Euclid. `ModInv` keeps its loop.
  - `lagrange_interpolate_at_zero` has two nested loops over the shares. `LagrangeInterpolateAtZero` and `BasisAtZero` keep them.
  - `parse_shares` turns `<x>-<hexy>` lines into shares (`ParseShares`).
  - `main` checks that there are at least two shares and renders the secret as zero-padded hex (`RecoverSecret`).
  - `Interpolate` is the value the loops compute. The proofs show it is the constant term of any polynomial through the shares, provided the polynomial has no more coefficients than there are shares and the shares sit at distinct points modulo a prime. It raises exactly when two shares collide modulo the prime, and the order of the shares does not matter.
- **PE timestamp listing** (`forensics/puzzle_pieces_redux_COMPLETE/sort.py`).
  - `get_timedatestamp` reads the COFF TimeDateStamp out of a file's bytes (`TimeDateStamp`).
  - `main` keeps the `.bin` files whose stamp is present and nonzero, then sorts them newest first (`NewestFirst`).
- **Recycle-bin decoding** (`forensics/trashcan_COMPLETE/solve.py`).
  - The row filter is a loop (`FilterRows`).
  - `rows.sort()`, the join and the run-length decode follow (`Solve`, `Decode`). The decode turns a maximal run of length L into L // 3 copies of its character.

Python's `list.sort` appears in two scripts. Its model is `Sorting.SortBy`, a stable insertion sort used as a reference definition. The proofs show that it:

- orders its input;
- returns a permutation of it;
- keeps equivalent elements in input order;
- is the only sequence with these three properties, so any stable sort returns the same list (`StableSortUnique`).

Python's `str.strip`, `str.split(sep, 1)`, `str.rjust` and `int(s, base)` are modelled in `PyText` and `PyInt` to the detail the scripts depend on. `int()` accepts:

- surrounding whitespace;
- a sign;
- in base 16, a `0x` prefix;
- single underscores between digits.

Module layout, in dependency order:

1. `Outcomes`;
2. `FieldArithmetic` (`field.dfy`);
3. `Polynomial` (`poly.dfy`);
4. `Interpolator` (`interpolate.dfy`);
5. `LagrangeRecovery` (`recovery.dfy`);
6. `PyText`, `PyInt` and `ShareFile` (`sharefile.dfy`);
7. `Sorting` and `PeTimestamps` (`pe.dfy`);
8. `RunLength` and `Trashcan`.

The model follows what the code does. Where a design description of the recovery tool might lead a reader to expect something else:

- `modinv` raises only for a literal 0. A nonzero multiple of the modulus skips the loop and returns 1 (`ModInv`'s fourth `ensures`). The interpolation always passes a denominator already reduced into [0, p), so there a zero denominator is exactly the case that raises.
- A line whose x or y part `int()` rejects raises `ValueError` and aborts the run. It is not skipped. The model returns the index of the first such line.
- Shares with the same x are not rejected up front. With a prime modulus they make a denominator vanish, and `modinv` raises (`ZeroDenominatorIffCollision`).
- The y part may carry a sign, a `0x` prefix and underscores, since `int(_, 16)` accepts them. The x part is the text before the first '-', so its only possible sign is '+' and a parsed x is never negative. It may carry underscores.
- The output width is `len(PRIME_HEX)`, which is 66 hex characters (33 bytes). The modulus in the script is 2^256 + 0x129, a 257-bit number.

## Model

| member | source | states |
|---|---|---|
| FieldArithmetic.ModInv | miscellaneous/vx_underground_COMPLETE/decrypt.py:9-19 | Raises exactly when a == 0. The result lies in [0, p). A nonzero multiple of p gives 1. For a % p coprime to p, the result is the inverse of a modulo p. The loop is proved against the remainder sequence `EuclidLoop` |
| FieldArithmetic.ModInverse | miscellaneous/vx_underground_COMPLETE/decrypt.py:9-19 | The value `modinv` returns or the error it raises: DivisionByZero exactly when a == 0, otherwise a value in [0, p) that is 1 for a nonzero multiple of p and the inverse of a modulo p whenever gcd(a mod p, p) = 1. `ModInv` is proved to return it |
| FieldArithmetic.EuclidInverseCorrect | miscellaneous/vx_underground_COMPLETE/decrypt.py:13-19 | The value the loop returns is in range. It is 1 when a ≡ 0, and an inverse of a whenever gcd(a mod p, p) = 1 |
| FieldArithmetic.EuclidLoopInverse | miscellaneous/vx_underground_COMPLETE/decrypt.py:15-18 | The loop keeps lm·a ≡ low and hm·a ≡ high (mod p), so it ends with low = 1 and lm·a ≡ 1 |
| FieldArithmetic.PrimeCoprime | miscellaneous/vx_underground_COMPLETE/decrypt.py:14 | Any residue a % p ≠ 0 is coprime to a prime p, so `modinv` inverts every nonzero residue of a prime field |
| Interpolator.Interpolate | miscellaneous/vx_underground_COMPLETE/decrypt.py:21-34 | What `lagrange_interpolate_at_zero` returns or raises: DivisionByZero exactly when some denominator ∏_{j≠i}(x_i − x_j) vanishes mod p, otherwise Σ y_i·num_i·inverse(den_i) mod p, which lies in [0, p). `RecoversConstantTerm` and `PermutationInvariant` give its meaning |
| Interpolator.LagrangeInterpolateAtZero | miscellaneous/vx_underground_COMPLETE/decrypt.py:21-34 | The nested loops return `Interpolate(shares, prime)`. That is the sum of y_i·num_i·inverse(den_i) mod p, or DivisionByZero when some den_i ≡ 0. The result lies in [0, p) |
| Interpolator.BasisAtZero | miscellaneous/vx_underground_COMPLETE/decrypt.py:25-30 | The inner loop computes num = ∏_{j≠i}(−x_j) mod p and den = ∏_{j≠i}(x_i − x_j) mod p, both in [0, p) |
| Interpolator.ZeroDenominatorIffCollision | miscellaneous/vx_underground_COMPLETE/decrypt.py:26-31 | For a prime p, some denominator vanishes, and the interpolation raises, exactly when two shares have the same x modulo p |
| Interpolator.SingleShare | miscellaneous/vx_underground_COMPLETE/decrypt.py:21-34 | A single share (x, y) gives y mod p |
| LagrangeRecovery.LagrangeInterpolates | miscellaneous/vx_underground_COMPLETE/decrypt.py:21-34 | For distinct points modulo a prime, the Lagrange polynomial passes through every share, and its value at 0 is what the loops return |
| LagrangeRecovery.RecoversConstantTerm | miscellaneous/vx_underground_COMPLETE/decrypt.py:21-34 | Suppose the shares lie, modulo a prime, on a polynomial with at most as many coefficients as shares, at distinct points. Then the result is that polynomial's constant term mod p |
| LagrangeRecovery.TwoShareLine | miscellaneous/vx_underground_COMPLETE/decrypt.py:21-34 | Two shares on the line a + bX at distinct points recover a mod p |
| LagrangeRecovery.PermutationInvariant | miscellaneous/vx_underground_COMPLETE/decrypt.py:24-33 | For a prime p, reordering the shares changes neither the result nor the error |
| PyText.Strip | miscellaneous/vx_underground_COMPLETE/decrypt.py:41 | The result is empty iff the line is all whitespace. Otherwise it starts and ends with non-whitespace. A character that is not whitespace occurs in the result exactly when it occurs in the line |
| PyText.StripRemovesEnds | miscellaneous/vx_underground_COMPLETE/decrypt.py:41 | The line is a run of whitespace, then the result as one contiguous slice of the line, then a run of whitespace. With `Strip`'s non-whitespace ends, this is `str.strip` exactly: the longest whitespace runs at both ends are removed and nothing else |
| PyText.RightJustify | miscellaneous/vx_underground_COMPLETE/decrypt.py:63 | `s.rjust(width, fill)`: the length is the larger of width and the length of s, s is the suffix, and every character before it is fill |
| PyText.SplitFirst | miscellaneous/vx_underground_COMPLETE/decrypt.py:44 | None iff the separator is absent. Otherwise s = before + sep + after, with no sep in before |
| PyText.SplitFirstUnique | miscellaneous/vx_underground_COMPLETE/decrypt.py:44 | The cut at the first separator is the only one with no separator before it |
| PyInt.ParseInt | miscellaneous/vx_underground_COMPLETE/decrypt.py:45-46 | `int(s, base)`, or None where it raises `ValueError`: surrounding whitespace is dropped, then one optional sign, then in base 16 an optional `0x`, then digits of the base with single underscores between them. `ParseToDigits`, `ParsePadded` and `KeepMeaning` state what it reads |
| PyInt.ParseToDigits | miscellaneous/vx_underground_COMPLETE/decrypt.py:45-46 | `int()` reads the decimal and the lowercase hex digits of n back as n |
| PyInt.UnsignedNatural | miscellaneous/vx_underground_COMPLETE/decrypt.py:45 | A numeral with no '-' in it never reads as a negative number |
| PyInt.ToDigitsLength | miscellaneous/vx_underground_COMPLETE/decrypt.py:63 | A number below base^w has at most w digits, so `rjust` never has to truncate |
| PyInt.ParsePadded | miscellaneous/vx_underground_COMPLETE/decrypt.py:63 | The zero-padded hex of n still reads back as n |
| ShareFile.ParseShareLine | miscellaneous/vx_underground_COMPLETE/decrypt.py:41-47 | What the loop does with one line: skipped when the stripped line is empty or has no '-', otherwise `int()` of the text before the first '-' and `int(_, 16)` of the rest, Malformed when either raises. `SkippedExactly` and `FormatShareRoundTrip` characterise it |
| ShareFile.SkippedExactly | miscellaneous/vx_underground_COMPLETE/decrypt.py:41-43 | A line is skipped exactly when its stripped form is empty or it contains no '-' |
| ShareFile.ParsedXNatural | miscellaneous/vx_underground_COMPLETE/decrypt.py:44-45 | The x of a parsed line is never negative, since `int()` reads it from the text before the first '-' |
| ShareFile.ParseShares | miscellaneous/vx_underground_COMPLETE/decrypt.py:36-48 | The loop returns `ParseAll(lines)`: the shares of the lines in order, or the index of the line where `int()` raises |
| ShareFile.CollectMeaning | miscellaneous/vx_underground_COMPLETE/decrypt.py:40-47 | With no malformed line, the result is exactly the parsed shares in line order. Otherwise parsing fails, and it fails at the first malformed line |
| ShareFile.CollectStopsAtError | miscellaneous/vx_underground_COMPLETE/decrypt.py:45-46 | Once a line has raised, the lines after it do not matter |
| ShareFile.SkippedLineIrrelevant | miscellaneous/vx_underground_COMPLETE/decrypt.py:42-43 | Inserting a line that is blank after stripping, or has no '-', anywhere in the file leaves the parsed shares unchanged |
| ShareFile.FormatShareRoundTrip | miscellaneous/vx_underground_COMPLETE/decrypt.py:41-47 | The line `<x>-<hex y>` parses to the share (x, y) |
| ShareFile.PadHex | miscellaneous/vx_underground_COMPLETE/decrypt.py:63 | `hex(n)[2:].rjust(width, '0')`: the lowercase hex digits of n, left-padded with '0' to width. `PadHexProperties` states its length and that it reads back as n |
| ShareFile.PadHexProperties | miscellaneous/vx_underground_COMPLETE/decrypt.py:63 | For n < 16^width the padded hex has exactly width characters, and it always reads back as n |
| ShareFile.RecoverSecret | miscellaneous/vx_underground_COMPLETE/decrypt.py:56-63 | A malformed line gives MalformedLine(index). Fewer than two shares gives InsufficientShares. A vanishing denominator gives ZeroDenominator. Otherwise the secret is the interpolation in [0, p), its hex reads back as the secret, and the hex has exactly width characters when p ≤ 16^width |
| ShareFile.RecoverSecretFromFile | miscellaneous/vx_underground_COMPLETE/decrypt.py:56-61 | Take a well-formed file whose shares lie on a polynomial at distinct points modulo a prime. Parsing succeeds and the interpolation yields the polynomial's constant term |
| PeTimestamps.U32LE | forensics/puzzle_pieces_redux_COMPLETE/sort.py:12 | A little-endian unsigned 32-bit read is below 2^32 |
| PeTimestamps.PackUnpack | forensics/puzzle_pieces_redux_COMPLETE/sort.py:17 | Reading four bytes as a word and writing the word back gives the same four bytes |
| PeTimestamps.TimeDateStamp | forensics/puzzle_pieces_redux_COMPLETE/sort.py:6-18 | A stamp is only read from a file of at least 0x40 bytes, and it is below 2^32 |
| PeTimestamps.TimeDateStampIffImage | forensics/puzzle_pieces_redux_COMPLETE/sort.py:9-18 | The result is Some(stamp) exactly when the file is a PE image: the offset word at 0x3C points to `PE\0\0`, the header fits in the file, and stamp is the word 8 bytes after the signature |
| PeTimestamps.Bins | forensics/puzzle_pieces_redux_COMPLETE/sort.py:21 | A name is selected exactly when it is listed and ends in `.bin`, ignoring case |
| PeTimestamps.Stamped | forensics/puzzle_pieces_redux_COMPLETE/sort.py:22-26 | The entries the loop appends, in directory order: (name, stamp) for each selected file whose stamp is present and nonzero. `StampedMembers` states which entries it holds |
| PeTimestamps.StampedMembers | forensics/puzzle_pieces_redux_COMPLETE/sort.py:22-26 | An entry is appended exactly for a selected file whose stamp is present and nonzero, with that stamp |
| PeTimestamps.NewestFirst | forensics/puzzle_pieces_redux_COMPLETE/sort.py:20-29 | The listing is the stable sort of the stamped files by stamp, newest first. It is non-increasing in stamp, a permutation of the stamped entries, and holds exactly the `.bin` files with a nonzero stamp. Files with equal stamps keep directory order, since `reverse=True` keeps the sort stable |
| Sorting.SortBy | forensics/puzzle_pieces_redux_COMPLETE/sort.py:29 | The sorted list is a permutation of the input, of the same length |
| Sorting.InsertPermutes | forensics/puzzle_pieces_redux_COMPLETE/sort.py:29 | Inserting one element adds exactly that element |
| Sorting.SortBySorted | forensics/puzzle_pieces_redux_COMPLETE/sort.py:29 | The result is ordered by key |
| Sorting.SortByStable | forensics/trashcan_COMPLETE/solve.py:20 | The elements of each key keep their input order |
| Sorting.StableSortUnique | forensics/trashcan_COMPLETE/solve.py:20 | Any sequence ordered by key that keeps the elements of each key in input order is `SortBy`'s result, so the library's stable sort agrees with it |
| Sorting.SortedPermutationUnique | forensics/trashcan_COMPLETE/solve.py:20 | When only equal elements share a key, any ordered permutation of the input is `SortBy`'s result |
| Trashcan.Keep | forensics/trashcan_COMPLETE/solve.py:11-18 | What the loop body does with one row: a record (time, chr(size)) when the name starts with `$R`, `int()` reads the size, the stripped timestamp parses and 0 ≤ size ≤ 255, and nothing when any test fails or anything raises. `KeepMeaning` states it as an iff |
| Trashcan.KeepMeaning | forensics/trashcan_COMPLETE/solve.py:11-18 | A row yields (time, ch) exactly when its name starts with `$R`, `int()` reads its size as ch's code ≤ 255 and its stripped timestamp parses to time |
| Trashcan.FilterRows | forensics/trashcan_COMPLETE/solve.py:9-18 | The loop returns the kept records in file order. A record is present exactly when some row yields it |
| Trashcan.KeptRowsMembers | forensics/trashcan_COMPLETE/solve.py:9-18 | A record is among the kept ones exactly when some row yields it |
| Trashcan.SomesMembers | forensics/trashcan_COMPLETE/solve.py:10-16 | The values collected from the outcomes are exactly those some outcome carries |
| Trashcan.RecordKeyOrder | forensics/trashcan_COMPLETE/solve.py:20 | The integer key `time·0x110000 + ch` orders records exactly as Python orders the tuples (time, ch), and only equal records share a key |
| Trashcan.SortedRecordsUnique | forensics/trashcan_COMPLETE/solve.py:20 | Every ordered permutation of the records is the same sequence, so the sorted rows do not depend on the sort algorithm |
| Trashcan.Solve | forensics/trashcan_COMPLETE/solve.py:9-26 | The rows are sorted ascending by (time, ch) and are a permutation of the kept rows. The raw string is their characters and the output is its run-length decode, at most a third as long |
| RunLength.Runs | forensics/trashcan_COMPLETE/solve.py:24-26 | `groupby` cuts the string into nonempty runs, each differing from the next, that spell the string |
| RunLength.RunsUnique | forensics/trashcan_COMPLETE/solve.py:24-26 | Any such maximal cut is the one `groupby` finds |
| RunLength.DecodeRuns | forensics/trashcan_COMPLETE/solve.py:24-26 | The join over the runs of L // 3 copies of each run's character, in run order. `DecodeLength` and `DecodeTriple` characterise it |
| RunLength.Decode | forensics/trashcan_COMPLETE/solve.py:24-26 | The run-length decode of a string: `DecodeRuns` over the maximal runs `groupby` finds (`Runs`, `RunsUnique`) |
| RunLength.DecodeEmptyIffShortRuns | forensics/trashcan_COMPLETE/solve.py:24-26 | The decode is empty exactly when every run is shorter than 3, which includes the empty string |
| RunLength.DecodeTriple | forensics/trashcan_COMPLETE/solve.py:23-26 | Writing every character three times and decoding gives the text back |
| RunLength.DecodeLength | forensics/trashcan_COMPLETE/solve.py:24-26 | The output length is the sum of L // 3 over the runs, and at most a third of the input |

## Left out

- File and directory I/O is left out: `open`, `sys.argv`, `os.listdir`, the file reads and `pd.read_csv`. The share file is given as its lines, a directory as its names and a `contents` function, and the CSV as rows of three strings.
- Printing and the usage message are left out.
- The UTF-8 decode of the secret bytes is left out. So are `datetime.utcfromtimestamp` and the flag regex. They only format output.
- `datetime.strptime` is the parameter `parseTime`. It returns an integer key, or None where it would raise. Comparing datetimes is modelled as comparing those keys.
- The fixed `PRIME_HEX` and `PRIME` are not declared. The modulus and the output width are parameters of `RecoverSecret`. The script passes 2^256 + 0x129 and 66. That this number is prime is not proved, and every recovery lemma assumes `IsPrime`.
- PyInt.ParseInt: non-ASCII digits, which `int()` also accepts, are rejected. Python's limit on the number of digits in a conversion is not modelled.
- PeTimestamps.Bins: `str.lower()` is applied to ASCII letters only. No non-ASCII character lowercases to one of `.bin`, so the selection agrees with Python's.
- Sorting.SortBy: Python's Timsort is replaced by this reference stable sort. `StableSortUnique` shows that every stable sort returns the same list.
- Sorting.SortBy sorts by an integer key. `sort.py` sorts by the stamp with `reverse=True`, modelled as the ascending stable sort by the negated stamp (`NewestKey`). `solve.py` sorts tuples (time, ch), modelled by the key `RecordKey`, which `RecordKeyOrder` shows orders records as the tuples are ordered.
- Interpolator.Interpolate: the result is stated for any modulus p > 1. Its meaning as the secret is proved only for a prime p.
