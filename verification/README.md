# Verified cores of PRCS and its portability library

PRCS is a revision control system; its `libgnu` directory supplies the C library functions it does not trust the
platform for. This project models the parts of both whose correctness is least visible from reading them, and proves
what they compute.

- **Exact number formatting** (`libgnu/vasnprintf.c`). Bignums in arrays of 32-bit limbs: schoolbook multiplication,
  in-place long division with trial digits, one add-back and rounding half to even, powers of five, conversion to
  decimal, and the search for the exponent of `%e` and `%g`. The specification is arithmetic: the digits denote
  round-half-even(m * 2^e * 10^n). (`Powers`, `Limbs`, `Division`, `Divide`, `Bounds`,
  `DecimalDigits`, `Decimal`, `Scale10`, `ExponentLoop`)
- **Pattern matching** (`libgnu/fnmatch_loop.c`). The backtracking matcher against a declarative glob language.
  (`Glob`, `GlobLanguage`)
- **Option scanning** (`src/getopt.c`). The argument vector permuted in place over many calls against a stable
  partition, and every report in terms of the words of the user. (`Options`, `OptionReading`, `Getopt`)
- **Memory functions** (`libgnu/memchr.c`, `libgnu/memcmp.c`). Word-at-a-time tricks, unrolled and entered in the
  middle, against first occurrence and lexicographic order. (`Words`, `Memchr`, `Memcmp`)
- **Multibyte decoding** (`libgnu/mbrtowc.c`, `libgnu/mbsrtowcs-impl.h`). A resumable decoder with four bytes of state
  against one-shot decoding by the grammar of RFC 3629. (`Utf8`, `Mbrtowc`, `Mbsrtowcs`)
- **Format strings** (`libgnu/printf-parse.c` and the directive rebuilt in `libgnu/vasnprintf.c`). What the parser
  guarantees to the formatter, in terms of the words of a directive, and that the rebuilt directive fits, means the same
  and gets its arguments in the right places. (`PrintfSyntax`, `PrintfArgs`, `PrintfParse`, `PrintfGrammar`,
  `PrintfRequests`, `PrintfRebuild`, `PrintfFormat`)
- **Hash tables** (`src/hash.cc`). Linked buckets with growth against a map, and the insertion-ordered table over it.
  (`Buckets`, `Chains`, `HashTable`, `OrderedTable`, `HashFunctions`)

Code that works by changing things in place is modelled by methods over arrays, linked nodes and objects, each proved
against a specification function or predicate; the properties of the specifications are lemmas. An `abort()` of the
source appears as an assertion that it is not reached, or as an outcome of its own (the exponent search). So do a store
outside its buffer and a read through a null pointer.

`dafny verify dfyconfig.toml` checks everything.

## What the proofs show about the code

- `convert_to_decimal` counts no cell for the terminating NUL in its allocation (851-852, 888). The digits always fit;
  the NUL does exactly if a < 10^(c_len - 1), which holds for every a below 10^125 and fails from there up to beta^13
  (`Decimal.TerminatorFitsIff`, `SmallFits`, `ThirteenLimbsFitIff`). `Scale10.NotTerminatedSample` is a double for which it
  fails with every precision of `%f`; `ExponentLoop.SearchTerminated` shows that `%e` is safe up to precision 122. The
  model does not store a NUL outside the buffer; it reports that there is none.
- The exponent search succeeds from a guess one too high unless precision is 0 and x <= 10^guess / 2, from a guess one
  too low unless rounding to precision+1 digits carries into a further digit, and from a guess two too high exactly when
  precision > 0 and rounding to precision digits carries. No other guess works (`ExponentLoop.SearchCorrect`).
- `fnmatch` differs from the standard's language on patterns with an escaped slash next to wildcards under
  FNM_PATHNAME. `GlobLanguage.MatcherIsLanguageIff` gives the exact condition on the pattern, with a string for every
  pattern outside it.
- `getopt` returns EOF at `--` without stepping over it (405-409), although the comment above says it is skipped. The
  model follows the code: optind is left at `--`.
- The directive buffer of `7 + width + precision + 6` is one short for a configuration with the `'` flag, the `I` flag
  and the `%n` suffix. `PrintfRebuild.BufferIsEnoughIff` gives the exact set of configurations.
- `HashTable::remove` reads the first item of a bucket without a test. There is one exactly if some key of the table
  hashes to the bucket (`Buckets.NonEmptyDecides`): always for a present key, never in a new table.

## Model

| member | source | states |
|---|---|---|
| Powers.RoundHalfEvenCharacterised | libgnu/vasnprintf.c:407-413 | the floor-based rounding used as specification is the integer nearest to a/b, the even one of two at half-way, and nothing else is |
| Powers.NearestIsUnique | libgnu/vasnprintf.c:407-413 | there is only one nearest integer under the ties-to-even rule, so the specification of `divide` fixes its result |
| Powers.RoundCommonFactor | libgnu/vasnprintf.c:611-661 | scaling dividend and divisor alike does not change the rounded quotient |
| Limbs.ValConcat | libgnu/vasnprintf.c:333-337 | the value of a little-endian limb sequence splits at every place with weight beta^n |
| Limbs.ValBound | libgnu/vasnprintf.c:333-337 | n limbs stay below beta^n |
| Limbs.Normalise | libgnu/vasnprintf.c:398-401 | dropping leading zero limbs keeps the value and leaves no leading zero |
| Limbs.ScaleRow | libgnu/vasnprintf.c:1130-1141 | multiplying by a digit with a running carry, in place or into another buffer, multiplies the value; the carry stays below the digit |
| Limbs.DivideSmall | libgnu/vasnprintf.c:519-531 | dividing from the top limb down, in place or copying, gives quotient and remainder with remainder < divisor; neighbours are untouched |
| Limbs.RowStep | libgnu/vasnprintf.c:388-395 | one more limb of a multiply-accumulate row keeps new limbs + carry = old limbs + digit times source |
| Limbs.AddRow | libgnu/vasnprintf.c:384-397 | the inner loop of `multiply` adds digit times a bignum onto a row; carries never exceed a limb and no other cell changes |
| Limbs.MultiplyRow | libgnu/vasnprintf.c:384-397 | after row i the buffer holds the product of the first i+1 limbs |
| Limbs.MultiplyRows | libgnu/vasnprintf.c:382-397 | the double loop leaves the product of the two values in the buffer |
| Limbs.Multiply | libgnu/vasnprintf.c:342-405 | `multiply` returns the exact product, normalised, in a new buffer, for all operands including zero |
| Division.ComputeTrial | libgnu/vasnprintf.c:674-720 | the three-limb trial quotient with its at most two corrections divides the top limbs exactly, or is capped at beta-1 |
| Division.FixUp | libgnu/vasnprintf.c:703-720 | when the overestimate c3 - c2 calls for no, one or two corrections |
| Division.OverflowSkipsTest | libgnu/vasnprintf.c:685-702 | when the subtraction overflows a limb, no correction test is needed |
| Division.TrialIsClose | libgnu/vasnprintf.c:674-720 | with b normalised and the window below beta*b, window - q*.b lies in [-b, b): the digit is right or one too large |
| Division.SubtractMultiple | libgnu/vasnprintf.c:724-743 | the complemented in-place subtraction of q* times b, with its borrow |
| Division.SubtractCell | libgnu/vasnprintf.c:731-741 | one cell of that subtraction: the complemented sum is the difference and the carry's high half the borrow |
| Division.AddBack | libgnu/vasnprintf.c:750-766 | adding b back, with a carry of at most one |
| Division.NoBorrow | libgnu/vasnprintf.c:742-746 | no borrow: the low limbs are the remainder of the window |
| Division.Borrow | libgnu/vasnprintf.c:744-768 | a borrow: one add-back restores 0 <= r < b and drops exactly one carry |
| Division.ZeroDigit | libgnu/vasnprintf.c:721-723 | skipping the subtraction for q* = 0 is sound: the window already is the remainder |
| Division.QuotientDigit | libgnu/vasnprintf.c:672-775 | one pass of the loop: window = digit * b + remainder, the digit stored in the window's stale top cell |
| Division.OverlaidStep | libgnu/vasnprintf.c:638-776 | writing q[j] over r[j+n] destroys no live limb: with k digits to come (shifted a) = q*b*beta^k + r in one buffer |
| Division.LongDivide | libgnu/vasnprintf.c:664-776 | the whole loop leaves quotient limbs above remainder limbs with a = q*b + r and r < b |
| Division.LeadingZeros | libgnu/vasnprintf.c:581-608 | the five-step count of leading zero bits shifts the top limb to at least beta/2 without losing bits |
| Divide.CompareTwice | libgnu/vasnprintf.c:801-820 | the limb-wise comparison decides the sign of 2r - b |
| Divide.TwiceValue | libgnu/vasnprintf.c:806-810 | the limbs (r[i-1] >> 31) / (r[i] << 1) denote 2r |
| Divide.HigherLimbDecides | libgnu/vasnprintf.c:812-815 | the highest differing limb decides the order of the values |
| Divide.Increment | libgnu/vasnprintf.c:823-830 | adding one to the quotient, by a carry loop that may append a limb, adds one to its value |
| Divide.DividePath1 | libgnu/vasnprintf.c:513-545 | path n = 1: quotient, remainder, and normalisation |
| Divide.DividePathN | libgnu/vasnprintf.c:546-800 | path n > 1: shifting both operands by s bits, dividing, normalising both; quotient and remainder share the buffer |
| Divide.SmallDividend | libgnu/vasnprintf.c:504-512 | path m < n: quotient zero, remainder a |
| Divide.QuotientLength | libgnu/vasnprintf.c:777-780 | the quotient has at least m - n limbs, so at most one leading zero must be dropped |
| Divide.RoundedQuotient | libgnu/vasnprintf.c:801-831 | the remainder test on the shifted operands decides round-half-even of the original quotient |
| Divide.Divide | libgnu/vasnprintf.c:414-837 | `divide` returns a/b rounded to nearest, ties to even, normalised, for every a and every b > 0 and whichever path is taken |
| Bounds.BetaTo199 | libgnu/vasnprintf.c:850-851 | beta^199 < 10^(9*213), which justifies the constant 32*0.03345 |
| Bounds.FiveTo205 | libgnu/vasnprintf.c:1104-1110 | 5^205 < 2^476, which justifies the constant 2.322 |
| Bounds.DecimalRoomSuffices | libgnu/vasnprintf.c:850-852 | a number of n limbs has at most the groups of nine digits that are allocated, for every n |
| Bounds.FiveLimbsSuffice | libgnu/vasnprintf.c:1104-1110 | 5^n fits in the limbs allocated for it, for every n |
| Decimal.NumeralDenotes | libgnu/vasnprintf.c:881-888 | the numeral of v consists of digits, denotes v, and has no leading zero except for zero itself |
| DecimalDigits.DigitTable | libgnu/vasnprintf.c:871-876 | the digit characters are those from 0 to 9, each with its value |
| Decimal.NumeralUnique | libgnu/vasnprintf.c:881-888 | a digit string without leading zero is the numeral of what it denotes |
| Decimal.NumeralLength | libgnu/vasnprintf.c:850-852 | a numeral has at most k digits exactly when its number is below 10^k |
| Decimal.EmitNine | libgnu/vasnprintf.c:871-876 | nine digits of a remainder, lowest first, denote it |
| Decimal.RoundShrinks | libgnu/vasnprintf.c:860-879 | one division by 10^9 uses up one group of the room and drops at most one limb |
| Decimal.EmitGroups | libgnu/vasnprintf.c:858-880 | the main loop terminates, never writes more than c_len + zeroes digits, and its digits denote the number |
| Decimal.ConvertToDecimal | libgnu/vasnprintf.c:845-891 | `convert_to_decimal` puts the numeral of a * 10^zeroes, low digit first, into the c_len + zeroes characters it allocates, which are always enough for the digits; the terminator is inside them exactly if a < 10^(c_len - 1) |
| Decimal.TerminatorFitsIff | libgnu/vasnprintf.c:852-888 | a cell is left behind the digits exactly if a < 10^(c_len - 1), whatever the number of zeroes |
| Decimal.NormalLength | libgnu/vasnprintf.c:850-852 | a bignum without leading zero limb has as many limbs as its value needs, so c_len depends on the value alone |
| Decimal.TwelveLimbsFit | libgnu/vasnprintf.c:850-852 | up to twelve limbs always leave a cell for the terminator |
| Decimal.ThirteenLimbsFitIff | libgnu/vasnprintf.c:850-852 | thirteen limbs leave one exactly below 10^125; from there on 126 digits fill all 126 characters |
| Decimal.SmallFits | libgnu/vasnprintf.c:850-852 | every number below 10^125 leaves one |
| Scale10.TwosAndFives | libgnu/vasnprintf.c:1089-1092 | m*2^e*10^n is m*2^(e+n)*5^n, whatever the signs, also after rounding |
| Scale10.CommonTens | libgnu/vasnprintf.c:1094-1103 | factoring out min(s,n) powers of ten commutes with the rounding |
| Scale10.SmallPow5 | libgnu/vasnprintf.c:1122-1126 | the table of small powers holds 5^0 to 5^13 |
| Scale10.BuildPow5 | libgnu/vasnprintf.c:1116-1143 | 5^/n/ built by steps of thirteen powers, in the room allocated |
| Scale10.Pow5Step | libgnu/vasnprintf.c:1128-1142 | no step outgrows the room for 5^/n/ |
| Scale10.ShiftSplit | libgnu/vasnprintf.c:1144-1145 | /s/ div 32 limbs and /s/ mod 32 bits make up the shift |
| Scale10.ShiftInPlace | libgnu/vasnprintf.c:1148-1180 | multiplying by 2^/s/ in place, bits first and then whole limbs, within the buffer |
| Scale10.PlacePowerOfTwo | libgnu/vasnprintf.c:1212-1221 | 2^/s/ placed just above 5^/n/ in the same buffer, which stays intact |
| Scale10.ShiftedCopy | libgnu/vasnprintf.c:1230-1269 | m * 2^s in a new buffer |
| Scale10.ScaleSameSigns | libgnu/vasnprintf.c:1146-1193 | n and s of the same sign: the shifted power of five multiplies m or divides it, rounded |
| Scale10.ScaleDown | libgnu/vasnprintf.c:1194-1224 | n >= 0, s < 0: m * 5^n divided by 2^/s/, rounded |
| Scale10.ScaleUp | libgnu/vasnprintf.c:1225-1271 | n < 0, s > 0: m * 2^s divided by 5^/n/, rounded |
| Scale10.ScaleRound | libgnu/vasnprintf.c:1104-1273 | in each of the four sign cases the bignum is round(m*2^s*5^n) |
| Scale10.Scale10RoundDecimal | libgnu/vasnprintf.c:1071-1284 | the digits of round-half-even(m*2^e*10^n), for every m, e and n, and whether their buffer holds a terminator: exactly if the number without its common power of ten is below 10^(c_len - 1) |
| Scale10.CommonTensRounded | libgnu/vasnprintf.c:1094-1103 | the number handed to convert_to_decimal is the rounded number divided by the common power of ten, without remainder |
| Scale10.SmallIsTerminated | libgnu/vasnprintf.c:1281-1282 | a rounded number below 10^125 always has its terminator |
| Scale10.IntegerTerminatedIff | libgnu/vasnprintf.c:1281-1282 | for an integer x = m*2^e and any n >= 0 it is x itself that decides |
| Scale10.NotTerminated | libgnu/vasnprintf.c:1281-1282 | an x from 10^125 up to beta^13 never has its terminator: its 126 + n digits take the whole buffer |
| Scale10.NotTerminatedSample | libgnu/vasnprintf.c:1281-1282 | 3 * 2^414, a double, is such an x |
| ExponentLoop.DigitsNear | libgnu/vasnprintf.c:4181-4206 | what the scaled and rounded digits can be for the exponents k-1, k and k+1 |
| ExponentLoop.ExponentExistsIff | libgnu/vasnprintf.c:4177-4206 | a number has a decimal exponent exactly if it is positive, and only one, so that what is said for the exponent of x holds for every positive x |
| ExponentLoop.CorrectIsRounded | libgnu/vasnprintf.c:4207-4230 | the target has exactly precision+1 digits and is x rounded at its own exponent |
| ExponentLoop.NearMissIsGood | libgnu/vasnprintf.c:4177-4206 | a guess one too high with x > 1/2*10^guess, or one too low with x < 3/2*10^(guess+1), is good |
| ExponentLoop.NoCarryIff | libgnu/vasnprintf.c:4181-4206 | rounding to p+1 digits carries into a further digit exactly from 10^(p+1) - 1/2 on |
| ExponentLoop.SearchCorrect | libgnu/vasnprintf.c:4177-4230 | from any guess whatever, the loop and the borderline step end with x correctly rounded if and only if the guess is good: exact, or one or two off under a condition on x |
| ExponentLoop.SearchTerminated | libgnu/vasnprintf.c:4183-4219 | with a precision up to 122, from any guess at most one too low, every digit string the search measures has its terminator |
| ExponentLoop.IsBorderline | libgnu/vasnprintf.c:1504-1516 | is_borderline holds exactly for the digits of 10^precision |
| ExponentLoop.SearchLoop | libgnu/vasnprintf.c:4181-4206 | the loop alone: at most two rounds, and the digits and exponent it leaves are those of the search |
| ExponentLoop.SearchExponent | libgnu/vasnprintf.c:4177-4230 | the loop as coded computes those functions, in at most two rounds, whatever the guess; or it stops at a digit string without terminator, exactly when there is one |
| ExponentLoop.SettleBorderline | libgnu/vasnprintf.c:4207-4229 | the result is that of Settle, and the digits returned are the numeral for the exponent returned, if the second digit string has its terminator |
| ExponentLoop.RoundToDigits | libgnu/vasnprintf.c:4177-4230 | with a good guess neither abort is reached, and, all digit strings having their terminators, the exponent and the precision+1 digits are those of x correctly rounded; for %g (4325-4378) take precision-1 |
| Glob.RunRun | libgnu/fnmatch_loop.c:94-124 | `**` is `*`: folding adjacent stars loses no match |
| Glob.RunOne | libgnu/fnmatch_loop.c:105-124 | `*?` takes one character (no slash in pathname matching) and is then `*` |
| Glob.PeriodDropped | libgnu/fnmatch_loop.c:181-183 | outside pathname matching FNM_PERIOD has no effect past the first character, so the recursive call may drop it |
| Glob.FoldDecides | libgnu/fnmatch.c:145 | two characters fold to the same one exactly if they are equal or, under FNM_CASEFOLD only, the two cases of one letter of the alphabet |
| Glob.Fct | libgnu/fnmatch_loop.c:24-197 | FCT returns 0 exactly when the items of the pattern accept the string; it terminates on the remaining pattern |
| Glob.Star | libgnu/fnmatch_loop.c:80-197 | a run of `*` and `?` is one scan |
| Glob.StarAtEnd | libgnu/fnmatch_loop.c:126-146 | trailing wildcards: slash and FNM_LEADING_DIR rules at the end |
| Glob.StarSlash | libgnu/fnmatch_loop.c:170-178 | `*/` in pathname matching goes to the next slash |
| Glob.StarLiteral | libgnu/fnmatch_loop.c:179-193 | `*` and a literal: trying only the places where its character stands misses nothing |
| GlobLanguage.LanguageIsFrom | libgnu/fnmatch_loop.c:24-197 | a match as cut points that give every pattern item its piece is the item-by-item reading of the language |
| GlobLanguage.ItemsText | libgnu/fnmatch_loop.c:46-99 | a pattern is, character for character, the text of its items: escapes, wildcards and literals, under FNM_NOESCAPE too |
| GlobLanguage.TextItems | libgnu/fnmatch_loop.c:46-99 | and the text of any items that a pattern can have reads back as these items |
| GlobLanguage.PlainPattern | libgnu/fnmatch_loop.c:954-974 | a pattern without special characters matches its own characters, one by one, in the same case or under FNM_CASEFOLD in either, and without FNM_CASEFOLD and FNM_LEADING_DIR only itself |
| GlobLanguage.WildcardsAlone | libgnu/fnmatch_loop.c:49-99 | without the flags that except slashes and periods `*` stands for every text and `?` for every single character |
| GlobLanguage.RulesAgree | libgnu/fnmatch_loop.c:24-197 | on agreeing patterns the code's rule and the POSIX language agree from every position |
| GlobLanguage.SlashAfterRunMatchesNothing | libgnu/fnmatch_loop.c:179-193 | an escaped slash right after a run with a star makes the code match nothing |
| GlobLanguage.SampleAccepted | libgnu/fnmatch_loop.c:67-78 | an escaped slash before a wildcard: the code accepts a leading period there |
| GlobLanguage.SampleNotInLanguage | libgnu/fnmatch_loop.c:954-962 | the language rejects the sample string, because the period right after its slash is a leading one |
| GlobLanguage.DifferIfNotAgreeing | libgnu/fnmatch_loop.c:24-197 | every pattern outside the condition has a string on which code and language differ |
| GlobLanguage.MatcherIsLanguageIff | libgnu/fnmatch_loop.c:24-197 | the code decides the declarative glob language, with the slash and leading-period rules of POSIX.1-2008 XCU 2.13.3, on all strings exactly for the agreeing patterns |
| GlobLanguage.Fnmatch | libgnu/fnmatch.c:271-338 | fnmatch returns 0 exactly for a match under the code's rule, and under the language for agreeing patterns; a pattern without special characters matches exactly what it spells, in the case given unless FNM_CASEFOLD is set |
| Options.LookupLong | src/getopt.c:481-503 | the search loop finds what Lookup says |
| Options.LookupMeaning | src/getopt.c:481-517 | an exact name wins, otherwise a prefix of one option only; two or more are ambiguous |
| Options.SplitExtend | src/getopt.c:383-398 | one more scanned element extends the options or the non-options in order |
| Options.SplitIsPermutation | src/getopt.c:215-269 | the split into options with arguments and non-options loses and invents nothing |
| Options.ReportsExtend | src/getopt.c:451-662 | what a scan reports grows by the reports of the element reached |
| OptionReading.ShortIsRead | src/getopt.c:592-661 | by the colons behind its letter in optstring a short option takes no argument and leaves the letters after it; or the rest of its element, not the letter itself, or else the whole next element; an optional argument is attached or none; an unknown letter and a missing argument are reported with their codes and optopt |
| OptionReading.LongTextExists | src/getopt.c:478-479 | every text of a long option is NAME or NAME=ARG, NAME without '=' |
| OptionReading.LongIsRead | src/getopt.c:466-590 | with NAME=ARG the argument is ARG, refused for an option without one; otherwise the next element, exactly if an argument is required; the code is val, or 0 with a flag pointer; the errors with their codes |
| OptionReading.WhichReading | src/getopt.c:444-469 | two dashes mean a long option if there are any; one dash does only for getopt_long_only, and then not for a known letter alone; decoding starts behind the dashes |
| OptionReading.WhatIsOption | src/getopt.c:391-405 | an option is a word that begins with a dash and is neither `-` nor `--` |
| OptionReading.ClusterIsRead | src/getopt.c:592-661 | the reports of a cluster are the readings of what is left from its first, second, ... letter on, up to one that uses up the element |
| OptionReading.LongIsReported | src/getopt.c:466-590 | a long option is one report, of its reading |
| OptionReading.AttachedArgument | src/getopt.c:631-637 | in an argument vector, `-cARG` is one element, reported as c with ARG |
| OptionReading.DetachedArgument | src/getopt.c:638-656 | `-c ARG` is two elements, reported as c with ARG, whatever ARG looks like |
| OptionReading.LongAttached | src/getopt.c:519-536 | `--NAME=ARG`, also with an abbreviated name, is one element, reported with ARG |
| OptionReading.LongDetached | src/getopt.c:544-556 | `--NAME ARG`, for an option that requires an argument, is two elements, reported with ARG |
| Getopt.SwapStretches | src/getopt.c:238-243 | swapping two stretches exchanges them and touches nothing else |
| Getopt.RotateBottom | src/getopt.c:231-246 | a round with the shorter bottom segment keeps the goal of the rotation |
| Getopt.RotateTop | src/getopt.c:247-262 | a round with the shorter top segment keeps it too |
| Getopt.ExchangeBlocks | src/getopt.c:219-263 | `exchange` is an exact block swap and terminates |
| Getopt.LayoutExchanged | src/getopt.c:383-389 | moving the options found behind the skipped non-options keeps the layout |
| Getopt.Scanner.ChooseOrdering | src/getopt.c:287-302 | a `-` in front of optstring asks for RETURN_IN_ORDER, a `+` or POSIXLY_CORRECT for REQUIRE_ORDER, and nothing else keeps PERMUTE from being chosen |
| Getopt.Scanner.Initialize | src/getopt.c:273-305 | when PERMUTE is asked for, the initialisation chooses it and establishes the layout |
| Getopt.Scanner.Exchange | src/getopt.c:215-269 | exchange with its bookkeeping keeps every element before optind in stable order |
| Getopt.Scanner.SkipNonOptions | src/getopt.c:391-397 | the non-options skipped are exactly those up to the next option or the end |
| Getopt.Scanner.LongOptionCase | src/getopt.c:466-590 | the long-option branch moves the scanner as DecodeLong says, which OptionReading.LongIsRead states in terms of the words |
| Getopt.Scanner.ShortOptionCase | src/getopt.c:592-661 | the short-option branch moves the scanner as DecodeShort says, which OptionReading.ShortIsRead states in terms of the words |
| Getopt.Scanner.NextElement | src/getopt.c:376-449 | the scan comes to the next element with option characters, past non-options only, or to the end with the vector partitioned, or to `--` |
| Getopt.Scanner.NextOption | src/getopt.c:363-662 | between calls first_nonopt <= last_nonopt <= optind <= argc and the vector is the original with everything before optind sorted; each call reports the next option of the original vector; the EOF call leaves the stable partition, or stops at `--` |
| Getopt.Scanner.FinallyPartitioned | src/getopt.c:421-431 | with nothing left, argv is the program name, the options with their arguments in order, then the non-options in order, and optind the first of those |
| Getopt.ToldStep | src/getopt.c:363-662 | one call adds exactly the report of the characters it decodes |
| Getopt.ScanAll | src/getopt.c:363-662 | a whole run terminates, reports exactly the options of the original vector in order, and ends with the stable partition or at `--` |
| Words.MergeLoads | libgnu/memcmp.c:57-58 | shifting and merging the two aligned words around an unaligned address gives the word at that address, for all seven offsets |
| Words.ByteDifferenceSign | libgnu/memcmp.c:99-107 | the wrap-around of the unsigned byte subtraction does not show: its sign as an int is the order of the bytes |
| Words.SignBit | libgnu/memcmp.c:99-107 | an int is negative exactly if its top bit is set, and zero only for 0 |
| Words.IntThroughWord | libgnu/memcmp.c:331-336 | an int result survives being kept in an op_t, all of whose upper bits are the sign |
| Memchr.ZeroByteTest | libgnu/memchr.c:111-148 | the word expression is nonzero exactly when some byte of the word is zero |
| Memchr.RepeatedWords | libgnu/memchr.c:92-109 | repeated_one and repeated_c hold 1 and c in every byte |
| Memchr.LoadedWordHasByte | libgnu/memchr.c:144-147 | after the exclusive-or, exactly when one of the eight bytes in memory is c |
| Memchr.Memchr | libgnu/memchr.c:57-169 | the first index holding c, or none, for every n, every byte and every start alignment; all loads lie inside the n bytes |
| Memcmp.Lexicographic | libgnu/memcmp.c:302-358 | the order is zero exactly for equal blocks |
| Memcmp.FirstDifferenceDecides | libgnu/memcmp.c:302-358 | the first differing pair decides the lexicographic order |
| Memcmp.DifferenceIsLexicographic | libgnu/memcmp.c:302-358 | the sign of the byte-difference specification is the lexicographic order |
| Memcmp.DifferenceSplit | libgnu/memcmp.c:338-341 | comparing i pairs and then j more is comparing i+j pairs |
| Memcmp.MemcmpBytes | libgnu/memcmp.c:92-108 | memcmp_bytes terminates on different words and returns the difference of their first differing bytes |
| Memcmp.WordDifferenceInMemory | libgnu/memcmp.c:92-108 | comparing loaded words byte by byte is comparing memory |
| Memcmp.CommonLoop | libgnu/memcmp.c:157-193 | the unrolled loop, entered at any of its four points with the registers of that point, compares every word once and in order |
| Memcmp.MemcmpCommonAlignment | libgnu/memcmp.c:117-194 | the difference of the two runs of len words, for every len, by aligned loads only |
| Memcmp.StraddledWord | libgnu/memcmp.c:213-218 | merging two aligned words gives the unaligned word to be compared |
| Memcmp.FetchedAhead | libgnu/memcmp.c:258-283 | the loads ahead stay inside memory made of whole words |
| Memcmp.ShiftedLoop | libgnu/memcmp.c:258-299 | the software-pipelined loop, entered at any of its four points, compares every merged word once and in order |
| Memcmp.MemcmpNotCommonAlignment | libgnu/memcmp.c:202-300 | the difference of the two runs of len words, for every len and every misalignment, by aligned loads only |
| Memcmp.CompareUntilAligned | libgnu/memcmp.c:311-325 | sixteen bytes are enough to align the second block |
| Memcmp.Memcmp | libgnu/memcmp.c:302-358 | rpl_memcmp: the sign is the lexicographic order and zero exactly for equal blocks, for every length and every pair of alignments |
| Utf8.EncodeWellFormed | libgnu/mbrtowc.c:131-183 | the grammar of RFC 3629 section 4 admits the encoding of every scalar value |
| Utf8.WellFormedEncodes | libgnu/mbrtowc.c:131-183 | and nothing else: every well-formed sequence is the encoding of its scalar value |
| Utf8.PrefixFree | libgnu/mbrtowc.c:131-183 | no character is a proper prefix of another |
| Utf8.BadStaysBad | libgnu/mbrtowc.c:182-183 | what neither starts with a character nor can become one stays so whatever follows |
| Utf8.EncodeKeepsOrder | libgnu/mbrtowc.c:131-183 | encodings are ordered as bytes in the order of their scalar values, so that with the grammar no other assignment of encodings to characters is possible |
| Utf8.DecodeKeepsBytes | libgnu/mbrtowc.c:38-320 | one-shot decoding loses nothing: its characters encoded again, and the rest, are the string |
| Utf8.EncodeThenDecode | libgnu/mbrtowc.c:38-320 | every sequence of characters is what its encoding decodes to |
| Utf8.DecodeAppend | libgnu/mbrtowc.c:64-91 | a string decoded in two parts gives the same characters |
| Mbrtowc.TooFewIff | libgnu/mbrtowc.c:133-183 | the branches that tell unfinished from invalid accept exactly the proper prefixes of characters |
| Mbrtowc.CompletedBeyondSaved | libgnu/mbrtowc.c:104-110 | a character completed by new bytes ends among them and is not null |
| Mbrtowc.BufferDecides | libgnu/mbrtowc.c:61-126 | what the four-byte buffer shows is true of all the bytes |
| Mbrtowc.FillBuffer | libgnu/mbrtowc.c:64-91 | the saved bytes and as many new ones as fit |
| Mbrtowc.SaveBytes | libgnu/mbrtowc.c:298-313 | the state becomes all the bytes seen; the abort there is not reached |
| Mbrtowc.Mbrtowc | libgnu/mbrtowc.c:38-320 | one call is one step of decoding the saved bytes followed by the new ones, with return value, stored character and new state; the saved bytes are always a proper prefix of a character; no abort is reached |
| Mbrtowc.StreamStep | libgnu/mbrtowc.c:38-320 | one call keeps the whole stream's decoding |
| Mbrtowc.BrokenStays | libgnu/mbrtowc.c:315-318 | an invalid sequence in a stream cannot be repaired by more bytes |
| Mbrtowc.FeedPiece | libgnu/mbrtowc.c:38-320 | calling until a piece is used up continues the one-shot decoding |
| Mbrtowc.FeedAll | libgnu/mbrtowc.c:38-320 | fed in any pieces, the characters are those of the one-shot decoding of all the bytes, the state is what is left over, and failure is reported exactly for invalid input |
| Mbsrtowcs.SourceAvailable | libgnu/mbsrtowcs-impl.h:35-46 | the bytes offered are at least four, or all up to and including the null byte |
| Mbsrtowcs.AvailableDecides | libgnu/mbsrtowcs-impl.h:48-54 | they decide as the whole rest of the string would, and are never too few |
| Mbsrtowcs.OneCharacter | libgnu/mbsrtowcs-impl.h:48-64 | one call of mbrtowc takes exactly the next character of the string and never answers -2 |
| Mbsrtowcs.NextCharacter | libgnu/mbsrtowcs-impl.h:32-64 | the same for the call with its available bytes, in both passes; the abort is not reached |
| Mbsrtowcs.Convert | libgnu/mbsrtowcs-impl.h:26-69 | the converting pass stores the decoded characters up to len, the null character if there is room, and leaves source pointer and state where decoding continues; or reports the first invalid sequence |
| Mbsrtowcs.CountChars | libgnu/mbsrtowcs-impl.h:70-114 | the counting pass returns the number of characters before the null character, or an error, and leaves the state alone |
| Mbsrtowcs.CountThenConvert | libgnu/mbsrtowcs-impl.h:18-122 | counting, allocating one more and converting delivers exactly the string's characters and its null, and both passes return the same |
| PrintfSyntax.XsumSaturates | libgnu/xsize.h:58-67 | xsum is exact addition with SIZE_MAX for everything too large, also on operands that already are |
| PrintfSyntax.XtimesSaturates | libgnu/xsize.h:101-106 | xtimes is exact multiplication with SIZE_MAX for everything too large, also on operands that already are |
| PrintfArgs.RegisteredExtends | libgnu/printf-parse.c:125-131 | registering an index gives it its type and keeps every other type |
| PrintfArgs.Arguments.Grow | libgnu/printf-parse.c:103-124 | growing the array keeps its contents and reaches the index, with twice the room or just enough if that is more; out of memory exactly if the size in bytes is SIZE_MAX or more |
| PrintfArgs.Arguments.SetType | libgnu/printf-parse.c:125-131 | the first type registered for an index stays, another one is an error; indices skipped get no type |
| PrintfArgs.Arguments.RegisterArg | libgnu/printf-parse.c:100-132 | REGISTER_ARG: the types afterwards, an error exactly for a conflict, out of memory exactly for an excessive size |
| PrintfParse.NumberLoop | libgnu/printf-parse.c:162-165 | the digits' number, or SIZE_MAX if it is too large |
| PrintfParse.ReadPosition | libgnu/printf-parse.c:153-175 | a position is accepted exactly if it is at least 1 and below SIZE_MAX, and names the index below it |
| PrintfParse.FlagLoop | libgnu/printf-parse.c:177-219 | all flag characters are read and their flags set |
| PrintfParse.SizeLoop | libgnu/printf-parse.c:341-443 | all size specifiers are read and added up |
| PrintfParse.ReadWidth | libgnu/printf-parse.c:221-273 | width text, argument, running maximum; what was registered stays |
| PrintfParse.ReadPrecision | libgnu/printf-parse.c:275-332 | precision text, argument, running maximum; what was registered stays |
| PrintfParse.ReadDirective | libgnu/printf-parse.c:137-579 | the directive describes its text completely (flags, width, precision, conversion, indices), reserves its arguments with their types, and is an error, or too large for memory, exactly if the first bad one of its parts is |
| PrintfParse.StatusRejects | libgnu/printf-parse.c:137-579 | an error means that a part is bad, and a directive that is read has none |
| PrintfParse.ReservedStays | libgnu/printf-parse.c:125-131 | whatever is registered later, a directive's reservation holds |
| PrintfParse.LongestBounds | libgnu/printf-parse.c:227-228 | no width or precision is longer than the recorded maximum |
| PrintfGrammar.StandsAsText | libgnu/printf-parse.c:137-579 | the words of a directive, put together, are its text in the format |
| PrintfGrammar.LandmarksFound | libgnu/printf-parse.c:137-579 | wherever words of a directive stand, the parser's landmarks are their beginnings: no word is mistaken for a part of another |
| PrintfGrammar.WordsFound | libgnu/printf-parse.c:137-579 | and every directive the parser describes consists of such words |
| PrintfGrammar.ReadsWhatIsWritten | libgnu/printf-parse.c:137-579 | the parser reads a directive exactly if words stand there, and what it reads is what they say: each flag by its character, width and precision by their digits or their stars, arguments by their decimal positions or in sequence |
| PrintfGrammar.TextOfDirectives | libgnu/printf-parse.c:82-623 | the directives of a format string and the plain texts between them make up the whole string: each is what its words say, stands where they stand, and takes its arguments in sequence after those before it |
| PrintfGrammar.TypeIsOfWords | libgnu/printf-parse.c:341-560 | the bits summed up for the size letters and the case analysis on them give the type that the letters name: the conversion letter alone decides the kind, the size letters alone, by their number and not their order, the width |
| PrintfGrammar.IntegerTable | libgnu/printf-parse.c:449-497 | the types of signed, unsigned and count conversions with no size, hh, h, l, z and ll |
| PrintfGrammar.OtherTable | libgnu/printf-parse.c:483-528 | the types of floating, character, string and pointer conversions with no size, l and L |
| PrintfGrammar.TypesRegistered | libgnu/printf-parse.c:563-576 | after parsing, the type registered for a directive's value is the one its words name, and for every star it is int |
| PrintfRequests.RegisteringMeans | libgnu/printf-parse.c:125-131 | registering requests one by one fails exactly if two of them give one argument different types, and leaves just the types requested |
| PrintfRequests.RequestsOfWords | libgnu/printf-parse.c:137-579 | a directive asks for an int for each star and for the type its words name for its value, at the positions written or next in sequence |
| PrintfRequests.WellFormedWords | libgnu/printf-parse.c:137-579 | a directive is well formed exactly if words stand there whose positions are from 1 up to below SIZE_MAX, and an index is left for what is taken in sequence |
| PrintfRequests.AcceptedIff | libgnu/printf-parse.c:82-623 | a format string is accepted exactly if every directive by itself is well formed and no two requests give one argument different types; order plays no part |
| PrintfParse.Directives.Add | libgnu/printf-parse.c:581-601 | the directive is appended and a further slot exists; out of memory exactly if twice the slots are too large |
| PrintfParse.Parse | libgnu/printf-parse.c:82-623 | the directives are those of the text in order with only plain text between (what each says: PrintfGrammar.ReadsWhatIsWritten), every index is below a.count and keeps the type registered for it (which one: PrintfGrammar.TypesRegistered), the maxima are exact, and which of the three results comes out is decided exactly by the first directive that is bad or too large (which are bad: PrintfRequests.AcceptedIff) |
| PrintfParse.EnoughMemory | libgnu/printf-parse.c:100-132 | no format is too large if twice its length, and twice its largest position, are numbers of array elements that have a size |
| PrintfRebuild.NeededIsSum | libgnu/vasnprintf.c:1808-1811 | the saturating sum is 13 + max_width_length + max_precision_length, or SIZE_MAX |
| PrintfRebuild.Fits | libgnu/vasnprintf.c:4766-4906 | the rebuilt directive with its suffix and terminator fits, under the condition on the configuration |
| PrintfRebuild.NotBothFits | libgnu/vasnprintf.c:4786-4903 | a configuration outside Windows that lacks the `I` flag or the `%n` suffix satisfies the condition |
| PrintfRebuild.CrowdedIsDirective | libgnu/vasnprintf.c:4766-4906 | a concrete format string whose directive has all flags and the longest size specifier |
| PrintfRebuild.BufferIsEnoughIff | libgnu/vasnprintf.c:1808-1811 | 7 + max_width_length + max_precision_length + 6 is enough for every directive exactly for those configurations |
| PrintfRebuild.RebuiltMeansTheSame | libgnu/vasnprintf.c:4766-4906 | parsing the rebuilt text gives the same flags, width, precision and conversion, a value of the promoted type, and takes the width's argument first, then the precision's, then the value's |
| PrintfRebuild.Rebuild | libgnu/vasnprintf.c:4766-4906 | the code writes that text into the buffer, in bounds |
| PrintfFormat.ExecuteValue | libgnu/vasnprintf.c:4604-4921 | the rebuilt directive and, as prefixes, the indices of the width's and the precision's argument, which PrintfFormat.PrefixesInPlace puts in their places; the two TYPE_INT checks do not abort |
| PrintfFormat.PrefixesInPlace | libgnu/vasnprintf.c:4908-4921 | where the rebuilt directive looks for its width and its precision, the arguments handed over hold the directive's width and precision argument, and the value comes right behind them |
| PrintfFormat.CallHandsOver | libgnu/vasnprintf.c:4604-4921 | the call made for a directive hands over a text that the system reads as that directive (flags, width, precision, conversion, promoted type, but for what the caller handles itself), with every argument in the place where the text asks for it |
| PrintfFormat.EveryCallHandsOver | libgnu/vasnprintf.c:1896-4921 | so does every call of FormatAll, with the type registered for the value |
| PrintfFormat.Execute | libgnu/vasnprintf.c:1896-1937 | the checks on arg_index and on the type of %n do not abort |
| PrintfFormat.FormatAll | libgnu/vasnprintf.c:1779-1937 | for every format string the one buffer serves all directives and no check aborts; the result is that of the parser, or out of memory if the buffer's length has no size |
| HashFunctions.HashString | src/hash.cc:105-119 | the string hash is a bucket number, from a 28-bit value |
| HashFunctions.FoldBack | src/hash.cc:112-115 | folding the top four bits back: the code's conditional exclusive-or is the branch-free form of the specification |
| HashFunctions.SignExtension | src/hash.cc:110-111 | a character is added with its sign: the low byte is the character, the bits above are its top bit |
| HashFunctions.MixedSmall | src/hash.cc:105-119 | while 28 bits suffice the hash is the number with the characters as digits to the base 16 |
| HashFunctions.HashOfAb | src/hash.cc:105-119 | the hash of `ab` is 0x672 |
| HashFunctions.UnsignedIs | src/hash.cc:121-149 | a key that fits is reduced as it is, a negative one as its two's complement |
| HashFunctions.HashLongLongInRangeIff | src/hash.cc:126-129 | the hash of a long long is a bucket number exactly for keys that are not negative or multiples of M; no table of the program has such keys |
| HashFunctions.HashesOk | src/hash.cc:105-149 | the hashes of strings and of unsigned and pointer keys satisfy what HashTable assumes of its function |
| HashFunctions.RunOnStrings | src/hash.tl:45 | the program's ordered table of strings keeps the order of the last insertions over any run |
| Chains.ChainDistinct | src/hash.cc:193-207 | a chain ending in NULL repeats no node |
| Chains.FindIn | src/hash.cc:196-206 | the first node with the key, or none |
| Chains.RemoveFrom | src/hash.cc:218-239 | the first node with the key is unlinked and the others keep their order; without one nothing changes; ok exactly if there is a first node to look at |
| Chains.NReverse | src/hash.cc:31-56 | nreverse links the same nodes in the opposite order, in place |
| Buckets.FindDecides | src/hash.cc:193-212 | searching one bucket decides membership in the map, with the mapped value |
| Buckets.ConsInTable | src/hash.cc:267-268 | a new key at the head of its bucket adds it to the map |
| Buckets.OverwriteInTable | src/hash.cc:298-299 | overwriting an item's data updates the map |
| Buckets.RemoveDecides | src/hash.cc:214-239 | taking the first item with a key out of its bucket removes the key |
| Buckets.MovedItem | src/hash.cc:278-283 | an item moved to the new table was not there before, and the account of moved items goes on |
| Buckets.OneStepShrinks | src/hash.cc:58-61 | the sequence of bucket numbers increases but for one step, which is a decrease |
| HashTable.Unlink | src/hash.cc:214-239 | removal changes one bucket and leaves the others alone; ok exactly if the bucket has an item |
| HashTable.Rehash | src/hash.cc:270-293 | a table with any other number of buckets, fewer or more, represents the same map |
| HashTable.HashTable.Lookup | src/hash.cc:209-212 | lookup finds exactly the keys, each with its value |
| HashTable.HashTable.Insert | src/hash.cc:259-302 | insert maps the key to the data, new or overwritten, through growth, and returns its item |
| HashTable.HashTable.MaybeGrow | src/hash.cc:269-294 | the table grows to the next prime exactly if N > 2M and a prime is left, and growth keeps the map, also where that prime is smaller |
| Buckets.NonEmptyDecides | src/hash.cc:218-220 | the bucket of x has a first item exactly if some key of the map hashes to it |
| Buckets.SharesOwn | src/hash.cc:218-220 | the bucket has a first item for every key present, and for none in a new table |
| HashTable.HashTable.Remove | src/hash.cc:214-239 | remove takes the key out of the map; its unguarded read of the bucket's first item is of an item exactly if some key of the map, x or another, hashes to that bucket |
| OrderedTable.OrderedTable.CloseGap | src/hash.cc:349-355 | the gap is closed in both arrays, order kept |
| OrderedTable.OrderedTable.Insert | src/hash.cc:327-335 | the key moves to the end of both arrays, with its data |
| OrderedTable.OrderedTable.Remove | src/hash.cc:342-363 | the key leaves both arrays and the table, or nothing changes |
| OrderedTable.RunsInLastPutOrder | src/hash.cc:327-363 | after any run the keys are those put in and not dropped since, in the order in which they were last put in, each with the data of that time |
| OrderedTable.Run | src/hash.cc:320-363 | a run of insertions and removals on the real structures ends in that state, and the hash table holds the same map |

## Left out

- Host floating point (`decode_double`, `decode_long_double`, `floorlog10` and the `long double` branches): a number is
  an exact pair (m, e), and the first guess of the exponent is a parameter. The `float` constants of the buffer sizes
  are read as exact rationals.
- Overflow of `int` and `size_t` in e + n, |n| and bignum lengths, and allocation failures, in `vasnprintf.c`.
- The compiler built-in for counting leading zeros; the portable five-step count is modelled. `|` of disjoint bits in the
  doubling of the remainder is modelled as `+`.
- The layout of digits as text for `%f`, `%e`, `%g` (padding, decimal point, trailing zeros), `%a`, wide characters and
  the unistdio variants, and the calls of the system's snprintf.
- ExponentLoop.SearchExponent: an abort is an outcome; that none happens is stated by RoundToDigits for good guesses.
  What a caller reads behind a digit string without terminator is not modelled.
- Bracket expressions, the extended patterns and the `_LIBC` parts of `fnmatch_loop.c`; case folding outside the C locale.
- The scan of `getopt.c` in the orderings REQUIRE_ORDER and RETURN_IN_ORDER, error messages, the store through a flag
  pointer, calls made after EOF, and everything behind `--`.
- Big-endian machines and words of other sizes in `memcmp.c` and `memchr.c`; addresses are unbounded integers, where the
  code's may wrap below zero for a moment.
- Memcmp.Memcmp: memory is made of whole words, because the code reads the aligned words that hold the ends of a block.
- Encodings other than UTF-8 in `mbrtowc.c`; the system's `mbtowc` is taken to be a UTF-8 decoder. MB_CUR_MAX and
  MB_LEN_MAX are at least 4. After an invalid sequence the state is left as the code leaves it.
- Sizes of `intmax_t`, `size_t` and `ptrdiff_t` other than those of LP64, the Apple and Windows branches, and `U` of the
  unistdio extensions, in `printf-parse.c`. Flag words of size specifiers do not wrap.
- Failure of malloc itself in `printf-parse.c`; sizes that overflow are modelled.
- PrintfRebuild.RebuiltMeansTheSame: does not cover Windows, whose `I64` the parser of other platforms does not know.
- Key equality other than `==` on the model's keys (string contents, pointers, attribute lists are keys of their own
  type); the count N is not claimed to be the number of items, since removal does not decrease it; freeing of memory.
- Buckets and lists are on the heap; Dynarray is a sequence-valued field.
- PRCS commands, attributes, files and processes.
