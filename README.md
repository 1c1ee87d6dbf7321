# Jytter demo, modelled in Dafny

Jytter is a true random number generator. It gathers entropy from the timing
jitter of the CPU's cycle counter. Its demo program, `demo.c`, does three things:

- It draws 32-bit words from `jytter_true_random_get` and prints them as
  upper-case hexadecimal (`true_random_printf`).
- It turns drawn words into alphanumeric password characters
  (`true_random_password_printf`).
- Its `main` makes six such calls between two readings of the cycle counter
  (`timestamp_get`). It then prints the elapsed tick count.

This project models that program and proves properties of it:

- `bounded_ints.dfy` (module `BoundedInts`): the `uint8_t`, `uint32_t` and
  `uint64_t` types as subsets of the integers. It also has the truncating
  casts, written out as reductions modulo 2^8 and 2^32.
- `hex.dfy` (module `Hex`): `printf("%08X", w)` as a function `Hex8`.
  Its behaviour follows section 7.21.6.1 of ISO/IEC 9899:2011: upper-case
  letters, zero padding to width 8. The module also holds:
  - a parser for such text;
  - the concatenated rendering of a run of words;
  - round trips in both directions.
- `password.dfy` (module `Password`): the password character step, with its
  parts named as below.
  - The residue is `(uint8_t)(w % 62)`.
  - The if/else-if chain (`MapResidue`) keeps each arm's `(uint8_t)` cast and
    the silent fall-through when no guard holds.
  - An independent reference alphabet, `'0'..'9' ++ 'A'..'Z' ++ 'a'..'z'`,
    is what the chain is proved against.
- `ticks.dfy` (module `Ticks`): `timestamp_end -= timestamp_start` on
  `uint64_t` as subtraction modulo 2^64. It also splits the result into the
  two `uint32_t` halves that the last `printf` prints.
- `demo.dfy` (module `Demo`): the three C functions as methods.
  - Each C `while (count--)` loop is a `while` loop. Its invariant ties the
    output so far to a specification function.
  - The two foreign routines are methods over scripted inputs.
  - `main`'s output is the function `Transcript` plus `TickReport`.
  - `main`'s six word counts are written once, as the table `Requests`.
    Both `Transcript` and the lemmas about the draws read that table.

How the world outside `demo.c` is represented:

- **Foreign routines as scripted streams.** The entropy routine
  (`jytter_true_random_get`) and the cycle counter (`timestamp_get`) are not
  part of this model. Instead, an `Env` value scripts them:
  - draw number `k` yields `entropy(k)`;
  - counter reading number `k` yields `clock(k)`.
- **The world as a value.** A `World` value records how many draws and
  readings have been taken and the text written to standard output so far.
  Every method takes the world and returns the new one.
- **Output.** `printf` is appending its formatted text to `stdout`.
- **Scratch area.** The register-save area `jytter_scratch_space_t` is a
  class with its five 64-bit fields. Each formatter call allocates one, and
  every draw may modify it. Nothing reads it back, as in the source.

## Model

| member | source | states |
|---|---|---|
| BoundedInts.Trunc8 | demo.c:73-79 | the `(uint8_t)` cast gives the value below 256 congruent to its argument modulo 2^8, which is the argument itself when that is below 256 |
| BoundedInts.Trunc32 | demo.c:109 | the `(uint32_t)` cast gives the value below 2^32 congruent to its argument modulo 2^32, which is the argument itself when that is below 2^32 |
| Hex.DigitChar | demo.c:57 | the digit printed for a value below 16 is a hex digit whose value is that value |
| Hex.DigitCharOfValue | demo.c:57 | every upper-case hex digit is the digit printed for its own value |
| Hex.HexDigits | demo.c:57 | a value below 16^n is rendered as exactly n hex digits |
| Hex.ParseHex | demo.c:57 | n hex digits read as a value below 16^n |
| Hex.HexDigitsRoundTrip | demo.c:57 | reading the n-digit rendering of x gives x |
| Hex.ParseHexRoundTrip | demo.c:57 | rendering the value of an n-digit string with n digits gives the string back: the rendering is injective |
| Hex.ParseHexAppend | demo.c:109 | the value of a concatenation is the left value shifted by four bits per right digit, plus the right value |
| Hex.Pow16Eight | demo.c:57 | eight hex digits cover exactly the 2^32 values of a `uint32_t` |
| Hex.Hex8 | demo.c:57 | `%08X` of a word is always eight hex digits whose value is the word |
| Hex.ParseWord | demo.c:57 | every eight-digit hex string is the `%08X` rendering of exactly the word it reads as |
| Hex.HexWords | demo.c:55-58 | a loop printing n words prints 8n characters |
| Hex.HexWordsIsHex | demo.c:55-58 | every character of that output is an upper-case hex digit; no words gives empty output |
| Hex.HexWordsAppend | demo.c:55-58 | one more loop turn appends the eight digits of the new word |
| Hex.HexWordsChunk | demo.c:55-58 | the k-th group of eight characters is the rendering of the k-th word and reads back as it: chunks appear in draw order |
| Hex.ParseWords | demo.c:55-58 | splitting a text of 8n hex digits gives n words |
| Hex.WordsRoundTrip | demo.c:55-58 | splitting the output of a run of words gives the words back |
| Hex.TextRoundTrip | demo.c:55-58 | every text of whole eight-digit groups is the output of exactly the words it splits into |
| Password.CharRange | demo.c:74-79 | a reference range holds every character from its first to its last and no other, in strictly increasing order |
| Password.Residue | demo.c:73 | `(uint8_t)(true_random % 62)` is below 62 and equals the word modulo 62: the cast never truncates |
| Password.MapResidue | demo.c:74-80 | for every residue below 62 the chain yields a digit or an ASCII letter |
| Password.PasswordChar | demo.c:72-81 | the character printed for any word is alphanumeric |
| Password.MapResidueIsAlphabet | demo.c:74-80 | below 62 the chain yields exactly the residue's entry of the reference alphabet |
| Password.PasswordCharIsAlphabet | demo.c:72-81 | the character printed for a word is the reference alphabet's entry at the word modulo 62 |
| Password.ResidueOf | demo.c:74-80 | an alphanumeric character is the alphabet entry at its returned position |
| Password.AlphabetIsAlnum | demo.c:74-80 | each of the 62 entries is alphanumeric and its position is recovered from it |
| Password.AlphabetInjective | demo.c:74-80 | no two residues map to the same character |
| Password.PasswordCharPiecewise | demo.c:74-80 | the three arms: residues 0-9 give '0'+v, 10-35 give 'A'+(v-10), 36-61 give 'a'+(v-36) |
| Password.NoResidueUnmapped | demo.c:78-80 | when the first two guards fail the third holds, so the fall-through never leaves a raw residue; every code is in 48..122 |
| Password.BoundaryValues | demo.c:73-80 | words 0, 9, 10, 35, 36, 61 and 62 give '0', '9', 'A', 'Z', 'a', 'z' and '0' |
| Password.PasswordText | demo.c:71-82 | a loop printing n words prints n characters |
| Password.PasswordTextAppend | demo.c:71-82 | one more loop turn appends the character of the new word |
| Password.PasswordTextAlnum | demo.c:71-82 | every character of a password is alphanumeric |
| Password.Residues | demo.c:73-81 | one position per drawn word, each below 62, at which the reference alphabet holds the character printed for that word |
| Password.ResiduesOfText | demo.c:74-80 | reading a password back gives one alphabet position per character |
| Password.PasswordResiduesRoundTrip | demo.c:71-82 | a password determines exactly the residues modulo 62 of its words, in order |
| Ticks.Sub64 | demo.c:108 | the difference is the one 64-bit value that, added to the start reading with wrap-around, gives the end reading |
| Ticks.Sub64Cases | demo.c:108 | the difference is end-start without wrap, and end-start+2^64 when the counter wrapped |
| Ticks.High32 | demo.c:109 | `(uint32_t)(x >> 32)` is the quotient of x by 2^32 |
| Ticks.Low32 | demo.c:109 | `(uint32_t)x` agrees with x modulo 2^32 |
| Ticks.SplitHalves | demo.c:109 | hi * 2^32 + lo is the elapsed value again |
| Ticks.TickDigits | demo.c:109 | `%08X%08X` of the halves is sixteen hex digits |
| Ticks.TickDigitsRoundTrip | demo.c:109 | read as one base-16 number, those sixteen digits are the elapsed value |
| Demo.Draws | demo.c:56 | a run of n draws has n words |
| Demo.DrawsAt | demo.c:56 | word i of a run is draw number from+i of the stream |
| Demo.DrawsSplit | demo.c:95-106 | a call drawing m words after one drawing n continues the stream where the first stopped |
| Demo.TrueRandomGet | demo.c:46 | returns the next word of the stream and advances the draw count by one, changing nothing else |
| Demo.TimestampGet | demo.c:47 | returns the next counter reading and advances the reading count by one, changing nothing else |
| Demo.TrueRandomPrintf | demo.c:50-60 | takes exactly `count` draws and appends their `%08X` renderings, in draw order, to standard output |
| Demo.TrueRandomPasswordPrintf | demo.c:62-84 | takes exactly `charCount` draws and appends one password character per draw, in draw order |
| Demo.Transcript | demo.c:93-106 | `main`'s text before the tick line adds 306 characters: captions, 2+4+8 words as hex, 11+22+43 password characters |
| Demo.TranscriptSections | demo.c:93-106 | the 64-bit line holds the first two draws, which parse back from it, and the text ends with the 43-character password |
| Demo.CallDraws | demo.c:95-106 | call k prints exactly as many words as it requests, and word i of them is the stream's draw right after all words of the earlier calls |
| Demo.CallDrawsTable | demo.c:94-106 | with the counts 2, 4, 8, 11, 22, 43 the six calls start 0, 2, 6, 14, 25 and 47 draws after the first |
| Demo.CallsDraws | demo.c:95-106 | the first k calls print as many words as they request altogether |
| Demo.CallsDrawsContiguous | demo.c:95-106 | for any list of counts, the words of the first k calls, one after the other, are exactly the next draws of the stream: none repeated or skipped |
| Demo.TranscriptDraws | demo.c:95-106 | the six calls whose words `Transcript` prints consume together exactly the next 90 draws |
| Demo.TickReport | demo.c:109 | the closing line is 49 characters long |
| Demo.TickReportRoundTrip | demo.c:109 | its sixteen digits are hex and read back as the elapsed tick count |
| Demo.Run | demo.c:87-111 | `main` reads the counter twice and draws exactly 90 words. Its output is the transcript of those draws followed by the tick line of the wrapped difference between the second and first readings |

## Left out

- The bodies of `jytter_true_random_get` and `timestamp_get` are not part of
  this model. They are implemented in assembly. Here they are scripted streams
  that never run out.
- The scratch area's contents after a draw are not modelled. The model's draw
  leaves the fields unchanged, but its `modifies` clause allows any change,
  and nothing reads them back.
- `printf` and the C library are not modelled. Each call is the text it
  formats, appended to the output. Buffering and write errors are left out,
  and so is the return value, which the program ignores.
- The statistical quality of the output is not modelled: entropy, and the
  bias of `w % 62`, which is slightly uneven because 2^32 is not a multiple
  of 62.
- The preprocessor checks on `_32_` and `_64_` are left out. So are the
  `fastcall` declarations; they select a build, not a behaviour.
- `main`'s unused `argc`, `argv` and `i` are left out. So is its `return 0`.
- Demo.TrueRandomPasswordPrintf: treats `printf("%s", (char *)&character)` as
  printing exactly the one character. In the source, `character` is a lone
  `uint8_t` with no terminating zero byte, so `%s` reads past it. What it then
  prints depends on the stack layout, which this model does not have.
- Demo.TrueRandomPrintf: the counter `count--` also wraps to 2^32-1 when the
  loop test fails at zero. That final value is never read, so the model stops
  the counter at zero.
- Demo.TrueRandomPasswordPrintf: the same holds for its counter.
- Both formatters keep their output in a `World` value that each method
  returns. There is no global stdout or register state updated in place, so
  aliasing between calls is not modelled.
