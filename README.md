# Go examples, modelled in Dafny

This project models the core of a collection of small Go programs and
proves properties of the model. There are two groups.

The sequential programs:
- a number speller (`Spell`);
- a placeholder formatter (`Sprintf`);
- the request checks of a digital-clock image server;
- a one-time-pad reader and writer;
- the index, totals and rankings of an Olympic medals server;
- a URL shortener;
- a duplicate-line counter.

The hand-built concurrency primitives:
- a key lock;
- a wait group;
- a condition variable;
- a readers-writer lock;
- a publish-subscribe broker;
- a duplicate-call suppressor.

The model does not execute anything. Each module is verified by Dafny
against the contracts shown in the table below.

Conventions used throughout:

- **Modules and helpers.** Every Go package is one module. `GoBase` holds what several of them share:
  - `Option`, and `Outcome`, whose `Panic` marks a Go run-time panic;
  - the int64 bounds;
  - a specification of `strconv.Atoi` (an optional sign and decimal digits, in int64 range) and of `strconv.Itoa`.

  `GoStrings` holds `strings.Split`, `Join` and `TrimSpace`, Go's `<` on strings, and `sort.Strings`.
- **Loops.** A Go loop that changes variables is a Dafny method with loop invariants. It is proved against a specification function: `ensures r == Spec(inputs)`. The lemmas then prove what the program promises about that function.
- **Classes.** Objects whose fields are updated in place are classes with `modifies` clauses.
- **Concurrency primitives.** Every critical section (between taking and giving back a mutex or a token channel) is one atomic method. An operation that would block has its enabling condition as a `requires`.
- **Outside the model.** Goroutines, the scheduler, callbacks and the data an operation reads from outside are either parameters or the environment that chooses which method runs next:
  - HTTP requests, files and wrapped readers and writers;
  - the clock;
  - `rand.Intn`;
  - the cancelling of a context.

Notes on where the model and the programs meet:

- **speller.**
  - The word tables are a parameter; `English` holds the program's four tables.
  - `Spell(MinInt64)` returns `"minus "`, because Go's `-n` overflows back to a negative value and the loop never runs. The model does the same.
- **varfmt.** Format bytes of 0x80 and above are re-encoded as two bytes each by `string(format[i])`; see "## Findings".
  - `Sprintf` is parameterised by `LiteralCopy`: `AsWritten` is the code, `Verbatim` the evidently intended byte-for-byte copy.
  - The placeholder index goes through the same conversion. `IndexIgnoresEncoding` shows this never changes which argument is selected.
  - The index's Atoi error is ignored. This gives 0 on a syntax error. But `strconv.ParseUint` reports a range error as soon as the digits pass 2^64 - 1, so `{99999999999999999999x}` selects MaxInt64 and panics (`TwentyNinesOverflow`, `OverflowingPlaceholderPanics`).
- **digitalclock.**
  - `validTimeFormat` uses byte lengths and byte indexes. The model reads the time as runes. The two agree on every string the validator accepts, because an accepted string holds only ASCII.
- **olympics.**
  - Go's random map order is an explicit `order` parameter. `OrderIrrelevant` shows the response does not depend on it.
  - `medals_by_year` is keyed by the year number; `ItoaInjective` shows that the string keys Go builds with `strconv.Itoa` never merge two years.
- **waitgroup.** Go's `int` is taken to be 64 bits. `wg.counter + delta` wraps around (`GoBase.Wrap64`), so an `Add` that would take the counter past MaxInt64 panics with "negative WaitGroup counter".
- **otp_cipher.** Each wrapper carries ghost bookkeeping: the pad it was made over, the chunks it has passed on, and, for the reader, the plaintext it has returned. This relates consecutive `Read` and `Write` calls to `Through`, the whole-stream XOR.
- **dupcall.**
  - The check that drops a current group whose `done` is already closed (dupcall/main.go:33-39) can never fire. The worker clears `current` in the same critical section that closes `done`, and `Call.Valid` records this.
  - A caller that arrives after every waiter has cancelled, but before the worker has returned, joins that cancelled group.

## Model

| member | source | states |
|---|---|---|
| `GoBase.Atoi` | digitalclock/main.go:106-118 | `strconv.Atoi` succeeds only on a signed decimal and only with an int64 value |
| `GoBase.AtoiIgnoringError` | varfmt/main.go:20 | the int left in `num` when Atoi's error is ignored: always an int64 |
| `GoBase.LeadingValue` | varfmt/main.go:20 | the digit loop of `strconv.ParseUint` in base 10: n*10 + d per leading digit, up to the first non-digit |
| `GoBase.RunOverflows` | varfmt/main.go:20 | the digits after the sign pass 2^64 - 1 before the first non-digit, which is a range error, not a syntax error |
| `GoBase.AtoiIgnoringErrorCases` | varfmt/main.go:20 | Atoi's value when it succeeds; the int64 bound on the side of the sign when the leading digits overflow, even if a non-digit follows, or when a decimal is out of int64 range; 0 on any other syntax error |
| `GoBase.LeadingValueDigits` | varfmt/main.go:20 | on a text of digits the loop computes their decimal value |
| `GoBase.LeadingValueCut` | varfmt/main.go:20 | the loop never looks past the first non-digit |
| `GoBase.AtoiItoa` | olympics/main.go:218 | parsing what `Itoa` prints gives every int64 back |
| `GoBase.ItoaInjective` | olympics/main.go:181-189 | two int64 values with the same decimal text are equal, so year keys never merge |
| `GoBase.Wrap64` | waitgroup/main.go:23 | Go's wrapping int64 arithmetic: the exact value when it is in range, and a sum past either end comes back from the other end by 2^64 |
| `GoStrings.Split` | wordcount/main.go:17 | `strings.Split` with a one-character separator never returns an empty list |
| `GoStrings.SplitLength` | wordcount/main.go:17 | Split yields one more piece than there are separators |
| `GoStrings.SplitPieces` | wordcount/main.go:17 | no piece holds the separator |
| `GoStrings.Join` | speller/main.go:29 | `strings.Join`: the parts with the separator between each two |
| `GoStrings.JoinSplit` | wordcount/main.go:17 | joining the pieces with the separator gives the text back |
| `GoStrings.TrimSpace` | speller/main.go:29 | `strings.TrimSpace`: the leading and then the trailing white space removed |
| `GoStrings.TrimSpaceTrims` | speller/main.go:29 | what TrimSpace leaves neither starts nor ends with white space and is no longer than the text |
| `GoStrings.TrimSpaceUnchanged` | speller/main.go:29 | text without white space at either end is left alone |
| `GoStrings.Less` | olympics/main.go:162 | Go's `<` on strings: lexicographic by code point, a proper prefix first |
| `GoStrings.LessTotal` | olympics/main.go:162 | Go's `<` on strings orders any two different strings |
| `GoStrings.LessTransitive` | olympics/main.go:162 | Go's `<` on strings is transitive |
| `GoStrings.SortStrings` | keylock/main.go:22-24 | `sort.Strings` returns a sorted permutation of its input |
| `Speller.Negate64` | speller/main.go:18 | Go's `-n` on int64: the negation, except that MinInt64 is its own negation |
| `Speller.TensWords` | speller/main.go:39-53 | the words for 0..99: a tens word, hyphenated with a ones word unless a multiple of 10, for 20..99, a teen for 10..19, a ones word for 1..9, none for 0 |
| `Speller.HundredsWords` | speller/main.go:33-55 | the words for 0..999: "X hundred" when there are hundreds, then the words of the rest below 100 |
| `Speller.SpellHundreds` | speller/main.go:33-55 | `spellHundreds` joins by spaces "X hundred" (for 100 and up), the tens word with "-ones" (21..99 outside the multiples of 10), a teen (10..19), or a ones word (1..9) |
| `Speller.GroupsFrom` | speller/main.go:22-27 | the non-zero three-digit groups, each with a scale index below 4; None when a group would need a missing scale word |
| `Speller.SpellParts` | speller/main.go:21-27 | the loop builds exactly one part per non-zero group, most significant first, or reaches the out-of-range panic |
| `Speller.SpellSpec` | speller/main.go:10-31 | what `Spell` returns: "zero" for 0, the panic when a group needs a missing scale word, otherwise the sign and the trimmed, space-joined parts |
| `Speller.Spell` | speller/main.go:10-31 | `Spell` returns the specification's spelling, or panics where the specification does |
| `Speller.SpellSpecParts` | speller/main.go:29 | the result is the sign followed by the trimmed parts joined by spaces |
| `Speller.SpellZero` | speller/main.go:11-13 | 0 is spelled "zero" |
| `Speller.SpellNegative` | speller/main.go:16-19 | a negative number other than MinInt64 is "minus " and the spelling of its magnitude, and panics when the magnitude does |
| `Speller.SpellMinInt64` | speller/main.go:16-27 | MinInt64 is spelled "minus " alone, because the negation overflows |
| `Speller.ScaleLimitZero` | speller/main.go:8 | the scale words run out at 10^12 |
| `Speller.GroupsFromPanics` | speller/main.go:22-27 | the groups overflow the scale table exactly when the magnitude reaches the limit |
| `Speller.SpellDomain` | speller/main.go:22-27 | `Spell` panics exactly when abs(n) is at least 10^12, except for MinInt64 |
| `Speller.GroupsMostSignificantFirst` | speller/main.go:22-27 | below 10^12 the groups are the four three-digit blocks, most significant first, with all-zero blocks skipped |
| `Speller.MillionsGroups` | speller/main.go:22-27 | m million has one group, at the "million" scale |
| `Speller.SpellMillions` | speller/main.go:22-27 | m million is m's words, a space and "million": zero groups add nothing |
| `Speller.EnglishTables` | speller/main.go:5-8 | the program's tables have the sizes `Spell` indexes and unpadded words |
| `Speller.TensWordsUnpadded` | speller/main.go:39-53 | a number in 1..99 is one unpadded word |
| `Speller.HundredsWordsUnpadded` | speller/main.go:33-55 | `spellHundreds` joins one or two unpadded words for 1..999 |
| `Speller.PartShape` | speller/main.go:24 | each part starts with a word and, above the units, ends with its scale word |
| `Speller.SpellHasNoOuterSpace` | speller/main.go:29 | the result never starts with white space, and ends with it only for MinInt64 |
| `Speller.SpelledNoOuterSpace` | speller/main.go:29 | a spelled number other than 0 and MinInt64 has no white space at either end |
| `VarFmt.CopyByte` | varfmt/main.go:27 | `string(b)` for one format byte: the byte itself below 0x80 and the two-byte UTF-8 of rune b above, as written; the byte itself in the intended copy |
| `VarFmt.CloseFrom` | varfmt/main.go:16 | the position the inner loop stops at: the first `}` at or after the start, or the end |
| `VarFmt.ReadPlaceholder` | varfmt/main.go:14-18 | the inner loop stops at the first `}` and collects the converted bytes before it |
| `VarFmt.Step` | varfmt/main.go:13-28 | one pass of the loop writes a literal byte, or a whole placeholder's argument, or panics as the specification does |
| `VarFmt.ScanFrom` | varfmt/main.go:12-29 | what the loop writes from position i on: a literal byte copied, a placeholder replaced by its argument (the counter for `{}`, the number for `{n}`), Panic on a missing `}` or an index out of range |
| `VarFmt.SprintfSpec` | varfmt/main.go:9-31 | what `Sprintf` returns: the scan from the start with no placeholder seen |
| `VarFmt.Sprintf` | varfmt/main.go:9-31 | `Sprintf` returns what the specification writes, or panics where it does |
| `VarFmt.ScanLiteral` | varfmt/main.go:26-28 | a stretch without `{` is copied in front of what follows |
| `VarFmt.CopiesVerbatim` | varfmt/main.go:27 | a byte-for-byte copy returns the text itself |
| `VarFmt.CopiesAscii` | varfmt/main.go:27 | ASCII text is copied unchanged in both modes |
| `VarFmt.CopiesLength` | varfmt/main.go:27 | re-encoding only ever lengthens, and strictly when a byte is 0x80 or above |
| `VarFmt.IndexIgnoresEncoding` | varfmt/main.go:17-20 | re-encoding a placeholder's text never changes the argument it selects |
| `VarFmt.NonNumericIndex` | varfmt/main.go:20 | a non-numeric index whose leading digits do not overflow selects argument 0 |
| `VarFmt.OverflowingIndex` | varfmt/main.go:20-21 | an index whose leading digits overflow, numeric or not, selects MinInt64 after '-' and MaxInt64 otherwise, so it is out of range for any slice |
| `VarFmt.OverflowingPlaceholderPanics` | varfmt/main.go:19-21 | a placeholder whose leading digits overflow makes `Sprintf` panic at `args[num]` |
| `VarFmt.LeadingNinesOverflow` | varfmt/main.go:20 | a placeholder text starting with twenty nines overflows and selects MaxInt64, whatever follows |
| `VarFmt.TwentyNinesOverflow` | varfmt/main.go:20 | the index `99999999999999999999x` selects MaxInt64, not 0 |
| `VarFmt.AtoiCut` | varfmt/main.go:17-20 | texts that agree up to a rune of 0x80 or above give Atoi's ignored-error result alike |
| `VarFmt.CopiesCut` | varfmt/main.go:17 | re-encoding keeps the bytes before the first one of 0x80 or above and puts such a byte in its place |
| `VarFmt.ScanHole` | varfmt/main.go:13-25 | a placeholder writes the argument it selects and counts on, or panics when the index is out of range |
| `VarFmt.ScanTemplate` | varfmt/main.go:12-29 | a format from position i on is filled in piece by piece, or panics when some index is out of range |
| `VarFmt.PlaceholdersInOrder` | varfmt/main.go:19-25 | the k-th placeholder, counting indexed ones too, writes `args[k]` for `{}` and `args[n]` for `{n}`; Panic exactly when some index is out of range |
| `VarFmt.UnclosedPanics` | varfmt/main.go:16 | a `{` with no `}` after it makes `Sprintf` panic |
| `VarFmt.LiteralsCopied` | varfmt/main.go:26-28 | a format without `{` is its literal text, copied |
| `VarFmt.VerbatimCopiesLiterals` | varfmt/main.go:26-28 | with a byte-for-byte copy, a format without `{` comes back unchanged |
| `VarFmt.AsWrittenReencodes` | varfmt/main.go:27 | as written, a format without `{` comes back unchanged exactly when it is ASCII |
| `VarFmt.AsWrittenCounterexample` | varfmt/main.go:27 | as written, the UTF-8 "é" comes back as the four bytes of "Ã©" |
| `DigitalClock.BitmapFor` | digitalclock/main.go:123-150 | `bitmapFor`: the glyph of a digit or of ':', and "" for any other rune |
| `DigitalClock.BitmapEmptyIff` | digitalclock/main.go:123-150 | `bitmapFor` is "" exactly for runes other than '0'..'9' and ':' |
| `DigitalClock.ValidTimeFormat` | digitalclock/main.go:98-121 | `validTimeFormat`: eight runes, ':' at positions 2 and 5, and three fields Atoi accepts, hours in 0..23 and minutes and seconds in 0..59 |
| `DigitalClock.TwoDigitsParse` | digitalclock/main.go:106-118 | a two-digit field with a leading zero parses to its value |
| `DigitalClock.ClockTextValid` | digitalclock/main.go:46 | the time the server formats itself always passes the validator |
| `DigitalClock.FieldRunes` | digitalclock/main.go:106-118 | a field Atoi accepts ends with a digit and starts with a digit or a sign |
| `DigitalClock.FieldRoundTrip` | digitalclock/main.go:106-118 | a two-digit field is the two-digit text of its value |
| `DigitalClock.ValidIsClockText` | digitalclock/main.go:98-121 | a valid time without signs is the clock text of its hours (0..23), minutes and seconds (0..59) |
| `DigitalClock.ParseK` | digitalclock/main.go:34-42 | the `k` parameter: 1 when absent, the number when Atoi accepts it and it lies in 1..30, otherwise a bad request |
| `DigitalClock.ParseKRange` | digitalclock/main.go:34-42 | `k` defaults to 1 and is accepted only in 1..30, as the number given |
| `DigitalClock.ParseKItoa` | digitalclock/main.go:34-42 | every scale in 1..30 is accepted as itself |
| `DigitalClock.SymbolsFor` | digitalclock/main.go:54-62 | the glyphs of the runes of the time, in order, or none when some rune has no glyph |
| `DigitalClock.CollectSymbols` | digitalclock/main.go:54-62 | the loop looks up the glyph of every rune, in order, and fails at the first rune without one |
| `DigitalClock.ImageScales` | digitalclock/main.go:66-67 | width and height grow linearly with k |
| `DigitalClock.Handler` | digitalclock/main.go:31-67 | the answer of `clockHandler` before painting: "invalid k", "invalid time" for a time that fails the validator or has a rune without a glyph, otherwise the image size and the glyphs of the given time or of the clock |
| `DigitalClock.ClockHandler` | digitalclock/main.go:31-67 | the handler answers "invalid k", "invalid time", or the image size and glyphs of the specification |
| `DigitalClock.ValidRunes` | digitalclock/main.go:98-121 | every rune of a valid time is a digit or ':', except that a field may start with a sign |
| `DigitalClock.SymbolsSome` | digitalclock/main.go:54-62 | a time of digits and ':' has a glyph for every rune |
| `DigitalClock.EightGlyphs` | digitalclock/main.go:54-64 | the time drawn always has eight runes, so when every rune has a glyph there are eight and `symbols[0]` exists |
| `DigitalClock.HandlerAccepts` | digitalclock/main.go:31-67 | an image is drawn exactly when k is accepted and the time is absent, or is valid and has no sign |
| `DigitalClock.SignedHourValid` | digitalclock/main.go:106 | "+1:00:00" passes the validator |
| `OtpCipher.Xor` | otp_cipher/main.go:21-23 | the XOR of two byte strings of the same length keeps the length |
| `OtpCipher.XorInvolution` | otp_cipher/main.go:22 | XOR with the same pad twice gives the text back |
| `OtpCipher.XorAppend` | otp_cipher/main.go:40-42 | XOR works piecewise on concatenations |
| `OtpCipher.ReadFullError` | otp_cipher/main.go:16 | `io.ReadFull` fails exactly when the keystream has fewer bytes than asked for |
| `OtpCipher.XorInPlace` | otp_cipher/main.go:21-23 | the loop XORs the first n bytes of p with the pad and leaves the rest of p alone |
| `OtpCipher.Encrypt` | otp_cipher/main.go:34-42 | the buffer Write fills from the keystream and XORs with p in place: a fresh array holding p XOR pad, with p left alone |
| `OtpCipher.Deliver` | otp_cipher/main.go:13 | the wrapped reader's step: the delivered bytes land at the front of p, and the rest of p is unchanged |
| `OtpCipher.OtpReader.Read` | otp_cipher/main.go:12-26 | no delivered bytes: nothing is consumed and the wrapped result is returned; a short keystream: (0, its error); otherwise the delivered bytes are XORed with the next n keystream bytes and the wrapped count and error returned, so the plaintext returned so far stays Through of the deliveries |
| `OtpCipher.OtpWriter.Write` | otp_cipher/main.go:33-50 | p XOR keystream goes to the wrapped writer and p is not changed; the result is len(p) on success, 0 on keystream failure, the wrapped count and error on a write failure; after writes that all went through, the wrapped writer holds Through of the chunks |
| `OtpCipher.Flatten` | otp_cipher/main.go:12-50 | the bytes of a sequence of calls, chunk after chunk |
| `OtpCipher.Through` | otp_cipher/main.go:12-50 | what a sequence of calls puts through the pad: each chunk XORed with the keystream bytes that follow those of the chunks before it |
| `OtpCipher.ThroughWhole` | otp_cipher/main.go:34-42 | chunk boundaries do not matter: the stream is XORed with the keystream as a whole |
| `OtpCipher.ThroughStep` | otp_cipher/main.go:15-23 | one more chunk appends its XOR with the next keystream bytes and advances the keystream past them |
| `OtpCipher.StreamStep` | otp_cipher/main.go:33-47 | a call whose chunk fits the keystream left keeps the stream's output equal to Through of its chunks, and keeps the keystream the part of the pad after them |
| `OtpCipher.OtpReader.constructor` | otp_cipher/main.go:52-54 | the reader starts at the front of its pad, having returned nothing |
| `OtpCipher.OtpWriter.constructor` | otp_cipher/main.go:56-58 | the writer starts at the front of its pad, having written nothing |
| `OtpCipher.RoundTrip` | otp_cipher/main.go:12-50 | decrypting Through of the written chunks with the same keystream, in any other chunking, gives the written bytes |
| `OtpCipher.StreamRoundTrip` | otp_cipher/main.go:12-50 | a reader over the writer's pad that has been delivered exactly what the wrapped writer accepted, in any chunking, has returned the bytes that were written |
| `Olympics.Select` | olympics/main.go:56-64 | the entries whose key is k, in input order |
| `Olympics.Group` | olympics/main.go:62-64 | what appending every entry to the bucket of its key leaves |
| `Olympics.Countries` | olympics/main.go:59-61 | the country of each athlete's first entry: a later entry never overwrites it |
| `Olympics.BuildIndex` | olympics/main.go:54-65 | the index loop builds the first-entry countries and the buckets per athlete, sport and year |
| `Olympics.GroupSelects` | olympics/main.go:56-64 | a key has a bucket exactly when some entry has it, holding that key's entries in input order |
| `Olympics.SelectExactly` | olympics/main.go:56-64 | each entry lands in exactly its own key's bucket, as often as it appears |
| `Olympics.SelectAppend` | olympics/main.go:56-64 | buckets keep input order across concatenation |
| `Olympics.CountriesFirst` | olympics/main.go:59-61 | an athlete's country is the one from their first entry |
| `Olympics.TotalsBy` | olympics/main.go:135-142 | what adding every entry's medals to the total of its key leaves |
| `Olympics.TotalsSelect` | olympics/main.go:135-142 | the totals have the keys the buckets have, and each total is the sum of its bucket |
| `Olympics.CountMedals` | olympics/main.go:135-142 | the totals loop leaves the medal sum per key |
| `Olympics.AthleteMedals` | olympics/main.go:79-92 | one pass gives the athlete's overall total and the totals per year |
| `Olympics.AthleteYears` | olympics/main.go:172-189 | the sport handler's inner loop gives one athlete's totals per year, skipping other athletes' entries |
| `Olympics.BreakdownSums` | olympics/main.go:79-103 | the totals per key add up to the overall total |
| `Olympics.Before` | olympics/main.go:151-163 | the less function given to `sort.Slice`: more gold first, then more silver, then more bronze, then the name in Go's string order |
| `Olympics.BeforeIrreflexive` | olympics/main.go:151-163 | no row comes before itself |
| `Olympics.BeforeTransitive` | olympics/main.go:151-163 | the comparator is transitive |
| `Olympics.BeforeTotal` | olympics/main.go:151-163 | of two rows with different names, one comes first |
| `Olympics.BeforeAsymmetric` | olympics/main.go:151-163 | two rows never come before each other |
| `Olympics.Insert` | olympics/main.go:151-163 | inserting into a ranked list keeps it ranked and adds exactly the row |
| `Olympics.Rank` | olympics/main.go:151-163 | `sort.Slice` under the comparator gives a ranked permutation of the list |
| `Olympics.RankMembers` | olympics/main.go:151-163 | ranking keeps exactly the rows it is given |
| `Olympics.RankedUnique` | olympics/main.go:151-163 | two ranked lists of the same rows are equal, so any correct sort gives one result |
| `Olympics.RecordsOf` | olympics/main.go:147-150 | the list has one row per key visited |
| `Olympics.Records` | olympics/main.go:147-150 | the list loop builds the rows of the totals in range order |
| `Olympics.RecordsOfMap` | olympics/main.go:247-252 | ranging over the map lists each key once with its totals, and nothing else |
| `Olympics.Clamp` | olympics/main.go:164-169 | the limit brought into 0..len(list): 0 when negative, the length when larger |
| `Olympics.Leaders` | olympics/main.go:151-171 | the rows a ranking handler returns: the ranked list cut to the clamped limit |
| `Olympics.LeadersTop` | olympics/main.go:164-171 | the leaders are ranked rows of the list, exactly `limit` of them when the list has that many, none for a negative limit, all rows when the limit reaches the length, and each comes before every row left out |
| `Olympics.OrderIrrelevant` | olympics/main.go:147-171 | whatever order the map gives, the handlers return the same rows |
| `Olympics.LimitOf` | olympics/main.go:126-134 | `limit` is 3 when absent, else Atoi's value or its error |
| `Olympics.AthleteInfoHandler` | olympics/main.go:68-113 | "name is required", "athlete NAME not found", or the athlete's country, total and totals per year |
| `Olympics.SportRows` | olympics/main.go:170-207 | one row per leader, with the leader's country, totals and per-year totals in the sport |
| `Olympics.TopAthletesHandler` | olympics/main.go:115-210 | "sport is required", "sport 'S' not found", "invalid limit", or the ranked athletes of the sport cut to the limit |
| `Olympics.TopCountriesHandler` | olympics/main.go:212-284 | "year is required", "invalid year", "year Y not found", "invalid limit", or the ranked countries of the year cut to the limit |
| `UrlShortener.KeyOf` | urlshortener/main.go:109-115 | a key has one letter of `letters` per draw |
| `UrlShortener.GenerateKey` | urlshortener/main.go:109-115 | `generateKey(n)` fills n bytes, the i-th being the letter of the i-th draw |
| `UrlShortener.InverseExtend` | urlshortener/main.go:81-82 | a new URL under an unused key, added to both maps, keeps them inverses |
| `UrlShortener.OneSidedBreaks` | urlshortener/main.go:81-82 | updating only one map breaks the invariant |
| `UrlShortener.RoundTrip` | urlshortener/main.go:73-98 | a URL's key leads back to the URL |
| `UrlShortener.KeysUnique` | urlshortener/main.go:75-82 | no two URLs share a key |
| `UrlShortener.FirstUnused` | urlshortener/main.go:75-80 | the first draw that gives an unused key: every earlier one was used |
| `UrlShortener.NewKey` | urlshortener/main.go:75-80 | the retry loop stops at the first attempt whose key is unused |
| `UrlShortener.FirstUnusedIs` | urlshortener/main.go:75-80 | the attempt the loop stops at is the first unused one |
| `UrlShortener.Store.constructor` | urlshortener/main.go:49-54 | both maps start empty |
| `UrlShortener.Store.Shorten` | urlshortener/main.go:56-89 | non-POST is refused, an undecodable or empty URL is "invalid request", a known URL gets its key, a new URL gets the first unused key in both maps; the maps stay inverses |
| `UrlShortener.Store.Redirect` | urlshortener/main.go:91-105 | non-GET is refused; the key after "/go/" redirects to its URL or is "key not found" |
| `WordCount.Counts` | wordcount/main.go:11-21 | what the loops leave in `counts`: the number of occurrences of every line of every file, or the panic of the first unreadable file |
| `WordCount.TallyCounts` | wordcount/main.go:18-20 | a line is counted exactly when it occurs, by its number of occurrences |
| `WordCount.CountFile` | wordcount/main.go:18-20 | the inner loop adds one file's lines to the counts |
| `WordCount.CountLines` | wordcount/main.go:11-21 | the loops leave the counts of all lines of all files, or the panic of an unreadable file |
| `WordCount.PanicStays` | wordcount/main.go:13-16 | once a file cannot be read the run panics |
| `WordCount.PanicIffUnreadable` | wordcount/main.go:13-16 | the run panics exactly when some file cannot be read |
| `WordCount.LinesNumber` | wordcount/main.go:17 | a file with k newlines contributes k + 1 lines |
| `WordCount.TrailingNewline` | wordcount/main.go:17 | a trailing newline ends the file with an empty line, which is counted too |
| `WordCount.Repeated` | wordcount/main.go:22-26 | the report: the lines counted more than once, with their counts |
| `WordCount.ReportedIff` | wordcount/main.go:22-26 | a line is reported exactly when it occurs more than once over all files, with its number of occurrences |
| `KeyLock.AcquireKeepsExclusive` | keylock/main.go:35-38 | locking free keys under a new holder keeps every locked key with exactly one holder |
| `KeyLock.ReleaseKeepsExclusive` | keylock/main.go:42-48 | releasing one holder's keys keeps the others exclusive |
| `KeyLock.KeyLock.constructor` | keylock/main.go:14-19 | no key is locked |
| `KeyLock.KeyLock.Conflict` | keylock/main.go:28-34 | a conflict is found exactly when some requested key is locked |
| `KeyLock.KeyLock.TryLock` | keylock/main.go:22-51 | all keys are locked at once when none is in use, and the sorted copy is kept for the unlock; otherwise nothing changes and the current generation is waited on |
| `KeyLock.KeyLock.Unlock` | keylock/main.go:41-49 | the holder's keys are released and the next generation begins, waking every waiter |
| `KeyLock.KeyLock.AddKeys` | keylock/main.go:36-38 | the loop marks exactly the keys locked |
| `KeyLock.KeyLock.RemoveKeys` | keylock/main.go:43-45 | the loop deletes exactly the keys |
| `KeyLock.KeyLock.Resume` | keylock/main.go:54-58 | a wait ends cancelled only when the cancel channel is ready, and is woken otherwise |
| `KeyLock.SortedCopy` | keylock/main.go:22-24 | the sorted copy is sorted and holds the caller's keys |
| `WaitGroup.WaitGroup.constructor` | waitgroup/main.go:9-19 | counter 0, `done` closed, the token in the lock |
| `WaitGroup.WaitGroup.Add` | waitgroup/main.go:21-41 | a negative counter, or one past MaxInt64 (the int64 sum wraps to a negative value), panics after returning the token and changes nothing; Add(0) at 0 panics on closing the closed `done` and keeps the token; otherwise the counter moves, a fresh `done` opens when it leaves 0, `done` is closed exactly at 0, and a closed channel never reopens |
| `WaitGroup.WaitGroup.Done` | waitgroup/main.go:43-45 | Done at 0 panics; otherwise the counter drops by one |
| `WaitGroup.WaitGroup.WaitChannel` | waitgroup/main.go:47-52 | Wait blocks on the current `done`, which is closed exactly when the counter is 0 |
| `WaitGroup.WrappedCounter` | waitgroup/main.go:23-25 | the wrapped `wg.counter + delta` is negative exactly when the exact sum is negative or past MaxInt64, and is the exact sum otherwise |
| `WaitGroup.AddPastMaxInt64` | waitgroup/main.go:21-28 | `New`, `Add(MaxInt64)`, `Add(1)`: the second Add panics as a negative counter and the counter stays MaxInt64 |
| `Cond.Cond.constructor` | cond/main.go:14-23 | no waiters, and the token in the lock |
| `Cond.Cond.Close` | cond/main.go:42 | a channel is closed at most once |
| `Cond.Cond.Wait` | cond/main.go:25-32 | a fresh waiter channel joins the tail of the queue, then L is released |
| `Cond.Cond.Resume` | cond/main.go:33-34 | a waiter whose channel is closed takes L again |
| `Cond.Cond.Signal` | cond/main.go:37-45 | only the head waiter is taken off and closed, in queue order; nothing happens on an empty queue |
| `Cond.Cond.Broadcast` | cond/main.go:47-54 | every queued waiter is closed and the queue emptied |
| `RWMutex.RWMutex.constructor` | rwmutex/main.go:10-21 | one writer token and maxReaders = 16 reader tokens |
| `RWMutex.RWMutex.PutReader` | rwmutex/main.go:18-20 | one send to the readers channel, enabled while its buffer has room, adds one token |
| `RWMutex.RWMutex.RLock` | rwmutex/main.go:23-25 | enabled only while a reader token is available; the reader takes one |
| `RWMutex.RWMutex.RUnlock` | rwmutex/main.go:27-29 | the reader's token goes back, and the buffer always has room |
| `RWMutex.RWMutex.LockWriter` | rwmutex/main.go:32 | one writer at a time takes the writer token |
| `RWMutex.RWMutex.LockReader` | rwmutex/main.go:34-36 | the writer takes the reader tokens one at a time; once it has all 16, no reader holds one |
| `RWMutex.RWMutex.Unlock` | rwmutex/main.go:39-44 | all reader tokens go back before the writer token; tokens are conserved throughout |
| `PubSub.Subscription.AddQueue` | pubsub/main.go:40-49 | the message joins the tail of the queue, or is dropped once the subscription is closed |
| `PubSub.Subscription.RunStep` | pubsub/main.go:24-34 | one pass of `run` takes the queue's head, and exits only with an empty queue on a closed subscription |
| `PubSub.Subscription.Drain` | pubsub/main.go:21-38 | after close, `run` delivers every queued message in order before it exits |
| `PubSub.Subscription.MarkClosed` | pubsub/main.go:54-57 | marking a subscription closed under its mutex, which wakes its `run` loop |
| `PubSub.Subscription.Unsubscribe` | pubsub/main.go:51-59 | only the first call has an effect: it removes the subscription and marks it closed |
| `PubSub.PubSub.constructor` | pubsub/main.go:67-71 | an empty registry, open |
| `PubSub.PubSub.Subscribe` | pubsub/main.go:73-97 | a closed broker gives an error and no change; otherwise a new open subscription joins its topic's set, which is made if absent |
| `PubSub.PubSub.Publish` | pubsub/main.go:99-123 | a closed broker gives an error; otherwise each open subscription of the topic gets the message at its tail; an unknown topic is a no-op |
| `PubSub.PubSub.RemoveSubscription` | pubsub/main.go:125-137 | a no-op after close; otherwise the subscription leaves its set, and an emptied topic is deleted |
| `PubSub.PubSub.Close` | pubsub/main.go:139-160 | a repeated Close returns nil and changes nothing; the first marks the broker closed, clears the registry and marks every subscription closed |
| `PubSub.Snapshot` | pubsub/main.go:112-115 | the copy holds each subscription of the set exactly once |
| `PubSub.Collect` | pubsub/main.go:146-151 | the loops gather every subscription of every topic |
| `DupCall.Call.Begin` | dupcall/main.go:21-70 | an ended context returns its error with nothing changed; a current group is joined with one more waiter; otherwise a new group with one waiter becomes current |
| `DupCall.Call.Cancel` | dupcall/main.go:45-53 | a cancelling waiter leaves, returns its context's error, and the last one to leave cancels the worker |
| `DupCall.Call.Finish` | dupcall/main.go:54-59 | a waiter that sees `done` leaves and returns the group's stored result |
| `DupCall.Call.Complete` | dupcall/main.go:72-79 | the worker stores the result, closes `done` once and clears `current` |

## Left out

- HTTP serving, routing, status codes, redirects, flag parsing and JSON encoding and decoding: the handlers are modelled from the decoded request to the response value.
- File reading, printing and the decoding of the medals data: file contents and entries are inputs.
- The image of the digital clock: the painting loops and PNG encoding (digitalclock/main.go:68-94). The glyph constants are not part of this model; they are a parameter of non-empty strings.
- `time.Now`, `rand.Intn`, the wrapped readers and writers, and the keystream reader: they are parameters.
- `fmt.Sprint`: arguments of `Sprintf` are given as the bytes it prints.
- `strconv.Atoi` internals: it is specified as base-10 parsing with an optional sign, with `ParseUint`'s range check on the leading digits, for a 64-bit `int`. What it does with a 32-bit `int` is not modelled.
- The URL fetcher: it is HTTP and printing only.
- Goroutines, blocking, `select` races, fairness and liveness: every critical section is an atomic step, and which one runs next is left to the environment. An exported operation made of several critical sections is one method when its steps cannot block (pubsub `Publish`, `Close` and `Unsubscribe`). It is several methods when they can (rwmutex `Lock`, cond `Wait`, keylock `LockKeys`, dupcall `Do`).
- PubSub.PubSub.Close: the wait for every `run` to exit under the caller's deadline (pubsub/main.go:162-175) is not modelled, so Close always returns nil.
- The dupcall worker goroutine and the callback body: the callback's result is a parameter of Complete.
- The message handlers of pubsub: Drain and RunStep return the delivered messages instead of calling them.
- UrlShortener.Store.Redirect: requires a path starting with "/go/", which the router guarantees, since the handler is registered only under that prefix.
- KeyLock.KeyLock.Unlock: requires that the unlock closure of a holder is called once. A second call would delete keys that a later holder may own.
- Olympics.AthleteMedals, Olympics.CountMedals, Olympics.TopAthletesHandler, Olympics.TopCountriesHandler: medal sums and totals are unbounded integers; int64 overflow of very large totals (olympics/main.go:79-92, 135-142, 237-244) is not modelled.
- RWMutex.RWMutex.RUnlock, RWMutex.RWMutex.Unlock: require correctly paired calls, a reader that holds a token or a writer after Lock. Go does not check this. A stray RUnlock while the buffer has room adds a token (rwmutex/main.go:27-29), which breaks the token conservation that Valid states.
- Olympics.AthleteYears: the sport handler also sums an athlete's entries into a total `tot` (olympics/main.go:173-180) that nothing reads; it is not modelled.

## Findings

| source | as written | input that shows it | evidently intended | confidence | as-written member | corrected member |
|---|---|---|---|---|---|---|
| varfmt/main.go:27 | `res.WriteString(string(format[i]))` converts each format byte to the rune of that number, so every byte of 0x80 or above becomes two UTF-8 bytes | the format "é" (bytes C3 A9) comes back as the four bytes of "Ã©" | literal text is copied byte for byte, so a format without placeholders is returned unchanged | not executed | `VarFmt.AsWrittenCounterexample` | `VarFmt.VerbatimCopiesLiterals` |
