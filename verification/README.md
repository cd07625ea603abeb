# rust-labs in Dafny

A Dafny model of the small, self-contained exercises of the `rust-labs`
repository, with their promised behaviour proved:

- **basic_algs**: `minimum` of a ten-element array, trial-division `is_prime`,
  the 0-indexed `nth_prime` and a binary-search `lower_bound`. These are
  imperative methods with loop invariants. `nth_prime` is proved to terminate:
  its search always reaches a prime, by Euclid's argument on `m! + 1`.
- **is-sublist**: `compare` classifies two slices as Equal, Sublist, Superlist
  or Other by searching contiguous windows.
- **fizz-buzz**: a `Fizzy` holds an ordered list of matchers, each a predicate
  and a word. `apply` renders every element as the concatenation of the words
  of the matchers that accept it. If none accepts, the element becomes its
  decimal string. The element type is `int`.
- **recurrence**: the ring buffer with ever-growing "fake" indices (slot =
  index mod N) that the `recurrence!` macro generates, and the stream it
  drives. The stream yields the initial values first, then each value of the
  recurrence, pushing it into the buffer. The Fibonacci instance is
  included.
- **structs_and_methods**: points, rectangles, circles and figures over
  `int`. It covers closed-bound containment, figure dispatch, the `Default`
  values and structural equality.
- **phone_numbers**:
  - the 256-entry byte→digit table and the word→digit-string mapping;
  - the chain of encoding parts, written as space-separated words;
  - the flattened dictionary tables;
  - digit filtering and match bucketing;
  - `write_all_encodings`, which writes every encoding of a phone number.
- **raytracing `Pixmap`**: a row-major buffer of colour vectors. Channels are
  `real`s. The buffer converts to three clamped, rounded bytes per pixel.

Each source file is one module: `BasicAlgs`, `IsSublist`, `FizzBuzz`,
`Recurrence`, `Figures`, `PhoneMapper`, `EncodingParts`, `PhoneNumbers` and
`Pixmaps`. `Common` holds the byte and `i32` types, `Option`, and a few
lemmas about modular arithmetic.

Code that updates state step by step is modelled as classes and methods:
- the ring buffer and stream (`Recurrence.RingBuffer`, `Recurrence.Stream`);
- `Fizzy`'s matcher list;
- the pixmap.

Loops become `for`/`while` loops with invariants, proved against a
specification function:
- the digit-table builder;
- the dictionary, filter and bucketing loops;
- `bytes`.

Pure code is modelled as functions and lemmas.

For `write_all_encodings`, the writer is modelled as the returned bytes. The
method keeps the source's loop over the matches at `pos` and its recursion.
It is proved to write the output specification `PhoneNumbers.Output`. That
specification is proved to be exactly one line per encoding, in the order
given by a ghost enumeration (`PhoneNumbers.Encodings`). That enumeration is proved to
contain exactly the step sequences that follow the encoding rule
(`PhoneNumbers.Admissible`):
- at each position, take any dictionary match starting there;
- or take a single raw digit, but only when no match starts there and the
  previous step was not a raw digit.

## Model

| member | source | states |
|---|---|---|
| BasicAlgs.Minimum | basic_algs/src/main.rs:3-11 | the result is at most every element of the ten-element array and equals one of them |
| BasicAlgs.IsPrime | basic_algs/src/main.rs:15-26 | the result is true iff no d with 2 ≤ d and d·d ≤ n divides n; for n ≥ 2 that is primality; n < 4 (including 0 and 1) gives true |
| BasicAlgs.SmallDivisorSuffices | basic_algs/src/main.rs:18-22 | for n ≥ 2, having no divisor up to √n is equivalent to being prime, so stopping at i·i > n is sound |
| BasicAlgs.LeastDivisorIsPrime | basic_algs/src/main.rs:28-38 | the least divisor ≥ 2 of any n ≥ 2 is prime (used for Euclid's argument) |
| BasicAlgs.PrimeAbove | basic_algs/src/main.rs:30-38 | above every bound there is a prime, so the candidate search in `nth_prime` always stops |
| BasicAlgs.PrimeCountMonotone | basic_algs/src/main.rs:28-38 | the number of primes below m never decreases as m grows |
| BasicAlgs.PrimeCountStrict | basic_algs/src/main.rs:31-35 | every prime passed increases the count of primes below the candidate |
| BasicAlgs.PrimeCountInjective | basic_algs/src/main.rs:13-14 | two primes with the same number of smaller primes are equal, so "the n-th prime" is well defined |
| BasicAlgs.FirstPrimeIsTwo | basic_algs/src/main.rs:13 | the prime with no smaller prime is 2, so `nth_prime(0) = 2` |
| BasicAlgs.NthPrime | basic_algs/src/main.rs:13-39 | the result is prime and exactly n primes are smaller than it (0-indexed) |
| BasicAlgs.LowerBound | basic_algs/src/main.rs:41-57 | the result is in [0, N]; on a sorted array every element before it is < value and every element from it on is ≥ value (N when none is ≥ value) |
| IsSublist.AnyWindowFrom | is-sublist/src/lib.rs:23 | true iff some window of b at or after k equals a |
| IsSublist.IsSublistOf | is-sublist/src/lib.rs:22-24 | true iff a occurs as a contiguous window of b (a non-empty) |
| IsSublist.Compare | is-sublist/src/lib.rs:14-20 | Equal iff a == b; for \|a\| < \|b\|, Sublist iff a occurs in b, else Other; for \|a\| > \|b\|, Superlist iff b occurs in a, else Other; equal lengths give only Equal or Other |
| IsSublist.SublistSuperlistDual | is-sublist/src/lib.rs:16-18 | compare(a, b) is Sublist iff compare(b, a) is Superlist, and Equal is symmetric |
| IsSublist.PrefixIsSublist | is-sublist/src/lib.rs:16 | a non-empty list is a Sublist of itself extended by a non-empty tail |
| IsSublist.TestCases | is-sublist/src/lib.rs:30-51 | the crate's tests: three Sublist cases, a non-contiguous subsequence is Other, two Equal cases, one Superlist case |
| FizzBuzz.NatToString | fizz-buzz/src/lib.rs:70 | the decimal string of a natural number is non-empty, all digits, with no leading zero |
| FizzBuzz.ParseNatToString | fizz-buzz/src/lib.rs:70 | reading back the decimal string of n gives n |
| FizzBuzz.IntToStringRoundTrip | fizz-buzz/src/lib.rs:70 | reading back `to_string` of any integer (sign included) gives the integer |
| FizzBuzz.IntToString | fizz-buzz/src/lib.rs:70 | `to_string` is non-empty, starts with '-' exactly for negative numbers, and is all digits after the sign |
| FizzBuzz.Concat | fizz-buzz/src/lib.rs:72 | `join("")` of no words is empty, of one word is that word, and otherwise starts with the first word |
| FizzBuzz.Render | fizz-buzz/src/lib.rs:65-74 | an element no matcher accepts becomes its decimal string; otherwise it becomes the accepting matchers' words joined |
| FizzBuzz.Replacements | fizz-buzz/src/lib.rs:66-68 | at most one word per matcher; no words iff no matcher accepts the element |
| FizzBuzz.ApplyAll | fizz-buzz/src/lib.rs:64-75 | same length as the input, and element i is rendered from input element i alone |
| FizzBuzz.NoMatchRendersNumber | fizz-buzz/src/lib.rs:69-70 | an element no matcher accepts becomes its decimal string, which reads back as the element |
| FizzBuzz.ReplacementsAppend | fizz-buzz/src/lib.rs:66-68 | adding a matcher at the end adds its word after the earlier ones, exactly when it accepts |
| FizzBuzz.ConcatAppend | fizz-buzz/src/lib.rs:72 | joining with "" distributes over appending a word |
| FizzBuzz.RenderAppend | fizz-buzz/src/lib.rs:66-73 | rendering with one more matcher: its word is appended when it accepts; otherwise nothing changes |
| FizzBuzz.ApplyAllAppend | fizz-buzz/src/lib.rs:65 | applying to a concatenation is the concatenation of the applications (elementwise) |
| FizzBuzz.Fizzy.constructor | fizz-buzz/src/lib.rs:53-55 | a new `Fizzy` has no matchers |
| FizzBuzz.Fizzy.AddMatcher | fizz-buzz/src/lib.rs:58-61 | the matcher is appended at the end; earlier matchers are unchanged |
| FizzBuzz.Fizzy.Apply | fizz-buzz/src/lib.rs:64-75 | same length and order as the input; element i is rendered with the current matchers |
| FizzBuzz.NoMatchersRendersNumbers | fizz-buzz/src/lib.rs:53-55 | with no matchers every element becomes its decimal string |
| FizzBuzz.FizzBuzzRules | fizz-buzz/src/lib.rs:79-83 | `fizz_buzz` yields a fresh `Fizzy` holding the "fizz" (x % 3 == 0) rule followed by the "buzz" (x % 5 == 0) rule |
| FizzBuzz.ReplacementsPair | fizz-buzz/src/lib.rs:66-68 | with two matchers the words come first-matcher first, each present exactly when it accepts |
| FizzBuzz.StandardRender | fizz-buzz/src/lib.rs:79-83 | the standard rules give "fizzbuzz" for multiples of 15, "fizz" for other multiples of 3, "buzz" for other multiples of 5, else the decimal string |
| FizzBuzz.StandardSamples | fizz-buzz/src/lib.rs:89-102 | 15 → "fizzbuzz", 12 → "fizz", 10 → "buzz", 16 → "16" |
| FizzBuzz.CustomBuzzFizz | fizz-buzz/src/lib.rs:129-139 | with matchers Buzz, Fizz, Bam, every multiple of 15 that is not a multiple of 7 renders "BuzzFizz": words come in matcher order |
| FizzBuzz.CustomBam | fizz-buzz/src/lib.rs:129-139 | with matchers Buzz, Fizz, Bam, a multiple of 7 and of neither 3 nor 5 renders "Bam" |
| FizzBuzz.CustomOrder | fizz-buzz/src/lib.rs:129-139 | the test's values: 15 renders "BuzzFizz" and 7 renders "Bam" |
| Recurrence.RingBuffer.constructor | recurrence/src/lib.rs:9-11 | the initial values sit at logical indices 0..N-1 and `fake_size = N` |
| Recurrence.RingBuffer.Push | recurrence/src/lib.rs:12-16 | writes val into slot `fake_size % N` only, increments `fake_size` by exactly one, returns val, and keeps every window value |
| Recurrence.RingBuffer.Index | recurrence/src/lib.rs:20-23 | reads slot i % N unchecked; inside the last N logical indices that is the value last written at index i |
| Recurrence.RingBuffer.WindowIndex | recurrence/src/lib.rs:26-29 | the index in the current window that shares slot i % N, and no other index in the window shares it |
| Recurrence.WindowSlotUnique | recurrence/src/lib.rs:26-29 | among N consecutive logical indices at most one has a given slot |
| Recurrence.RingBuffer.IndexMut | recurrence/src/lib.rs:26-29 | a store through `index_mut(i)` changes slot i % N only, i.e. the window value that shares it |
| Recurrence.Stream.constructor | recurrence/src/lib.rs:32-37 | the buffer holds the initial values, `n = 0`, nothing yielded |
| Recurrence.Stream.Next | recurrence/src/lib.rs:38-46 | for n < ini_size yields the n-th initial value and leaves the buffer alone; afterwards yields eval at n and pushes it; n advances by one and the yielded values stay the buffer's logical history |
| Recurrence.FibonacciTake | recurrence/src/lib.rs:55-57 | taking up to 47 values (as many as fit in `i32`) from the Fibonacci stream gives the first `count` Fibonacci numbers |
| Recurrence.FibonacciFirstTen | recurrence/src/lib.rs:57-58 | the first ten are 0 1 1 2 3 5 8 13 21 34 |
| Figures.DefaultPoint | structs_and_methods/src/lib.rs:73-77 | the default point is the origin |
| Figures.DefaultRect | structs_and_methods/src/lib.rs:79-83 | the default rectangle is 1×1 at the origin |
| Figures.DefaultCircle | structs_and_methods/src/lib.rs:85-89 | the default circle has radius 1 at the origin |
| Figures.DefaultFigure | structs_and_methods/src/lib.rs:91-95 | the default figure is a circle of radius 1 at the origin |
| Figures.PointEq | structs_and_methods/src/lib.rs:97-101 | true iff both coordinates agree |
| Figures.CircleEq | structs_and_methods/src/lib.rs:103-107 | true iff centre and radius agree |
| Figures.RectEq | structs_and_methods/src/lib.rs:109-113 | true iff corner, width and height agree |
| Figures.FigureEq | structs_and_methods/src/lib.rs:115-125 | componentwise within a variant, false across variants |
| Figures.Rect.Contains | structs_and_methods/src/lib.rs:29-32 | a rectangle with a negative width or height contains no point |
| Figures.Circle.Contains | structs_and_methods/src/lib.rs:42-46 | a circle contains its centre and the four points at distance `radius` along the axes |
| Figures.Figure.Contains | structs_and_methods/src/lib.rs:55-62 | a figure contains exactly the points the shape it wraps contains |
| Figures.RectContainsCorners | structs_and_methods/src/lib.rs:29-32 | with non-negative sides, both the upper-left and the opposite corner are contained (closed bounds) |
| Figures.RectContainsBetween | structs_and_methods/src/lib.rs:29-32 | a point between two contained points is contained |
| Figures.CircleContainsCentreAndBoundary | structs_and_methods/src/lib.rs:42-46 | a circle contains its centre and its boundary point at distance radius, and not the next point out |
| Figures.CircleSymmetric | structs_and_methods/src/lib.rs:42-46 | containment is symmetric under reflection through the centre |
| Figures.DefaultFigureContains | structs_and_methods/src/lib.rs:91-95 | the default figure contains the origin and its unit-distance points but not (1, 1); the default rectangle contains (1, 1) |
| PhoneMapper.DigitToAscii | phone_numbers/src/mapper.rs:27-29 | the result is the ASCII digit `'0' + d` |
| PhoneMapper.ToAsciiUppercase | phone_numbers/src/mapper.rs:15 | 'a'..'z' map to 'A'..'Z', every other byte is unchanged |
| PhoneMapper.NewMapper | phone_numbers/src/mapper.rs:9-19 | each table entry is the digit character of the last digit whose list holds the byte or a byte whose upper case it is, else 0 |
| PhoneMapper.UnlistedMapsToZero | phone_numbers/src/mapper.rs:10 | a byte no list writes maps to 0 |
| PhoneMapper.ListedMapsToDigit | phone_numbers/src/mapper.rs:11-16 | a byte listed (or upper case of one listed) under digit d maps to '0' + d unless a later digit lists it: the later digit wins |
| PhoneMapper.CaseInsensitiveEntry | phone_numbers/src/mapper.rs:15 | when no list holds an upper-case letter, a lower-case letter and its upper case map to the same digit |
| PhoneMapper.ProgramTableSample | phone_numbers/src/main.rs:28-39 | with the program's lists, 'a' and 'A' both map to '5' |
| PhoneMapper.WordToNumber | phone_numbers/src/mapper.rs:21-25 | the digit string is no longer than the word and every byte of it is a table entry |
| PhoneMapper.WordToNumberLength | phone_numbers/src/mapper.rs:21-25 | the digit string has one digit per byte that is not ignored |
| PhoneMapper.WordToNumberAppend | phone_numbers/src/mapper.rs:21-25 | mapping works byte by byte and in order: it distributes over concatenation |
| PhoneMapper.IgnoredContributeNothing | phone_numbers/src/mapper.rs:23 | a word made only of ignored bytes maps to the empty digit string |
| EncodingParts.WriteInto | phone_numbers/src/encoding_part.rs:9-16 | a part with no predecessor writes exactly its word; the output always ends with the part's own word |
| EncodingParts.Words | phone_numbers/src/encoding_part.rs:3-6 | the chain's words, oldest first, end with the newest part's word |
| EncodingParts.WriteIntoIsJoin | phone_numbers/src/encoding_part.rs:9-16 | writing a chain is its words, oldest first, joined by single spaces |
| EncodingParts.WriteIntoLength | phone_numbers/src/encoding_part.rs:9-16 | output length is the sum of the word lengths plus (number of words − 1) |
| EncodingParts.SplitJoin | phone_numbers/src/encoding_part.rs:12 | splitting space-joined space-free words at spaces recovers them: exactly one space between words, none at the ends |
| EncodingParts.WriteIntoSplits | phone_numbers/src/encoding_part.rs:9-16 | the words of a chain of space-free words are recovered from its output |
| EncodingParts.TwoPartsSample | phone_numbers/src/encoding_part.rs:10-14 | a two-part chain writes the older word, a space, the newer word |
| PhoneNumbers.Numbers | phone_numbers/src/main.rs:50 | one digit string per dictionary word, each the mapping of that word |
| PhoneNumbers.BuildTables | phone_numbers/src/main.rs:41-53 | both indexes are prefix-offset tables (start at 0, non-decreasing, one entry more than words, end at the buffer length); word i is `words_buf[idx[i]..idx[i+1]]` and its digit string is the corresponding slice of the number table |
| PhoneNumbers.Digits | phone_numbers/src/main.rs:69 | filtering yields only ASCII digits and never grows the input |
| PhoneNumbers.DigitsAppend | phone_numbers/src/main.rs:69-72 | filtering works byte by byte, in order |
| PhoneNumbers.DigitsIdempotent | phone_numbers/src/main.rs:69 | filtering an already filtered number changes nothing |
| PhoneNumbers.FilterDigits | phone_numbers/src/main.rs:68-72 | the buffer's first `len` bytes are exactly the ASCII digits of the line, in order; the rest of the buffer is untouched |
| PhoneNumbers.MatchesAtMember | phone_numbers/src/main.rs:77-79 | a match is in bucket p iff it is among the found matches and starts at p |
| PhoneNumbers.BucketMatches | phone_numbers/src/main.rs:73-79 | each of the first `len` buckets holds exactly the found matches starting there, in search order; the other buckets are untouched |
| PhoneNumbers.Line | phone_numbers/src/main.rs:91-99 | an output line starts with the original number and ends with a newline |
| PhoneNumbers.WriteAllEncodings | phone_numbers/src/main.rs:81-122 | the bytes written equal `Output`, the output specification of one call: the line for `part` at the end of the digits, else each match's continuation in bucket order, then the raw digit's when allowed |
| PhoneNumbers.OutputIsLines | phone_numbers/src/main.rs:81-122 | what one call writes is exactly one line (original number, ": ", parts, newline) per encoding from `pos`, in enumeration order |
| PhoneNumbers.OutputViaIsLines | phone_numbers/src/main.rs:102-110 | what the loop writes from the j-th match of the bucket on is one line per encoding through those matches, in order |
| PhoneNumbers.LinesAppend | phone_numbers/src/main.rs:102-119 | the lines written for two runs of encodings, one after the other, are the two outputs concatenated |
| PhoneNumbers.EncodingsExactly | phone_numbers/src/main.rs:91-119 | an encoding is enumerated iff it follows the rule: words from the bucket at each position, a raw digit only where the bucket is empty and the previous step was not a raw digit, ending exactly at the end of the digits |
| PhoneNumbers.EncodingsSound | phone_numbers/src/main.rs:102-119 | every enumerated encoding follows the rule |
| PhoneNumbers.EncodingsComplete | phone_numbers/src/main.rs:102-119 | every encoding that follows the rule is enumerated |
| PhoneNumbers.NoAdjacentDigits | phone_numbers/src/main.rs:112-119 | no encoding has two raw digits in a row; a raw digit stands only where no match starts; after a raw digit the next step is a word |
| PhoneNumbers.EncodingTilesDigits | phone_numbers/src/main.rs:102-119 | the steps of an encoding cover the digits from pos to the end, each exactly once, in order |
| PhoneNumbers.ProcessNumber | phone_numbers/src/main.rs:67-126 | for one number line: the filtered digits, the buckets of the search results, and an output that is one line per rule-following encoding of the digits |
| Pixmaps.Clamp01 | raytracing/src/pixmap.rs:20-22 | the clamped value is in [0, 1], equals v inside, 0 below, 1 above |
| Pixmaps.RoundNonNeg | raytracing/src/pixmap.rs:20-22 | rounds to the nearest integer, halves upward, for non-negative values |
| Pixmaps.ChannelByte | raytracing/src/pixmap.rs:18-22 | the byte is in [0, 255]; channels ≤ 0 give 0 and channels ≥ 1 give 255 |
| Pixmaps.ChannelMonotone | raytracing/src/pixmap.rs:18-22 | the conversion is monotone in the channel value |
| Pixmaps.ChannelOfByte | raytracing/src/pixmap.rs:18-22 | the channel k/255 converts back to the byte k, for every byte k |
| Pixmaps.BytesOf | raytracing/src/pixmap.rs:17-24 | three bytes per pixel |
| Pixmaps.BytesOfAt | raytracing/src/pixmap.rs:19-23 | bytes 3i, 3i+1, 3i+2 come from pixel i's x, y and z |
| Pixmaps.PixelIndexInBounds | raytracing/src/pixmap.rs:9-14 | with col < cols and row < rows, `row*cols + col` lies inside the `cols*rows` buffer |
| Pixmaps.PixelIndexInjective | raytracing/src/pixmap.rs:27-33 | with columns below `cols`, distinct (col, row) pairs have distinct indexes |
| Pixmaps.Pixmap.constructor | raytracing/src/pixmap.rs:9-14 | `cols*rows` pixels, all zero |
| Pixmaps.Pixmap.Bytes | raytracing/src/pixmap.rs:16-25 | the result is the pixel-by-pixel conversion of the buffer, 3 × the pixel count long |
| Pixmaps.Pixmap.Get | raytracing/src/pixmap.rs:27-29 | returns the pixel stored at `row*cols + col` |
| Pixmaps.Pixmap.Set | raytracing/src/pixmap.rs:31-33 | a store through `get_mut` changes only index `row*cols + col` |
| Pixmaps.SetThenGet | raytracing/src/pixmap.rs:27-33 | after storing through `get_mut`, `get` at the same place returns the stored value and any other in-range place keeps its old value |

## Left out

- Program entry points, argument handling, file and line reading, standard
  output and process exit. This covers `main` in basic_algs, phone_numbers
  and raytracing, and `map_lines`, `for_each_line`, `must_open_file` and
  `usage_error`. They are I/O.
- BasicAlgs.IsPrime: unbounded integers; the i32 product `i * i` overflows
  when `i` reaches 46341, i.e. for n ≥ 46340² = 2147395600 with no factor
  up to 46340 (such as the prime 2147483647). `nth_prime` never gets
  that far for the inputs the program uses.
- BasicAlgs.NthPrime: `n` is a `u32` and the result an `i32` in the source.
  The model uses unbounded integers, so overflow of the candidate for huge n
  is not modelled.
- IsSublist.Compare: `windows(0)` panics when exactly one slice is empty. The
  model states this as a precondition instead of a panic.
- The generic element types of fizz-buzz (`u8`, `u64`, `f64` and the
  `Fizzable` wrapper tests) and structs_and_methods (any `Num`). Both are
  modelled over `int`. Unsigned underflow of `center.x - p.x` in
  `Circle::contains` is therefore not modelled.
- `Matcher::new` is the `Matcher` datatype constructor. The boxed closure is
  a total function `int -> bool`.
- `Fizzy::apply` consumes its iterator lazily. The model applies it to a
  finite sequence.
- The `area` methods (f64 and π) and structs_and_methods/src/main.rs.
- The `recurrence!` macro's expansion mechanics. The second test's f64
  factorial stream and the printing in the test are also left out.
- Recurrence.FibonacciTake: the stream's values are `i32`, and Fib(47) =
  2971215073 exceeds `i32::MAX`, so taking a 48th value overflows (a panic
  in a debug build, wrap-around in a release build). The model requires at
  most 47 values and does not model the overflow.
- Recurrence.Stream.Next: the recurrence expression is a function of the ring
  contents and n. `fake_size` and `n` are unbounded, so usize overflow is not
  modelled.
- The Aho-Corasick automaton, its construction from the digit strings, and
  its u32 pattern ids (an external crate).
  - `PhoneNumbers.ProcessNumber` takes the search as a function parameter.
  - Its requires states what the search guarantees for the dictionaries the
    model covers: every match is non-empty, lies inside the searched digits
    and names a dictionary word.
  - That a match's word really spells its digits is not part of the model.
- PhoneNumbers.ProcessNumber: dictionaries with a word whose digit string is
  empty are not covered. A word that is empty, or made only of the ignored
  bytes `-` and `"`, maps to the empty digit string
  (`PhoneMapper.IgnoredContributeNothing`). The automaton then reports empty
  matches (`start == end`), and `write_all_encodings` recurses on such a match
  at the same position with the same bucket, so the source does not
  terminate (phone_numbers/src/main.rs:108). The model covers dictionaries in
  which every `Numbers(mapper, dict)[i]` is non-empty. Its `start < end`
  requirement on the search stands for that condition, and it is what makes
  `PhoneNumbers.WriteAllEncodings` terminate.
- PhoneNumbers.FilterDigits: more than `MAX_NUMBER_LENGTH` (50) digits
  overruns the fixed buffer and panics. This is a precondition here.
- PhoneNumbers.WriteAllEncodings: the writer is modelled as the returned
  bytes, so write errors and their `?` propagation are not modelled.
  `expect("write failed")` is also left out.
- The `unsafe` `make_shared_match_buf` (`MaybeUninit`/`transmute_copy`). The
  bucket array starts from arbitrary contents in the model; only its first
  `len` buckets are read.
- phone_numbers/src/utils.rs is not part of this model. `DIGITS` is 10, the
  number of lists the program passes.
- Pixmaps.ChannelByte: exact real arithmetic instead of `f32`. Rounding error
  of `255 * v`, NaN and infinite channels, and the saturating `as u8` cast
  are not modelled.
- Pixmaps.Pixmap.Get: `get`/`get_mut` return references. `get` is modelled
  as returning the value. `get_mut` is modelled as a store (`Set`), which is
  the only use the program makes of it. The source checks only that
  `row*cols + col` is inside the buffer, and so does the model. An
  out-of-range column wraps into the next row, as in the source.
- usize overflow of `cols * rows` and `3 * data.len()`.
- The rest of the ray tracer: vectors, geometry, objects, scene, camera,
  lights and PNG output. It is `f32` numerics and an external image crate.
- guessing_game, which is interactive and randomly seeded.
