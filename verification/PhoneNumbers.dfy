/**
 * phone_numbers/src/main.rs: the dictionary is flattened into a byte buffer
 * with a prefix-offset index (and likewise the digit string of every word);
 * each phone number is reduced to its digits, the dictionary matches found
 * in those digits are bucketed by start position, and every encoding of the
 * number is written, one line each. The multi-pattern search is outside the
 * model: its matches are an input.
 */
module PhoneNumbers {
  import opened Common
  import opened PhoneMapper
  import opened EncodingParts

  const MAX_NUMBER_LENGTH: nat := 50

  // ---------------------------------------------------------------------------
  // Flattened string tables

  /** `idx` has one entry per word plus one, starts at 0, never decreases and ends at `|buf|`. */
  predicate IsOffsetTable(idx: seq<nat>, buf: seq<byte>, n: nat) {
    |idx| == n + 1 && idx[0] == 0 && idx[n] == |buf| &&
    forall i, j :: 0 <= i <= j <= n ==> idx[i] <= idx[j]
  }

  /** The table `idx`/`buf` holds exactly the words `ws`: word i is `buf[idx[i]..idx[i+1]]`. */
  predicate Recovers(idx: seq<nat>, buf: seq<byte>, ws: seq<seq<byte>>) {
    IsOffsetTable(idx, buf, |ws|) && forall i :: 0 <= i < |ws| ==> SliceIs(idx, buf, i, ws[i])
  }

  /** Entry `i` of the table is the word `w`. */
  predicate SliceIs(idx: seq<nat>, buf: seq<byte>, i: nat, w: seq<byte>) {
    i + 1 < |idx| && idx[i] <= idx[i + 1] <= |buf| && buf[idx[i]..idx[i + 1]] == w
  }

  /** The digit string of each dictionary word. */
  function Numbers(m: Mapper, ws: seq<seq<byte>>): (ns: seq<seq<byte>>)
    requires m.Valid()
    ensures |ns| == |ws| && forall i :: 0 <= i < |ws| ==> ns[i] == WordToNumber(m, ws[i])
  {
    if ws == [] then [] else Numbers(m, ws[..|ws| - 1]) + [WordToNumber(m, ws[|ws| - 1])]
  }

  lemma RecoversSnoc(idx: seq<nat>, buf: seq<byte>, ws: seq<seq<byte>>, w: seq<byte>)
    requires Recovers(idx + [|buf|], buf, ws)
    ensures Recovers(idx + [|buf|] + [|buf + w|], buf + w, ws + [w])
  {
    var idx' := idx + [|buf|] + [|buf + w|];
    var buf' := buf + w;
    var ws' := ws + [w];
    var n := |ws|;
    var old' := idx + [|buf|];
    assert |old'| == n + 1 && old'[n] == |buf|;
    assert idx'[..n + 1] == old';
    forall i, j | 0 <= i <= j <= n + 1
      ensures idx'[i] <= idx'[j]
    {
      if j <= n {
        assert idx'[i] == old'[i] && idx'[j] == old'[j];
      } else if i <= n {
        assert idx'[i] == old'[i] <= old'[n];
      }
    }
    forall i | 0 <= i < n + 1
      ensures SliceIs(idx', buf', i, ws'[i])
    {
      if i < n {
        assert SliceIs(old', buf, i, ws[i]);
        assert idx'[i] == old'[i] && idx'[i + 1] == old'[i + 1];
        assert buf'[idx'[i]..idx'[i + 1]] == buf[idx'[i]..idx'[i + 1]];
      } else {
        assert buf'[|buf|..|buf'|] == w;
      }
    }
  }

  /**
   * The dictionary loop: for every word, record where it starts and append
   * it, and the same for its digit string; then close both indexes with the
   * final buffer length.
   */
  method BuildTables(mapper: Mapper, dict: seq<seq<byte>>)
    returns (wordsBuf: seq<byte>, wordsIndices: seq<nat>, numbersBuf: seq<byte>, numbersIndices: seq<nat>)
    requires mapper.Valid()
    ensures Recovers(wordsIndices, wordsBuf, dict)
    ensures Recovers(numbersIndices, numbersBuf, Numbers(mapper, dict))
  {
    wordsBuf, wordsIndices, numbersBuf, numbersIndices := [], [], [], [];
    for j := 0 to |dict|
      invariant Recovers(wordsIndices + [|wordsBuf|], wordsBuf, dict[..j])
      invariant Recovers(numbersIndices + [|numbersBuf|], numbersBuf, Numbers(mapper, dict[..j]))
    {
      var word := dict[j];
      var number := WordToNumber(mapper, word);
      RecoversSnoc(wordsIndices, wordsBuf, dict[..j], word);
      RecoversSnoc(numbersIndices, numbersBuf, Numbers(mapper, dict[..j]), number);
      wordsIndices := wordsIndices + [|wordsBuf|];
      wordsBuf := wordsBuf + word;
      numbersIndices := numbersIndices + [|numbersBuf|];
      numbersBuf := numbersBuf + number;
      assert dict[..j + 1] == dict[..j] + [word];
      assert Numbers(mapper, dict[..j + 1]) == Numbers(mapper, dict[..j]) + [number] by {
        assert dict[..j + 1][..j] == dict[..j];
      }
    }
    assert dict[..|dict|] == dict;
    wordsIndices := wordsIndices + [|wordsBuf|];
    numbersIndices := numbersIndices + [|numbersBuf|];
  }

  // ---------------------------------------------------------------------------
  // Digit filtering

  predicate IsAsciiDigit(c: byte) {
    48 <= c <= 57
  }

  /** The ASCII digits of `s`, in order. */
  function Digits(s: seq<byte>): (d: seq<byte>)
    ensures |d| <= |s| && forall k :: 0 <= k < |d| ==> IsAsciiDigit(d[k])
  {
    if s == [] then []
    else Digits(s[..|s| - 1]) + (if IsAsciiDigit(s[|s| - 1]) then [s[|s| - 1]] else [])
  }

  lemma {:induction false} DigitsAppend(a: seq<byte>, b: seq<byte>)
    ensures Digits(a + b) == Digits(a) + Digits(b)
  {
    if b == [] {
      assert a + b == a;
    } else {
      assert (a + b)[..|a + b| - 1] == a + b[..|b| - 1];
      DigitsAppend(a, b[..|b| - 1]);
    }
  }

  /** Filtering a string of digits changes nothing. */
  lemma {:induction false} DigitsOfDigits(s: seq<byte>)
    requires forall k :: 0 <= k < |s| ==> IsAsciiDigit(s[k])
    ensures Digits(s) == s
  {
    if s != [] {
      DigitsOfDigits(s[..|s| - 1]);
    }
  }

  /** Filtering is idempotent. */
  lemma DigitsIdempotent(s: seq<byte>)
    ensures Digits(Digits(s)) == Digits(s)
  {
    DigitsOfDigits(Digits(s));
  }

  /**
   * The digit filter: copy each ASCII digit of the line into the fixed buffer.
   * A line with more than `MAX_NUMBER_LENGTH` digits overruns the buffer (an
   * index panic), so it is excluded.
   */
  method FilterDigits(number: seq<byte>, buf: array<byte>) returns (len: nat)
    requires buf.Length == MAX_NUMBER_LENGTH
    requires |Digits(number)| <= MAX_NUMBER_LENGTH
    modifies buf
    ensures len == |Digits(number)| && buf[..len] == Digits(number)
    ensures buf[len..] == old(buf[len..])
  {
    len := 0;
    for i := 0 to |number|
      invariant len <= |Digits(number)|
      invariant len == |Digits(number[..i])| && buf[..len] == Digits(number[..i])
      invariant buf[len..] == old(buf[len..])
    {
      var ch := number[i];
      assert number[..i + 1][..i] == number[..i];
      assert |Digits(number[..i + 1])| <= |Digits(number)| by {
        DigitsAppend(number[..i + 1], number[i + 1..]);
        assert number[..i + 1] + number[i + 1..] == number;
      }
      if IsAsciiDigit(ch) {
        buf[len] := ch;
        len := len + 1;
      }
    }
    assert number[..|number|] == number;
  }

  // ---------------------------------------------------------------------------
  // Match bucketing

  /** A dictionary match: which word, and the digit range `start..end` it covers. */
  datatype Match = Match(pattern: nat, start: nat, end: nat)

  /** The matches of `ms` that start at `p`, in their original order. */
  function MatchesAt(ms: seq<Match>, p: nat): seq<Match> {
    if ms == [] then []
    else MatchesAt(ms[..|ms| - 1], p) + (if ms[|ms| - 1].start == p then [ms[|ms| - 1]] else [])
  }

  lemma {:induction false} MatchesAtMember(ms: seq<Match>, p: nat, m: Match)
    ensures m in MatchesAt(ms, p) <==> m in ms && m.start == p
  {
    if ms != [] {
      MatchesAtMember(ms[..|ms| - 1], p, m);
      assert ms == ms[..|ms| - 1] + [ms[|ms| - 1]];
    }
  }

  /**
   * Clear the first `len` buckets, then append every match to the bucket of
   * its start position. The matches come from the search over the `len`
   * filtered digits, so each lies inside them.
   */
  method BucketMatches(buckets: array<seq<Match>>, len: nat, found: seq<Match>)
    requires buckets.Length == MAX_NUMBER_LENGTH && len <= MAX_NUMBER_LENGTH
    requires forall k :: 0 <= k < |found| ==> found[k].start < found[k].end <= len
    modifies buckets
    ensures forall p :: 0 <= p < len ==> buckets[p] == MatchesAt(found, p)
    ensures forall p :: len <= p < buckets.Length ==> buckets[p] == old(buckets[p])
  {
    for i := 0 to len
      invariant forall p :: 0 <= p < i ==> buckets[p] == []
      invariant forall p :: i <= p < buckets.Length ==> buckets[p] == old(buckets[p])
    {
      buckets[i] := [];
    }
    for k := 0 to |found|
      invariant forall p :: 0 <= p < len ==> buckets[p] == MatchesAt(found[..k], p)
      invariant forall p :: len <= p < buckets.Length ==> buckets[p] == old(buckets[p])
    {
      var m := found[k];
      buckets[m.start] := buckets[m.start] + [m];
      assert found[..k + 1][..k] == found[..k];
    }
    assert found[..|found|] == found;
  }

  // ---------------------------------------------------------------------------
  // Enumerating encodings

  /** What `write_all_encodings` reads besides its position, part and flag. */
  datatype Context = Context(origNum: seq<byte>, filtered: seq<byte>, buckets: seq<seq<Match>>,
                             wordsBuf: seq<byte>, wordsIndices: seq<nat>)
  {
    /** A match in bucket `p` starts at `p`, ends after it inside the digits, and names a word. */
    predicate MatchOk(m: Match, p: nat) {
      m.start == p < m.end <= |filtered| && m.pattern + 1 < |wordsIndices|
    }

    predicate Valid() {
      |filtered| <= |buckets| &&
      |wordsIndices| >= 1 && IsOffsetTable(wordsIndices, wordsBuf, |wordsIndices| - 1) &&
      forall p, j :: 0 <= p < |filtered| && 0 <= j < |buckets[p]| ==> MatchOk(buckets[p][j], p)
    }
  }

  /** One step of an encoding: a dictionary word, or the single raw digit at `at`. */
  datatype Step = WordStep(m: Match) | DigitStep(at: nat)

  /** The word a step contributes to the output line. */
  ghost function StepWord(c: Context, s: Step): seq<byte> {
    match s
    case WordStep(m) =>
      if m.pattern + 1 < |c.wordsIndices| && c.wordsIndices[m.pattern] <= c.wordsIndices[m.pattern + 1] <= |c.wordsBuf|
      then c.wordsBuf[c.wordsIndices[m.pattern]..c.wordsIndices[m.pattern + 1]] else []
    case DigitStep(q) => if q < |c.filtered| then c.filtered[q..q + 1] else []
  }

  /** The digits a step covers. */
  ghost function StepDigits(c: Context, s: Step): seq<byte> {
    match s
    case WordStep(m) => if m.start <= m.end <= |c.filtered| then c.filtered[m.start..m.end] else []
    case DigitStep(q) => if q < |c.filtered| then c.filtered[q..q + 1] else []
  }

  ghost function CoveredDigits(c: Context, e: seq<Step>): seq<byte> {
    if e == [] then [] else StepDigits(c, e[0]) + CoveredDigits(c, e[1..])
  }

  /**
   * The encoding rules, step by step: from `pos`, a step is either a match in
   * the bucket of `pos` (after which a raw digit is allowed again), or the raw
   * digit at `pos` when that bucket is empty and the previous step was not a
   * raw digit; an encoding is complete exactly at the end of the digits.
   */
  ghost predicate Admissible(c: Context, e: seq<Step>, pos: nat, canSkip: bool)
    decreases |e|
  {
    if e == [] then pos == |c.filtered|
    else
      pos < |c.filtered| && pos < |c.buckets| &&
      match e[0]
      case WordStep(m) => m in c.buckets[pos] && Admissible(c, e[1..], m.end, true)
      case DigitStep(q) => q == pos && c.buckets[pos] == [] && canSkip && Admissible(c, e[1..], pos + 1, false)
  }

  function Prepend(s: Step, es: seq<seq<Step>>): (r: seq<seq<Step>>)
    ensures |r| == |es| && forall k :: 0 <= k < |es| ==> r[k] == [s] + es[k]
  {
    seq(|es|, k requires 0 <= k < |es| => [s] + es[k])
  }

  /**
   * All encodings from `pos`, in the order they are written: for each match
   * in the bucket of `pos`, in bucket order, its completions; then, when the
   * bucket is empty and skipping is allowed, the raw digit's completions.
   */
  ghost function Encodings(c: Context, pos: nat, canSkip: bool): seq<seq<Step>>
    requires c.Valid() && pos <= |c.filtered|
    decreases |c.filtered| - pos, 1, 0
  {
    if pos == |c.filtered| then [[]]
    else
      EncodingsVia(c, pos, 0) +
      if c.buckets[pos] == [] && canSkip then Prepend(DigitStep(pos), Encodings(c, pos + 1, false)) else []
  }

  /** The completions through the matches `i..` of the bucket of `pos`. */
  ghost function EncodingsVia(c: Context, pos: nat, i: nat): seq<seq<Step>>
    requires c.Valid() && pos < |c.filtered| && i <= |c.buckets[pos]|
    decreases |c.filtered| - pos, 0, |c.buckets[pos]| - i
  {
    if i == |c.buckets[pos]| then []
    else
      var m := c.buckets[pos][i];
      assert c.MatchOk(m, pos);
      Prepend(WordStep(m), Encodings(c, m.end, true)) + EncodingsVia(c, pos, i + 1)
  }

  /** Output a line for a complete encoding: the original number, ": ", the words, a newline. */
  function Line(origNum: seq<byte>, part: Option<EncodingPart>): (line: seq<byte>)
    ensures |line| >= |origNum| + 3 && line[..|origNum|] == origNum && line[|line| - 1] == 10
  {
    origNum + [58, 32] + (match part case None => [] case Some(p) => WriteInto(p)) + [10]
  }

  /** The chain after taking the steps of `e` from `part`. */
  ghost function Extend(c: Context, part: Option<EncodingPart>, e: seq<Step>): Option<EncodingPart>
    decreases |e|
  {
    if e == [] then part else Extend(c, Some(EncodingPart(StepWord(c, e[0]), part)), e[1..])
  }

  /** The bytes of `f(x)` for every `x` of `xs`, in order. */
  function ConcatMap<T>(f: T -> seq<byte>, xs: seq<T>): seq<byte> {
    if xs == [] then [] else f(xs[0]) + ConcatMap(f, xs[1..])
  }

  lemma {:induction false} ConcatMapAppend<T>(f: T -> seq<byte>, a: seq<T>, b: seq<T>)
    ensures ConcatMap(f, a + b) == ConcatMap(f, a) + ConcatMap(f, b)
  {
    if a == [] {
      assert a + b == b;
    } else {
      assert (a + b)[1..] == a[1..] + b;
      ConcatMapAppend(f, a[1..], b);
    }
  }

  /** The line written for a complete encoding `e` continuing `part`. */
  ghost function LineFor(c: Context, part: Option<EncodingPart>): seq<Step> -> seq<byte> {
    e => Line(c.origNum, Extend(c, part, e))
  }

  /** The lines written for the encodings `es` continuing `part`. */
  ghost function Lines(c: Context, part: Option<EncodingPart>, es: seq<seq<Step>>): seq<byte> {
    ConcatMap(LineFor(c, part), es)
  }

  lemma LinesAppend(c: Context, part: Option<EncodingPart>, a: seq<seq<Step>>, b: seq<seq<Step>>)
    ensures Lines(c, part, a + b) == Lines(c, part, a) + Lines(c, part, b)
  {
    ConcatMapAppend(LineFor(c, part), a, b);
  }

  lemma {:induction false} LinesPrepend(c: Context, part: Option<EncodingPart>, s: Step, es: seq<seq<Step>>)
    ensures Lines(c, part, Prepend(s, es)) == Lines(c, Some(EncodingPart(StepWord(c, s), part)), es)
  {
    if es != [] {
      assert Prepend(s, es)[1..] == Prepend(s, es[1..]);
      assert ([s] + es[0])[1..] == es[0];
      LinesPrepend(c, part, s, es[1..]);
    }
  }

  /** Regrouping a concatenation; carries the writer's loop invariant past one match. */
  lemma AppendShift<T>(done: seq<T>, next: seq<T>, rest: seq<T>, whole: seq<T>)
    requires done + (next + rest) == whole
    ensures (done + next) + rest == whole
  {
  }

  /** The word of a match is the dictionary entry its pattern names. */
  lemma WordOfMatch(c: Context, m: Match, pos: nat)
    requires c.Valid() && c.MatchOk(m, pos)
    ensures c.wordsIndices[m.pattern] <= c.wordsIndices[m.pattern + 1] <= |c.wordsBuf|
    ensures StepWord(c, WordStep(m)) == c.wordsBuf[c.wordsIndices[m.pattern]..c.wordsIndices[m.pattern + 1]]
  {
    assert c.wordsIndices[m.pattern + 1] <= c.wordsIndices[|c.wordsIndices| - 1];
  }

  /** The lines through match `j` of the bucket, then those through the later matches. */
  lemma LinesViaStep(c: Context, pos: nat, part: Option<EncodingPart>, j: nat)
    requires c.Valid() && pos < |c.filtered| && j < |c.buckets[pos]|
    ensures c.MatchOk(c.buckets[pos][j], pos)
    ensures Lines(c, part, EncodingsVia(c, pos, j))
         == Lines(c, Some(EncodingPart(StepWord(c, WordStep(c.buckets[pos][j])), part)), Encodings(c, c.buckets[pos][j].end, true))
            + Lines(c, part, EncodingsVia(c, pos, j + 1))
  {
    var m := c.buckets[pos][j];
    assert c.MatchOk(m, pos);
    LinesPrepend(c, part, WordStep(m), Encodings(c, m.end, true));
    LinesAppend(c, part, Prepend(WordStep(m), Encodings(c, m.end, true)), EncodingsVia(c, pos, j + 1));
  }

  /** At the end of the digits the only encoding is the empty one: one line, for `part`. */
  lemma LinesAtEnd(c: Context, part: Option<EncodingPart>, canSkip: bool)
    requires c.Valid()
    ensures Lines(c, part, Encodings(c, |c.filtered|, canSkip)) == Line(c.origNum, part)
  {
    assert Encodings(c, |c.filtered|, canSkip) == [[]];
    assert Lines(c, part, [[]]) == LineFor(c, part)([]) + Lines(c, part, []);
  }

  /** The lines from `pos`: those through the matches, then those through the raw digit. */
  lemma LinesFrom(c: Context, pos: nat, part: Option<EncodingPart>, canSkip: bool)
    requires c.Valid() && pos < |c.filtered|
    ensures Lines(c, part, Encodings(c, pos, canSkip))
         == Lines(c, part, EncodingsVia(c, pos, 0))
            + if c.buckets[pos] == [] && canSkip
              then Lines(c, Some(EncodingPart(c.filtered[pos..pos + 1], part)), Encodings(c, pos + 1, false))
              else []
  {
    if c.buckets[pos] == [] && canSkip {
      LinesPrepend(c, part, DigitStep(pos), Encodings(c, pos + 1, false));
      LinesAppend(c, part, EncodingsVia(c, pos, 0), Prepend(DigitStep(pos), Encodings(c, pos + 1, false)));
    } else {
      assert Encodings(c, pos, canSkip) == EncodingsVia(c, pos, 0);
    }
  }

  /**
   * The bytes written from `pos` with the chain `part`, defined step by step:
   * the line for `part` at the end of the digits; otherwise the output
   * through each match of the bucket, then through the raw digit.
   */
  ghost function Output(c: Context, pos: nat, part: Option<EncodingPart>, canSkip: bool): seq<byte>
    requires c.Valid() && pos <= |c.filtered|
    decreases |c.filtered| - pos, 1, 0
  {
    if pos == |c.filtered| then Line(c.origNum, part)
    else
      OutputVia(c, pos, part, 0) +
      if c.buckets[pos] == [] && canSkip
      then Output(c, pos + 1, Some(EncodingPart(c.filtered[pos..pos + 1], part)), false)
      else []
  }

  /** The bytes written through the matches `i..` of the bucket of `pos`. */
  ghost function OutputVia(c: Context, pos: nat, part: Option<EncodingPart>, i: nat): seq<byte>
    requires c.Valid() && pos < |c.filtered| && i <= |c.buckets[pos]|
    decreases |c.filtered| - pos, 0, |c.buckets[pos]| - i
  {
    if i == |c.buckets[pos]| then []
    else
      var m := c.buckets[pos][i];
      assert c.MatchOk(m, pos);
      Output(c, m.end, Some(EncodingPart(StepWord(c, WordStep(m)), part)), true) + OutputVia(c, pos, part, i + 1)
  }

  /** What is written is one line per encoding, in the order they are enumerated. */
  lemma {:induction false} OutputIsLines(c: Context, pos: nat, part: Option<EncodingPart>, canSkip: bool)
    requires c.Valid() && pos <= |c.filtered|
    ensures Output(c, pos, part, canSkip) == Lines(c, part, Encodings(c, pos, canSkip))
    decreases |c.filtered| - pos, 1, 0
  {
    if pos == |c.filtered| {
      LinesAtEnd(c, part, canSkip);
    } else {
      OutputViaIsLines(c, pos, part, 0);
      LinesFrom(c, pos, part, canSkip);
      if c.buckets[pos] == [] && canSkip {
        OutputIsLines(c, pos + 1, Some(EncodingPart(c.filtered[pos..pos + 1], part)), false);
      }
    }
  }

  lemma {:induction false} OutputViaIsLines(c: Context, pos: nat, part: Option<EncodingPart>, i: nat)
    requires c.Valid() && pos < |c.filtered| && i <= |c.buckets[pos]|
    ensures OutputVia(c, pos, part, i) == Lines(c, part, EncodingsVia(c, pos, i))
    decreases |c.filtered| - pos, 0, |c.buckets[pos]| - i
  {
    if i < |c.buckets[pos]| {
      var m := c.buckets[pos][i];
      LinesViaStep(c, pos, part, i);
      OutputIsLines(c, m.end, Some(EncodingPart(StepWord(c, WordStep(m)), part)), true);
      OutputViaIsLines(c, pos, part, i + 1);
    }
  }

  /**
   * `write_all_encodings`: at the end of the digits write the line for
   * `part`; otherwise continue with every match starting at `pos`, and with
   * the raw digit when no match starts there and the last step was a word.
   * The writer is modelled as the returned bytes.
   */
  method WriteAllEncodings(c: Context, pos: nat, part: Option<EncodingPart>, canSkip: bool) returns (out: seq<byte>)
    requires c.Valid() && pos <= |c.filtered|
    ensures out == Output(c, pos, part, canSkip)
    decreases |c.filtered| - pos
  {
    if pos == |c.filtered| {
      out := Line(c.origNum, part);
      return;
    }
    out := [];
    var bucket := c.buckets[pos];
    for j := 0 to |bucket|
      invariant out + OutputVia(c, pos, part, j) == OutputVia(c, pos, part, 0)
    {
      var m := bucket[j];
      WordOfMatch(c, m, pos);
      var i := m.pattern;
      var next := EncodingPart(c.wordsBuf[c.wordsIndices[i]..c.wordsIndices[i + 1]], part);
      var sub := WriteAllEncodings(c, m.end, Some(next), true);
      AppendShift(out, sub, OutputVia(c, pos, part, j + 1), OutputVia(c, pos, part, 0));
      out := out + sub;
    }
    if bucket == [] && canSkip {
      var next := EncodingPart(c.filtered[pos..pos + 1], part);
      var sub := WriteAllEncodings(c, pos + 1, Some(next), false);
      out := out + sub;
    }
  }

  lemma PrependMember(s: Step, es: seq<seq<Step>>, e: seq<Step>)
    ensures e in Prepend(s, es) <==> |e| > 0 && e[0] == s && e[1..] in es
  {
    if e in Prepend(s, es) {
      var k :| 0 <= k < |es| && Prepend(s, es)[k] == e;
      assert e[1..] == es[k];
    }
    if |e| > 0 && e[0] == s && e[1..] in es {
      var k :| 0 <= k < |es| && es[k] == e[1..];
      assert Prepend(s, es)[k] == e;
    }
  }

  /** Everything enumerated follows the rules. */
  lemma {:induction false} EncodingsSound(c: Context, pos: nat, canSkip: bool, e: seq<Step>)
    requires c.Valid() && pos <= |c.filtered|
    requires e in Encodings(c, pos, canSkip)
    ensures Admissible(c, e, pos, canSkip)
    decreases |c.filtered| - pos, 1, 0
  {
    if pos < |c.filtered| {
      if e in EncodingsVia(c, pos, 0) {
        EncodingsViaSound(c, pos, 0, canSkip, e);
      } else {
        PrependMember(DigitStep(pos), Encodings(c, pos + 1, false), e);
        EncodingsSound(c, pos + 1, false, e[1..]);
      }
    }
  }

  lemma {:induction false} EncodingsViaSound(c: Context, pos: nat, i: nat, canSkip: bool, e: seq<Step>)
    requires c.Valid() && pos < |c.filtered| && i <= |c.buckets[pos]|
    requires e in EncodingsVia(c, pos, i)
    ensures Admissible(c, e, pos, canSkip)
    decreases |c.filtered| - pos, 0, |c.buckets[pos]| - i
  {
    var m := c.buckets[pos][i];
    assert c.MatchOk(m, pos);
    if e in Prepend(WordStep(m), Encodings(c, m.end, true)) {
      PrependMember(WordStep(m), Encodings(c, m.end, true), e);
      EncodingsSound(c, m.end, true, e[1..]);
    } else {
      EncodingsViaSound(c, pos, i + 1, canSkip, e);
    }
  }

  lemma {:induction false} EncodingsViaComplete(c: Context, pos: nat, i: nat, j: nat, e: seq<Step>)
    requires c.Valid() && pos < |c.filtered| && i <= j < |c.buckets[pos]|
    requires |e| > 0 && e[0] == WordStep(c.buckets[pos][j])
    requires c.MatchOk(c.buckets[pos][j], pos)
    requires e[1..] in Encodings(c, c.buckets[pos][j].end, true)
    ensures e in EncodingsVia(c, pos, i)
    decreases j - i
  {
    var m := c.buckets[pos][i];
    assert c.MatchOk(m, pos);
    if i == j {
      PrependMember(WordStep(m), Encodings(c, m.end, true), e);
    } else {
      EncodingsViaComplete(c, pos, i + 1, j, e);
    }
  }

  /** Everything that follows the rules is enumerated. */
  lemma {:induction false} EncodingsComplete(c: Context, pos: nat, canSkip: bool, e: seq<Step>)
    requires c.Valid() && pos <= |c.filtered|
    requires Admissible(c, e, pos, canSkip)
    ensures e in Encodings(c, pos, canSkip)
    decreases |e|
  {
    if e != [] {
      match e[0]
      case WordStep(m) =>
        var j :| 0 <= j < |c.buckets[pos]| && c.buckets[pos][j] == m;
        assert c.MatchOk(m, pos);
        EncodingsComplete(c, m.end, true, e[1..]);
        EncodingsViaComplete(c, pos, 0, j, e);
      case DigitStep(q) =>
        EncodingsComplete(c, pos + 1, false, e[1..]);
        PrependMember(DigitStep(pos), Encodings(c, pos + 1, false), e);
    }
  }

  /** The enumeration is exactly the set of step sequences that follow the rules. */
  lemma EncodingsExactly(c: Context, pos: nat, canSkip: bool, e: seq<Step>)
    requires c.Valid() && pos <= |c.filtered|
    ensures e in Encodings(c, pos, canSkip) <==> Admissible(c, e, pos, canSkip)
  {
    if e in Encodings(c, pos, canSkip) {
      EncodingsSound(c, pos, canSkip, e);
    }
    if Admissible(c, e, pos, canSkip) {
      EncodingsComplete(c, pos, canSkip, e);
    }
  }

  /** No encoding has two raw digits in a row, and a raw digit stands only where no word starts. */
  lemma {:induction false} NoAdjacentDigits(c: Context, e: seq<Step>, pos: nat, canSkip: bool)
    requires Admissible(c, e, pos, canSkip)
    ensures forall k :: 0 <= k < |e| - 1 ==> !(e[k].DigitStep? && e[k + 1].DigitStep?)
    ensures forall k :: 0 <= k < |e| && e[k].DigitStep? ==> e[k].at < |c.buckets| && c.buckets[e[k].at] == []
    ensures |e| > 0 && !canSkip ==> e[0].WordStep?
  {
    if e != [] {
      match e[0]
      case WordStep(m) =>
        NoAdjacentDigits(c, e[1..], m.end, true);
      case DigitStep(q) =>
        NoAdjacentDigits(c, e[1..], pos + 1, false);
    }
    forall k | 0 <= k < |e| - 1
      ensures !(e[k].DigitStep? && e[k + 1].DigitStep?)
    {
      if k > 0 {
        assert e[k] == e[1..][k - 1] && e[k + 1] == e[1..][k];
      }
    }
    forall k | 0 <= k < |e| && e[k].DigitStep?
      ensures e[k].at < |c.buckets| && c.buckets[e[k].at] == []
    {
      if k > 0 {
        assert e[k] == e[1..][k - 1];
      }
    }
  }

  /** Every match in the bucket of `pos` starts there and names a word. */
  lemma BucketMatchOk(c: Context, pos: nat, m: Match)
    requires c.Valid() && pos < |c.filtered| && m in c.buckets[pos]
    ensures c.MatchOk(m, pos)
  {
    var j :| 0 <= j < |c.buckets[pos]| && c.buckets[pos][j] == m;
  }

  /** A first step covering `pos..next`, followed by steps covering `next..`, covers `pos..`. */
  lemma CoveredStep(c: Context, e: seq<Step>, pos: nat, next: nat)
    requires e != [] && pos <= next <= |c.filtered|
    requires StepDigits(c, e[0]) == c.filtered[pos..next]
    requires CoveredDigits(c, e[1..]) == c.filtered[next..]
    ensures CoveredDigits(c, e) == c.filtered[pos..]
  {
    assert c.filtered[pos..next] + c.filtered[next..] == c.filtered[pos..];
  }

  /** The steps of an encoding cover the digits from `pos` to the end, each exactly once, in order. */
  lemma {:induction false} EncodingTilesDigits(c: Context, e: seq<Step>, pos: nat, canSkip: bool)
    requires c.Valid() && pos <= |c.filtered|
    requires Admissible(c, e, pos, canSkip)
    ensures CoveredDigits(c, e) == c.filtered[pos..]
    decreases |e|
  {
    if e != [] {
      if e[0].WordStep? {
        BucketMatchOk(c, pos, e[0].m);
        EncodingTilesDigits(c, e[1..], e[0].m.end, true);
        CoveredStep(c, e, pos, e[0].m.end);
      } else {
        EncodingTilesDigits(c, e[1..], pos + 1, false);
        CoveredStep(c, e, pos, pos + 1);
      }
    }
  }

  // ---------------------------------------------------------------------------
  // One phone number

  /**
   * The per-number step of the program: filter the digits, bucket the matches
   * the search reports on them, and write every encoding, starting with no
   * part and skipping allowed. `search` stands for the multi-pattern search;
   * its matches lie inside the searched digits and name dictionary words.
   */
  method ProcessNumber(number: seq<byte>, search: seq<byte> -> seq<Match>,
                       wordsBuf: seq<byte>, wordsIndices: seq<nat>,
                       buckets: array<seq<Match>>, filteredBuf: array<byte>)
    returns (out: seq<byte>)
    requires buckets.Length == MAX_NUMBER_LENGTH && filteredBuf.Length == MAX_NUMBER_LENGTH
    requires |Digits(number)| <= MAX_NUMBER_LENGTH
    requires |wordsIndices| >= 1 && IsOffsetTable(wordsIndices, wordsBuf, |wordsIndices| - 1)
    requires forall s: seq<byte>, k :: 0 <= k < |search(s)| ==>
               search(s)[k].start < search(s)[k].end <= |s| && search(s)[k].pattern + 1 < |wordsIndices|
    modifies buckets, filteredBuf
    ensures filteredBuf[..|Digits(number)|] == Digits(number)
    ensures forall p :: 0 <= p < |Digits(number)| ==> buckets[p] == MatchesAt(search(Digits(number)), p)
    ensures var c := Context(number, Digits(number), buckets[..], wordsBuf, wordsIndices);
            c.Valid() && out == Lines(c, None, Encodings(c, 0, true))
  {
    var len := FilterDigits(number, filteredBuf);
    var filtered := filteredBuf[..len];
    var found := search(filtered);
    BucketMatches(buckets, len, found);
    var c := Context(number, filtered, buckets[..], wordsBuf, wordsIndices);
    forall p, j | 0 <= p < |c.filtered| && 0 <= j < |c.buckets[p]|
      ensures c.MatchOk(c.buckets[p][j], p)
    {
      var m := c.buckets[p][j];
      assert m in MatchesAt(found, p);
      MatchesAtMember(found, p, m);
    }
    out := WriteAllEncodings(c, 0, None, true);
    OutputIsLines(c, 0, None, true);
  }
}
