/**
 * fizz-buzz/src/lib.rs: an ordered list of matchers (a predicate on the
 * element and a word) rewrites every element of a sequence. Elements are
 * modelled as `int`.
 */
module FizzBuzz {

  /** `Matcher`: when `accepts` holds of an element, it contributes `substituteWith`. */
  datatype Matcher = Matcher(accepts: int -> bool, substituteWith: string)

  // ---------------------------------------------------------------------------
  // Decimal rendering (`ToString` on integers) and its inverse

  function DigitChar(d: int): (c: char)
    requires 0 <= d < 10
    ensures '0' <= c <= '9'
  {
    ('0' as int + d) as char
  }

  function DigitValue(c: char): int {
    c as int - '0' as int
  }

  /** Decimal digits of `n`, most significant first, without leading zeros. */
  function NatToString(n: nat): (s: string)
    ensures |s| > 0
    ensures forall i :: 0 <= i < |s| ==> '0' <= s[i] <= '9'
    ensures s[0] == '0' ==> n == 0
  {
    if n < 10 then [DigitChar(n)] else NatToString(n / 10) + [DigitChar(n % 10)]
  }

  /** `elem.to_string()`: an optional minus sign followed by the digits of the magnitude. */
  function IntToString(x: int): (s: string)
    ensures |s| > 0 && (s[0] == '-' <==> x < 0)
    ensures forall i :: (if x < 0 then 1 else 0) <= i < |s| ==> '0' <= s[i] <= '9'
  {
    if x < 0 then "-" + NatToString(-x) else NatToString(x)
  }

  function ParseNat(s: string): int {
    if s == [] then 0 else ParseNat(s[..|s| - 1]) * 10 + DigitValue(s[|s| - 1])
  }

  function ParseInt(s: string): int {
    if |s| > 0 && s[0] == '-' then -ParseNat(s[1..]) else ParseNat(s)
  }

  lemma {:induction false} ParseNatToString(n: nat)
    ensures ParseNat(NatToString(n)) == n
  {
    if n >= 10 {
      var s := NatToString(n / 10);
      ParseNatToString(n / 10);
      assert (s + [DigitChar(n % 10)])[..|s|] == s;
    }
  }

  /** Decimal rendering loses nothing: the string reads back as the number. */
  lemma IntToStringRoundTrip(x: int)
    ensures ParseInt(IntToString(x)) == x
  {
    if x < 0 {
      ParseNatToString(-x);
      assert IntToString(x)[1..] == NatToString(-x);
    } else {
      ParseNatToString(x);
    }
  }

  // ---------------------------------------------------------------------------
  // Applying matchers

  /** The words of the matchers that accept `elem`, in matcher order. */
  function Replacements(ms: seq<Matcher>, elem: int): (r: seq<string>)
    ensures |r| <= |ms|
    ensures r == [] <==> forall i :: 0 <= i < |ms| ==> !ms[i].accepts(elem)
  {
    if ms == [] then []
    else (if ms[0].accepts(elem) then [ms[0].substituteWith] else []) + Replacements(ms[1..], elem)
  }

  /** `join("")` */
  function Concat(ws: seq<string>): (r: string)
    ensures ws == [] ==> r == []
    ensures |ws| == 1 ==> r == ws[0]
    ensures ws != [] ==> ws[0] <= r
  {
    if ws == [] then [] else ws[0] + Concat(ws[1..])
  }

  /** The string one element becomes. */
  function Render(ms: seq<Matcher>, elem: int): (r: string)
    ensures (forall i :: 0 <= i < |ms| ==> !ms[i].accepts(elem)) ==> r == IntToString(elem)
    ensures (exists i :: 0 <= i < |ms| && ms[i].accepts(elem)) ==> r == Concat(Replacements(ms, elem))
  {
    var reps := Replacements(ms, elem);
    if reps == [] then IntToString(elem) else Concat(reps)
  }

  /** The `map` inside `apply`: every element is rendered on its own, in order. */
  function ApplyAll(ms: seq<Matcher>, elems: seq<int>): (r: seq<string>)
    ensures |r| == |elems|
    ensures forall i :: 0 <= i < |elems| ==> r[i] == Render(ms, elems[i])
  {
    seq(|elems|, i requires 0 <= i < |elems| => Render(ms, elems[i]))
  }

  /** An element no matcher accepts is written as its decimal string. */
  lemma NoMatchRendersNumber(ms: seq<Matcher>, elem: int)
    requires forall i :: 0 <= i < |ms| ==> !ms[i].accepts(elem)
    ensures Render(ms, elem) == IntToString(elem)
    ensures ParseInt(Render(ms, elem)) == elem
  {
    IntToStringRoundTrip(elem);
  }

  /** Appending a matcher appends its word, after all earlier ones, when it accepts. */
  lemma {:induction false} ReplacementsAppend(ms: seq<Matcher>, m: Matcher, elem: int)
    ensures Replacements(ms + [m], elem)
         == Replacements(ms, elem) + (if m.accepts(elem) then [m.substituteWith] else [])
  {
    if ms != [] {
      ReplacementsAppend(ms[1..], m, elem);
      assert (ms + [m])[1..] == ms[1..] + [m];
    }
  }

  lemma {:induction false} ConcatAppend(ws: seq<string>, w: string)
    ensures Concat(ws + [w]) == Concat(ws) + w
  {
    if ws != [] {
      ConcatAppend(ws[1..], w);
      assert (ws + [w])[1..] == ws[1..] + [w];
    }
  }

  /**
   * Rendering with one more matcher: an accepting new matcher's word goes
   * last, after the words of the earlier matchers (or replaces the number if
   * none of them accepted); a rejecting one changes nothing.
   */
  lemma RenderAppend(ms: seq<Matcher>, m: Matcher, elem: int)
    ensures Render(ms + [m], elem)
         == if !m.accepts(elem) then Render(ms, elem)
            else if Replacements(ms, elem) == [] then m.substituteWith
            else Render(ms, elem) + m.substituteWith
  {
    var reps := Replacements(ms, elem);
    ReplacementsAppend(ms, m, elem);
    if m.accepts(elem) {
      ConcatAppend(reps, m.substituteWith);
      if reps == [] {
        assert reps + [m.substituteWith] == [m.substituteWith];
        assert Concat([m.substituteWith]) == m.substituteWith + Concat([]);
      }
    } else {
      assert reps + [] == reps;
    }
  }

  /** Applying to a concatenation is the concatenation of the applications. */
  lemma ApplyAllAppend(ms: seq<Matcher>, u: seq<int>, v: seq<int>)
    ensures ApplyAll(ms, u + v) == ApplyAll(ms, u) + ApplyAll(ms, v)
  {
  }

  // ---------------------------------------------------------------------------
  // The stateful builder

  /** `Fizzy`: the list of matchers, grown one at a time. */
  class Fizzy {
    var matchers: seq<Matcher>

    /** `Fizzy::new`: no matchers. */
    constructor ()
      ensures matchers == []
    {
      matchers := [];
    }

    /** `add_matcher`: pushes onto the end; earlier matchers keep their places. */
    method AddMatcher(m: Matcher)
      modifies this
      ensures matchers == old(matchers) + [m]
    {
      matchers := matchers + [m];
    }

    /** `apply`: every element rendered on its own, in input order. */
    function Apply(elems: seq<int>): (r: seq<string>)
      reads this
      ensures |r| == |elems|
      ensures forall i :: 0 <= i < |elems| ==> r[i] == Render(matchers, elems[i])
    {
      ApplyAll(matchers, elems)
    }
  }

  /** With no matchers every element is its decimal string. */
  lemma NoMatchersRendersNumbers(elems: seq<int>)
    ensures forall i :: 0 <= i < |elems| ==> ApplyAll([], elems)[i] == IntToString(elems[i])
  {
  }

  // ---------------------------------------------------------------------------
  // The standard rules

  predicate IsFizz(x: int) { x % 3 == 0 }
  predicate IsBuzz(x: int) { x % 5 == 0 }

  function StandardMatchers(): seq<Matcher> {
    [Matcher(IsFizz, "fizz"), Matcher(IsBuzz, "buzz")]
  }

  /** `fizz_buzz`: a fresh `Fizzy` with the "fizz" rule then the "buzz" rule. */
  method FizzBuzzRules() returns (f: Fizzy)
    ensures fresh(f) && f.matchers == StandardMatchers()
  {
    f := new Fizzy();
    f.AddMatcher(Matcher(IsFizz, "fizz"));
    f.AddMatcher(Matcher(IsBuzz, "buzz"));
  }

  /** Two matchers: each contributes its word when it accepts, first one first. */
  lemma ReplacementsPair(m1: Matcher, m2: Matcher, x: int)
    ensures Replacements([m1, m2], x)
         == (if m1.accepts(x) then [m1.substituteWith] else [])
          + (if m2.accepts(x) then [m2.substituteWith] else [])
  {
    assert [m1, m2][1..] == [m2];
    assert [m2][1..] == [];
  }

  /**
   * The standard rules on any integer (a remainder of zero means the same
   * under Rust's truncating `%` and Dafny's Euclidean `%`).
   */
  lemma StandardRender(x: int)
    ensures Render(StandardMatchers(), x)
         == if x % 3 == 0 && x % 5 == 0 then "fizzbuzz"
            else if x % 3 == 0 then "fizz"
            else if x % 5 == 0 then "buzz"
            else IntToString(x)
  {
    var reps := Replacements(StandardMatchers(), x);
    ReplacementsPair(Matcher(IsFizz, "fizz"), Matcher(IsBuzz, "buzz"), x);
    if x % 3 == 0 && x % 5 == 0 {
      assert reps == ["fizz", "buzz"];
      assert Concat(["buzz"]) == "buzz" + Concat([]);
      assert Concat(["fizz", "buzz"]) == "fizz" + Concat(["buzz"]);
      assert "fizz" + "buzz" == "fizzbuzz";
    } else if x % 3 == 0 {
      assert reps == ["fizz"];
      assert Concat(["fizz"]) == "fizz" + Concat([]);
    } else if x % 5 == 0 {
      assert reps == ["buzz"];
      assert Concat(["buzz"]) == "buzz" + Concat([]);
    } else {
      assert reps == [];
    }
  }

  /**
   * Values from the crate's `test_simple` (on `1..=16`) and
   * `test_nonsequential` (on the Collatz sequence from 12).
   */
  lemma StandardSamples()
    ensures Render(StandardMatchers(), 15) == "fizzbuzz"
    ensures Render(StandardMatchers(), 12) == "fizz"
    ensures Render(StandardMatchers(), 10) == "buzz"
    ensures Render(StandardMatchers(), 16) == "16"
  {
    assert 15 % 3 == 0 && 15 % 5 == 0;
    StandardRender(15);
    assert 12 % 3 == 0 && 12 % 5 != 0;
    StandardRender(12);
    assert 10 % 3 != 0 && 10 % 5 == 0;
    StandardRender(10);
    assert 16 % 3 != 0 && 16 % 5 != 0;
    StandardRender(16);
    assert NatToString(16) == NatToString(1) + [DigitChar(6)];
  }

  predicate IsBam(x: int) { x % 7 == 0 }

  /** The matchers of the crate's `test_custom`: "Buzz", then "Fizz", then "Bam". */
  function CustomMatchers(): seq<Matcher> {
    [Matcher(IsBuzz, "Buzz"), Matcher(IsFizz, "Fizz"), Matcher(IsBam, "Bam")]
  }

  /** Under the custom rules a multiple of 15 that is not a multiple of 7 is "BuzzFizz": matcher order, not rule names. */
  lemma CustomBuzzFizz(x: int)
    requires x % 15 == 0 && x % 7 != 0
    ensures Render(CustomMatchers(), x) == "BuzzFizz"
  {
    var buzz, fizz, bam := Matcher(IsBuzz, "Buzz"), Matcher(IsFizz, "Fizz"), Matcher(IsBam, "Bam");
    assert CustomMatchers() == [buzz, fizz] + [bam];
    assert [buzz, fizz] == [buzz] + [fizz];
    assert x % 5 == 0 && x % 3 == 0;
    assert Replacements([buzz], x) == ["Buzz"] by { assert [buzz][1..] == []; }
    RenderAppend([buzz], fizz, x);
    RenderAppend([buzz, fizz], bam, x);
  }

  /** Under the custom rules a multiple of 7 and of neither 3 nor 5 is "Bam". */
  lemma CustomBam(x: int)
    requires x % 7 == 0 && x % 3 != 0 && x % 5 != 0
    ensures Render(CustomMatchers(), x) == "Bam"
  {
    var buzz, fizz, bam := Matcher(IsBuzz, "Buzz"), Matcher(IsFizz, "Fizz"), Matcher(IsBam, "Bam");
    assert CustomMatchers() == [buzz, fizz] + [bam];
    ReplacementsPair(buzz, fizz, x);
    RenderAppend([buzz, fizz], bam, x);
  }

  /** The crate's `test_custom`: 15 is "BuzzFizz", 7 is "Bam". */
  lemma CustomOrder()
    ensures Render(CustomMatchers(), 15) == "BuzzFizz"
    ensures Render(CustomMatchers(), 7) == "Bam"
  {
    CustomBuzzFizz(15);
    CustomBam(7);
  }
}
