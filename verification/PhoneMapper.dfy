/**
 * phone_numbers/src/mapper.rs: a 256-entry table from byte to ASCII digit,
 * built from one list of (lower-case) letters per digit, and the mapping of
 * a dictionary word to its digit string.
 */
module PhoneMapper {
  import opened Common

  /** Number of digits (`DIGITS`). */
  const DIGITS: nat := 10

  const ZERO_CHAR: byte := 48

  /** `digit_to_ascii`: `b'0' + digit`. */
  function DigitToAscii(digit: nat): (c: byte)
    requires digit < DIGITS
    ensures ZERO_CHAR <= c <= ZERO_CHAR + 9 && c - ZERO_CHAR == digit
  {
    digit + ZERO_CHAR
  }

  /** `u8::to_ascii_uppercase`: maps 'a'..'z' to 'A'..'Z', leaves every other byte alone. */
  function ToAsciiUppercase(c: byte): (u: byte)
    ensures 97 <= c <= 122 ==> 65 <= u <= 90 && u == c - 32
    ensures !(97 <= c <= 122) ==> u == c
  {
    if 97 <= c <= 122 then c - 32 else c
  }

  predicate IsAsciiUppercase(c: byte) {
    65 <= c <= 90
  }

  /** `c` is written by the entry for one listed byte: the byte itself or its upper case. */
  predicate ListedUnder(list: seq<byte>, c: byte) {
    exists k :: 0 <= k < |list| && (list[k] == c || ToAsciiUppercase(list[k]) == c)
  }

  /**
   * The table entry for `c` after the digits `0 .. upTo` are processed: the
   * digit character of the LAST of those digits whose list writes `c`, or 0.
   */
  function ExpectedEntry(lists: seq<seq<byte>>, c: byte, upTo: nat): (e: byte)
    requires upTo <= |lists| <= DIGITS
  {
    if upTo == 0 then 0
    else if ListedUnder(lists[upTo - 1], c) then DigitToAscii(upTo - 1)
    else ExpectedEntry(lists, c, upTo - 1)
  }

  /** A mapper: the byte-to-digit table and the bytes that are skipped. */
  datatype Mapper = Mapper(charToDigit: seq<byte>, ignoredChars: seq<byte>) {
    ghost predicate Valid() {
      |charToDigit| == 256
    }
  }

  /**
   * `WordToNumberMapper::new`: for each digit in order, and each byte listed
   * for it, store the digit character under the byte and under its upper case.
   */
  method NewMapper(lowercaseDigitChars: seq<seq<byte>>, ignoredChars: seq<byte>) returns (m: Mapper)
    requires |lowercaseDigitChars| == DIGITS
    ensures m.Valid() && m.ignoredChars == ignoredChars
    ensures forall c: byte :: m.charToDigit[c] == ExpectedEntry(lowercaseDigitChars, c, DIGITS)
  {
    var table := new byte[256](_ => 0);
    for digit := 0 to DIGITS
      invariant forall c: byte :: table[c] == ExpectedEntry(lowercaseDigitChars, c, digit)
    {
      var digitChar := DigitToAscii(digit);
      var list := lowercaseDigitChars[digit];
      for k := 0 to |list|
        invariant forall c: byte :: table[c] == if ListedUnder(list[..k], c) then digitChar
                                             else ExpectedEntry(lowercaseDigitChars, c, digit)
      {
        var ch := list[k];
        table[ch] := digitChar;
        table[ToAsciiUppercase(ch)] := digitChar;
        forall c: byte
          ensures ListedUnder(list[..k + 1], c) <==> ListedUnder(list[..k], c) || ch == c || ToAsciiUppercase(ch) == c
        {
          if ListedUnder(list[..k + 1], c) {
            var j :| 0 <= j < k + 1 && (list[..k + 1][j] == c || ToAsciiUppercase(list[..k + 1][j]) == c);
            if j < k {
              assert list[..k][j] == list[..k + 1][j];
            }
          }
          if ListedUnder(list[..k], c) {
            var j :| 0 <= j < k && (list[..k][j] == c || ToAsciiUppercase(list[..k][j]) == c);
            assert list[..k + 1][j] == list[..k][j];
          }
          if ch == c || ToAsciiUppercase(ch) == c {
            assert list[..k + 1][k] == ch;
          }
        }
      }
      assert list[..|list|] == list;
    }
    m := Mapper(table[..], ignoredChars);
  }

  // ---------------------------------------------------------------------------
  // word_to_number

  /** `word_to_number`: drop the ignored bytes, map the rest through the table, in order. */
  function WordToNumber(m: Mapper, word: seq<byte>): (r: seq<byte>)
    requires m.Valid()
    ensures |r| <= |word|
    ensures forall k :: 0 <= k < |r| ==> r[k] in m.charToDigit
  {
    if word == [] then []
    else if word[0] in m.ignoredChars then WordToNumber(m, word[1..])
    else [m.charToDigit[word[0]]] + WordToNumber(m, word[1..])
  }

  /** Number of bytes of `word` that are not ignored. */
  function CountKept(ignored: seq<byte>, word: seq<byte>): nat {
    if word == [] then 0 else (if word[0] in ignored then 0 else 1) + CountKept(ignored, word[1..])
  }

  /** One output digit per byte that is not ignored. */
  lemma {:induction false} WordToNumberLength(m: Mapper, word: seq<byte>)
    requires m.Valid()
    ensures |WordToNumber(m, word)| == CountKept(m.ignoredChars, word)
  {
    if word != [] {
      WordToNumberLength(m, word[1..]);
    }
  }

  /** The mapping works byte by byte: it distributes over concatenation. */
  lemma {:induction false} WordToNumberAppend(m: Mapper, u: seq<byte>, v: seq<byte>)
    requires m.Valid()
    ensures WordToNumber(m, u + v) == WordToNumber(m, u) + WordToNumber(m, v)
  {
    if u == [] {
      assert u + v == v;
    } else {
      assert (u + v)[1..] == u[1..] + v;
      WordToNumberAppend(m, u[1..], v);
    }
  }

  /** Ignored bytes contribute nothing. */
  lemma {:induction false} IgnoredContributeNothing(m: Mapper, word: seq<byte>)
    requires m.Valid()
    requires forall i :: 0 <= i < |word| ==> word[i] in m.ignoredChars
    ensures WordToNumber(m, word) == []
  {
    if word != [] {
      IgnoredContributeNothing(m, word[1..]);
    }
  }

  /** Bytes never listed for any digit map to 0. */
  lemma {:induction false} UnlistedMapsToZero(lists: seq<seq<byte>>, c: byte, upTo: nat)
    requires upTo <= |lists| <= DIGITS
    requires forall d :: 0 <= d < upTo ==> !ListedUnder(lists[d], c)
    ensures ExpectedEntry(lists, c, upTo) == 0
  {
    if upTo > 0 {
      UnlistedMapsToZero(lists, c, upTo - 1);
    }
  }

  /**
   * A byte listed for digit `d` maps to `'0' + d`, and so does its upper
   * case, unless a later digit also lists it: the later digit wins.
   */
  lemma {:induction false} ListedMapsToDigit(lists: seq<seq<byte>>, c: byte, d: nat, upTo: nat)
    requires d < upTo <= |lists| <= DIGITS
    requires ListedUnder(lists[d], c)
    requires forall e :: d < e < upTo ==> !ListedUnder(lists[e], c)
    ensures ExpectedEntry(lists, c, upTo) == DigitToAscii(d)
  {
    if upTo - 1 != d {
      ListedMapsToDigit(lists, c, d, upTo - 1);
    }
  }

  /** Listing a byte also lists its upper case. */
  lemma ListedUpper(list: seq<byte>, c: byte)
    requires ListedUnder(list, c)
    requires !IsAsciiUppercase(c)
    ensures ListedUnder(list, ToAsciiUppercase(c))
  {
    var k :| 0 <= k < |list| && (list[k] == c || ToAsciiUppercase(list[k]) == c);
    assert ToAsciiUppercase(list[k]) == ToAsciiUppercase(c);
  }

  /** With lists free of upper-case letters, a lower-case letter and its upper case are written together. */
  lemma ListedCaseInsensitive(list: seq<byte>, c: byte)
    requires forall k :: 0 <= k < |list| ==> !IsAsciiUppercase(list[k])
    requires 97 <= c <= 122
    ensures ListedUnder(list, c) <==> ListedUnder(list, ToAsciiUppercase(c))
  {
    if ListedUnder(list, c) {
      ListedUpper(list, c);
    }
    if ListedUnder(list, ToAsciiUppercase(c)) {
      var k :| 0 <= k < |list| && (list[k] == ToAsciiUppercase(c) || ToAsciiUppercase(list[k]) == ToAsciiUppercase(c));
      assert list[k] == c;
    }
  }

  /**
   * When no list holds an upper-case letter, every lower-case letter and its
   * upper case get the same table entry: the mapping ignores case.
   */
  lemma {:induction false} CaseInsensitiveEntry(lists: seq<seq<byte>>, c: byte, upTo: nat)
    requires upTo <= |lists| <= DIGITS
    requires forall d, k :: 0 <= d < |lists| && 0 <= k < |lists[d]| ==> !IsAsciiUppercase(lists[d][k])
    requires 97 <= c <= 122
    ensures ExpectedEntry(lists, c, upTo) == ExpectedEntry(lists, ToAsciiUppercase(c), upTo)
  {
    if upTo > 0 {
      ListedCaseInsensitive(lists[upTo - 1], c);
      CaseInsensitiveEntry(lists, c, upTo - 1);
    }
  }

  /** The lists the program passes: e, jnq, rwx, dsy, ft, am, civ, bku, lop, ghz. */
  function ProgramLists(): seq<seq<byte>> {
    [[101], [106, 110, 113], [114, 119, 120], [100, 115, 121], [102, 116],
     [97, 109], [99, 105, 118], [98, 107, 117], [108, 111, 112], [103, 104, 122]]
  }

  /** With the program's lists, 'a' and 'A' both map to '5' (the letters of digit 5 are "am"). */
  lemma ProgramTableSample()
    ensures ExpectedEntry(ProgramLists(), 97, DIGITS) == 53
    ensures ExpectedEntry(ProgramLists(), 65, DIGITS) == 53
  {
    var lists := ProgramLists();
    assert ListedUnder(lists[5], 97) by { assert lists[5][0] == 97; }
    assert ListedUnder(lists[5], 65) by { assert ToAsciiUppercase(lists[5][0]) == 65; }
    forall e | 5 < e < DIGITS
      ensures !ListedUnder(lists[e], 97) && !ListedUnder(lists[e], 65)
    {
    }
    ListedMapsToDigit(lists, 97, 5, DIGITS);
    ListedMapsToDigit(lists, 65, 5, DIGITS);
  }
}
