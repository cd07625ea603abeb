/**
 * phone_numbers/src/encoding_part.rs: an encoding under construction is a
 * chain of words, each part pointing back to the part before it; writing
 * the newest part writes the whole chain, oldest word first, separated by
 * single spaces. The writer is modelled as the returned bytes.
 */
module EncodingParts {
  import opened Common

  const SPACE: byte := 32

  datatype EncodingPart = EncodingPart(word: seq<byte>, prev: Option<EncodingPart>)

  /** `EncodingPart::write_into`: the previous parts, a space, then this word. */
  function WriteInto(part: EncodingPart): (out: seq<byte>)
    ensures part.prev.None? ==> out == part.word
    ensures |part.word| <= |out| && out[|out| - |part.word|..] == part.word
  {
    match part.prev
    case None => part.word
    case Some(p) => WriteInto(p) + [SPACE] + part.word
  }

  /** The words of a chain, oldest first. */
  function Words(part: EncodingPart): (ws: seq<seq<byte>>)
    ensures |ws| >= 1 && ws[|ws| - 1] == part.word
  {
    match part.prev
    case None => [part.word]
    case Some(p) => Words(p) + [part.word]
  }

  /** Reference definition: the words separated by single spaces. */
  function Join(ws: seq<seq<byte>>): seq<byte>
    requires |ws| >= 1
  {
    if |ws| == 1 then ws[0] else ws[0] + [SPACE] + Join(ws[1..])
  }

  /** Total length of the words. */
  function SumLengths(ws: seq<seq<byte>>): nat {
    if ws == [] then 0 else |ws[0]| + SumLengths(ws[1..])
  }

  /** Split at every space (so adjacent spaces give an empty word). */
  function Split(s: seq<byte>): (ws: seq<seq<byte>>)
    ensures |ws| >= 1
  {
    if s == [] then [[]]
    else if s[0] == SPACE then [[]] + Split(s[1..])
    else
      var rest := Split(s[1..]);
      [[s[0]] + rest[0]] + rest[1..]
  }

  predicate SpaceFree(w: seq<byte>) {
    forall k :: 0 <= k < |w| ==> w[k] != SPACE
  }

  lemma {:induction false} JoinSnoc(ws: seq<seq<byte>>, w: seq<byte>)
    requires |ws| >= 1
    ensures Join(ws + [w]) == Join(ws) + [SPACE] + w
  {
    if |ws| == 1 {
      assert ws + [w] == [ws[0], w];
    } else {
      assert (ws + [w])[1..] == ws[1..] + [w];
      JoinSnoc(ws[1..], w);
    }
  }

  /** Writing a chain is joining its words, oldest first, with single spaces. */
  lemma {:induction false} WriteIntoIsJoin(part: EncodingPart)
    ensures WriteInto(part) == Join(Words(part))
  {
    match part.prev
    case None =>
    case Some(p) =>
      WriteIntoIsJoin(p);
      JoinSnoc(Words(p), part.word);
  }

  lemma {:induction false} SumLengthsSnoc(ws: seq<seq<byte>>, w: seq<byte>)
    ensures SumLengths(ws + [w]) == SumLengths(ws) + |w|
  {
    if ws != [] {
      assert (ws + [w])[1..] == ws[1..] + [w];
      SumLengthsSnoc(ws[1..], w);
    } else {
      assert ws + [w] == [w];
    }
  }

  /** The output is the words plus one space between each consecutive pair. */
  lemma {:induction false} WriteIntoLength(part: EncodingPart)
    ensures |WriteInto(part)| == SumLengths(Words(part)) + |Words(part)| - 1
  {
    match part.prev
    case None =>
      assert Words(part)[1..] == [];
    case Some(p) =>
      WriteIntoLength(p);
      SumLengthsSnoc(Words(p), part.word);
  }

  lemma {:induction false} SplitSpaceFreePrefix(w: seq<byte>, t: seq<byte>)
    requires SpaceFree(w)
    ensures Split(w + t) == [w + Split(t)[0]] + Split(t)[1..]
  {
    if w != [] {
      assert (w + t)[0] == w[0];
      assert (w + t)[1..] == w[1..] + t;
      SplitSpaceFreePrefix(w[1..], t);
      assert [w[0]] + (w[1..] + Split(t)[0]) == w + Split(t)[0];
    } else {
      assert w + t == t;
      assert w + Split(t)[0] == Split(t)[0];
      assert Split(t) == [Split(t)[0]] + Split(t)[1..];
    }
  }

  /**
   * Splitting a joined list of space-free words at spaces recovers the list:
   * there is exactly one space between consecutive words, and none before the
   * first or after the last.
   */
  lemma {:induction false} SplitJoin(ws: seq<seq<byte>>)
    requires |ws| >= 1
    requires forall i :: 0 <= i < |ws| ==> SpaceFree(ws[i])
    ensures Split(Join(ws)) == ws
  {
    if |ws| == 1 {
      SplitSpaceFreePrefix(ws[0], []);
      assert ws[0] + [] == ws[0];
      assert ws == [ws[0]];
    } else {
      var tail := [SPACE] + Join(ws[1..]);
      assert ws[0] + [SPACE] + Join(ws[1..]) == ws[0] + tail;
      SplitSpaceFreePrefix(ws[0], tail);
      assert tail[0] == SPACE && tail[1..] == Join(ws[1..]);
      SplitJoin(ws[1..]);
      assert Split(tail) == [[]] + ws[1..];
      assert ws[0] + [] == ws[0];
      assert ws == [ws[0]] + ws[1..];
    }
  }

  /** A chain of space-free words can be read back from what it writes. */
  lemma WriteIntoSplits(part: EncodingPart)
    requires forall i :: 0 <= i < |Words(part)| ==> SpaceFree(Words(part)[i])
    ensures Split(WriteInto(part)) == Words(part)
  {
    WriteIntoIsJoin(part);
    SplitJoin(Words(part));
  }

  /** Two-word example: "mir" then "Tor" is written "mir Tor". */
  lemma TwoPartsSample()
    ensures WriteInto(EncodingPart([84, 111, 114], Some(EncodingPart([109, 105, 114], None))))
         == [109, 105, 114, 32, 84, 111, 114]
  {
  }
}
