/** parse_string_list of book_viz_utils.py: the list-cell parser that the
    older dashboard imports. It is written separately from
    parse_string_into_list, and agrees with it on every string. */
module BookVizUtils {
  import opened PyStr
  import opened BookClubVizUtils

  /** Python's s[start:-fromEnd] for start >= 0 and fromEnd >= 1: both bounds
      are clamped to the string, and a start past the stop gives "". */
  function SliceToEnd(s: string, start: nat, fromEnd: nat): (r: string)
    ensures |r| == if start + fromEnd <= |s| then |s| - start - fromEnd else 0
    ensures forall i | 0 <= i < |r| :: r[i] == s[start + i]
  {
    var stop := if fromEnd <= |s| then |s| - fromEnd else 0;
    var first := if start <= |s| then start else |s|;
    if first >= stop then "" else s[first..stop]
  }

  /** The pieces of the inner text, before trimming. */
  function Pieces(s: string): (r: seq<string>)
    ensures |r| >= 1
  {
    Split(SliceToEnd(s, 1, 1), Sep)
  }

  /** parse_string_list: slice off the first and last character, split on ", "
      and strip each piece. One item per piece, each without surrounding
      whitespace and without the separator. */
  function ParseStringList(s: string): (r: seq<string>)
    ensures |r| == |Pieces(s)| && |r| >= 1
    ensures forall i | 0 <= i < |r| :: r[i] == Strip(Pieces(s)[i])
    ensures forall i | 0 <= i < |r| :: IsStripped(r[i]) && !Contains(r[i], Sep)
  {
    var pieces := Split(SliceToEnd(s, 1, 1), Sep);
    SplitPiecesFree(SliceToEnd(s, 1, 1), Sep);
    StripAllFree(pieces, Sep);
    StripAll(pieces)
  }

  /** The slice s[1:-1] is the inner text. */
  lemma SliceIsInner(s: string)
    ensures SliceToEnd(s, 1, 1) == InnerText(s)
  {
    var a, b := SliceToEnd(s, 1, 1), InnerText(s);
    assert |a| == |b|;
    forall i | 0 <= i < |a| ensures a[i] == b[i] {
      assert b == s[1..|s| - 1];
    }
  }

  /** The two parsers return the same list on every string. */
  lemma ParsersAgree(s: string)
    ensures ParseStringList(s) == ParseStringIntoList(s)
  {
    SliceIsInner(s);
  }

  /** The docstring's example. */
  lemma ParseListExample()
    ensures ParseStringList("[a, b, c]") == ["a", "b", "c"]
  {
    ParsersAgree("[a, b, c]");
    ParseExample();
  }

  /** A string of fewer than two characters has an empty inner text, which is one empty item. */
  lemma ParseListShort(s: string)
    requires |s| <= 1
    ensures ParseStringList(s) == [""]
  {
    assert SliceToEnd(s, 1, 1) == "";
    assert Strip("") == "";
  }

  /** The untrimmed pieces joined with ", " are the inner text again; the
      trimmed items are, exactly when no piece had surrounding whitespace. */
  lemma PiecesRejoin(s: string)
    ensures Join(Pieces(s), Sep) == SliceToEnd(s, 1, 1)
    ensures Join(ParseStringList(s), Sep) == SliceToEnd(s, 1, 1) <==>
      forall i | 0 <= i < |Pieces(s)| :: IsStripped(Pieces(s)[i])
  {
    JoinSplit(SliceToEnd(s, 1, 1), Sep);
    JoinStrippedIff(Pieces(s), Sep);
    assert ParseStringList(s) == StripAll(Pieces(s));
  }
}
