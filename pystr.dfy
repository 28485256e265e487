/** The pieces of Python's str that the dashboard code relies on: slicing,
    str.split with a literal separator, str.join, str.strip(), str(n) for a
    non-negative int and int(s) on a decimal string. */
module PyStr {
  import opened Wrappers

  /** The separator that list cells use between their items. */
  const Sep: string := ", "

  // ------------------------------------------------------------------
  // Slicing

  /** Python's s[1:-1]: drop the first and the last character; a string
      shorter than two characters gives the empty string. */
  function InnerText(s: string): (r: string)
    ensures |s| < 2 ==> r == ""
    ensures |s| >= 2 ==> |r| == |s| - 2 && s == [s[0]] + r + [s[|s| - 1]]
  {
    if |s| < 2 then "" else s[1..|s| - 1]
  }

  /** Python's s[:n] for n >= 0. */
  function Prefix(s: string, n: nat): (r: string)
    ensures |r| == if n <= |s| then n else |s|
    ensures r == s[..|r|]
  {
    if n <= |s| then s[..n] else s
  }

  // ------------------------------------------------------------------
  // Whitespace and str.strip()

  /** The characters for which Python's str.isspace() holds. */
  predicate IsSpace(c: char) {
    || c == ' ' || c == '\t' || c == '\n' || c == '\r'
    || c == '\U{000B}' || c == '\U{000C}'
    || ('\U{001C}' <= c <= '\U{001F}')
    || c == '\U{0085}' || c == '\U{00A0}' || c == '\U{1680}'
    || ('\U{2000}' <= c <= '\U{200A}')
    || c == '\U{2028}' || c == '\U{2029}' || c == '\U{202F}' || c == '\U{205F}' || c == '\U{3000}'
  }

  /** No leading and no trailing whitespace. */
  predicate IsStripped(s: string) {
    |s| == 0 || (!IsSpace(s[0]) && !IsSpace(s[|s| - 1]))
  }

  /** r stands in s at position i. */
  predicate InfixAt(r: string, s: string, i: int) {
    0 <= i && i + |r| <= |s| && s[i..i + |r|] == r
  }

  /** s is r with whitespace only before position i and after r. */
  predicate PaddedAt(s: string, r: string, i: int) {
    && InfixAt(r, s, i)
    && (forall k | 0 <= k < i :: IsSpace(s[k]))
    && (forall k | i + |r| <= k < |s| :: IsSpace(s[k]))
  }

  function StripLeft(s: string): (r: string)
    ensures |r| <= |s| && r == s[|s| - |r|..]
    ensures r == [] || !IsSpace(r[0])
    ensures forall k | 0 <= k < |s| - |r| :: IsSpace(s[k])
  {
    if |s| > 0 && IsSpace(s[0]) then StripLeft(s[1..]) else s
  }

  function StripRight(s: string): (r: string)
    ensures |r| <= |s| && r == s[..|r|]
    ensures r == [] || !IsSpace(r[|r| - 1])
    ensures forall k | |r| <= k < |s| :: IsSpace(s[k])
  {
    if |s| > 0 && IsSpace(s[|s| - 1]) then StripRight(s[..|s| - 1]) else s
  }

  /** Python's str.strip(): the result has no surrounding whitespace and is
      what remains of s once its leading and trailing whitespace is gone. */
  function Strip(s: string): (r: string)
    ensures IsStripped(r)
    ensures exists i :: PaddedAt(s, r, i)
    ensures IsStripped(s) ==> r == s
    ensures |r| == |s| ==> r == s
  {
    var left := StripLeft(s);
    var r := StripRight(left);
    assert PaddedAt(s, r, |s| - |left|);
    r
  }

  lemma StripIdempotent(s: string)
    ensures Strip(Strip(s)) == Strip(s)
  {
  }

  function StripAll(xs: seq<string>): (r: seq<string>)
    ensures |r| == |xs|
    ensures forall i | 0 <= i < |r| :: r[i] == Strip(xs[i])
  {
    seq(|xs|, i requires 0 <= i < |xs| => Strip(xs[i]))
  }

  /** Stripping items that have no surrounding whitespace changes nothing. */
  lemma StripAllStripped(xs: seq<string>)
    requires forall i | 0 <= i < |xs| :: IsStripped(xs[i])
    ensures StripAll(xs) == xs
  {
    var r := StripAll(xs);
    forall i | 0 <= i < |xs| ensures r[i] == xs[i] {
      assert IsStripped(xs[i]);
    }
  }

  // ------------------------------------------------------------------
  // Occurrences of a separator

  predicate OccursAt(s: string, sep: string, k: int) {
    0 <= k && k + |sep| <= |s| && s[k..k + |sep|] == sep
  }

  predicate Contains(s: string, sep: string) {
    exists k | 0 <= k <= |s| - |sep| :: OccursAt(s, sep, k)
  }

  /** The number of positions at which sep occurs in s. */
  function Occurrences(s: string, sep: string): nat
    requires |sep| > 0
    decreases |s|
  {
    if |s| < |sep| then 0
    else (if s[..|sep|] == sep then 1 else 0) + Occurrences(s[1..], sep)
  }

  /** A separator never occurs inside an infix of a string it does not occur in. */
  lemma InfixFree(r: string, s: string, i: int, sep: string)
    requires InfixAt(r, s, i) && !Contains(s, sep)
    ensures !Contains(r, sep)
  {
    if Contains(r, sep) {
      var k :| 0 <= k <= |r| - |sep| && OccursAt(r, sep, k);
      forall j | 0 <= j < |sep| ensures s[i + k + j] == sep[j] {
        assert r[k + j] == s[i + k + j];
        assert r[k..k + |sep|][j] == r[k + j];
      }
      assert s[i + k..i + k + |sep|] == sep;
      assert OccursAt(s, sep, i + k);
    }
  }

  lemma StripFree(s: string, sep: string)
    requires !Contains(s, sep)
    ensures !Contains(Strip(s), sep)
  {
    var i :| PaddedAt(s, Strip(s), i);
    InfixFree(Strip(s), s, i, sep);
  }

  lemma StripAllFree(xs: seq<string>, sep: string)
    requires forall i | 0 <= i < |xs| :: !Contains(xs[i], sep)
    ensures forall i | 0 <= i < |xs| :: !Contains(StripAll(xs)[i], sep)
  {
    forall i | 0 <= i < |xs| ensures !Contains(StripAll(xs)[i], sep) {
      StripFree(xs[i], sep);
    }
  }

  // ------------------------------------------------------------------
  // str.split(sep) and sep.join(xs)

  /** Python's s.split(sep) for a non-empty literal separator: cut at the
      leftmost occurrence, then go on after it. */
  function Split(s: string, sep: string): (r: seq<string>)
    requires |sep| > 0
    ensures |r| >= 1
    ensures |r[0]| <= |s| && r[0] == s[..|r[0]|]
    decreases |s|
  {
    if |s| < |sep| then [s]
    else if s[..|sep|] == sep then [""] + Split(s[|sep|..], sep)
    else
      var rest := Split(s[1..], sep);
      [[s[0]] + rest[0]] + rest[1..]
  }

  /** Python's sep.join(xs). */
  function Join(xs: seq<string>, sep: string): string
  {
    if |xs| == 0 then ""
    else if |xs| == 1 then xs[0]
    else xs[0] + sep + Join(xs[1..], sep)
  }

  /** Joining the pieces of a split with the same separator gives back the input. */
  lemma {:induction false} JoinSplit(s: string, sep: string)
    requires |sep| > 0
    ensures Join(Split(s, sep), sep) == s
    decreases |s|
  {
    if |s| < |sep| {
    } else if s[..|sep|] == sep {
      JoinSplit(s[|sep|..], sep);
      JoinEmptyHead(Split(s[|sep|..], sep), sep);
      assert s == sep + s[|sep|..];
    } else {
      var rest := Split(s[1..], sep);
      JoinSplit(s[1..], sep);
      JoinConsHead(s[0], rest, sep);
      assert s == [s[0]] + s[1..];
    }
  }

  /** An empty first piece contributes only the separator. */
  lemma JoinEmptyHead(rest: seq<string>, sep: string)
    requires |rest| >= 1
    ensures Join([""] + rest, sep) == sep + Join(rest, sep)
  {
    var xs := [""] + rest;
    assert xs[1..] == rest;
    assert xs[0] == "";
  }

  /** A character put in front of the first piece goes in front of the join. */
  lemma JoinConsHead(c: char, rest: seq<string>, sep: string)
    requires |rest| >= 1
    ensures Join([[c] + rest[0]] + rest[1..], sep) == [c] + Join(rest, sep)
  {
    var xs := [[c] + rest[0]] + rest[1..];
    assert xs[0] == [c] + rest[0];
    if |rest| > 1 {
      assert xs[1..] == rest[1..];
    }
  }

  /** No piece of a split contains the separator. */
  lemma {:induction false} SplitPiecesFree(s: string, sep: string)
    requires |sep| > 0
    ensures forall i | 0 <= i < |Split(s, sep)| :: !Contains(Split(s, sep)[i], sep)
    decreases |s|
  {
    var r := Split(s, sep);
    if |s| < |sep| {
    } else if s[..|sep|] == sep {
      SplitPiecesFree(s[|sep|..], sep);
      assert !Contains("", sep);
      forall i | 0 <= i < |r| ensures !Contains(r[i], sep) {
        if i > 0 { assert r[i] == Split(s[|sep|..], sep)[i - 1]; }
      }
    } else {
      var rest := Split(s[1..], sep);
      SplitPiecesFree(s[1..], sep);
      HeadFree(s, rest[0], sep);
      forall i | 0 <= i < |r| ensures !Contains(r[i], sep) {
        if i > 0 { assert r[i] == rest[i]; }
      }
    }
  }

  /** A first piece that does not start with the separator, and continues
      with a piece without it, has no separator. */
  lemma HeadFree(s: string, piece: string, sep: string)
    requires |sep| > 0 && |s| >= |sep| && s[..|sep|] != sep
    requires 1 + |piece| <= |s| && piece == s[1..1 + |piece|]
    requires !Contains(piece, sep)
    ensures !Contains([s[0]] + piece, sep)
  {
    var head := [s[0]] + piece;
    assert head == s[..|head|];
    forall k | 0 <= k <= |head| - |sep| ensures !OccursAt(head, sep, k) {
      if k == 0 {
        assert head[..|sep|] == s[..|sep|];
      } else {
        assert head[k..k + |sep|] == piece[k - 1..k - 1 + |sep|];
        assert !OccursAt(piece, sep, k - 1);
      }
    }
  }


  /** A string without the separator splits into itself alone. */
  lemma {:induction false} SplitWithoutSep(a: string)
    requires !Contains(a, Sep)
    ensures Split(a, Sep) == [a]
    decreases |a|
  {
    if |a| >= |Sep| {
      assert !OccursAt(a, Sep, 0);
      assert !Contains(a[1..], Sep) by {
        if Contains(a[1..], Sep) {
          InfixFree(a[1..], a, 1, Sep);
        }
      }
      SplitWithoutSep(a[1..]);
      assert a == [a[0]] + a[1..];
    }
  }

  /** Splitting an item followed by the separator peels off exactly that item.
      This relies on the shape of ", ": its first character differs from its last. */
  lemma {:induction false} SplitAfterItem(a: string, t: string)
    requires !Contains(a, Sep)
    ensures Split(a + Sep + t, Sep) == [a] + Split(t, Sep)
    decreases |a|
  {
    var s := a + Sep + t;
    if |a| == 0 {
      assert s[..|Sep|] == Sep;
      assert s[|Sep|..] == t;
    } else {
      if |a| >= 2 {
        assert !OccursAt(a, Sep, 0);
        assert s[..2] == a[..2];
      } else {
        assert s[..2] == [a[0], ','];
      }
      assert s[..|Sep|] != Sep;
      assert !Contains(a[1..], Sep) by {
        if Contains(a[1..], Sep) {
          InfixFree(a[1..], a, 1, Sep);
        }
      }
      SplitAfterItem(a[1..], t);
      assert s[1..] == a[1..] + Sep + t;
      assert a == [a[0]] + a[1..];
    }
  }

  /** Splitting a join of separator-free items on ", " gives back the items. */
  lemma {:induction false} SplitJoin(items: seq<string>)
    requires |items| >= 1
    requires forall i | 0 <= i < |items| :: !Contains(items[i], Sep)
    ensures Split(Join(items, Sep), Sep) == items
    decreases |items|
  {
    if |items| == 1 {
      SplitWithoutSep(items[0]);
    } else {
      SplitJoin(items[1..]);
      SplitAfterItem(items[0], Join(items[1..], Sep));
      assert items == [items[0]] + items[1..];
    }
  }

  /** Splitting on ", " gives one more piece than there are occurrences of ", ".
      Occurrences of ", " never overlap, so none is skipped. */
  lemma {:induction false} SplitCount(s: string)
    ensures |Split(s, Sep)| == Occurrences(s, Sep) + 1
    decreases |s|
  {
    if |s| >= |Sep| {
      if s[..|Sep|] == Sep {
        SplitCount(s[2..]);
        var u := s[1..];
        assert u[1..] == s[2..];
        if |u| >= 2 {
          assert u[0] == ' ';
          assert u[..2] != Sep;
        }
        assert Occurrences(u, Sep) == Occurrences(s[2..], Sep);
      } else {
        SplitCount(s[1..]);
      }
    }
  }

  /** The total length of the items. */
  function TotalLength(xs: seq<string>): nat
  {
    if xs == [] then 0 else |xs[0]| + TotalLength(xs[1..])
  }

  /** Trimming the items shortens the join by exactly what it removes from the items. */
  lemma {:induction false} JoinStrippedLength(xs: seq<string>, sep: string)
    requires |xs| >= 1
    ensures |Join(StripAll(xs), sep)| + TotalLength(xs) == |Join(xs, sep)| + TotalLength(StripAll(xs))
    decreases |xs|
  {
    var ys := StripAll(xs);
    assert ys[1..] == StripAll(xs[1..]);
    if |xs| > 1 {
      JoinStrippedLength(xs[1..], sep);
    } else {
      assert xs[1..] == [] && ys[1..] == [];
    }
  }

  lemma StripAllTail(xs: seq<string>)
    requires xs != []
    ensures StripAll(xs)[1..] == StripAll(xs[1..])
    ensures TotalLength(StripAll(xs)) == |Strip(xs[0])| + TotalLength(StripAll(xs[1..]))
  {
    assert StripAll(xs)[1..] == StripAll(xs[1..]);
  }

  /** Trimming never lengthens the items, and leaves their total length alone
      only when no item had surrounding whitespace. */
  lemma {:induction false} StripAllLength(xs: seq<string>)
    ensures TotalLength(StripAll(xs)) <= TotalLength(xs)
    ensures TotalLength(StripAll(xs)) == TotalLength(xs) ==> forall i | 0 <= i < |xs| :: IsStripped(xs[i])
    decreases |xs|
  {
    if xs != [] {
      StripAllLength(xs[1..]);
      StripAllTail(xs);
      var n0 := |Strip(xs[0])|;
      assert n0 <= |xs[0]| by {
        var i :| PaddedAt(xs[0], Strip(xs[0]), i);
      }
      if TotalLength(StripAll(xs)) == TotalLength(xs) {
        assert n0 == |xs[0]|;
        forall i | 0 <= i < |xs| ensures IsStripped(xs[i]) {
          if i > 0 { assert xs[i] == xs[1..][i - 1]; }
        }
      }
    }
  }

  /** Trimming the pieces leaves their join unchanged exactly when no piece
      had surrounding whitespace. */
  lemma JoinStrippedIff(pieces: seq<string>, sep: string)
    requires |pieces| >= 1
    ensures Join(StripAll(pieces), sep) == Join(pieces, sep) <==> forall i | 0 <= i < |pieces| :: IsStripped(pieces[i])
  {
    var stripped := StripAll(pieces);
    JoinStrippedLength(pieces, sep);
    StripAllLength(pieces);
    if forall i | 0 <= i < |pieces| :: IsStripped(pieces[i]) {
      StripAllStripped(pieces);
    }
  }

  // ------------------------------------------------------------------
  // Decimal numbers: str(n) and int(s)

  predicate IsDigit(c: char) {
    '0' <= c <= '9'
  }

  predicate AllDigits(s: string) {
    forall i | 0 <= i < |s| :: IsDigit(s[i])
  }

  function DigitChar(d: nat): (c: char)
    requires d < 10
    ensures IsDigit(c)
  {
    (48 + d) as char
  }

  function DigitValue(c: char): nat
    requires IsDigit(c)
  {
    c as int - 48
  }

  /** Python's str(n) for n >= 0: the decimal numeral of n, with no leading zero. */
  function NatToDecimal(n: nat): (r: string)
    ensures |r| >= 1 && AllDigits(r)
    ensures r[0] == '0' <==> n == 0
    decreases n
  {
    if n < 10 then [DigitChar(n)] else NatToDecimal(n / 10) + [DigitChar(n % 10)]
  }

  /** The value of a string of decimal digits. */
  function DecimalValue(s: string): nat
    requires AllDigits(s)
  {
    if s == [] then 0 else 10 * DecimalValue(s[..|s| - 1]) + DigitValue(s[|s| - 1])
  }

  lemma {:induction false} DecimalRoundTrip(n: nat)
    ensures DecimalValue(NatToDecimal(n)) == n
    decreases n
  {
    if n >= 10 {
      DecimalRoundTrip(n / 10);
      var r := NatToDecimal(n);
      assert r[..|r| - 1] == NatToDecimal(n / 10);
    }
  }

  predicate IsSign(c: char) {
    c == '+' || c == '-'
  }

  /** What int() accepts once the whitespace is stripped: digits, possibly
      after one sign. */
  predicate IsNumeral(t: string) {
    || (|t| > 0 && AllDigits(t))
    || (|t| > 1 && IsSign(t[0]) && AllDigits(t[1..]))
  }

  /** Python's int(s) on a decimal numeral with an optional sign, surrounding
      whitespace allowed; anything else raises ValueError. */
  function ParseInt(s: string): (r: Result<int, PyError>)
    ensures r.Success? <==> IsNumeral(Strip(s))
    ensures r.Failure? ==> r.error == ValueError
    ensures r.Success? && AllDigits(Strip(s)) ==> r.value == DecimalValue(Strip(s))
    ensures r.Success? && Strip(s)[0] == '+' ==> r.value == DecimalValue(Strip(s)[1..])
    ensures r.Success? && Strip(s)[0] == '-' ==> r.value == -(DecimalValue(Strip(s)[1..]) as int)
  {
    var t := Strip(s);
    if |t| > 0 && AllDigits(t) then Success(DecimalValue(t))
    else if |t| > 1 && IsSign(t[0]) && AllDigits(t[1..]) then
      var v: int := DecimalValue(t[1..]);
      Success(if t[0] == '-' then -v else v)
    else Failure(ValueError)
  }

  /** A numeral has no surrounding whitespace. */
  lemma DigitsStripped(s: string)
    requires |s| >= 1 && AllDigits(s)
    ensures Strip(s) == s
  {
    assert IsDigit(s[0]) && IsDigit(s[|s| - 1]);
  }

  /** Python's str(y) for an integer: a minus sign before the numeral of a
      negative number. int() reads it back. */
  function IntToDecimal(y: int): (r: string)
    ensures |r| >= 1 && IsStripped(r)
    ensures ParseInt(r) == Success(y)
  {
    if y < 0 then
      NegativeNumeral(-y);
      "-" + NatToDecimal(-y)
    else
      Numeral(y);
      NatToDecimal(y)
  }

  /** The numeral of n is stripped text that int() reads as n. */
  lemma Numeral(n: nat)
    ensures IsStripped(NatToDecimal(n))
    ensures ParseInt(NatToDecimal(n)) == Success(n as int)
  {
    DecimalRoundTrip(n);
    DigitsStripped(NatToDecimal(n));
  }

  /** A minus sign before the numeral of n is stripped text that int() reads
      as -n. */
  lemma NegativeNumeral(n: nat)
    ensures IsStripped("-" + NatToDecimal(n))
    ensures ParseInt("-" + NatToDecimal(n)) == Success(-(n as int))
  {
    var digits := NatToDecimal(n);
    var r := "-" + digits;
    DecimalRoundTrip(n);
    SignedStripped(digits);
    assert r[1..] == digits;
    ParseNegative(r);
  }

  /** int() of a stripped minus sign and digits is the negated value of the digits. */
  lemma ParseNegative(t: string)
    requires |t| > 1 && IsStripped(t) && t[0] == '-' && AllDigits(t[1..])
    ensures ParseInt(t) == Success(-(DecimalValue(t[1..]) as int))
  {
    assert !IsDigit(t[0]);
  }

  lemma SignedStripped(digits: string)
    requires |digits| >= 1 && AllDigits(digits)
    ensures IsStripped("-" + digits) && Strip("-" + digits) == "-" + digits
  {
    var r := "-" + digits;
    assert r[|r| - 1] == digits[|digits| - 1];
  }

  /** A stripped non-empty string followed by one space strips back to itself. */
  lemma StripTrailingSpace(t: string)
    requires |t| >= 1 && IsStripped(t)
    ensures Strip(t + " ") == t
    ensures ParseInt(t + " ") == ParseInt(t)
  {
    var s := t + " ";
    assert s[0] == t[0] && StripLeft(s) == s;
    assert IsSpace(s[|s| - 1]) && s[..|s| - 1] == t;
    assert StripRight(t) == t;
  }
}
