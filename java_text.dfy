/**
 * The parts of java.lang.String and java.lang.Integer the parser relies on:
 * `split` on a literal divider (with and without a limit of 2), `trim`,
 * `toUpperCase`, `Integer.parseInt`, and the decimal text of numbers.
 */
module JavaText {
  import opened Outcomes

  // ---------------------------------------------------------------- digits

  predicate IsDigit(c: char) { '0' <= c <= '9' }

  predicate AllDigits(s: string) { forall k :: 0 <= k < |s| ==> IsDigit(s[k]) }

  function DigitChar(d: nat): char
    requires d < 10
  {
    ('0' as int + d) as char
  }

  function DigitValue(c: char): nat
    requires IsDigit(c)
  {
    c as int - '0' as int
  }

  function Pow10(w: nat): nat
  {
    if w == 0 then 1 else 10 * Pow10(w - 1)
  }

  /** The value of a string of ASCII digits, leading zeros allowed. */
  function DigitsValue(s: string): (n: nat)
    requires AllDigits(s)
    ensures n < Pow10(|s|)
  {
    if s == [] then 0 else DigitsValue(s[..|s| - 1]) * 10 + DigitValue(s[|s| - 1])
  }

  /** The last `w` decimal digits of `n`, zero-padded to width `w`. */
  function Digits(n: nat, w: nat): (s: string)
    ensures |s| == w && AllDigits(s)
  {
    if w == 0 then "" else Digits(n / 10, w - 1) + [DigitChar(n % 10)]
  }

  /** Java's decimal rendering of a non-negative int: no sign, no leading zero. */
  function NatText(n: nat): (s: string)
    ensures |s| >= 1 && AllDigits(s)
    ensures |s| > 1 ==> s[0] != '0'
  {
    if n < 10 then [DigitChar(n)] else NatText(n / 10) + [DigitChar(n % 10)]
  }

  /** Java's `Integer.toString` of any int. */
  function IntText(n: int): string
  {
    if n < 0 then "-" + NatText(-n) else NatText(n)
  }

  lemma {:induction false} DigitsRoundTrip(n: nat, w: nat)
    requires n < Pow10(w)
    ensures DigitsValue(Digits(n, w)) == n
  {
    if w > 0 {
      var s := Digits(n, w);
      assert s[..|s| - 1] == Digits(n / 10, w - 1);
      DigitsRoundTrip(n / 10, w - 1);
    }
  }

  /** Appending a digit is undone by division and remainder by ten. */
  lemma DivModDigit(q: nat, d: nat)
    requires d < 10
    ensures (q * 10 + d) / 10 == q && (q * 10 + d) % 10 == d
  {
  }

  lemma {:induction false} DigitsOfValue(s: string)
    requires AllDigits(s)
    ensures Digits(DigitsValue(s), |s|) == s
  {
    if s != [] {
      var p, c := s[..|s| - 1], s[|s| - 1];
      var q, d := DigitsValue(p), DigitValue(c);
      var n := DigitsValue(s);
      assert n == q * 10 + d;
      DivModDigit(q, d);
      assert n / 10 == q && n % 10 == d;
      DigitsOfValue(p);
      assert Digits(n, |s|) == Digits(n / 10, |p|) + [DigitChar(n % 10)];
      assert DigitChar(d) == c;
      assert s == p + [c];
    }
  }

  lemma {:induction false} NatTextRoundTrip(n: nat)
    ensures DigitsValue(NatText(n)) == n
  {
    if n >= 10 {
      var s := NatText(n);
      assert s[..|s| - 1] == NatText(n / 10);
      NatTextRoundTrip(n / 10);
    }
  }

  // ------------------------------------------------------- Integer.parseInt

  const MinInt: int := -0x8000_0000
  const MaxInt: int := 0x7fff_ffff

  predicate IsInt32(n: int) { MinInt <= n <= MaxInt }

  /**
   * `Integer.parseInt(s)`: an optional `+` or `-`, then one or more decimal
   * digits whose value fits in 32 bits; anything else throws
   * NumberFormatException.
   */
  function ParseInt(s: string): (r: Result<int>)
    ensures r.Ok? ==> IsInt32(r.value)
    ensures r.Err? ==> r.error == NumberFormat(s)
    ensures r.Ok? ==> |s| >= 1 && (IsDigit(s[0]) || s[0] == '+' || s[0] == '-')
  {
    var signed := |s| > 0 && (s[0] == '-' || s[0] == '+');
    var body := if signed then s[1..] else s;
    if |body| == 0 || !AllDigits(body) then Err(NumberFormat(s))
    else
      var magnitude: int := DigitsValue(body);
      var v := if s[0] == '-' then -magnitude else magnitude;
      if IsInt32(v) then Ok(v) else Err(NumberFormat(s))
  }

  /** Unsigned digits are read as their value when it fits. */
  lemma ParseIntDigits(s: string)
    requires |s| > 0 && AllDigits(s) && DigitsValue(s) <= MaxInt
    ensures ParseInt(s) == Ok(DigitsValue(s))
  {
    assert IsDigit(s[0]);
  }

  /** A minus sign before digits negates their value when the result fits. */
  lemma ParseIntNegative(s: string)
    requires |s| > 0 && AllDigits(s) && DigitsValue(s) <= -MinInt
    ensures ParseInt("-" + s) == Ok(-(DigitsValue(s) as int))
  {
    assert ("-" + s)[1..] == s;
  }

  /** A plus sign before digits keeps their value when it fits. */
  lemma ParseIntPositive(s: string)
    requires |s| > 0 && AllDigits(s) && DigitsValue(s) <= MaxInt
    ensures ParseInt("+" + s) == Ok(DigitsValue(s))
  {
    assert ("+" + s)[1..] == s;
  }

  /** A text without digits, such as the empty text or a lone sign, is rejected. */
  lemma ParseIntNeedsDigits()
    ensures ParseInt("") == Err(NumberFormat(""))
    ensures ParseInt("+") == Err(NumberFormat("+"))
    ensures ParseInt("-") == Err(NumberFormat("-"))
  {
  }

  /** A character that is neither a digit nor a leading sign makes the text rejected. */
  lemma ParseIntRejectsNonDigit(s: string, k: nat)
    requires k < |s| && !IsDigit(s[k])
    requires k == 0 ==> s[0] != '+' && s[0] != '-'
    ensures ParseInt(s) == Err(NumberFormat(s))
  {
    if |s| > 0 && (s[0] == '-' || s[0] == '+') {
      assert s[1..][k - 1] == s[k];
    }
  }

  /** Digits whose value (with its sign) falls outside 32 bits are rejected. */
  lemma ParseIntRejectsOverflow(s: string)
    requires |s| > 0 && AllDigits(s)
    ensures DigitsValue(s) > MaxInt ==>
      ParseInt(s) == Err(NumberFormat(s)) && ParseInt("+" + s) == Err(NumberFormat("+" + s))
    ensures DigitsValue(s) > -MinInt ==> ParseInt("-" + s) == Err(NumberFormat("-" + s))
  {
    assert IsDigit(s[0]);
    assert ("+" + s)[1..] == s && ("-" + s)[1..] == s;
  }

  /** Every int is read back from its own decimal text. */
  lemma ParseIntText(n: int)
    requires IsInt32(n)
    ensures ParseInt(IntText(n)) == Ok(n)
  {
    if n < 0 {
      NatTextRoundTrip(-n);
      ParseIntNegative(NatText(-n));
    } else {
      NatTextRoundTrip(n);
      ParseIntDigits(NatText(n));
    }
  }

  // ------------------------------------------------------------ toUpperCase

  function UpperChar(c: char): char
  {
    if 'a' <= c <= 'z' then (c as int - 32) as char else c
  }

  /** `toUpperCase`, on the ASCII letters. */
  function ToUpper(s: string): string
  {
    seq(|s|, k requires 0 <= k < |s| => UpperChar(s[k]))
  }

  // ------------------------------------------------------------------- trim

  /** `trim` removes every character whose code is at most that of the space. */
  predicate IsBlank(c: char) { c <= ' ' }

  predicate AllBlank(s: string) { forall k :: 0 <= k < |s| ==> IsBlank(s[k]) }

  function TrimLeading(s: string): (r: string)
    ensures |r| <= |s| && r == s[|s| - |r|..]
    ensures r == [] || !IsBlank(r[0])
    ensures AllBlank(s[..|s| - |r|])
  {
    if s != [] && IsBlank(s[0]) then TrimLeading(s[1..]) else s
  }

  function TrimTrailing(s: string): (r: string)
    ensures |r| <= |s| && r == s[..|r|]
    ensures r == [] || !IsBlank(r[|r| - 1])
    ensures AllBlank(s[|r|..])
  {
    if s != [] && IsBlank(s[|s| - 1]) then TrimTrailing(s[..|s| - 1]) else s
  }

  /** `String.trim`. */
  function Trim(s: string): (r: string)
    ensures r == [] || (!IsBlank(r[0]) && !IsBlank(r[|r| - 1]))
    ensures |r| <= |s|
  {
    TrimTrailing(TrimLeading(s))
  }

  lemma {:induction false} TrimLeadingSkips(a: string, t: string)
    requires AllBlank(a)
    requires t == [] || !IsBlank(t[0])
    ensures TrimLeading(a + t) == t
  {
    if a != [] {
      assert (a + t)[1..] == a[1..] + t;
      TrimLeadingSkips(a[1..], t);
    }
  }

  lemma {:induction false} TrimTrailingSkips(t: string, b: string)
    requires AllBlank(b)
    requires t == [] || !IsBlank(t[|t| - 1])
    ensures TrimTrailing(t + b) == t
  {
    if b != [] {
      assert (t + b)[..|t + b| - 1] == t + b[..|b| - 1];
      TrimTrailingSkips(t, b[..|b| - 1]);
    }
  }

  /**
   * `trim` keeps exactly the text between the blank margins: any string made
   * of a blank margin, a core that starts and ends with a non-blank character
   * (or is empty) and another blank margin trims to that core.
   */
  lemma TrimKeepsCore(a: string, m: string, b: string)
    requires AllBlank(a) && AllBlank(b)
    requires m == [] || (!IsBlank(m[0]) && !IsBlank(m[|m| - 1]))
    ensures Trim(a + m + b) == m
  {
    if m == [] {
      assert a + m + b == (a + b) + [];
      TrimLeadingSkips(a + b, []);
    } else {
      assert a + m + b == a + (m + b);
      TrimLeadingSkips(a, m + b);
      TrimTrailingSkips(m, b);
    }
  }

  // ------------------------------------------------------------------ split

  /** The divider `d` occurs in `s` starting at position `i`. */
  predicate OccursAt(s: string, d: string, i: int)
  {
    0 <= i && i + |d| <= |s| && s[i..i + |d|] == d
  }

  predicate Absent(s: string, d: string)
  {
    forall i :: 0 <= i <= |s| ==> !OccursAt(s, d, i)
  }

  /**
   * In `a + d`, the first occurrence of `d` is the appended one: `a` holds no
   * divider, and no divider starts inside `a` and runs on into the appended one.
   */
  predicate EndsAtDivider(a: string, d: string)
  {
    forall i :: 0 <= i < |a| ==> !OccursAt(a + d, d, i)
  }

  function FindFrom(s: string, d: string, from: nat): (r: Option<nat>)
    requires from <= |s|
    decreases |s| - from
    ensures r.Some? ==> from <= r.value && OccursAt(s, d, r.value)
    ensures forall i :: from <= i && (r.None? || i < r.value) ==> !OccursAt(s, d, i)
  {
    if from + |d| > |s| then None
    else if s[from..from + |d|] == d then Some(from)
    else FindFrom(s, d, from + 1)
  }

  /** `indexOf`: the first occurrence of `d` in `s`, if any. */
  function IndexOf(s: string, d: string): (r: Option<nat>)
    ensures r.None? <==> Absent(s, d)
    ensures r.Some? ==> OccursAt(s, d, r.value)
    ensures r.Some? ==> forall i :: 0 <= i < r.value ==> !OccursAt(s, d, i)
  {
    FindFrom(s, d, 0)
  }

  /** The pieces joined back with the divider. */
  function Join(xs: seq<string>, d: string): string
  {
    if |xs| == 0 then "" else if |xs| == 1 then xs[0] else xs[0] + d + Join(xs[1..], d)
  }

  /** A text that ends at its first divider holds no divider. */
  lemma EndsAtDividerAbsent(a: string, d: string)
    requires |d| > 0 && EndsAtDivider(a, d)
    ensures Absent(a, d)
  {
    forall i | 0 <= i <= |a| ensures !OccursAt(a, d, i) {
      if i + |d| <= |a| {
        assert (a + d)[i..i + |d|] == a[i..i + |d|];
        assert !OccursAt(a + d, d, i);
      }
    }
  }

  /** The first divider of `a + d + b` is the one after `a` when `a` ends at it. */
  lemma FirstDividerAfter(a: string, d: string, b: string)
    requires EndsAtDivider(a, d)
    ensures IndexOf(a + d + b, d) == Some(|a|)
  {
    var s := a + d + b;
    assert OccursAt(s, d, |a|) by { assert s[|a|..|a| + |d|] == d; }
    forall i | 0 <= i < |a| ensures !OccursAt(s, d, i) {
      assert s[i..i + |d|] == (a + d)[i..i + |d|];
      assert !OccursAt(a + d, d, i);
    }
  }

  /**
   * The text between successive leftmost, non-overlapping occurrences of `d`,
   * empty pieces included: the list Java's split builds before it trims.
   * Every piece but the last ends at the divider that follows it.
   */
  function Pieces(s: string, d: string): (r: seq<string>)
    requires |d| > 0
    decreases |s|
    ensures |r| >= 1 && Join(r, d) == s
    ensures forall k :: 0 <= k < |r| ==> Absent(r[k], d)
    ensures forall k :: 0 <= k < |r| - 1 ==> EndsAtDivider(r[k], d)
  {
    match IndexOf(s, d)
    case None => [s]
    case Some(i) =>
      FirstPiece(s, d, i);
      [s[..i]] + Pieces(s[i + |d|..], d)
  }

  /** The text before the first divider ends at it, and the text is cut around it. */
  lemma FirstPiece(s: string, d: string, i: nat)
    requires |d| > 0 && IndexOf(s, d) == Some(i)
    ensures EndsAtDivider(s[..i], d) && Absent(s[..i], d)
    ensures s == s[..i] + d + s[i + |d|..]
  {
    var head := s[..i];
    forall j | 0 <= j < |head| ensures !OccursAt(head + d, d, j) {
      assert head + d == s[..i + |d|];
      assert !OccursAt(s, d, j);
    }
    EndsAtDividerAbsent(head, d);
  }

  /**
   * The pieces are determined by the text: any list whose joining gives `s`,
   * whose pieces but the last end at the divider after them and whose last
   * piece holds none is `Pieces(s, d)`.
   */
  lemma {:induction false} PiecesUnique(xs: seq<string>, d: string)
    requires |d| > 0 && |xs| >= 1
    requires forall k :: 0 <= k < |xs| - 1 ==> EndsAtDivider(xs[k], d)
    requires Absent(xs[|xs| - 1], d)
    ensures Pieces(Join(xs, d), d) == xs
  {
    if |xs| > 1 {
      var head, tail := xs[0], xs[1..];
      var rest := Join(tail, d);
      assert Join(xs, d) == head + d + rest;
      FirstDividerAfter(head, d, rest);
      PiecesCut(head, d, rest);
      forall k | 0 <= k < |tail| - 1 ensures EndsAtDivider(tail[k], d) {
        assert tail[k] == xs[k + 1];
      }
      assert tail[|tail| - 1] == xs[|xs| - 1];
      PiecesUnique(tail, d);
      assert xs == [head] + tail;
    }
  }

  /** The first piece of `a + d + b`, when `a` ends at its first divider, is `a`. */
  lemma PiecesCut(a: string, d: string, b: string)
    requires |d| > 0 && IndexOf(a + d + b, d) == Some(|a|)
    ensures Pieces(a + d + b, d) == [a] + Pieces(b, d)
  {
    var s := a + d + b;
    assert s[..|a|] == a;
    assert s[|a| + |d|..] == b;
  }

  /** Java drops the empty strings at the end of an unlimited split. */
  function DropTrailingEmpty(xs: seq<string>): (r: seq<string>)
    ensures |r| <= |xs| && r == xs[..|r|]
    ensures forall k :: |r| <= k < |xs| ==> xs[k] == ""
    ensures r == [] || r[|r| - 1] != ""
  {
    if xs != [] && xs[|xs| - 1] == "" then DropTrailingEmpty(xs[..|xs| - 1]) else xs
  }

  /**
   * `s.split(d)` for a divider without regular-expression metacharacters:
   * when `d` does not occur, the whole string; otherwise the pieces between
   * leftmost occurrences, in order, without the trailing empty ones (so the
   * result may be empty).
   */
  function Split(s: string, d: string): (r: seq<string>)
    requires |d| > 0
    ensures Absent(s, d) ==> r == [s]
    ensures !Absent(s, d) ==> |r| <= |Pieces(s, d)| && r == Pieces(s, d)[..|r|]
    ensures !Absent(s, d) ==> forall k :: |r| <= k < |Pieces(s, d)| ==> Pieces(s, d)[k] == ""
    ensures !Absent(s, d) ==> r == [] || r[|r| - 1] != ""
    ensures forall k :: 0 <= k < |r| ==> Absent(r[k], d)
  {
    if IndexOf(s, d).None? then [s] else DropTrailingEmpty(Pieces(s, d))
  }

  /**
   * `s.split(d, 2)`: at most one cut, at the first occurrence of `d`; the
   * second piece is the rest of the text verbatim, empty or not.
   */
  function SplitLimit2(s: string, d: string): (r: seq<string>)
    ensures 1 <= |r| <= 2
    ensures |r| == 1 <==> Absent(s, d)
    ensures |r| == 1 ==> r[0] == s
    ensures |r| == 2 ==> s == r[0] + d + r[1] && OccursAt(s, d, |r[0]|)
    ensures |r| == 2 ==> forall i :: 0 <= i < |r[0]| ==> !OccursAt(s, d, i)
  {
    match IndexOf(s, d)
    case None => [s]
    case Some(i) =>
      assert s == s[..i] + d + s[i + |d|..];
      [s[..i], s[i + |d|..]]
  }

  /** A text that lacks some character of a divider holds no divider. */
  lemma AbsentWithout(s: string, d: string, j: nat)
    requires j < |d| && d[j] !in s
    ensures Absent(s, d)
  {
    forall i | 0 <= i <= |s| ensures !OccursAt(s, d, i) {
      if i + |d| <= |s| {
        assert s[i..i + |d|][j] == s[i + j];
      }
    }
  }

  /** A text without the character `c` ends at the first `c` appended to it. */
  lemma EndsAtCharacter(a: string, c: char)
    requires c !in a
    ensures EndsAtDivider(a, [c])
  {
    forall i | 0 <= i < |a| ensures !OccursAt(a + [c], [c], i) {
      assert (a + [c])[i..i + 1] == [a[i]];
    }
  }

  /** A one-character divider cuts `a + d + b` right after `a` when `a` lacks it. */
  lemma FirstCut(a: string, c: char, b: string)
    requires c !in a
    ensures SplitLimit2(a + [c] + b, [c]) == [a, b]
  {
    EndsAtCharacter(a, c);
    FirstDividerAfter(a, [c], b);
    var s := a + [c] + b;
    assert s[..|a|] == a && s[|a| + 1..] == b;
  }

  /**
   * Splitting the joined pieces gives them back, provided every piece but
   * the last ends at the divider after it, the last holds none, and (when
   * there are several) the last is not empty.
   */
  lemma SplitJoin(xs: seq<string>, d: string)
    requires |d| > 0 && |xs| >= 1
    requires forall k :: 0 <= k < |xs| - 1 ==> EndsAtDivider(xs[k], d)
    requires Absent(xs[|xs| - 1], d)
    requires |xs| > 1 ==> xs[|xs| - 1] != ""
    ensures Split(Join(xs, d), d) == xs
  {
    PiecesUnique(xs, d);
    if |xs| > 1 {
      var s := Join(xs, d);
      assert s == xs[0] + d + Join(xs[1..], d);
      FirstDividerAfter(xs[0], d, Join(xs[1..], d));
    }
  }

  /**
   * The first two pieces of an unlimited split are the text before the first
   * divider, and the text between it and the next one (or the end).
   */
  lemma SplitFirstPieces(s: string, d: string)
    requires |d| > 0 && |Split(s, d)| >= 1
    ensures Split(s, d)[0] == SplitLimit2(s, d)[0]
    ensures |Split(s, d)| >= 2 ==> Split(s, d)[1] == SplitLimit2(SplitLimit2(s, d)[1], d)[0]
  {
    if !Absent(s, d) {
      var i := IndexOf(s, d).value;
      var rest := s[i + |d|..];
      assert Pieces(s, d) == [s[..i]] + Pieces(rest, d);
      assert SplitLimit2(s, d) == [s[..i], rest];
    }
  }
}
