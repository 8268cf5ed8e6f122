/**
 * The `Utils` namespace of main.js: `formatTime` and `shuffle`.
 */
module Utils {
  import opened Strings

  // ---------------------------------------------------------------------------
  // formatTime
  // ---------------------------------------------------------------------------

  /** `n.toString().padStart(2, '0')` for a remainder below 60. */
  function PadTwo(n: nat): (s: string)
    requires n < 60
    ensures |s| == 2 && AllDigits(s) && DigitsValue(s) == n
  {
    var t := NatToString(n);
    NatToStringBelowHundred(n);
    DigitsValueOfNatToString(n);
    if |t| < 2 then
      assert ("0" + t)[..1] == "0";
      "0" + t
    else t
  }

  /**
   * `formatTime(seconds)` for a whole, non-negative number of seconds: the
   * minutes in base 10, a colon, and the remaining seconds as two digits.
   */
  function FormatTime(seconds: nat): (s: string)
    ensures 4 <= |s| && s[|s| - 3] == ':'
    ensures AllDigits(s[..|s| - 3]) && AllDigits(s[|s| - 2..])
    ensures |s| > 4 ==> s[0] != '0'
  {
    var m := NatToString(seconds / 60);
    var r := PadTwo(seconds % 60);
    assert (m + ":" + r)[..|m|] == m;
    assert (m + ":" + r)[|m| + 1..] == r;
    m + ":" + r
  }

  /**
   * Reads an `m:ss` clock back: one or more minute digits, a colon and two
   * second digits below 60.  `None` for any other text.
   */
  function ParseTime(s: string): Option<nat>
  {
    if 4 <= |s| && s[|s| - 3] == ':' && AllDigits(s[..|s| - 3]) && AllDigits(s[|s| - 2..])
       && DigitsValue(s[|s| - 2..]) < 60
    then Some(DigitsValue(s[..|s| - 3]) * 60 + DigitsValue(s[|s| - 2..]))
    else None
  }

  /** The clock `formatTime` prints reads back to the same number of seconds. */
  lemma FormatTimeRoundTrip(seconds: nat)
    ensures ParseTime(FormatTime(seconds)) == Some(seconds)
  {
    var m := NatToString(seconds / 60);
    var r := PadTwo(seconds % 60);
    var s := FormatTime(seconds);
    assert s == m + ":" + r;
    assert s[..|s| - 3] == m;
    assert s[|s| - 2..] == r;
    DigitsValueOfNatToString(seconds / 60);
  }

  /** Different numbers of seconds are printed as different clocks. */
  lemma FormatTimeInjective(x: nat, y: nat)
    requires FormatTime(x) == FormatTime(y)
    ensures x == y
  {
    FormatTimeRoundTrip(x);
    FormatTimeRoundTrip(y);
  }

  // ---------------------------------------------------------------------------
  // shuffle
  // ---------------------------------------------------------------------------

  /** Every draw of `Math.random()` lies in [0, 1). */
  predicate RandomDraws(draws: seq<real>) {
    forall k :: 0 <= k < |draws| ==> 0.0 <= draws[k] < 1.0
  }

  /** `Math.floor(Math.random() * (i + 1))` for a draw `r`. */
  function PickIndex(r: real, i: nat): (j: nat)
    requires 0.0 <= r < 1.0
    ensures j <= i
  {
    var x := r * (i + 1) as real;
    assert 0.0 <= x by {
      assert 0.0 <= (i + 1) as real;
    }
    assert x < (i + 1) as real by {
      assert (1.0 - r) * (i + 1) as real > 0.0;
    }
    x.Floor
  }

  /** The destructuring swap `[a[i], a[j]] = [a[j], a[i]]`. */
  function Swap<T>(s: seq<T>, i: nat, j: nat): (t: seq<T>)
    requires i < |s| && j < |s|
    ensures |t| == |s| && t[i] == s[j] && t[j] == s[i]
    ensures forall k :: 0 <= k < |s| && k != i && k != j ==> t[k] == s[k]
  {
    s[i := s[j]][j := s[i]]
  }

  lemma SwapPermutes<T>(s: seq<T>, i: nat, j: nat)
    requires i < |s| && j < |s|
    ensures multiset(Swap(s, i, j)) == multiset(s)
  {
  }

  /**
   * What the descending Fisher-Yates loop of `shuffle` leaves on `s` after its
   * first `passes` passes.  Pass number `k` (counting from 1) works on
   * position `|s| - k`, the loop running from the last position down to 1,
   * and uses the `k`-th draw.
   */
  function FisherYates<T>(s: seq<T>, draws: seq<real>, passes: nat): (t: seq<T>)
    requires passes < |s| || passes == 0
    requires passes <= |draws| && RandomDraws(draws)
    ensures |t| == |s|
  {
    if passes == 0 then s
    else
      var i := |s| - passes;
      Swap(FisherYates(s, draws, passes - 1), i, PickIndex(draws[passes - 1], i))
  }

  /** The number of passes `shuffle` makes over an array of `n` elements. */
  function PassCount(n: nat): nat {
    if n == 0 then 0 else n - 1
  }

  /** Whatever the draws, the shuffled sequence is a permutation of its input. */
  lemma {:induction false} FisherYatesPermutes<T>(s: seq<T>, draws: seq<real>, passes: nat)
    requires passes < |s| || passes == 0
    requires passes <= |draws| && RandomDraws(draws)
    ensures multiset(FisherYates(s, draws, passes)) == multiset(s)
  {
    if passes > 0 {
      var i := |s| - passes;
      var j := PickIndex(draws[passes - 1], i);
      var before := FisherYates(s, draws, passes - 1);
      assert FisherYates(s, draws, passes) == Swap(before, i, j);
      FisherYatesPermutes(s, draws, passes - 1);
      SwapPermutes(before, i, j);
    }
  }

  /**
   * The loop of `shuffle`: Fisher-Yates in place, from the last position down
   * to position 1, swapping each position with one drawn at or below it.
   */
  method FisherYatesInPlace<T>(a: array<T>, draws: seq<real>)
    requires RandomDraws(draws) && PassCount(a.Length) <= |draws|
    modifies a
    ensures a[..] == FisherYates(old(a[..]), draws, PassCount(a.Length))
  {
    ghost var initial := a[..];
    var i := a.Length - 1;
    while i > 0
      invariant -1 <= i < a.Length
      invariant 0 <= i || a.Length == 0
      invariant a[..] == FisherYates(initial, draws, a.Length - 1 - i)
      decreases i
    {
      var j := PickIndex(draws[a.Length - 1 - i], i);
      a[i], a[j] := a[j], a[i];
      i := i - 1;
    }
    assert a.Length - 1 - i == PassCount(a.Length);
  }

  /**
   * `shuffle(array)`: copies the array and shuffles the copy.  The values
   * `Math.random()` returns are a parameter, one per pass; the input array is
   * left as it was.
   */
  method Shuffle<T>(source: array<T>, draws: seq<real>) returns (shuffled: array<T>)
    requires RandomDraws(draws) && PassCount(source.Length) <= |draws|
    ensures fresh(shuffled)
    ensures shuffled[..] == FisherYates(source[..], draws, PassCount(source.Length))
    ensures multiset(shuffled[..]) == multiset(source[..])
  {
    var copy := source[..];
    shuffled := new T[|copy|](k requires 0 <= k < |copy| => copy[k]);
    assert shuffled[..] == copy;
    FisherYatesInPlace(shuffled, draws);
    FisherYatesPermutes(copy, draws, PassCount(|copy|));
  }
}
