/**
 The vocabulary the server's code borrows from the C++ standard library:
 optional and fallible results (standing for exceptions), and the
 std::string operations find, find_first_of, find_last_of and
 std::to_string. A string is a sequence of characters, one per byte.
 */
module Text {

  datatype Option<+T> = None | Some(value: T)

  /** Success or the error a C++ exception would have carried. */
  datatype Result<+T, +E> = Success(value: T) | Failure(error: E) {
    predicate IsFailure() {
      Failure?
    }

    function PropagateFailure<U>(): Result<U, E>
      requires Failure?
    {
      Failure(error)
    }

    function Extract(): T
      requires Success?
    {
      value
    }
  }

  const CRLF: string := "\r\n"

  /** `pat` occurs in `s` starting at index `i`. */
  predicate OccursAt(s: string, pat: string, i: nat) {
    i + |pat| <= |s| && s[i..i + |pat|] == pat
  }

  /** `pat` is a substring of `s`. */
  ghost predicate Contains(s: string, pat: string) {
    exists i: nat :: OccursAt(s, pat, i)
  }

  /** std::string::find(pat, from): the first occurrence of `pat` at or after `from`. */
  function Find(s: string, pat: string, from: nat): (r: Option<nat>)
    requires from <= |s|
    ensures r.Some? ==> from <= r.value && OccursAt(s, pat, r.value)
    ensures r.Some? ==> forall j: nat :: from <= j < r.value ==> !OccursAt(s, pat, j)
    ensures r.None? ==> forall j: nat :: from <= j ==> !OccursAt(s, pat, j)
    decreases |s| - from
  {
    if OccursAt(s, pat, from) then Some(from)
    else if from == |s| then None
    else Find(s, pat, from + 1)
  }

  /** Searching from the start finds something exactly when `pat` is a substring. */
  lemma FindIffContains(s: string, pat: string)
    ensures Find(s, pat, 0).Some? <==> Contains(s, pat)
  {
    if Find(s, pat, 0).Some? {
      assert OccursAt(s, pat, Find(s, pat, 0).value);
    }
  }

  /** std::string::find_first_of: the first index holding a character of `cs`. */
  function FirstOf(s: string, cs: set<char>): (r: Option<nat>)
    ensures r.Some? ==> r.value < |s| && s[r.value] in cs
    ensures r.Some? ==> forall j :: 0 <= j < r.value ==> s[j] !in cs
    ensures r.None? ==> forall j :: 0 <= j < |s| ==> s[j] !in cs
  {
    if s == [] then None
    else if s[0] in cs then Some(0)
    else match FirstOf(s[1..], cs)
      case None => None
      case Some(i) => Some(i + 1)
  }

  /** std::string::find_first_not_of: the first index holding a character outside `cs`. */
  function FirstNotOf(s: string, cs: set<char>): (r: Option<nat>)
    ensures r.Some? ==> r.value < |s| && s[r.value] !in cs
    ensures r.Some? ==> forall j :: 0 <= j < r.value ==> s[j] in cs
    ensures r.None? ==> forall j :: 0 <= j < |s| ==> s[j] in cs
  {
    if s == [] then None
    else if s[0] !in cs then Some(0)
    else match FirstNotOf(s[1..], cs)
      case None => None
      case Some(i) => Some(i + 1)
  }

  /** std::string::find_last_of: the last index holding a character of `cs`. */
  function LastOf(s: string, cs: set<char>): (r: Option<nat>)
    ensures r.Some? ==> r.value < |s| && s[r.value] in cs
    ensures r.Some? ==> forall j :: r.value < j < |s| ==> s[j] !in cs
    ensures r.None? ==> forall j :: 0 <= j < |s| ==> s[j] !in cs
  {
    if s == [] then None
    else if s[|s| - 1] in cs then Some(|s| - 1)
    else LastOf(s[..|s| - 1], cs)
  }

  /** Appending characters outside `cs` does not move the last occurrence of `cs`. */
  lemma LastOfPadded(s: string, pad: string, cs: set<char>)
    requires forall k :: 0 <= k < |pad| ==> pad[k] !in cs
    ensures LastOf(s + pad, cs) == LastOf(s, cs)
  {
    var t := s + pad;
    forall j | |s| <= j < |t| ensures t[j] !in cs {
      assert t[j] == pad[j - |s|];
    }
    match LastOf(s, cs)
    case None =>
      assert forall j :: 0 <= j < |s| ==> t[j] == s[j];
    case Some(q) =>
      assert t[q] == s[q];
      assert forall j :: q < j < |s| ==> t[j] == s[j];
  }

  /** A suffix of `s + t` that starts inside `s`. */
  lemma SuffixOfAppend(s: string, t: string, i: nat)
    requires i <= |s|
    ensures (s + t)[i..] == s[i..] + t
  {
  }

  /** What follows the last occurrence of `cs` in `s + pad`, when `pad` holds none. */
  lemma AfterLastOfPadded(s: string, pad: string, cs: set<char>)
    requires forall k :: 0 <= k < |pad| ==> pad[k] !in cs
    requires LastOf(s + pad, cs).Some?
    ensures LastOf(s, cs).Some?
    ensures (s + pad)[LastOf(s + pad, cs).value + 1..] == s[LastOf(s, cs).value + 1..] + pad
  {
    LastOfPadded(s, pad, cs);
    SuffixOfAppend(s, pad, LastOf(s, cs).value + 1);
  }

  predicate IsDigit(c: char) {
    '0' <= c <= '9'
  }

  function DigitChar(d: nat): (c: char)
    requires d < 10
  {
    (d + '0' as int) as char
  }

  /** std::to_string on an unsigned value: its decimal digits, without leading zeros. */
  function NatToString(n: nat): (s: string)
    ensures |s| >= 1
    ensures forall i :: 0 <= i < |s| ==> IsDigit(s[i])
    ensures s[0] == '0' ==> n == 0
    ensures s[0] == '0' ==> s == "0"
    ensures n == 0 ==> s == "0"
    decreases n
  {
    if n < 10 then [DigitChar(n)] else NatToString(n / 10) + [DigitChar(n % 10)]
  }

  /** The number a string of decimal digits denotes. */
  function DecimalValue(s: string): nat
    requires forall i :: 0 <= i < |s| ==> IsDigit(s[i])
  {
    if s == [] then 0
    else
      assert IsDigit(s[|s| - 1]);
      10 * DecimalValue(s[..|s| - 1]) + (s[|s| - 1] as int - '0' as int)
  }

  /** The decimal text of `n` denotes `n`: reading back a Content-Length gives the length. */
  lemma {:induction false} DecimalRoundTrip(n: nat)
    ensures DecimalValue(NatToString(n)) == n
  {
    var s := NatToString(n);
    if n >= 10 {
      DecimalRoundTrip(n / 10);
      assert s[..|s| - 1] == NatToString(n / 10);
    }
  }

  /** Different lengths have different decimal texts. */
  lemma NatToStringInjective(m: nat, n: nat)
    requires NatToString(m) == NatToString(n)
    ensures m == n
  {
    DecimalRoundTrip(m);
    DecimalRoundTrip(n);
  }
}
