/**
 * The PHP string primitives the MIME layer relies on, over byte strings
 * (one `char` per byte): `strtolower`, `strtoupper`, `trim`, `explode`,
 * `implode`, `str_replace` and the decimal rendering of an integer.
 */
module Text {

  import opened Wrappers

  // ---------------------------------------------------------------- case

  predicate IsUpperChar(c: char) { 'A' <= c <= 'Z' }

  /** ASCII lower-casing of one byte, as PHP 8's `strtolower`. */
  function LowerChar(c: char): (r: char)
    ensures !IsUpperChar(r)
    ensures IsUpperChar(c) ==> r as int == c as int + 32
    ensures !IsUpperChar(c) ==> r == c
  {
    if IsUpperChar(c) then (c as int + 32) as char else c
  }

  function UpperChar(c: char): (r: char)
    ensures !('a' <= r <= 'z')
    ensures 'a' <= c <= 'z' ==> r as int == c as int - 32
    ensures !('a' <= c <= 'z') ==> r == c
  {
    if 'a' <= c <= 'z' then (c as int - 32) as char else c
  }

  predicate IsLowerCase(s: string) {
    forall i :: 0 <= i < |s| ==> !IsUpperChar(s[i])
  }

  /** `strtolower`: every byte lower-cased, nothing else changed. */
  function Lower(s: string): (r: string)
    ensures |r| == |s| && IsLowerCase(r)
    ensures forall i :: 0 <= i < |s| ==> r[i] == LowerChar(s[i])
  {
    if s == [] then [] else [LowerChar(s[0])] + Lower(s[1..])
  }

  /** `strtoupper`. */
  function Upper(s: string): (r: string)
    ensures |r| == |s|
    ensures forall i :: 0 <= i < |s| ==> r[i] == UpperChar(s[i])
  {
    if s == [] then [] else [UpperChar(s[0])] + Upper(s[1..])
  }

  /** Lower-casing changes nothing in a string that is already lower case. */
  lemma LowerOfLowerCase(s: string)
    requires IsLowerCase(s)
    ensures Lower(s) == s
  {
    assert forall i :: 0 <= i < |s| ==> Lower(s)[i] == s[i];
  }

  /** `strtolower` works byte by byte, so it distributes over concatenation. */
  lemma LowerConcat(a: string, b: string)
    ensures Lower(a + b) == Lower(a) + Lower(b)
  {
    assert forall i :: 0 <= i < |a + b| ==> Lower(a + b)[i] == (Lower(a) + Lower(b))[i];
  }

  lemma LowerAroundSlash(a: string, b: string)
    ensures Lower(a + "/" + b) == Lower(a) + "/" + Lower(b)
  {
    var s := a + "/" + b;
    assert LowerChar('/') == '/';
    forall i | 0 <= i < |s| ensures Lower(s)[i] == (Lower(a) + "/" + Lower(b))[i] {
      if i < |a| {
        assert s[i] == a[i];
      } else if i == |a| {
        assert s[i] == '/';
      } else {
        assert s[i] == b[i - |a| - 1];
      }
    }
  }

  // ---------------------------------------------------------------- trim

  /** The bytes PHP's `trim` strips: space, tab, LF, CR, NUL and vertical tab. */
  predicate IsTrimChar(c: char) {
    c == ' ' || c == '\t' || c == '\n' || c == '\r' || c as int == 0 || c as int == 11
  }

  function TrimLeft(s: string): (r: string)
    ensures |r| <= |s| && r == s[|s| - |r|..]
    ensures r == [] || !IsTrimChar(r[0])
    decreases |s|
  {
    if s != [] && IsTrimChar(s[0]) then TrimLeft(s[1..]) else s
  }

  function TrimRight(s: string): (r: string)
    ensures |r| <= |s| && r == s[..|r|]
    ensures r == [] || !IsTrimChar(r[|r| - 1])
    decreases |s|
  {
    if s != [] && IsTrimChar(s[|s| - 1]) then TrimRight(s[..|s| - 1]) else s
  }

  /** `trim`: `s` without its leading and trailing white space. */
  function Trim(s: string): (r: string)
    ensures |r| <= |s|
    ensures r == [] || (!IsTrimChar(r[0]) && !IsTrimChar(r[|r| - 1]))
  {
    TrimRight(TrimLeft(s))
  }

  // ---------------------------------------------------------------- search

  /** `d` occurs in `s` starting at offset `j`. */
  predicate OccursAt(s: string, d: string, j: int) {
    0 <= j && j + |d| <= |s| && s[j..j + |d|] == d
  }

  lemma OccursAtTail(s: string, d: string, j: int)
    requires |s| > 0 && 0 <= j
    ensures OccursAt(s, d, j + 1) <==> OccursAt(s[1..], d, j)
  {
    if j + 1 + |d| <= |s| {
      assert s[1..][j..j + |d|] == s[j + 1..j + 1 + |d|];
    }
  }

  /** `strpos`: the offset of the first occurrence of a non-empty `d` in `s`. */
  function IndexOf(s: string, d: string): (r: Option<nat>)
    requires |d| > 0
    ensures r.Some? ==> OccursAt(s, d, r.value)
    ensures r.Some? ==> forall j :: 0 <= j < r.value ==> !OccursAt(s, d, j)
    ensures r.None? ==> forall j :: 0 <= j ==> !OccursAt(s, d, j)
    decreases |s|
  {
    if |s| < |d| then None
    else if s[..|d|] == d then Some(0)
    else
      var t := IndexOf(s[1..], d);
      assert !OccursAt(s, d, 0);
      forall j | 1 <= j ensures OccursAt(s, d, j) <==> OccursAt(s[1..], d, j - 1) {
        OccursAtTail(s, d, j - 1);
      }
      match t
      case Some(k) => Some(k + 1)
      case None => None
  }

  predicate Contains(s: string, d: string)
    requires |d| > 0
  {
    IndexOf(s, d).Some?
  }

  // ---------------------------------------------------------------- explode / implode

  /** `explode(d, s)`: the pieces of `s` between the occurrences of `d`, left to right. */
  function Explode(d: string, s: string): (r: seq<string>)
    requires |d| > 0
    ensures |r| > 0
    decreases |s|
  {
    match IndexOf(s, d)
    case Some(i) => [s[..i]] + Explode(d, s[i + |d|..])
    case None => [s]
  }

  /** The number of non-overlapping occurrences of `d`, counted from the left as `explode` finds them. */
  function Occurrences(d: string, s: string): nat
    requires |d| > 0
    decreases |s|
  {
    match IndexOf(s, d)
    case Some(i) => 1 + Occurrences(d, s[i + |d|..])
    case None => 0
  }

  /** `implode(glue, parts)`. */
  function Join(glue: string, parts: seq<string>): string {
    if |parts| == 0 then ""
    else if |parts| == 1 then parts[0]
    else parts[0] + glue + Join(glue, parts[1..])
  }

  /** `explode` cuts at every occurrence: one more piece than occurrences. */
  lemma {:induction false} ExplodeCount(d: string, s: string)
    requires |d| > 0
    ensures |Explode(d, s)| == Occurrences(d, s) + 1
    decreases |s|
  {
    match IndexOf(s, d)
    case Some(i) => ExplodeCount(d, s[i + |d|..]);
    case None =>
  }

  /** Gluing the pieces back with the delimiter gives the original string. */
  lemma {:induction false} JoinExplode(d: string, s: string)
    requires |d| > 0
    ensures Join(d, Explode(d, s)) == s
    decreases |s|
  {
    match IndexOf(s, d)
    case Some(i) =>
      var rest := s[i + |d|..];
      JoinExplode(d, rest);
      JoinCons(d, s[..i], Explode(d, rest));
      assert s[i..i + |d|] == d;
      assert s == s[..i] + s[i..i + |d|] + rest;
    case None =>
  }

  lemma JoinCons(glue: string, head: string, tail: seq<string>)
    requires |tail| > 0
    ensures Join(glue, [head] + tail) == head + glue + Join(glue, tail)
  {
    assert ([head] + tail)[1..] == tail;
  }

  /** No piece of `explode` contains the delimiter. */
  lemma {:induction false} ExplodePiecesFree(d: string, s: string)
    requires |d| > 0
    ensures forall k :: 0 <= k < |Explode(d, s)| ==> !Contains(Explode(d, s)[k], d)
    decreases |s|
  {
    match IndexOf(s, d)
    case Some(i) =>
      ExplodePiecesFree(d, s[i + |d|..]);
      forall j | 0 <= j ensures !OccursAt(s[..i], d, j) {
        if OccursAt(s[..i], d, j) {
          assert s[..i][j..j + |d|] == s[j..j + |d|];
          assert OccursAt(s, d, j);
        }
      }
    case None =>
  }

  /** A one-character delimiter occurs exactly where that character is. */
  lemma OccursAtChar(s: string, c: char, j: int)
    ensures OccursAt(s, [c], j) <==> 0 <= j < |s| && s[j] == c
  {
    if 0 <= j < |s| {
      assert s[j..j + 1] == [s[j]];
    }
  }

  /** Exploding on a character that the text does not hold gives the text alone. */
  lemma ExplodeWithoutChar(c: char, a: string)
    requires c !in a
    ensures Explode([c], a) == [a]
  {
    forall j | 0 <= j ensures !OccursAt(a, [c], j) {
      OccursAtChar(a, c, j);
    }
  }

  /** Exploding `a c b` on `c`, where neither side holds `c`, gives the two sides. */
  lemma ExplodeAtChar(c: char, a: string, b: string)
    requires c !in a && c !in b
    ensures Explode([c], a + [c] + b) == [a, b]
  {
    var s := a + [c] + b;
    OccursAtChar(s, c, |a|);
    forall j | 0 <= j < |a| ensures !OccursAt(s, [c], j) {
      OccursAtChar(s, c, j);
      assert s[j] == a[j];
    }
    match IndexOf(s, [c])
    case Some(i) =>
      OccursAtChar(s, c, i);
      assert i == |a|;
      assert s[..i] == a && s[i + 1..] == b;
      ExplodeWithoutChar(c, b);
    case None =>
      assert false;
  }

  /** `str_replace(from, to, s)`: every occurrence of `from`, left to right, replaced by `to`. */
  function Replace(s: string, from: string, to: string): string
    requires |from| > 0
  {
    Join(to, Explode(from, s))
  }

  lemma {:induction false} JoinFreeOfChar(glue: string, parts: seq<string>, c: char)
    requires c !in glue
    requires forall k :: 0 <= k < |parts| ==> c !in parts[k]
    ensures c !in Join(glue, parts)
  {
    if |parts| > 1 {
      JoinFreeOfChar(glue, parts[1..], c);
    }
  }

  /** After replacing every `"\n"` by a replacement without line feeds, no line feed is left. */
  lemma ReplaceRemovesLineFeeds(s: string, to: string)
    requires '\n' !in to
    ensures '\n' !in Replace(s, "\n", to)
  {
    var parts := Explode("\n", s);
    ExplodePiecesFree("\n", s);
    forall k | 0 <= k < |parts| ensures '\n' !in parts[k] {
      if '\n' in parts[k] {
        var j :| 0 <= j < |parts[k]| && parts[k][j] == '\n';
        assert parts[k][j..j + 1] == "\n";
        assert OccursAt(parts[k], "\n", j);
      }
    }
    JoinFreeOfChar(to, parts, '\n');
  }

  /** `explode(d, s, 2)` padded with `null`: the text before the first `d` and, if `d` occurs, the text after it. */
  function SplitFirst(s: string, d: string): (r: (string, Option<string>))
    requires |d| > 0
    ensures r.1.None? ==> r.0 == s && !Contains(s, d)
    ensures r.1.Some? ==> s == r.0 + d + r.1.value && !Contains(r.0, d)
  {
    match IndexOf(s, d)
    case Some(i) =>
      forall j | 0 <= j ensures !OccursAt(s[..i], d, j) {
        if OccursAt(s[..i], d, j) {
          assert s[..i][j..j + |d|] == s[j..j + |d|];
          assert j < i && OccursAt(s, d, j);
        }
      }
      assert s == s[..i] + d + s[i + |d|..];
      (s[..i], Some(s[i + |d|..]))
    case None => (s, None)
  }

  // ---------------------------------------------------------------- numbers

  function DigitChar(n: nat): char
    requires n < 10
  {
    ['0', '1', '2', '3', '4', '5', '6', '7', '8', '9'][n]
  }

  /** PHP's conversion of a non-negative integer to its decimal string. */
  function NatToString(n: nat): (r: string)
    ensures |r| > 0
    ensures forall i :: 0 <= i < |r| ==> '0' <= r[i] <= '9'
    ensures n > 0 ==> r[0] != '0'
    decreases n
  {
    if n < 10 then [DigitChar(n)] else NatToString(n / 10) + [DigitChar(n % 10)]
  }

  lemma DigitCharInjective(a: nat, b: nat)
    requires a < 10 && b < 10 && DigitChar(a) == DigitChar(b)
    ensures a == b
  {
  }

  lemma NatToStringLength(n: nat)
    ensures n < 10 <==> |NatToString(n)| == 1
  {
    if n >= 10 {
      assert |NatToString(n)| == |NatToString(n / 10)| + 1;
    }
  }

  /** Different numbers have different decimal strings. */
  lemma {:induction false} NatToStringInjective(a: nat, b: nat)
    requires NatToString(a) == NatToString(b)
    ensures a == b
    decreases a
  {
    NatToStringLength(a);
    NatToStringLength(b);
    var s := NatToString(a);
    if a < 10 {
      DigitCharInjective(a, b);
    } else {
      assert s == NatToString(a / 10) + [DigitChar(a % 10)];
      assert s == NatToString(b / 10) + [DigitChar(b % 10)];
      assert s[|s| - 1] == DigitChar(a % 10) && s[|s| - 1] == DigitChar(b % 10);
      DigitCharInjective(a % 10, b % 10);
      assert s[..|s| - 1] == NatToString(a / 10) == NatToString(b / 10);
      NatToStringInjective(a / 10, b / 10);
    }
  }

  /** PHP's truthiness of a string: everything except `""` and `"0"`. */
  predicate Truthy(s: string) {
    s != "" && s != "0"
  }
}
