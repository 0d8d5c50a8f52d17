/**
 * The Python `str` operations the parser and the viewers rely on:
 * `isspace`, `lower`, `in`, `join`, `split(sep)`, `strip()` and `str(n)`.
 * Character classes are those of ASCII; non-ASCII characters are never
 * whitespace, never digits and are left unchanged by `lower`.
 */
module Strings {

  /** `c.isspace()` on ASCII: space, `\t \n \v \f \r` and the separators
      0x1C-0x1F.  The `\s` class of `re` uses the same test. */
  predicate IsSpace(c: char) {
    var n := c as int;
    n == 32 || 9 <= n <= 13 || 28 <= n <= 31
  }

  /** The ASCII digits, the class `\d` is restricted to here. */
  predicate IsDigit(c: char) {
    '0' <= c <= '9'
  }

  predicate AllDigits(s: string) {
    forall k | 0 <= k < |s| :: IsDigit(s[k])
  }

  predicate AllSpace(s: string) {
    forall k | 0 <= k < |s| :: IsSpace(s[k])
  }

  // ---------------------------------------------------------------- lower

  function LowerChar(c: char): (d: char)
    ensures IsSpace(d) == IsSpace(c)
    ensures !('A' <= d <= 'Z')
    ensures !('A' <= c <= 'Z') ==> d == c
  {
    if 'A' <= c <= 'Z' then (c as int + 32) as char else c
  }

  /** `s.lower()`, character by character. */
  function Lower(s: string): (r: string)
    ensures |r| == |s|
    ensures forall k | 0 <= k < |s| :: r[k] == LowerChar(s[k])
  {
    seq(|s|, k requires 0 <= k < |s| => LowerChar(s[k]))
  }

  lemma LowerIdempotent(s: string)
    ensures Lower(Lower(s)) == Lower(s)
  {
  }

  lemma LowerSlice(s: string, i: nat, j: nat)
    requires i <= j <= |s|
    ensures Lower(s)[i..j] == Lower(s[i..j])
  {
  }

  // ------------------------------------------------------------------ in

  /** `sub in s`: `sub` occurs as a contiguous piece of `s`. */
  predicate Contains(s: string, sub: string) {
    exists i: nat | i <= |s| :: OccursAt(s, sub, i)
  }

  /** `sub` occurs in `s` starting at position `i`. */
  predicate OccursAt(s: string, sub: string, i: nat) {
    i + |sub| <= |s| && s[i..i + |sub|] == sub
  }

  /** A piece found in a slice of `s` is found in `s`. */
  lemma ContainsInSlice(s: string, a: nat, b: nat, sub: string)
    requires a <= b <= |s|
    requires Contains(s[a..b], sub)
    ensures Contains(s, sub)
  {
    var i: nat :| i <= b - a && OccursAt(s[a..b], sub, i);
    assert i + |sub| <= b - a;
    forall k | 0 <= k < |sub| ensures s[a + i + k] == sub[k] {
      assert s[a..b][i..i + |sub|][k] == sub[k];
    }
    assert s[a + i..a + i + |sub|] == sub;
    assert OccursAt(s, sub, a + i);
  }

  /** A piece of a piece of `s` is a piece of `s`. */
  lemma ContainsTrans(s: string, m: string, sub: string)
    requires Contains(s, m) && Contains(m, sub)
    ensures Contains(s, sub)
  {
    var i: nat :| i <= |s| && OccursAt(s, m, i);
    ContainsInSlice(s, i, i + |m|, sub);
  }

  /** A text made of whitespace contains no piece with a non-space character. */
  lemma AllSpaceContainsNothing(s: string, sub: string, k: nat)
    requires AllSpace(s)
    requires k < |sub| && !IsSpace(sub[k])
    ensures !Contains(s, sub)
  {
  }

  /** Every piece of a text of whitespace is whitespace. */
  lemma AllSpaceContains(s: string, sub: string)
    requires AllSpace(s) && Contains(s, sub)
    ensures AllSpace(sub)
  {
    var i: nat :| i <= |s| && OccursAt(s, sub, i);
    forall k | 0 <= k < |sub| ensures IsSpace(sub[k]) {
      assert sub[k] == s[i..i + |sub|][k] == s[i + k];
    }
  }

  /** Lower-casing keeps whitespace. */
  lemma LowerAllSpace(s: string)
    requires AllSpace(s)
    ensures AllSpace(Lower(s))
  {
    forall k | 0 <= k < |s| ensures IsSpace(Lower(s)[k]) {
      assert Lower(s)[k] == LowerChar(s[k]);
    }
  }

  // ---------------------------------------------------------------- join

  /** `sep.join(parts)`. */
  function Join(parts: seq<string>, sep: string): string
  {
    if |parts| == 0 then ""
    else if |parts| == 1 then parts[0]
    else parts[0] + sep + Join(parts[1..], sep)
  }

  lemma {:induction false} JoinSnoc(parts: seq<string>, x: string, sep: string)
    ensures Join(parts + [x], sep) == if parts == [] then x else Join(parts, sep) + sep + x
  {
    if |parts| > 1 {
      assert (parts + [x])[1..] == parts[1..] + [x];
      JoinSnoc(parts[1..], x, sep);
    }
  }

  /** The joined text is empty exactly when there are no parts, provided
      no part is empty itself. */
  lemma JoinEmptyIff(parts: seq<string>, sep: string)
    requires forall k | 0 <= k < |parts| :: parts[k] != ""
    ensures Join(parts, sep) == "" <==> parts == []
  {
  }

  /** Every part appears, in full, in the joined text. */
  lemma {:induction false} JoinContainsPart(parts: seq<string>, sep: string, k: nat)
    requires k < |parts|
    ensures Contains(Join(parts, sep), parts[k])
  {
    var j := Join(parts, sep);
    if |parts| == 1 {
      assert OccursAt(j, parts[0], 0);
    } else if k == 0 {
      assert j[0..|parts[0]|] == parts[0];
      assert OccursAt(j, parts[0], 0);
    } else {
      JoinContainsPart(parts[1..], sep, k - 1);
      var off := |parts[0] + sep|;
      assert j == (parts[0] + sep) + Join(parts[1..], sep);
      assert j[off..|j|] == Join(parts[1..], sep);
      ContainsInSlice(j, off, |j|, parts[k]);
    }
  }

  /** Joining with an empty separator is concatenation, one part at a time. */
  lemma JoinNoSeparatorSnoc(parts: seq<string>, x: string)
    ensures Join(parts + [x], "") == Join(parts, "") + x
  {
    JoinSnoc(parts, x, "");
  }

  // --------------------------------------------------------------- split

  /** The position of the first `c` in `s`, or `|s|` when there is none. */
  function IndexOf(s: string, c: char): (r: nat)
    ensures r <= |s|
    ensures forall k | 0 <= k < r :: s[k] != c
    ensures r < |s| ==> s[r] == c
  {
    if |s| == 0 || s[0] == c then 0 else 1 + IndexOf(s[1..], c)
  }

  /** `s.split(c)` with an explicit one-character separator: always at
      least one part, and empty parts are kept. */
  function Split(s: string, c: char): (parts: seq<string>)
    ensures |parts| >= 1
    ensures forall k | 0 <= k < |parts| :: c !in parts[k]
    ensures forall k | 0 <= k < |parts| :: |parts[k]| <= |s|
    decreases |s|
  {
    var i := IndexOf(s, c);
    if i == |s| then [s] else [s[..i]] + Split(s[i + 1..], c)
  }

  /** Splitting and joining back with the same separator gives the text. */
  lemma {:induction false} JoinSplit(s: string, c: char)
    ensures Join(Split(s, c), [c]) == s
    decreases |s|
  {
    var i := IndexOf(s, c);
    if i < |s| {
      var rest := Split(s[i + 1..], c);
      JoinSplit(s[i + 1..], c);
      var parts := [s[..i]] + rest;
      assert parts[1..] == rest;
      assert Join(parts, [c]) == s[..i] + [c] + Join(rest, [c]);
      assert s == s[..i] + [c] + s[i + 1..];
    }
  }

  /** Joining parts that hold no separator and splitting again gives the parts. */
  lemma {:induction false} SplitJoin(parts: seq<string>, c: char)
    requires |parts| >= 1
    requires forall k | 0 <= k < |parts| :: c !in parts[k]
    ensures Split(Join(parts, [c]), c) == parts
  {
    var s := Join(parts, [c]);
    if |parts| > 1 {
      var rest := Join(parts[1..], [c]);
      assert s == parts[0] + [c] + rest;
      var i := IndexOf(s, c);
      assert s[|parts[0]|] == c;
      assert i == |parts[0]|;
      assert s[..i] == parts[0];
      assert s[i + 1..] == rest;
      SplitJoin(parts[1..], c);
    }
  }

  /** Whitespace parts joined by a whitespace separator give whitespace. */
  lemma {:induction false} JoinAllSpace(parts: seq<string>, sep: string)
    requires AllSpace(sep)
    requires forall k | 0 <= k < |parts| :: AllSpace(parts[k])
    ensures AllSpace(Join(parts, sep))
  {
    if |parts| > 1 {
      JoinAllSpace(parts[1..], sep);
      var t := Join(parts[1..], sep);
      var j := parts[0] + sep + t;
      forall k | 0 <= k < |j| ensures IsSpace(j[k]) {
        if k < |parts[0]| {
          assert j[k] == parts[0][k];
        } else if k < |parts[0]| + |sep| {
          assert j[k] == sep[k - |parts[0]|];
        } else {
          assert j[k] == t[k - |parts[0]| - |sep|];
        }
      }
    }
  }

  /** The lines of a text of whitespace are whitespace. */
  lemma {:induction false} SplitAllSpace(s: string, c: char)
    requires AllSpace(s)
    ensures forall k | 0 <= k < |Split(s, c)| :: AllSpace(Split(s, c)[k])
  {
    var parts := Split(s, c);
    JoinSplit(s, c);
    forall k | 0 <= k < |parts| ensures AllSpace(parts[k]) {
      JoinContainsPart(parts, [c], k);
      AllSpaceContains(s, parts[k]);
    }
  }

  /** Concatenation is associative; stated once so that proofs about
      lists built front to back need not rediscover it. */
  lemma AppendAssoc<T>(x: seq<T>, y: seq<T>, z: seq<T>)
    ensures x + (y + z) == (x + y) + z
  {
  }

  // --------------------------------------------------------------- strip

  /** The number of whitespace characters that `s` starts with. */
  function LeadingSpace(s: string): (n: nat)
    ensures n <= |s|
    ensures forall k | 0 <= k < n :: IsSpace(s[k])
    ensures n < |s| ==> !IsSpace(s[n])
  {
    if |s| > 0 && IsSpace(s[0]) then 1 + LeadingSpace(s[1..]) else 0
  }

  /** The position where the whitespace that `s` ends with begins. */
  function TrailingStart(s: string): (n: nat)
    ensures n <= |s|
    ensures forall k | n <= k < |s| :: IsSpace(s[k])
    ensures n > 0 ==> !IsSpace(s[n - 1])
  {
    if |s| > 0 && IsSpace(s[|s| - 1]) then TrailingStart(s[..|s| - 1]) else |s|
  }

  /** `s.strip()`: the slice of `s` left after removing the whitespace at
      both ends.  The result is empty exactly when `s` is all whitespace,
      and otherwise starts and ends with a non-space character. */
  function Strip(s: string): (r: string)
    ensures |r| <= |s|
    ensures r == "" <==> AllSpace(s)
    ensures r != "" ==> !IsSpace(r[0]) && !IsSpace(r[|r| - 1])
    ensures exists i: nat :: OccursAt(s, r, i) && AllSpace(s[..i]) && AllSpace(s[i + |r|..])
  {
    var i := LeadingSpace(s);
    if i == |s| then
      assert s[0..0] == "" && s[..0] == "" && s[0..] == s;
      ""
    else
      var j := TrailingStart(s);
      assert i < j;
      assert s[..i] == s[..i] && AllSpace(s[..i]);
      assert AllSpace(s[j..]);
      s[i..j]
  }

  /** Stripping brings in no new character. */
  lemma StripKeepsOut(s: string, c: char)
    requires c !in s
    ensures c !in Strip(s)
  {
    var r := Strip(s);
    var i: nat :| OccursAt(s, r, i) && AllSpace(s[..i]) && AllSpace(s[i + |r|..]);
    forall k | 0 <= k < |r| ensures r[k] != c {
      assert r[k] == s[i + k];
    }
  }

  /** A piece that starts and ends with a non-space character survives `strip`. */
  lemma StripKeepsPiece(s: string, sub: string)
    requires Contains(s, sub)
    requires sub != "" && !IsSpace(sub[0]) && !IsSpace(sub[|sub| - 1])
    ensures Contains(Strip(s), sub)
  {
    var p: nat :| p <= |s| && OccursAt(s, sub, p);
    var q := p + |sub| - 1;
    assert s[p] == sub[0] && s[q] == sub[|sub| - 1] by {
      assert s[p..p + |sub|] == sub;
    }
    NonSpaceInside(s, p);
    NonSpaceInside(s, q);
    var i, j := LeadingSpace(s), TrailingStart(s);
    assert Strip(s) == s[i..j];
    OccursInSlice(s, sub, p, i, j);
  }

  /** A piece of `s` that lies inside the slice `s[a..b]` occurs in the slice. */
  lemma OccursInSlice(s: string, sub: string, p: nat, a: nat, b: nat)
    requires OccursAt(s, sub, p) && a <= p && p + |sub| <= b <= |s|
    ensures OccursAt(s[a..b], sub, p - a)
  {
    var t := s[a..b];
    forall k | 0 <= k < |sub| ensures t[p - a + k] == sub[k] {
      assert t[p - a + k] == s[p + k];
      assert s[p..p + |sub|][k] == s[p + k];
    }
    assert t[p - a..p - a + |sub|] == sub;
  }

  /** A non-space character lies between the leading and the trailing
      whitespace. */
  lemma NonSpaceInside(s: string, p: nat)
    requires p < |s| && !IsSpace(s[p])
    ensures LeadingSpace(s) <= p < TrailingStart(s)
  {
  }

  /** `lower` and `strip` commute, since `lower` keeps whitespace where it is. */
  lemma {:induction false} LowerStrip(s: string)
    ensures Lower(Strip(s)) == Strip(Lower(s))
  {
    LeadingLower(s);
    TrailingLower(s);
    var i := LeadingSpace(s);
    if i < |s| {
      LowerSlice(s, i, TrailingStart(s));
    }
  }

  lemma {:induction false} LeadingLower(s: string)
    ensures LeadingSpace(Lower(s)) == LeadingSpace(s)
  {
    if |s| > 0 && IsSpace(s[0]) {
      assert Lower(s)[1..] == Lower(s[1..]);
      LeadingLower(s[1..]);
    }
  }

  lemma {:induction false} TrailingLower(s: string)
    ensures TrailingStart(Lower(s)) == TrailingStart(s)
  {
    if |s| > 0 && IsSpace(s[|s| - 1]) {
      assert Lower(s)[..|s| - 1] == Lower(s[..|s| - 1]);
      TrailingLower(s[..|s| - 1]);
    }
  }

  // --------------------------------------------------------------- str(n)

  function DigitChar(d: nat): (c: char)
    requires d < 10
    ensures IsDigit(c)
  {
    ('0' as int + d) as char
  }

  function DigitValue(c: char): (d: nat)
    requires IsDigit(c)
    ensures d < 10
  {
    c as int - '0' as int
  }

  /** `str(n)` for a natural number: its decimal digits, without leading
      zeros except for `0` itself. */
  function NatToString(n: nat): (r: string)
    ensures |r| >= 1 && AllDigits(r)
    ensures (r[0] == '0') == (n == 0)
    ensures r[0] == '0' ==> |r| == 1
  {
    if n < 10 then [DigitChar(n)] else NatToString(n / 10) + [DigitChar(n % 10)]
  }

  /** Reads back a string of decimal digits, most significant first. */
  function ParseDecimal(s: string): nat
    requires AllDigits(s)
  {
    if s == [] then 0 else ParseDecimal(s[..|s| - 1]) * 10 + DigitValue(s[|s| - 1])
  }

  lemma {:induction false} ParseNatToString(n: nat)
    ensures ParseDecimal(NatToString(n)) == n
  {
    if n >= 10 {
      var r := NatToString(n);
      assert r[..|r| - 1] == NatToString(n / 10);
      ParseNatToString(n / 10);
    }
  }

  /** Different numbers print differently. */
  lemma NatToStringInjective(m: nat, n: nat)
    requires NatToString(m) == NatToString(n)
    ensures m == n
  {
    ParseNatToString(m);
    ParseNatToString(n);
  }
}
