/**
 * The two `re.findall` calls of the resume parser, modelled as the
 * backtracking matcher runs them: at each position the pattern is tried,
 * greedy quantifiers first take as much as they can and give back one
 * character at a time, and after a match the search resumes at its end
 * (after a failure, one position further on).  The email pattern is a run
 * of non-whitespace, an `@` and another run of non-whitespace; the phone
 * pattern is an optional `+` followed by ten to twelve decimal digits.
 *
 * Each matcher is then related to a declarative description of what it finds.
 */
module Patterns {
  import opened Strings
  import opened Wrappers

  // ================================================================ \S+

  /** Where a greedy `\S+` started at `i` stops: the end of the run of
      non-space characters beginning at `i` (`i` itself if there is none). */
  function RunEnd(s: string, i: nat): (e: nat)
    requires i <= |s|
    ensures i <= e <= |s|
    ensures forall k | i <= k < e :: !IsSpace(s[k])
    ensures e < |s| ==> IsSpace(s[e])
    ensures i < |s| && !IsSpace(s[i]) ==> i < e
    decreases |s| - i
  {
    if i < |s| && !IsSpace(s[i]) then RunEnd(s, i + 1) else i
  }

  /** Every position inside a run ends where the run ends. */
  lemma {:induction false} RunEndInside(s: string, i: nat, j: nat)
    requires i <= |s| && i <= j <= RunEnd(s, i)
    ensures RunEnd(s, j) == RunEnd(s, i)
    decreases j - i
  {
    if i < j {
      RunEndInside(s, i + 1, j);
    }
  }

  /** A run of `n` non-space characters followed by a space or by the end
      of the text ends `n` characters on. */
  lemma {:induction false} RunEndOfWord(s: string, i: nat, n: nat)
    requires i + n <= |s|
    requires forall k | i <= k < i + n :: !IsSpace(s[k])
    requires i + n == |s| || IsSpace(s[i + n])
    ensures RunEnd(s, i) == i + n
    decreases n
  {
    if n > 0 {
      RunEndOfWord(s, i + 1, n - 1);
    }
  }

  // ============================================================== emails

  /** The backtracking of `\S+@\S+` started at `i`: the first `\S+` is
      tried as `s[i..k]`, for `k` from its greedy end downwards; the split
      succeeds when `s[k]` is `@` and a non-space character follows, and
      the second, greedy `\S+` then ends the match. */
  function EmailTry(s: string, i: nat, k: nat): (m: Option<nat>)
    requires i < |s| && i < k <= RunEnd(s, i)
    ensures m.Some? ==> i < m.value <= |s|
    decreases k
  {
    if k + 1 < |s| && s[k] == '@' && !IsSpace(s[k + 1]) then Some(RunEnd(s, k + 1))
    else if k - 1 > i then EmailTry(s, i, k - 1)
    else None
  }

  /** The end of the match of `\S+@\S+` that starts at `i`, if any. */
  function EmailAt(s: string, i: nat): (m: Option<nat>)
    requires i < |s|
    ensures m.Some? ==> i < m.value <= |s|
  {
    if IsSpace(s[i]) then None else EmailTry(s, i, RunEnd(s, i))
  }

  /** All email matches, left to right, searching from position `pos` on. */
  function EmailsFrom(s: string, pos: nat): seq<string>
    requires pos <= |s|
    decreases |s| - pos
  {
    if pos == |s| then []
    else match EmailAt(s, pos)
      case Some(e) => [s[pos..e]] + EmailsFrom(s, e)
      case None => EmailsFrom(s, pos + 1)
  }

  /** A whitespace-delimited token holding an `@` with at least one
      character on either side of it. */
  predicate IsEmailToken(t: string) {
    && |t| > 0
    && (forall k | 0 <= k < |t| :: !IsSpace(t[k]))
    && exists j | 0 < j < |t| - 1 :: t[j] == '@'
  }

  /** `s.split()` from position `pos` on: the maximal runs of non-space
      characters, in order. */
  function TokensFrom(s: string, pos: nat): seq<string>
    requires pos <= |s|
    decreases |s| - pos
  {
    if pos == |s| then []
    else if IsSpace(s[pos]) then TokensFrom(s, pos + 1)
    else [s[pos..RunEnd(s, pos)]] + TokensFrom(s, RunEnd(s, pos))
  }

  function EmailTokens(tokens: seq<string>): seq<string> {
    if tokens == [] then []
    else (if IsEmailToken(tokens[0]) then [tokens[0]] else []) + EmailTokens(tokens[1..])
  }

  /** The email matches of a text: exactly its whitespace-delimited tokens
      with an inner `@`, left to right, duplicates kept. */
  function FindEmails(text: string): (r: seq<string>)
    ensures r == EmailTokens(TokensFrom(text, 0))
    ensures forall k | 0 <= k < |r| :: IsEmailToken(r[k])
  {
    EmailsMatchTokens(text, 0);
    EmailTokensSound(TokensFrom(text, 0));
    EmailsFrom(text, 0)
  }

  lemma {:induction false} EmailTokensSound(tokens: seq<string>)
    ensures forall k | 0 <= k < |EmailTokens(tokens)| :: IsEmailToken(EmailTokens(tokens)[k])
  {
    if tokens != [] {
      EmailTokensSound(tokens[1..]);
    }
  }

  /** The backtracking search succeeds exactly when some `@` inside the
      run, before `k` included, is followed by another character of the
      run; the match then ends with the run. */
  lemma {:induction false} EmailTryFinds(s: string, i: nat, k: nat)
    requires i < |s| && i < k <= RunEnd(s, i)
    ensures EmailTry(s, i, k) ==
      if exists j | i < j <= k :: j + 1 < RunEnd(s, i) && s[j] == '@'
      then Some(RunEnd(s, i)) else None
    decreases k
  {
    var e := RunEnd(s, i);
    if k + 1 < |s| && s[k] == '@' && !IsSpace(s[k + 1]) {
      assert k + 1 < e;
      RunEndInside(s, i, k + 1);
    } else {
      assert !(k + 1 < e && s[k] == '@');
      if k - 1 > i {
        EmailTryFinds(s, i, k - 1);
      }
    }
  }

  /** A match starts at `i` exactly when the run from `i` is an email token. */
  lemma EmailAtToken(s: string, i: nat)
    requires i < |s|
    ensures EmailAt(s, i) ==
      if IsEmailToken(s[i..RunEnd(s, i)]) then Some(RunEnd(s, i)) else None
  {
    var e := RunEnd(s, i);
    var t := s[i..e];
    if !IsSpace(s[i]) {
      EmailTryFinds(s, i, e);
      if exists j | i < j <= e :: j + 1 < e && s[j] == '@' {
        var j :| i < j <= e && j + 1 < e && s[j] == '@';
        assert t[j - i] == '@';
      }
      if IsEmailToken(t) {
        var j :| 0 < j < |t| - 1 && t[j] == '@';
        assert s[i + j] == '@';
      }
    }
  }

  /** The matcher returns exactly the email tokens, from any position. */
  lemma {:induction false} EmailsMatchTokens(s: string, pos: nat)
    requires pos <= |s|
    ensures EmailsFrom(s, pos) == EmailTokens(TokensFrom(s, pos))
    decreases |s| - pos
  {
    if pos < |s| {
      EmailAtToken(s, pos);
      var e := RunEnd(s, pos);
      if IsSpace(s[pos]) {
        EmailsMatchTokens(s, pos + 1);
      } else if EmailAt(s, pos).Some? {
        EmailsMatchTokens(s, e);
        assert ([s[pos..e]] + TokensFrom(s, e))[1..] == TokensFrom(s, e);
      } else {
        EmailsMatchTokens(s, pos + 1);
        EmailsMatchTokens(s, e);
        assert ([s[pos..e]] + TokensFrom(s, e))[1..] == TokensFrom(s, e);
        if pos + 1 < e {
          RunEndInside(s, pos, pos + 1);
          var u := s[pos + 1..e];
          assert ([u] + TokensFrom(s, e))[1..] == TokensFrom(s, e);
        }
      }
    }
  }

  /** Emails never cross whitespace: the matches in a text that is cut
      after a whitespace character are those of the two pieces. */
  lemma FindEmailsAppend(p: string, q: string)
    requires |p| > 0 && IsSpace(p[|p| - 1])
    ensures FindEmails(p + q) == FindEmails(p) + FindEmails(q)
  {
    TokensAppend(p, q, 0);
    EmailTokensAppend(TokensFrom(p, 0), TokensFrom(q, 0));
  }

  lemma {:induction false} EmailTokensAppend(a: seq<string>, b: seq<string>)
    ensures EmailTokens(a + b) == EmailTokens(a) + EmailTokens(b)
  {
    if a == [] {
      assert a + b == b;
    } else {
      assert (a + b)[0] == a[0];
      assert (a + b)[1..] == a[1..] + b;
      EmailTokensAppend(a[1..], b);
    }
  }

  /** A run that starts at or after `d` is measured in `s[d..]` alone. */
  lemma {:induction false} RunEndSuffix(s: string, d: nat, j: nat)
    requires d + j <= |s|
    ensures RunEnd(s, d + j) == d + RunEnd(s[d..], j)
    decreases |s| - d - j
  {
    if d + j < |s| {
      assert s[d..][j] == s[d + j];
      if !IsSpace(s[d + j]) {
        RunEndSuffix(s, d, j + 1);
      }
    }
  }

  /** A run that starts inside `p` stops at the whitespace that ends `p`. */
  lemma {:induction false} RunEndPrefix(p: string, q: string, k: nat)
    requires k < |p| && IsSpace(p[|p| - 1])
    ensures RunEnd(p + q, k) == RunEnd(p, k)
    decreases |p| - k
  {
    assert (p + q)[k] == p[k];
    if !IsSpace(p[k]) {
      RunEndPrefix(p, q, k + 1);
    }
  }

  /** The tokens from `d + j` on are those of `s[d..]` from `j` on. */
  lemma {:induction false} TokensSuffix(s: string, d: nat, j: nat)
    requires d + j <= |s|
    ensures TokensFrom(s, d + j) == TokensFrom(s[d..], j)
    decreases |s| - d - j
  {
    var t := s[d..];
    if d + j < |s| {
      assert t[j] == s[d + j];
      if IsSpace(s[d + j]) {
        TokensSuffix(s, d, j + 1);
        assert TokensFrom(s, d + j) == TokensFrom(s, d + j + 1);
        assert TokensFrom(t, j) == TokensFrom(t, j + 1);
      } else {
        RunEndSuffix(s, d, j);
        var e := RunEnd(t, j);
        SliceOfSuffix(s, d, j, e);
        TokensSuffix(s, d, e);
        assert TokensFrom(s, d + j) == [s[d + j..d + e]] + TokensFrom(s, d + e);
        assert TokensFrom(t, j) == [t[j..e]] + TokensFrom(t, e);
      }
    }
  }

  lemma SliceOfSuffix(s: string, d: nat, a: nat, b: nat)
    requires d + a <= d + b <= |s|
    ensures s[d..][a..b] == s[d + a..d + b]
  {
  }

  lemma {:induction false} TokensAppend(p: string, q: string, k: nat)
    requires k <= |p| && |p| > 0 && IsSpace(p[|p| - 1])
    ensures TokensFrom(p + q, k) == TokensFrom(p, k) + TokensFrom(q, 0)
    decreases |p| - k
  {
    if k == |p| {
      TokensSuffix(p + q, |p|, 0);
      assert (p + q)[|p|..] == q;
    } else {
      assert (p + q)[k] == p[k];
      if IsSpace(p[k]) {
        TokensAppend(p, q, k + 1);
      } else {
        RunEndPrefix(p, q, k);
        var e := RunEnd(p, k);
        assert (p + q)[k..e] == p[k..e];
        TokensAppend(p, q, e);
      }
    }
  }

  /** A single word, alone or followed by a space, is its own token. */
  lemma {:induction false} WordTokens(w: string)
    requires w != [] && forall k | 0 <= k < |w| :: !IsSpace(w[k])
    ensures TokensFrom(w, 0) == [w]
    ensures TokensFrom(w + " ", 0) == [w]
  {
    RunEndOfWord(w, 0, |w|);
    assert w[0..|w|] == w;
    var t := w + " ";
    assert forall k | 0 <= k < |w| :: t[k] == w[k];
    RunEndOfWord(t, 0, |w|);
    assert t[..|w|] == w;
    assert TokensFrom(t, |w|) == TokensFrom(t, |w| + 1);
  }

  /** Splitting words joined by single spaces gives the words back. */
  lemma {:induction false} TokensOfJoin(ws: seq<string>)
    requires forall i | 0 <= i < |ws| :: ws[i] != [] && forall k | 0 <= k < |ws[i]| :: !IsSpace(ws[i][k])
    ensures TokensFrom(Join(ws, " "), 0) == ws
  {
    if |ws| == 1 {
      WordTokens(ws[0]);
    } else if |ws| > 1 {
      WordTokens(ws[0]);
      TokensOfJoin(ws[1..]);
      var p := ws[0] + " ";
      TokensAppend(p, Join(ws[1..], " "), 0);
      assert Join(ws, " ") == p + Join(ws[1..], " ");
      assert ws == [ws[0]] + ws[1..];
    }
  }

  /** A worked example: both permissive matches, in order. */
  lemma {:induction false} EmailExample(s: string)
    requires s == "contact me at a.b@x.com or c@d"
    ensures FindEmails(s) == ["a.b@x.com", "c@d"]
  {
    var ws := ["contact", "me", "at", "a.b@x.com", "or", "c@d"];
    ExampleWords(ws);
    TokensOfJoin(ws);
    ExampleEmailTokens(ws);
  }

  lemma {:induction false} ExampleWords(ws: seq<string>)
    requires ws == ["contact", "me", "at", "a.b@x.com", "or", "c@d"]
    ensures Join(ws, " ") == "contact me at a.b@x.com or c@d"
  {
    var j5 := Join(ws[5..], " ");
    var j4 := Join(ws[4..], " ");
    var j3 := Join(ws[3..], " ");
    var j2 := Join(ws[2..], " ");
    var j1 := Join(ws[1..], " ");
    assert j4 == "or" + " " + j5;
    assert j3 == "a.b@x.com" + " " + j4;
    assert j2 == "at" + " " + j3;
    assert j1 == "me" + " " + j2;
    assert Join(ws, " ") == "contact" + " " + j1;
  }

  lemma {:induction false} ExampleEmailTokens(ws: seq<string>)
    requires ws == ["contact", "me", "at", "a.b@x.com", "or", "c@d"]
    ensures EmailTokens(ws) == [ws[3], ws[5]]
  {
    assert IsEmailToken(ws[3]) by { assert ws[3][3] == '@'; }
    assert IsEmailToken(ws[5]) by { assert ws[5][1] == '@'; }
    assert !IsEmailToken(ws[0]) && !IsEmailToken(ws[1]) && !IsEmailToken(ws[2]) && !IsEmailToken(ws[4]);
    assert EmailTokens(ws[5..]) == [ws[5]];
    assert EmailTokens(ws[4..]) == [ws[5]];
    assert EmailTokens(ws[3..]) == [ws[3], ws[5]];
    assert EmailTokens(ws[2..]) == [ws[3], ws[5]];
    assert EmailTokens(ws[1..]) == [ws[3], ws[5]];
  }

  /** A text of whitespace has no tokens. */
  lemma {:induction false} TokensOfSpace(s: string, pos: nat)
    requires pos <= |s| && AllSpace(s)
    ensures TokensFrom(s, pos) == []
    decreases |s| - pos
  {
    if pos < |s| {
      TokensOfSpace(s, pos + 1);
    }
  }

  /** A text of whitespace holds no email. */
  lemma BlankFindsNoEmail(text: string)
    requires AllSpace(text)
    ensures FindEmails(text) == []
  {
    TokensOfSpace(text, 0);
  }

  // ============================================================== phones

  /** How many digits a greedy `\d{..cap}` takes at `i`. */
  function DigitCount(s: string, i: nat, cap: nat): (n: nat)
    requires i <= |s|
    ensures n <= cap && i + n <= |s|
    ensures forall k | i <= k < i + n :: IsDigit(s[k])
    ensures n < cap && i + n < |s| ==> !IsDigit(s[i + n])
    decreases cap
  {
    if cap > 0 && i < |s| && IsDigit(s[i]) then 1 + DigitCount(s, i + 1, cap - 1) else 0
  }

  /** `\d{10,12}` at `j`: the end of the match, which takes as many digits
      (at most twelve) as there are. */
  function DigitsAt(s: string, j: nat): (m: Option<nat>)
    requires j <= |s|
    ensures m.Some? ==> j + 10 <= m.value <= j + 12 && m.value <= |s|
  {
    var n := DigitCount(s, j, 12);
    if n >= 10 then Some(j + n) else None
  }

  /** `\+?\d{10,12}` at `i`: the optional `+` is tried taken first, then
      left out. */
  function PhoneAt(s: string, i: nat): (m: Option<nat>)
    requires i < |s|
    ensures m.Some? ==> i < m.value <= |s|
  {
    var withPlus := if s[i] == '+' then DigitsAt(s, i + 1) else None;
    if withPlus.Some? then withPlus else DigitsAt(s, i)
  }

  datatype Span = Span(start: nat, end: nat)

  /** An optional `+` followed by ten to twelve digits. */
  predicate IsPhone(m: string) {
    || (10 <= |m| <= 12 && AllDigits(m))
    || (11 <= |m| <= 13 && m[0] == '+' && AllDigits(m[1..]))
  }

  /** A phone match can begin at `p`: ten digits, or `+` and ten digits. */
  predicate StartsPhone(s: string, p: nat) {
    || (p + 10 <= |s| && AllDigits(s[p..p + 10]))
    || (p + 11 <= |s| && s[p] == '+' && AllDigits(s[p + 1..p + 11]))
  }

  /** `\d{10,12}` matches at `j` exactly when ten digits follow; the match
      is all digits and stops at twelve digits or at a non-digit. */
  lemma DigitsAtShape(s: string, j: nat)
    requires j <= |s|
    ensures DigitsAt(s, j).Some? <==> j + 10 <= |s| && AllDigits(s[j..j + 10])
    ensures DigitsAt(s, j).Some? ==>
      var e := DigitsAt(s, j).value;
      AllDigits(s[j..e]) && (e == |s| || !IsDigit(s[e]) || e - j == 12)
  {
    var n := DigitCount(s, j, 12);
    if n >= 10 {
      assert AllDigits(s[j..j + 10]);
    }
  }

  /** The matcher finds a phone at `p` exactly when one can begin there,
      and the match is phone-shaped and greedy: it stops at twelve digits
      or at a non-digit. */
  lemma PhoneAtShape(s: string, p: nat)
    requires p < |s|
    ensures PhoneAt(s, p).Some? <==> StartsPhone(s, p)
    ensures PhoneAt(s, p).Some? ==> IsPhone(s[p..PhoneAt(s, p).value])
    ensures PhoneAt(s, p).Some? ==>
      var e := PhoneAt(s, p).value;
      e == |s| || !IsDigit(s[e]) || e - p == 12 || (s[p] == '+' && e - p == 13)
  {
    DigitsAtShape(s, p);
    if s[p] == '+' {
      DigitsAtShape(s, p + 1);
      assert DigitsAt(s, p).None? by {
        assert p + 10 > |s| || !IsDigit(s[p..p + 10][0]);
      }
      if DigitsAt(s, p + 1).Some? {
        var e := DigitsAt(s, p + 1).value;
        assert s[p..e][1..] == s[p + 1..e];
      }
    }
  }

  /** Spans of `s` at or after `pos`, in order, not overlapping, each
      covering a phone-shaped piece of `s`. */
  predicate PhoneSpans(s: string, pos: nat, r: seq<Span>) {
    && (forall k | 0 <= k < |r| :: pos <= r[k].start < r[k].end <= |s|)
    && (forall k | 0 <= k < |r| - 1 :: r[k].end <= r[k + 1].start)
    && (forall k | 0 <= k < |r| :: IsPhone(s[r[k].start..r[k].end]))
  }

  /** A phone followed by phone spans that begin at its end. */
  lemma PhoneSpansCons(s: string, pos: nat, e: nat, rest: seq<Span>)
    requires pos < e <= |s| && IsPhone(s[pos..e]) && PhoneSpans(s, e, rest)
    ensures PhoneSpans(s, pos, [Span(pos, e)] + rest)
  {
    var r := [Span(pos, e)] + rest;
    assert forall k | 1 <= k < |r| :: r[k] == rest[k - 1];
  }

  /** All phone matches from `pos` on, left to right, as the spans of the
      matches: in order, not overlapping, and each phone-shaped. */
  function PhoneSpansFrom(s: string, pos: nat): (r: seq<Span>)
    requires pos <= |s|
    ensures PhoneSpans(s, pos, r)
    decreases |s| - pos
  {
    if pos == |s| then []
    else
      PhoneAtShape(s, pos);
      match PhoneAt(s, pos)
      case Some(e) =>
        var rest := PhoneSpansFrom(s, e);
        PhoneSpansCons(s, pos, e, rest);
        [Span(pos, e)] + rest
      case None =>
        PhoneSpansFrom(s, pos + 1)
  }

  /** Every place at which a phone can begin lies inside one of the
      matches found from an earlier position: no candidate is skipped. */
  lemma {:induction false} PhoneSpansCover(s: string, pos: nat, p: nat)
    requires pos <= p < |s| && StartsPhone(s, p)
    ensures exists k | 0 <= k < |PhoneSpansFrom(s, pos)| ::
              PhoneSpansFrom(s, pos)[k].start <= p < PhoneSpansFrom(s, pos)[k].end
    decreases |s| - pos
  {
    var r := PhoneSpansFrom(s, pos);
    PhoneAtShape(s, pos);
    match PhoneAt(s, pos)
    case Some(e) =>
      if p >= e {
        PhoneSpansCover(s, e, p);
        var k :| 0 <= k < |PhoneSpansFrom(s, e)| &&
                 PhoneSpansFrom(s, e)[k].start <= p < PhoneSpansFrom(s, e)[k].end;
        assert r[k + 1] == PhoneSpansFrom(s, e)[k];
      } else {
        assert r[0] == Span(pos, e);
      }
    case None =>
      PhoneSpansCover(s, pos + 1, p);
  }

  /** The phone matches of a text, in order. */
  function FindPhones(text: string): (r: seq<string>)
    ensures forall k | 0 <= k < |r| :: IsPhone(r[k])
    ensures |r| <= |text| / 10
  {
    var spans := PhoneSpansFrom(text, 0);
    SpansBound(text, spans, 0);
    seq(|spans|, k requires 0 <= k < |spans| => text[spans[k].start..spans[k].end])
  }

  /** Disjoint spans of at least ten characters after `lo` fit in the text. */
  lemma {:induction false} SpansBound(s: string, spans: seq<Span>, lo: nat)
    requires lo <= |s|
    requires spans != [] ==> lo <= spans[0].start
    requires forall k | 0 <= k < |spans| :: spans[k].start + 10 <= spans[k].end <= |s|
    requires forall k | 0 <= k < |spans| - 1 :: spans[k].end <= spans[k + 1].start
    ensures lo + 10 * |spans| <= |s|
  {
    if spans != [] {
      SpansBound(s, spans[1..], spans[0].end);
    }
  }

  /** A phone-shaped piece of the text is a place where a phone can begin. */
  lemma PhoneStarts(s: string, a: nat, b: nat)
    requires a <= b <= |s| && IsPhone(s[a..b])
    ensures StartsPhone(s, a)
  {
    var m := s[a..b];
    if AllDigits(m) {
      assert s[a..a + 10] == m[..10];
    } else {
      var t := s[a + 1..a + 11];
      forall k | 0 <= k < 10 ensures IsDigit(t[k]) {
        assert t[k] == m[1..][k];
      }
    }
  }

  /** A text in which no ten digits follow one another has no phone match:
      shorter digit runs contribute nothing. */
  lemma NoTenDigitsNoPhones(text: string)
    requires forall p | 0 <= p < |text| :: !StartsPhone(text, p)
    ensures FindPhones(text) == []
  {
    var spans := PhoneSpansFrom(text, 0);
    if spans != [] {
      PhoneStarts(text, spans[0].start, spans[0].end);
    }
  }

  /** A text of whitespace holds no phone number. */
  lemma BlankFindsNoPhone(text: string)
    requires AllSpace(text)
    ensures FindPhones(text) == []
  {
    forall p | 0 <= p < |text| ensures !StartsPhone(text, p) {
      if p + 10 <= |text| {
        assert !IsDigit(text[p..p + 10][0]);
      }
      if p + 11 <= |text| {
        assert text[p] != '+';
      }
    }
    NoTenDigitsNoPhones(text);
  }
}
