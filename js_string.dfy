/** The parts of JavaScript's string API that the backend relies on:
    `trim`, `split(" ")`, `startsWith`, `replace` with a global literal
    pattern and the empty replacement, and `String(n)` on a row id. */
module JsString {
  import opened Base

  // ---------------------------------------------------------------------
  // trim
  // ---------------------------------------------------------------------

  /** The characters `String.prototype.trim` removes: ECMAScript WhiteSpace
      and LineTerminator. */
  predicate IsSpace(c: char) {
    c == '\t' || c == '\n' || c == '\U{000B}' || c == '\U{000C}' || c == '\r'
    || c == ' ' || c == '\U{00A0}' || c == '\U{1680}'
    || ('\U{2000}' <= c <= '\U{200A}')
    || c == '\U{2028}' || c == '\U{2029}' || c == '\U{202F}' || c == '\U{205F}'
    || c == '\U{3000}' || c == '\U{FEFF}'
  }

  predicate AllSpace(s: string) {
    forall k :: 0 <= k < |s| ==> IsSpace(s[k])
  }

  /** Neither end of `s` is white space: what `trim` leaves behind. */
  predicate IsTrimmed(s: string) {
    s == [] || (!IsSpace(s[0]) && !IsSpace(s[|s| - 1]))
  }

  /** Length of the white-space run at the front of `s`. */
  function LeadingSpace(s: string): (n: nat)
    ensures n <= |s|
    ensures forall k :: 0 <= k < n ==> IsSpace(s[k])
    ensures n < |s| ==> !IsSpace(s[n])
  {
    if s == [] || !IsSpace(s[0]) then 0 else 1 + LeadingSpace(s[1..])
  }

  /** Length of the white-space run at the back of `s`. */
  function TrailingSpace(s: string): (n: nat)
    ensures n <= |s|
    ensures forall k :: |s| - n <= k < |s| ==> IsSpace(s[k])
    ensures n < |s| ==> !IsSpace(s[|s| - 1 - n])
  {
    if s == [] || !IsSpace(s[|s| - 1]) then 0 else 1 + TrailingSpace(s[..|s| - 1])
  }

  /** `s.trimEnd()` */
  function TrimEnd(t: string): string {
    t[..|t| - TrailingSpace(t)]
  }

  /** `s.trim()`: the result is `s` with white space removed from both ends
      and nothing else, and it has no white space left at either end. */
  function Trim(s: string): (r: string)
    ensures IsTrimmed(r)
    ensures LeadingSpace(s) + |r| <= |s|
    ensures r == s[LeadingSpace(s) .. LeadingSpace(s) + |r|]
    ensures AllSpace(s[LeadingSpace(s) + |r| ..])
  {
    var a := LeadingSpace(s);
    var r := TrimEnd(s[a..]);
    assert r == s[a .. a + |r|];
    assert r != [] ==> r[0] == s[a];
    r
  }

  lemma {:induction false} LeadingSpaceAllSpace(s: string)
    ensures LeadingSpace(s) == |s| <==> AllSpace(s)
  {
  }

  /** `trim` yields the empty string exactly on all-white-space input. */
  lemma TrimEmpty(s: string)
    ensures Trim(s) == "" <==> AllSpace(s)
  {
    var a := LeadingSpace(s);
    LeadingSpaceAllSpace(s);
    assert a < |s| ==> s[a..][0] == s[a];
  }

  /** Text that is already trimmed is left as it is. */
  lemma TrimTrimmed(s: string)
    requires IsTrimmed(s)
    ensures Trim(s) == s
  {
    assert s != [] ==> LeadingSpace(s) == 0 && TrailingSpace(s) == 0;
  }

  /** `trim` is idempotent. */
  lemma TrimIdempotent(s: string)
    ensures Trim(Trim(s)) == Trim(s)
  {
    TrimTrimmed(Trim(s));
  }

  lemma {:induction false} LeadingSpaceAfterSpace(p: string, s: string)
    requires AllSpace(p)
    ensures LeadingSpace(p + s) == |p| + LeadingSpace(s)
    decreases |p|
  {
    if p != [] {
      assert (p + s)[1..] == p[1..] + s;
      LeadingSpaceAfterSpace(p[1..], s);
    } else {
      assert p + s == s;
    }
  }

  lemma {:induction false} LeadingSpacePrefix(s: string, q: string)
    requires LeadingSpace(s) < |s|
    ensures LeadingSpace(s + q) == LeadingSpace(s)
    decreases |s|
  {
    assert (s + q)[0] == s[0];
    if IsSpace(s[0]) {
      assert (s + q)[1..] == s[1..] + q;
      LeadingSpacePrefix(s[1..], q);
    }
  }

  lemma {:induction false} TrailingSpaceBeforeSpace(s: string, q: string)
    requires AllSpace(q)
    ensures TrailingSpace(s + q) == |q| + TrailingSpace(s)
    decreases |q|
  {
    if q != [] {
      assert (s + q)[..|s + q| - 1] == s + q[..|q| - 1];
      TrailingSpaceBeforeSpace(s, q[..|q| - 1]);
    } else {
      assert s + q == s;
    }
  }

  lemma TrimAfterSpace(p: string, s: string)
    requires AllSpace(p)
    ensures Trim(p + s) == Trim(s)
  {
    LeadingSpaceAfterSpace(p, s);
    assert (p + s)[|p| + LeadingSpace(s)..] == s[LeadingSpace(s)..];
  }

  lemma TrimBeforeSpace(s: string, q: string)
    requires AllSpace(q)
    ensures Trim(s + q) == Trim(s)
  {
    if AllSpace(s) {
      assert AllSpace(s + q) by {
        forall k | 0 <= k < |s + q| ensures IsSpace((s + q)[k]) {
          assert k < |s| ==> (s + q)[k] == s[k];
          assert k >= |s| ==> (s + q)[k] == q[k - |s|];
        }
      }
      TrimEmpty(s + q);
      TrimEmpty(s);
    } else {
      LeadingSpaceAllSpace(s);
      var a := LeadingSpace(s);
      LeadingSpacePrefix(s, q);
      assert (s + q)[a..] == s[a..] + q;
      TrailingSpaceBeforeSpace(s[a..], q);
      assert TrimEnd(s[a..] + q) == TrimEnd(s[a..]);
    }
  }

  /** Surrounding `s` with white space does not change what `trim` returns. */
  lemma TrimPadded(p: string, s: string, q: string)
    requires AllSpace(p) && AllSpace(q)
    ensures Trim(p + s + q) == Trim(s)
  {
    TrimBeforeSpace(p + s, q);
    TrimAfterSpace(p, s);
  }

  // ---------------------------------------------------------------------
  // split(" ")
  // ---------------------------------------------------------------------

  /** Position of the first blank in `s`, if any. */
  function IndexOfBlank(s: string): (r: Option<nat>)
    ensures r.Some? ==> r.value < |s| && s[r.value] == ' ' && ' ' !in s[..r.value]
    ensures r.None? ==> ' ' !in s
  {
    if s == [] then None
    else if s[0] == ' ' then Some(0)
    else match IndexOfBlank(s[1..])
      case None => None
      case Some(i) => assert s[..i + 1] == [s[0]] + s[1..][..i]; Some(i + 1)
  }

  /** `s.split(" ")`: the fields between single blanks, empty ones included;
      there is always at least one field and none contains a blank. */
  function Split(s: string): (fields: seq<string>)
    ensures |fields| >= 1
    ensures forall i :: 0 <= i < |fields| ==> ' ' !in fields[i]
    decreases |s|
  {
    match IndexOfBlank(s)
    case None => [s]
    case Some(i) => [s[..i]] + Split(s[i + 1..])
  }

  /** `fields.join(" ")` */
  function Join(fields: seq<string>): string {
    if fields == [] then ""
    else if |fields| == 1 then fields[0]
    else fields[0] + " " + Join(fields[1..])
  }

  /** Joining the fields again gives back the split text. */
  lemma {:induction false} JoinSplit(s: string)
    ensures Join(Split(s)) == s
    decreases |s|
  {
    match IndexOfBlank(s)
    case None =>
    case Some(i) =>
      var rest := Split(s[i + 1..]);
      var fields := [s[..i]] + rest;
      assert Split(s) == fields;
      assert |fields| > 1 && fields[0] == s[..i] && fields[1..] == rest;
      assert Join(fields) == s[..i] + " " + Join(rest);
      JoinSplit(s[i + 1..]);
      assert s == s[..i] + " " + s[i + 1..];
  }

  /** Splitting a join of blank-free fields gives back the fields. */
  lemma {:induction false} SplitJoin(fields: seq<string>)
    requires |fields| >= 1
    requires forall i :: 0 <= i < |fields| ==> ' ' !in fields[i]
    ensures Split(Join(fields)) == fields
    decreases |fields|
  {
    if |fields| > 1 {
      var f := fields[0];
      var rest := Join(fields[1..]);
      var s := f + " " + rest;
      assert s[|f|] == ' ';
      assert s[..|f|] == f;
      assert IndexOfBlank(s) == Some(|f|) by {
        IndexOfBlankFirst(s, |f|);
      }
      assert s[|f| + 1..] == rest;
      SplitJoin(fields[1..]);
    } else {
      assert Join(fields) == fields[0];
      assert IndexOfBlank(fields[0]).None?;
    }
  }

  lemma {:induction false} IndexOfBlankFirst(s: string, i: nat)
    requires i < |s| && s[i] == ' ' && ' ' !in s[..i]
    ensures IndexOfBlank(s) == Some(i)
  {
    if i > 0 {
      assert s[0] == s[..i][0];
      assert s[1..][..i - 1] == s[..i][1..];
      IndexOfBlankFirst(s[1..], i - 1);
    }
  }

  /** The second field of `s.split(" ")`, as taken by `const [, x] = s.split(" ")`. */
  function SecondField(s: string): (r: Option<string>)
    ensures r.None? <==> ' ' !in s
    ensures r.Some? ==> ' ' !in r.value
  {
    var fields := Split(s);
    assert ' ' !in s ==> fields == [s];
    if |fields| >= 2 then Some(fields[1]) else None
  }

  /** For a header of the form `<scheme> <token>` the second field is the token. */
  lemma SecondFieldOfPair(scheme: string, token: string)
    requires ' ' !in scheme && ' ' !in token
    ensures SecondField(scheme + " " + token) == Some(token)
  {
    SplitJoin([scheme, token]);
    assert Join([scheme, token]) == scheme + " " + token;
  }

  /** The second field is exactly the text between the first blank and the
      next one (or the end): for a blank-free `first`, a blank-free `field`
      and a `rest` that is empty or starts with a blank, the second field of
      `first + " " + field + rest` is `field`. Every text with a blank has
      this form, so with the contract of `SecondField` this fixes its value;
      in particular two blanks in a row give the empty field. */
  lemma SecondFieldOfSpan(first: string, field: string, rest: string)
    requires ' ' !in first && ' ' !in field
    requires rest == [] || rest[0] == ' '
    ensures SecondField(first + " " + field + rest) == Some(field)
  {
    var s := first + " " + field + rest;
    assert s[|first|] == ' ' && s[..|first|] == first;
    IndexOfBlankFirst(s, |first|);
    var tail := s[|first| + 1..];
    assert tail == field + rest;
    if rest == [] {
      assert tail == field;
      assert IndexOfBlank(tail).None?;
    } else {
      assert tail[|field|] == ' ' && tail[..|field|] == field;
      IndexOfBlankFirst(tail, |field|);
    }
    assert Split(tail)[0] == field;
  }

  // ---------------------------------------------------------------------
  // startsWith and replace(/pattern/g, "")
  // ---------------------------------------------------------------------

  /** ASCII case folding, as a non-Unicode `/i` regular expression applies it
      to the ASCII letters of a pattern. */
  function AsciiLower(c: char): char {
    if 'A' <= c <= 'Z' then (c as int + 32) as char else c
  }

  predicate SameChar(a: char, b: char, ignoreCase: bool) {
    a == b || (ignoreCase && AsciiLower(a) == AsciiLower(b))
  }

  /** `s` begins with `pat` (letters compared up to case when `ignoreCase`). */
  predicate StartsWith(s: string, pat: string, ignoreCase: bool) {
    |pat| <= |s| && forall k :: 0 <= k < |pat| ==> SameChar(s[k], pat[k], ignoreCase)
  }

  /** `pat` occurs somewhere in `s`. */
  predicate Occurs(s: string, pat: string, ignoreCase: bool) {
    exists k :: 0 <= k <= |s| && StartsWith(s[k..], pat, ignoreCase)
  }

  /** `s.replace(/pat/g, "")` (with flag `i` when `ignoreCase`): matches are
      found left to right and do not overlap. */
  function RemoveAll(s: string, pat: string, ignoreCase: bool): (r: string)
    requires |pat| > 0
    ensures |r| <= |s|
    decreases |s|
  {
    if s == [] then []
    else if StartsWith(s, pat, ignoreCase) then RemoveAll(s[|pat|..], pat, ignoreCase)
    else [s[0]] + RemoveAll(s[1..], pat, ignoreCase)
  }

  /** Text shorter than the pattern cannot contain it. */
  lemma OccursNeedsRoom(s: string, pat: string, ignoreCase: bool)
    requires |s| < |pat|
    ensures !Occurs(s, pat, ignoreCase)
  {
    forall k | 0 <= k <= |s| ensures !StartsWith(s[k..], pat, ignoreCase) {
    }
  }

  /** An occurrence in `[c] + s` is at its start or is one in `s`. */
  lemma OccursCons(c: char, s: string, pat: string, ignoreCase: bool)
    ensures Occurs([c] + s, pat, ignoreCase) <==>
            StartsWith([c] + s, pat, ignoreCase) || Occurs(s, pat, ignoreCase)
  {
    var cs := [c] + s;
    assert cs[0..] == cs;
    forall k | 1 <= k <= |cs| ensures cs[k..] == s[k - 1..] {
    }
    if Occurs(s, pat, ignoreCase) {
      var k :| 0 <= k <= |s| && StartsWith(s[k..], pat, ignoreCase);
      assert cs[k + 1..] == s[k..];
    }
  }

  /** A replacement that finds nothing returns its input, and one that finds
      something shortens it: the text is unchanged exactly when the pattern
      does not occur in it. */
  lemma {:induction false} RemoveAllUnchanged(s: string, pat: string, ignoreCase: bool)
    requires |pat| > 0
    ensures RemoveAll(s, pat, ignoreCase) == s <==> !Occurs(s, pat, ignoreCase)
    decreases |s|
  {
    if s == [] {
      OccursNeedsRoom(s, pat, ignoreCase);
    } else if StartsWith(s, pat, ignoreCase) {
      assert s[0..] == s;
      assert |RemoveAll(s[|pat|..], pat, ignoreCase)| < |s|;
    } else {
      RemoveAllUnchanged(s[1..], pat, ignoreCase);
      assert s == [s[0]] + s[1..];
      OccursCons(s[0], s[1..], pat, ignoreCase);
    }
  }

  /** A prefix that cannot start a match is copied through unchanged. */
  lemma {:induction false} RemoveAllSkipsPrefix(a: string, b: string, pat: string, ignoreCase: bool)
    requires |pat| > 0
    requires forall k :: 0 <= k < |a| ==> !SameChar(a[k], pat[0], ignoreCase)
    ensures RemoveAll(a + b, pat, ignoreCase) == a + RemoveAll(b, pat, ignoreCase)
    decreases |a|
  {
    if a == [] {
      assert a + b == b;
    } else {
      assert (a + b)[0] == a[0];
      assert !StartsWith(a + b, pat, ignoreCase);
      assert (a + b)[1..] == a[1..] + b;
      RemoveAllSkipsPrefix(a[1..], b, pat, ignoreCase);
    }
  }

  /** Text outside the matches is kept, in order: text none of whose
      characters can open a match is kept as it is, a match right after it
      is dropped, and the removal goes on after that. */
  lemma RemoveAllKeepsOutside(before: string, pat: string, after: string, ignoreCase: bool)
    requires |pat| > 0
    requires forall k :: 0 <= k < |before| ==> !SameChar(before[k], pat[0], ignoreCase)
    ensures RemoveAll(before + pat + after, pat, ignoreCase) == before + RemoveAll(after, pat, ignoreCase)
  {
    assert before + pat + after == before + (pat + after);
    RemoveAllSkipsPrefix(before, pat + after, pat, ignoreCase);
    RemoveAllAtMatch(pat, after, ignoreCase);
  }

  /** A match at the front is dropped and removal goes on after it. */
  lemma RemoveAllAtMatch(pat: string, after: string, ignoreCase: bool)
    requires |pat| > 0
    ensures RemoveAll(pat + after, pat, ignoreCase) == RemoveAll(after, pat, ignoreCase)
  {
    var s := pat + after;
    assert forall k :: 0 <= k < |pat| ==> s[k] == pat[k];
    assert StartsWith(s, pat, ignoreCase);
    assert s[|pat|..] == after;
  }

  lemma RemoveAllShort(s: string, pat: string, ignoreCase: bool)
    requires 0 < |pat| && |s| < |pat|
    ensures RemoveAll(s, pat, ignoreCase) == s
  {
    RemoveAllUnchanged(s, pat, ignoreCase);
    OccursNeedsRoom(s, pat, ignoreCase);
  }

  // ---------------------------------------------------------------------
  // Code fences
  // ---------------------------------------------------------------------

  /** Three backticks, the fence of a Markdown code block. */
  const Fence: string := "```"

  /** A fenced block's opening line with its language tag. */
  const FenceJson: string := "```json"

  /** After `replace(/```/g, "")` no run of three backticks is left, even where
      removing one brought backticks from both sides of it together. */
  lemma {:induction false} NoFenceLeft(s: string)
    ensures !Occurs(RemoveAll(s, Fence, false), Fence, false)
    decreases |s|
  {
    var r := RemoveAll(s, Fence, false);
    if s == [] {
      OccursNeedsRoom(r, Fence, false);
    } else if StartsWith(s, Fence, false) {
      NoFenceLeft(s[3..]);
    } else {
      var tail := RemoveAll(s[1..], Fence, false);
      NoFenceLeft(s[1..]);
      assert r == [s[0]] + tail;
      // a kept backtick is followed, in `s`, by at most one more backtick
      // and then by a character that cannot start a fence; both are kept
      assert !StartsWith(r, Fence, false) by {
        if s[0] == '`' && |s| >= 2 {
          var rest := RemoveAll(s[2..], Fence, false);
          if s[1] != '`' {
            assert !StartsWith(s[1..], Fence, false);
            assert tail[0] == s[1];
          } else {
            assert !StartsWith(s[1..], Fence, false);
            assert tail == [s[1]] + rest;
            assert |s| >= 3 ==> s[2] != '`' && !StartsWith(s[2..], Fence, false) && rest[0] == s[2];
            assert |s| == 2 ==> rest == [];
          }
        }
      }
      OccursCons(s[0], tail, Fence, false);
    }
  }

  /** A substring of text without a pattern has none either. */
  lemma OccursSlice(s: string, i: nat, j: nat, pat: string, ignoreCase: bool)
    requires i <= j <= |s|
    requires Occurs(s[i..j], pat, ignoreCase)
    ensures Occurs(s, pat, ignoreCase)
  {
    var t := s[i..j];
    var k :| 0 <= k <= |t| && StartsWith(t[k..], pat, ignoreCase);
    assert forall m :: 0 <= m < |pat| ==> t[k..][m] == s[i + k..][m];
    assert StartsWith(s[i + k..], pat, ignoreCase);
  }

  /** Trimming cannot create an occurrence of a pattern. */
  lemma TrimKeepsAbsence(s: string, pat: string, ignoreCase: bool)
    ensures !Occurs(s, pat, ignoreCase) ==> !Occurs(Trim(s), pat, ignoreCase)
  {
    var a := LeadingSpace(s);
    var r := Trim(s);
    if Occurs(r, pat, ignoreCase) {
      OccursSlice(s, a, a + |r|, pat, ignoreCase);
    }
  }

  // ---------------------------------------------------------------------
  // String(n)
  // ---------------------------------------------------------------------

  predicate IsDigit(c: char) {
    '0' <= c <= '9'
  }

  function DigitChar(d: nat): (c: char)
    requires d < 10
    ensures IsDigit(c) && c as int - '0' as int == d
  {
    ('0' as int + d) as char
  }

  /** `String(n)` for a non-negative integer: its decimal digits, with no
      leading zero except for zero itself. */
  function DecimalText(n: nat): (r: string)
    ensures |r| >= 1
    ensures forall k :: 0 <= k < |r| ==> IsDigit(r[k])
    ensures r[0] == '0' ==> n == 0
  {
    if n < 10 then [DigitChar(n)] else DecimalText(n / 10) + [DigitChar(n % 10)]
  }

  /** The number a string of decimal digits denotes. */
  function DecimalValue(s: string): nat
    requires forall k :: 0 <= k < |s| ==> IsDigit(s[k])
  {
    if s == [] then 0
    else
      assert IsDigit(s[|s| - 1]);
      DecimalValue(s[..|s| - 1]) * 10 + (s[|s| - 1] as int - '0' as int)
  }

  /** Reading the decimal text of `n` gives back `n`. */
  lemma {:induction false} DecimalRoundTrip(n: nat)
    ensures DecimalValue(DecimalText(n)) == n
  {
    if n >= 10 {
      var s := DecimalText(n);
      assert s[..|s| - 1] == DecimalText(n / 10);
      DecimalRoundTrip(n / 10);
    }
  }

  /** Distinct numbers have distinct decimal texts. */
  lemma DecimalInjective(a: nat, b: nat)
    requires DecimalText(a) == DecimalText(b)
    ensures a == b
  {
    DecimalRoundTrip(a);
    DecimalRoundTrip(b);
  }
}
