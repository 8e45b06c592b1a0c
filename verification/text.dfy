/** String primitives the widget takes from JavaScript's `String.prototype`:
    case mapping, `trim`, `includes`/`indexOf`, `endsWith`, `split` and the
    last piece of a `split(...).pop()`. Strings are sequences of characters;
    case mapping is ASCII-only (see README, "Left out"). */
module Text {
  import opened Optional

  function LowerChar(c: char): char {
    if 'A' <= c <= 'Z' then (c as int + 32) as char else c
  }

  function UpperChar(c: char): char {
    if 'a' <= c <= 'z' then (c as int - 32) as char else c
  }

  /** `toLowerCase()` restricted to ASCII letters. */
  function Lower(s: string): (r: string)
    ensures |r| == |s|
    ensures forall i :: 0 <= i < |s| ==> r[i] == LowerChar(s[i])
  {
    seq(|s|, i requires 0 <= i < |s| => LowerChar(s[i]))
  }

  /** `toUpperCase()` restricted to ASCII letters. */
  function Upper(s: string): (r: string)
    ensures |r| == |s|
    ensures forall i :: 0 <= i < |s| ==> r[i] == UpperChar(s[i])
  {
    seq(|s|, i requires 0 <= i < |s| => UpperChar(s[i]))
  }

  lemma LowerIdempotent(s: string)
    ensures Lower(Lower(s)) == Lower(s)
  {
    assert forall i :: 0 <= i < |s| ==> Lower(Lower(s))[i] == Lower(s)[i];
  }

  /** Upper-casing first does not change the lower-cased string. */
  lemma LowerOfUpper(s: string)
    ensures Lower(Upper(s)) == Lower(s)
  {
    assert forall i :: 0 <= i < |s| ==> Lower(Upper(s))[i] == Lower(s)[i];
  }

  /** The characters JavaScript's `trim` removes: WhiteSpace and LineTerminator
      of ECMAScript (tab, VT, FF, space, NBSP, BOM, the Zs category, LF, CR,
      LS, PS). */
  predicate IsJsWhitespace(c: char) {
    || c == '\t' || c == '\n' || c == '\U{000B}' || c == '\U{000C}' || c == '\r'
    || c == ' ' || c == '\U{00A0}' || c == '\U{1680}' || ('\U{2000}' <= c <= '\U{200A}')
    || c == '\U{2028}' || c == '\U{2029}' || c == '\U{202F}' || c == '\U{205F}'
    || c == '\U{3000}' || c == '\U{FEFF}'
  }

  /** True when `s` holds some character that is not whitespace, which is
      when `s.trim()` is a non-empty (truthy) string. */
  predicate HasContent(s: string) {
    exists k :: 0 <= k < |s| && !IsJsWhitespace(s[k])
  }

  function TrimStart(s: string): (r: string)
    ensures |r| <= |s| && r == s[|s| - |r|..]
    ensures forall k :: 0 <= k < |s| - |r| ==> IsJsWhitespace(s[k])
    ensures r == [] || !IsJsWhitespace(r[0])
  {
    if s != [] && IsJsWhitespace(s[0]) then
      var r := TrimStart(s[1..]);
      assert s[1..][|s| - 1 - |r|..] == s[|s| - |r|..];
      assert forall k :: 1 <= k < |s| - |r| ==> s[k] == s[1..][k - 1];
      r
    else s
  }

  function TrimEnd(s: string): (r: string)
    ensures |r| <= |s| && r == s[..|r|]
    ensures forall k :: |r| <= k < |s| ==> IsJsWhitespace(s[k])
    ensures r == [] || !IsJsWhitespace(r[|r| - 1])
  {
    if s != [] && IsJsWhitespace(s[|s| - 1]) then
      var r := TrimEnd(s[..|s| - 1]);
      assert s[..|s| - 1][..|r|] == s[..|r|];
      assert forall k :: |r| <= k < |s| - 1 ==> s[k] == s[..|s| - 1][k];
      r
    else s
  }

  /** Every character of `s` is whitespace. */
  predicate AllWhitespace(s: string) {
    forall k :: 0 <= k < |s| ==> IsJsWhitespace(s[k])
  }

  /** `r` is the stretch of `s` starting at `a`, and everything of `s` before
      and after that stretch is whitespace. */
  predicate TrimmedAt(s: string, r: string, a: int) {
    0 <= a <= |s| - |r| && r == s[a..a + |r|]
    && AllWhitespace(s[..a]) && AllWhitespace(s[a + |r|..])
  }

  /** `trim()`: `s` without its leading and trailing whitespace. The result is
      empty exactly when `s` has no content, and otherwise starts and ends with
      a non-whitespace character. */
  function Trim(s: string): (r: string)
    ensures |r| <= |s|
    ensures r == [] <==> !HasContent(s)
    ensures r == [] || (!IsJsWhitespace(r[0]) && !IsJsWhitespace(r[|r| - 1]))
  {
    var t := TrimStart(s);
    TrimCharacterised(s);
    TrimEnd(t)
  }

  lemma TrimCharacterised(s: string)
    ensures var r := TrimEnd(TrimStart(s));
      (r == [] <==> !HasContent(s)) && (r == [] || !IsJsWhitespace(r[0]))
  {
    var t := TrimStart(s);
    var r := TrimEnd(t);
    if r != [] {
      assert r[0] == t[0];
      assert !IsJsWhitespace(s[|s| - |t|]);
    }
  }

  lemma WhitespacePrefix(s: string, hi: nat)
    requires hi <= |s|
    requires forall k :: 0 <= k < hi ==> IsJsWhitespace(s[k])
    ensures AllWhitespace(s[..hi])
  {
    assert forall k :: 0 <= k < hi ==> s[..hi][k] == s[k];
  }

  lemma WhitespaceSuffix(s: string, lo: nat)
    requires lo <= |s|
    requires forall k :: lo <= k < |s| ==> IsJsWhitespace(s[k])
    ensures AllWhitespace(s[lo..])
  {
    assert forall k :: 0 <= k < |s| - lo ==> s[lo..][k] == s[lo + k];
  }

  /** Whitespace dropped from the front of `s` leaves `t`, and whitespace
      dropped from the back of `t` leaves `r`. */
  lemma StretchBetween(s: string, t: string, r: string)
    requires |t| <= |s| && t == s[|s| - |t|..]
    requires forall k :: 0 <= k < |s| - |t| ==> IsJsWhitespace(s[k])
    requires |r| <= |t| && r == t[..|r|]
    requires forall k :: |r| <= k < |t| ==> IsJsWhitespace(t[k])
    ensures TrimmedAt(s, r, |s| - |t|)
  {
    var a := |s| - |t|;
    assert r == s[a..a + |r|];
    WhitespacePrefix(s, a);
    WhitespaceSuffix(t, |r|);
    assert s[a + |r|..] == t[|r|..];
  }

  /** What `trim()` removes: the result is the stretch of `s` that starts
      after the leading whitespace, and only whitespace surrounds it. */
  lemma TrimIsStretch(s: string)
    ensures TrimmedAt(s, Trim(s), |s| - |TrimStart(s)|)
  {
    var t := TrimStart(s);
    var r := TrimEnd(t);
    assert Trim(s) == r;
    StretchBetween(s, t, r);
  }

  /** The number of strings that are not blank. It is zero exactly when every
      string is blank. */
  function CountWithContent(lines: seq<string>): (n: nat)
    ensures n <= |lines|
    ensures n == 0 <==> forall k :: 0 <= k < |lines| ==> !HasContent(lines[k])
  {
    if lines == [] then 0
    else
      var init := lines[..|lines| - 1];
      assert forall k :: 0 <= k < |init| ==> init[k] == lines[k];
      CountWithContent(init) + (if HasContent(lines[|lines| - 1]) then 1 else 0)
  }

  /** A concatenation has content exactly when one of its halves has. */
  lemma ConcatContent(a: string, b: string)
    ensures HasContent(a + b) <==> HasContent(a) || HasContent(b)
  {
    var c := a + b;
    if HasContent(c) {
      var k :| 0 <= k < |c| && !IsJsWhitespace(c[k]);
      if k < |a| {
        assert a[k] == c[k];
      } else {
        assert b[k - |a|] == c[k];
      }
    }
    if HasContent(a) {
      var k :| 0 <= k < |a| && !IsJsWhitespace(a[k]);
      assert c[k] == a[k];
    }
    if HasContent(b) {
      var k :| 0 <= k < |b| && !IsJsWhitespace(b[k]);
      assert c[|a| + k] == b[k];
    }
  }

  /** Lower-casing changes no character's whitespace status. */
  lemma LowerCharWhitespace(c: char)
    ensures IsJsWhitespace(LowerChar(c)) == IsJsWhitespace(c)
  {
    if 'A' <= c <= 'Z' {
      assert !IsJsWhitespace(c) && 'a' <= LowerChar(c) <= 'z';
    }
  }

  lemma LowerCharNotUpper(c: char)
    ensures !('A' <= LowerChar(c) <= 'Z')
  {
  }

  lemma LowerKeepsContent(s: string)
    ensures HasContent(Lower(s)) <==> HasContent(s)
  {
    var l := Lower(s);
    if HasContent(s) {
      var k :| 0 <= k < |s| && !IsJsWhitespace(s[k]);
      LowerCharWhitespace(s[k]);
      assert !IsJsWhitespace(l[k]);
    }
    if HasContent(l) {
      var k :| 0 <= k < |l| && !IsJsWhitespace(l[k]);
      LowerCharWhitespace(s[k]);
      assert !IsJsWhitespace(s[k]);
    }
  }

  /** Lower-casing and then trimming: the result keeps no ASCII capital, and it
      is empty exactly when `s` has no content. */
  lemma TrimOfLower(s: string)
    ensures var r := Trim(Lower(s));
      (r == [] <==> !HasContent(s)) && forall k :: 0 <= k < |r| ==> !('A' <= r[k] <= 'Z')
  {
    var l := Lower(s);
    var r := Trim(l);
    LowerKeepsContent(s);
    TrimIsStretch(l);
    var a := |l| - |TrimStart(l)|;
    forall k | 0 <= k < |r|
      ensures !('A' <= r[k] <= 'Z')
    {
      assert r[k] == LowerChar(s[a + k]);
      LowerCharNotUpper(s[a + k]);
    }
  }


  /** `p` occurs in `s` starting at index `i`. */
  predicate OccursAt(s: string, p: string, i: int) {
    0 <= i && i + |p| <= |s| && s[i..i + |p|] == p
  }

  lemma OccursAtShift(s: string, p: string, j: int)
    requires s != [] && 0 <= j
    ensures OccursAt(s, p, j + 1) <==> OccursAt(s[1..], p, j)
  {
    if 0 <= j && j + 1 + |p| <= |s| {
      assert s[1..][j..j + |p|] == s[j + 1..j + 1 + |p|];
    }
  }

  /** `s.indexOf(p)`: the first index at which `p` occurs in `s`, if any. */
  function IndexOf(s: string, p: string): (r: Option<nat>)
    ensures r.Some? ==> OccursAt(s, p, r.value)
    ensures r.Some? ==> forall j :: 0 <= j < r.value ==> !OccursAt(s, p, j)
    ensures r.None? ==> forall j :: !OccursAt(s, p, j)
    decreases |s|
  {
    if |p| > |s| then None
    else if s[..|p|] == p then Some(0)
    else
      var rest := IndexOf(s[1..], p);
      assert !OccursAt(s, p, 0);
      forall j | 1 <= j ensures OccursAt(s, p, j) <==> OccursAt(s[1..], p, j - 1) {
        OccursAtShift(s, p, j - 1);
      }
      match rest
      case None => None
      case Some(k) => Some(k + 1)
  }

  /** Lowering both sides keeps an occurrence where it was. */
  lemma LowerKeepsOccurrence(s: string, p: string, i: int)
    requires OccursAt(s, p, i)
    ensures OccursAt(Lower(s), Lower(p), i)
  {
    assert forall k :: 0 <= k < |p| ==> Lower(s)[i + k] == LowerChar(s[i + k]) == LowerChar(p[k]);
    assert Lower(s)[i..i + |p|] == Lower(p);
  }

  /** Whatever occurs in the trimmed string occurs in the string. */
  lemma TrimKeepsContainment(s: string, p: string)
    requires Contains(Trim(s), p)
    ensures Contains(s, p)
  {
    var u := TrimStart(s);
    ContainedInPart(s, u, TrimEnd(u), p);
  }

  /** What occurs in a prefix of a suffix of `s` occurs in `s`. */
  lemma ContainedInPart(s: string, u: string, t: string, p: string)
    requires |u| <= |s| && u == s[|s| - |u|..]
    requires |t| <= |u| && t == u[..|t|]
    requires Contains(t, p)
    ensures Contains(s, p)
  {
    var k :| OccursAt(t, p, k);
    OccursInPrefix(u, p, |t|, k);
    OccursInSuffix(s, |s| - |u|, p, k);
  }

  lemma OccursInSuffix(s: string, a: nat, p: string, k: int)
    requires a <= |s| && OccursAt(s[a..], p, k)
    ensures OccursAt(s, p, a + k)
  {
    assert s[a..][k..k + |p|] == s[a + k..a + k + |p|];
  }

  /** `s.includes(p)`. */
  function Contains(s: string, p: string): (r: bool)
    ensures r <==> exists i :: OccursAt(s, p, i)
  {
    IndexOf(s, p).Some?
  }

  /** `s.endsWith(p)`, which is what an anchored `p$` tests. */
  predicate EndsWith(s: string, p: string) {
    |p| <= |s| && s[|s| - |p|..] == p
  }

  /** `s.split(sep)` for a non-empty separator: the pieces between the
      successive left-most occurrences of `sep`. */
  function SplitOn(s: string, sep: string): (parts: seq<string>)
    requires sep != []
    ensures |parts| >= 1
    decreases |s|
  {
    match IndexOf(s, sep)
    case None => [s]
    case Some(i) => [s[..i]] + SplitOn(s[i + |sep|..], sep)
  }

  /** `parts.join(sep)`. */
  function Join(parts: seq<string>, sep: string): string {
    if |parts| == 0 then []
    else if |parts| == 1 then parts[0]
    else parts[0] + sep + Join(parts[1..], sep)
  }

  /** Joined with a blank separator, the pieces have content exactly when
      one of them has. */
  lemma {:induction false} JoinContent(parts: seq<string>, sep: string)
    requires !HasContent(sep)
    ensures HasContent(Join(parts, sep)) <==>
      exists k :: 0 <= k < |parts| && HasContent(parts[k])
  {
    if |parts| == 1 {
      assert Join(parts, sep) == parts[0];
    } else if |parts| > 1 {
      var tail := parts[1..];
      JoinContent(tail, sep);
      ConcatContent(parts[0], sep);
      ConcatContent(parts[0] + sep, Join(tail, sep));
      if exists k :: 0 <= k < |tail| && HasContent(tail[k]) {
        var k :| 0 <= k < |tail| && HasContent(tail[k]);
        assert parts[k + 1] == tail[k];
      }
      if exists k :: 0 <= k < |parts| && HasContent(parts[k]) {
        var k :| 0 <= k < |parts| && HasContent(parts[k]);
        if k > 0 {
          assert tail[k - 1] == parts[k];
        }
      }
    }
  }

  /** Joining a first piece onto at least one more. */
  lemma JoinCons(a: string, t: seq<string>, sep: string)
    requires t != []
    ensures Join([a] + t, sep) == a + sep + Join(t, sep)
  {
    assert ([a] + t)[1..] == t;
  }

  /** A split at the first occurrence `i` puts the text before it first. */
  lemma SplitOnSome(s: string, sep: string, i: nat)
    requires sep != [] && IndexOf(s, sep) == Some(i)
    ensures SplitOn(s, sep) == [s[..i]] + SplitOn(s[i + |sep|..], sep)
    ensures s == s[..i] + sep + s[i + |sep|..]
  {
    var j := i + |sep|;
    assert s[i..j] == sep;
    assert s[..j] == s[..i] + s[i..j];
    assert s == s[..j] + s[j..];
  }

  /** Joining the pieces of a split with the same separator gives back the
      original string. */
  lemma {:induction false} SplitJoin(s: string, sep: string)
    requires sep != []
    ensures Join(SplitOn(s, sep), sep) == s
    decreases |s|
  {
    match IndexOf(s, sep)
    case None =>
    case Some(i) =>
      var rest := s[i + |sep|..];
      SplitOnSome(s, sep, i);
      SplitJoin(rest, sep);
      JoinCons(s[..i], SplitOn(rest, sep), sep);
  }

  lemma OccursInPrefix(s: string, p: string, n: nat, j: int)
    requires n <= |s| && OccursAt(s[..n], p, j)
    ensures OccursAt(s, p, j) && j + |p| <= n
  {
    assert s[..n][j..j + |p|] == s[j..j + |p|];
  }

  /** The text before the first occurrence of `sep` does not contain it. */
  lemma BeforeFirstOccurrence(s: string, sep: string, i: nat)
    requires sep != [] && IndexOf(s, sep) == Some(i)
    ensures !Contains(s[..i], sep)
  {
    if Contains(s[..i], sep) {
      var j :| OccursAt(s[..i], sep, j);
      OccursInPrefix(s, sep, i, j);
      assert false;
    }
  }

  /** No piece of a split contains the separator. */
  lemma {:induction false} SplitPiecesExcludeSeparator(s: string, sep: string)
    requires sep != []
    ensures forall k :: 0 <= k < |SplitOn(s, sep)| ==> !Contains(SplitOn(s, sep)[k], sep)
    decreases |s|
  {
    match IndexOf(s, sep)
    case None =>
    case Some(i) =>
      var rest := s[i + |sep|..];
      var pieces := SplitOn(s, sep);
      var tail := SplitOn(rest, sep);
      SplitOnSome(s, sep, i);
      SplitPiecesExcludeSeparator(rest, sep);
      BeforeFirstOccurrence(s, sep, i);
      forall k | 0 <= k < |pieces| ensures !Contains(pieces[k], sep) {
        if k > 0 {
          assert pieces[k] == tail[k - 1];
        }
      }
  }

  /** `s.split(sep).pop()` for a one-character separator: the part of `s`
      after its last `sep`, or all of `s` when it has none. */
  function LastSegment(s: string, sep: char): (r: string)
    ensures |r| <= |s| && r == s[|s| - |r|..]
    ensures sep !in r
    ensures |r| < |s| ==> s[|s| - |r| - 1] == sep
  {
    if s == [] then []
    else if s[|s| - 1] == sep then []
    else LastSegment(s[..|s| - 1], sep) + [s[|s| - 1]]
  }

  lemma LowerPrefix(s: string, n: nat)
    requires n <= |s|
    ensures Lower(s)[..n] == Lower(s[..n])
  {
  }

  lemma LowerSnoc(r: string, c: char)
    ensures Lower(r + [c]) == Lower(r) + [LowerChar(c)]
  {
  }

  /** Lower-casing commutes with taking the last segment after a
      separator that is not a letter. */
  lemma {:induction false} LastSegmentLower(s: string, sep: char)
    requires !('A' <= sep <= 'Z') && !('a' <= sep <= 'z')
    ensures LastSegment(Lower(s), sep) == Lower(LastSegment(s, sep))
  {
    if s != [] {
      var n := |s| - 1;
      var ls := Lower(s);
      LowerPrefix(s, n);
      assert ls[n] == sep <==> s[n] == sep;
      if s[n] != sep {
        LastSegmentLower(s[..n], sep);
        LowerSnoc(LastSegment(s[..n], sep), s[n]);
      }
    }
  }

  /** Whatever precedes the last separator, the last segment of
      `p + [sep] + q` is `q` when `q` holds no separator. */
  lemma {:induction false} LastSegmentAfterSeparator(p: string, sep: char, q: string)
    requires sep !in q
    ensures LastSegment(p + [sep] + q, sep) == q
  {
    var s := p + [sep] + q;
    if q != [] {
      var q' := q[..|q| - 1];
      assert s[..|s| - 1] == p + [sep] + q';
      LastSegmentAfterSeparator(p, sep, q');
      assert q == q' + [q[|q| - 1]];
    }
  }

  function DigitChar(d: nat): char
    requires d < 10
  {
    "0123456789"[d]
  }

  /** `String(n)` for a natural number. */
  function DecimalString(n: nat): (r: string)
    ensures r != []
  {
    if n < 10 then [DigitChar(n)] else DecimalString(n / 10) + [DigitChar(n % 10)]
  }

  /** The number a string of decimal digits denotes; the independent reading
      that `DecimalString` is checked against. */
  function DecimalValue(s: string): nat
    requires forall k :: 0 <= k < |s| ==> '0' <= s[k] <= '9'
  {
    if s == [] then 0
    else DecimalValue(s[..|s| - 1]) * 10 + (s[|s| - 1] as int - '0' as int)
  }

  /** `DecimalString` writes only digits, and reading them back gives the
      number. */
  lemma {:induction false} DecimalRoundTrip(n: nat)
    ensures forall k :: 0 <= k < |DecimalString(n)| ==> '0' <= DecimalString(n)[k] <= '9'
    ensures DecimalValue(DecimalString(n)) == n
  {
    if n >= 10 {
      DecimalRoundTrip(n / 10);
      var s := DecimalString(n);
      assert s[..|s| - 1] == DecimalString(n / 10);
    }
  }
}
