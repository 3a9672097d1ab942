/**
 * The Python string built-ins the pipelines rely on: `str.split()`, `str.split(sep)`,
 * `str.strip()`, `sep.join(...)`, `str.replace(...)`, `str.lower()` and `str(n)`,
 * together with the facts about them that the chunkers and the citation rewriting need.
 */
module Text {
  import opened Wrappers

  function Min(a: int, b: int): int {
    if a <= b then a else b
  }

  /**
   * The characters CPython's `str.isspace()` accepts (`str.split()` and `str.strip()` use
   * the same set).  The proofs below only use that ' ' and '\n' belong to it and that
   * digits, letters and brackets do not.
   */
  predicate IsWhitespace(c: char) {
    if c <= ' ' then ('\t' <= c <= '\r') || '\U{1C}' <= c
    else if c < '\U{85}' then false
    else
      || c == '\U{85}' || c == '\U{A0}' || c == '\U{1680}'
      || ('\U{2000}' <= c <= '\U{200A}')
      || c == '\U{2028}' || c == '\U{2029}' || c == '\U{202F}' || c == '\U{205F}' || c == '\U{3000}'
  }

  /** A word as `str.split()` produces it: non-empty, no whitespace. */
  predicate IsWord(w: string) {
    |w| > 0 && forall i :: 0 <= i < |w| ==> !IsWhitespace(w[i])
  }

  /** A non-empty run of printable ASCII characters other than the space is a word. */
  lemma PrintableIsWord(w: string)
    requires |w| > 0 && forall i :: 0 <= i < |w| ==> '!' <= w[i] <= '~'
    ensures IsWord(w)
  {
  }

  predicate AllWords(ws: seq<string>) {
    forall i :: 0 <= i < |ws| ==> IsWord(ws[i])
  }

  /** Length of the run of non-whitespace characters at the start of `s`. */
  function WordLength(s: string): (k: nat)
    ensures k <= |s|
    ensures forall i :: 0 <= i < k ==> !IsWhitespace(s[i])
    ensures k < |s| ==> IsWhitespace(s[k])
  {
    if s == [] || IsWhitespace(s[0]) then 0 else 1 + WordLength(s[1..])
  }

  /** `s.split()`: the maximal runs of non-whitespace characters of `s`, in order. */
  function Words(s: string): (ws: seq<string>)
    ensures AllWords(ws)
    decreases |s|
  {
    if s == [] then []
    else if IsWhitespace(s[0]) then Words(s[1..])
    else
      var k := WordLength(s);
      [s[..k]] + Words(s[k..])
  }

  /** `sep.join(xs)`. */
  function Join(sep: string, xs: seq<string>): string {
    if |xs| == 0 then ""
    else if |xs| == 1 then xs[0]
    else xs[0] + sep + Join(sep, xs[1..])
  }

  /** Joining one more item adds one separator and the item at the end. */
  lemma {:induction false} JoinSnoc(sep: string, xs: seq<string>, x: string)
    requires xs != []
    ensures Join(sep, xs + [x]) == Join(sep, xs) + sep + x
    decreases |xs|
  {
    var all := xs + [x];
    assert all[0] == xs[0];
    if |xs| > 1 {
      assert all[1..] == xs[1..] + [x];
      JoinSnoc(sep, xs[1..], x);
    } else {
      assert all[1..] == [x];
    }
  }

  /** Joining an item in front adds the item and one separator at the start. */
  lemma JoinCons(sep: string, x: string, xs: seq<string>)
    requires xs != []
    ensures Join(sep, [x] + xs) == x + sep + Join(sep, xs)
  {
    assert ([x] + xs)[1..] == xs;
  }

  /** A join of non-empty parts starts with the first part's first character and ends with the last part's last one. */
  lemma JoinEnds(sep: string, xs: seq<string>)
    requires xs != [] && xs[0] != [] && xs[|xs| - 1] != []
    ensures var j := Join(sep, xs);
      j != [] && j[0] == xs[0][0] && j[|j| - 1] == xs[|xs| - 1][|xs[|xs| - 1]| - 1]
  {
    JoinFirst(sep, xs);
    JoinLast(sep, xs);
  }

  lemma JoinFirst(sep: string, xs: seq<string>)
    requires xs != [] && xs[0] != []
    ensures Join(sep, xs) != [] && Join(sep, xs)[0] == xs[0][0]
  {
    if |xs| > 1 {
      assert Join(sep, xs) == xs[0] + (sep + Join(sep, xs[1..]));
    }
  }

  lemma JoinLast(sep: string, xs: seq<string>)
    requires xs != [] && xs[|xs| - 1] != []
    ensures Join(sep, xs) != [] && Join(sep, xs)[|Join(sep, xs)| - 1] == xs[|xs| - 1][|xs[|xs| - 1]| - 1]
  {
    var l := |xs| - 1;
    if l > 0 {
      var x := xs[l];
      TakeSnoc(xs, l);
      assert xs[..l + 1] == xs;
      JoinSnoc(sep, xs[..l], x);
      LastOfAppend(Join(sep, xs[..l]) + sep, x);
    }
  }

  lemma LastOfAppend<T>(a: seq<T>, b: seq<T>)
    requires b != []
    ensures (a + b)[|a + b| - 1] == b[|b| - 1]
  {
  }

  /** `xs[start:start + size]`, clamped at the end as Python slices are. */
  function Window<T>(xs: seq<T>, start: nat, size: nat): (w: seq<T>)
    requires start <= |xs|
    ensures |w| == Min(size, |xs| - start)
  {
    xs[start..Min(start + size, |xs|)]
  }

  /** The concatenation of a sequence of sequences, left to right. */
  function Concat<T>(xss: seq<seq<T>>): seq<T> {
    if xss == [] then [] else Concat(xss[..|xss| - 1]) + xss[|xss| - 1]
  }

  /** Growing the last part by one item grows the concatenation by that item. */
  lemma ConcatExtendLast<T>(xss: seq<seq<T>>, x: T)
    requires xss != []
    ensures Concat(xss[..|xss| - 1] + [xss[|xss| - 1] + [x]]) == Concat(xss) + [x]
  {
    var l := |xss| - 1;
    var front := Concat(xss[..l]);
    assert Concat(xss) == front + xss[l] by {
      ConcatSnoc(xss[..l], xss[l]);
      TakeSnoc(xss, l);
      assert xss[..l + 1] == xss;
    }
    ConcatSnoc(xss[..l], xss[l] + [x]);
    AppendAssoc(front, xss[l], [x]);
  }

  lemma AppendAssoc<T>(a: seq<T>, b: seq<T>, c: seq<T>)
    ensures (a + b) + c == a + (b + c)
  {
  }

  lemma TakeSnoc<T>(s: seq<T>, i: nat)
    requires i < |s|
    ensures s[..i] + [s[i]] == s[..i + 1]
  {
  }

  lemma TakeDrop<T>(s: seq<T>, k: nat)
    requires k <= |s|
    ensures s[..k] + s[k..] == s
  {
  }

  lemma ConcatSnoc<T>(xss: seq<seq<T>>, x: seq<T>)
    ensures Concat(xss + [x]) == Concat(xss) + x
  {
    assert (xss + [x])[..|xss|] == xss;
  }

  lemma {:induction false} ConcatPrepend<T>(x: seq<T>, xss: seq<seq<T>>)
    ensures Concat([x] + xss) == x + Concat(xss)
    decreases |xss|
  {
    if xss != [] {
      var all := [x] + xss;
      assert all[..|all| - 1] == [x] + xss[..|xss| - 1];
      ConcatPrepend(x, xss[..|xss| - 1]);
    }
  }

  lemma WordLengthOfWordThen(w: string, rest: string)
    requires IsWord(w)
    requires rest == [] || IsWhitespace(rest[0])
    ensures WordLength(w + rest) == |w|
  {
    var s := w + rest;
    assert forall i :: 0 <= i < |w| ==> s[i] == w[i];
    assert |w| < |s| ==> s[|w|] == rest[0];
  }

  lemma WordsOfWordThen(w: string, rest: string)
    requires IsWord(w)
    requires rest == [] || IsWhitespace(rest[0])
    ensures Words(w + rest) == [w] + Words(rest)
  {
    var s := w + rest;
    WordLengthOfWordThen(w, rest);
    assert s[0] == w[0];
    assert s[..|w|] == w;
    assert s[|w|..] == rest;
  }

  /** Round trip: splitting a space-joined list of words gives the list back. */
  lemma {:induction false} WordsOfJoin(ws: seq<string>)
    requires AllWords(ws)
    ensures Words(Join(" ", ws)) == ws
  {
    if |ws| == 1 {
      WordsOfWordThen(ws[0], "");
      assert ws[0] + "" == ws[0];
    } else if |ws| > 1 {
      var rest := Join(" ", ws[1..]);
      WordsOfWordThen(ws[0], " " + rest);
      assert ws[0] + " " + rest == ws[0] + (" " + rest);
      assert (" " + rest)[1..] == rest;
      WordsOfJoin(ws[1..]);
      assert [ws[0]] + ws[1..] == ws;
    }
  }

  lemma WordsOfWords(s: string, i: int, j: int)
    requires 0 <= i <= j <= |Words(s)|
    ensures AllWords(Words(s)[i..j])
  {
  }

  /* ---------- strip ---------- */

  function TrimStart(s: string): (r: string)
    ensures |r| <= |s| && r == s[|s| - |r|..]
    ensures r == [] || !IsWhitespace(r[0])
  {
    if s != [] && IsWhitespace(s[0]) then
      var r := TrimStart(s[1..]);
      assert s[1..][|s| - 1 - |r|..] == s[|s| - |r|..];
      r
    else s
  }

  function TrimEnd(s: string): (r: string)
    ensures |r| <= |s| && r == s[..|r|]
    ensures r == [] || !IsWhitespace(r[|r| - 1])
  {
    if s != [] && IsWhitespace(s[|s| - 1]) then
      var r := TrimEnd(s[..|s| - 1]);
      assert s[..|s| - 1][..|r|] == s[..|r|];
      r
    else s
  }

  /** `s.strip()`: `s` without its leading and trailing whitespace. */
  function Strip(s: string): (r: string)
    ensures IsStripped(r) && |r| <= |s|
    ensures IsStripped(s) ==> r == s
  {
    var t := TrimStart(s);
    var r := TrimEnd(t);
    assert r != [] ==> r[0] == t[0];
    r
  }

  /** Neither end of `s` is whitespace. */
  predicate IsStripped(s: string) {
    s == [] || (!IsWhitespace(s[0]) && !IsWhitespace(s[|s| - 1]))
  }

  /** Stripping a stripped non-empty text followed by a newline removes just that newline. */
  lemma StripDropsNewline(s: string)
    requires IsStripped(s) && s != []
    ensures Strip(s + "\n") == s
  {
    var t := s + "\n";
    assert t[0] == s[0];
    assert TrimStart(t) == t;
    assert t[..|t| - 1] == s;
    assert IsWhitespace(t[|t| - 1]);
    assert TrimEnd(s) == s;
  }

  /** Stripping a text that ends in whitespace removes at least that character. */
  lemma StripShortensTrailingSpace(s: string, c: char)
    requires IsWhitespace(c)
    ensures |Strip(s + [c])| <= |s|
  {
    var t := TrimStart(s + [c]);
    if t != [] {
      assert t[|t| - 1] == c;
      assert TrimEnd(t) == TrimEnd(t[..|t| - 1]);
    }
  }

  /* ---------- substring search, split(sep), replace ---------- */

  /** `pat` occurs in `s` at offset `i`. */
  predicate OccursAt(s: string, pat: string, i: nat) {
    i + |pat| <= |s| && s[i..i + |pat|] == pat
  }

  /** `pat in s`. */
  predicate Contains(s: string, pat: string) {
    exists i: nat | i <= |s| :: OccursAt(s, pat, i)
  }

  /** `s.find(pat, from)`, with None for -1. */
  function FindFrom(s: string, pat: string, from: nat): (r: Option<nat>)
    requires |pat| > 0
    ensures r.Some? ==> from <= r.value && OccursAt(s, pat, r.value)
    ensures r.Some? ==> forall j: nat :: from <= j < r.value ==> !OccursAt(s, pat, j)
    ensures r.None? ==> forall j: nat :: from <= j ==> !OccursAt(s, pat, j)
    decreases |s| - from
  {
    if from + |pat| > |s| then None
    else if OccursAt(s, pat, from) then Some(from)
    else FindFrom(s, pat, from + 1)
  }

  /** `s.split(sep)` for a non-empty separator: cut at each leftmost, non-overlapping occurrence. */
  function Split(s: string, sep: string): (parts: seq<string>)
    requires |sep| > 0
    ensures |parts| >= 1
    decreases |s|
  {
    match FindFrom(s, sep, 0)
    case None => [s]
    case Some(i) => [s[..i]] + Split(s[i + |sep|..], sep)
  }

  /** A text without the separator is its own single part. */
  lemma SplitAbsent(s: string, sep: string)
    requires |sep| > 0
    ensures !Contains(s, sep) ==> Split(s, sep) == [s]
  {
    match FindFrom(s, sep, 0)
    case None =>
    case Some(i) =>
      assert OccursAt(s, sep, i);
  }

  /** The search finds the first occurrence from where it starts. */
  lemma FindFromFirst(s: string, pat: string, from: nat, p: nat)
    requires |pat| > 0 && from <= p && OccursAt(s, pat, p)
    requires forall j: nat :: from <= j < p ==> !OccursAt(s, pat, j)
    ensures FindFrom(s, pat, from) == Some(p)
  {
  }

  /** A text none of whose characters starts the separator is not cut. */
  lemma SplitWithout(a: string, sep: string)
    requires |sep| > 0 && forall i :: 0 <= i < |a| ==> a[i] != sep[0]
    ensures Split(a, sep) == [a]
  {
  }

  /** A text before which no character starts the separator is cut first right after it. */
  lemma SplitAfter(a: string, sep: string, b: string)
    requires |sep| > 0 && forall i :: 0 <= i < |a| ==> a[i] != sep[0]
    ensures Split(a + sep + b, sep) == [a] + Split(b, sep)
  {
    var s := a + sep + b;
    assert s[|a|..|a| + |sep|] == sep;
    forall j: nat | j < |a|
      ensures !OccursAt(s, sep, j)
    {
      assert s[j] == a[j];
    }
    FindFromFirst(s, sep, 0, |a|);
    assert s[..|a|] == a;
    assert s[|a| + |sep|..] == b;
  }

  /** `sep.join(s.split(sep)) == s`. */
  lemma {:induction false} SplitJoin(s: string, sep: string)
    requires |sep| > 0
    ensures Join(sep, Split(s, sep)) == s
    decreases |s|
  {
    match FindFrom(s, sep, 0)
    case None =>
    case Some(i) =>
      var rest := s[i + |sep|..];
      var parts := Split(s, sep);
      assert parts[1..] == Split(rest, sep);
      SplitJoin(rest, sep);
      assert s == s[..i] + sep + rest;
  }

  /** No part of `s.split(sep)` contains `sep`. */
  lemma {:induction false} SplitPartsAvoidSeparator(s: string, sep: string)
    requires |sep| > 0
    ensures forall k :: 0 <= k < |Split(s, sep)| ==> !Contains(Split(s, sep)[k], sep)
    decreases |s|
  {
    match FindFrom(s, sep, 0)
    case None =>
    case Some(i) =>
      var rest := s[i + |sep|..];
      SplitPartsAvoidSeparator(rest, sep);
      var parts := Split(s, sep);
      assert parts == [s[..i]] + Split(rest, sep);
      forall j: nat | OccursAt(s[..i], sep, j)
        ensures false
      {
        assert s[..i][j..j + |sep|] == s[j..j + |sep|];
        assert OccursAt(s, sep, j);
      }
  }

  /** `s.replace(pat, rep)` for a non-empty pattern: leftmost, non-overlapping occurrences. */
  function Replace(s: string, pat: string, rep: string): string
    requires |pat| > 0
    decreases |s|
  {
    match FindFrom(s, pat, 0)
    case None => s
    case Some(i) => s[..i] + rep + Replace(s[i + |pat|..], pat, rep)
  }

  /** A text that does not contain the pattern is left unchanged. */
  lemma ReplaceAbsent(s: string, pat: string, rep: string)
    requires |pat| > 0
    ensures !Contains(s, pat) ==> Replace(s, pat, rep) == s
  {
    match FindFrom(s, pat, 0)
    case None =>
    case Some(i) =>
      assert OccursAt(s, pat, i);
  }

  /** A text that contains the pattern contains the replacement afterwards. */
  lemma ReplaceIntroduces(s: string, pat: string, rep: string)
    requires |pat| > 0 && Contains(s, pat)
    ensures Contains(Replace(s, pat, rep), rep)
  {
    match FindFrom(s, pat, 0)
    case Some(i) =>
      var r := Replace(s, pat, rep);
      assert r[i..i + |rep|] == rep;
      assert OccursAt(r, rep, i);
  }

  /** `s.replace(pat, rep) == rep.join(s.split(pat))`: every occurrence that split cuts at, and only those, becomes `rep`. */
  lemma {:induction false} ReplaceIsJoinOfSplit(s: string, pat: string, rep: string)
    requires |pat| > 0
    ensures Replace(s, pat, rep) == Join(rep, Split(s, pat))
    decreases |s|
  {
    match FindFrom(s, pat, 0)
    case None =>
    case Some(i) =>
      var rest := s[i + |pat|..];
      var parts := Split(s, pat);
      assert parts[1..] == Split(rest, pat);
      ReplaceIsJoinOfSplit(rest, pat, rep);
  }

  /** What occurs in a text still occurs after something is appended to it. */
  lemma ContainsAppendRight(s: string, t: string, pat: string)
    requires Contains(s, pat)
    ensures Contains(s + t, pat)
  {
    var i: nat :| i <= |s| && OccursAt(s, pat, i);
    assert (s + t)[i..i + |pat|] == s[i..i + |pat|];
    assert OccursAt(s + t, pat, i);
  }

  /** What occurs in a text still occurs after something is put before it. */
  lemma ContainsAppendLeft(s: string, t: string, pat: string)
    requires Contains(t, pat)
    ensures Contains(s + t, pat)
  {
    var i: nat :| i <= |t| && OccursAt(t, pat, i);
    assert (s + t)[|s| + i..|s| + i + |pat|] == t[i..i + |pat|];
    assert OccursAt(s + t, pat, |s| + i);
  }

  lemma ContainsWithin(u: string, x: string, v: string, pat: string)
    requires Contains(x, pat)
    ensures Contains(u + x + v, pat)
  {
    var i: nat :| i <= |x| && OccursAt(x, pat, i);
    var s := u + x + v;
    assert s[|u| + i..|u| + i + |pat|] == x[i..i + |pat|];
    assert OccursAt(s, pat, |u| + i);
  }

  /** Every item of `sep.join(xs)` occurs in it verbatim. */
  lemma {:induction false} JoinContainsEach(sep: string, xs: seq<string>, k: nat)
    requires k < |xs|
    ensures Contains(Join(sep, xs), xs[k])
  {
    if |xs| == 1 {
      ContainsSelf(xs[0]);
    } else if k == 0 {
      ContainsSelf(xs[0]);
      ContainsWithin("", xs[0], sep + Join(sep, xs[1..]), xs[0]);
      assert "" + xs[0] + (sep + Join(sep, xs[1..])) == Join(sep, xs);
    } else {
      JoinContainsEach(sep, xs[1..], k - 1);
      ContainsWithin(xs[0] + sep, Join(sep, xs[1..]), "", xs[k]);
      assert xs[0] + sep + Join(sep, xs[1..]) + "" == Join(sep, xs);
    }
  }

  lemma ContainsTransitive(s: string, t: string, pat: string)
    requires Contains(s, t) && Contains(t, pat)
    ensures Contains(s, pat)
  {
    var i: nat :| i <= |s| && OccursAt(s, t, i);
    var j: nat :| j <= |t| && OccursAt(t, pat, j);
    assert t == s[i..i + |t|];
    forall m | i + j <= m < i + j + |pat|
      ensures s[m] == t[m - i]
    {
    }
    assert s[i + j..i + j + |pat|] == t[j..j + |pat|];
    assert OccursAt(s, pat, i + j);
  }

  lemma OccursInLeft(u: string, v: string, pat: string, i: nat)
    requires OccursAt(u, pat, i)
    ensures OccursAt(u + v, pat, i)
  {
    assert (u + v)[i..i + |pat|] == u[i..i + |pat|];
  }

  lemma OccursInRight(u: string, v: string, pat: string, q: nat)
    requires OccursAt(v, pat, q)
    ensures OccursAt(u + v, pat, |u| + q)
  {
    assert (u + v)[|u| + q..|u| + q + |pat|] == v[q..q + |pat|];
  }

  /** An occurrence in `u + v` that ends within `u` is one in `u`. */
  lemma OccursBackLeft(u: string, v: string, pat: string, i: nat)
    requires OccursAt(u + v, pat, i) && i + |pat| <= |u|
    ensures OccursAt(u, pat, i)
  {
    assert (u + v)[i..i + |pat|] == u[i..i + |pat|];
  }

  /** An occurrence in `u + v` that starts within `v` is one in `v`. */
  lemma OccursBackRight(u: string, v: string, pat: string, i: nat)
    requires OccursAt(u + v, pat, i) && |u| <= i
    ensures OccursAt(v, pat, i - |u|)
  {
    assert (u + v)[i..i + |pat|] == v[i - |u|..i - |u| + |pat|];
  }

  /** Putting `rep` in place of `pat` between `a` and `rest` keeps what occurs wholly within `a`. */
  lemma OccursBeforeCut(a: string, pat: string, rest: string, rep: string, tail: string, m: string, i: nat)
    requires OccursAt(a + pat + rest, m, i) && i + |m| <= |a|
    ensures Contains(a + rep + tail, m)
  {
    assert a + pat + rest == a + (pat + rest);
    OccursBackLeft(a, pat + rest, m, i);
    OccursInLeft(a, rep + tail, m, i);
    assert a + (rep + tail) == a + rep + tail;
  }

  /** `s.replace(pat, rep)` at its first cut `p`: `s` is `s[..p] + pat + rest`, the result `s[..p] + rep` and the replaced rest. */
  lemma ReplaceAtFirst(s: string, pat: string, rep: string)
    requires |pat| > 0 && FindFrom(s, pat, 0).Some?
    ensures var p := FindFrom(s, pat, 0).value;
      var rest := s[p + |pat|..];
      && s == s[..p] + pat + rest
      && Replace(s, pat, rep) == s[..p] + rep + Replace(rest, pat, rep)
  {
  }

  lemma ContainsSelf(s: string)
    ensures Contains(s, s)
  {
    assert OccursAt(s, s, 0);
  }

  /* ---------- lower, str(n) ---------- */

  function LowerChar(c: char): char {
    if 'A' <= c <= 'Z' then (c as int + 32) as char else c
  }

  /** `s.lower()`, on the ASCII letters. */
  function Lower(s: string): (r: string)
    ensures |r| == |s|
    ensures forall i :: 0 <= i < |s| ==> r[i] == LowerChar(s[i])
  {
    if s == [] then [] else [LowerChar(s[0])] + Lower(s[1..])
  }

  predicate IsDigit(c: char) {
    '0' <= c <= '9'
  }

  function DigitChar(d: nat): (c: char)
    requires d < 10
    ensures IsDigit(c)
  {
    ('0' as int + d) as char
  }

  /** `str(n)` for a natural number: its decimal digits. */
  function NatToString(n: nat): (r: string)
    ensures |r| >= 1 && forall k :: 0 <= k < |r| ==> IsDigit(r[k])
    ensures (n < 10) == (|r| == 1)
    decreases n
  {
    if n < 10 then [DigitChar(n)] else NatToString(n / 10) + [DigitChar(n % 10)]
  }

  /** Different numbers have different decimal spellings. */
  lemma {:induction false} NatToStringInjective(m: nat, n: nat)
    requires NatToString(m) == NatToString(n)
    ensures m == n
    decreases m
  {
    var sm, sn := NatToString(m), NatToString(n);
    if m >= 10 && n >= 10 {
      assert sm[|sm| - 1] == DigitChar(m % 10);
      assert sn[|sn| - 1] == DigitChar(n % 10);
      assert sm[..|sm| - 1] == NatToString(m / 10);
      assert sn[..|sn| - 1] == NatToString(n / 10);
      NatToStringInjective(m / 10, n / 10);
    } else if m < 10 && n < 10 {
      assert sm[0] == DigitChar(m) && sn[0] == DigitChar(n);
    }
  }
}
