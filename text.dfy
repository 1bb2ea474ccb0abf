/** The handful of Python string operations the log scanner relies on:
    substring search (`pat in s`), `str.strip()`, `str.split('\n')` and `str(n)`
    for a non-negative integer, each with a reference definition it is proved against. */
module Text {

  // ---------------------------------------------------------------------------
  // Substring search: Python's `pat in s`
  // ---------------------------------------------------------------------------

  /** `pat` occurs in `s` starting at index `i`. */
  predicate OccursAt(pat: string, s: string, i: nat)
  {
    i + |pat| <= |s| && s[i..i + |pat|] == pat
  }

  /** An occurrence in the tail `s[1..]` is an occurrence in `s` one position
      further on, and every occurrence past the start of `s` is one in the tail. */
  lemma OccursInTail(pat: string, s: string)
    requires |s| >= 1
    ensures (exists j: nat :: OccursAt(pat, s[1..], j)) <==> (exists i: nat :: 1 <= i && OccursAt(pat, s, i))
  {
    if j: nat :| OccursAt(pat, s[1..], j) {
      assert s[1..][j..j + |pat|] == s[j + 1..j + 1 + |pat|];
      assert OccursAt(pat, s, j + 1);
    }
    if i: nat :| 1 <= i && OccursAt(pat, s, i) {
      var j: nat := i - 1;
      assert s[1..][j..j + |pat|] == s[j + 1..j + 1 + |pat|];
      assert OccursAt(pat, s[1..], j);
    }
  }

  /** Python's `pat in s`: try every start position from left to right. It
      succeeds exactly when `pat` occurs at some position of `s`. */
  function Contains(pat: string, s: string): (r: bool)
    ensures r <==> exists i: nat :: OccursAt(pat, s, i)
    decreases |s|
  {
    if |s| < |pat| then
      assert forall i: nat :: !OccursAt(pat, s, i);
      false
    else if s[..|pat|] == pat then
      assert OccursAt(pat, s, 0);
      true
    else
      OccursInTail(pat, s);
      assert !OccursAt(pat, s, 0);
      Contains(pat, s[1..])
  }

  // ---------------------------------------------------------------------------
  // str.strip()
  // ---------------------------------------------------------------------------

  /** The characters for which Python's `str.isspace()` holds; `str.strip()`
      with no argument removes exactly these from both ends. */
  predicate IsSpace(c: char)
  {
    c == ' ' || ('\t' <= c <= '\r') || ('\U{1C}' <= c <= '\U{1F}')
    || c == '\U{85}' || c == '\U{A0}' || c == '\U{1680}' || ('\U{2000}' <= c <= '\U{200A}')
    || c == '\U{2028}' || c == '\U{2029}' || c == '\U{202F}' || c == '\U{205F}' || c == '\U{3000}'
  }

  /** Every character of `s` is whitespace. */
  predicate AllSpace(s: string)
  {
    forall k | 0 <= k < |s| :: IsSpace(s[k])
  }

  /** The first index at or after `i` that does not hold whitespace
      (`|s|` if there is none). */
  function SkipSpaces(s: string, i: nat): (j: nat)
    requires i <= |s|
    ensures i <= j <= |s|
    ensures forall k | i <= k < j :: IsSpace(s[k])
    ensures j < |s| ==> !IsSpace(s[j])
    decreases |s| - i
  {
    if i < |s| && IsSpace(s[i]) then SkipSpaces(s, i + 1) else i
  }

  /** Scanning down from `j` towards `lo`: the end of the text once the
      whitespace before `j` is dropped. */
  function SkipSpacesBack(s: string, lo: nat, j: nat): (e: nat)
    requires lo <= j <= |s|
    ensures lo <= e <= j
    ensures forall k | e <= k < j :: IsSpace(s[k])
    ensures lo < e ==> !IsSpace(s[e - 1])
    decreases j - lo
  {
    if lo < j && IsSpace(s[j - 1]) then SkipSpacesBack(s, lo, j - 1) else j
  }

  /** `s.strip()`: the text between the leading and the trailing whitespace,
      found by scanning in from both ends. What is kept is one slice of `s`
      with only whitespace before and after it; nothing is kept exactly when `s`
      is all whitespace, and otherwise what is kept neither starts nor ends with
      whitespace. */
  function Strip(s: string): (r: string)
    ensures exists i, j | 0 <= i <= j <= |s| :: r == s[i..j] && AllSpace(s[..i]) && AllSpace(s[j..])
    ensures r == [] <==> AllSpace(s)
    ensures r != [] ==> !IsSpace(r[0]) && !IsSpace(r[|r| - 1])
  {
    var i := SkipSpaces(s, 0);
    var j := SkipSpacesBack(s, i, |s|);
    assert i == j ==> AllSpace(s);
    assert AllSpace(s[..i]) && AllSpace(s[j..]);
    s[i..j]
  }

  // ---------------------------------------------------------------------------
  // str.split('\n') and its inverse, '\n'.join
  // ---------------------------------------------------------------------------

  /** Python's `s.split('\n')`: the pieces between newlines, in order.
      Never empty: the empty string splits into `[""]`. */
  function Split(s: string): (r: seq<string>)
    ensures |r| >= 1
    ensures forall k | 0 <= k < |r| :: '\n' !in r[k]
    decreases |s|
  {
    if s == [] then [""]
    else
      var rest := Split(s[1..]);
      if s[0] == '\n' then [""] + rest
      else [[s[0]] + rest[0]] + rest[1..]
  }

  /** Python's `'\n'.join(parts)`. */
  function Join(parts: seq<string>): string
  {
    if parts == [] then ""
    else if |parts| == 1 then parts[0]
    else parts[0] + "\n" + Join(parts[1..])
  }

  /** Joining after a leading empty piece puts a newline in front. */
  lemma JoinAfterEmpty(parts: seq<string>)
    requires |parts| >= 1
    ensures Join([""] + parts) == "\n" + Join(parts)
  {
    assert ([""] + parts)[1..] == parts;
  }

  /** Extending the first piece by one character extends the joined text. */
  lemma {:induction false} JoinExtendFirst(c: char, parts: seq<string>)
    requires |parts| >= 1
    ensures Join([[c] + parts[0]] + parts[1..]) == [c] + Join(parts)
  {
    var ps := [[c] + parts[0]] + parts[1..];
    if |parts| > 1 {
      assert ps[1..] == parts[1..];
      assert Join(ps) == ([c] + parts[0]) + "\n" + Join(parts[1..]);
      assert Join(parts) == parts[0] + "\n" + Join(parts[1..]);
    }
  }

  /** Splitting loses nothing: joining the pieces gives back the input. */
  lemma {:induction false} JoinSplit(s: string)
    ensures Join(Split(s)) == s
    decreases |s|
  {
    if s != [] {
      var rest := Split(s[1..]);
      JoinSplit(s[1..]);
      if s[0] == '\n' {
        JoinAfterEmpty(rest);
      } else {
        JoinExtendFirst(s[0], rest);
      }
      assert s == [s[0]] + s[1..];
    }
  }

  /** A line without newline splits into itself. */
  lemma {:induction false} SplitLine(p: string)
    requires '\n' !in p
    ensures Split(p) == [p]
    decreases |p|
  {
    if p != [] {
      SplitLine(p[1..]);
      assert [p[0]] + p[1..] == p;
    }
  }

  /** Splitting `p + "\n" + t` cuts exactly at the newline after `p`. */
  lemma {:induction false} SplitAfterLine(p: string, t: string)
    requires '\n' !in p
    ensures Split(p + "\n" + t) == [p] + Split(t)
    decreases |p|
  {
    var s := p + "\n" + t;
    if p == [] {
      assert s[1..] == t;
    } else {
      assert s[1..] == p[1..] + "\n" + t;
      SplitAfterLine(p[1..], t);
      assert [p[0]] + p[1..] == p;
    }
  }

  /** Joining newline-free pieces and splitting again gives back the pieces. */
  lemma {:induction false} SplitJoin(parts: seq<string>)
    requires |parts| >= 1
    requires forall k | 0 <= k < |parts| :: '\n' !in parts[k]
    ensures Split(Join(parts)) == parts
    decreases |parts|
  {
    if |parts| == 1 {
      SplitLine(parts[0]);
    } else {
      SplitJoin(parts[1..]);
      SplitAfterLine(parts[0], Join(parts[1..]));
      assert [parts[0]] + parts[1..] == parts;
    }
  }

  // ---------------------------------------------------------------------------
  // Newline-terminated lines, as written by `f.write(x + "\n")` per item
  // ---------------------------------------------------------------------------

  /** Every item followed by a newline, in order. */
  function Lines(xs: seq<string>): string
  {
    if xs == [] then "" else xs[0] + "\n" + Lines(xs[1..])
  }

  /** Writing two batches of lines one after the other is writing all of them. */
  lemma {:induction false} LinesConcat(a: seq<string>, b: seq<string>)
    ensures Lines(a + b) == Lines(a) + Lines(b)
    decreases |a|
  {
    if a == [] {
      assert a + b == b;
    } else {
      assert (a + b)[1..] == a[1..] + b;
      LinesConcat(a[1..], b);
    }
  }

  /** Lines is empty exactly when there are no items: every item adds a newline. */
  lemma LinesEmptyIff(xs: seq<string>)
    ensures Lines(xs) == "" <==> xs == []
  {
    if xs != [] {
      assert |Lines(xs)| >= 1;
    }
  }

  /** Lines is '\n'.join with an empty last piece. */
  lemma {:induction false} LinesAsJoin(xs: seq<string>)
    ensures Lines(xs) == Join(xs + [""])
    decreases |xs|
  {
    if xs != [] {
      assert (xs + [""])[1..] == xs[1..] + [""];
      LinesAsJoin(xs[1..]);
    }
  }

  /** Reading newline-free lines back with split('\n') gives the items and one
      trailing empty piece: the text holds exactly |xs| lines. */
  lemma SplitLines(xs: seq<string>)
    requires forall k | 0 <= k < |xs| :: '\n' !in xs[k]
    ensures Split(Lines(xs)) == xs + [""]
  {
    LinesAsJoin(xs);
    SplitJoin(xs + [""]);
  }

  // ---------------------------------------------------------------------------
  // str(n) for n >= 0
  // ---------------------------------------------------------------------------

  /** The decimal digit character for `d`. */
  function DigitChar(d: nat): (c: char)
    requires d < 10
    ensures '0' <= c <= '9' && c as int - '0' as int == d
  {
    ('0' as int + d) as char
  }

  /** Python's `str(n)` for a non-negative integer: its decimal digits, without
      leading zeros. */
  function NatToString(n: nat): (r: string)
    ensures |r| >= 1 && forall k | 0 <= k < |r| :: '0' <= r[k] <= '9'
    ensures r[0] == '0' ==> n == 0
    decreases n
  {
    if n < 10 then [DigitChar(n)] else NatToString(n / 10) + [DigitChar(n % 10)]
  }

  /** The value of a string of decimal digits. */
  function DecimalValue(s: string): nat
    requires forall k | 0 <= k < |s| :: '0' <= s[k] <= '9'
    decreases |s|
  {
    if s == [] then 0
    else 10 * DecimalValue(s[..|s| - 1]) + (s[|s| - 1] as int - '0' as int)
  }

  /** `str(n)` denotes `n`: reading the digits back gives the number. */
  lemma {:induction false} NatToStringValue(n: nat)
    ensures DecimalValue(NatToString(n)) == n
    decreases n
  {
    if n >= 10 {
      var r := NatToString(n);
      NatToStringValue(n / 10);
      assert r[..|r| - 1] == NatToString(n / 10);
    }
  }
}
