/** The few string operations the components share. */
module Text {

  predicate HasPrefix(s: string, prefix: string) {
    |prefix| <= |s| && s[..|prefix|] == prefix
  }

  /** The part of `s` before the first `c`, all of it if there is none. */
  function Before(s: string, c: char): (r: string)
    ensures |r| <= |s|
  {
    if s == "" || s[0] == c then "" else [s[0]] + Before(s[1..], c)
  }

  /** The first index at which `pat` occurs in `s`, -1 if there is none. */
  function Index(s: string, pat: string): (r: int)
    ensures -1 <= r <= |s| && (r >= 0 ==> HasPrefix(s[r..], pat))
  {
    if HasPrefix(s, pat) then 0
    else if s == "" then -1
    else
      var r := Index(s[1..], pat);
      if r < 0 then -1 else r + 1
  }

  /** It is the first one: no earlier index will do, none at all if the answer is -1. */
  lemma {:induction false} IndexIsFirst(s: string, pat: string, k: nat)
    requires k <= |s| && HasPrefix(s[k..], pat)
    ensures 0 <= Index(s, pat) <= k
  {
    if k > 0 && !HasPrefix(s, pat) {
      assert s[k..] == s[1..][k - 1..];
      IndexIsFirst(s[1..], pat, k - 1);
    } else {
      assert s[0..] == s;
    }
  }

  ghost predicate Contains(s: string, pat: string) {
    exists i :: 0 <= i <= |s| && HasPrefix(s[i..], pat)
  }

  lemma ContainsIsIndex(s: string, pat: string)
    ensures Contains(s, pat) <==> Index(s, pat) >= 0
  {
    if i :| 0 <= i <= |s| && HasPrefix(s[i..], pat) {
      IndexIsFirst(s, pat, i);
    }
  }

  lemma IndexOfChar(s: string, c: char)
    ensures var r := Index(s, [c]); r >= 0 ==> r < |s| && s[r] == c
  {
    var r := Index(s, [c]);
    if r >= 0 {
      assert s[r..][..1] == [c];
      assert s[r..][0] == c;
    }
  }

  lemma PrefixByChars(s: string, prefix: string)
    ensures HasPrefix(s, prefix) <==> |prefix| <= |s| && forall k :: 0 <= k < |prefix| ==> s[k] == prefix[k]
  {
    if HasPrefix(s, prefix) {
      assert forall k :: 0 <= k < |prefix| ==> s[k] == s[..|prefix|][k];
    }
  }

  /** Text in front that does not contain the first character of a pattern only moves
      the place where the pattern is found. */
  lemma {:induction false} IndexShifts(a: string, s: string, pat: string)
    requires pat != "" && pat[0] !in a
    ensures Index(a + s, pat) == if Index(s, pat) < 0 then -1 else |a| + Index(s, pat)
  {
    if a == "" {
      assert a + s == s;
    } else {
      IndexShifts(a[1..], s, pat);
      assert (a + s)[1..] == a[1..] + s;
      assert (a + s)[0] == a[0];
      PrefixByChars(a + s, pat);
    }
  }

  /** unicode.IsSpace. */
  predicate IsSpace(c: char) {
    || '\t' <= c <= '\r' || c == ' ' || c == '\U{85}' || c == '\U{A0}' || c == '\U{1680}'
    || '\U{2000}' <= c <= '\U{200A}' || c == '\U{2028}' || c == '\U{2029}' || c == '\U{202F}'
    || c == '\U{205F}' || c == '\U{3000}'
  }

  function TrimLeft(s: string): string {
    if s != "" && IsSpace(s[0]) then TrimLeft(s[1..]) else s
  }

  function TrimRight(s: string): string {
    if s != "" && IsSpace(s[|s| - 1]) then TrimRight(s[..|s| - 1]) else s
  }

  function TrimSpace(s: string): string {
    TrimRight(TrimLeft(s))
  }

  /** Cutting a string at a character that is not white space always shows after trimming. */
  lemma {:induction false} CutShows(s: string, j: nat)
    requires j < |s| && !IsSpace(s[j])
    ensures |TrimSpace(s[..j])| < |TrimSpace(s)|
  {
    TrimLeftKeeps(s, j);
    TrimRightKeeps(TrimLeft(s[..j]), s[j..]);
    TrimRightShortens(TrimLeft(s[..j]));
  }

  lemma {:induction false} TrimLeftAppends(s: string, c: char)
    requires IsSpace(c)
    ensures TrimLeft(s + [c]) == if TrimLeft(s) == "" then "" else TrimLeft(s) + [c]
  {
    if s == "" {
      assert s + [c] == [c] && [c][1..] == "";
    } else {
      assert (s + [c])[1..] == s[1..] + [c];
      TrimLeftAppends(s[1..], c);
    }
  }

  lemma TrimForgetsLastSpace(s: string, c: char)
    requires IsSpace(c)
    ensures TrimSpace(s + [c]) == TrimSpace(s)
  {
    TrimLeftAppends(s, c);
    var t := TrimLeft(s);
    assert (t + [c])[..|t|] == t;
  }

  predicate Blank(s: string) {
    forall i :: 0 <= i < |s| ==> IsSpace(s[i])
  }

  /** White space at the end does not show after trimming. */
  lemma {:induction false} BlankTailIsTrimmed(a: string, b: string)
    requires Blank(b)
    ensures TrimSpace(a + b) == TrimSpace(a)
  {
    hide TrimSpace, IsSpace;
    if b == "" {
      assert a + b == a;
    } else {
      var n := |b| - 1;
      BlankTailIsTrimmed(a, b[..n]);
      TrimForgetsLastSpace(a + b[..n], b[n]);
      assert (a + b[..n]) + [b[n]] == a + b;
    }
  }

  /** Cutting anywhere leaves at most as much. */
  lemma {:induction false} CutIsNoLonger(s: string, m: nat)
    requires m <= |s|
    ensures |TrimSpace(s[..m])| <= |TrimSpace(s)|
    decreases |s| - m
  {
    hide TrimSpace, IsSpace;
    if m == |s| {
      assert s[..m] == s;
    } else {
      CutIsNoLonger(s, m + 1);
      var t := s[..m + 1];
      assert t[..m] == s[..m] && s[..m] + [s[m]] == t;
      if IsSpace(s[m]) {
        TrimForgetsLastSpace(s[..m], s[m]);
      } else {
        CutShows(t, m);
      }
    }
  }

  lemma {:induction false} TrimLeftKeeps(s: string, j: nat)
    requires j < |s| && !IsSpace(s[j])
    ensures TrimLeft(s) == TrimLeft(s[..j]) + s[j..]
  {
    if IsSpace(s[0]) {
      TrimLeftKeeps(s[1..], j - 1);
      assert s[..j][1..] == s[1..][..j - 1];
      assert s[1..][j - 1..] == s[j..];
    } else {
      assert s[..j] + s[j..] == s;
    }
  }

  lemma {:induction false} TrimRightKeeps(x: string, y: string)
    requires y != "" && !IsSpace(y[0])
    ensures |TrimRight(x + y)| > |x|
  {
    if IsSpace(y[|y| - 1]) {
      TrimRightKeeps(x, y[..|y| - 1]);
      assert (x + y)[..|x + y| - 1] == x + y[..|y| - 1];
    }
  }

  lemma {:induction false} TrimRightShortens(s: string)
    ensures |TrimRight(s)| <= |s|
  {
    if s != "" && IsSpace(s[|s| - 1]) {
      TrimRightShortens(s[..|s| - 1]);
    }
  }

  /** Where nothing of the pattern recurs, what follows a text cannot make the pattern
      begin inside the text. */
  lemma {:induction false} IndexAfter(a: string, s: string, pat: string)
    requires pat != "" && pat[0] !in pat[1..] && Index(a, pat) < 0 && HasPrefix(s, pat)
    ensures Index(a + s, pat) == |a|
  {
    hide HasPrefix;
    if a == "" {
      assert a + s == s;
    } else {
      IndexAfter(a[1..], s, pat);
      assert (a + s)[1..] == a[1..] + s;
      NoOverlap(a, s, pat);
    }
  }

  lemma NoOverlap(a: string, s: string, pat: string)
    requires a != "" && pat != "" && pat[0] !in pat[1..] && !HasPrefix(a, pat) && HasPrefix(s, pat)
    ensures !HasPrefix(a + s, pat)
  {
    PrefixByChars(a, pat);
    PrefixByChars(s, pat);
    PrefixByChars(a + s, pat);
    assert forall k :: 0 <= k < |a| ==> (a + s)[k] == a[k];
    if |a| < |pat| {
      assert (a + s)[|a|] == s[0] == pat[0];
      assert pat[1..][|a| - 1] == pat[|a|];
    }
  }

  /** What follows the first occurrence does not matter. */
  lemma {:induction false} IndexExtends(a: string, s: string, pat: string)
    requires Index(a, pat) >= 0
    ensures Index(a + s, pat) == Index(a, pat)
  {
    PrefixByChars(a, pat);
    PrefixByChars(a + s, pat);
    if !HasPrefix(a, pat) {
      IndexExtends(a[1..], s, pat);
      assert (a + s)[1..] == a[1..] + s;
      NoPrefixBefore(a, s, pat);
    }
  }

  lemma NoPrefixBefore(a: string, s: string, pat: string)
    requires !HasPrefix(a, pat) && Index(a, pat) >= 0
    ensures !HasPrefix(a + s, pat)
  {
    var k := Index(a, pat);
    PrefixByChars(a, pat);
    PrefixByChars(a + s, pat);
    assert |pat| <= |a[k..]|;
    assert forall i :: 0 <= i < |a| ==> (a + s)[i] == a[i];
  }

  /** strings.Join(parts, ""). */
  function Concat(parts: seq<string>): string {
    if parts == [] then "" else Concat(parts[..|parts| - 1]) + parts[|parts| - 1]
  }

  lemma {:induction false} ConcatAppends(a: seq<string>, b: seq<string>)
    ensures Concat(a + b) == Concat(a) + Concat(b)
    ensures forall s :: Concat([s]) == s
  {
    if b == [] {
      assert a + b == a;
    } else {
      var front, last := b[..|b| - 1], b[|b| - 1];
      ConcatAppends(a, front);
      assert (a + b)[..|a + b| - 1] == a + front;
      assert Concat(a + b) == (Concat(a) + Concat(front)) + last;
    }
    forall s: string ensures Concat([s]) == s {
      assert [s][..0] == [];
    }
  }

  /** strings.Split(s, "\n"). */
  function Lines(s: string): (lines: seq<string>)
    ensures |lines| > 0
    decreases |s|
  {
    var n := Index(s, "\n");
    if n < 0 || n >= |s| then [s] else [s[..n]] + Lines(s[n + 1..])
  }

  /** Joining lines again, with line ends between them. */
  function Unlines(lines: seq<string>): string {
    if lines == [] then "" else if |lines| == 1 then lines[0] else lines[0] + "\n" + Unlines(lines[1..])
  }

  /** The lines of a text hold no line end and make up the text. */
  lemma {:induction false} LinesMakeUp(s: string)
    ensures Unlines(Lines(s)) == s && forall k :: 0 <= k < |Lines(s)| ==> '\n' !in Lines(s)[k]
    decreases |s|
  {
    var n := Index(s, "\n");
    IndexOfChar(s, '\n');
    BeforeIsAtIndex(s, '\n');
    BeforeIsPrefix(s, '\n');
    if 0 <= n < |s| {
      LinesMakeUp(s[n + 1..]);
      assert s == s[..n] + "\n" + s[n + 1..];
    }
  }

  /** Trimming takes white space off both ends and stops at anything else. */
  lemma TrimSpaceIs(s: string) returns (a: string, b: string)
    ensures s == a + TrimSpace(s) + b && Blank(a) && Blank(b)
    ensures TrimSpace(s) != "" ==> !IsSpace(TrimSpace(s)[0]) && !IsSpace(TrimSpace(s)[|TrimSpace(s)| - 1])
  {
    a := TrimLeftIs(s);
    b := TrimRightIs(TrimLeft(s));
    assert s == a + (TrimSpace(s) + b);
    assert TrimSpace(s) != "" ==> TrimLeft(s)[0] == TrimSpace(s)[0];
  }

  lemma {:induction false} TrimLeftIs(s: string) returns (a: string)
    ensures s == a + TrimLeft(s) && Blank(a) && (TrimLeft(s) != "" ==> !IsSpace(TrimLeft(s)[0]))
  {
    a := "";
    if s != "" && IsSpace(s[0]) {
      a := TrimLeftIs(s[1..]);
      a := [s[0]] + a;
    }
  }

  lemma {:induction false} TrimRightIs(s: string) returns (b: string)
    ensures s == TrimRight(s) + b && Blank(b)
    ensures TrimRight(s) != "" ==> !IsSpace(TrimRight(s)[|TrimRight(s)| - 1])
  {
    b := "";
    if s != "" && IsSpace(s[|s| - 1]) {
      b := TrimRightIs(s[..|s| - 1]);
      b := b + [s[|s| - 1]];
    }
  }

  lemma {:induction false} BeforeIsAtIndex(s: string, c: char)
    ensures Before(s, c) == if Index(s, [c]) < 0 then s else s[..Index(s, [c])]
  {
    PrefixByChars(s, [c]);
    if s != "" && s[0] != c {
      BeforeIsAtIndex(s[1..], c);
    }
  }

  lemma FirstLine(s: string)
    ensures Lines(s)[0] == Before(s, '\n')
  {
    IndexOfChar(s, '\n');
    BeforeIsAtIndex(s, '\n');
  }

  lemma {:induction false} BeforeAppends(a: string, b: string, c: char)
    ensures Before(a + b, c) == if c in a then Before(a, c) else a + Before(b, c)
  {
    if a == "" {
      assert a + b == b;
    } else {
      BeforeAppends(a[1..], b, c);
      assert (a + b)[1..] == a[1..] + b;
    }
  }

  lemma {:induction false} BeforeIsPrefix(s: string, c: char)
    ensures Before(s, c) <= s && c !in Before(s, c)
    ensures Before(s, c) != s ==> s[|Before(s, c)|] == c
    ensures c in s <==> Before(s, c) != s
  {
    if s != "" && s[0] != c {
      BeforeIsPrefix(s[1..], c);
    }
  }
}
