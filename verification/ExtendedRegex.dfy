/** Removing the white space and comments of an "x"-flag regular expression. */
module ExtendedRegex {

  predicate IsSpace(c: char) {
    c == ' ' || c == '\t' || c == '\n' || c == '\r'
  }

  // ----- the lexical structure of a pattern -----

  /** `Pair` is a backslash and the character after it; `Opens` and `Closes` delimit a
      character class, whose other characters are `InClass`. Outside a class there are
      white space, comments up to a line end, and plain characters. */
  datatype Token =
    | Pair(c: char)
    | Opens
    | Closes
    | InClass(c: char)
    | Space(c: char)
    | Comment(text: string)
    | Plain(c: char)

  /** How far a comment reaches: up to the next line end or the end of the pattern. */
  function LineLength(s: string): (n: nat)
    ensures n <= |s| && (n < |s| ==> s[n] == '\n') && '\n' !in s[..n]
  {
    if s == "" || s[0] == '\n' then 0 else 1 + LineLength(s[1..])
  }

  function Written(t: Token): string {
    match t
    case Pair(c) => ['\\', c]
    case Opens => "["
    case Closes => "]"
    case InClass(c) => [c]
    case Space(c) => [c]
    case Comment(text) => text
    case Plain(c) => [c]
  }

  /** The first token of a non-empty rest of the pattern. */
  function First(s: string, inClass: bool): (t: Token)
    requires s != ""
    ensures 0 < |Written(t)| <= |s| && s[..|Written(t)|] == Written(t)
  {
    if s[0] == '\\' && |s| > 1 then Pair(s[1])
    else if s[0] == '[' && !inClass then Opens
    else if s[0] == ']' && inClass then Closes
    else if inClass then InClass(s[0])
    else if s[0] == '#' then Comment(s[..LineLength(s)])
    else if IsSpace(s[0]) then Space(s[0])
    else Plain(s[0])
  }

  predicate ClassAfter(t: Token, inClass: bool) {
    t.Opens? || (inClass && !t.Closes?)
  }

  function Tokens(s: string, inClass: bool): seq<Token>
    decreases |s|
  {
    if s == "" then []
    else
      var t := First(s, inClass);
      [t] + Tokens(s[|Written(t)|..], ClassAfter(t, inClass))
  }

  function Render(ts: seq<Token>): string {
    if ts == [] then "" else Written(ts[0]) + Render(ts[1..])
  }

  predicate Dropped(t: Token) {
    t.Space? || t.Comment?
  }

  function Keep(ts: seq<Token>): seq<Token> {
    if ts == [] then [] else (if Dropped(ts[0]) then [] else [ts[0]]) + Keep(ts[1..])
  }

  /** The pattern without the tokens that do not count. */
  function Strip(s: string, inClass: bool): string {
    Render(Keep(Tokens(s, inClass)))
  }

  lemma StripStep(s: string, inClass: bool)
    requires s != ""
    ensures var t := First(s, inClass);
            Strip(s, inClass)
            == (if Dropped(t) then "" else Written(t)) + Strip(s[|Written(t)|..], ClassAfter(t, inClass))
  {
    var t := First(s, inClass);
    var rest := Tokens(s[|Written(t)|..], ClassAfter(t, inClass));
    assert Tokens(s, inClass) == [t] + rest;
    KeepCons(t, rest);
    if Dropped(t) {
      assert [] + Keep(rest) == Keep(rest);
      assert "" + Render(Keep(rest)) == Render(Keep(rest));
    } else {
      RenderCons(t, Keep(rest));
    }
  }

  /** The pattern `p` strips to `b` followed by what is left from index `i` on. */
  ghost predicate Upto(p: string, b: string, i: nat, inClass: bool)
    requires i <= |p|
  {
    Strip(p, false) == b + Strip(p[i..], inClass)
  }

  /** One turn of the loop at index `i`. */
  lemma Turn(p: string, b: string, i: nat, inClass: bool)
    requires i < |p| && Upto(p, b, i, inClass)
    ensures p[i] == '\\' && i + 1 < |p| ==> Upto(p, b + [p[i]] + [p[i + 1]], i + 2, inClass)
    ensures !(p[i] == '\\' && i + 1 < |p|) ==>
            if !inClass && p[i] == '#' then
              i + LineLength(p[i..]) <= |p| && Upto(p, b, i + LineLength(p[i..]), inClass)
            else if !inClass && IsSpace(p[i]) then Upto(p, b, i + 1, inClass)
            else Upto(p, b + [p[i]], i + 1, (p[i] == '[' || inClass) && !(inClass && p[i] == ']'))
  {
    hide Upto;
    TurnByToken(p, b, i, inClass);
    assert p[i..][0] == p[i] && (i + 1 < |p| ==> p[i..][1] == p[i + 1]);
    assert b + "" == b;
    assert i + 1 < |p| ==> b + [p[i]] + [p[i + 1]] == b + [p[i], p[i + 1]];
  }

  lemma TurnByToken(p: string, b: string, i: nat, inClass: bool)
    requires i < |p| && Upto(p, b, i, inClass)
    ensures var t := First(p[i..], inClass);
            Upto(p, b + (if Dropped(t) then "" else Written(t)), i + |Written(t)|, ClassAfter(t, inClass))
  {
    hide Strip;
    StripStep(p[i..], inClass);
    var n := |Written(First(p[i..], inClass))|;
    assert p[i..][n..] == p[i + n..];
  }

  lemma KeepCons(t: Token, ts: seq<Token>)
    ensures Keep([t] + ts) == (if Dropped(t) then [] else [t]) + Keep(ts)
  {
    assert ([t] + ts)[1..] == ts;
  }

  lemma RenderCons(t: Token, ts: seq<Token>)
    ensures Render([t] + ts) == Written(t) + Render(ts)
  {
    assert ([t] + ts)[1..] == ts;
  }

  // ----- the index loop -----

  method StripExtendedWhitespace(pattern: string) returns (b: string)
    ensures b == Strip(pattern, false)
  {
    b := "";
    var inCharClass := false;
    var i := 0;
    StartsHere(pattern);
    hide Upto, LineLength;
    while i < |pattern|
      invariant 0 <= i <= |pattern|
      invariant Upto(pattern, b, i, inCharClass)
    {
      var ch := pattern[i];
      Turn(pattern, b, i, inCharClass);
      if ch == '\\' && i + 1 < |pattern| {
        b := b + [ch];
        b := b + [pattern[i + 1]];
        i := i + 2;
        continue;
      }
      if ch == '[' && !inCharClass {
        inCharClass := true;
        b := b + [ch];
        i := i + 1;
        continue;
      }
      if ch == ']' && inCharClass {
        inCharClass := false;
        b := b + [ch];
        i := i + 1;
        continue;
      }
      if !inCharClass {
        if ch == '#' {
          i := SkipLine(pattern, i);
          continue;
        }
        if ch == ' ' || ch == '\t' || ch == '\n' || ch == '\r' {
          i := i + 1;
          continue;
        }
      }
      b := b + [ch];
      i := i + 1;
    }
    AtTheEnd(pattern, b, inCharClass);
  }

  lemma StartsHere(p: string)
    ensures Upto(p, "", 0, false)
  {
    assert p[0..] == p;
  }

  lemma AtTheEnd(p: string, b: string, inClass: bool)
    requires Upto(p, b, |p|, inClass)
    ensures b == Strip(p, false)
  {
    assert p[|p|..] == "" && Strip("", inClass) == "";
  }

  /** The inner loop over a comment. */
  method SkipLine(pattern: string, start: nat) returns (i: nat)
    requires start <= |pattern|
    ensures start <= i <= |pattern|
    ensures i == start + LineLength(pattern[start..])
    ensures start < |pattern| && pattern[start] != '\n' ==> start < i
  {
    i := start;
    while i < |pattern| && pattern[i] != '\n'
      invariant start <= i <= |pattern|
      invariant i + LineLength(pattern[i..]) == start + LineLength(pattern[start..])
    {
      assert pattern[i..][1..] == pattern[i + 1..];
      i := i + 1;
    }
  }

  // ----- what is kept and what is gone -----

  /** Tokenizing loses nothing. */
  lemma {:induction false} RenderTokens(s: string, inClass: bool)
    ensures Render(Tokens(s, inClass)) == s
    decreases |s|
  {
    if s != "" {
      var t := First(s, inClass);
      RenderTokens(s[|Written(t)|..], ClassAfter(t, inClass));
      RenderCons(t, Tokens(s[|Written(t)|..], ClassAfter(t, inClass)));
      assert s == s[..|Written(t)|] + s[|Written(t)|..];
    }
  }

  /** A token that is not dropped is read again in front of any other text, except a
      backslash that has nothing after it. */
  lemma FirstAgain(s: string, inClass: bool, after: string)
    requires s != "" && !Dropped(First(s, inClass))
    requires |s| == |Written(First(s, inClass))| ==> after == ""
    ensures First(Written(First(s, inClass)) + after, inClass) == First(s, inClass)
  {
    var t := First(s, inClass);
    assert (Written(t) + after)[0] == s[0];
    if t.Pair? {
      assert (Written(t) + after)[1] == s[1];
    }
  }

  /** Reading the stripped pattern gives exactly the kept tokens: stripping joins
      nothing that was apart and moves nothing into or out of a class. */
  lemma {:induction false} TokensOfStripped(s: string, inClass: bool)
    ensures Tokens(Strip(s, inClass), inClass) == Keep(Tokens(s, inClass))
    decreases |s|
  {
    if s != "" {
      var t := First(s, inClass);
      var n, inClass' := |Written(t)|, ClassAfter(t, inClass);
      var after := Strip(s[n..], inClass');
      StripStep(s, inClass);
      TokensOfStripped(s[n..], inClass');
      KeepCons(t, Tokens(s[n..], inClass'));
      if Dropped(t) {
        assert "" + after == after;
        assert inClass' == inClass;
      } else {
        assert n == |s| ==> s[n..] == "" && after == "";
        FirstAgain(s, inClass, after);
        assert (Written(t) + after)[n..] == after;
      }
    }
  }

  lemma {:induction false} KeepFacts(ts: seq<Token>)
    ensures forall t :: t in Keep(ts) <==> t in ts && !Dropped(t)
    ensures Keep(Keep(ts)) == Keep(ts)
  {
    if ts != [] {
      KeepFacts(ts[1..]);
      assert forall t :: t in ts <==> t == ts[0] || t in ts[1..];
      if Dropped(ts[0]) {
        assert Keep(ts) == [] + Keep(ts[1..]) == Keep(ts[1..]);
      } else {
        KeepCons(ts[0], Keep(ts[1..]));
      }
    }
  }

  lemma StrippingIsIdempotent(s: string)
    ensures Strip(Strip(s, false), false) == Strip(s, false)
  {
    TokensOfStripped(s, false);
    KeepFacts(Tokens(s, false));
  }

  /** No unescaped white space or comment is left outside a class, and every other
      token of the pattern is still there. */
  lemma StrippedIsClean(s: string)
    ensures forall t :: t in Tokens(Strip(s, false), false) <==> t in Tokens(s, false) && !Dropped(t)
  {
    TokensOfStripped(s, false);
    KeepFacts(Tokens(s, false));
  }

  /** Two patterns strip to the same text exactly when they differ in white space and
      comments outside classes only. */
  lemma StrippingForgetsOnlyLayout(a: string, b: string)
    ensures Strip(a, false) == Strip(b, false) <==> Keep(Tokens(a, false)) == Keep(Tokens(b, false))
  {
    TokensOfStripped(a, false);
    TokensOfStripped(b, false);
  }

  /** Outside a class a plain character is neither white space nor the comment sign. */
  lemma {:induction false} PlainIsPlain(s: string, inClass: bool, c: char)
    requires Plain(c) in Tokens(s, inClass)
    ensures !IsSpace(c) && c != '#'
    decreases |s|
  {
    var t := First(s, inClass);
    if t != Plain(c) {
      PlainIsPlain(s[|Written(t)|..], ClassAfter(t, inClass), c);
    }
  }

  // ----- what stripping does, character by character -----

  lemma NothingToStrip(inClass: bool)
    ensures Strip("", inClass) == ""
  {}

  lemma Cons(c: char, s: string)
    ensures ([c] + s)[0] == c && ([c] + s)[1..] == s
  {}

  /** Outside a class white space disappears, a bracket opens a class, and any other
      character but the comment sign and the backslash stays. */
  lemma OutsideStrips(c: char, s: string)
    requires c != '\\' && c != '#'
    ensures Strip([c] + s, false) ==
            if c == ' ' || c == '\t' || c == '\n' || c == '\r' then Strip(s, false)
            else if c == '[' then "[" + Strip(s, true)
            else [c] + Strip(s, false)
  {
    hide Strip;
    Cons(c, s);
    StripStep([c] + s, false);
    assert "" + Strip(s, false) == Strip(s, false);
  }

  /** Inside a class everything stays, up to the bracket that closes it. */
  lemma InsideStrips(c: char, s: string)
    requires c != '\\'
    ensures Strip([c] + s, true) == if c == ']' then "]" + Strip(s, false) else [c] + Strip(s, true)
  {
    hide Strip;
    Cons(c, s);
    StripStep([c] + s, true);
  }

  /** A backslash stays with whatever follows it, inside and outside a class. */
  lemma PairStrips(c: char, s: string, inClass: bool)
    ensures Strip(['\\', c] + s, inClass) == ['\\', c] + Strip(s, inClass)
    ensures Strip(['\\'], inClass) == ['\\']
  {
    hide Strip;
    var t := ['\\', c] + s;
    assert t[0] == '\\' && t[1] == c && t[2..] == s;
    StripStep(t, inClass);
    StripStep(['\\'], inClass);
    assert ['\\'][1..] == "";
    NothingToStrip(inClass);
    assert "\\" + "" == "\\";
  }

  /** A comment disappears up to the end of its line or of the pattern. */
  lemma CommentStrips(line: string, s: string)
    requires '\n' !in line
    ensures Strip("#" + (line + ("\n" + s)), false) == Strip(s, false)
    ensures Strip("#" + line, false) == ""
  {
    hide Strip;
    var rest, t := "\n" + s, "#" + (line + ("\n" + s));
    LineReaches(line, rest);
    LineReaches(line, "");
    assert line + "" == line;
    Cons('#', line + rest);
    Cons('#', line);
    assert LineLength(t) == 1 + |line| && t[1 + |line|..] == rest;
    StripStep(t, false);
    assert "" + Strip(rest, false) == Strip(rest, false);
    OutsideStrips('\n', s);
    assert LineLength("#" + line) == 1 + |line| && ("#" + line)[1 + |line|..] == "";
    StripStep("#" + line, false);
    NothingToStrip(false);
  }

  lemma {:induction false} LineReaches(line: string, rest: string)
    requires '\n' !in line && (rest == "" || rest[0] == '\n')
    ensures LineLength(line + rest) == |line|
  {
    if line == "" {
      assert line + rest == rest;
    } else {
      LineReaches(line[1..], rest);
      assert (line + rest)[1..] == line[1..] + rest;
    }
  }

  lemma {:induction false} BodyStays(body: string, s: string)
    requires '\\' !in body && ']' !in body
    ensures Strip(body + ("]" + s), true) == body + ("]" + Strip(s, false))
  {
    hide Strip;
    if body == "" {
      InsideStrips(']', s);
      assert body + ("]" + s) == "]" + s && body + ("]" + Strip(s, false)) == "]" + Strip(s, false);
    } else {
      var c, rest := body[0], body[1..];
      BodyStays(rest, s);
      InsideStrips(c, rest + ("]" + s));
      Regroup(c, rest, "]" + s);
      Regroup(c, rest, "]" + Strip(s, false));
      assert body == [c] + rest;
    }
  }

  lemma Regroup(c: char, rest: string, t: string)
    ensures ([c] + rest) + t == [c] + (rest + t)
  {}

  /** So a class without escapes stays as it is, white space and comment signs and all. */
  lemma ClassStays(body: string, s: string)
    requires '\\' !in body && ']' !in body
    ensures Strip("[" + (body + ("]" + s)), false) == "[" + (body + ("]" + Strip(s, false)))
  {
    hide Strip;
    BodyStays(body, s);
    OutsideStrips('[', body + ("]" + s));
  }
}
