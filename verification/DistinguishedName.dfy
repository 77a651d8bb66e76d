/** Reading the CN out of a distinguished name string (RFC 2253, RFC 4514), as bytes. */
module DistinguishedName {

  newtype Byte = x: int | 0 <= x < 256

  type Bytes = seq<Byte>

  const BACKSLASH: Byte := 92
  const COMMA: Byte := 44
  const EQUALS: Byte := 61
  const SPACE: Byte := 32

  predicate IsHex(c: Byte) {
    48 <= c <= 57 || 97 <= c <= 102 || 65 <= c <= 70
  }

  function HexVal(c: Byte): Byte
    requires IsHex(c)
    ensures HexVal(c) < 16
  {
    if 48 <= c <= 57 then c - 48 else if 97 <= c <= 102 then c - 97 + 10 else c - 65 + 10
  }

  // ----- scanning past escapes -----

  /** The first `sep` at or after index `i` that no backslash escapes; |s| if none. */
  function NextSep(s: Bytes, sep: Byte, i: nat): (r: nat)
    ensures i <= |s| ==> i <= r
    ensures r <= |s| && (r < |s| ==> s[r] == sep)
    decreases |s| - i
  {
    if i >= |s| then |s|
    else if s[i] == BACKSLASH then NextSep(s, sep, i + 2)
    else if s[i] == sep then i
    else NextSep(s, sep, i + 1)
  }

  function Split(s: Bytes, sep: Byte): seq<Bytes>
    decreases |s|
  {
    var n := NextSep(s, sep, 0);
    if n == |s| then [s] else [s[..n]] + Split(s[n + 1..], sep)
  }

  function Unescape(v: Bytes): Bytes {
    if v == [] then []
    else if v[0] != BACKSLASH || |v| == 1 then [v[0]] + Unescape(v[1..])
    else if |v| > 2 && IsHex(v[1]) && IsHex(v[2]) then [HexVal(v[1]) * 16 + HexVal(v[2])] + Unescape(v[3..])
    else [v[1]] + Unescape(v[2..])
  }

  lemma {:induction false} NextSepShift(s: Bytes, sep: Byte, k: nat, i: nat)
    requires k <= |s|
    ensures NextSep(s[k..], sep, i) == NextSep(s, sep, k + i) - k
    decreases |s| - i
  {
    if k + i < |s| {
      assert s[k..][i] == s[k + i];
      NextSepShift(s, sep, k, i + 1);
      NextSepShift(s, sep, k, i + 2);
    }
  }

  /** The parts before `start` are cut off, and no separator lies between `start` and `i`. */
  ghost predicate SplitUpto(s: Bytes, sep: Byte, parts: seq<Bytes>, start: nat, i: nat)
    requires start <= |s|
  {
    NextSep(s, sep, i) == NextSep(s, sep, start) && parts + Split(s[start..], sep) == Split(s, sep)
  }

  lemma SplitTurn(s: Bytes, sep: Byte, parts: seq<Bytes>, start: nat, i: nat)
    requires start <= i < |s| && SplitUpto(s, sep, parts, start, i)
    ensures if s[i] == BACKSLASH then SplitUpto(s, sep, parts, start, i + 2)
            else if s[i] == sep then SplitUpto(s, sep, parts + [s[start..i]], i + 1, i + 1)
            else SplitUpto(s, sep, parts, start, i + 1)
  {
    if s[i] != BACKSLASH && s[i] == sep {
      var rest := s[start..];
      NextSepShift(s, sep, start, 0);
      assert Split(rest, sep) == [rest[..i - start]] + Split(rest[i - start + 1..], sep);
      assert rest[..i - start] == s[start..i] && rest[i - start + 1..] == s[i + 1..];
      hide Split;
      assert (parts + [s[start..i]]) + Split(s[i + 1..], sep) == parts + ([s[start..i]] + Split(s[i + 1..], sep));
    }
  }

  lemma SplitStarts(s: Bytes, sep: Byte)
    ensures SplitUpto(s, sep, [], 0, 0)
  {
    assert s[0..] == s && [] + Split(s, sep) == Split(s, sep);
  }

  lemma SplitEnds(s: Bytes, sep: Byte, parts: seq<Bytes>, start: nat, i: nat)
    requires start <= |s| <= i && SplitUpto(s, sep, parts, start, i)
    ensures Split(s, sep) == parts + [s[start..]]
  {
    NextSepShift(s, sep, start, 0);
  }

  method SplitUnescaped(s: Bytes, sep: Byte) returns (parts: seq<Bytes>)
    ensures parts == Split(s, sep)
  {
    hide SplitUpto;
    parts := [];
    var start, i := 0, 0;
    SplitStarts(s, sep);
    while i < |s|
      invariant 0 <= start <= |s| && start <= i
      invariant SplitUpto(s, sep, parts, start, i)
    {
      SplitTurn(s, sep, parts, start, i);
      if s[i] == BACKSLASH {
        i := i + 2;
        continue;
      }
      if s[i] == sep {
        parts := parts + [s[start..i]];
        start := i + 1;
      }
      i := i + 1;
    }
    SplitEnds(s, sep, parts, start, i);
    parts := parts + [s[start..]];
  }

  method IndexUnescaped(s: Bytes, sep: Byte) returns (r: int)
    ensures r == if NextSep(s, sep, 0) == |s| then -1 else NextSep(s, sep, 0)
  {
    var i := 0;
    while i < |s|
      invariant 0 <= i && NextSep(s, sep, i) == NextSep(s, sep, 0)
    {
      if s[i] == BACKSLASH {
        i := i + 2;
        continue;
      }
      if s[i] == sep {
        return i;
      }
      i := i + 1;
    }
    return -1;
  }

  // ----- what unescaping means -----

  lemma OrdinaryStays(c: Byte, t: Bytes)
    requires c != 92
    ensures Unescape([c] + t) == [c] + Unescape(t)
  {
    assert ([c] + t)[0] == c && ([c] + t)[1..] == t;
  }

  lemma EscapedStays(c: Byte, t: Bytes)
    requires !(IsHex(c) && t != [] && IsHex(t[0]))
    ensures Unescape([92, c] + t) == [c] + Unescape(t)
  {
    hide IsHex, HexVal;
    var v := [92, c] + t;
    assert v[0] == 92 && v[1] == c && v[2..] == t && (t != [] ==> v[2] == t[0]);
  }

  lemma HexPairIsByte(c: Byte, d: Byte, t: Bytes)
    requires IsHex(c) && IsHex(d)
    ensures Unescape([92, c, d] + t) == [HexVal(c) * 16 + HexVal(d)] + Unescape(t)
  {
    hide IsHex, HexVal;
    var v := [92, c, d] + t;
    assert v[0] == 92 && v[1] == c && v[2] == d && v[3..] == t;
  }

  /** A backslash gives the byte of two hexadecimal digits behind it, otherwise the one
      byte behind it, and itself at the end; any other byte stays. */
  lemma UnescapesTo(c: Byte, d: Byte, t: Bytes)
    ensures c != 92 ==> Unescape([c] + t) == [c] + Unescape(t)
    ensures !(IsHex(c) && t != [] && IsHex(t[0])) ==> Unescape([92, c] + t) == [c] + Unescape(t)
    ensures IsHex(c) && IsHex(d) ==> Unescape([92, c, d] + t) == [HexVal(c) * 16 + HexVal(d)] + Unescape(t)
    ensures Unescape([92]) == [92]
  {
    assert Unescape([92]) == [92] by {
      assert [92][1..] == [];
    }
    hide Unescape, IsHex, HexVal;
    if c != 92 {
      OrdinaryStays(c, t);
    }
    if !(IsHex(c) && t != [] && IsHex(t[0])) {
      EscapedStays(c, t);
    }
    if IsHex(c) && IsHex(d) {
      HexPairIsByte(c, d, t);
    }
  }

  /** The hexadecimal digits and their values. */
  lemma HexDigitsAre(c: Byte)
    ensures 48 <= c <= 57 ==> IsHex(c) && HexVal(c) == c - 48
    ensures 65 <= c <= 70 ==> IsHex(c) && HexVal(c) == c - 55
    ensures 97 <= c <= 102 ==> IsHex(c) && HexVal(c) == c - 87
    ensures IsHex(c) ==> 48 <= c <= 57 || 65 <= c <= 70 || 97 <= c <= 102
  {}

  // ----- what splitting means -----

  /** How many backslashes stand directly before index `i`. */
  function Backslashes(s: Bytes, i: nat): nat
    requires i <= |s|
  {
    if i > 0 && s[i - 1] == BACKSLASH then Backslashes(s, i - 1) + 1 else 0
  }

  predicate EscapedAt(s: Bytes, i: nat)
    requires i <= |s|
  {
    Backslashes(s, i) % 2 == 1
  }

  /** The scan stops at the first separator that is not escaped. */
  lemma {:induction false} NextSepIsFirstFree(s: Bytes, sep: Byte, i: nat)
    requires sep != BACKSLASH && (i <= |s| ==> !EscapedAt(s, i))
    ensures forall k :: i <= k < NextSep(s, sep, i) && s[k] == sep ==> EscapedAt(s, k)
    ensures NextSep(s, sep, i) < |s| ==> !EscapedAt(s, NextSep(s, sep, i))
    decreases |s| - i
  {
    if i < |s| {
      if s[i] == BACKSLASH {
        assert EscapedAt(s, i + 1);
        NextSepIsFirstFree(s, sep, i + 2);
      } else if s[i] != sep {
        NextSepIsFirstFree(s, sep, i + 1);
      }
    }
  }

  function Join(parts: seq<Bytes>, sep: Byte): Bytes {
    if parts == [] then []
    else if |parts| == 1 then parts[0]
    else parts[0] + [sep] + Join(parts[1..], sep)
  }

  /** Every separator in the part is escaped. */
  predicate NoFreeSep(p: Bytes, sep: Byte) {
    forall k :: 0 <= k < |p| && p[k] == sep ==> EscapedAt(p, k)
  }

  /** No part holds a free separator, and no part escapes the separator behind it. */
  predicate CutAtSeps(parts: seq<Bytes>, sep: Byte) {
    && parts != []
    && (forall k :: 0 <= k < |parts| ==> NoFreeSep(parts[k], sep))
    && (forall k :: 0 <= k < |parts| - 1 ==> !EscapedAt(parts[k], |parts[k]|))
  }

  lemma {:induction false} EscapedInPrefix(p: Bytes, t: Bytes, k: nat)
    requires k <= |p|
    ensures EscapedAt(p + t, k) == EscapedAt(p, k) && Backslashes(p + t, k) == Backslashes(p, k)
  {
    if k > 0 {
      EscapedInPrefix(p, t, k - 1);
    }
  }

  /** A part without a free separator is passed over. */
  lemma {:induction false} PartIsPassed(p: Bytes, t: Bytes, sep: Byte, i: nat)
    requires sep != BACKSLASH && NoFreeSep(p, sep) && !EscapedAt(p, |p|) && i <= |p| && !EscapedAt(p, i)
    ensures NextSep(p + t, sep, i) == NextSep(p + t, sep, |p|)
    decreases |p| - i
  {
    if i < |p| {
      if p[i] == BACKSLASH {
        assert EscapedAt(p, i + 1);
        PartIsPassed(p, t, sep, i + 2);
      } else {
        PartIsPassed(p, t, sep, i + 1);
      }
    }
  }

  lemma {:induction false} LastIsPassed(p: Bytes, sep: Byte)
    requires sep != BACKSLASH && NoFreeSep(p, sep)
    ensures NextSep(p, sep, 0) == |p|
  {
    NextSepIsFirstFree(p, sep, 0);
  }

  lemma CutTail(parts: seq<Bytes>, sep: Byte)
    requires |parts| > 1
    ensures CutAtSeps(parts, sep) <==>
            NoFreeSep(parts[0], sep) && !EscapedAt(parts[0], |parts[0]|) && CutAtSeps(parts[1..], sep)
  {
    hide NoFreeSep, EscapedAt;
    var rest := parts[1..];
    if CutAtSeps(rest, sep) && NoFreeSep(parts[0], sep) && !EscapedAt(parts[0], |parts[0]|) {
      forall k | 0 <= k < |parts| ensures NoFreeSep(parts[k], sep) {
        assert k > 0 ==> parts[k] == rest[k - 1];
      }
      forall k | 0 <= k < |parts| - 1 ensures !EscapedAt(parts[k], |parts[k]|) {
        assert k > 0 ==> parts[k] == rest[k - 1];
      }
    }
    if CutAtSeps(parts, sep) {
      forall k | 0 <= k < |rest| ensures NoFreeSep(rest[k], sep) {
        assert rest[k] == parts[k + 1];
      }
      forall k | 0 <= k < |rest| - 1 ensures !EscapedAt(rest[k], |rest[k]|) {
        assert rest[k] == parts[k + 1];
      }
    }
  }

  lemma {:induction false} SplitCuts(s: Bytes, sep: Byte)
    requires sep != BACKSLASH
    ensures CutAtSeps(Split(s, sep), sep) && Join(Split(s, sep), sep) == s
    decreases |s|
  {
    var n := NextSep(s, sep, 0);
    NextSepIsFirstFree(s, sep, 0);
    if n < |s| {
      var p, rest := s[..n], s[n + 1..];
      SplitCuts(rest, sep);
      assert s == p + s[n..] && s == p + [sep] + rest;
      forall k | 0 <= k <= |p| ensures EscapedAt(p, k) == EscapedAt(s, k) {
        EscapedInPrefix(p, s[n..], k);
      }
      assert Split(s, sep)[1..] == Split(rest, sep);
      CutTail(Split(s, sep), sep);
    }
  }

  lemma {:induction false} CutIsSplit(parts: seq<Bytes>, sep: Byte)
    requires sep != BACKSLASH && CutAtSeps(parts, sep)
    ensures Split(Join(parts, sep), sep) == parts
  {
    var p := parts[0];
    if |parts| == 1 {
      LastIsPassed(p, sep);
    } else {
      var rest := Join(parts[1..], sep);
      var s := p + [sep] + rest;
      CutTail(parts, sep);
      CutIsSplit(parts[1..], sep);
      PartIsPassed(p, [sep] + rest, sep, 0);
      assert p + ([sep] + rest) == s;
      assert s[|p|] == sep && s[..|p|] == p && s[|p| + 1..] == rest;
      assert parts == [p] + parts[1..];
    }
  }

  /** For any byte string, the parts are the one list that the separator joins to the
      string without a free separator in a part or an escaped one between parts. */
  lemma SplitExactly(s: Bytes, sep: Byte, parts: seq<Bytes>)
    requires sep != BACKSLASH
    ensures parts == Split(s, sep) <==> CutAtSeps(parts, sep) && Join(parts, sep) == s
  {
    hide Split, Join, CutAtSeps;
    SplitCuts(s, sep);
    if CutAtSeps(parts, sep) && Join(parts, sep) == s {
      CutIsSplit(parts, sep);
    }
  }

  // ----- unescaping a value -----

  /** Everything before index `i` is decoded to `b`. */
  ghost predicate UnescapedUpto(v: Bytes, b: Bytes, i: nat)
    requires i <= |v|
  {
    b + Unescape(v[i..]) == Unescape(v)
  }

  lemma UnescapeTurn(v: Bytes, b: Bytes, i: nat)
    requires i < |v| && UnescapedUpto(v, b, i)
    ensures if v[i] != BACKSLASH || i + 1 == |v| then UnescapedUpto(v, b + [v[i]], i + 1)
            else if i + 2 < |v| && IsHex(v[i + 1]) && IsHex(v[i + 2])
            then UnescapedUpto(v, b + [HexVal(v[i + 1]) * 16 + HexVal(v[i + 2])], i + 3)
            else UnescapedUpto(v, b + [v[i + 1]], i + 2)
  {
    hide IsHex, HexVal;
    var rest := v[i..];
    assert rest[1..] == v[i + 1..];
    if v[i] == BACKSLASH && i + 1 < |v| {
      assert rest[2..] == v[i + 2..];
      if i + 2 < |v| {
        assert rest[3..] == v[i + 3..];
      }
    }
  }

  lemma UnescapeEnds(v: Bytes, b: Bytes)
    requires UnescapedUpto(v, b, |v|)
    ensures b == Unescape(v)
  {}

  method UnescapeDNameValue(v: Bytes) returns (b: Bytes)
    ensures b == Unescape(v)
  {
    b := [];
    var i := 0;
    assert UnescapedUpto(v, b, 0) by {
      assert v[0..] == v;
    }
    hide UnescapedUpto, IsHex, HexVal;
    while i < |v|
      invariant 0 <= i <= |v|
      invariant UnescapedUpto(v, b, i)
    {
      UnescapeTurn(v, b, i);
      if v[i] != BACKSLASH || i + 1 >= |v| {
        b := b + [v[i]];
        i := i + 1;
        continue;
      }
      if i + 2 < |v| && IsHex(v[i + 1]) && IsHex(v[i + 2]) {
        b := b + [HexVal(v[i + 1]) * 16 + HexVal(v[i + 2])];
        i := i + 3;
        continue;
      }
      b := b + [v[i + 1]];
      i := i + 2;
    }
    UnescapeEnds(v, b);
  }

  // ----- white space and names -----

  predicate IsAsciiSpace(c: Byte) {
    9 <= c <= 13 || c == SPACE
  }

  /** The UTF-8 forms of the white space beyond ASCII: U+0085, U+00A0, U+1680, U+2000
      to U+200A, U+2028, U+2029, U+202F, U+205F and U+3000. */
  predicate IsWideSpace(c: Bytes) {
    || (|c| == 2 && c[0] == 0xC2 && (c[1] == 0x85 || c[1] == 0xA0))
    || (|c| == 3 && c[0] == 0xE1 && c[1] == 0x9A && c[2] == 0x80)
    || (|c| == 3 && c[0] == 0xE2 && c[1] == 0x80
        && (0x80 <= c[2] <= 0x8A || c[2] == 0xA8 || c[2] == 0xA9 || c[2] == 0xAF))
    || (|c| == 3 && c[0] == 0xE2 && c[1] == 0x81 && c[2] == 0x9F)
    || (|c| == 3 && c[0] == 0xE3 && c[1] == 0x80 && c[2] == 0x80)
  }

  /** How many bytes the white-space character at the end takes, 0 if there is none. */
  function TrailingSpace(s: Bytes): (n: nat)
    ensures n <= |s|
  {
    if |s| >= 1 && IsAsciiSpace(s[|s| - 1]) then 1
    else if |s| >= 2 && IsWideSpace(s[|s| - 2..]) then 2
    else if |s| >= 3 && IsWideSpace(s[|s| - 3..]) then 3
    else 0
  }

  function LeadingSpace(s: Bytes): (n: nat)
    ensures n <= |s|
  {
    if |s| >= 1 && IsAsciiSpace(s[0]) then 1
    else if |s| >= 2 && IsWideSpace(s[..2]) then 2
    else if |s| >= 3 && IsWideSpace(s[..3]) then 3
    else 0
  }

  function TrimRight(s: Bytes): Bytes {
    var n := TrailingSpace(s);
    if n == 0 then s else TrimRight(s[..|s| - n])
  }

  function TrimLeft(s: Bytes): Bytes {
    var n := LeadingSpace(s);
    if n == 0 then s else TrimLeft(s[n..])
  }

  function TrimSpace(s: Bytes): Bytes {
    TrimRight(TrimLeft(s))
  }

  /** strings.EqualFold(t, "CN"). */
  predicate IsCn(t: Bytes) {
    |t| == 2 && (t[0] == 67 || t[0] == 99) && (t[1] == 78 || t[1] == 110)
  }

  // ----- the decoder -----

  /** The value of the first part whose attribute is CN. */
  function FirstCn(parts: seq<Bytes>): Bytes {
    if parts == [] then []
    else
      var rdn := parts[0];
      var eq := NextSep(rdn, EQUALS, 0);
      if eq < |rdn| && IsCn(TrimSpace(rdn[..eq])) then Unescape(rdn[eq + 1..])
      else FirstCn(parts[1..])
  }

  function Decode(dname: Bytes): Bytes {
    FirstCn(Split(TrimSpace(dname), COMMA))
  }

  method DecodeDNameCN(dname: Bytes) returns (cn: Bytes)
    ensures cn == Decode(dname)
  {
    hide Split, NextSep, Unescape, TrimSpace, IsCn;
    var parts := SplitUnescaped(TrimSpace(dname), COMMA);
    assert parts[0..] == parts;
    for k := 0 to |parts|
      invariant FirstCn(parts[k..]) == FirstCn(parts)
    {
      var rdn := parts[k];
      assert parts[k..][1..] == parts[k + 1..];
      var eq := IndexUnescaped(rdn, EQUALS);
      if eq < 0 {
        continue;
      }
      if !IsCn(TrimSpace(rdn[..eq])) {
        continue;
      }
      cn := UnescapeDNameValue(rdn[eq + 1..]);
      return cn;
    }
    return [];
  }

  // ----- every way of writing a name -----

  /** One byte of an attribute value and the way it is written. */
  datatype Unit =
    | Literal(b: Byte)
    | Escaped(b: Byte)
    | Paired(b: Byte, upperHigh: bool, upperLow: bool)

  /** The characters RFC 4514, section 3, never allows unescaped. */
  predicate Special(b: Byte) {
    b == 34 || b == 43 || b == COMMA || b == 59 || b == 60 || b == 62 || b == BACKSLASH
  }

  /** The forms of sections 2.4 and 3 of RFC 4514, byte by byte. Literal spaces and
      number signs are allowed everywhere, not only where the grammar has them. */
  predicate Allowed(u: Unit) {
    match u
    case Literal(b) => !Special(b) && b != 0
    case Escaped(b) => Special(b) || b == SPACE || b == 35 || b == EQUALS
    case Paired(_, _, _) => true
  }

  function HexDigit(n: Byte, upper: bool): Byte
    requires n < 16
  {
    if n < 10 then 48 + n else if upper then 55 + n else 87 + n
  }

  function Written(u: Unit): Bytes {
    match u
    case Literal(b) => [b]
    case Escaped(b) => [BACKSLASH, b]
    case Paired(b, high, low) => [BACKSLASH, HexDigit(b / 16, high), HexDigit(b % 16, low)]
  }

  function Encoded(units: seq<Unit>): Bytes {
    if units == [] then [] else Encoded(units[..|units| - 1]) + Written(units[|units| - 1])
  }

  function Value(units: seq<Unit>): Bytes {
    seq(|units|, i requires 0 <= i < |units| => units[i].b)
  }

  predicate AllAllowed(units: seq<Unit>) {
    forall i :: 0 <= i < |units| ==> Allowed(units[i])
  }

  /** An attribute type (letters, digits, hyphens, dots) and its value. */
  datatype Rdn = Rdn(typ: Bytes, value: seq<Unit>)

  predicate IsTypeByte(c: Byte) {
    65 <= c <= 90 || 97 <= c <= 122 || 48 <= c <= 57 || c == 45 || c == 46
  }

  predicate ValidType(t: Bytes) {
    t != [] && forall i :: 0 <= i < |t| ==> IsTypeByte(t[i])
  }

  predicate ValidName(rdns: seq<Rdn>) {
    rdns != [] && forall i :: 0 <= i < |rdns| ==> ValidType(rdns[i].typ) && AllAllowed(rdns[i].value)
  }

  /** The name up to the value of its last RDN. */
  function Front(rdns: seq<Rdn>): Bytes
    requires rdns != []
  {
    if |rdns| == 1 then rdns[0].typ + [EQUALS]
    else rdns[0].typ + [EQUALS] + Encoded(rdns[0].value) + [COMMA] + Front(rdns[1..])
  }

  function LastValue(rdns: seq<Rdn>): Bytes
    requires rdns != []
  {
    Encoded(rdns[|rdns| - 1].value)
  }

  /** The string of a name: its RDNs joined by commas. */
  function NameString(rdns: seq<Rdn>): Bytes
    requires rdns != []
  {
    Front(rdns) + LastValue(rdns)
  }

  /** The attribute type CN, in any mix of cases. */
  predicate NamesCn(t: Bytes) {
    t == [67, 78] || t == [67, 110] || t == [99, 78] || t == [99, 110]
  }

  lemma CnIsFolded(t: Bytes)
    ensures IsCn(t) <==> NamesCn(t)
  {
    if IsCn(t) {
      assert t == [t[0], t[1]];
    }
  }

  /** The CN of a name: the value of its first RDN of that type. */
  function CnOf(rdns: seq<Rdn>): Bytes {
    if rdns == [] then [] else if NamesCn(rdns[0].typ) then Value(rdns[0].value) else CnOf(rdns[1..])
  }

  predicate CnIsLast(rdns: seq<Rdn>)
    requires rdns != []
  {
    if |rdns| == 1 then NamesCn(rdns[0].typ) else !NamesCn(rdns[0].typ) && CnIsLast(rdns[1..])
  }

  // ----- values are read back -----

  lemma HexReads(b: Byte, high: bool, low: bool)
    ensures var h, l := HexDigit(b / 16, high), HexDigit(b % 16, low);
            IsHex(h) && IsHex(l) && HexVal(h) * 16 + HexVal(l) == b
            && h != COMMA && l != COMMA && h != BACKSLASH && l != BACKSLASH
            && !IsAsciiSpace(l) && l < 128
  {}

  lemma UnitReads(u: Unit, t: Bytes)
    requires Allowed(u)
    ensures Unescape(Written(u) + t) == [u.b] + Unescape(t)
    ensures NextSep(Written(u) + t, COMMA, 0) == |Written(u)| + NextSep(t, COMMA, 0)
  {
    var w := Written(u) + t;
    assert w[|Written(u)|..] == t;
    NextSepShift(w, COMMA, |Written(u)|, 0);
    if u.Paired? {
      HexReads(u.b, u.upperHigh, u.upperLow);
      assert w[1] == Written(u)[1] && w[2] == Written(u)[2];
    } else if u.Escaped? {
      assert !IsHex(u.b) && w[1] == u.b;
    }
  }

  lemma {:induction false} ValueReads(units: seq<Unit>, t: Bytes)
    requires AllAllowed(units)
    ensures Unescape(Encoded(units) + t) == Value(units) + Unescape(t)
    ensures NextSep(Encoded(units) + t, COMMA, 0) == |Encoded(units)| + NextSep(t, COMMA, 0)
    decreases units
  {
    if units == [] {
      assert Encoded(units) + t == t && Value(units) + Unescape(t) == Unescape(t);
    } else {
      var n := |units| - 1;
      ValueReads(units[..n], Written(units[n]) + t);
      OneMoreReads(units[..n], units[n], t);
      assert units[..n] + [units[n]] == units;
    }
  }

  lemma EncodedNext(units: seq<Unit>, u: Unit)
    ensures Encoded(units + [u]) == Encoded(units) + Written(u)
  {
    assert (units + [u])[..|units|] == units;
  }

  lemma OneMoreReads(units: seq<Unit>, u: Unit, t: Bytes)
    requires Allowed(u)
    requires Unescape(Encoded(units) + (Written(u) + t)) == Value(units) + Unescape(Written(u) + t)
    requires NextSep(Encoded(units) + (Written(u) + t), COMMA, 0)
          == |Encoded(units)| + NextSep(Written(u) + t, COMMA, 0)
    ensures Unescape(Encoded(units + [u]) + t) == Value(units + [u]) + Unescape(t)
    ensures NextSep(Encoded(units + [u]) + t, COMMA, 0) == |Encoded(units + [u])| + NextSep(t, COMMA, 0)
  {
    hide *;
    EncodedNext(units, u);
    UnitReads(u, t);
    assert (Encoded(units) + Written(u)) + t == Encoded(units) + (Written(u) + t);
    ValueNext(units, u, Unescape(t));
  }

  lemma ValueNext(units: seq<Unit>, u: Unit, rest: Bytes)
    ensures Value(units) + ([u.b] + rest) == Value(units + [u]) + rest
  {}

  lemma {:induction false} TypeScans(typ: Bytes, t: Bytes, sep: Byte)
    requires (forall i :: 0 <= i < |typ| ==> IsTypeByte(typ[i])) && (sep == COMMA || sep == EQUALS)
    ensures NextSep(typ + t, sep, 0) == |typ| + NextSep(t, sep, 0)
    decreases typ
  {
    if typ == [] {
      assert typ + t == t;
    } else {
      TypeScans(typ[1..], t, sep);
      assert (typ + t)[1..] == typ[1..] + t;
      NextSepShift(typ + t, sep, 1, 0);
      assert (typ + t)[0] == typ[0];
    }
  }

  // ----- trimming -----

  lemma NoSpaceInType(t: Bytes)
    requires forall i :: 0 <= i < |t| ==> IsTypeByte(t[i])
    ensures TrimSpace(t) == t
  {
    assert LeadingSpace(t) == 0 && TrailingSpace(t) == 0;
  }

  lemma NoLeadingSpace(t: Bytes, s: Bytes)
    requires ValidType(t)
    ensures TrimLeft(t + s) == t + s
  {
    assert (t + s)[0] == t[0];
    assert LeadingSpace(t + s) == 0;
  }

  /** Nothing before an equals sign is trimmed from the right. */
  lemma {:induction false} TrimStopsAtEquals(p: Bytes, e: Bytes)
    requires p != [] && p[|p| - 1] == EQUALS
    ensures TrimRight(p + e) == p + TrimRight(e)
    decreases |e|
  {
    hide TrailingSpace;
    var n := TrailingSpace(e);
    TrailingSpaceAfter(p, e);
    if n > 0 {
      assert (p + e)[..|p + e| - n] == p + e[..|e| - n];
      TrimStopsAtEquals(p, e[..|e| - n]);
    }
  }

  lemma TrailingSpaceAfter(p: Bytes, e: Bytes)
    requires p != [] && p[|p| - 1] == EQUALS
    ensures TrailingSpace(p + e) == TrailingSpace(e)
  {
    var s := p + e;
    if |e| >= 1 {
      assert s[|s| - 1] == e[|e| - 1];
    }
    if |e| >= 2 {
      assert s[|s| - 2..] == e[|e| - 2..];
    }
    if |e| >= 3 {
      assert s[|s| - 3..] == e[|e| - 3..];
    }
    assert s[|p| - 1] == EQUALS;
    assert |s| >= 2 && |e| < 2 ==> !IsWideSpace(s[|s| - 2..]);
    assert |s| >= 3 && |e| < 3 ==> !IsWideSpace(s[|s| - 3..]);
  }

  // ----- what trimming can cut off a value -----

  /** The encoding of the first `k` units, or that and the backslash of an escaped
      space whose space is gone. */
  ghost predicate CutAt(units: seq<Unit>, c: Bytes, k: nat) {
    k <= |units| &&
    (c == Encoded(units[..k])
     || (k < |units| && units[k] == Escaped(SPACE) && c == Encoded(units[..k]) + [BACKSLASH]))
  }

  lemma LastUnit(units: seq<Unit>)
    requires units != []
    ensures Encoded(units) == Encoded(units[..|units| - 1]) + Written(units[|units| - 1])
  {}

  lemma LastHighByte(units: seq<Unit>)
    requires units != [] && AllAllowed(units)
    requires Encoded(units) != [] && Encoded(units)[|Encoded(units)| - 1] >= 128
    ensures Encoded(units)[..|Encoded(units)| - 1] == Encoded(units[..|units| - 1])
  {
    hide Encoded;
    var u := units[|units| - 1];
    LastUnit(units);
    assert Encoded(units)[|Encoded(units)| - 1] == Written(u)[|Written(u)| - 1];
    if u.Paired? {
      HexReads(u.b, u.upperHigh, u.upperLow);
    }
  }

  lemma HighByteHasUnit(units: seq<Unit>)
    ensures Encoded(units) != [] ==> units != []
  {}

  /** Dropping `n` bytes that are all beyond ASCII drops `n` literal units. */
  lemma {:induction false} HighBytesAreUnits(units: seq<Unit>, n: nat) returns (k: nat)
    requires AllAllowed(units) && n <= |Encoded(units)|
    requires forall i :: |Encoded(units)| - n <= i < |Encoded(units)| ==> Encoded(units)[i] >= 128
    ensures k <= |units| && Encoded(units)[..|Encoded(units)| - n] == Encoded(units[..k])
    ensures n > 0 ==> k < |units|
    decreases n
  {
    hide Encoded;
    if n == 0 {
      k := |units|;
      assert units[..k] == units && Encoded(units)[..|Encoded(units)|] == Encoded(units);
    } else {
      HighByteHasUnit(units);
      LastHighByte(units);
      var front := units[..|units| - 1];
      k := HighBytesAreUnits(front, n - 1);
      assert front[..k] == units[..k];
      var e := Encoded(units);
      assert e[..|e| - 1][..|e| - n] == e[..|e| - n];
    }
  }

  lemma AsciiSpaceIsUnit(units: seq<Unit>)
    requires AllAllowed(units) && Encoded(units) != [] && IsAsciiSpace(Encoded(units)[|Encoded(units)| - 1])
    ensures units != [] && CutAt(units, Encoded(units)[..|Encoded(units)| - 1], |units| - 1)
  {
    hide Encoded;
    HighByteHasUnit(units);
    var u := units[|units| - 1];
    LastUnit(units);
    assert Encoded(units)[|Encoded(units)| - 1] == Written(u)[|Written(u)| - 1];
    if u.Paired? {
      HexReads(u.b, u.upperHigh, u.upperLow);
    }
    assert !u.Literal? ==> u == Escaped(SPACE);
    assert (Encoded(units[..|units| - 1]) + Written(u))[..|Encoded(units)| - 1]
        == Encoded(units[..|units| - 1]) + Written(u)[..|Written(u)| - 1];
  }

  lemma WideSpaceIsHigh(s: Bytes)
    requires TrailingSpace(s) > 1
    ensures forall i :: |s| - TrailingSpace(s) <= i < |s| ==> s[i] >= 128
  {
    var n := TrailingSpace(s);
    assert IsWideSpace(s[|s| - n..]);
    assert forall i :: |s| - n <= i < |s| ==> s[i] == s[|s| - n..][i - (|s| - n)];
  }

  lemma BackslashIsNoSpace(e: Bytes)
    requires e != [] && e[|e| - 1] == BACKSLASH
    ensures TrailingSpace(e) == 0
  {
    hide IsWideSpace;
    if |e| >= 2 {
      WideSpaceEndsHigh(e[|e| - 2..]);
    }
    if |e| >= 3 {
      WideSpaceEndsHigh(e[|e| - 3..]);
    }
  }

  lemma WideSpaceEndsHigh(c: Bytes)
    requires c != []
    ensures IsWideSpace(c) ==> c[|c| - 1] >= 128
  {}

  lemma {:induction false} TrimCuts(units: seq<Unit>) returns (k: nat)
    requires AllAllowed(units)
    ensures CutAt(units, TrimRight(Encoded(units)), k)
    ensures TrailingSpace(Encoded(units)) > 0 ==> k < |units|
    ensures TrailingSpace(Encoded(units)) == 0 ==> TrimRight(Encoded(units)) == Encoded(units)
    decreases |units|
  {
    hide Encoded, TrailingSpace, Written;
    var e := Encoded(units);
    var n := TrailingSpace(e);
    if n == 0 {
      k := |units|;
      assert units[..k] == units;
    } else if n == 1 {
      OneIsAscii(e);
      AsciiSpaceIsUnit(units);
      var front := units[..|units| - 1];
      if e[..|e| - 1] == Encoded(front) {
        k := TrimCuts(front);
        CutShorter(units, TrimRight(e), |units| - 1, k);
      } else {
        k := |units| - 1;
        assert e[..|e| - 1][|e| - 2] == BACKSLASH;
        BackslashIsNoSpace(e[..|e| - 1]);
      }
    } else {
      WideSpaceIsHigh(e);
      var m := HighBytesAreUnits(units, n);
      k := TrimCuts(units[..m]);
      CutShorter(units, TrimRight(e), m, k);
    }
  }

  lemma OneIsAscii(e: Bytes)
    requires TrailingSpace(e) == 1
    ensures e != [] && IsAsciiSpace(e[|e| - 1])
  {}

  lemma CutShorter(units: seq<Unit>, c: Bytes, m: nat, k: nat)
    requires m <= |units| && CutAt(units[..m], c, k)
    ensures CutAt(units, c, k)
  {
    assert units[..m][..k] == units[..k];
  }

  // ----- names are read back -----

  lemma PartReads(typ: Bytes, v: Bytes, more: seq<Bytes>)
    requires ValidType(typ)
    ensures FirstCn([typ + [EQUALS] + v] + more) == if IsCn(typ) then Unescape(v) else FirstCn(more)
  {
    hide Unescape;
    var part := typ + [EQUALS] + v;
    assert part == typ + ([EQUALS] + v);
    TypeScans(typ, [EQUALS] + v, EQUALS);
    assert part[..|typ|] == typ && part[|typ| + 1..] == v;
    NoSpaceInType(typ);
    assert ([part] + more)[1..] == more;
  }

  lemma PartScans(typ: Bytes, v: Bytes, t: Bytes)
    requires ValidType(typ) && NextSep(v + t, COMMA, 0) == |v| + NextSep(t, COMMA, 0)
    ensures NextSep(typ + [EQUALS] + v + t, COMMA, 0) == |typ| + 1 + |v| + NextSep(t, COMMA, 0)
  {
    var rest := [EQUALS] + (v + t);
    assert typ + [EQUALS] + v + t == typ + rest;
    TypeScans(typ, rest, COMMA);
    assert rest[1..] == v + t && rest[0] == EQUALS;
    NextSepShift(rest, COMMA, 1, 0);
  }

  lemma LastPartReads(typ: Bytes, e: Bytes)
    requires ValidType(typ) && NextSep(e, COMMA, 0) == |e|
    ensures FirstCn(Split(typ + [EQUALS] + e, COMMA)) == if IsCn(typ) then Unescape(e) else []
  {
    hide Unescape, FirstCn, ValidType, NextSep;
    var s := typ + [EQUALS] + e;
    assert e + [] == e && s + [] == s;
    NothingScans();
    PartScans(typ, e, []);
    PartReads(typ, e, []);
    assert Split(s, COMMA) == [s] && [s] + [] == [s];
    NoPartsNoCn();
  }

  lemma OnePartReads(typ: Bytes, units: seq<Unit>, rest: Bytes)
    requires ValidType(typ) && AllAllowed(units)
    ensures FirstCn(Split(typ + [EQUALS] + Encoded(units) + [COMMA] + rest, COMMA))
         == if IsCn(typ) then Value(units) else FirstCn(Split(rest, COMMA))
  {
    hide Unescape, FirstCn, ValidType, NextSep, Encoded, Value, AllAllowed;
    var part := typ + [EQUALS] + Encoded(units);
    var s := part + [COMMA] + rest;
    assert s == part + ([COMMA] + rest);
    ValueReads(units, [COMMA] + rest);
    CommaScans(rest);
    PartScans(typ, Encoded(units), [COMMA] + rest);
    assert s[..|part|] == part && s[|part| + 1..] == rest;
    assert Split(s, COMMA) == [part] + Split(rest, COMMA);
    PartReads(typ, Encoded(units), Split(rest, COMMA));
    WholeValueReads(units);
  }

  /** Reading a name whose last value was replaced by bytes without a free comma. */
  lemma {:induction false} NameReads(rdns: seq<Rdn>, e: Bytes)
    requires ValidName(rdns) && NextSep(e, COMMA, 0) == |e|
    ensures FirstCn(Split(Front(rdns) + e, COMMA)) == if CnIsLast(rdns) then Unescape(e) else CnOf(rdns)
    decreases rdns
  {
    hide Unescape, FirstCn, ValidType, NextSep, Split, Encoded, Value, AllAllowed, IsCn, NamesCn;
    CnIsFolded(rdns[0].typ);
    if |rdns| == 1 {
      LastPartReads(rdns[0].typ, e);
      assert rdns[1..] == [];
    } else {
      OnePartReads(rdns[0].typ, rdns[0].value, Front(rdns[1..]) + e);
      NameReads(rdns[1..], e);
      var head := rdns[0].typ + [EQUALS] + Encoded(rdns[0].value) + [COMMA];
      assert Front(rdns) + e == head + (Front(rdns[1..]) + e);
    }
  }

  // ----- and split back into what was written -----

  function WrittenRdn(r: Rdn): Bytes {
    r.typ + [EQUALS] + Encoded(r.value)
  }

  function WrittenRdns(rdns: seq<Rdn>): seq<Bytes> {
    seq(|rdns|, i requires 0 <= i < |rdns| => WrittenRdn(rdns[i]))
  }

  lemma RdnIsOnePart(r: Rdn, rest: Bytes)
    requires ValidType(r.typ) && AllAllowed(r.value)
    ensures Split(WrittenRdn(r), COMMA) == [WrittenRdn(r)]
    ensures Split(WrittenRdn(r) + ([COMMA] + rest), COMMA) == [WrittenRdn(r)] + Split(rest, COMMA)
  {
    hide WrittenRdn, ValidType, NextSep, AllAllowed;
    RdnScans(r, rest);
    SplitsAt(WrittenRdn(r), rest);
  }

  lemma RdnScans(r: Rdn, rest: Bytes)
    requires ValidType(r.typ) && AllAllowed(r.value)
    ensures NextSep(WrittenRdn(r), COMMA, 0) == |WrittenRdn(r)|
    ensures NextSep(WrittenRdn(r) + ([COMMA] + rest), COMMA, 0) == |WrittenRdn(r)|
  {
    hide ValidType, NextSep, Encoded, AllAllowed, Unescape;
    var value, t := Encoded(r.value), [COMMA] + rest;
    NothingScans();
    CommaScans(rest);
    ValueReads(r.value, []);
    ValueReads(r.value, t);
    PartScans(r.typ, value, []);
    PartScans(r.typ, value, t);
    assert WrittenRdn(r) + [] == WrittenRdn(r);
  }

  lemma SplitsAt(part: Bytes, rest: Bytes)
    requires NextSep(part, COMMA, 0) == |part| && NextSep(part + ([COMMA] + rest), COMMA, 0) == |part|
    ensures Split(part, COMMA) == [part]
    ensures Split(part + ([COMMA] + rest), COMMA) == [part] + Split(rest, COMMA)
  {
    hide NextSep;
    var s := part + ([COMMA] + rest);
    assert s[..|part|] == part && s[|part| + 1..] == rest;
  }

  /** Whatever way each byte of each value is written, splitting a written name gives
      back its RDNs as they were written, all of them and in order. */
  lemma {:induction false} SplitRecoversRdns(rdns: seq<Rdn>)
    requires ValidName(rdns)
    ensures Split(NameString(rdns), COMMA) == WrittenRdns(rdns)
    decreases rdns
  {
    hide Split, Encoded, ValidType, AllAllowed;
    var r, more := rdns[0], rdns[1..];
    if more == [] {
      RdnIsOnePart(r, []);
      assert NameString(rdns) == WrittenRdn(r);
    } else {
      RdnIsOnePart(r, NameString(more));
      SplitRecoversRdns(more);
      assert NameString(rdns) == WrittenRdn(r) + ([COMMA] + NameString(more));
      assert WrittenRdns(rdns) == [WrittenRdn(r)] + WrittenRdns(more);
    }
  }

  /** After the whole string is trimmed, that holds exactly if there was no white space,
      escaped or not, at the end of the last value. */
  lemma TrimmedSplitRecoversRdnsExactly(rdns: seq<Rdn>)
    requires ValidName(rdns)
    ensures Split(TrimSpace(NameString(rdns)), COMMA) == WrittenRdns(rdns) <==> TrailingSpace(LastValue(rdns)) == 0
  {
    hide Split, Join, Front, LastValue, TrailingSpace, WrittenRdns, ValidType, AllAllowed, TrimSpace;
    NameTrims(rdns);
    SplitRecoversRdns(rdns);
    SplitCuts(TrimSpace(NameString(rdns)), COMMA);
    SplitCuts(NameString(rdns), COMMA);
    var e := LastValue(rdns);
    TrimRightShortens(e);
  }

  lemma {:induction false} TrimRightShortens(e: Bytes)
    ensures |TrimRight(e)| <= |e|
    ensures TrimRight(e) == e <==> TrailingSpace(e) == 0
    ensures TrailingSpace(e) > 0 ==> |TrimRight(e)| < |e|
    decreases |e|
  {
    hide TrailingSpace;
    if TrailingSpace(e) > 0 {
      TrimRightShortens(e[..|e| - TrailingSpace(e)]);
    }
  }

  // ----- names with white space around their types -----

  predicate Pads(p: Bytes) {
    forall i :: 0 <= i < |p| ==> 9 <= p[i] <= 13 || p[i] == 32
  }

  /** An RDN with white space before and behind its type, as in "O=x, CN = y". */
  datatype PaddedRdn = PaddedRdn(before: Bytes, after: Bytes, rdn: Rdn)

  function PaddedFront(r: PaddedRdn): Bytes {
    r.before + (r.rdn.typ + (r.after + [EQUALS]))
  }

  function PaddedString(rs: seq<PaddedRdn>): Bytes
    requires rs != []
  {
    var part := PaddedFront(rs[0]) + Encoded(rs[0].rdn.value);
    if |rs| == 1 then part else part + ([COMMA] + PaddedString(rs[1..]))
  }

  predicate ValidPadded(rs: seq<PaddedRdn>) {
    rs != [] && forall i :: 0 <= i < |rs| ==>
      Pads(rs[i].before) && Pads(rs[i].after) && ValidType(rs[i].rdn.typ) && AllAllowed(rs[i].rdn.value)
  }

  function Unpadded(rs: seq<PaddedRdn>): seq<Rdn> {
    seq(|rs|, i requires 0 <= i < |rs| => rs[i].rdn)
  }

  lemma {:induction false} PadScans(p: Bytes, t: Bytes, sep: Byte)
    requires Pads(p) && (sep == COMMA || sep == EQUALS)
    ensures NextSep(p + t, sep, 0) == |p| + NextSep(t, sep, 0)
  {
    if p == [] {
      assert p + t == t;
    } else {
      PadScans(p[1..], t, sep);
      assert (p + t)[1..] == p[1..] + t && (p + t)[0] == p[0];
      NextSepShift(p + t, sep, 1, 0);
    }
  }

  lemma EqualsScans(t: Bytes)
    ensures NextSep([EQUALS] + t, EQUALS, 0) == 0
    ensures NextSep([EQUALS] + t, COMMA, 0) == 1 + NextSep(t, COMMA, 0)
  {
    assert ([EQUALS] + t)[1..] == t;
    NextSepShift([EQUALS] + t, COMMA, 1, 0);
  }

  lemma PaddedFrontScans(r: PaddedRdn, t: Bytes)
    requires Pads(r.before) && Pads(r.after) && ValidType(r.rdn.typ)
    ensures NextSep(PaddedFront(r) + t, EQUALS, 0) == |PaddedFront(r)| - 1
    ensures NextSep(PaddedFront(r) + t, COMMA, 0) == |PaddedFront(r)| + NextSep(t, COMMA, 0)
  {
    hide NextSep, Pads;
    var tail := [EQUALS] + t;
    EqualsScans(t);
    PadScans(r.after, tail, EQUALS);
    PadScans(r.after, tail, COMMA);
    TypeScans(r.rdn.typ, r.after + tail, EQUALS);
    TypeScans(r.rdn.typ, r.after + tail, COMMA);
    PadScans(r.before, r.rdn.typ + (r.after + tail), EQUALS);
    PadScans(r.before, r.rdn.typ + (r.after + tail), COMMA);
    assert PaddedFront(r) + t == r.before + (r.rdn.typ + (r.after + tail));
  }

  lemma {:induction false} PadsAreTrimmedLeft(p: Bytes, t: Bytes)
    requires Pads(p)
    ensures TrimLeft(p + t) == TrimLeft(t)
  {
    if p == [] {
      assert p + t == t;
    } else {
      assert (p + t)[0] == p[0] && (p + t)[1..] == p[1..] + t;
      PadsAreTrimmedLeft(p[1..], t);
    }
  }

  lemma {:induction false} PadsAreTrimmedRight(t: Bytes, p: Bytes)
    requires Pads(p)
    ensures TrimRight(t + p) == TrimRight(t)
  {
    if p == [] {
      assert t + p == t;
    } else {
      var n := |p| - 1;
      assert (t + p)[|t + p| - 1] == p[n] && (t + p)[..|t + p| - 1] == t + p[..n];
      PadsAreTrimmedRight(t, p[..n]);
    }
  }

  lemma PaddedTypeIsTrimmed(before: Bytes, typ: Bytes, after: Bytes)
    requires Pads(before) && Pads(after) && ValidType(typ)
    ensures TrimSpace(before + (typ + after)) == typ
  {
    hide TrimRight, TrailingSpace, Pads;
    PadsAreTrimmedLeft(before, typ + after);
    NoLeadingSpace(typ, after);
    PadsAreTrimmedRight(typ, after);
    NoSpaceInType(typ);
    NoLeadingSpace(typ, []);
    assert typ + [] == typ;
  }

  /** White space around the type of a part does not matter. */
  lemma PaddedPartReads(r: PaddedRdn, v: Bytes, more: seq<Bytes>)
    requires Pads(r.before) && Pads(r.after) && ValidType(r.rdn.typ)
    ensures FirstCn([PaddedFront(r) + v] + more) == if NamesCn(r.rdn.typ) then Unescape(v) else FirstCn(more)
  {
    hide Unescape, NextSep, TrimSpace, Pads, ValidType, NamesCn, IsCn;
    var part, n := PaddedFront(r) + v, |PaddedFront(r)| - 1;
    PaddedFrontScans(r, v);
    PaddedTypeIsTrimmed(r.before, r.rdn.typ, r.after);
    CnIsFolded(r.rdn.typ);
    assert part[..n] == r.before + (r.rdn.typ + r.after) && part[n + 1..] == v;
    assert ([part] + more)[1..] == more && ([part] + more)[0] == part;
  }

  lemma PaddedPartSplits(r: PaddedRdn, rest: Bytes)
    requires Pads(r.before) && Pads(r.after) && ValidType(r.rdn.typ) && AllAllowed(r.rdn.value)
    ensures var part := PaddedFront(r) + Encoded(r.rdn.value);
            Split(part, COMMA) == [part] && Split(part + ([COMMA] + rest), COMMA) == [part] + Split(rest, COMMA)
  {
    hide NextSep, Pads, ValidType, AllAllowed, PaddedFront, Unescape, Encoded;
    var front, value := PaddedFront(r), Encoded(r.rdn.value);
    WholeValueReads(r.rdn.value);
    ValueReads(r.rdn.value, [COMMA] + rest);
    CommaScans(rest);
    PaddedFrontScans(r, value);
    PaddedFrontScans(r, value + ([COMMA] + rest));
    assert (front + value) + ([COMMA] + rest) == front + (value + ([COMMA] + rest));
    SplitsAt(front + value, rest);
  }

  /** So a name with white space around its types reads like the name without. */
  lemma {:induction false} PaddedNameReads(rs: seq<PaddedRdn>)
    requires ValidPadded(rs)
    ensures FirstCn(Split(PaddedString(rs), COMMA)) == CnOf(Unpadded(rs))
    decreases rs
  {
    hide Split, FirstCn, Pads, ValidType, AllAllowed, NamesCn, PaddedFront, Encoded, Unescape;
    var r, more := rs[0], rs[1..];
    WholeValueReads(r.rdn.value);
    if more == [] {
      PaddedPartSplits(r, []);
      PaddedPartReads(r, Encoded(r.rdn.value), []);
      NoPartsNoCn();
      var part := PaddedFront(r) + Encoded(r.rdn.value);
      assert [part] + [] == [part] && Unpadded(rs) == [r.rdn] && [r.rdn][1..] == [];
    } else {
      PaddedPartSplits(r, PaddedString(more));
      PaddedPartReads(r, Encoded(r.rdn.value), Split(PaddedString(more), COMMA));
      PaddedNameReads(more);
      assert Unpadded(rs) == [r.rdn] + Unpadded(more);
    }
  }

  lemma OneByteValue(b: Byte)
    ensures Encoded([Literal(b)]) == [b] && Value([Literal(b)]) == [b]
  {
    assert [Literal(b)][..0] == [];
  }

  /** The decoder reads "O=x, CN=y". */
  lemma SpaceBehindComma()
    ensures Decode([79, 61, 120, 44, 32, 67, 78, 61, 121]) == [121]
  {
    hide Encoded, Value, Split, FirstCn, TrimRight, TrimLeft, LeadingSpace, TrailingSpace;
    var o := PaddedRdn([], [], Rdn([79], [Literal(120)]));
    var cn := PaddedRdn([32], [], Rdn([67, 78], [Literal(121)]));
    OneByteValue(120);
    OneByteValue(121);
    PaddedNameReads([o, cn]);
    assert [o, cn][1..] == [cn] && PaddedString([cn]) == [32, 67, 78, 61, 121];
    var dname := [79, 61, 120, 44, 32, 67, 78, 61, 121];
    assert PaddedString([o, cn]) == dname;
    NothingToTrim(dname);
    assert Unpadded([o, cn]) == [o.rdn, cn.rdn] && [o.rdn, cn.rdn][1..] == [cn.rdn];
  }

  lemma NothingToTrim(s: Bytes)
    requires s != [] && IsTypeByte(s[0]) && IsTypeByte(s[|s| - 1])
    ensures TrimSpace(s) == s
  {
    NothingInFront(s);
    NothingBehind(s);
    hide LeadingSpace, TrailingSpace, IsTypeByte;
  }

  lemma NothingInFront(s: Bytes)
    requires s != [] && IsTypeByte(s[0])
    ensures LeadingSpace(s) == 0
  {
    assert |s| >= 2 ==> s[..2][0] == s[0];
    assert |s| >= 3 ==> s[..3][0] == s[0];
  }

  lemma NothingBehind(s: Bytes)
    requires s != [] && IsTypeByte(s[|s| - 1])
    ensures TrailingSpace(s) == 0
  {
    hide IsWideSpace;
    if |s| >= 2 {
      WideSpaceEndsHigh(s[|s| - 2..]);
    }
    if |s| >= 3 {
      WideSpaceEndsHigh(s[|s| - 3..]);
    }
  }

  // ----- white space at the end, by code points -----

  /** The code points of white space. */
  predicate IsSpaceCode(n: int) {
    || 0x9 <= n <= 0xD || n == 0x20 || n == 0x85 || n == 0xA0 || n == 0x1680
    || 0x2000 <= n <= 0x200A || n == 0x2028 || n == 0x2029 || n == 0x202F || n == 0x205F || n == 0x3000
  }

  function Utf8(n: nat): Bytes
    requires n < 0x10000
  {
    if n < 0x80 then [n as Byte]
    else if n < 0x800 then [(0xC0 + n / 0x40) as Byte, (0x80 + n % 0x40) as Byte]
    else [(0xE0 + n / 0x1000) as Byte, (0x80 + n / 0x40 % 0x40) as Byte, (0x80 + n % 0x40) as Byte]
  }

  predicate EndsWith(s: Bytes, t: Bytes) {
    |t| <= |s| && s[|s| - |t|..] == t
  }

  lemma WideSpaceHasCode(c: Bytes) returns (n: nat)
    requires IsWideSpace(c)
    ensures n < 0x10000 && IsSpaceCode(n) && Utf8(n) == c
  {
    if |c| == 2 {
      n := c[1] as int;
    } else if c[0] == 0xE1 {
      n := 0x1680;
    } else if c[0] == 0xE3 {
      n := 0x3000;
    } else if c[1] == 0x81 {
      n := 0x205F;
    } else {
      n := 0x2000 + (c[2] as int - 0x80);
    }
  }

  lemma CodeIsSpace(n: nat)
    requires n < 0x10000 && IsSpaceCode(n)
    ensures n < 0x80 ==> IsAsciiSpace(n as Byte)
    ensures n >= 0x80 ==> IsWideSpace(Utf8(n))
  {}

  /** A string has white space to trim at its end exactly if it ends in the encoding of
      a white-space character. */
  lemma TrailingSpaceExactly(s: Bytes)
    ensures TrailingSpace(s) > 0 <==> exists n :: 0 <= n < 0x10000 && IsSpaceCode(n) && EndsWith(s, Utf8(n))
  {
    if TrailingSpace(s) == 1 {
      var n := s[|s| - 1] as int;
      assert Utf8(n) == s[|s| - 1..];
    } else if TrailingSpace(s) > 0 {
      var n := WideSpaceHasCode(s[|s| - TrailingSpace(s)..]);
      assert EndsWith(s, Utf8(n));
    }
    if n :| 0 <= n < 0x10000 && IsSpaceCode(n) && EndsWith(s, Utf8(n)) {
      CodeIsSpace(n);
    }
  }

  lemma NothingScans()
    ensures NextSep([], COMMA, 0) == 0
  {}

  lemma CommaScans(rest: Bytes)
    ensures NextSep([COMMA] + rest, COMMA, 0) == 0
  {}

  lemma NoPartsNoCn()
    ensures FirstCn([]) == []
  {}

  lemma WholeValueReads(units: seq<Unit>)
    requires AllAllowed(units)
    ensures Unescape(Encoded(units)) == Value(units) && NextSep(Encoded(units), COMMA, 0) == |Encoded(units)|
  {
    ValueReads(units, []);
    assert Encoded(units) + [] == Encoded(units) && Value(units) + [] == Value(units);
  }

  /** A value that trimming has shortened never decodes to the original. */
  lemma CutValueReads(units: seq<Unit>, c: Bytes, k: nat)
    requires AllAllowed(units) && CutAt(units, c, k)
    ensures NextSep(c, COMMA, 0) == |c|
    ensures k < |units| ==> Unescape(c) != Value(units)
    ensures c == Encoded(units) ==> Unescape(c) == Value(units)
  {
    hide Encoded;
    WholeValueReads(units);
    WholeValueReads(units[..k]);
    if c != Encoded(units[..k]) {
      ValueReads(units[..k], [BACKSLASH]);
      assert [BACKSLASH][1..] == [];
      assert Unescape([BACKSLASH]) == [BACKSLASH];
      assert Value(units)[k] == SPACE;
      assert (Value(units[..k]) + [BACKSLASH])[k] == BACKSLASH;
    }
  }

  /** Whatever way each byte of each value is written, the decoder returns the CN of the
      name, unless the CN stands in the last RDN and its written form ends in white
      space, escaped or not: that is trimmed off before the escapes are read. */
  lemma DecodingInvertsEncoding(rdns: seq<Rdn>)
    requires ValidName(rdns)
    ensures Decode(NameString(rdns)) == CnOf(rdns) <==>
            !(CnIsLast(rdns) && TrailingSpace(LastValue(rdns)) > 0)
  {
    var units := rdns[|rdns| - 1].value;
    hide *;
    NameTrims(rdns);
    var k := TrimCuts(units);
    var e := TrimRight(Encoded(units));
    CutValueReads(units, e, k);
    NameReads(rdns, e);
    if CnIsLast(rdns) {
      LastIsCn(rdns);
    }
  }

  lemma NameTrims(rdns: seq<Rdn>)
    requires ValidName(rdns)
    ensures AllAllowed(rdns[|rdns| - 1].value)
    ensures LastValue(rdns) == Encoded(rdns[|rdns| - 1].value)
    ensures TrimSpace(NameString(rdns)) == Front(rdns) + TrimRight(LastValue(rdns))
    ensures Decode(NameString(rdns)) == FirstCn(Split(Front(rdns) + TrimRight(LastValue(rdns)), COMMA))
  {
    var front, e := Front(rdns), LastValue(rdns);
    FrontEnds(rdns);
    hide Front, FirstCn, Split, Encoded;
    NoLeadingSpace(rdns[0].typ, front[|rdns[0].typ|..] + e);
    assert rdns[0].typ + (front[|rdns[0].typ|..] + e) == front + e;
    TrimStopsAtEquals(front, e);
  }

  lemma {:induction false} FrontEnds(rdns: seq<Rdn>)
    requires rdns != []
    ensures Front(rdns) != [] && Front(rdns)[|Front(rdns)| - 1] == EQUALS
    ensures |rdns[0].typ| <= |Front(rdns)| && Front(rdns)[..|rdns[0].typ|] == rdns[0].typ
  {
    if |rdns| > 1 {
      FrontEnds(rdns[1..]);
    }
  }

  lemma {:induction false} LastIsCn(rdns: seq<Rdn>)
    requires rdns != [] && CnIsLast(rdns)
    ensures CnOf(rdns) == Value(rdns[|rdns| - 1].value)
  {
    if |rdns| > 1 {
      LastIsCn(rdns[1..]);
    }
  }

  /** The string form of an attribute value as RFC 4514 has it: no free space at either
      end, no free number sign in front. */
  predicate IsRfcValue(units: seq<Unit>) {
    AllAllowed(units) &&
    (units != [] ==> units[0] != Literal(SPACE) && units[0] != Literal(35) && units[|units| - 1] != Literal(SPACE))
  }

  /** A CN that ends in a space, written the way the RFC prescribes, is misread. */
  lemma EscapedLastSpaceIsLost()
    ensures var rdns := [Rdn([67, 78], [Literal(97), Escaped(SPACE)])];
            && ValidName(rdns) && IsRfcValue(rdns[0].value)
            && Decode(NameString(rdns)) != CnOf(rdns)
  {
    var units := [Literal(97), Escaped(SPACE)];
    var rdns := [Rdn([67, 78], units)];
    assert Encoded(units) == Encoded(units[..1]) + [BACKSLASH, SPACE];
    DecodingInvertsEncoding(rdns);
  }

  /** Two spellings of one name decode alike, unless the CN stands last and one of them
      loses white space at its end. */
  lemma SpellingsDecodeAlike(a: seq<Rdn>, b: seq<Rdn>)
    requires ValidName(a) && ValidName(b) && |a| == |b|
    requires forall i :: 0 <= i < |a| ==> a[i].typ == b[i].typ && Value(a[i].value) == Value(b[i].value)
    requires !(CnIsLast(a) && TrailingSpace(LastValue(a)) > 0) && !(CnIsLast(b) && TrailingSpace(LastValue(b)) > 0)
    ensures Decode(NameString(a)) == Decode(NameString(b))
  {
    hide ValidName, Decode, CnIsLast, TrailingSpace, LastValue;
    DecodingInvertsEncoding(a);
    DecodingInvertsEncoding(b);
    SameCn(a, b);
  }

  lemma {:induction false} SameCn(a: seq<Rdn>, b: seq<Rdn>)
    requires |a| == |b|
    requires forall i :: 0 <= i < |a| ==> a[i].typ == b[i].typ && Value(a[i].value) == Value(b[i].value)
    ensures CnOf(a) == CnOf(b)
    decreases a
  {
    if a != [] {
      SameCn(a[1..], b[1..]);
    }
  }
}
