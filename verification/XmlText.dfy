/** Decoding character references, entity references and CDATA sections. */
module XmlText {
  import opened Common
  import opened Text

  const CDATA := "<![CDATA["
  const CDATA_END := "]]>"

  // ----- numbers -----

  function DigitValue(c: char): nat {
    if '0' <= c <= '9' then c as int - '0' as int
    else if 'a' <= c <= 'z' then c as int - 'a' as int + 10
    else if 'A' <= c <= 'Z' then c as int - 'A' as int + 10
    else 36
  }

  predicate AreDigits(s: string, base: nat) {
    s != "" && forall i :: 0 <= i < |s| ==> DigitValue(s[i]) < base
  }

  function Number(s: string, base: nat): nat {
    if s == "" then 0 else Number(s[..|s| - 1], base) * base + DigitValue(s[|s| - 1])
  }

  /** strconv.ParseInt(s, base, 32). */
  function ParseInt(s: string, base: nat): Option<int> {
    if s != "" && (s[0] == '+' || s[0] == '-') then
      if !AreDigits(s[1..], base) then None
      else if s[0] == '+' then InRange(Number(s[1..], base))
      else InRange(0 - Number(s[1..], base))
    else if AreDigits(s, base) then InRange(Number(s, base))
    else None
  }

  function InRange(n: int): Option<int> {
    if -0x8000_0000 <= n < 0x8000_0000 then Some(n) else None
  }

  predicate IsScalar(n: int) {
    0 <= n < 0xD800 || 0xE000 <= n < 0x11_0000
  }

  /** What WriteRune writes: U+FFFD for anything that is not a character. */
  function Rune(n: int): char {
    if IsScalar(n) then n as char else 0xFFFD as char
  }

  // ----- one step of the decoder -----

  function DecodeRef(ref: string): string {
    if HasPrefix(ref, "#x") || HasPrefix(ref, "#X") then
      var n := ParseInt(ref[2..], 16);
      if n.Some? then [Rune(n.value)] else ""
    else if HasPrefix(ref, "#") then
      var n := ParseInt(ref[1..], 10);
      if n.Some? then [Rune(n.value)] else ""
    else if ref == "lt" then "<"
    else if ref == "gt" then ">"
    else if ref == "amp" then "&"
    else if ref == "apos" then "'"
    else if ref == "quot" then "\""
    else "&" + ref + ";"
  }

  datatype Step = Step(out: string, rest: string)

  lemma CDataEndAfterStart(s: string)
    requires HasPrefix(s, CDATA)
    ensures Index(s, CDATA_END) < 0 || Index(s, CDATA_END) >= |CDATA|
  {
    var end := Index(s, CDATA_END);
    if end >= 0 {
      assert s[end..][..3] == CDATA_END && s[end..][0] == ']';
      assert s[end] == ']';
      assert forall k :: 0 <= k < |CDATA| ==> s[k] == s[..|CDATA|][k] == CDATA[k] != ']';
    }
  }

  function CDataStep(s: string): (r: Step)
    requires HasPrefix(s, CDATA)
    ensures |r.rest| < |s|
  {
    var end := Index(s, CDATA_END);
    CDataEndAfterStart(s);
    if end < 0 then Step(s[|CDATA|..], "") else Step(s[|CDATA|..end], s[end + |CDATA_END|..])
  }

  /** From an ampersand on. */
  function RefStep(s: string): (r: Step)
    requires s != "" && s[0] == '&'
    ensures |r.rest| < |s|
  {
    var semi := Index(s, ";");
    if semi < 0 then Step(s, "")
    else
      IndexOfChar(s, ';');
      Step(DecodeRef(s[1..semi]), s[semi + 1..])
  }

  function Decode1(s: string): (r: Step)
    requires s != ""
    ensures |r.rest| < |s|
  {
    if HasPrefix(s, CDATA) then CDataStep(s)
    else
      var amp, cdata := Index(s, "&"), Index(s, CDATA);
      assert cdata != 0 by { assert s[0..] == s; }
      if cdata >= 0 && (amp < 0 || cdata < amp) then Step(s[..cdata], s[cdata..])
      else if amp < 0 then Step(s, "")
      else
        IndexOfChar(s, '&');
        var r := RefStep(s[amp..]);
        Step(s[..amp] + r.out, r.rest)
  }

  function Decode(s: string): string
    decreases |s|
  {
    if s == "" then "" else Decode1(s).out + Decode(Decode1(s).rest)
  }

  // ----- the loop -----

  /** `s0` decodes to `b` followed by what `s` decodes to. */
  ghost predicate Upto(s0: string, b: string, s: string) {
    Decode(s0) == b + Decode(s)
  }

  lemma Turn(s0: string, b: string, s: string)
    requires s != "" && Upto(s0, b, s)
    ensures Upto(s0, b + Decode1(s).out, Decode1(s).rest)
  {}

  lemma CDataTurn(s0: string, b: string, s: string)
    requires HasPrefix(s, CDATA) && Upto(s0, b, s)
    ensures var end := Index(s, CDATA_END);
            if end < 0 then Upto(s0, b + s[|CDATA|..], "")
            else end >= |CDATA| && Upto(s0, b + s[|CDATA|..end], s[end + |CDATA_END|..])
  {
    hide Upto;
    CDataEndAfterStart(s);
    Turn(s0, b, s);
  }

  predicate RefComesFirst(s: string) {
    var amp, cdata := Index(s, "&"), Index(s, CDATA);
    amp >= 0 && (cdata < 0 || amp <= cdata)
  }

  lemma TextTurn(s0: string, b: string, s: string)
    requires s != "" && !HasPrefix(s, CDATA) && !RefComesFirst(s) && Upto(s0, b, s)
    ensures var amp, cdata := Index(s, "&"), Index(s, CDATA);
            if cdata >= 0 then cdata > 0 && Upto(s0, b + s[..cdata], s[cdata..])
            else amp < 0 && Upto(s0, b + s, "")
  {
    hide Upto;
    Turn(s0, b, s);
    TextStep(s);
  }

  lemma RefTurn(s0: string, b: string, s: string)
    requires s != "" && !HasPrefix(s, CDATA) && RefComesFirst(s) && Upto(s0, b, s)
    ensures var amp := Index(s, "&");
            amp < |s| && s[amp] == '&' &&
            var s1 := s[amp..];
            var semi := Index(s1, ";");
            if semi < 0 then Upto(s0, b + s[..amp] + s1, "")
            else 0 < semi < |s1| && Upto(s0, b + s[..amp] + DecodeRef(s1[1..semi]), s1[semi + 1..])
  {
    hide Upto, DecodeRef, HasPrefix;
    Turn(s0, b, s);
    TextStep(s);
    var amp := Index(s, "&");
    AmpersandStep(s, amp);
    hide Decode1, RefStep, Index;
    var r := RefStep(s[amp..]);
    assert b + (s[..amp] + r.out) == b + s[..amp] + r.out;
  }

  /** A step whose first reference and section, if any, are at `amp` and `cdata`. */
  function StepAt(s: string, amp: int, cdata: int): Step
    requires s != "" && -1 <= amp < |s| && -1 <= cdata <= |s| && (amp >= 0 ==> s[amp] == '&')
  {
    if cdata >= 0 && (amp < 0 || cdata < amp) then Step(s[..cdata], s[cdata..])
    else if amp < 0 then Step(s, "")
    else Step(s[..amp] + RefStep(s[amp..]).out, RefStep(s[amp..]).rest)
  }

  lemma TextStep(s: string)
    requires s != "" && !HasPrefix(s, CDATA)
    ensures Index(s, CDATA) != 0 && (Index(s, "&") >= 0 ==> Index(s, "&") < |s| && s[Index(s, "&")] == '&')
    ensures Decode1(s) == StepAt(s, Index(s, "&"), Index(s, CDATA))
  {
    hide RefStep;
    assert s[0..] == s;
    IndexOfChar(s, '&');
  }

  lemma AmpersandStep(s: string, amp: nat)
    requires amp == Index(s, "&") && amp >= 0
    ensures amp < |s| && s[amp] == '&'
    ensures var semi := Index(s[amp..], ";");
            if semi < 0 then RefStep(s[amp..]) == Step(s[amp..], "")
            else 0 < semi < |s[amp..]|
                 && RefStep(s[amp..]) == Step(DecodeRef(s[amp..][1..semi]), s[amp..][semi + 1..])
  {
    IndexOfChar(s, '&');
    assert s[amp..][0] == s[amp];
    IndexOfChar(s[amp..], ';');
  }

  method WriteRef(b0: string, ref: string) returns (b: string)
    ensures b == b0 + DecodeRef(ref)
  {
    b := b0;
    if HasPrefix(ref, "#x") || HasPrefix(ref, "#X") {
      var n := ParseInt(ref[2..], 16);
      if n.Some? {
        b := b + [Rune(n.value)];
      }
    } else if HasPrefix(ref, "#") {
      var n := ParseInt(ref[1..], 10);
      if n.Some? {
        b := b + [Rune(n.value)];
      }
    } else {
      match ref {
        case "lt" => b := b + "<";
        case "gt" => b := b + ">";
        case "amp" => b := b + "&";
        case "apos" => b := b + "'";
        case "quot" => b := b + "\"";
        case _ =>
          b := b + "&";
          b := b + ref;
          b := b + ";";
      }
    }
  }

  /** `s` shrinks to the undecoded rest while the builder grows. */
  method DecodeXmlText(s0: string) returns (b: string)
    ensures b == Decode(s0)
  {
    b := "";
    var s := s0;
    assert Upto(s0, b, s);
    hide Upto;
    while |s| > 0
      invariant Upto(s0, b, s)
      decreases |s|
    {
      if HasPrefix(s, CDATA) {
        CDataTurn(s0, b, s);
        var end := Index(s, CDATA_END);
        if end < 0 {
          b := b + s[|CDATA|..];
          s := "";
          break;
        }
        b := b + s[|CDATA|..end];
        s := s[end + |CDATA_END|..];
        continue;
      }
      if RefComesFirst(s) {
        RefTurn(s0, b, s);
      } else {
        TextTurn(s0, b, s);
      }
      var amp := Index(s, "&");
      var cdata := Index(s, CDATA);
      var next := |s|;
      if amp >= 0 {
        next := amp;
      }
      if cdata >= 0 && cdata < next {
        b := b + s[..cdata];
        s := s[cdata..];
        continue;
      }
      if amp < 0 {
        b := b + s;
        s := "";
        break;
      }
      b := b + s[..amp];
      s := s[amp..];
      var semi := Index(s, ";");
      if semi < 0 {
        b := b + s;
        s := "";
        break;
      }
      var ref := s[1..semi];
      s := s[semi + 1..];
      b := WriteRef(b, ref);
    }
    Finished(s0, b);
  }

  lemma Finished(s0: string, b: string)
    requires Upto(s0, b, "")
    ensures b == Decode(s0)
  {}

  // ----- every way of writing a text -----

  /** A stretch of XML character data and the way it is written. */
  datatype Piece =
    | Literal(text: string)
    | Named(c: char)
    | Decimal(c: char, zeros: nat)
    | Hexadecimal(c: char, zeros: nat, upper: seq<bool>)
    | CDataSection(text: string)

  /** The digit for `d`; letters in either case. */
  function Digit(d: nat, upper: bool): char
    requires d < 16
  {
    if upper then "0123456789ABCDEF"[d] else "0123456789abcdef"[d]
  }

  /** The numeral of `n`, by division and remainder. The last digit has the case that
      `upper` begins with, and so on to the front; lower case when it runs out. */
  function Numeral(n: nat, base: nat, upper: seq<bool>): string
    requires base == 10 || base == 16
  {
    var digit := Digit(n % base, upper != [] && upper[0]);
    if n < base then [digit] else Numeral(n / base, base, if upper == [] then [] else upper[1..]) + [digit]
  }

  function Zeros(k: nat): string {
    seq(k, i => '0')
  }

  function NameOf(c: char): string {
    match c
    case '<' => "lt"
    case '>' => "gt"
    case '&' => "amp"
    case '\'' => "apos"
    case _ => "quot"
  }

  /** The forms XML 1.0 allows: no markup in literal text (section 2.4), the five
      predefined entities (4.6), references to characters (4.1), and sections without
      their own end mark (2.7). */
  predicate WellFormed(p: Piece) {
    match p
    case Literal(text) => '&' !in text && '<' !in text
    case Named(c) => c in {'<', '>', '&', '\'', '"'}
    case Decimal(_, _) => true
    case Hexadecimal(_, _, _) => true
    case CDataSection(text) => Index(text, "]]>") < 0
  }

  function PlainText(p: Piece): string
    requires WellFormed(p)
  {
    match p
    case Literal(text) => text
    case Named(c) => [c]
    case Decimal(c, _) => [c]
    case Hexadecimal(c, _, _) => [c]
    case CDataSection(text) => text
  }

  function RefOf(p: Piece): string {
    match p
    case Named(c) => NameOf(c)
    case Decimal(c, zeros) => "#" + (Zeros(zeros) + Numeral(c as int, 10, []))
    case Hexadecimal(c, zeros, upper) => "#x" + (Zeros(zeros) + Numeral(c as int, 16, upper))
    case _ => ""
  }

  function Encoded(p: Piece): string {
    match p
    case Literal(text) => text
    case CDataSection(text) => "<![CDATA[" + text + "]]>"
    case _ => "&" + RefOf(p) + ";"
  }

  function EncodedAll(ps: seq<Piece>): string {
    if ps == [] then "" else Encoded(ps[0]) + EncodedAll(ps[1..])
  }

  function PlainAll(ps: seq<Piece>): string
    requires forall p :: p in ps ==> WellFormed(p)
  {
    if ps == [] then "" else PlainText(ps[0]) + PlainAll(ps[1..])
  }

  // ----- decoding literal text -----

  lemma LiteralStep(a: string, s: string)
    requires a != "" && s != "" && '&' !in a && '<' !in a
    ensures if HasPrefix(s, CDATA) then Decode1(a + s) == Step(a, s)
            else Decode1(a + s) == Step(a + Decode1(s).out, Decode1(s).rest)
  {
    IndexShifts(a, s, "&");
    IndexShifts(a, s, CDATA);
    assert (a + s)[0] == a[0];
    PrefixByChars(a + s, CDATA);
    if HasPrefix(s, CDATA) {
      assert s[0..] == s;
      IndexIsFirst(s, CDATA, 0);
      NoAmpersandAtStart(s);
      TextStep(a + s);
      assert (a + s)[..|a|] == a && (a + s)[|a|..] == s;
    } else {
      LiteralBeforeText(a, s);
    }
  }

  lemma NoAmpersandAtStart(s: string)
    requires HasPrefix(s, CDATA)
    ensures Index(s, "&") != 0
  {
    IndexOfChar(s, '&');
    assert s[0] == s[..|CDATA|][0];
  }

  lemma LiteralBeforeText(a: string, s: string)
    requires a != "" && s != "" && !HasPrefix(s, CDATA) && !HasPrefix(a + s, CDATA)
    requires Index(a + s, "&") == if Index(s, "&") < 0 then -1 else |a| + Index(s, "&")
    requires Index(a + s, CDATA) == if Index(s, CDATA) < 0 then -1 else |a| + Index(s, CDATA)
    ensures Decode1(a + s) == Step(a + Decode1(s).out, Decode1(s).rest)
  {
    hide Decode1, Index, StepAt, HasPrefix;
    TextStep(s);
    TextStep(a + s);
    ShiftedStep(a, s, Index(s, "&"), Index(s, CDATA));
  }

  lemma ShiftedStep(a: string, s: string, amp: int, cdata: int)
    requires s != "" && -1 <= amp < |s| && -1 <= cdata <= |s| && (amp >= 0 ==> s[amp] == '&')
    ensures StepAt(a + s, if amp < 0 then -1 else |a| + amp, if cdata < 0 then -1 else |a| + cdata)
         == Step(a + StepAt(s, amp, cdata).out, StepAt(s, amp, cdata).rest)
  {
    hide RefStep;
    if cdata >= 0 && (amp < 0 || cdata < amp) {
      CutAfter(a, s, cdata);
    } else if amp >= 0 {
      CutAfter(a, s, amp);
      var out := RefStep(s[amp..]).out;
      assert a + (s[..amp] + out) == (a + s[..amp]) + out;
    }
  }

  lemma CutAfter(a: string, s: string, n: nat)
    requires n <= |s|
    ensures (a + s)[..|a| + n] == a + s[..n] && (a + s)[|a| + n..] == s[n..]
  {}

  lemma OnlyText(a: string)
    requires a != "" && '&' !in a && '<' !in a
    ensures Decode1(a) == Step(a, "")
  {
    IndexShifts(a, "", "&");
    IndexShifts(a, "", CDATA);
    assert a + "" == a;
    PrefixByChars(a, CDATA);
    TextStep(a);
  }

  lemma DecodeStep(s: string)
    requires s != ""
    ensures Decode(s) == Decode1(s).out + Decode(Decode1(s).rest)
  {}

  /** Text without markup in front of anything decodes to itself. */
  lemma LiteralDecodes(a: string, s: string)
    requires '&' !in a && '<' !in a
    ensures Decode(a + s) == a + Decode(s)
  {
    if a == "" {
      assert a + s == s;
    } else if s == "" {
      OnlyText(a);
      DecodeStep(a);
      assert a + s == a && Decode("") == "" && a + "" == a;
    } else {
      LiteralStep(a, s);
      DecodeStep(a + s);
      DecodeStep(s);
      hide Decode1, Decode;
      AppendStep(a, Decode1(s).out, Decode(Decode1(s).rest));
    }
  }

  lemma AppendStep(a: string, b: string, c: string)
    ensures (a + b) + c == a + (b + c)
  {}

  // ----- decoding a reference -----

  lemma RefDecodes(ref: string, s: string)
    requires ';' !in ref
    ensures Decode("&" + ref + ";" + s) == DecodeRef(ref) + Decode(s)
  {
    var t := "&" + ref + ";" + s;
    RefIsRead(ref, s);
    assert t[0..] == t;
    IndexIsFirst(t, "&", 0);
    TextStep(t);
    assert t[..0] == "" && "" + DecodeRef(ref) == DecodeRef(ref);
  }

  lemma RefIsRead(ref: string, s: string)
    requires ';' !in ref
    ensures RefStep("&" + ref + ";" + s) == Step(DecodeRef(ref), s)
    ensures !HasPrefix("&" + ref + ";" + s, CDATA) && HasPrefix("&" + ref + ";" + s, "&")
  {
    hide DecodeRef;
    var t := "&" + ref + ";" + s;
    var back := ";" + s;
    assert t == ("&" + ref) + back;
    IndexShifts("&" + ref, back, ";");
    assert back[0..] == back && back[..1] == ";";
    IndexIsFirst(back, ";", 0);
    assert t[1..|ref| + 1] == ref && t[|ref| + 2..] == s;
    assert t[0] == '&' && t[..1] == "&";
    PrefixByChars(t, CDATA);
  }

  // ----- numerals are read -----

  lemma DigitIsRead(d: nat, upper: bool)
    requires d < 16
    ensures DigitValue(Digit(d, upper)) == d
    ensures Digit(d, upper) !in {'+', '-', ';', 'x', 'X'}
  {}

  lemma NumberNext(s: string, c: char, base: nat)
    ensures Number(s + [c], base) == Number(s, base) * base + DigitValue(c)
  {
    assert (s + [c])[..|s|] == s;
  }

  lemma DigitsNext(s: string, c: char, base: nat)
    ensures AreDigits(s + [c], base) <==> (s == "" || AreDigits(s, base)) && DigitValue(c) < base
  {
    var t := s + [c];
    assert t[|s|] == c;
    assert forall i :: 0 <= i < |s| ==> t[i] == s[i];
  }

  lemma {:induction false} ZerosAreRead(k: nat, base: nat)
    requires base > 0
    ensures Number(Zeros(k), base) == 0 && (k > 0 ==> AreDigits(Zeros(k), base))
  {
    if k > 0 {
      ZerosAreRead(k - 1, base);
      assert Zeros(k) == Zeros(k - 1) + ['0'];
      NumberNext(Zeros(k - 1), '0', base);
    }
  }

  lemma {:induction false} NumeralIsRead(n: nat, base: nat, zeros: nat, upper: seq<bool>)
    requires base == 10 || base == 16
    ensures var digits := Zeros(zeros) + Numeral(n, base, upper);
            AreDigits(digits, base) && Number(digits, base) == n
    decreases n
  {
    hide Number, AreDigits, Digit, DigitValue;
    var c := Digit(n % base, upper != [] && upper[0]);
    var later := if upper == [] then [] else upper[1..];
    DigitIsRead(n % base, upper != [] && upper[0]);
    ZerosAreRead(zeros, base);
    if n < base {
      NumberNext(Zeros(zeros), c, base);
      DigitsNext(Zeros(zeros), c, base);
    } else {
      var front := Zeros(zeros) + Numeral(n / base, base, later);
      NumeralIsRead(n / base, base, zeros, later);
      assert Zeros(zeros) + Numeral(n, base, upper) == front + [c];
      NumberNext(front, c, base);
      DigitsNext(front, c, base);
    }
  }

  /** The text of a number with an optional sign. */
  function Signed(sign: string, zeros: nat, n: nat, base: nat, upper: seq<bool>): string
    requires base == 10 || base == 16
  {
    sign + (Zeros(zeros) + Numeral(n, base, upper))
  }

  function Negated(sign: string, n: nat): int {
    if sign == "-" then 0 - n else n
  }

  lemma DigitsAreNoSign(digits: string, base: nat)
    requires AreDigits(digits, base) && base <= 16
    ensures digits[0] != '+' && digits[0] != '-' && digits[0] != 'x' && digits[0] != 'X' && ';' !in digits
  {
    assert DigitValue(digits[0]) < base;
  }

  lemma SignedIsRead(sign: string, zeros: nat, n: nat, base: nat, upper: seq<bool>)
    requires (base == 10 || base == 16) && sign in {"", "+", "-"}
    ensures var body := Signed(sign, zeros, n, base, upper);
            && body != "" && body[0] != 'x' && body[0] != 'X' && ';' !in body
            && ParseInt(body, base) == InRange(Negated(sign, n))
  {
    hide Number, AreDigits, Numeral, Zeros, InRange;
    var digits := Zeros(zeros) + Numeral(n, base, upper);
    NumeralIsRead(n, base, zeros, upper);
    DigitsAreNoSign(digits, base);
    NotEmpty(digits, base);
    assert sign == "" ==> sign + digits == digits;
    assert sign != "" ==> (sign + digits)[1..] == digits;
  }

  lemma NotEmpty(digits: string, base: nat)
    requires AreDigits(digits, base)
    ensures digits != ""
  {}

  /** Every string of digits is a numeral with zeros in front. */
  lemma {:induction false} DigitsAreNumeral(s: string, base: nat) returns (zeros: nat, n: nat, upper: seq<bool>)
    requires (base == 10 || base == 16) && AreDigits(s, base)
    ensures s == Zeros(zeros) + Numeral(n, base, upper)
  {
    hide AreDigits, DigitValue, Digit, Numeral, Zeros;
    NotEmpty(s, base);
    var front, c := s[..|s| - 1], s[|s| - 1];
    assert s == front + [c];
    DigitsNext(front, c, base);
    if front == "" {
      zeros := 0;
      n, upper := OneDigit(c, base, 0);
      assert s == [c];
    } else {
      zeros, n, upper := DigitsAreNumeral(front, base);
      zeros, n, upper := OneMoreDigit(zeros, n, upper, c, base);
    }
  }

  lemma OneDigit(c: char, base: nat, zeros: nat) returns (n: nat, upper: seq<bool>)
    requires (base == 10 || base == 16) && DigitValue(c) < base
    ensures n == DigitValue(c) && |upper| == 1 && Digit(n, upper[0]) == c
    ensures [c] == Zeros(0) + Numeral(n, base, upper)
    ensures Zeros(zeros) + [c] == Zeros(zeros) + Numeral(n, base, upper)
  {
    n, upper := DigitValue(c), ['A' <= c <= 'Z'];
    DigitIsWritten(c);
  }

  lemma DigitIsWritten(c: char)
    requires DigitValue(c) < 16
    ensures Digit(DigitValue(c), 'A' <= c <= 'Z') == c
  {}

  lemma OneMoreDigit(zeros: nat, m: nat, u: seq<bool>, c: char, base: nat)
    returns (zeros': nat, n: nat, upper: seq<bool>)
    requires (base == 10 || base == 16) && DigitValue(c) < base
    ensures (Zeros(zeros) + Numeral(m, base, u)) + [c] == Zeros(zeros') + Numeral(n, base, upper)
  {
    var d, one := OneDigit(c, base, zeros + 1);
    if m == 0 {
      ZeroIsZero(base, u);
      assert Zeros(zeros) + ['0'] == Zeros(zeros + 1);
      return zeros + 1, d, one;
    }
    zeros', n, upper := zeros, m * base + d, one + u;
    DivideBack(m, base, d);
    assert upper[1..] == u && upper[0] == one[0];
    hide Zeros, Digit, DigitValue;
    assert Numeral(n, base, upper) == Numeral(m, base, u) + [c];
    assert (Zeros(zeros) + Numeral(m, base, u)) + [c] == Zeros(zeros) + (Numeral(m, base, u) + [c]);
  }

  lemma ZeroIsZero(base: nat, upper: seq<bool>)
    requires base == 10 || base == 16
    ensures Numeral(0, base, upper) == ['0']
  {}

  lemma DivideBack(m: nat, base: nat, d: nat)
    requires (base == 10 || base == 16) && d < base && m > 0
    ensures (m * base + d) / base == m && (m * base + d) % base == d && m * base + d >= base
  {
    if base == 10 {
      assert (m * 10 + d) / 10 == m;
    } else {
      assert (m * 16 + d) / 16 == m;
    }
  }

  lemma RefsAreRead(p: Piece)
    requires WellFormed(p) && (p.Named? || p.Decimal? || p.Hexadecimal?)
    ensures ';' !in RefOf(p) && DecodeRef(RefOf(p)) == PlainText(p)
  {
    match p
    case Named(_) => NamesAreRead(p);
    case Decimal(_, _) => DecimalsAreRead(p);
    case Hexadecimal(_, _, _) => HexadecimalsAreRead(p);
  }

  lemma NamesAreRead(p: Piece)
    requires WellFormed(p) && p.Named?
    ensures ';' !in RefOf(p) && DecodeRef(RefOf(p)) == PlainText(p)
  {
    hide ParseInt;
    var ref := RefOf(p);
    assert ref in {"lt", "gt", "amp", "apos", "quot"} && ref[0] != '#';
    PrefixByChars(ref, "#");
    PrefixByChars(ref, "#x");
    PrefixByChars(ref, "#X");
    hide HasPrefix;
    assert "lt"[0] == 'l' && "gt"[0] == 'g' && |"amp"| == 3 && |"apos"| == 4 && "quot"[0] == 'q';
  }

  lemma DecimalsAreRead(p: Piece)
    requires p.Decimal?
    ensures ';' !in RefOf(p) && DecodeRef(RefOf(p)) == PlainText(p)
  {
    hide ParseInt, Numeral, Zeros;
    var body := Zeros(p.zeros) + Numeral(p.c as int, 10, []);
    SignedIsRead("", p.zeros, p.c as int, 10, []);
    assert Signed("", p.zeros, p.c as int, 10, []) == body;
    DecimalRef(body);
  }

  lemma HexadecimalsAreRead(p: Piece)
    requires p.Hexadecimal?
    ensures ';' !in RefOf(p) && DecodeRef(RefOf(p)) == PlainText(p)
  {
    hide ParseInt, Numeral, Zeros;
    var body := Zeros(p.zeros) + Numeral(p.c as int, 16, p.upper);
    SignedIsRead("", p.zeros, p.c as int, 16, p.upper);
    assert Signed("", p.zeros, p.c as int, 16, p.upper) == body;
    HexadecimalRef(body);
  }

  lemma DecimalRef(body: string)
    requires body == "" || (body[0] != 'x' && body[0] != 'X')
    ensures var n := ParseInt(body, 10); DecodeRef("#" + body) == if n.Some? then [Rune(n.value)] else ""
  {
    var ref := "#" + body;
    PrefixByChars(ref, "#");
    PrefixByChars(ref, "#x");
    PrefixByChars(ref, "#X");
    assert ref[0] == '#' && ref[1..] == body;
    assert body != "" ==> ref[1] == body[0];
    hide HasPrefix, ParseInt;
  }

  lemma HexadecimalRef(body: string)
    ensures var n := ParseInt(body, 16);
            && DecodeRef("#x" + body) == (if n.Some? then [Rune(n.value)] else "")
            && DecodeRef("#X" + body) == if n.Some? then [Rune(n.value)] else ""
  {
    assert ("#x" + body)[..2] == "#x" && ("#x" + body)[2..] == body;
    assert ("#X" + body)[..2] == "#X" && ("#X" + body)[2..] == body;
    hide ParseInt;
  }

  // ----- decoding a CDATA section -----

  lemma {:induction false} EndMarkFound(text: string, s: string)
    requires Index(text, CDATA_END) < 0
    ensures Index(text + CDATA_END + s, CDATA_END) == |text|
  {
    var t := text + CDATA_END + s;
    if text == "" {
      assert t[..3] == CDATA_END;
    } else {
      EndMarkFound(text[1..], s);
      assert t[1..] == text[1..] + CDATA_END + s;
      NotAtStart(text, s);
    }
  }

  lemma NotAtStart(text: string, s: string)
    requires text != "" && !HasPrefix(text, CDATA_END)
    ensures !HasPrefix(text + CDATA_END + s, CDATA_END)
  {
    var t := text + CDATA_END + s;
    assert |text| <= 2 ==> t[2] == ']';
    assert |text| >= 3 ==> t[..3] == text[..3];
    PrefixByChars(t, CDATA_END);
  }

  lemma CDataDecodes(text: string, s: string)
    requires Index(text, CDATA_END) < 0
    ensures Decode(CDATA + text + CDATA_END + s) == text + Decode(s)
  {
    SectionStep(text, s);
    hide Decode1;
    DecodeStep(CDATA + text + CDATA_END + s);
  }

  lemma SectionStep(text: string, s: string)
    requires Index(text, CDATA_END) < 0
    ensures Decode1(CDATA + text + CDATA_END + s) == Step(text, s)
  {
    hide Index;
    var back := text + CDATA_END + s;
    var t := CDATA + back;
    assert CDATA + text + CDATA_END + s == t;
    EndMarkFound(text, s);
    IndexShifts(CDATA, back, CDATA_END);
    SectionParts(text, s);
  }

  lemma SectionParts(text: string, s: string)
    ensures var t := CDATA + (text + CDATA_END + s);
            && HasPrefix(t, CDATA)
            && |CDATA| == 9 && |CDATA_END| == 3
            && t[9..9 + |text|] == text && t[9 + |text| + 3..] == s
  {}

  // ----- the round trip -----

  lemma PieceDecodes(p: Piece, s: string)
    requires WellFormed(p)
    ensures Decode(Encoded(p) + s) == PlainText(p) + Decode(s)
  {
    match p
    case Literal(text) => LiteralDecodes(text, s);
    case CDataSection(text) => CDataDecodes(text, s);
    case _ =>
      RefsAreRead(p);
      RefDecodes(RefOf(p), s);
  }

  /** However a text is cut into pieces and each piece written, decoding gives the text
      back; so all its spellings decode alike. */
  lemma {:induction false} DecodingInvertsEncoding(ps: seq<Piece>)
    requires forall p :: p in ps ==> WellFormed(p)
    ensures Decode(EncodedAll(ps)) == PlainAll(ps)
  {
    if ps != [] {
      DecodingInvertsEncoding(ps[1..]);
      PieceDecodes(ps[0], EncodedAll(ps[1..]));
    }
  }

  // ----- every reference -----

  /** What a number in a reference stands for: the character with that code point, the
      replacement character if there is none, and nothing if it exceeds 32 bits. */
  function Meant(n: int): string {
    if n < -0x8000_0000 || n >= 0x8000_0000 then ""
    else if 0 <= n < 0xD800 || 0xE000 <= n < 0x11_0000 then [n as char]
    else ['\U{FFFD}']
  }

  lemma MeantIsWritten(n: int)
    ensures Meant(n) == if InRange(n).Some? then [Rune(InRange(n).value)] else ""
  {}

  /** A number, decimal or hexadecimal, with zeros in front or not, letters in any mix
      of cases, with a sign or not, is the character it stands for. */
  lemma NumberReferences(sign: string, zeros: nat, n: nat, upper: seq<bool>, s: string)
    requires sign in {"", "+", "-"}
    ensures var meant := Meant(if sign == "-" then 0 - n else n) + Decode(s);
            && Decode("&#" + Signed(sign, zeros, n, 10, []) + ";" + s) == meant
            && Decode("&#x" + Signed(sign, zeros, n, 16, upper) + ";" + s) == meant
            && Decode("&#X" + Signed(sign, zeros, n, 16, upper) + ";" + s) == meant
  {
    hide Decode, ParseInt, Signed, Meant, Rune, InRange;
    var decimal, hexadecimal := Signed(sign, zeros, n, 10, []), Signed(sign, zeros, n, 16, upper);
    SignedIsRead(sign, zeros, n, 10, []);
    SignedIsRead(sign, zeros, n, 16, upper);
    MeantIsWritten(Negated(sign, n));
    DecimalRef(decimal);
    HexadecimalRef(hexadecimal);
    HashRefDecodes("&#", "#", decimal, s);
    HashRefDecodes("&#x", "#x", hexadecimal, s);
    HashRefDecodes("&#X", "#X", hexadecimal, s);
  }

  lemma HashRefDecodes(start: string, mark: string, body: string, s: string)
    requires start == "&" + mark && ';' !in mark && ';' !in body
    ensures Decode(start + body + ";" + s) == DecodeRef(mark + body) + Decode(s)
  {
    hide Decode, DecodeRef;
    RefDecodes(mark + body, s);
    assert ("&" + mark) + body == "&" + (mark + body);
  }

  /** In particular every character can be written by its code point. */
  lemma CharacterReferences(n: nat, zeros: nat, upper: seq<bool>, s: string)
    requires n < 0xD800 || 0xE000 <= n < 0x11_0000
    ensures Decode("&#" + (Zeros(zeros) + Numeral(n, 10, [])) + ";" + s) == [n as char] + Decode(s)
    ensures Decode("&#x" + (Zeros(zeros) + Numeral(n, 16, upper)) + ";" + s) == [n as char] + Decode(s)
    ensures Decode("&#X" + (Zeros(zeros) + Numeral(n, 16, upper)) + ";" + s) == [n as char] + Decode(s)
  {
    hide Decode, Numeral, Zeros;
    NumberReferences("", zeros, n, upper, s);
    assert Signed("", zeros, n, 10, []) == Zeros(zeros) + Numeral(n, 10, []);
    assert Signed("", zeros, n, 16, upper) == Zeros(zeros) + Numeral(n, 16, upper);
  }

  /** A number as `NumberReferences` has it. */
  ghost predicate IsNumber(body: string, base: nat)
    requires base == 10 || base == 16
  {
    exists sign, zeros, n, upper :: sign in {"", "+", "-"} && body == Signed(sign, zeros, n, base, upper)
  }

  lemma OnlyNumbersAreRead(body: string, base: nat)
    requires base == 10 || base == 16
    ensures ParseInt(body, base).Some? ==> IsNumber(body, base)
  {
    hide Signed, AreDigits, InRange, Number;
    if ParseInt(body, base).Some? {
      var signed := body != "" && (body[0] == '+' || body[0] == '-');
      var sign, digits := if signed then [body[0]] else "", if signed then body[1..] else body;
      var zeros, n, upper := DigitsAreNumeral(digits, base);
      assert body == sign + digits;
      SignedAs(sign, zeros, n, base, upper);
    }
  }

  lemma SignedAs(sign: string, zeros: nat, n: nat, base: nat, upper: seq<bool>)
    requires (base == 10 || base == 16) && sign in {"", "+", "-"}
    ensures IsNumber(sign + (Zeros(zeros) + Numeral(n, base, upper)), base)
  {
    assert Signed(sign, zeros, n, base, upper) == sign + (Zeros(zeros) + Numeral(n, base, upper));
  }

  /** Anything else behind a number sign disappears, and an unknown name stays as it is
      written. */
  lemma OtherReferences(body: string, s: string)
    requires ';' !in body
    ensures !IsNumber(body, 10) && (body == "" || (body[0] != 'x' && body[0] != 'X')) ==>
              Decode("&#" + body + ";" + s) == Decode(s)
    ensures !IsNumber(body, 16) ==>
              Decode("&#x" + body + ";" + s) == Decode(s) && Decode("&#X" + body + ";" + s) == Decode(s)
    ensures (body == "" || body[0] != '#') && body !in {"lt", "gt", "amp", "apos", "quot"} ==>
              Decode("&" + body + ";" + s) == "&" + body + ";" + Decode(s)
  {
    hide Decode, ParseInt, IsNumber;
    if !IsNumber(body, 10) && (body == "" || (body[0] != 'x' && body[0] != 'X')) {
      OnlyNumbersAreRead(body, 10);
      DecimalRef(body);
      HashRefDecodes("&#", "#", body, s);
    }
    if !IsNumber(body, 16) {
      OnlyNumbersAreRead(body, 16);
      HexadecimalRef(body);
      HashRefDecodes("&#x", "#x", body, s);
      HashRefDecodes("&#X", "#X", body, s);
    }
    if (body == "" || body[0] != '#') && body !in {"lt", "gt", "amp", "apos", "quot"} {
      UnknownName(body);
      RefDecodes(body, s);
    }
  }

  lemma UnknownName(name: string)
    requires (name == "" || name[0] != '#') && name !in {"lt", "gt", "amp", "apos", "quot"}
    ensures DecodeRef(name) == "&" + name + ";"
  {
    PrefixByChars(name, "#");
    PrefixByChars(name, "#x");
    PrefixByChars(name, "#X");
  }

  /** A CDATA section without an end mark reaches to the end. */
  lemma UnterminatedSection(text: string)
    requires Index(text, "]]>") < 0
    ensures Decode("<![CDATA[" + text) == text
  {
    var t := CDATA + text;
    assert HasPrefix(t, CDATA) && t[|CDATA|..] == text;
    IndexShifts(CDATA, text, CDATA_END);
    DecodeStep(t);
    assert text + "" == text;
  }

  /** An ampersand that no semicolon follows ends the decoding: everything from it on
      stays as it is written, CDATA sections too. */
  lemma UnterminatedReference(a: string, s: string)
    requires '&' !in a && '<' !in a && ';' !in s
    ensures Decode(a + ("&" + s)) == a + ("&" + s)
  {
    var t := "&" + s;
    LiteralDecodes(a, t);
    PrefixByChars(t, CDATA);
    PrefixByChars(t, "&");
    IndexOfChar(t, ';');
    AmpersandStays(t);
  }

  lemma AmpersandStays(t: string)
    requires t != "" && t[0] == '&' && !HasPrefix(t, CDATA) && HasPrefix(t, "&") && Index(t, ";") < 0
    ensures Decode(t) == t
  {
    assert t[0..] == t && t[..0] == "";
    assert Decode1(t) == Step(t, "");
    DecodeStep(t);
    assert t + "" == t;
  }
}
