/** The normal form in which assert-xml compares two node lists: adjacent text merged,
    attributes unordered, element identity by expanded name. */
module CanonicalXml {
  import opened Common

  datatype Attribute = Attribute(uri: string, local: string, value: string)

  /** What a parsed element knows beyond its name. */
  datatype Declared = Declared(uri: string, local: string, attributes: seq<Attribute>)

  datatype Node =
    | Text(content: string)
    | CData(content: string)
    | EntityRef(content: string)
    | Comment(content: string)
    | Instruction(name: string, content: string)
    | Element(name: string, declared: Option<Declared>, children: seq<Node>)
    | Other

  type AttributeMap = map<(string, string), string>

  datatype Canon =
    | CanonText(text: string)
    | CanonComment(text: string)
    | CanonInstruction(local: string, text: string)
    | CanonElement(uri: string, local: string, attrs: AttributeMap, children: seq<Canon>)

  predicate IsText(n: Node) {
    n.Text? || n.CData? || n.EntityRef?
  }

  // ----- the normal form, built from the end of the list -----

  function AttributesOf(attributes: seq<Attribute>): AttributeMap {
    if attributes == [] then map[]
    else
      var a := attributes[|attributes| - 1];
      AttributesOf(attributes[..|attributes| - 1])[(a.uri, a.local) := a.value]
  }

  /** Text in front of a canonical list: it joins a text already there. */
  function TextBefore(text: string, rest: seq<Canon>): seq<Canon> {
    if |rest| > 0 && rest[0].CanonText? then [CanonText(text + rest[0].text)] + rest[1..]
    else [CanonText(text)] + rest
  }

  function Canonical(nodes: seq<Node>): seq<Canon>
    decreases nodes
  {
    if nodes == [] then [] else NodeBefore(nodes[0], Canonical(nodes[1..]))
  }

  function NodeBefore(n: Node, rest: seq<Canon>): seq<Canon>
    decreases n, 1
  {
    match n
    case Text(content) => TextBefore(content, rest)
    case CData(content) => TextBefore(content, rest)
    case EntityRef(content) => TextBefore(content, rest)
    case Comment(content) => [CanonComment(content)] + rest
    case Instruction(name, content) => [CanonInstruction(name, content)] + rest
    case Element(_, _, _) => [CanonicalElement(n)] + rest
    case Other => rest
  }

  function CanonicalElement(n: Node): Canon
    requires n.Element?
    decreases n, 0
  {
    match n.declared
    case Some(d) => CanonElement(d.uri, d.local, AttributesOf(d.attributes), Canonical(n.children))
    case None => CanonElement("", n.name, map[], Canonical(n.children))
  }

  /** The pending text buffer, if it holds any text node, in front of the rest. */
  function Pending(hasText: bool, buffer: string, rest: seq<Canon>): seq<Canon> {
    if hasText then TextBefore(buffer, rest) else rest
  }

  lemma TextBeforeJoins(a: string, b: string, rest: seq<Canon>)
    ensures TextBefore(a, TextBefore(b, rest)) == TextBefore(a + b, rest)
  {
    if |rest| > 0 && rest[0].CanonText? {
      assert a + (b + rest[0].text) == (a + b) + rest[0].text;
    }
  }

  lemma CanonicalCons(n: Node, nodes: seq<Node>)
    ensures Canonical([n] + nodes) == NodeBefore(n, Canonical(nodes))
  {
    assert ([n] + nodes)[1..] == nodes;
  }

  lemma CanonicalNext(nodes: seq<Node>, k: nat)
    requires k < |nodes|
    ensures Canonical(nodes[k..]) == NodeBefore(nodes[k], Canonical(nodes[k + 1..]))
  {
    assert nodes[k..][1..] == nodes[k + 1..];
  }

  lemma TextGrows(hasText: bool, buffer: string, n: Node, rest: seq<Canon>)
    requires IsText(n) && (!hasText ==> buffer == "")
    ensures Pending(hasText, buffer, NodeBefore(n, rest)) == Pending(true, buffer + n.content, rest)
  {
    TextBeforeJoins(buffer, n.content, rest);
    assert "" + n.content == n.content;
  }

  lemma MarkupFlushes(out: seq<Canon>, hasText: bool, buffer: string, n: Node, rest: seq<Canon>)
    requires !IsText(n) && !n.Other?
    ensures |NodeBefore(n, rest)| > 0 && NodeBefore(n, rest)[1..] == rest
    ensures out + Pending(hasText, buffer, NodeBefore(n, rest))
         == (out + (if hasText then [CanonText(buffer)] else []) + [NodeBefore(n, rest)[0]]) + rest
  {
    hide Canonical, AttributesOf, Pending, TextBefore;
    var c := NodeBefore(n, rest)[0];
    assert NodeBefore(n, rest) == [c] + rest && !c.CanonText?;
    PendingBeforeMarkup(hasText, buffer, c, rest);
    var flushed := if hasText then [CanonText(buffer)] else [];
    assert out + (flushed + ([c] + rest)) == (out + flushed + [c]) + rest;
  }

  lemma PendingBeforeMarkup(hasText: bool, buffer: string, c: Canon, rest: seq<Canon>)
    requires !c.CanonText?
    ensures Pending(hasText, buffer, [c] + rest) == (if hasText then [CanonText(buffer)] else []) + ([c] + rest)
  {}

  /** The reduction as it runs: one pass with a text buffer that is flushed before
      each piece of markup and at the end. */
  method Qt3CanonList(nodes: seq<Node>) returns (out: seq<Canon>)
    ensures out == Canonical(nodes)
    decreases nodes
  {
    out := [];
    var textBuf := "";
    var hasText := false;
    assert nodes[0..] == nodes;
    hide Canonical, CanonicalElement, TextBefore;
    for k := 0 to |nodes|
      invariant out + Pending(hasText, textBuf, Canonical(nodes[k..])) == Canonical(nodes)
      invariant !hasText ==> textBuf == ""
    {
      var n := nodes[k];
      ghost var rest := Canonical(nodes[k + 1..]);
      CanonicalNext(nodes, k);
      if IsText(n) {
        TextGrows(hasText, textBuf, n, rest);
        textBuf := textBuf + n.content;
        hasText := true;
        continue;
      }
      if n.Other? {
        continue;
      }
      MarkupFlushes(out, hasText, textBuf, n, rest);
      ghost var flushed := out + if hasText then [CanonText(textBuf)] else [];
      if hasText {
        out := out + [CanonText(textBuf)];
        textBuf := "";
        hasText := false;
      }
      assert out == flushed;
      match n
      case Comment(content) =>
        out := out + [CanonComment(content)];
      case Instruction(name, content) =>
        out := out + [CanonInstruction(name, content)];
      case Element(_, _, _) =>
        var e := Qt3CanonElement(n);
        out := out + [e];
    }
    assert nodes[|nodes|..] == [];
    CanonicalOfNone();
    AtTheEnd(hasText, textBuf);
    if hasText {
      out := out + [CanonText(textBuf)];
    }
  }

  lemma AtTheEnd(hasText: bool, buffer: string)
    ensures Pending(hasText, buffer, []) == if hasText then [CanonText(buffer)] else []
  {}

  lemma CanonicalOfNone()
    ensures Canonical([]) == []
  {}

  method Qt3CanonElement(n: Node) returns (e: Canon)
    requires n.Element?
    ensures e == CanonicalElement(n)
    decreases n
  {
    var attrs: AttributeMap := map[];
    var uri, local := "", n.name;
    if n.declared.Some? {
      uri, local := n.declared.value.uri, n.declared.value.local;
      var attributes := n.declared.value.attributes;
      for k := 0 to |attributes|
        invariant attrs == AttributesOf(attributes[..k])
      {
        assert attributes[..k + 1][..k] == attributes[..k];
        attrs := attrs[(attributes[k].uri, attributes[k].local) := attributes[k].value];
      }
      assert attributes[..|attributes|] == attributes;
    }
    var children := Qt3CanonList(n.children);
    return CanonElement(uri, local, attrs, children);
  }

  // ----- no two adjacent texts, at any depth -----

  predicate Normal(list: seq<Canon>)
    decreases list
  {
    && (forall i :: 0 < i < |list| ==> !(list[i - 1].CanonText? && list[i].CanonText?))
    && (forall i :: 0 <= i < |list| && list[i].CanonElement? ==> Normal(list[i].children))
  }

  lemma TextBeforeIsNormal(text: string, rest: seq<Canon>)
    requires Normal(rest)
    ensures Normal(TextBefore(text, rest))
  {}

  lemma {:induction false} CanonicalIsNormal(nodes: seq<Node>)
    ensures Normal(Canonical(nodes))
    decreases nodes
  {
    if nodes != [] {
      CanonicalIsNormal(nodes[1..]);
      if IsText(nodes[0]) {
        TextBeforeIsNormal(nodes[0].content, Canonical(nodes[1..]));
      } else if nodes[0].Element? {
        CanonicalIsNormal(nodes[0].children);
        assert CanonicalElement(nodes[0]).children == Canonical(nodes[0].children);
      }
    }
  }

  // ----- what a node list says, as a stream of characters and markup -----

  /** `Blank` stands for a text that says nothing. */
  datatype Event =
    | Char(c: char)
    | Blank
    | CommentEvent(text: string)
    | InstructionEvent(name: string, text: string)
    | Open(uri: string, local: string, attrs: AttributeMap)
    | Close

  function Chars(s: string): seq<Event> {
    seq(|s|, i requires 0 <= i < |s| => Char(s[i]))
  }

  function OpenOf(n: Node): Event
    requires n.Element?
  {
    match n.declared
    case Some(d) => Open(d.uri, d.local, AttributesOf(d.attributes))
    case None => Open("", n.name, map[])
  }

  function Stream(nodes: seq<Node>): seq<Event>
    decreases nodes
  {
    if nodes == [] then [] else NodeStream(nodes[0]) + Stream(nodes[1..])
  }

  function NodeStream(n: Node): seq<Event>
    decreases n
  {
    match n
    case Text(content) => Chars(content)
    case CData(content) => Chars(content)
    case EntityRef(content) => Chars(content)
    case Comment(content) => [CommentEvent(content)]
    case Instruction(name, content) => [InstructionEvent(name, content)]
    case Element(_, _, children) => [OpenOf(n)] + Stream(children) + [Close]
    case Other => []
  }

  /** What a canonical list says, with or without a mark for each empty text. */
  function CanonStream(list: seq<Canon>, marks: bool): seq<Event>
    decreases list
  {
    if list == [] then [] else ItemStream(list[0], marks) + CanonStream(list[1..], marks)
  }

  function ItemStream(c: Canon, marks: bool): seq<Event>
    decreases c
  {
    match c
    case CanonText(text) => if marks && text == "" then [Blank] else Chars(text)
    case CanonComment(text) => [CommentEvent(text)]
    case CanonInstruction(local, text) => [InstructionEvent(local, text)]
    case CanonElement(uri, local, attrs, children) => [Open(uri, local, attrs)] + CanonStream(children, marks) + [Close]
  }

  lemma TextBeforeStream(text: string, rest: seq<Canon>)
    ensures CanonStream(TextBefore(text, rest), false) == Chars(text) + CanonStream(rest, false)
  {
    if |rest| > 0 && rest[0].CanonText? {
      assert Chars(text + rest[0].text) == Chars(text) + Chars(rest[0].text);
      assert ([CanonText(text + rest[0].text)] + rest[1..])[1..] == rest[1..];
    } else {
      assert ([CanonText(text)] + rest)[1..] == rest;
    }
  }

  /** The normal form keeps every character and every piece of markup, in order and at
      its depth. */
  lemma {:induction false} CanonicalConserves(nodes: seq<Node>)
    ensures CanonStream(Canonical(nodes), false) == Stream(nodes)
    decreases nodes
  {
    if nodes != [] {
      var n, rest := nodes[0], Canonical(nodes[1..]);
      CanonicalConserves(nodes[1..]);
      if IsText(n) {
        TextBeforeStream(n.content, rest);
      } else if n.Element? {
        CanonicalConserves(n.children);
        assert ([CanonicalElement(n)] + rest)[1..] == rest;
      } else if !n.Other? {
        assert Canonical(nodes)[1..] == rest;
      }
    }
  }

  // ----- the same stream with blank runs of text marked -----

  /** Where a reader of a node list stands: at no text since the last markup, at text
      that was all empty so far, or at text with a character in it. */
  datatype Run = Outside | AllEmpty | Filled

  function After(run: Run, text: string): Run {
    if text != "" || run.Filled? then Filled else AllEmpty
  }

  /** A run of text, CDATA and entity references ends at markup or at the end of the
      list, not at other nodes; it leaves a mark if no character was in it. */
  function End(run: Run): seq<Event> {
    if run.AllEmpty? then [Blank] else []
  }

  function Marked(nodes: seq<Node>, run: Run): seq<Event>
    decreases nodes, 1
  {
    if nodes == [] then End(run)
    else if IsText(nodes[0]) then Chars(nodes[0].content) + Marked(nodes[1..], After(run, nodes[0].content))
    else if nodes[0].Other? then Marked(nodes[1..], run)
    else End(run) + MarkupMarked(nodes[0]) + Marked(nodes[1..], Outside)
  }

  function MarkupMarked(n: Node): seq<Event>
    requires !IsText(n) && !n.Other?
    decreases n, 0
  {
    match n
    case Comment(content) => [CommentEvent(content)]
    case Instruction(name, content) => [InstructionEvent(name, content)]
    case Element(_, _, children) => [OpenOf(n)] + Marked(children, Outside) + [Close]
  }

  function WithoutMarks(events: seq<Event>): seq<Event> {
    if events == [] then []
    else (if events[0].Blank? then [] else [events[0]]) + WithoutMarks(events[1..])
  }

  lemma {:induction false} WithoutMarksAppend(a: seq<Event>, b: seq<Event>)
    ensures WithoutMarks(a + b) == WithoutMarks(a) + WithoutMarks(b)
  {
    if a == [] {
      assert a + b == b;
    } else {
      assert (a + b)[1..] == a[1..] + b;
      WithoutMarksAppend(a[1..], b);
    }
  }

  lemma {:induction false} CharsHaveNoMarks(text: string)
    ensures WithoutMarks(Chars(text)) == Chars(text)
  {
    if text != "" {
      assert Chars(text)[1..] == Chars(text[1..]);
      CharsHaveNoMarks(text[1..]);
    }
  }

  /** Only marks are added. */
  lemma {:induction false} MarkedIsStream(nodes: seq<Node>, run: Run)
    ensures WithoutMarks(Marked(nodes, run)) == Stream(nodes)
    decreases nodes, 1
  {
    hide WithoutMarks, End, After, Chars, NodeStream, MarkupMarked;
    EndIsMark(run);
    if nodes != [] {
      var n, rest := nodes[0], nodes[1..];
      if IsText(n) {
        TextIsStream(n);
        MarkedIsStream(rest, After(run, n.content));
        WithoutMarksAppend(Chars(n.content), Marked(rest, After(run, n.content)));
        CharsHaveNoMarks(n.content);
      } else if n.Other? {
        assert NodeStream(n) == [] by { OtherIsSilent(n); }
        MarkedIsStream(rest, run);
      } else {
        MarkedIsStream(rest, Outside);
        MarkupIsStream(n);
        WithoutMarksAppend(End(run) + MarkupMarked(n), Marked(rest, Outside));
        WithoutMarksAppend(End(run), MarkupMarked(n));
      }
    }
  }

  lemma EndIsMark(run: Run)
    ensures WithoutMarks(End(run)) == []
  {}

  lemma TextIsStream(n: Node)
    requires IsText(n)
    ensures NodeStream(n) == Chars(n.content)
  {}

  lemma OtherIsSilent(n: Node)
    requires n.Other?
    ensures NodeStream(n) == []
  {}

  lemma {:induction false} MarkupIsStream(n: Node)
    requires !IsText(n) && !n.Other?
    ensures WithoutMarks(MarkupMarked(n)) == NodeStream(n)
    decreases n, 0
  {
    if n.Element? {
      MarkedIsStream(n.children, Outside);
      WithoutMarksAppend([OpenOf(n)] + Marked(n.children, Outside), [Close]);
      WithoutMarksAppend([OpenOf(n)], Marked(n.children, Outside));
    }
  }

  /** The text a canonical list begins with, and what follows it. */
  function HeadText(list: seq<Canon>): string {
    if |list| > 0 && list[0].CanonText? then list[0].text else ""
  }

  function Tail(list: seq<Canon>): seq<Canon> {
    if |list| > 0 && list[0].CanonText? then list[1..] else list
  }

  /** A canonical list whose head text continues a run with a character in it. */
  function Continued(list: seq<Canon>): seq<Event> {
    Chars(HeadText(list)) + CanonStream(Tail(list), true)
  }

  /** What the canonical list of the nodes still to come adds to the run so far. */
  function Seen(list: seq<Canon>, run: Run): seq<Event> {
    match run
    case Outside => CanonStream(list, true)
    case AllEmpty => CanonStream(TextBefore("", list), true)
    case Filled => Continued(list)
  }

  lemma StreamOfCons(c: Canon, rest: seq<Canon>, marks: bool)
    ensures CanonStream([c] + rest, marks) == ItemStream(c, marks) + CanonStream(rest, marks)
  {
    assert ([c] + rest)[1..] == rest;
  }

  lemma CharsJoin(a: string, b: string)
    ensures Chars(a + b) == Chars(a) + Chars(b)
  {}

  lemma TextBeforeParts(text: string, list: seq<Canon>)
    ensures TextBefore(text, list) == [CanonText(text + HeadText(list))] + Tail(list)
    ensures HeadText(TextBefore(text, list)) == text + HeadText(list) && Tail(TextBefore(text, list)) == Tail(list)
  {
    assert text + "" == text;
  }

  lemma TextBeforeMarks(text: string, list: seq<Canon>)
    ensures CanonStream(TextBefore(text, list), true) ==
            if text + HeadText(list) == "" then [Blank] + CanonStream(Tail(list), true)
            else Chars(text) + Continued(list)
  {
    hide HeadText, Tail, TextBefore, Chars, CanonStream;
    TextBeforeParts(text, list);
    StreamOfCons(CanonText(text + HeadText(list)), Tail(list), true);
    CharsJoin(text, HeadText(list));
    assert (Chars(text) + Chars(HeadText(list))) + CanonStream(Tail(list), true) == Chars(text) + Continued(list);
  }

  lemma TextIsSeen(text: string, list: seq<Canon>, run: Run)
    ensures Seen(TextBefore(text, list), run) == Chars(text) + Seen(list, After(run, text))
  {
    hide CanonStream, TextBefore, HeadText, Tail, Continued, Chars;
    if text == "" {
      NoChars();
    } else {
      TextBeforeMarks(text, list);
      assert |text + HeadText(list)| > 0;
    }
    match run
    case Outside =>
    case AllEmpty =>
      TextBeforeJoins("", text, list);
      assert "" + text == text;
    case Filled => FilledIsSeen(text, list);
  }

  lemma NoChars()
    ensures Chars("") == []
  {}

  lemma FilledIsSeen(text: string, list: seq<Canon>)
    ensures Continued(TextBefore(text, list)) == Chars(text) + Continued(list)
  {
    hide HeadText, Tail, TextBefore, Chars, CanonStream;
    TextBeforeParts(text, list);
    CharsJoin(text, HeadText(list));
  }

  lemma MarkupIsSeen(c: Canon, list: seq<Canon>, run: Run)
    requires !c.CanonText?
    ensures Seen([c] + list, run) == End(run) + (ItemStream(c, true) + CanonStream(list, true))
  {
    StreamOfCons(c, list, true);
    StreamOfCons(CanonText(""), [c] + list, true);
  }

  /** The normal form marks exactly the blank runs of the list it is made from. */
  lemma {:induction false} CanonicalMarks(nodes: seq<Node>, run: Run)
    ensures Seen(Canonical(nodes), run) == Marked(nodes, run)
    decreases nodes, 1
  {
    hide CanonStream, ItemStream, TextBefore;
    if nodes == [] {
      NothingSeen(run);
    } else {
      var n, list := nodes[0], Canonical(nodes[1..]);
      if IsText(n) {
        CanonicalMarks(nodes[1..], After(run, n.content));
        TextIsSeen(n.content, list, run);
      } else if n.Other? {
        CanonicalMarks(nodes[1..], run);
      } else {
        CanonicalMarks(nodes[1..], Outside);
        var c := NodeBefore(n, list)[0];
        assert NodeBefore(n, list) == [c] + list;
        MarkupIsSeen(c, list, run);
        MarkupMarks(n, list);
        assert End(run) + (MarkupMarked(n) + Marked(nodes[1..], Outside))
            == End(run) + MarkupMarked(n) + Marked(nodes[1..], Outside);
      }
    }
  }

  lemma NothingSeen(run: Run)
    ensures Seen([], run) == End(run)
  {
    StreamOfCons(CanonText(""), [], true);
  }

  lemma {:induction false} MarkupMarks(n: Node, list: seq<Canon>)
    requires !IsText(n) && !n.Other?
    ensures ItemStream(NodeBefore(n, list)[0], true) == MarkupMarked(n)
    decreases n, 0
  {
    if n.Element? {
      CanonicalMarks(n.children, Outside);
    }
  }

  // ----- the normal form is determined by the marked stream -----

  predicate Ended(rest: seq<Event>) {
    rest == [] || rest[0].Close?
  }

  lemma {:induction false} SameRun(a: string, b: string, ra: seq<Event>, rb: seq<Event>)
    requires Chars(a) + ra == Chars(b) + rb
    requires ra == [] || !ra[0].Char?
    requires rb == [] || !rb[0].Char?
    ensures a == b && ra == rb
    decreases a
  {
    assert a == "" ==> Chars(a) + ra == ra;
    assert b == "" ==> Chars(b) + rb == rb;
    assert a != "" ==> Chars(a) + ra == [Char(a[0])] + (Chars(a[1..]) + ra);
    assert b != "" ==> Chars(b) + rb == [Char(b[0])] + (Chars(b[1..]) + rb);
    if a != "" && b != "" {
      SameHead(Char(a[0]), Char(b[0]), Chars(a[1..]) + ra, Chars(b[1..]) + rb);
      SameRun(a[1..], b[1..], ra, rb);
      assert a == [a[0]] + a[1..] && b == [b[0]] + b[1..];
    }
  }

  lemma SameHead<T>(x: T, y: T, s: seq<T>, t: seq<T>)
    requires [x] + s == [y] + t
    ensures x == y && s == t
  {
    assert ([x] + s)[0] == x && ([y] + t)[0] == y;
    assert ([x] + s)[1..] == s && ([y] + t)[1..] == t;
  }

  /** After a text of a normal list, no character follows directly. */
  lemma NoCharAfterText(list: seq<Canon>, rest: seq<Event>)
    requires Normal(list) && Ended(rest) && |list| > 0 && list[0].CanonText?
    ensures CanonStream(list[1..], true) + rest == [] || !(CanonStream(list[1..], true) + rest)[0].Char?
  {
    if |list| > 1 {
      assert ItemStream(list[1], true) != [] && !ItemStream(list[1], true)[0].Char?;
    }
  }

  /** An element's stream is its start tag, its children, its end tag. */
  lemma ElementSplits(c: Canon, t: seq<Event>)
    requires c.CanonElement?
    ensures ItemStream(c, true) + t
         == [Open(c.uri, c.local, c.attrs)] + (CanonStream(c.children, true) + ([Close] + t))
  {}

  lemma ListSplits(list: seq<Canon>, t: seq<Event>)
    requires |list| > 0
    ensures CanonStream(list, true) + t == ItemStream(list[0], true) + (CanonStream(list[1..], true) + t)
  {}

  lemma {:induction false} StreamDetermines(a: seq<Canon>, b: seq<Canon>, ra: seq<Event>, rb: seq<Event>)
    requires Normal(a) && Normal(b)
    requires Ended(ra) && Ended(rb) && CanonStream(a, true) + ra == CanonStream(b, true) + rb
    ensures a == b && ra == rb
    decreases a, 1
  {
    if a == [] || b == [] {
      OneIsEmpty(a, b, ra, rb);
    } else {
      ListSplits(a, ra);
      ListSplits(b, rb);
      ItemDetermines(a, b, ra, rb);
      StreamDetermines(a[1..], b[1..], ra, rb);
      assert a == [a[0]] + a[1..] && b == [b[0]] + b[1..];
    }
  }

  lemma StartsOpen(list: seq<Canon>, rest: seq<Event>)
    ensures list != [] ==> CanonStream(list, true) + rest != [] && !(CanonStream(list, true) + rest)[0].Close?
  {}

  lemma OneIsEmpty(a: seq<Canon>, b: seq<Canon>, ra: seq<Event>, rb: seq<Event>)
    requires a == [] || b == []
    requires Ended(ra) && Ended(rb) && CanonStream(a, true) + ra == CanonStream(b, true) + rb
    ensures a == b && ra == rb
  {
    StartsOpen(a, ra);
    StartsOpen(b, rb);
    assert a == [] ==> CanonStream(a, true) + ra == ra;
    assert b == [] ==> CanonStream(b, true) + rb == rb;
  }

  lemma {:induction false} ItemDetermines(a: seq<Canon>, b: seq<Canon>, ra: seq<Event>, rb: seq<Event>)
    requires |a| > 0 && |b| > 0
    requires Normal(a) && Normal(b) && Ended(ra) && Ended(rb)
    requires ItemStream(a[0], true) + (CanonStream(a[1..], true) + ra)
          == ItemStream(b[0], true) + (CanonStream(b[1..], true) + rb)
    ensures a[0] == b[0] && CanonStream(a[1..], true) + ra == CanonStream(b[1..], true) + rb
    decreases a, 0
  {
    var ta, tb := CanonStream(a[1..], true) + ra, CanonStream(b[1..], true) + rb;
    SameKind(a[0], b[0], ta, tb);
    match a[0]
    case CanonText(text) =>
      if text == "" {
        SameHead(Blank, Blank, ta, tb);
      } else {
        NoCharAfterText(a, ra);
        NoCharAfterText(b, rb);
        SameRun(text, b[0].text, ta, tb);
      }
    case CanonElement(_, _, _, _) =>
      ElementSplits(a[0], ta);
      ElementSplits(b[0], tb);
      SameHead(Open(a[0].uri, a[0].local, a[0].attrs), Open(b[0].uri, b[0].local, b[0].attrs),
               CanonStream(a[0].children, true) + ([Close] + ta), CanonStream(b[0].children, true) + ([Close] + tb));
      StreamDetermines(a[0].children, b[0].children, [Close] + ta, [Close] + tb);
      SameHead(Close, Close, ta, tb);
    case CanonComment(_) =>
      SameHead(ItemStream(a[0], true)[0], ItemStream(b[0], true)[0], ta, tb);
    case CanonInstruction(_, _) =>
      SameHead(ItemStream(a[0], true)[0], ItemStream(b[0], true)[0], ta, tb);
  }

  lemma SameKind(a: Canon, b: Canon, ta: seq<Event>, tb: seq<Event>)
    requires ItemStream(a, true) + ta == ItemStream(b, true) + tb
    ensures (a.CanonText? <==> b.CanonText?) && (a.CanonElement? <==> b.CanonElement?)
    ensures (a.CanonComment? <==> b.CanonComment?) && (a.CanonInstruction? <==> b.CanonInstruction?)
    ensures a.CanonText? ==> (a.text == "" <==> b.text == "")
  {
    assert (ItemStream(a, true) + ta)[0] == ItemStream(a, true)[0];
    assert (ItemStream(b, true) + tb)[0] == ItemStream(b, true)[0];
  }

  /** Any two node lists have the same normal form exactly when they say the same: same
      characters, same markup, same nesting, attributes compared as a map, and blank
      runs of text in the same places. Splitting or merging text, CDATA for text and
      attribute order make no difference, and nothing else is lost. */
  lemma CanonicalDecidesContent(x: seq<Node>, y: seq<Node>)
    ensures Canonical(x) == Canonical(y) <==> Marked(x, Outside) == Marked(y, Outside)
  {
    hide Canonical, CanonStream, Marked;
    CanonicalMarks(x, Outside);
    CanonicalMarks(y, Outside);
    CanonicalIsNormal(x);
    CanonicalIsNormal(y);
    if Marked(x, Outside) == Marked(y, Outside) {
      StreamDetermines(Canonical(x), Canonical(y), [], []);
    }
  }

  /** No run of text, at any depth, is without a character. */
  predicate NoBlankRun(nodes: seq<Node>, run: Run)
    decreases nodes
  {
    if nodes == [] then !run.AllEmpty?
    else if IsText(nodes[0]) then NoBlankRun(nodes[1..], After(run, nodes[0].content))
    else if nodes[0].Other? then NoBlankRun(nodes[1..], run)
    else
      && !run.AllEmpty?
      && (nodes[0].Element? ==> NoBlankRun(nodes[0].children, Outside))
      && NoBlankRun(nodes[1..], Outside)
  }

  lemma {:induction false} NothingToMark(nodes: seq<Node>, run: Run)
    requires NoBlankRun(nodes, run)
    ensures Marked(nodes, run) == Stream(nodes)
    decreases nodes
  {
    hide OpenOf, Chars, After;
    if nodes != [] {
      var n, rest := nodes[0], nodes[1..];
      if IsText(n) {
        NothingToMark(rest, After(run, n.content));
      } else if n.Other? {
        NothingToMark(rest, run);
      } else {
        NothingToMark(rest, Outside);
        assert MarkupMarked(n) == NodeStream(n) by {
          if n.Element? {
            NothingToMark(n.children, Outside);
          }
        }
      }
    }
  }

  /** So without blank runs the characters and the markup alone decide. */
  lemma ContentDecidesWithoutBlankRuns(x: seq<Node>, y: seq<Node>)
    requires NoBlankRun(x, Outside) && NoBlankRun(y, Outside)
    ensures Canonical(x) == Canonical(y) <==> Stream(x) == Stream(y)
  {
    CanonicalDecidesContent(x, y);
    NothingToMark(x, Outside);
    NothingToMark(y, Outside);
  }

  /** A blank run is the one difference that characters and markup do not show: an
      element holding an empty CDATA section and the same element without it. */
  lemma BlankRunShows(name: string)
    ensures var with := [Element(name, None, [CData("")])];
            var without := [Element(name, None, [])];
            && Stream(with) == Stream(without)
            && !NoBlankRun(with, Outside)
            && Canonical(with) != Canonical(without)
  {
    var with, without := Element(name, None, [CData("")]), Element(name, None, []);
    assert [with][1..] == [] && [without][1..] == [] && [CData("")][1..] == [];
    assert Stream([CData("")]) == [] && Canonical([CData("")]) == TextBefore("", []);
    assert NodeStream(with) == NodeStream(without);
    assert CanonicalElement(with).children == [CanonText("")] && CanonicalElement(without).children == [];
    assert Canonical([with]) == [CanonicalElement(with)] && Canonical([without]) == [CanonicalElement(without)];
  }

  // ----- invariance at any place in the list, empty texts included -----

  lemma {:induction false} CanonicalContext(pre: seq<Node>, a: seq<Node>, b: seq<Node>)
    requires Canonical(a) == Canonical(b)
    ensures Canonical(pre + a) == Canonical(pre + b)
  {
    if pre == [] {
      assert pre + a == a && pre + b == b;
    } else {
      CanonicalContext(pre[1..], a, b);
      assert (pre + a)[1..] == pre[1..] + a && (pre + b)[1..] == pre[1..] + b;
    }
  }

  /** A text node may be split in two, and each part may be text, CDATA or an entity
      reference. */
  lemma SplittingTextIsInvisible(pre: seq<Node>, n: Node, a: Node, b: Node, post: seq<Node>)
    requires IsText(n) && IsText(a) && IsText(b) && n.content == a.content + b.content
    ensures Canonical(pre + ([n] + post)) == Canonical(pre + ([a, b] + post))
  {
    var rest := Canonical(post);
    CanonicalCons(n, post);
    CanonicalCons(b, post);
    CanonicalCons(a, [b] + post);
    assert [a] + ([b] + post) == [a, b] + post;
    TextBeforeJoins(a.content, b.content, rest);
    CanonicalContext(pre, [n] + post, [a, b] + post);
  }

  /** An element may be replaced by one with the same names, the same attributes in
      another order and children with the same normal form. */
  lemma RearrangingElementIsInvisible(pre: seq<Node>, n: Node, m: Node, post: seq<Node>)
    requires n.Element? && m.Element? && n.declared.Some? && m.declared.Some?
    requires n.declared.value.uri == m.declared.value.uri && n.declared.value.local == m.declared.value.local
    requires DistinctNames(n.declared.value.attributes) && DistinctNames(m.declared.value.attributes)
    requires forall a :: a in n.declared.value.attributes <==> a in m.declared.value.attributes
    requires Canonical(n.children) == Canonical(m.children)
    ensures Canonical(pre + ([n] + post)) == Canonical(pre + ([m] + post))
  {
    CanonicalCons(n, post);
    CanonicalCons(m, post);
    assert CanonicalElement(n).children == Canonical(n.children);
    assert CanonicalElement(m).children == Canonical(m.children);
    SameAttributes(n.declared.value.attributes, m.declared.value.attributes);
    CanonicalContext(pre, [n] + post, [m] + post);
  }

  predicate DistinctNames(attributes: seq<Attribute>) {
    forall i, j :: 0 <= i < j < |attributes| ==>
      attributes[i].uri != attributes[j].uri || attributes[i].local != attributes[j].local
  }

  lemma {:induction false} AttributesOfDistinct(attributes: seq<Attribute>)
    requires DistinctNames(attributes)
    ensures forall a :: a in attributes ==>
              (a.uri, a.local) in AttributesOf(attributes) && AttributesOf(attributes)[(a.uri, a.local)] == a.value
    ensures forall k :: k in AttributesOf(attributes) ==>
              Attribute(k.0, k.1, AttributesOf(attributes)[k]) in attributes
  {
    if attributes != [] {
      AttributesOfDistinct(attributes[..|attributes| - 1]);
    }
  }

  lemma SameAttributes(a: seq<Attribute>, b: seq<Attribute>)
    requires DistinctNames(a) && DistinctNames(b) && forall x :: x in a <==> x in b
    ensures AttributesOf(a) == AttributesOf(b)
  {
    AttributesOfDistinct(a);
    AttributesOfDistinct(b);
    assert forall k :: k in AttributesOf(a) ==> k in AttributesOf(b) && AttributesOf(b)[k] == AttributesOf(a)[k];
    assert forall k :: k in AttributesOf(b) ==> k in AttributesOf(a);
  }
}
