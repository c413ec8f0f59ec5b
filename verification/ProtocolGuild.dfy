/** The Protocol Guild datasource: the stateful line loop, and what it attributes to whom. */
module ProtocolGuild {
  import opened Lists
  import opened Text
  import opened Source
  import opened IndexReads
  import opened Markdown
  import opened Syncing

  // ----- One line at a time -----

  datatype Line = Heading | Header(section: string) | Row(member: Markdown.Member) | Other

  function Classify(raw: string): Line {
    var line := Trim(raw);
    if "#" <= line then Heading
    else if HeaderCell(line).Some? then Header(SectionName(HeaderCell(line).value))
    else if MemberRow(line).Some? then Row(MemberRow(line).value)
    else Other
  }

  /** The line decides which team the rows after it belong to. */
  predicate Governs(l: Line) {
    l.Heading? || l.Header?
  }

  function TeamOf(sections: map<string, string>, section: string): string {
    if section in sections then sections[section] else ""
  }

  function ClassifyAll(lines: seq<string>): seq<Line> {
    seq(|lines|, i requires 0 <= i < |lines| => Classify(lines[i]))
  }

  function Document(doc: string): seq<Line> {
    ClassifyAll(Lines(doc))
  }

  // ----- Attribution, declaratively -----

  /** The nearest governing line before line `i`. */
  ghost function Governor(lines: seq<Line>, i: nat): (g: Option<nat>)
    requires i <= |lines|
    ensures g.Some? ==> g.value < i
  {
    if i == 0 then None
    else if Governs(lines[i - 1]) then Some(i - 1)
    else Governor(lines, i - 1)
  }

  lemma {:induction false} GovernorIsNearest(lines: seq<Line>, i: nat, j: nat)
    requires j < i <= |lines|
    ensures Governor(lines, i) == Some(j) <==> Governs(lines[j]) && forall k :: j < k < i ==> !Governs(lines[k])
  {
    if j == i - 1 {
    } else {
      GovernorIsNearest(lines, i - 1, j);
    }
  }

  /** The team that line `i` would be attributed to, "" for none. */
  ghost function TeamAt(sections: map<string, string>, lines: seq<Line>, i: nat): string
    requires i <= |lines|
  {
    var g := Governor(lines, i);
    if g.Some? && lines[g.value].Header? then TeamOf(sections, lines[g.value].section) else ""
  }

  ghost function RowFor(member: Markdown.Member, team: string): Membership {
    Membership(member.handle, team, PROTOCOL_GUILD, "", member.name)
  }

  /** What line `i` adds to the memberships. */
  ghost function EmittedAt(sections: map<string, string>, lines: seq<Line>, i: nat): seq<Membership> {
    if i < |lines| && lines[i].Row? && TeamAt(sections, lines, i) != ""
    then [RowFor(lines[i].member, TeamAt(sections, lines, i))] else []
  }

  ghost function Emits(sections: map<string, string>, lines: seq<Line>): seq<seq<Membership>> {
    seq(|lines|, i requires 0 <= i < |lines| => EmittedAt(sections, lines, i))
  }

  /** The member rows whose governing line is a mapped header, in order. */
  ghost function Emitted(sections: map<string, string>, lines: seq<Line>): seq<Membership> {
    Concat(Emits(sections, lines))
  }

  ghost function Parsed(sections: map<string, string>, doc: string): seq<Membership> {
    Emitted(sections, Document(doc))
  }

  ghost function SectionsSeen(lines: seq<Line>): set<string> {
    set l | l in lines && l.Header? :: l.section
  }

  // ----- The parser -----

  lemma SeenStep(lines: seq<Line>, i: nat)
    requires i < |lines|
    ensures SectionsSeen(lines[..i + 1]) ==
            if lines[i].Header? then SectionsSeen(lines[..i]) + {lines[i].section} else SectionsSeen(lines[..i])
  {
    assert forall l :: l in lines[..i + 1] <==> l in lines[..i] || l == lines[i];
  }

  lemma TeamStep(sections: map<string, string>, lines: seq<Line>, i: nat)
    requires i < |lines|
    ensures TeamAt(sections, lines, i + 1) ==
            match lines[i]
            case Heading => ""
            case Header(section) => TeamOf(sections, section)
            case _ => TeamAt(sections, lines, i)
  {}

  /** parse: a header row sets the current team, a heading clears it, a member row belongs to it. */
  method Parse(sections: map<string, string>, doc: string) returns (memberships: seq<Membership>, seen: set<string>)
    ensures memberships == Parsed(sections, doc)
    ensures seen == SectionsSeen(Document(doc))
  {
    var lines := Lines(doc);
    ghost var document := Document(doc);
    ghost var emits := Emits(sections, document);
    memberships, seen := [], {};
    var currentTeam := "";
    for i := 0 to |lines|
      invariant memberships == Concat(emits[..i])
      invariant currentTeam == TeamAt(sections, document, i)
      invariant seen == SectionsSeen(document[..i])
    {
      var line := Classify(lines[i]);
      assert line == document[i];
      SeenStep(document, i);
      TeamStep(sections, document, i);
      ConcatSnoc(emits, i);
      assert emits[i] == EmittedAt(sections, document, i);
      match line
      case Heading =>
        currentTeam := "";
      case Header(section) =>
        seen := seen + {section};
        currentTeam := TeamOf(sections, section);
      case Row(member) =>
        if currentTeam != "" {
          memberships := memberships + [Membership(member.handle, currentTeam, PROTOCOL_GUILD, "", member.name)];
        }
      case Other =>
    }
    assert document[..|lines|] == document && emits[..|lines|] == emits;
  }

  /** missingSections: the configured headers the document does not carry, sorted. */
  method MissingSections(sections: map<string, string>, seen: set<string>) returns (missing: seq<string>)
    ensures missing == Sorted(sections.Keys - seen)
  {
    var unseen := map s | s in sections && s !in seen :: sections[s];
    missing := SortedKeys(unseen);
    assert unseen.Keys == sections.Keys - seen;
  }

  /** Fetch, once the document is here: past the budget of missing headers the fetch is rejected. */
  method Fetch(sections: map<string, string>, maxMissing: int, doc: string)
    returns (outcome: Outcome<seq<Membership>>, warnings: seq<string>)
    ensures warnings == Sorted(sections.Keys - SectionsSeen(Document(doc)))
    ensures outcome.Failed? <==> 0 < maxMissing < |sections.Keys - SectionsSeen(Document(doc))|
    ensures outcome.Rows? ==> outcome.rows == Parsed(sections, doc)
  {
    var memberships, seen := Parse(sections, doc);
    warnings := MissingSections(sections, seen);
    AscendingDistinct(warnings);
    DistinctSize(warnings);
    if |warnings| > 0 && maxMissing > 0 && |warnings| > maxMissing {
      outcome := Failed("configured sections missing from document");
    } else {
      outcome := Rows(memberships);
    }
  }

  // ----- What a parse promises -----

  ghost predicate Attributed(sections: map<string, string>, lines: seq<Line>, i: nat, m: Membership)
    requires i < |lines|
  {
    && lines[i].Row? && TeamAt(sections, lines, i) != ""
    && m == RowFor(lines[i].member, TeamAt(sections, lines, i))
  }

  /** A row is emitted exactly when its nearest governing line is a header mapped to its team. */
  lemma EmittedIff(sections: map<string, string>, lines: seq<Line>, m: Membership)
    ensures m in Emitted(sections, lines) <==> exists i :: 0 <= i < |lines| && Attributed(sections, lines, i, m)
  {
    ConcatElems(Emits(sections, lines), m);
    forall i | 0 <= i < |lines| ensures m in Emits(sections, lines)[i] <==> Attributed(sections, lines, i, m) {}
  }

  lemma ParsedFromSource(sections: map<string, string>, doc: string)
    ensures FromSource(PROTOCOL_GUILD, Parsed(sections, doc))
  {
    forall m | m in Parsed(sections, doc) ensures m.source == PROTOCOL_GUILD && m.org == "" {
      EmittedIff(sections, Document(doc), m);
    }
  }

  /** `doc` is `a`, a heading, and `b`. */
  ghost predicate Joined(doc: seq<Line>, a: seq<Line>, b: seq<Line>) {
    && |doc| == |a| + 1 + |b| && doc[|a|] == Heading
    && (forall i :: 0 <= i < |a| ==> doc[i] == a[i])
    && (forall i :: |a| < i < |doc| ==> doc[i] == b[i - |a| - 1])
  }

  lemma {:induction false} BeforeHeading(sections: map<string, string>, doc: seq<Line>, a: seq<Line>, b: seq<Line>,
                                         n: nat)
    requires Joined(doc, a, b) && n <= |a|
    ensures Governor(doc, n) == Governor(a, n)
  {
    if n == 0 {
    } else {
      BeforeHeading(sections, doc, a, b, n - 1);
    }
  }

  /** After a heading, attribution starts over. */
  lemma {:induction false} AfterHeading(sections: map<string, string>, doc: seq<Line>, a: seq<Line>, b: seq<Line>,
                                        i: nat)
    requires Joined(doc, a, b) && |a| < i <= |doc|
    ensures Governor(doc, i) == match Governor(b, i - |a| - 1) case None => Some(|a|) case Some(j) => Some(|a| + 1 + j)
    ensures TeamAt(sections, doc, i) == TeamAt(sections, b, i - |a| - 1)
  {
    if i == |a| + 1 {
    } else {
      AfterHeading(sections, doc, a, b, i - 1);
    }
  }

  lemma EmittedBefore(sections: map<string, string>, doc: seq<Line>, a: seq<Line>, b: seq<Line>, i: nat)
    requires Joined(doc, a, b) && i <= |a|
    ensures EmittedAt(sections, doc, i) == EmittedAt(sections, a, i)
  {
    BeforeHeading(sections, doc, a, b, i);
  }

  lemma EmittedAfter(sections: map<string, string>, doc: seq<Line>, a: seq<Line>, b: seq<Line>, i: nat)
    requires Joined(doc, a, b) && i < |b|
    ensures EmittedAt(sections, doc, |a| + 1 + i) == EmittedAt(sections, b, i)
  {
    AfterHeading(sections, doc, a, b, |a| + 1 + i);
  }

  lemma LinesOfJoined(a: string, h: string, b: string)
    requires '\n' !in h
    ensures Lines(a + "\n" + h + "\n" + b) == Lines(a) + [h] + Lines(b)
  {
    assert a + "\n" + h + "\n" + b == a + "\n" + (h + "\n" + b);
    LinesAppend(a, h + "\n" + b);
    LinesAppend(h, b);
    IndexOfFirst('\n', h, "");
    assert Lines(h) == [h];
  }

  lemma ClassifyJoined(x: seq<string>, h: string, y: seq<string>)
    requires Classify(h).Heading?
    ensures ClassifyAll(x + [h] + y) == ClassifyAll(x) + [Heading] + ClassifyAll(y)
  {
    var all := x + [h] + y;
    forall i | 0 <= i < |all| ensures ClassifyAll(all)[i] == (ClassifyAll(x) + [Heading] + ClassifyAll(y))[i] {}
  }

  lemma DocumentOfJoined(a: string, h: string, b: string)
    requires '\n' !in h && Classify(h).Heading?
    ensures Document(a + "\n" + h + "\n" + b) == Document(a) + [Heading] + Document(b)
  {
    LinesOfJoined(a, h, b);
    ClassifyJoined(Lines(a), h, Lines(b));
  }

  /**
   Parsing is compositional at headings: two documents joined by a heading line yield the
   memberships of the first followed by those of the second, and the sections of both.
   */
  lemma ParseComposes(sections: map<string, string>, a: string, h: string, b: string)
    requires '\n' !in h && Classify(h).Heading?
    ensures var doc := a + "\n" + h + "\n" + b;
            && Parsed(sections, doc) == Parsed(sections, a) + Parsed(sections, b)
            && SectionsSeen(Document(doc)) == SectionsSeen(Document(a)) + SectionsSeen(Document(b))
  {
    DocumentOfJoined(a, h, b);
    ComposedAt(sections, Document(a), Document(b));
  }

  lemma ComposedAt(sections: map<string, string>, x: seq<Line>, y: seq<Line>)
    ensures Emitted(sections, x + [Heading] + y) == Emitted(sections, x) + Emitted(sections, y)
    ensures SectionsSeen(x + [Heading] + y) == SectionsSeen(x) + SectionsSeen(y)
  {
    var lines := x + [Heading] + y;
    JoinedEmitted(sections, lines, x, y);
    assert forall l :: l in lines <==> l in x || l == Heading || l in y;
  }

  lemma JoinedEmits(sections: map<string, string>, doc: seq<Line>, a: seq<Line>, b: seq<Line>)
    requires Joined(doc, a, b)
    ensures Emits(sections, doc) == Emits(sections, a) + [[]] + Emits(sections, b)
  {
    var all := Emits(sections, a) + [[]] + Emits(sections, b);
    forall i | 0 <= i < |doc| ensures EmittedAt(sections, doc, i) == all[i] {
      if i < |a| {
        EmittedBefore(sections, doc, a, b, i);
      } else if i > |a| {
        EmittedAfter(sections, doc, a, b, i - |a| - 1);
      }
    }
  }

  lemma JoinedEmitted(sections: map<string, string>, doc: seq<Line>, a: seq<Line>, b: seq<Line>)
    requires Joined(doc, a, b)
    ensures Emitted(sections, doc) == Emitted(sections, a) + Emitted(sections, b)
  {
    JoinedEmits(sections, doc, a, b);
    ConcatJoined(Emits(sections, a), Emits(sections, b));
  }

  lemma ConcatJoined(xs: seq<seq<Membership>>, ys: seq<seq<Membership>>)
    ensures Concat(xs + [[]] + ys) == Concat(xs) + Concat(ys)
  {
    ConcatAppend(xs + [[]], ys);
    ConcatSnoc(xs + [[]], |xs|);
    assert (xs + [[]])[..|xs| + 1] == xs + [[]] && (xs + [[]])[..|xs|] == xs;
  }
}
