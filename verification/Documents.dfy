/** What a Protocol Guild document says, as text, and what parsing it makes of that. */
module Documents {
  import opened Lists
  import opened Source
  import opened Markdown
  import opened Patterns
  import opened ProtocolGuild

  // ----- Kinds of lines, as text -----

  ghost predicate HeadingText(raw: string) {
    Trim(raw) != "" && Trim(raw)[0] == '#'
  }

  ghost predicate HeaderText(raw: string, cell: string) {
    !HeadingText(raw) && exists blanks, middle, rest :: IsHeader(Trim(raw), blanks, cell, middle, rest)
  }

  ghost predicate MemberText(raw: string, name: string, login: string) {
    && !HeadingText(raw) && (forall cell :: !HeaderText(raw, cell))
    && exists url, before :: IsMemberRow(Trim(raw), name, url, before, login)
  }

  lemma HeadingIff(raw: string)
    ensures Classify(raw).Heading? <==> HeadingText(raw)
  {}

  lemma HeaderIff(raw: string, cell: string)
    ensures HeaderText(raw, cell) <==> !Classify(raw).Heading? && HeaderCell(Trim(raw)) == Some(cell)
  {
    HeadingIff(raw);
    HeaderCellIff(Trim(raw), cell);
  }

  lemma NoHeaderIff(raw: string)
    requires !Classify(raw).Heading?
    ensures (exists cell :: HeaderText(raw, cell)) <==> HeaderCell(Trim(raw)).Some?
  {
    if HeaderCell(Trim(raw)).Some? { HeaderIff(raw, HeaderCell(Trim(raw)).value); }
    if cell :| HeaderText(raw, cell) { HeaderIff(raw, cell); }
  }

  /** A header line is classified under its section name, a member line under its trimmed name and login. */
  lemma ClassifyPlainly(raw: string)
    ensures Classify(raw).Heading? <==> HeadingText(raw)
    ensures forall cell :: HeaderText(raw, cell) ==> Classify(raw) == Header(SectionName(cell))
    ensures Classify(raw).Header? ==>
              exists cell :: HeaderText(raw, cell) && Classify(raw).section == SectionName(cell)
    ensures forall name, login :: MemberText(raw, name, login) ==>
              Classify(raw) == Row(Markdown.Member(Trim(name), login))
    ensures Classify(raw).Row? ==> exists name ::
              MemberText(raw, name, Classify(raw).member.handle) && Classify(raw).member.name == Trim(name)
  {
    HeadingIff(raw);
    forall cell | HeaderText(raw, cell) ensures Classify(raw) == Header(SectionName(cell)) { HeaderIff(raw, cell); }
    if Classify(raw).Header? { HeaderIff(raw, HeaderCell(Trim(raw)).value); }
    forall name, login | MemberText(raw, name, login)
      ensures Classify(raw) == Row(Markdown.Member(Trim(name), login))
    {
      MemberClassified(raw, name, login);
    }
    if Classify(raw).Row? { RowIsMember(raw); }
  }

  lemma MemberClassified(raw: string, name: string, login: string)
    requires MemberText(raw, name, login)
    ensures Classify(raw) == Row(Markdown.Member(Trim(name), login))
  {
    HeadingIff(raw);
    NoHeaderIff(raw);
    MemberRowIff(Trim(raw), Markdown.Member(Trim(name), login));
  }

  lemma RowIsMember(raw: string)
    requires Classify(raw).Row?
    ensures exists name :: MemberText(raw, name, Classify(raw).member.handle) && Classify(raw).member.name == Trim(name)
  {
    var m := Classify(raw).member;
    NoHeaderIff(raw);
    HeadingIff(raw);
    MemberRowIff(Trim(raw), m);
    var name, url, before :| IsMemberRow(Trim(raw), name, url, before, m.handle) && m.name == Trim(name);
    assert MemberText(raw, name, m.handle);
  }

  // ----- Which memberships a document has -----

  /** Line j is the last heading or header before line i. */
  ghost predicate Rules(lines: seq<string>, j: nat, i: nat) {
    && j < i <= |lines| && (HeadingText(lines[j]) || exists cell :: HeaderText(lines[j], cell))
    && forall k :: j < k < i ==> !HeadingText(lines[k]) && forall cell :: !HeaderText(lines[k], cell)
  }

  /** Line i is a member row, and the line that rules it a header mapped to the team. */
  ghost predicate Credits(sections: map<string, string>, lines: seq<string>, i: nat, team: string, name: string,
                          login: string)
  {
    && i < |lines| && MemberText(lines[i], name, login) && team != ""
    && exists j: nat, cell :: Rules(lines, j, i) && MapsTo(sections, lines[j], cell, team)
  }

  ghost predicate MapsTo(sections: map<string, string>, raw: string, cell: string, team: string) {
    HeaderText(raw, cell) && SectionName(cell) in sections && sections[SectionName(cell)] == team
  }

  lemma GovernsIff(raw: string)
    ensures Governs(Classify(raw)) <==> HeadingText(raw) || exists cell :: HeaderText(raw, cell)
  {
    ClassifyPlainly(raw);
  }

  lemma RulesIff(lines: seq<string>, j: nat, i: nat)
    requires j < i <= |lines|
    ensures Rules(lines, j, i) <==> Governor(ClassifyAll(lines), i) == Some(j)
  {
    GovernorIsNearest(ClassifyAll(lines), i, j);
    forall k | 0 <= k < i
      ensures Governs(ClassifyAll(lines)[k]) <==> HeadingText(lines[k]) || exists cell :: HeaderText(lines[k], cell)
    {
      GovernsIff(lines[k]);
    }
  }

  /** A row is attributed to a team exactly when its ruling line is a header mapped to it. */
  lemma TeamIff(sections: map<string, string>, lines: seq<string>, i: nat, team: string)
    requires i <= |lines| && team != ""
    ensures TeamAt(sections, ClassifyAll(lines), i) == team <==>
            exists j: nat, cell :: Rules(lines, j, i) && MapsTo(sections, lines[j], cell, team)
  {
    var g := Governor(ClassifyAll(lines), i);
    if g.Some? {
      RulesIff(lines, g.value, i);
      ClassifyPlainly(lines[g.value]);
      if TeamAt(sections, ClassifyAll(lines), i) == team {
        var cell :| HeaderText(lines[g.value], cell) && Classify(lines[g.value]).section == SectionName(cell);
        assert MapsTo(sections, lines[g.value], cell, team);
      }
    }
    if j: nat, cell :| Rules(lines, j, i) && MapsTo(sections, lines[j], cell, team) {
      RulesIff(lines, j, i);
      ClassifyPlainly(lines[j]);
    }
  }

  /** What a credited line adds, in full. */
  lemma CreditedRow(sections: map<string, string>, lines: seq<string>, i: nat, team: string, name: string,
                    login: string)
    requires Credits(sections, lines, i, team, name, login)
    ensures EmittedAt(sections, ClassifyAll(lines), i) == [Membership(login, team, "protocol-guild", "", Trim(name))]
  {
    TeamIff(sections, lines, i, team);
    MemberClassified(lines[i], name, login);
  }

  /** Any other line adds nothing. */
  lemma UncreditedLine(sections: map<string, string>, lines: seq<string>, i: nat)
    requires i < |lines|
    requires forall team, name, login :: !Credits(sections, lines, i, team, name, login)
    ensures EmittedAt(sections, ClassifyAll(lines), i) == []
  {
    var team := TeamAt(sections, ClassifyAll(lines), i);
    if ClassifyAll(lines)[i].Row? && team != "" {
      RowIsMember(lines[i]);
      var name :| MemberText(lines[i], name, Classify(lines[i]).member.handle);
      TeamIff(sections, lines, i, team);
      assert Credits(sections, lines, i, team, name, Classify(lines[i]).member.handle);
      assert false;
    }
  }

  /** Line i credits this very membership: the login as handle, the trimmed link text as name. */
  ghost predicate CreditsRow(sections: map<string, string>, lines: seq<string>, i: nat, m: Membership) {
    exists team, name, login :: Credits(sections, lines, i, team, name, login)
                                && m == Membership(login, team, "protocol-guild", "", Trim(name))
  }

  lemma EmittedIsCredited(sections: map<string, string>, lines: seq<string>, i: nat, m: Membership)
    requires i < |lines|
    ensures m in EmittedAt(sections, ClassifyAll(lines), i) <==> CreditsRow(sections, lines, i, m)
  {
    if forall team, name, login :: !Credits(sections, lines, i, team, name, login) {
      UncreditedLine(sections, lines, i);
    } else {
      var team, name, login :| Credits(sections, lines, i, team, name, login);
      CreditedRow(sections, lines, i, team, name, login);
      forall t, n, l | Credits(sections, lines, i, t, n, l)
        ensures EmittedAt(sections, ClassifyAll(lines), i) == [Membership(l, t, "protocol-guild", "", Trim(n))]
      {
        CreditedRow(sections, lines, i, t, n, l);
      }
    }
  }

  /**
   Attribution, from text to rows. A document has exactly the memberships of its member lines whose nearest
   heading or header above is a header of a mapped section.
   */
  lemma ParsedIff(sections: map<string, string>, doc: string, m: Membership)
    ensures m in Parsed(sections, doc) <==> exists i: nat :: i < |Lines(doc)| && CreditsRow(sections, Lines(doc), i, m)
  {
    var lines, emits := Lines(doc), Emits(sections, Document(doc));
    ConcatElems(emits, m);
    forall i: nat | i < |lines| ensures m in emits[i] <==> CreditsRow(sections, lines, i, m) {
      EmittedIsCredited(sections, lines, i, m);
    }
  }

  ghost predicate HeaderOf(raw: string, section: string) {
    exists cell :: HeaderText(raw, cell) && section == SectionName(cell)
  }

  lemma HeaderOfIff(raw: string, section: string)
    ensures HeaderOf(raw, section) <==> Classify(raw) == Header(section)
  {
    ClassifyPlainly(raw);
  }

  /** The sections a document carries are those of its header lines. */
  lemma SeenIff(doc: string, section: string)
    ensures section in SectionsSeen(Document(doc)) <==>
            exists i: nat :: i < |Lines(doc)| && HeaderOf(Lines(doc)[i], section)
  {
    var lines := Lines(doc);
    forall i: nat | i < |lines| ensures HeaderOf(lines[i], section) <==> Document(doc)[i] == Header(section) {
      HeaderOfIff(lines[i], section);
    }
  }

  // ----- Rendering a document -----

  /** A header row as the document has it, with its count. */
  ghost function HeaderLine(blanks: string, section: string, count: string, middle: string, rest: string): string {
    "|" + blanks + "**" + (section + count) + "**" + middle + "|" + rest
  }

  ghost function MemberLine(blanks: string, name: string, login: string, slash: string, rest: string): string {
    "|" + blanks + "[" + name + "](" + ("https://" + (HOST + login + slash)) + ")" + rest
  }

  lemma RenderedHeader(raw: string, blanks: string, section: string, dash: char, digits: string, word: string,
                       middle: string, rest: string)
    requires Trim(raw) == HeaderLine(blanks, section, Count(dash, digits, word), middle, rest)
    requires All(IsBlank, blanks) && '*' !in section && '|' !in middle && IsCount(dash, digits, word)
    ensures HeaderText(raw, section + Count(dash, digits, word))
    ensures SectionName(section + Count(dash, digits, word)) == Trim(section)
  {
    var cell := section + Count(dash, digits, word);
    forall c | c in Count(dash, digits, word) ensures c != '*' {
      assert c == ' ' || c == dash || c in digits || c in word;
    }
    HeaderFlat(blanks, cell, middle, rest);
    assert IsHeader(Trim(raw), blanks, cell, middle, rest);
    SectionNameOfCounted(section, dash, digits, word);
  }

  /** A bracket where a header has its bold text. */
  lemma NoHeaderCell(line: string, blanks: string, s: string)
    requires line == "|" + (blanks + s) && All(IsBlank, blanks) && s != "" && s[0] == '['
    ensures HeaderCell(line) == None && line[0] == '|'
  {
    assert line[1..] == blanks + s;
    SkipOver(IsBlank, blanks, s);
  }

  lemma MemberLineSplits(blanks: string, name: string, login: string, slash: string, rest: string) returns (s: string)
    ensures MemberLine(blanks, name, login, slash, rest) == "|" + (blanks + s) && s != "" && s[0] == '['
  {
    s := "[" + (name + ("](" + (("https://" + (HOST + login + slash)) + (")" + rest))));
  }

  lemma RenderedMember(raw: string, blanks: string, name: string, login: string, slash: string, rest: string)
    requires Trim(raw) == MemberLine(blanks, name, login, slash, rest)
    requires All(IsBlank, blanks) && name != "" && ']' !in name
    requires login != "" && All(IsLoginChar, login) && (slash == "" || slash == "/")
    ensures Classify(raw) == Row(Markdown.Member(Trim(name), login))
  {
    MemberRowOfLink(blanks, name, login, slash, rest);
    var s := MemberLineSplits(blanks, name, login, slash, rest);
    NoHeaderCell(Trim(raw), blanks, s);
  }

  /** The line is a header row rendered for the section, with some count. */
  ghost predicate RendersHeader(raw: string, section: string) {
    '*' !in section && exists blanks, dash, digits, word, middle, rest ::
      && All(IsBlank, blanks) && IsCount(dash, digits, word) && '|' !in middle
      && Trim(raw) == HeaderLine(blanks, section, Count(dash, digits, word), middle, rest)
  }

  /** The line is a member row rendered for the name and login. */
  ghost predicate RendersMember(raw: string, name: string, login: string) {
    && name != "" && ']' !in name && login != "" && All(IsLoginChar, login)
    && exists blanks, slash, rest ::
         && All(IsBlank, blanks) && (slash == "" || slash == "/")
         && Trim(raw) == MemberLine(blanks, name, login, slash, rest)
  }

  lemma RenderedHeaderOf(raw: string, section: string) returns (cell: string)
    requires RendersHeader(raw, section)
    ensures HeaderText(raw, cell) && SectionName(cell) == Trim(section)
  {
    var blanks, dash, digits, word, middle, rest :|
      && All(IsBlank, blanks) && IsCount(dash, digits, word) && '|' !in middle
      && Trim(raw) == HeaderLine(blanks, section, Count(dash, digits, word), middle, rest);
    RenderedHeader(raw, blanks, section, dash, digits, word, middle, rest);
    cell := section + Count(dash, digits, word);
  }

  lemma RenderedMemberOf(raw: string, name: string, login: string) returns (text: string)
    requires RendersMember(raw, name, login)
    ensures MemberText(raw, text, login) && Trim(text) == Trim(name)
  {
    var blanks, slash, rest :| All(IsBlank, blanks) && (slash == "" || slash == "/")
                               && Trim(raw) == MemberLine(blanks, name, login, slash, rest);
    RenderedMember(raw, blanks, name, login, slash, rest);
    RowIsMember(raw);
    text :| MemberText(raw, text, Classify(raw).member.handle) && Classify(raw).member.name == Trim(text);
  }

  ghost predicate Quiet(raw: string) {
    !HeadingText(raw) && forall cell :: !HeaderText(raw, cell)
  }

  lemma CreditsTo(sections: map<string, string>, lines: seq<string>, j: nat, i: nat, cell: string, team: string,
                  name: string, login: string)
    requires i < |lines| && Rules(lines, j, i) && team != ""
    requires MapsTo(sections, lines[j], cell, team) && MemberText(lines[i], name, login)
    ensures CreditsRow(sections, lines, i, Membership(login, team, "protocol-guild", "", Trim(name)))
  {
    assert Credits(sections, lines, i, team, name, login);
  }

  /**
   A document with a rendered header of a mapped section, then lines that are neither headings nor headers,
   then a rendered member row, has that member on that team, whatever else it holds.
   */
  lemma RenderedRowIsParsed(sections: map<string, string>, doc: string, j: nat, i: nat,
                            section: string, name: string, login: string)
    requires j < i < |Lines(doc)| && forall k :: j < k < i ==> Quiet(Lines(doc)[k])
    requires RendersHeader(Lines(doc)[j], section) && RendersMember(Lines(doc)[i], name, login)
    requires Trim(section) in sections && sections[Trim(section)] != ""
    ensures Membership(login, sections[Trim(section)], "protocol-guild", "", Trim(name)) in Parsed(sections, doc)
  {
    var lines, team := Lines(doc), sections[Trim(section)];
    var cell := RenderedHeaderOf(lines[j], section);
    var text := RenderedMemberOf(lines[i], name, login);
    CreditsTo(sections, lines, j, i, cell, team, text, login);
    ParsedIff(sections, doc, Membership(login, team, "protocol-guild", "", Trim(name)));
  }

  ghost predicate Unmapped(sections: map<string, string>, raw: string, cell: string) {
    HeaderText(raw, cell) && (SectionName(cell) !in sections || sections[SectionName(cell)] == "")
  }

  /** A heading, or a header of an unmapped section, ends the attribution: the quiet lines after it add nothing. */
  lemma UnmappedRowIsDropped(sections: map<string, string>, doc: string, j: nat, i: nat)
    requires j < i < |Lines(doc)| && forall k :: j < k < i ==> Quiet(Lines(doc)[k])
    requires HeadingText(Lines(doc)[j]) || exists cell :: Unmapped(sections, Lines(doc)[j], cell)
    ensures EmittedAt(sections, Document(doc), i) == []
  {
    assert Rules(Lines(doc), j, i);
    RulesIff(Lines(doc), j, i);
    ClassifyPlainly(Lines(doc)[j]);
  }
}
