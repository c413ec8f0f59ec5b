/** The matchers of Markdown.dfy against the four regular expressions and the library calls they stand for. */
module Patterns {
  import opened Lists
  import opened Markdown

  // ----- Character classes, by code point -----

  /** The classes \s, \d, the dashes, [A-Za-z0-9-], and what strings.TrimSpace trims. */
  lemma Classes(c: char)
    ensures var n := c as int;
            && (IsBlank(c) <==> n == 9 || n == 10 || n == 12 || n == 13 || n == 32)
            && (IsDigit(c) <==> 48 <= n <= 57)
            && (IsDash(c) <==> n == 45 || n == 8211 || n == 8212)
            && (IsLoginChar(c) <==> 97 <= n <= 122 || 65 <= n <= 90 || 48 <= n <= 57 || n == 45)
            && (IsSpace(c) <==>
                  || 9 <= n <= 13 || n == 32 || n == 133 || n == 160 || n == 5760 || 8192 <= n <= 8202
                  || n == 8232 || n == 8233 || n == 8239 || n == 8287 || n == 12288)
  {}

  lemma MemberWordIff(d: string)
    ensures IsMemberWord(d) <==>
            exists first, last ::
              d == first + "ember" + last && (first == "m" || first == "M") && (last == "" || last == "s")
  {
    assert "m" + "ember" + "" == "member" && "M" + "ember" + "" == "Member";
    assert "m" + "ember" + "s" == "members" && "M" + "ember" + "s" == "Members";
  }

  // ----- TrimSpace and Split -----

  /** `t` is `s` without the blanks around it. */
  ghost predicate Trims(s: string, a: string, t: string, b: string) {
    && s == a + t + b && All(IsSpace, a) && All(IsSpace, b)
    && (t != "" ==> !IsSpace(t[0]) && !IsSpace(t[|t| - 1]))
  }

  lemma {:induction false} TrimRightIs(s: string) returns (b: string)
    ensures s == TrimRight(s) + b && All(IsSpace, b)
    ensures TrimRight(s) != "" ==> !IsSpace(TrimRight(s)[|TrimRight(s)| - 1])
  {
    if s == "" || !IsSpace(s[|s| - 1]) {
      b := "";
    } else {
      var c := TrimRightIs(s[..|s| - 1]);
      b := c + [s[|s| - 1]];
      assert s == s[..|s| - 1] + [s[|s| - 1]];
    }
  }

  /** Trim takes off all the blanks at both ends, and nothing else. */
  lemma TrimIs(s: string)
    ensures exists a, b :: Trims(s, a, Trim(s), b)
  {
    var a := SkipSplit(IsSpace, s);
    var u := Skip(IsSpace, s);
    var b := TrimRightIs(u);
    if TrimRight(u) != "" { assert TrimRight(u)[0] == u[0]; }
    assert s == a + Trim(s) + b;
    assert Trims(s, a, Trim(s), b);
  }

  ghost function Join(lines: seq<string>): string {
    if lines == [] then "" else if |lines| == 1 then lines[0] else lines[0] + "\n" + Join(lines[1..])
  }

  /** Lines cuts at every newline: joined again they are the document, and none has a newline left. */
  lemma {:induction false} LinesAre(doc: string)
    ensures Lines(doc) != [] && Join(Lines(doc)) == doc
    ensures forall i :: 0 <= i < |Lines(doc)| ==> '\n' !in Lines(doc)[i]
  {
    var i := IndexOf('\n', doc);
    IndexOfBound('\n', doc);
    if i == |doc| {
      assert doc[..i] == doc;
    } else {
      LinesAre(doc[i + 1..]);
      assert Lines(doc)[1..] == Lines(doc[i + 1..]);
      assert doc == doc[..i] + "\n" + doc[i + 1..];
    }
  }

  // ----- ^\|\s*\*\*([^*]+?)\*\*[^|]*\| -----

  ghost predicate IsHeader(line: string, blanks: string, cell: string, middle: string, rest: string) {
    && All(IsBlank, blanks) && cell != "" && '*' !in cell && '|' !in middle
    && line == "|" + (blanks + ("**" + (cell + ("**" + (middle + ("|" + rest))))))
  }

  lemma HeadAndTail(s: string)
    requires s != ""
    ensures s == [s[0]] + s[1..]
  {}

  lemma CutAt(c: char, s: string) returns (u: string, v: string)
    requires IndexOf(c, s) < |s|
    ensures c !in u && s == u + ([c] + v)
  {
    IndexOfBound(c, s);
    u, v := s[..IndexOf(c, s)], s[IndexOf(c, s) + 1..];
  }

  lemma HeaderBody(body: string, cell: string) returns (middle: string, rest: string)
    requires var i := IndexOf('*', body);
             && i > 0 && "**" <= body[i..] && IndexOf('|', body[i + 2..]) < |body[i + 2..]| && cell == body[..i]
    ensures '*' !in cell && '|' !in middle && body == cell + ("**" + (middle + ("|" + rest)))
  {
    IndexOfBound('*', body);
    var after := body[|cell| + 2..];
    middle, rest := CutAt('|', after);
    assert body == cell + ("**" + after);
  }

  lemma HeaderCellParts(line: string)
    requires HeaderCell(line).Some?
    ensures exists blanks, middle, rest :: IsHeader(line, blanks, HeaderCell(line).value, middle, rest)
  {
    var blanks := SkipSplit(IsBlank, line[1..]);
    var s := Skip(IsBlank, line[1..]);
    var middle, rest := HeaderBody(s[2..], HeaderCell(line).value);
    HeadAndTail(line);
    assert s == "**" + s[2..];
    assert IsHeader(line, blanks, HeaderCell(line).value, middle, rest);
  }

  lemma HeaderFlat(blanks: string, cell: string, middle: string, rest: string)
    ensures "|" + blanks + "**" + cell + "**" + middle + "|" + rest ==
            "|" + (blanks + ("**" + (cell + ("**" + (middle + ("|" + rest))))))
  {
    var a, b := "|" + blanks + "**" + cell, middle + ("|" + rest);
    assert a + "**" + middle + "|" + rest == a + ("**" + b);
    assert a + ("**" + b) == "|" + (blanks + ("**" + (cell + ("**" + b))));
  }

  /** The header pattern, both ways. */
  lemma HeaderCellIff(line: string, cell: string)
    ensures HeaderCell(line) == Some(cell) <==>
            exists blanks, middle, rest :: IsHeader(line, blanks, cell, middle, rest)
  {
    if HeaderCell(line) == Some(cell) { HeaderCellParts(line); }
    if blanks, middle, rest :| IsHeader(line, blanks, cell, middle, rest) {
      HeaderFlat(blanks, cell, middle, rest);
      HeaderCellOfRow(blanks, cell, middle, rest);
    }
  }

  // ----- \s*[-–—]\s*\d+\s+[Mm]embers?$ -----

  ghost predicate IsCountSuffix(s: string, a: string, dash: char, b: string, digits: string, c: string, word: string) {
    && All(IsBlank, a) && IsDash(dash) && All(IsBlank, b)
    && digits != "" && All(IsDigit, digits) && c != "" && All(IsBlank, c) && IsMemberWord(word)
    && s == a + ([dash] + (b + (digits + (c + word))))
  }

  /** Blanks, digits, blanks: what follows the dash. */
  lemma AfterDash(s: string) returns (b: string, digits: string, c: string, word: string)
    requires var s2 := Skip(IsBlank, s); var s3 := Skip(IsDigit, s2);
             |s3| < |s2| && |Skip(IsBlank, s3)| < |s3| && IsMemberWord(Skip(IsBlank, s3))
    ensures All(IsBlank, b) && digits != "" && All(IsDigit, digits) && c != "" && All(IsBlank, c) && IsMemberWord(word)
    ensures s == b + (digits + (c + word))
  {
    b := SkipSplit(IsBlank, s);
    var s2 := Skip(IsBlank, s);
    digits := SkipSplit(IsDigit, s2);
    var s3 := Skip(IsDigit, s2);
    c := SkipSplit(IsBlank, s3);
    word := Skip(IsBlank, s3);
  }

  lemma CountSuffixParts(s: string)
    requires CountSuffix(s)
    ensures exists a, dash, b, digits, c, word :: IsCountSuffix(s, a, dash, b, digits, c, word)
  {
    var a := SkipSplit(IsBlank, s);
    var tail := Skip(IsBlank, s);
    var b, digits, c, word := AfterDash(tail[1..]);
    HeadAndTail(tail);
    assert IsCountSuffix(s, a, tail[0], b, digits, c, word);
  }

  lemma CountSuffixOf(s: string, a: string, dash: char, b: string, digits: string, c: string, word: string)
    requires IsCountSuffix(s, a, dash, b, digits, c, word)
    ensures CountSuffix(s)
  {
    var s3 := c + word;
    var s2 := digits + s3;
    var s1 := [dash] + (b + s2);
    assert s == a + s1;
    SkipOver(IsBlank, a, s1);
    assert s1[1..] == b + s2;
    SkipOver(IsBlank, b, s2);
    SkipOver(IsDigit, digits, s3);
    SkipOver(IsBlank, c, word);
  }

  /** The count pattern, both ways. */
  lemma CountSuffixPatternIff(s: string)
    ensures CountSuffix(s) <==> exists a, dash, b, digits, c, word :: IsCountSuffix(s, a, dash, b, digits, c, word)
  {
    if CountSuffix(s) { CountSuffixParts(s); }
    if a, dash, b, digits, c, word :| IsCountSuffix(s, a, dash, b, digits, c, word) {
      CountSuffixOf(s, a, dash, b, digits, c, word);
    }
  }

  /** The suffix from `i` matches, or there is none, and no longer suffix does. */
  ghost predicate LeftmostCount(s: string, i: nat) {
    i <= |s| && (i < |s| ==> CountSuffix(s[i..])) && forall j :: 0 <= j < i ==> !CountSuffix(s[j..])
  }

  lemma LeftmostShift(s: string, i: nat)
    requires s != "" && !CountSuffix(s) && LeftmostCount(s[1..], i)
    ensures LeftmostCount(s, i + 1)
  {
    assert s[1..][i..] == s[i + 1..];
    forall j | 0 <= j < i + 1 ensures !CountSuffix(s[j..]) {
      if j == 0 { assert s[0..] == s; } else { assert s[1..][j - 1..] == s[j..]; }
    }
  }

  /** What is cut is the leftmost match, or nothing. */
  lemma {:induction false} StripCountIs(s: string)
    ensures exists i: nat :: LeftmostCount(s, i) && StripCount(s) == s[..i]
  {
    if s == "" || CountSuffix(s) {
      assert s[0..] == s && s[..0] == "";
      assert LeftmostCount(s, 0);
    } else {
      StripCountIs(s[1..]);
      var i: nat :| LeftmostCount(s[1..], i) && StripCount(s[1..]) == s[1..][..i];
      LeftmostShift(s, i);
      assert [s[0]] + s[1..][..i] == s[..i + 1];
    }
  }

  // ----- ^\|\s*\[([^\]]+)\]\(([^)]*) -----

  ghost predicate IsLink(line: string, blanks: string, name: string, url: string, rest: string) {
    && All(IsBlank, blanks) && name != "" && ']' !in name && ')' !in url && (rest != "" ==> rest[0] == ')')
    && line == "|" + (blanks + ("[" + (name + ("](" + (url + rest)))))
  }

  lemma LinkTarget(target: string) returns (url: string, rest: string)
    ensures url == target[..IndexOf(')', target)] && target == url + rest
    ensures ')' !in url && (rest != "" ==> rest[0] == ')')
  {
    IndexOfBound(')', target);
    url, rest := target[..IndexOf(')', target)], target[IndexOf(')', target)..];
  }

  lemma LinkBodyParts(body: string) returns (name: string, url: string, rest: string)
    requires var i := IndexOf(']', body); i > 0 && "](" <= body[i..]
    ensures var i := IndexOf(']', body); name == body[..i] && url == body[i..][2..][..IndexOf(')', body[i..][2..])]
    ensures name != "" && ']' !in name && ')' !in url && (rest != "" ==> rest[0] == ')')
    ensures body == name + ("](" + (url + rest))
  {
    IndexOfBound(']', body);
    var i := IndexOf(']', body);
    name := body[..i];
    url, rest := LinkTarget(body[i..][2..]);
    assert body[i..] == "](" + (url + rest);
  }

  lemma MemberLinkParts(line: string)
    requires MemberLink(line).Some?
    ensures exists blanks, rest :: IsLink(line, blanks, MemberLink(line).value.0, MemberLink(line).value.1, rest)
  {
    var blanks := SkipSplit(IsBlank, line[1..]);
    var s := Skip(IsBlank, line[1..]);
    var name, url, rest := LinkBodyParts(s[1..]);
    HeadAndTail(line);
    HeadAndTail(s);
    assert IsLink(line, blanks, name, url, rest);
  }

  lemma TargetEnds(url: string, rest: string)
    requires ')' !in url && (rest != "" ==> rest[0] == ')')
    ensures (url + rest)[..IndexOf(')', url + rest)] == url
  {
    if rest == "" {
      assert url + rest == url;
      IndexOfFirst(')', url, "");
    } else {
      assert url + rest == url + [')'] + rest[1..];
      IndexOfFirst(')', url, rest[1..]);
    }
  }

  lemma MemberLinkOf(line: string, blanks: string, name: string, url: string, rest: string)
    requires IsLink(line, blanks, name, url, rest)
    ensures MemberLink(line) == Some((name, url))
  {
    var target := url + rest;
    var body := name + ("](" + target);
    var s := "[" + body;
    assert line[1..] == blanks + s && s[1..] == body;
    SkipOver(IsBlank, blanks, s);
    IndexOfFirst(']', name, "(" + target);
    LinkBody(name, target);
    TargetEnds(url, rest);
  }

  lemma LinkBody(name: string, target: string)
    ensures var body := name + ("](" + target);
            && body == name + [']'] + ("(" + target)
            && body[..|name|] == name && body[|name|..] == "](" + target && body[|name|..][2..] == target
  {}

  /** The link pattern, both ways. */
  lemma MemberLinkIff(line: string, name: string, url: string)
    ensures MemberLink(line) == Some((name, url)) <==> exists blanks, rest :: IsLink(line, blanks, name, url, rest)
  {
    if MemberLink(line) == Some((name, url)) { MemberLinkParts(line); }
    if blanks, rest :| IsLink(line, blanks, name, url, rest) { MemberLinkOf(line, blanks, name, url, rest); }
  }

  // ----- github\.com/([A-Za-z0-9-]+)/?$ -----

  ghost predicate IsProfile(url: string, before: string, login: string) {
    && login != "" && All(IsLoginChar, login)
    && (url == before + "github.com/" + login || url == before + "github.com/" + login + "/")
  }

  lemma ProfileIff(s: string, login: string)
    ensures Profile(s) == Some(login) <==> IsProfile(s, "", login)
  {
    if Profile(s) == Some(login) {
      var rest := s[|HOST|..];
      assert s == HOST + rest;
      if rest[|rest| - 1] == '/' { assert rest == rest[..|rest| - 1] + "/"; }
      assert "" + "github.com/" == HOST;
    }
    if IsProfile(s, "", login) {
      assert "" + "github.com/" == HOST;
      assert s[|HOST|..] == login || s[|HOST|..] == login + "/";
      assert IsLoginChar(login[|login| - 1]);
      assert (login + "/")[..|login|] == login;
    }
  }

  lemma {:induction false} ProfileFound(url: string)
    ensures ProfileIn(url).Some? ==> exists i :: 0 <= i <= |url| && Profile(url[i..]) == ProfileIn(url)
  {
    if Profile(url).Some? || url == "" {
      assert url[0..] == url;
    } else {
      ProfileFound(url[1..]);
      if ProfileIn(url).Some? {
        var i :| 0 <= i <= |url[1..]| && Profile(url[1..][i..]) == ProfileIn(url[1..]);
        assert url[1..][i..] == url[i + 1..];
      }
    }
  }

  lemma {:induction false} ProfileSeen(url: string, i: nat)
    requires i <= |url| && Profile(url[i..]).Some?
    ensures ProfileIn(url).Some?
  {
    if i == 0 {
      assert url[0..] == url;
    } else {
      assert url[1..][i - 1..] == url[i..];
      ProfileSeen(url[1..], i - 1);
    }
  }

  lemma ProfileAt(url: string, before: string, login: string)
    ensures IsProfile(url, before, login) <==>
            |before| <= |url| && url[..|before|] == before && Profile(url[|before|..]) == Some(login)
  {
    var tail := "github.com/" + login;
    assert before + "github.com/" + login == before + tail;
    assert before + "github.com/" + login + "/" == before + (tail + "/");
    assert "" + "github.com/" + login == tail && "" + "github.com/" + login + "/" == tail + "/";
    if |before| <= |url| {
      assert url == url[..|before|] + url[|before|..];
      ProfileIff(url[|before|..], login);
    }
  }

  /** The profile pattern, anywhere in a URL, both ways. */
  lemma ProfileInIff(url: string, login: string)
    ensures ProfileIn(url) == Some(login) <==> exists before :: IsProfile(url, before, login)
  {
    if ProfileIn(url) == Some(login) {
      ProfileFound(url);
      var i :| 0 <= i <= |url| && Profile(url[i..]) == Some(login);
      ProfileAt(url, url[..i], login);
    }
    if before :| IsProfile(url, before, login) {
      var i := |before|;
      ProfileAt(url, before, login);
      ProfileSeen(url, i);
      ProfileFound(url);
      var j :| 0 <= j <= |url| && Profile(url[j..]) == ProfileIn(url);
      if i <= j { OneProfile(url, i, j); } else { OneProfile(url, j, i); }
    }
  }

  // ----- A member row -----

  ghost predicate IsMemberRow(line: string, name: string, url: string, before: string, login: string) {
    (exists blanks, rest :: IsLink(line, blanks, name, url, rest)) && IsProfile(url, before, login)
  }

  /** A member row is a link to a profile; the member has the trimmed text as name and the login as handle. */
  lemma MemberRowIff(line: string, m: Member)
    ensures MemberRow(line) == Some(m) <==>
            exists name, url, before :: IsMemberRow(line, name, url, before, m.handle) && m.name == Trim(name)
  {
    if MemberRow(line) == Some(m) {
      var (name, url) := MemberLink(line).value;
      MemberLinkIff(line, name, url);
      ProfileInIff(url, m.handle);
      var before :| IsProfile(url, before, m.handle);
      assert IsMemberRow(line, name, url, before, m.handle);
    }
    if name, url, before :| IsMemberRow(line, name, url, before, m.handle) && m.name == Trim(name) {
      MemberLinkIff(line, name, url);
      ProfileInIff(url, m.handle);
    }
  }
}
