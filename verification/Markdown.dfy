/** The row grammar of internal/source/protocolguild: hand-written matchers for its four patterns. */
module Markdown {
  import opened Lists

  // ----- Characters -----

  /** unicode.IsSpace, as strings.TrimSpace uses it. */
  predicate IsSpace(c: char) {
    || '\U{0009}' <= c <= '\U{000D}' || c == ' ' || c == '\U{0085}' || c == '\U{00A0}' || c == '\U{1680}'
    || '\U{2000}' <= c <= '\U{200A}' || c == '\U{2028}' || c == '\U{2029}' || c == '\U{202F}'
    || c == '\U{205F}' || c == '\U{3000}'
  }

  /** The class \s of Go's regular expressions, which is smaller. */
  predicate IsBlank(c: char) {
    c == '\t' || c == '\n' || c == '\U{000C}' || c == '\r' || c == ' '
  }

  predicate IsDigit(c: char) {
    '0' <= c <= '9'
  }

  predicate IsDash(c: char) {
    c == '-' || c == '\U{2013}' || c == '\U{2014}'
  }

  predicate IsLoginChar(c: char) {
    'a' <= c <= 'z' || 'A' <= c <= 'Z' || '0' <= c <= '9' || c == '-'
  }

  predicate All(p: char -> bool, s: string) {
    forall i :: 0 <= i < |s| ==> p(s[i])
  }

  // ----- Scanning -----

  /** What is left of `s` after its longest prefix of `p`-characters. */
  function Skip(p: char -> bool, s: string): string {
    if s != "" && p(s[0]) then Skip(p, s[1..]) else s
  }

  function TrimRight(s: string): string {
    if s != "" && IsSpace(s[|s| - 1]) then TrimRight(s[..|s| - 1]) else s
  }

  /** strings.TrimSpace. */
  function Trim(s: string): string {
    TrimRight(Skip(IsSpace, s))
  }

  /** Where `c` first occurs in `s`, |s| if nowhere. */
  function IndexOf(c: char, s: string): (i: nat)
    ensures i <= |s|
  {
    if s == "" || s[0] == c then 0 else 1 + IndexOf(c, s[1..])
  }

  /** strings.Split(doc, "\n"). */
  function Lines(doc: string): seq<string> {
    var i := IndexOf('\n', doc);
    if i == |doc| then [doc] else [doc[..i]] + Lines(doc[i + 1..])
  }

  // ----- The patterns -----

  /** teamHeaderRe: a table row whose first cell is bold; the bold text. */
  function HeaderCell(line: string): Option<string> {
    if line == "" || line[0] != '|' then None
    else
      var s := Skip(IsBlank, line[1..]);
      if !("**" <= s) then None
      else
        var body := s[2..];
        var i := IndexOf('*', body);
        if i == 0 || !("**" <= body[i..]) then None
        else if IndexOf('|', body[i + 2..]) == |body[i + 2..]| then None
        else Some(body[..i])
  }

  /** headerCountRe, anchored at both ends: blanks, a dash, blanks, digits, blanks, "member" or "members". */
  predicate CountSuffix(s: string) {
    var a := Skip(IsBlank, s);
    a != "" && IsDash(a[0]) &&
    var b := Skip(IsBlank, a[1..]);
    var c := Skip(IsDigit, b);
    var d := Skip(IsBlank, c);
    |c| < |b| && |d| < |c| && IsMemberWord(d)
  }

  predicate IsMemberWord(d: string) {
    d == "member" || d == "Member" || d == "members" || d == "Members"
  }

  /** Cut the leftmost match of headerCountRe, which reaches to the end. */
  function StripCount(s: string): string {
    if s == "" || CountSuffix(s) then "" else [s[0]] + StripCount(s[1..])
  }

  function SectionName(cell: string): string {
    Trim(StripCount(Trim(cell)))
  }

  /** memberLinkRe: the text and target of the link a row starts with. */
  function MemberLink(line: string): Option<(string, string)> {
    if line == "" || line[0] != '|' then None
    else
      var s := Skip(IsBlank, line[1..]);
      if s == "" || s[0] != '[' then None
      else
        var i := IndexOf(']', s[1..]);
        var name := s[1..][..i];
        var rest := s[1..][i..];
        if i == 0 || !("](" <= rest) then None
        else Some((name, rest[2..][..IndexOf(')', rest[2..])]))
  }

  const HOST := "github.com/"

  /** githubUserRe, anchored at the front: the login of a bare profile URL. */
  function Profile(s: string): Option<string> {
    if !(HOST <= s) then None
    else
      var rest := s[|HOST|..];
      var login := if rest != "" && rest[|rest| - 1] == '/' then rest[..|rest| - 1] else rest;
      if login != "" && All(IsLoginChar, login) then Some(login) else None
  }

  /** The leftmost match of githubUserRe. */
  function ProfileIn(url: string): Option<string> {
    if Profile(url).Some? then Profile(url)
    else if url == "" then None
    else ProfileIn(url[1..])
  }

  datatype Member = Member(name: string, handle: string)

  function MemberRow(line: string): Option<Member> {
    match MemberLink(line)
    case None => None
    case Some((name, url)) =>
      match ProfileIn(url)
      case None => None
      case Some(login) => Some(Member(Trim(name), login))
  }

  // ----- Splitting a scan -----

  /** What a scan passes over, and what stops it. */
  lemma {:induction false} SkipSplit(p: char -> bool, s: string) returns (u: string)
    ensures s == u + Skip(p, s) && All(p, u)
    ensures Skip(p, s) != "" ==> !p(Skip(p, s)[0])
  {
    if s == "" || !p(s[0]) {
      u := "";
    } else {
      var v := SkipSplit(p, s[1..]);
      u := [s[0]] + v;
      assert s == [s[0]] + s[1..];
    }
  }

  lemma {:induction false} SkipOver(p: char -> bool, u: string, s: string)
    requires All(p, u) && (s == "" || !p(s[0]))
    ensures Skip(p, u + s) == s
  {
    if u == "" {
      assert u + s == s;
    } else {
      assert (u + s)[1..] == u[1..] + s;
      SkipOver(p, u[1..], s);
    }
  }

  /** A prefix that is not all `p` stops the scan by itself. */
  lemma {:induction false} SkipStops(p: char -> bool, u: string, s: string)
    requires !All(p, u)
    ensures Skip(p, u + s) == Skip(p, u) + s && Skip(p, u) != ""
  {
    assert u != "";
    if !p(u[0]) {
    } else {
      assert (u + s)[1..] == u[1..] + s;
      assert !All(p, u[1..]) by {
        var i :| 0 <= i < |u| && !p(u[i]);
        assert u[1..][i - 1] == u[i];
      }
      SkipStops(p, u[1..], s);
    }
  }

  lemma {:induction false} IndexOfFirst(c: char, u: string, s: string)
    requires c !in u
    ensures IndexOf(c, u + [c] + s) == |u|
    ensures IndexOf(c, u) == |u|
  {
    if u == "" {
    } else {
      assert (u + [c] + s)[1..] == u[1..] + [c] + s;
      assert forall x :: x in u[1..] ==> x in u;
      IndexOfFirst(c, u[1..], s);
    }
  }

  // ----- The count suffix -----

  ghost predicate NoDash(s: string) {
    forall i :: 0 <= i < |s| ==> !IsDash(s[i])
  }

  lemma NoDashAppend(s: string, t: string)
    requires NoDash(s) && NoDash(t)
    ensures NoDash(s + t)
  {}

  lemma SkipNoDash(p: char -> bool, s: string)
    requires forall c :: IsDash(c) ==> !p(c)
    requires NoDash(Skip(p, s))
    ensures NoDash(s)
  {
    var u := SkipSplit(p, s);
    NoDashAppend(u, Skip(p, s));
  }

  /** A count suffix is blanks, one dash, and no further dash. */
  lemma CountHasOneDash(s: string)
    requires CountSuffix(s)
    ensures var a := Skip(IsBlank, s); a != "" && NoDash(a[1..])
  {
    var r := Skip(IsBlank, s)[1..];
    var c := Skip(IsDigit, Skip(IsBlank, r));
    SkipNoDash(IsBlank, c);
    SkipNoDash(IsDigit, Skip(IsBlank, r));
    SkipNoDash(IsBlank, r);
  }

  /** Rendered as the document renders it: a blank, a dash, a blank, digits, a blank, the word. */
  ghost function Count(dash: char, digits: string, word: string): string {
    [' ', dash, ' '] + digits + [' '] + word
  }

  ghost predicate IsCount(dash: char, digits: string, word: string) {
    IsDash(dash) && digits != "" && All(IsDigit, digits) && IsMemberWord(word)
  }

  lemma BlankThenCount(u: string, dash: char, digits: string, word: string)
    requires IsCount(dash, digits, word) && All(IsBlank, u)
    ensures CountSuffix(u + Count(dash, digits, word))
  {
    var b := digits + [' '] + word;
    var rest := [dash] + ([' '] + b);
    assert u + Count(dash, digits, word) == (u + [' ']) + rest;
    SkipOver(IsBlank, u + [' '], rest);
    assert rest[1..] == [' '] + b;
    SkipOver(IsBlank, [' '], b);
    assert b == digits + ([' '] + word);
    SkipOver(IsDigit, digits, [' '] + word);
    SkipOver(IsBlank, [' '], word);
  }

  lemma TextThenCount(u: string, dash: char, digits: string, word: string)
    requires IsCount(dash, digits, word) && !All(IsBlank, u)
    ensures !CountSuffix(u + Count(dash, digits, word))
  {
    var suffix := Count(dash, digits, word);
    SkipStops(IsBlank, u, suffix);
    var v := Skip(IsBlank, u);
    var r := v[1..] + suffix;
    assert Skip(IsBlank, u + suffix)[1..] == r;
    assert r[|v[1..]| + 1] == dash;
    if CountSuffix(u + suffix) { CountHasOneDash(u + suffix); }
  }

  /** A count, preceded by more text, is a count suffix exactly when that text is blank. */
  lemma CountSuffixIff(u: string, dash: char, digits: string, word: string)
    requires IsCount(dash, digits, word)
    ensures CountSuffix(u + Count(dash, digits, word)) <==> All(IsBlank, u)
  {
    if All(IsBlank, u) { BlankThenCount(u, dash, digits, word); } else { TextThenCount(u, dash, digits, word); }
  }

  /** `u` without its trailing blanks. */
  ghost function Unblanked(u: string): string {
    if All(IsBlank, u) then "" else [u[0]] + Unblanked(u[1..])
  }

  lemma {:induction false} StripCounted(u: string, dash: char, digits: string, word: string)
    requires IsCount(dash, digits, word)
    ensures StripCount(u + Count(dash, digits, word)) == Unblanked(u)
  {
    CountSuffixIff(u, dash, digits, word);
    if All(IsBlank, u) {
    } else {
      assert u != "";
      assert (u + Count(dash, digits, word))[1..] == u[1..] + Count(dash, digits, word);
      StripCounted(u[1..], dash, digits, word);
    }
  }

  lemma {:induction false} TrimRightSnoc(s: string, c: char)
    ensures TrimRight(s + [c]) == if IsSpace(c) then TrimRight(s) else s + [c]
  {
    assert (s + [c])[..|s|] == s;
  }

  lemma {:induction false} TrimRightAppend(s: string, u: string)
    ensures All(IsSpace, u) ==> TrimRight(s + u) == TrimRight(s)
    ensures TrimRight(u) != "" ==> TrimRight(s + u) == s + TrimRight(u)
  {
    if u == "" {
      assert s + u == s;
    } else {
      var front, last := u[..|u| - 1], u[|u| - 1];
      assert s + u == (s + front) + [last] && u == front + [last];
      TrimRightSnoc(s + front, last);
      TrimRightSnoc(front, last);
      TrimRightAppend(s, front);
    }
  }

  lemma {:induction false} TrimAllSpace(u: string)
    requires All(IsSpace, u)
    ensures TrimRight(u) == "" && Skip(IsSpace, u) == ""
  {
    assert "" + u == u;
    TrimRightAppend("", u);
    assert u + "" == u;
    SkipOver(IsSpace, u, "");
  }

  /** Dropping trailing blanks first does not change what trimming leaves. */
  lemma {:induction false} UnblankedTrim(u: string)
    ensures TrimRight(Unblanked(u)) == TrimRight(u)
  {
    if All(IsBlank, u) {
      TrimAllSpace(u);
    } else {
      var head, rest := [u[0]], u[1..];
      UnblankedTrim(rest);
      assert u == head + rest;
      TrimRightAppend(head, rest);
      TrimRightAppend(head, Unblanked(rest));
      if TrimRight(rest) == "" {
        TrimRightEmpty(rest);
        TrimRightEmpty(Unblanked(rest));
      }
    }
  }

  lemma {:induction false} TrimRightEmpty(u: string)
    requires TrimRight(u) == ""
    ensures All(IsSpace, u)
  {
    if u == "" {
    } else {
      TrimRightEmpty(u[..|u| - 1]);
    }
  }

  lemma BlankNameCounted(name: string, dash: char, digits: string, word: string)
    requires IsCount(dash, digits, word) && All(IsSpace, name)
    ensures SectionName(name + Count(dash, digits, word)) == "" == Trim(name)
  {
    var suffix := Count(dash, digits, word);
    var rest := suffix[1..];
    assert name + suffix == (name + [' ']) + rest;
    SkipOver(IsSpace, name + [' '], rest);
    TrimAllSpace(name);
    assert !IsSpace(rest[|rest| - 1]);
    assert Trim(name + suffix) == rest;
    CountWithoutBlank(dash, digits, word);
  }

  lemma LeftTrimmedCounted(u: string, dash: char, digits: string, word: string)
    requires IsCount(dash, digits, word) && u != "" && !IsSpace(u[0])
    ensures Trim(StripCount(u + Count(dash, digits, word))) == TrimRight(u)
  {
    StripCounted(u, dash, digits, word);
    UnblankedTrim(u);
    assert !IsBlank(u[0]);
    assert Skip(IsSpace, Unblanked(u)) == Unblanked(u);
  }

  /**
   sectionName inverts the rendering: whatever the name - even one that itself ends in a count -
   appending a count and taking the section name gives the trimmed name back.
   */
  lemma SectionNameOfCounted(name: string, dash: char, digits: string, word: string)
    requires IsCount(dash, digits, word)
    ensures SectionName(name + Count(dash, digits, word)) == Trim(name)
  {
    var suffix := Count(dash, digits, word);
    if All(IsSpace, name) {
      BlankNameCounted(name, dash, digits, word);
    } else {
      var u := Skip(IsSpace, name);
      SkipStops(IsSpace, name, suffix);
      var v := SkipSplit(IsSpace, name);
      var cell := u + suffix;
      assert cell[|cell| - 1] == word[|word| - 1] && !IsSpace(cell[|cell| - 1]);
      assert Trim(name + suffix) == cell;
      LeftTrimmedCounted(u, dash, digits, word);
    }
  }

  lemma CountWithoutBlank(dash: char, digits: string, word: string)
    requires IsCount(dash, digits, word)
    ensures CountSuffix(Count(dash, digits, word)[1..])
  {
    CountSuffixIff("", dash, digits, word);
    assert "" + Count(dash, digits, word) == Count(dash, digits, word);
    assert Skip(IsBlank, Count(dash, digits, word)) == Skip(IsBlank, Count(dash, digits, word)[1..]);
  }

  /** A header row gives back the bold text it was rendered from. */
  lemma HeaderCellOfRow(blanks: string, cell: string, middle: string, rest: string)
    requires All(IsBlank, blanks) && cell != "" && '*' !in cell && '|' !in middle
    ensures HeaderCell("|" + blanks + "**" + cell + "**" + middle + "|" + rest) == Some(cell)
  {
    var line := "|" + blanks + "**" + cell + "**" + middle + "|" + rest;
    var tail := "*" + middle + "|" + rest;
    var body := cell + ['*'] + tail;
    var s := "**" + body;
    assert line[1..] == blanks + s;
    SkipOver(IsBlank, blanks, s);
    assert s[2..] == body;
    IndexOfFirst('*', cell, tail);
    assert body[|cell|..] == ['*'] + tail && body[..|cell|] == cell;
    assert ['*'] + tail == "**" + (middle + ['|'] + rest);
    assert body[|cell| + 2..] == middle + ['|'] + rest;
    IndexOfFirst('|', middle, rest);
  }

  // ----- Member rows -----

  lemma {:induction false} ProfilePast(p: string, url: string)
    requires 'g' !in p
    ensures ProfileIn(p + url) == ProfileIn(url)
  {
    if p == "" {
      assert p + url == url;
    } else {
      assert (p + url)[1..] == p[1..] + url;
      assert (p + url)[0] == p[0] && p[0] in p && HOST[0] == 'g';
      assert forall x :: x in p[1..] ==> x in p;
      ProfilePast(p[1..], url);
    }
  }

  lemma MemberLinkOfLink(blanks: string, name: string, url: string, rest: string)
    requires All(IsBlank, blanks) && name != "" && ']' !in name && ')' !in url
    ensures MemberLink("|" + blanks + "[" + name + "](" + url + ")" + rest) == Some((name, url))
  {
    var line := "|" + blanks + "[" + name + "](" + url + ")" + rest;
    var tail := "(" + url + ")" + rest;
    var body := name + [']'] + tail;
    var s := "[" + body;
    assert line[1..] == blanks + s;
    SkipOver(IsBlank, blanks, s);
    assert s[1..] == body;
    IndexOfFirst(']', name, tail);
    assert body[..|name|] == name && body[|name|..] == [']'] + tail;
    var target := url + [')'] + rest;
    assert [']'] + tail == "](" + target;
    assert ([']'] + tail)[2..] == target;
    IndexOfFirst(')', url, rest);
    assert target[..|url|] == url;
  }

  lemma ProfileOfUrl(login: string, slash: string)
    requires login != "" && All(IsLoginChar, login) && (slash == "" || slash == "/")
    ensures ProfileIn("https://" + (HOST + login + slash)) == Some(login)
  {
    ProfilePast("https://", HOST + login + slash);
    assert (HOST + login + slash)[|HOST|..] == login + slash;
    if slash == "/" {
      assert (login + slash)[..|login + slash| - 1] == login;
    } else {
      assert login + slash == login;
      assert IsLoginChar(login[|login| - 1]);
    }
  }

  /**
   parseMemberRow inverts the rendering of a linked row, with or without a trailing slash: it gives
   the trimmed name and the login.
   */
  lemma MemberRowOfLink(blanks: string, name: string, login: string, slash: string, rest: string)
    requires All(IsBlank, blanks) && name != "" && ']' !in name
    requires login != "" && All(IsLoginChar, login) && (slash == "" || slash == "/")
    ensures MemberRow("|" + blanks + "[" + name + "](" + ("https://" + (HOST + login + slash)) + ")" + rest) ==
            Some(Member(Trim(name), login))
  {
    var url := "https://" + (HOST + login + slash);
    assert ')' !in login;
    assert forall c :: c in url ==> c in "https://" || c in HOST || c in login || c in slash;
    MemberLinkOfLink(blanks, name, url, rest);
    ProfileOfUrl(login, slash);
  }

  lemma ProfileHasOneDot(s: string)
    requires Profile(s).Some?
    ensures |s| > |HOST| && forall k :: 0 <= k < |s| ==> (s[k] == '.' <==> k == 6)
  {
    var rest := s[|HOST|..];
    assert s == HOST + rest;
    assert forall k :: 0 <= k < |rest| ==> IsLoginChar(rest[k]) || rest[k] == '/';
  }

  /** The pattern has at most one match in a URL, so taking the last of all matches takes the only one. */
  lemma OneProfile(url: string, i: nat, j: nat)
    requires i <= j <= |url| && Profile(url[i..]).Some? && Profile(url[j..]).Some?
    ensures i == j
  {
    ProfileHasOneDot(url[i..]);
    ProfileHasOneDot(url[j..]);
    assert url[j..][6] == url[j + 6] == url[i..][j - i + 6];
  }

  // ----- Lines -----

  lemma {:induction false} LinesAppend(a: string, b: string)
    ensures Lines(a + "\n" + b) == Lines(a) + Lines(b)
  {
    var i := IndexOf('\n', a);
    IndexOfBound('\n', a);
    if i == |a| {
      IndexOfFirst('\n', a, b);
      assert a + "\n" + b == a + ['\n'] + b;
      assert (a + "\n" + b)[..|a|] == a;
      assert (a + "\n" + b)[|a| + 1..] == b;
    } else {
      var u, v := a[..i], a[i + 1..];
      assert a == u + ['\n'] + v;
      IndexOfFirst('\n', u, v + "\n" + b);
      assert a + "\n" + b == u + ['\n'] + (v + "\n" + b);
      assert (a + "\n" + b)[..i] == u;
      assert (a + "\n" + b)[i + 1..] == v + "\n" + b;
      LinesAppend(v, b);
    }
  }

  lemma {:induction false} IndexOfBound(c: char, s: string)
    ensures c !in s[..IndexOf(c, s)]
    ensures IndexOf(c, s) < |s| ==> s[IndexOf(c, s)] == c
  {
    if s == "" || s[0] == c {
    } else {
      IndexOfBound(c, s[1..]);
      var i := IndexOf(c, s);
      assert s[..i] == [s[0]] + s[1..][..i - 1];
    }
  }
}
