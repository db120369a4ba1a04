/** `crates/lib/utils/src/label.rs`: build-target labels `@repo//pkg:name`
    and the validation of their repository part. A repository name must match
    `^@[\w\-.][\w\-.~]*$` and occur in the label it was taken from. `\w` is
    taken to be the ASCII word characters `[A-Za-z0-9_]`. */
module Label {
  import opened Wrappers

  /** `\w`, ASCII only. */
  predicate IsWordChar(c: char)
  {
    ('a' <= c <= 'z') || ('A' <= c <= 'Z') || ('0' <= c <= '9') || c == '_'
  }

  /** `[\w\-.]`, the class of the character after `@`. */
  predicate IsFirstNameChar(c: char)
  {
    IsWordChar(c) || c == '-' || c == '.'
  }

  /** `[\w\-.~]`, the class of every later character. */
  predicate IsNameChar(c: char)
  {
    IsFirstNameChar(c) || c == '~'
  }

  /** The strings the pattern `^@[\w\-.][\w\-.~]*$` describes. */
  ghost predicate RepoShape(s: string)
  {
    && |s| >= 2
    && s[0] == '@'
    && IsFirstNameChar(s[1])
    && forall i :: 2 <= i < |s| ==> IsNameChar(s[i])
  }

  /** The pattern compiled to a deterministic automaton. */
  datatype MatchState = Start | AfterAt | InName | Dead

  function Next(q: MatchState, c: char): MatchState
  {
    match q
    case Start => if c == '@' then AfterAt else Dead
    case AfterAt => if IsFirstNameChar(c) then InName else Dead
    case InName => if IsNameChar(c) then InName else Dead
    case Dead => Dead
  }

  function Run(q: MatchState, s: string): MatchState
    decreases |s|
  {
    if |s| == 0 then q else Run(Next(q, s[0]), s[1..])
  }

  lemma {:induction false} DeadStaysDead(s: string)
    ensures Run(Dead, s) == Dead
    decreases |s|
  {
    if |s| > 0 {
      DeadStaysDead(s[1..]);
    }
  }

  lemma {:induction false} RunInName(s: string)
    ensures Run(InName, s) == InName <==> forall i :: 0 <= i < |s| ==> IsNameChar(s[i])
    decreases |s|
  {
    if |s| > 0 {
      RunInName(s[1..]);
      if !IsNameChar(s[0]) {
        DeadStaysDead(s[1..]);
      } else {
        assert forall i :: 1 <= i < |s| ==> s[i] == s[1..][i - 1];
      }
    }
  }

  /** `LABEL_REPO_RE.is_match`: the automaton accepts exactly the strings the
      pattern describes. */
  function IsRepoMatch(s: string): (b: bool)
    ensures b <==> RepoShape(s)
  {
    var accepted := Run(Start, s) == InName;
    if |s| == 0 then accepted
    else if s[0] != '@' then
      DeadStaysDead(s[1..]);
      accepted
    else if |s| == 1 then
      assert Run(Start, s) == Run(AfterAt, s[1..]) == AfterAt;
      accepted
    else if !IsFirstNameChar(s[1]) then
      assert s[1..][1..] == s[2..];
      assert Run(Start, s) == Run(AfterAt, s[1..]) == Run(Dead, s[2..]);
      DeadStaysDead(s[2..]);
      accepted
    else
      assert s[1..][1..] == s[2..];
      assert Run(Start, s) == Run(AfterAt, s[1..]) == Run(InName, s[2..]);
      RunInName(s[2..]);
      assert forall i :: 2 <= i < |s| ==> s[i] == s[2..][i - 2];
      accepted
  }

  predicate OccursAt(hay: string, needle: string, i: nat)
  {
    i + |needle| <= |hay| && hay[i..i + |needle|] == needle
  }

  /** `str::contains`: the needle occurs somewhere in the haystack. */
  function Contains(hay: string, needle: string): (b: bool)
    ensures b <==> exists i: nat :: OccursAt(hay, needle, i)
    decreases |hay|
  {
    if |needle| > |hay| then
      false
    else if hay[..|needle|] == needle then
      assert OccursAt(hay, needle, 0);
      true
    else
      var found := Contains(hay[1..], needle);
      assert found ==> OccursAt(hay, needle, (var i: nat :| OccursAt(hay[1..], needle, i); i) + 1);
      assert (exists i: nat :: OccursAt(hay, needle, i)) ==> found by {
        if exists i: nat :: OccursAt(hay, needle, i) {
          var i: nat :| OccursAt(hay, needle, i);
          assert i > 0;
          assert OccursAt(hay[1..], needle, i - 1);
        }
      }
      found
  }

  /** `str::len`: the UTF-8 length in bytes. */
  function Utf8Len(s: string): (n: nat)
    ensures n >= |s|
    decreases |s|
  {
    if |s| == 0 then 0 else Utf8Width(s[0]) + Utf8Len(s[1..])
  }

  function Utf8Width(c: char): (n: nat)
    ensures 1 <= n <= 4
  {
    if c as int < 0x80 then 1 else if c as int < 0x800 then 2 else if c as int < 0x1_0000 then 3 else 4
  }

  /** A string of ASCII characters is as long in bytes as in characters. */
  lemma {:induction false} AsciiUtf8Len(s: string)
    requires forall i :: 0 <= i < |s| ==> s[i] as int < 0x80
    ensures Utf8Len(s) == |s|
    decreases |s|
  {
    if |s| > 0 {
      assert forall i :: 0 <= i < |s[1..]| ==> s[1..][i] == s[i + 1];
      AsciiUtf8Len(s[1..]);
    }
  }

  /** `Repo`: a repository name such as `@foo`. Its display is the name. */
  datatype Repo = Repo(name: string)

  function DisplayRepo(r: Repo): string
  {
    r.name
  }

  /** `miette::SourceSpan`: an offset and a length, in bytes. */
  datatype SourceSpan = SourceSpan(offset: nat, length: nat)

  /** The `SyntaxError` variants this file raises. */
  datatype SyntaxError =
    | InvalidRepoName(text: string, repo: string, span: SourceSpan)
    | InvalidLabel(text: string, span: SourceSpan)

  /** `Repo::parse`: accept `repo` iff it matches the repository pattern and
      occurs in `label`; the error names both and spans `repo`'s bytes from
      offset 0. */
  function Parse(text: string, repo: string): (r: Result<Repo, SyntaxError>)
    ensures r.Ok? <==> RepoShape(repo) && exists i: nat :: OccursAt(text, repo, i)
    ensures r.Ok? ==> r.value == Repo(repo) && DisplayRepo(r.value) == repo
    ensures r.Err? ==> r.error == InvalidRepoName(text, repo, SourceSpan(0, Utf8Len(repo)))
  {
    if !IsRepoMatch(repo) || !Contains(text, repo) then
      Err(InvalidRepoName(text, repo, SourceSpan(0, Utf8Len(repo))))
    else Ok(Repo(repo))
  }

  /** `Repo::new`: the same as `Repo::parse`. */
  function New(text: string, repo: string): (r: Result<Repo, SyntaxError>)
    ensures r == Parse(text, repo)
  {
    Parse(text, repo)
  }

  /** Every accepted repository name is `@` and at least one more character,
      and `~` may not be that next character. */
  lemma AcceptedRepoShape(text: string, repo: string)
    requires Parse(text, repo).Ok?
    ensures |repo| >= 2 && repo[0] == '@' && repo[1] != '~'
    ensures Utf8Len(repo) == |repo|
  {
    forall i | 0 <= i < |repo| ensures repo[i] as int < 0x80 {
      if i >= 1 { NameCharIsAscii(repo[i]); }
    }
    AsciiUtf8Len(repo);
  }

  lemma NameCharIsAscii(c: char)
    requires IsNameChar(c)
    ensures c as int < 0x80
  {
  }

  /** The repository's own test: `@foo` is accepted from `@foo//bar:baz` and
      displays as `@foo`. `~` is refused straight after `@` but allowed later. */
  lemma RepoExamples()
    ensures Parse("@foo//bar:baz", "@foo") == Ok(Repo("@foo"))
    ensures DisplayRepo(Parse("@foo//bar:baz", "@foo").value) == "@foo"
    ensures Parse("@~a", "@~a").Err?
    ensures Parse("@a~", "@a~") == Ok(Repo("@a~"))
  {
    assert OccursAt("@foo//bar:baz", "@foo", 0);
    assert OccursAt("@a~", "@a~", 0);
    assert !IsFirstNameChar("@~a"[1]);
  }

  /** `Label`: `@repo//pkg:name`. */
  datatype Label = Label(repo: Repo, pkg: string, name: string, relative: bool)

  /** `Label`'s display as written: `@{repo}//{pkg}:{name}`. The repository
      name already starts with `@`, so the result starts with `@@`. */
  function DisplayAsWritten(l: Label): string
  {
    "@" + l.repo.name + "//" + l.pkg + ":" + l.name
  }

  /** The display as evidently intended: `{repo}//{pkg}:{name}`. */
  function Display(l: Label): string
  {
    l.repo.name + "//" + l.pkg + ":" + l.name
  }

  /** A `//` starts at position `i`. */
  predicate DelimiterAt(s: string, i: int)
  {
    0 <= i && i + 2 <= |s| && s[i] == '/' && s[i + 1] == '/'
  }

  /** The first piece of `str::split("//")`: everything before the first
      `//`, or the whole string when there is none. */
  function FirstSegment(s: string): (r: string)
    ensures |r| <= |s| && r == s[..|r|]
    ensures r == s || DelimiterAt(s, |r|)
    ensures forall i :: 0 <= i < |r| ==> !DelimiterAt(s, i)
    decreases |s|
  {
    if |s| < 2 then s
    else if s[0] == '/' && s[1] == '/' then ""
    else
      var rest := FirstSegment(s[1..]);
      assert forall i :: 1 <= i <= |rest| ==> (DelimiterAt(s, i) <==> DelimiterAt(s[1..], i - 1));
      [s[0]] + rest
  }

  /** The split stops at the first `//`, which after a slash-free prefix is
      the one that follows it. */
  lemma FirstSegmentOfJoin(x: string, y: string)
    requires forall i :: 0 <= i < |x| ==> x[i] != '/'
    ensures FirstSegment(x + "//" + y) == x
  {
    var s := x + "//" + y;
    assert DelimiterAt(s, |x|);
    assert forall i :: 0 <= i < |x| ==> s[i] == x[i];
  }

  /** What `Label::new` does: split off the text before the first `//` and
      validate it as the repository. Past that point the function is
      unfinished (`todo!()`), so a valid repository is as far as it gets. */
  datatype LabelNewOutcome = Rejected(error: SyntaxError) | Unfinished(repo: Repo)

  function LabelNew(text: string): (r: LabelNewOutcome)
    ensures r.Rejected? <==> New(text, FirstSegment(text)).Err?
    ensures r.Unfinished? ==> r.repo.name == FirstSegment(text) && text[..|r.repo.name|] == r.repo.name
  {
    match New(text, FirstSegment(text))
    case Err(e) => Rejected(e)
    case Ok(repo) => Unfinished(repo)
  }

  lemma RepoHasNoSlash(repo: string)
    requires RepoShape(repo)
    ensures forall i :: 0 <= i < |repo| ==> repo[i] != '/'
  {
  }

  /** `Label::new` rejects every label displayed as written: the text before
      `//` is `@` followed by the repository name, and `@@` fails the pattern. */
  lemma AsWrittenDisplayRejected(l: Label)
    requires RepoShape(l.repo.name)
    ensures LabelNew(DisplayAsWritten(l)).Rejected?
  {
    var head := "@" + l.repo.name;
    assert DisplayAsWritten(l) == head + "//" + (l.pkg + ":" + l.name);
    assert forall i :: 0 <= i < |head| ==> head[i] != '/' by {
      RepoHasNoSlash(l.repo.name);
      assert forall i :: 1 <= i < |head| ==> head[i] == l.repo.name[i - 1];
    }
    FirstSegmentOfJoin(head, l.pkg + ":" + l.name);
    assert head[1] == '@';
  }

  /** The example of the repository's doc comment, displayed as written. */
  lemma AsWrittenDisplayExample()
    ensures DisplayAsWritten(Label(Repo("@foo"), "bar", "baz", false)) == "@@foo//bar:baz"
    ensures LabelNew(DisplayAsWritten(Label(Repo("@foo"), "bar", "baz", false))).Rejected?
  {
    AsWrittenDisplayRejected(Label(Repo("@foo"), "bar", "baz", false));
  }

  /** With the intended display, `Label::new` recovers the label's repository. */
  lemma DisplayRepoRoundTrip(l: Label)
    requires RepoShape(l.repo.name)
    ensures LabelNew(Display(l)) == Unfinished(l.repo)
  {
    var s := Display(l);
    assert s == l.repo.name + "//" + (l.pkg + ":" + l.name);
    RepoHasNoSlash(l.repo.name);
    FirstSegmentOfJoin(l.repo.name, l.pkg + ":" + l.name);
    assert OccursAt(s, l.repo.name, 0);
  }
}
