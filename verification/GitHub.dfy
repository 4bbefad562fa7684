/** GitHub pointers: "owner/repo", https and ssh URLs and the scp form all name a host, an owner and a repo. */
module GitHub {
  import opened Strings

  datatype Pointer = Pointer(host: string, owner: string, repo: string)

  datatype Error = Empty | BadScp | UnsupportedScheme(scheme: string) | BadURL | NotOwnerRepo | BadSegment
  datatype Result = Ok(pointer: Pointer) | Err(error: Error)

  predicate Alnum(c: char) {
    'A' <= c <= 'Z' || 'a' <= c <= 'z' || '0' <= c <= '9'
  }

  /** What the segment expression matches: alphanumeric ends, and '_', '.' or '-' allowed between. */
  predicate Segment(s: string) {
    s != "" && Alnum(s[0]) && Alnum(s[|s| - 1])
    && forall i :: 0 <= i < |s| ==> Alnum(s[i]) || s[i] == '_' || s[i] == '.' || s[i] == '-'
  }

  datatype Pieces = Pieces(before: string, after: string, found: bool)

  /** strings.Cut at a character. */
  function Cut(s: string, c: char): Pieces {
    var i := Index(s, c);
    if i < 0 then Pieces(s, "", false) else Pieces(s[..i], s[i + 1..], true)
  }

  /** A pointer without surrounding space, one trailing slash and one ".git". */
  function Trimmed(p: string): string {
    TrimSuffix(TrimSuffix(TrimSpace(p), "/"), ".git")
  }

  function ParseOwnerRepo(host: string, p: string): Result {
    var cut := Cut(p, '/');
    if !cut.found || cut.before == "" || cut.after == "" || '/' in cut.after then Err(NotOwnerRepo)
    else if !Segment(cut.before) || !Segment(cut.after) then Err(BadSegment)
    else Ok(Pointer(host, cut.before, cut.after))
  }

  function ParseTrimmed(p: string): Result {
    if p == "" then Err(Empty)
    else if "git@" <= p then
      var cut := Cut(p[4..], ':');
      if !cut.found || cut.before == "" || cut.after == "" then Err(BadScp) else ParseOwnerRepo(cut.before, cut.after)
    else
      var i := IndexOf(p, "://", 0);
      if i < 0 then ParseOwnerRepo("github.com", p)
      else if p[..i] != "https" && p[..i] != "ssh" then Err(UnsupportedScheme(p[..i]))
      else
        var cut := Cut(p[i + 3..], '/');
        if !cut.found || cut.before == "" || cut.after == "" then Err(BadURL) else ParseOwnerRepo(cut.before, cut.after)
  }

  function ParseGitHubPointer(p: string): Result {
    ParseTrimmed(Trimmed(p))
  }

  function WebURLOf(p: Pointer): string {
    "https" + "://" + p.host + "/" + p.owner + "/" + p.repo
  }

  function CloneURLOf(p: Pointer): string {
    WebURLOf(p) + ".git"
  }

  function CloneURL(p: string): Option<string> {
    var r := ParseGitHubPointer(p);
    if r.Ok? then Some(CloneURLOf(r.pointer)) else None
  }

  function WebURL(p: string): Option<string> {
    var r := ParseGitHubPointer(p);
    if r.Ok? then Some(WebURLOf(r.pointer)) else None
  }

  // ---- Shapes ----

  function URLForm(scheme: string, host: string, path: string): string {
    scheme + "://" + host + "/" + path
  }

  function ScpForm(host: string, path: string): string {
    "git@" + host + ":" + path
  }

  lemma CutAt(a: string, c: char, b: string)
    requires c !in a
    ensures Cut(a + [c] + b, c) == Pieces(a, b, true)
  {
    IndexAt(a, c, b);
  }

  lemma SegmentHasNo(s: string, c: char)
    requires Segment(s) && !Alnum(c) && c != '_' && c != '.' && c != '-'
    ensures c !in s
  {
  }

  /** owner/repo parses as written, whatever the repo part is. */
  lemma OwnerRepoForm(host: string, owner: string, repo: string)
    requires Segment(owner) && '/' !in repo
    ensures ParseOwnerRepo(host, owner + "/" + repo) ==
            if repo == "" then Err(NotOwnerRepo)
            else if Segment(repo) then Ok(Pointer(host, owner, repo)) else Err(BadSegment)
  {
    SegmentHasNo(owner, '/');
    CutAt(owner, '/', repo);
    assert owner + ['/'] + repo == owner + "/" + repo;
  }

  lemma OccursFirst(s: string, pat: string, i: nat)
    requires pat != "" && i < |s|
    ensures OccursAt(s, pat, i) ==> s[i] == pat[0]
  {
    if OccursAt(s, pat, i) {
      assert s[i..i + |pat|][0] == s[i];
    }
  }

  lemma PrefixAt(pat: string, s: string, k: nat)
    requires k < |pat|
    ensures pat <= s ==> k < |s| && s[k] == pat[k]
  {
  }

  lemma SchemeFirst(scheme: string, rest: string)
    requires scheme == "https" || scheme == "ssh"
    ensures IndexOf(scheme + "://" + rest, "://", 0) == |scheme|
    ensures !("git@" <= scheme + "://" + rest)
  {
    var s := scheme + "://" + rest;
    assert OccursAt(s, "://", |scheme|);
    assert s[0] == scheme[0];
    forall j | 0 <= j < |scheme| ensures !OccursAt(s, "://", j) {
      OccursFirst(s, "://", j);
      assert s[j] == scheme[j];
    }
  }

  lemma URLParses(scheme: string, host: string, path: string)
    requires (scheme == "https" || scheme == "ssh") && '/' !in host && path != ""
    ensures ParseTrimmed(URLForm(scheme, host, path)) == if host == "" then Err(BadURL) else ParseOwnerRepo(host, path)
  {
    hide ParseOwnerRepo, OccursAt, Index;
    var rest := host + "/" + path;
    assert URLForm(scheme, host, path) == scheme + "://" + rest;
    SchemeFirst(scheme, rest);
    assert (scheme + "://" + rest)[|scheme| + 3..] == rest;
    CutAt(host, '/', path);
    assert host + ['/'] + path == rest;
  }

  lemma ScpParses(host: string, path: string)
    requires host != "" && ':' !in host && path != ""
    ensures ParseTrimmed(ScpForm(host, path)) == ParseOwnerRepo(host, path)
  {
    hide ParseOwnerRepo, OccursAt, Index, IndexOf;
    var rest := host + ":" + path;
    assert ScpForm(host, path) == "git@" + rest;
    assert ("git@" + rest)[4..] == rest;
    CutAt(host, ':', path);
    assert host + [':'] + path == rest;
  }

  lemma BareParses(owner: string, repo: string)
    requires Segment(owner) && Segment(repo)
    ensures ParseTrimmed(owner + "/" + repo) == Ok(Pointer("github.com", owner, repo))
  {
    var p := owner + "/" + repo;
    SegmentHasNo(owner, '@');
    SegmentHasNo(owner, ':');
    SegmentHasNo(repo, '@');
    SegmentHasNo(repo, ':');
    SegmentHasNo(repo, '/');
    assert '@' !in p && ':' !in p;
    PrefixAt("git@", p, 3);
    forall i: nat | i < |p| ensures !OccursAt(p, "://", i) {
      OccursFirst(p, "://", i);
    }
    OwnerRepoForm("github.com", owner, repo);
  }

  // ---- Trimming ----

  predicate Suffix(s: string) {
    s == "" || s == ".git" || s == "/" || s == ".git/"
  }

  lemma EndsDiffer(body: string)
    requires body != "" && Alnum(body[|body| - 1])
    ensures !HasSuffix(body, "/") && !HasSuffix(body + ".git", "/")
    ensures HasSuffix(body + ".git", ".git") && (body + ".git")[..|body|] == body
    ensures HasSuffix(body + "/", "/") && (body + "/")[..|body|] == body
    ensures HasSuffix(body + ".git/", "/") && (body + ".git/")[..|body| + 4] == body + ".git"
  {
    assert (body + ".git")[|body|..] == ".git";
    assert (body + ".git")[|body| + 3] == 't';
  }

  /** One ".git" and one trailing slash are dropped, and nothing else. */
  lemma TrimmedForm(body: string, suffix: string)
    requires body != "" && !IsSpace(body[0]) && Alnum(body[|body| - 1]) && Suffix(suffix)
    ensures Trimmed(body + suffix) == if suffix == ".git" || suffix == ".git/" then body else TrimSuffix(body, ".git")
  {
    EndsDiffer(body);
    WithSuffix(body, suffix);
    TrimSpaceKeeps(body + suffix);
    hide TrimSpace, IsSpace, Alnum, HasSuffix;
    assert body + "" == body;
  }

  lemma WithSuffix(body: string, suffix: string)
    requires body != "" && !IsSpace(body[0]) && Alnum(body[|body| - 1]) && Suffix(suffix)
    ensures var s := body + suffix; s != "" && !IsSpace(s[0]) && !IsSpace(s[|s| - 1])
  {
    var s := body + suffix;
    assert s[0] == body[0];
    assert if suffix == "" then s[|s| - 1] == body[|body| - 1] else s[|s| - 1] == suffix[|suffix| - 1];
  }

  lemma EndsInGit(head: string, repo: string)
    requires repo != "" && (head == "" || head[|head| - 1] == '/')
    requires '/' !in repo
    ensures HasSuffix(head + repo, ".git") <==> HasSuffix(repo, ".git")
  {
    var s := head + repo;
    if |repo| >= 4 {
      assert s[|s| - 4..] == repo[|repo| - 4..];
    } else if |s| >= 4 {
      assert s[|s| - 4..][4 - |repo| - 1] == head[|head| - 1];
      assert '/' !in ".git";
    }
  }

  // ==== What parses ====

  lemma CutParts(s: string, c: char)
    ensures var cut := Cut(s, c);
            if cut.found then s == cut.before + [c] + cut.after && c !in cut.before else c !in s
  {
  }

  lemma OwnerRepoExactly(host: string, p: string, r: Pointer)
    ensures ParseOwnerRepo(host, p) == Ok(r) <==>
              r.host == host && Segment(r.owner) && Segment(r.repo) && p == r.owner + "/" + r.repo
  {
    hide Segment, Cut;
    CutParts(p, '/');
    if Segment(r.owner) && Segment(r.repo) && p == r.owner + "/" + r.repo {
      NoSlash(r.repo);
      OwnerRepoForm(host, r.owner, r.repo);
      hide ParseOwnerRepo;
      assert r.repo != "" by { SegmentNotEmpty(r.repo); }
    }
  }

  lemma NoSlash(s: string)
    requires Segment(s)
    ensures '/' !in s
  {
    SegmentHasNo(s, '/');
  }

  lemma SegmentNotEmpty(s: string)
    requires Segment(s)
    ensures s != ""
  {
  }

  /** The four forms of a pointer, for a host, an owner and a repo. */
  predicate FormOf(p: string, r: Pointer) {
    var path := r.owner + "/" + r.repo;
    || (r.host == "github.com" && p == path)
    || (r.host != "" && '/' !in r.host && (p == URLForm("https", r.host, path) || p == URLForm("ssh", r.host, path)))
    || (r.host != "" && ':' !in r.host && p == ScpForm(r.host, path))
  }

  lemma URLOf(p: string, i: nat, cut: Pieces)
    requires i <= |p| && OccursAt(p, "://", i) && cut == Cut(p[i + 3..], '/') && cut.found
    ensures p == URLForm(p[..i], cut.before, cut.after) && '/' !in cut.before
  {
    hide Cut;
    CutParts(p[i + 3..], '/');
    assert p == p[..i] + p[i..i + 3] + p[i + 3..];
    assert p == p[..i] + "://" + (cut.before + ['/'] + cut.after);
  }

  lemma ScpOf(p: string, cut: Pieces)
    requires "git@" <= p && cut == Cut(p[4..], ':') && cut.found
    ensures p == ScpForm(cut.before, cut.after) && ':' !in cut.before
  {
    hide Cut;
    CutParts(p[4..], ':');
    assert p == "git@" + (cut.before + [':'] + cut.after);
  }

  lemma ParsedIsForm(p: string, r: Pointer)
    requires ParseTrimmed(p) == Ok(r)
    ensures Segment(r.owner) && Segment(r.repo) && FormOf(p, r)
  {
    hide Segment, Cut, ParseOwnerRepo, OccursAt, URLForm, ScpForm, IndexOf;
    if "git@" <= p {
      var cut := Cut(p[4..], ':');
      ScpOf(p, cut);
      OwnerRepoExactly(cut.before, cut.after, r);
    } else {
      var i := IndexOf(p, "://", 0);
      if i < 0 {
        OwnerRepoExactly("github.com", p, r);
      } else {
        assert i + 3 <= |p| by { OccursInside(p, i); }
        var cut := Cut(p[i + 3..], '/');
        URLOf(p, i, cut);
        OwnerRepoExactly(cut.before, cut.after, r);
      }
    }
  }

  lemma OccursInside(p: string, i: int)
    requires OccursAt(p, "://", i)
    ensures i + 3 <= |p|
  {
  }

  lemma FormParses(p: string, r: Pointer)
    requires Segment(r.owner) && Segment(r.repo) && FormOf(p, r)
    ensures ParseTrimmed(p) == Ok(r)
  {
    hide Segment, ParseTrimmed, ParseOwnerRepo, URLForm, ScpForm;
    var path := r.owner + "/" + r.repo;
    OwnerRepoExactly(r.host, path, r);
    if r.host == "github.com" && p == path {
      BareParses(r.owner, r.repo);
    } else if p == ScpForm(r.host, path) && ':' !in r.host {
      ScpParses(r.host, path);
    } else if p == URLForm("https", r.host, path) {
      URLParses("https", r.host, path);
    } else {
      URLParses("ssh", r.host, path);
    }
  }

  /** A pointer parses exactly when, trimmed, it is one of the four forms of two segments; any other scheme, a host that
      is empty or cut short and a path of other than two segments are errors. */
  lemma ParsesExactly(p: string, r: Pointer)
    ensures ParseGitHubPointer(p) == Ok(r) <==> Segment(r.owner) && Segment(r.repo) && FormOf(Trimmed(p), r)
  {
    hide Segment, FormOf, ParseTrimmed, Trimmed;
    var t := Trimmed(p);
    if ParseTrimmed(t) == Ok(r) {
      ParsedIsForm(t, r);
    }
    if Segment(r.owner) && Segment(r.repo) && FormOf(t, r) {
      FormParses(t, r);
    }
  }

  /** Space around a pointer is ignored. */
  lemma SpaceIgnored(a: string, p: string, b: string)
    requires Spaces(a) && Spaces(b)
    ensures ParseGitHubPointer(a + p + b) == ParseGitHubPointer(p)
  {
    hide Spaces, TrimSpace, ParseTrimmed;
    TrimSpaceAround(a, p, b);
  }

  /** Segments are closed under joining with any run of dots, dashes and underscores, and contain every run of letters
      and digits. */
  lemma SegmentsJoin(a: string, sep: string, b: string)
    requires Segment(a) && Segment(b)
    requires forall i :: 0 <= i < |sep| ==> sep[i] in {'.', '-', '_'}
    ensures Segment(a + sep + b)
  {
    var s := a + sep + b;
    assert s[0] == a[0] && s[|s| - 1] == b[|b| - 1];
  }

  lemma AlnumIsSegment(s: string)
    requires s != "" && forall i :: 0 <= i < |s| ==> 'a' <= s[i] <= 'z' || 'A' <= s[i] <= 'Z' || '0' <= s[i] <= '9'
    ensures Segment(s)
  {
  }

  // ==== Main results ====

  lemma ParsedParts(p: string)
    requires ParseGitHubPointer(p).Ok?
    ensures var r := ParseGitHubPointer(p).pointer; r.host != "" && Segment(r.owner) && Segment(r.repo)
  {
    hide Segment, Cut, IndexOf, Trimmed, OccursAt;
  }

  lemma TooManySlashes(host: string, a: string, b: string)
    requires '/' in b
    ensures ParseOwnerRepo(host, a + "/" + b).Err?
  {
    hide Segment;
    var p := a + "/" + b;
    var cut := Cut(p, '/');
    assert p[|a|] == '/';
    assert |cut.before| <= |a|;
    var n := |a| - |cut.before|;
    assert cut.after[n..] == b;
    var k :| 0 <= k < |b| && b[k] == '/';
    assert cut.after[n + k] == '/';
  }

  /** A URL whose host part contains a slash never parses. */
  lemma SlashInHost(host: string, owner: string, repo: string)
    requires '/' in host
    ensures ParseTrimmed(URLForm("https", host, owner + "/" + repo)).Err?
  {
    hide ParseTrimmed, ParseOwnerRepo, Cut;
    var i := Index(host, '/');
    var a, b := host[i + 1..], owner + "/" + repo;
    assert b[|owner|] == '/';
    TooManySlashes(host[..i], a, b);
    URLParses("https", host[..i], a + "/" + b);
    assert host == host[..i] + "/" + a;
    assert URLForm("https", host, b) == URLForm("https", host[..i], a + "/" + b);
  }

  function Body(p: Pointer): string {
    URLForm("https", p.host, p.owner + "/" + p.repo)
  }

  lemma BodyParses(p: Pointer)
    requires p.host != "" && Segment(p.owner) && '/' !in p.repo
    ensures ParseTrimmed(Body(p)) == Ok(p) <==> '/' !in p.host && Segment(p.repo)
    ensures ParseTrimmed(Body(p)).Ok? ==> ParseTrimmed(Body(p)) == Ok(p)
  {
    if '/' in p.host {
      SlashInHost(p.host, p.owner, p.repo);
    } else {
      URLParses("https", p.host, p.owner + "/" + p.repo);
      OwnerRepoForm(p.host, p.owner, p.repo);
    }
  }

  /** The clone URL of a pointer parses back to the same host, owner and repo exactly when the host has no
      slash. */
  lemma CloneURLRoundTrip(p: string)
    requires ParseGitHubPointer(p).Ok?
    ensures ParseGitHubPointer(CloneURL(p).value) == ParseGitHubPointer(p) <==>
            '/' !in ParseGitHubPointer(p).pointer.host
  {
    var r := ParseGitHubPointer(p).pointer;
    ParsedParts(p);
    SegmentHasNo(r.repo, '/');
    CloneURLTrims(r);
    hide ParseTrimmed, Trimmed, Segment, Cut, IndexOf, OccursAt, CloneURLOf, Body;
    BodyParses(r);
  }

  lemma CloneURLTrims(r: Pointer)
    requires Segment(r.repo)
    ensures Trimmed(CloneURLOf(r)) == Body(r)
  {
    var head := WebURLHead(r);
    BodyOfShort(r, r.repo);
    assert (head + r.repo)[|head + r.repo| - 1] == r.repo[|r.repo| - 1];
    assert (head + r.repo)[0] == head[0];
    assert r.(repo := r.repo) == r;
    hide WebURLHead, Body, WebURLOf, Segment, Trimmed;
    TrimmedForm(head + r.repo, ".git");
  }

  /** The web URL does so exactly when, besides, the repo does not itself end in ".git". */
  lemma WebURLRoundTrip(p: string)
    requires ParseGitHubPointer(p).Ok?
    ensures ParseGitHubPointer(WebURL(p).value) == ParseGitHubPointer(p) <==>
            '/' !in ParseGitHubPointer(p).pointer.host && !HasSuffix(ParseGitHubPointer(p).pointer.repo, ".git")
  {
    var r := ParseGitHubPointer(p).pointer;
    ParsedParts(p);
    WebURLTrims(r);
    var cut := r.(repo := TrimSuffix(r.repo, ".git"));
    hide ParseTrimmed, Trimmed, Segment, IndexOf, Cut, OccursAt;
    BodyParses(cut);
    assert !HasSuffix(r.repo, ".git") <==> cut == r;
  }

  lemma WebURLTrims(r: Pointer)
    requires Segment(r.owner) && Segment(r.repo)
    ensures Trimmed(WebURLOf(r)) == Body(r.(repo := TrimSuffix(r.repo, ".git")))
    ensures '/' !in TrimSuffix(r.repo, ".git") && (!HasSuffix(r.repo, ".git") ==> TrimSuffix(r.repo, ".git") == r.repo)
  {
    SegmentHasNo(r.repo, '/');
    hide Segment, Trimmed, TrimSuffix, IsSpace;
    var head := WebURLHead(r);
    PlainTrims(head, r.repo);
    BodyOfShort(r, TrimSuffix(r.repo, ".git"));
    TrimKeepsOut(r.repo, ".git", '/');
  }

  function WebURLHead(r: Pointer): (head: string)
    ensures head != "" && !IsSpace(head[0]) && head[|head| - 1] == '/'
    ensures WebURLOf(r) == head + r.repo
  {
    "https" + "://" + r.host + "/" + r.owner + "/"
  }

  lemma BodyOfShort(r: Pointer, short: string)
    ensures Body(r.(repo := short)) == WebURLHead(r) + short
  {
  }

  lemma TrimKeepsOut(s: string, suffix: string, c: char)
    requires c !in s
    ensures c !in TrimSuffix(s, suffix) && (!HasSuffix(s, suffix) ==> TrimSuffix(s, suffix) == s)
  {
  }

  lemma PlainTrims(head: string, repo: string)
    requires head != "" && !IsSpace(head[0]) && head[|head| - 1] == '/' && Segment(repo)
    ensures Trimmed(head + repo) == head + TrimSuffix(repo, ".git")
  {
    SegmentHasNo(repo, '/');
    assert head + repo + "" == head + repo;
    TrimmedForm(head + repo, "");
    EndsInGit(head, repo);
    TrimAppended(head, repo, ".git");
  }

  lemma TrimAppended(head: string, s: string, suffix: string)
    requires HasSuffix(head + s, suffix) == HasSuffix(s, suffix)
    ensures TrimSuffix(head + s, suffix) == head + TrimSuffix(s, suffix)
  {
  }

  lemma FormTrims(head: string, repo: string, suffix: string)
    requires head != "" && !IsSpace(head[0]) && head[|head| - 1] == '/'
    requires Segment(repo) && !HasSuffix(repo, ".git") && Suffix(suffix)
    ensures Trimmed(head + repo + suffix) == head + repo
  {
    SegmentHasNo(repo, '/');
    EndsInGit(head, repo);
    TrimmedForm(head + repo, suffix);
  }

  lemma URLFormParses(scheme: string, host: string, owner: string, repo: string, suffix: string)
    requires (scheme == "https" || scheme == "ssh") && host != "" && '/' !in host
    requires Segment(owner) && Segment(repo) && !HasSuffix(repo, ".git") && Suffix(suffix)
    ensures ParseGitHubPointer(URLForm(scheme, host, owner + "/" + repo) + suffix) == Ok(Pointer(host, owner, repo))
  {
    SegmentHasNo(repo, '/');
    var head := scheme + "://" + host + "/" + owner + "/";
    assert URLForm(scheme, host, owner + "/" + repo) == head + repo;
    FormTrims(head, repo, suffix);
    hide ParseTrimmed, ParseOwnerRepo, Trimmed, Segment, Suffix, HasSuffix;
    URLParses(scheme, host, owner + "/" + repo);
    OwnerRepoForm(host, owner, repo);
  }

  lemma ScpFormParses(host: string, owner: string, repo: string, suffix: string)
    requires host != "" && ':' !in host
    requires Segment(owner) && Segment(repo) && !HasSuffix(repo, ".git") && Suffix(suffix)
    ensures ParseGitHubPointer(ScpForm(host, owner + "/" + repo) + suffix) == Ok(Pointer(host, owner, repo))
  {
    SegmentHasNo(repo, '/');
    var head := "git@" + host + ":" + owner + "/";
    assert ScpForm(host, owner + "/" + repo) == head + repo;
    FormTrims(head, repo, suffix);
    hide ParseTrimmed, ParseOwnerRepo, Trimmed, Segment, Suffix, HasSuffix;
    ScpParses(host, owner + "/" + repo);
    OwnerRepoForm(host, owner, repo);
  }

  lemma BareFormParses(owner: string, repo: string, suffix: string)
    requires Segment(owner) && Segment(repo) && !HasSuffix(repo, ".git") && Suffix(suffix)
    ensures ParseGitHubPointer(owner + "/" + repo + suffix) == Ok(Pointer("github.com", owner, repo))
  {
    FormTrims(owner + "/", repo, suffix);
    hide ParseTrimmed, Trimmed, Segment, Suffix, HasSuffix;
    BareParses(owner, repo);
  }

  /** The https, ssh and scp forms of one repository parse alike with or without one ".git" or trailing slash,
      and so does the bare form for github.com. */
  lemma FormsAgree(host: string, owner: string, repo: string, suffix: string)
    requires host != "" && '/' !in host && ':' !in host
    requires Segment(owner) && Segment(repo) && !HasSuffix(repo, ".git") && Suffix(suffix)
    ensures ParseGitHubPointer(URLForm("https", host, owner + "/" + repo) + suffix) == Ok(Pointer(host, owner, repo))
    ensures ParseGitHubPointer(URLForm("ssh", host, owner + "/" + repo) + suffix) == Ok(Pointer(host, owner, repo))
    ensures ParseGitHubPointer(ScpForm(host, owner + "/" + repo) + suffix) == Ok(Pointer(host, owner, repo))
    ensures ParseGitHubPointer(owner + "/" + repo + suffix) == Ok(Pointer("github.com", owner, repo))
  {
    hide ParseGitHubPointer, Segment, Suffix, HasSuffix;
    URLFormParses("https", host, owner, repo, suffix);
    URLFormParses("ssh", host, owner, repo, suffix);
    ScpFormParses(host, owner, repo, suffix);
    BareFormParses(owner, repo, suffix);
  }

  /** A user name in an ssh URL stays in the host, so the form with "git@" never names the repository that the
      https form names. */
  lemma SshUserStaysInHost(host: string, owner: string, repo: string, suffix: string)
    requires host != "" && '/' !in host && Segment(owner) && Segment(repo) && !HasSuffix(repo, ".git") && Suffix(suffix)
    ensures ParseGitHubPointer(URLForm("ssh", "git@" + host, owner + "/" + repo) + suffix) ==
            Ok(Pointer("git@" + host, owner, repo))
    ensures ParseGitHubPointer(URLForm("ssh", "git@" + host, owner + "/" + repo) + suffix) !=
            ParseGitHubPointer(URLForm("https", host, owner + "/" + repo) + suffix)
  {
    hide ParseGitHubPointer, Segment, Suffix, HasSuffix;
    URLFormParses("ssh", "git@" + host, owner, repo, suffix);
    URLFormParses("https", host, owner, repo, suffix);
    assert |"git@" + host| > |host|;
  }
}
