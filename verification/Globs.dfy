/** globmatch: shell globs as selection functions. */
module Globs {
  import opened Indices
  import opened Paths
  import opened Strings
  import opened TarNames
  import opened Selection

  // ----- glob_to_regex

  /** The pieces of a translated glob: an escaped character, [^/], [^/]* and .* with re.S. */
  datatype Token = Lit(c: char) | NotSlash | Star | Stars

  type Regex = seq<Token>

  /** Where the scan for the closing bracket starts: after a negation and after a bracket that comes first. */
  function BracketContent(pat: string, i: nat): (j: nat)
    requires i < |pat|
    ensures i < j
  {
    var j := if i + 1 < |pat| && pat[i + 1] in "!^" then i + 2 else i + 1;
    if j < |pat| && pat[j] == ']' then j + 1 else j
  }

  /** No [ is closed by a ], so that every one is literal. */
  predicate NoBrackets(pat: string) {
    forall i, j :: 0 <= i < |pat| && pat[i] == '[' && BracketContent(pat, i) <= j < |pat| ==> pat[j] != ']'
  }

  /** A ] right after the opening, or after its negation, is content and closes nothing. */
  lemma ClosedBrackets()
    ensures NoBrackets("[") && NoBrackets("[]") && NoBrackets("[a") && NoBrackets("[!]") && NoBrackets("]a[")
    ensures !NoBrackets("[a]") && !NoBrackets("[]]") && !NoBrackets("[!]]") && !NoBrackets("[^a]")
  {
    assert "[a]"[2] == ']' && BracketContent("[a]", 0) == 1;
    assert "[]]"[2] == ']' && BracketContent("[]]", 0) == 2;
    assert "[!]]"[3] == ']' && BracketContent("[!]]", 0) == 3;
    assert "[^a]"[3] == ']' && BracketContent("[^a]", 0) == 2;
  }

  predicate StarsAt(pat: string, i: nat) {
    i + 1 < |pat| && pat[i] == '*' && pat[i + 1] == '*'
  }

  function Token0(pat: string): Token
    requires pat != ""
  {
    if StarsAt(pat, 0) then Stars else if pat[0] == '*' then Star else if pat[0] == '?' then NotSlash else Lit(pat[0])
  }

  function Tokens(pat: string): Regex {
    if pat == "" then [] else [Token0(pat)] + Tokens(pat[if StarsAt(pat, 0) then 2 else 1..])
  }

  /** The pieces of a glob: double stars from the left, and single characters. */
  function Pieces(pat: string): seq<string> {
    if pat == "" then [] else if "**" <= pat then ["**"] + Pieces(pat[2..]) else [pat[..1]] + Pieces(pat[1..])
  }

  /** What a piece stands for: anything, anything without a slash, one character but a slash, itself. */
  predicate Fits(piece: string, s: string) {
    if piece == "**" then true
    else if piece == "*" then '/' !in s
    else if piece == "?" then |s| == 1 && s != "/"
    else s == piece
  }

  function Concat(parts: seq<string>): string {
    if parts == [] then "" else parts[0] + Concat(parts[1..])
  }

  ghost predicate FitTogether(pieces: seq<string>, parts: seq<string>, s: string) {
    |parts| == |pieces| && Concat(parts) == s && forall i :: 0 <= i < |pieces| ==> Fits(pieces[i], parts[i])
  }

  /** The name can be cut into parts that the pieces of the glob stand for, one by one. */
  ghost predicate GlobMatches(pat: string, s: string) {
    exists parts :: FitTogether(Pieces(pat), parts, s)
  }

  /** The expression matches what the glob does. */
  ghost predicate Translates(re: Regex, pat: string) {
    forall s :: Match(re, s) <==> GlobMatches(pat, s)
  }

  lemma TokensTranslate(pat: string)
    ensures Translates(Tokens(pat), pat)
  {
    forall s ensures Match(Tokens(pat), s) <==> GlobMatches(pat, s) { MatchIsGlobMatch(pat, s); }
  }

  method GlobToRegex(pat: string) returns (res: Regex)
    requires NoBrackets(pat)
    ensures res == Tokens(pat) && Translates(res, pat)
  {
    TokensTranslate(pat);
    hide Translates;
    var i, n := 0, |pat|;
    res := [];
    while i < n
      invariant i <= n && res + Tokens(pat[i..]) == Tokens(pat)
    {
      var c := pat[i];
      var rest := pat[i..];
      assert StarsAt(pat, i) <==> StarsAt(rest, 0);
      Assoc(res, [Token0(rest)], Tokens(rest[if StarsAt(rest, 0) then 2 else 1..]));
      i := i + 1;
      if StarsAt(pat, i - 1) {
        res := res + [Stars];
        i := i + 1;
      } else if c == '*' {
        res := res + [Star];
      } else if c == '?' {
        res := res + [NotSlash];
      } else if c == '[' {
        var j := i;
        if j < n && pat[j] in "!^" {
          j := j + 1;
        }
        if j < n && pat[j] == ']' {
          j := j + 1;
        }
        while j < n && pat[j] != ']'
          invariant BracketContent(pat, i - 1) <= j
        {
          j := j + 1;
        }
        assert j >= n;  // interpret the [ literally
        res := res + [Lit('[')];
      } else {
        res := res + [Lit(c)];
      }
    }
  }

  /** The regular expression matches exactly s. */
  predicate Match(re: Regex, s: string)
    decreases |s|, |re|
  {
    if re == [] then s == ""
    else match re[0]
      case Lit(c) => s != "" && s[0] == c && Match(re[1..], s[1..])
      case NotSlash => s != "" && s[0] != '/' && Match(re[1..], s[1..])
      case Star => Match(re[1..], s) || (s != "" && s[0] != '/' && Match(re, s[1..]))
      case Stars => Match(re[1..], s) || (s != "" && Match(re, s[1..]))
  }

  /** What one token matches. */
  predicate TokenMatches(t: Token, s: string) {
    match t
    case Lit(c) => s == [c]
    case NotSlash => |s| == 1 && s[0] != '/'
    case Star => '/' !in s
    case Stars => true
  }

  predicate IsRun(t: Token) { t.Star? || t.Stars? }

  lemma RunCuts(s: string, k: nat)
    requires 0 < k <= |s|
    ensures s[..k] == [s[0]] + s[1..][..k - 1] && s[k..] == s[1..][k - 1..]
  {
  }

  lemma {:induction false} RunSplit(re: Regex, s: string) returns (k: nat)
    requires re != [] && IsRun(re[0]) && Match(re, s)
    ensures k <= |s| && TokenMatches(re[0], s[..k]) && Match(re[1..], s[k..])
    decreases |s|
  {
    k := 0;
    if Match(re[1..], s) {
      assert s[0..] == s;
    } else {
      k := RunSplit(re, s[1..]);
      k := k + 1;
      RunCuts(s, k);
    }
  }

  lemma {:induction false} RunJoin(re: Regex, s: string, k: nat)
    requires re != [] && IsRun(re[0]) && k <= |s| && TokenMatches(re[0], s[..k]) && Match(re[1..], s[k..])
    ensures Match(re, s)
    decreases k
  {
    if k == 0 {
      assert s[0..] == s;
    } else {
      RunCuts(s, k);
      RunJoin(re, s[1..], k - 1);
    }
  }

  lemma MatchFirst(re: Regex, s: string)
    requires re != []
    ensures Match(re, s) <==> exists k :: 0 <= k <= |s| && TokenMatches(re[0], s[..k]) && Match(re[1..], s[k..])
  {
    if IsRun(re[0]) {
      if Match(re, s) { var k := RunSplit(re, s); }
      if k :| 0 <= k <= |s| && TokenMatches(re[0], s[..k]) && Match(re[1..], s[k..]) { RunJoin(re, s, k); }
    } else {
      assert s != "" ==> s[..1] == [s[0]];
      forall k | 0 <= k <= |s| && TokenMatches(re[0], s[..k]) ensures k == 1 { assert |s[..k]| == k; }
    }
  }

  lemma PieceToken(pat: string)
    requires pat != ""
    ensures var n := if "**" <= pat then 2 else 1;
      Pieces(pat) == [pat[..n]] + Pieces(pat[n..]) && Tokens(pat) == [Token0(pat)] + Tokens(pat[n..]) &&
      forall s :: TokenMatches(Token0(pat), s) <==> Fits(pat[..n], s)
  {
    assert "**" <= pat <==> StarsAt(pat, 0);
    assert "**" <= pat ==> pat[..2] == "**";
  }

  lemma FitSplit(pieces: seq<string>, parts: seq<string>, s: string)
    requires pieces != [] && FitTogether(pieces, parts, s)
    ensures parts != []
    ensures var k := |parts[0]|;
      k <= |s| && Fits(pieces[0], s[..k]) && FitTogether(pieces[1..], parts[1..], s[k..])
  {
    assert s == parts[0] + Concat(parts[1..]);
  }

  lemma FitJoin(pieces: seq<string>, later: seq<string>, s: string, k: nat)
    requires pieces != [] && k <= |s| && Fits(pieces[0], s[..k]) && FitTogether(pieces[1..], later, s[k..])
    ensures FitTogether(pieces, [s[..k]] + later, s)
  {
    assert ([s[..k]] + later)[1..] == later && s[..k] + s[k..] == s;
  }

  lemma FitFirst(pieces: seq<string>, s: string)
    requires pieces != []
    ensures (exists parts :: FitTogether(pieces, parts, s)) <==>
            exists k, later :: 0 <= k <= |s| && Fits(pieces[0], s[..k]) && FitTogether(pieces[1..], later, s[k..])
  {
    hide FitTogether;
    if parts :| FitTogether(pieces, parts, s) {
      FitSplit(pieces, parts, s);
    }
    if k, later :| 0 <= k <= |s| && Fits(pieces[0], s[..k]) && FitTogether(pieces[1..], later, s[k..]) {
      FitJoin(pieces, later, s, k);
    }
  }

  /** A translated glob matches exactly what its pieces stand for. */
  lemma {:induction false} MatchIsGlobMatch(pat: string, s: string)
    ensures Match(Tokens(pat), s) <==> GlobMatches(pat, s)
    decreases |pat|
  {
    if pat == "" {
      var none: seq<string> := [];
      assert s == "" ==> FitTogether(Pieces(pat), none, s);
      forall parts | FitTogether(Pieces(pat), parts, s) ensures s == "" { assert parts == none; }
    } else {
      var n := if "**" <= pat then 2 else 1;
      PieceToken(pat);
      MatchFirst(Tokens(pat), s);
      FitFirst(Pieces(pat), s);
      hide Match, Tokens, Pieces, FitTogether, Fits, TokenMatches;
      forall k | 0 <= k <= |s| ensures Match(Tokens(pat[n..]), s[k..]) <==> GlobMatches(pat[n..], s[k..]) {
        MatchIsGlobMatch(pat[n..], s[k..]);
      }
      assert Pieces(pat)[0] == pat[..n] && Pieces(pat)[1..] == Pieces(pat[n..]);
      assert Tokens(pat)[0] == Token0(pat) && Tokens(pat)[1..] == Tokens(pat[n..]);
      forall k | 0 <= k <= |s|
        ensures GlobMatches(pat[n..], s[k..]) <==> exists later :: FitTogether(Pieces(pat)[1..], later, s[k..]) {}
    }
  }

  /** Where $ matches: at the end, and before a final newline. */
  predicate AtEnd(s: string, k: nat) {
    k == |s| || (k + 1 == |s| && s[k] == '\n')
  }

  /** re.match of "^re$" */
  predicate MatchWhole(re: Regex, s: string) {
    exists k :: 0 <= k <= |s| && AtEnd(s, k) && Match(re, s[..k])
  }

  /** re.match of "^re($|/)" */
  predicate MatchOrUnder(re: Regex, s: string) {
    exists k :: 0 <= k <= |s| && (AtEnd(s, k) || s[k] == '/') && Match(re, s[..k])
  }

  // ----- select_fn_from_glob

  /** glob_str.find("**"), or |s| */
  function FindStars(s: string): (p: nat)
    ensures p <= |s| && (p < |s| ==> StarsAt(s, p)) && forall q :: 0 <= q < p ==> !StarsAt(s, q)
  {
    if s == "" || StarsAt(s, 0) then 0
    else
      assert forall q :: 0 < q < |s| ==> (StarsAt(s, q) <==> StarsAt(s[1..], q - 1));
      1 + FindStars(s[1..])
  }

  function TruncateAfterStars(s: string): string {
    if FindStars(s) < |s| then s[..FindStars(s) + 2] else s
  }

  /** _glob_get_prefix_regexs: None for the GlobbingError. */
  function PrefixRegexs(glob: string): Option<seq<Regex>> {
    var parts := Split(glob);
    if |parts| > 2 && "" in parts[1..|parts| - 1] then None
    else Some(seq(|parts|, i requires 0 <= i < |parts| =>
      Tokens(if i == 0 && parts[0] == "" then "/" else Join(parts[..i + 1]))))
  }

  datatype GlobFn = GlobFn(glob: Regex, endsWithSlash: bool, scan: seq<Regex>)

  /** Without its final slash; "/" stands for everything. */
  function Stripped(glob: string): string
    requires glob != ""
  {
    if glob == "/" then "/**" else if EndsWithSlash(glob) then glob[..|glob| - 1] else glob
  }

  function SelectFnFromGlob(glob: string): Option<GlobFn>
    requires glob != "" && NoBrackets(glob)
  {
    match PrefixRegexs(TruncateAfterStars(Stripped(glob)))
    case None => None
    case Some(scan) => Some(GlobFn(Tokens(Stripped(glob)), glob != "/" && EndsWithSlash(glob), scan))
  }

  predicate ValidName(name: string) {
    name != "" && (!EndsWithSlash(name) || name == "/")
  }

  /** test_fn for a glob to include or to exclude. */
  function TestFn(f: GlobFn, incl: bool, name: string, isDir: bool): Opinion
    requires ValidName(name)
  {
    var value := if incl then Include else Exclude;
    if MatchOrUnder(f.glob, name) then
      if f.endsWithSlash && MatchWhole(f.glob, name) && !isDir then Silent else value
    else if incl && exists i :: 0 <= i < |f.scan| && MatchWhole(f.scan[i], name) then Scan
    else Silent
  }

  // ----- an include glob never hides the directories of what it matches

  /** Cutting a matched name before a slash cuts the glob before a slash, or inside its first double star. */
  lemma {:induction false} CutMatch(re: Regex, s: string, j: nat) returns (t: nat)
    requires Match(re, s) && j < |s| && s[j] == '/'
    ensures t < |re| && Stars !in re[..t]
    ensures (re[t] == Lit('/') && Match(re[..t], s[..j])) || (re[t] == Stars && Match(re[..t + 1], s[..j]))
    decreases |s|, |re|
  {
    var rest, cut := s[1..], s[..j];
    if re[0].Stars? {
      t := 0;
      StarsMatchAll(cut);
      assert re[..1] == [Stars];
    } else if re[0].Star? && Match(re[1..], s) {
      t := CutMatch(re[1..], s, j);
      t := t + 1;
      assert re[..t][1..] == re[1..][..t - 1] && re[..t + 1][1..] == re[1..][..t];
    } else if re[0].Star? {
      t := CutMatch(re, rest, j - 1);
      assert cut[1..] == rest[..j - 1];
    } else if j == 0 {
      t := 0;
    } else {
      t := CutMatch(re[1..], rest, j - 1);
      t := t + 1;
      assert cut[1..] == rest[..j - 1];
      assert re[..t][1..] == re[1..][..t - 1] && re[..t + 1][1..] == re[1..][..t];
    }
  }

  lemma {:induction false} StarsMatchAll(s: string)
    ensures Match([Stars], s)
  {
    if s != "" {
      StarsMatchAll(s[1..]);
    }
  }

  lemma TokensHead(g: string, p: nat)
    requires 0 < p <= |g| && !StarsAt(g, 0)
    ensures Tokens(g[..p]) == [Token0(g)] + Tokens(g[1..][..p - 1])
    ensures Tokens(g) == [Token0(g)] + Tokens(g[1..]) && !Token0(g).Stars?
    ensures FindStars(g) == 1 + FindStars(g[1..])
  {
    hide Tokens, FindStars;
    FindStarsHead(g);
    TokensUnfold(g);
    var h := g[..p];
    assert h[0] == g[0] && !StarsAt(h, 0);
    TokensUnfold(h);
    assert h[1..] == g[1..][..p - 1];
  }

  lemma TokensUnfold(g: string)
    requires g != "" && !StarsAt(g, 0)
    ensures Tokens(g) == [Token0(g)] + Tokens(g[1..])
  {
  }

  lemma FindStarsHead(g: string)
    requires g != "" && !StarsAt(g, 0)
    ensures FindStars(g) == 1 + FindStars(g[1..])
  {
  }

  /** The token t of a glob stands at t, where the glob has a slash or its first double star. */
  ghost predicate InStep(g: string, t: nat) {
    && t < |g| && t < |Tokens(g)|
    && (Tokens(g)[t] == Lit('/') ==> g[t] == '/' && Tokens(g[..t]) == Tokens(g)[..t] && t < FindStars(g))
    && (Tokens(g)[t] == Stars ==>
          t == FindStars(g) < |g| && t + 2 <= |g| && Tokens(g[..t + 2]) == Tokens(g)[..t + 1])
  }

  lemma InStepAtStart(g: string)
    requires g != ""
    ensures InStep(g, 0)
  {
    if StarsAt(g, 0) {
      assert g[..2][2..] == "" && Tokens(g[..2]) == [Stars];
    }
  }

  lemma InStepLater(g: string, t: nat)
    requires t > 0 && g != "" && !StarsAt(g, 0) && InStep(g[1..], t - 1)
    ensures InStep(g, t)
  {
    hide Tokens, FindStars, StarsAt;
    TokensHead(g, t);
    if t + 2 <= |g| {
      TokensHead(g, t + 2);
    }
  }

  /** Before the first double star a glob and its tokens run in step. */
  lemma {:induction false} TokensInStep(g: string, t: nat)
    requires t < |Tokens(g)| && Stars !in Tokens(g)[..t]
    ensures InStep(g, t)
  {
    hide InStep;
    if t == 0 {
      InStepAtStart(g);
    } else {
      assert Tokens(g)[0] in Tokens(g)[..t];
      assert Tokens(g[1..])[..t - 1] == Tokens(g)[..t][1..];
      TokensInStep(g[1..], t - 1);
      InStepLater(g, t);
    }
  }

  lemma JoinStep(first: string, later: seq<string>)
    requires later != []
    ensures Join([first] + later) == first + "/" + Join(later)
  {
  }

  lemma {:induction false} JoinSplit(g: string)
    ensures Split(g) != [] && Join(Split(g)) == g
    decreases |g|
  {
    var p := FirstOf(g, '/');
    if p < |g| {
      JoinSplit(g[p + 1..]);
      hide Join;
      JoinStep(g[..p], Split(g[p + 1..]));
      assert g == g[..p] + "/" + g[p + 1..];
    }
  }

  lemma PartsStep(first: string, later: seq<string>, i: nat)
    requires 0 < i <= |later|
    ensures Join(([first] + later)[..i + 1]) == first + "/" + Join(later[..i])
  {
    assert ([first] + later)[..i + 1] == [first] + later[..i];
    JoinStep(first, later[..i]);
  }

  lemma SplitFirst(g: string)
    ensures FirstOf(g, '/') == |g| ==> Split(g) == [g]
    ensures FirstOf(g, '/') < |g| ==> Split(g) == [g[..FirstOf(g, '/')]] + Split(g[FirstOf(g, '/') + 1..])
  {
    hide FirstOf;
  }

  /** Cutting before a slash leaves the first parts. */
  lemma {:induction false} PartsBefore(g: string, t: nat) returns (i: nat)
    requires t < |g| && g[t] == '/'
    ensures i < |Split(g)| && Join(Split(g)[..i + 1]) == g[..t] && (i == 0 ==> Split(g)[0] == g[..t])
    decreases |g|
  {
    hide Split, Join;
    var p := FirstOf(g, '/');
    SplitFirst(g);
    if p == t {
      i := 0;
      assert Split(g)[..1] == [g[..p]];
      OnlyOne(g[..p]);
    } else {
      i := PartsBefore(g[p + 1..], t - p - 1);
      i := i + 1;
      PartsStep(g[..p], Split(g[p + 1..]), i);
    }
  }

  /** The scan expression has the glob up to any slash, and the whole glob. */
  lemma ScanHas(g: string, t: nat)
    requires PrefixRegexs(g).Some? && 0 < t <= |g| && (t == |g| || g[t] == '/')
    ensures Tokens(g[..t]) in PrefixRegexs(g).value
  {
    hide Tokens, Join, Split;
    var i: nat;
    if t < |g| {
      i := PartsBefore(g, t);
    } else {
      JoinSplit(g);
      i := |Split(g)| - 1;
      assert Split(g)[..i + 1] == Split(g) && g[..t] == g;
      assert i == 0 ==> Split(g)[0] == Join(Split(g)) by { OnlyPart(g); }
    }
    assert PrefixRegexs(g).value[i] == Tokens(g[..t]);
  }

  lemma OnlyPart(g: string)
    ensures |Split(g)| == 1 ==> Join(Split(g)) == Split(g)[0]
  {
  }

  /** A file that an include glob matches: every directory above it matches too, or is scanned. */
  lemma IncludedAncestors(glob: string, name: string, isDir: bool, j: nat)
    requires glob != "" && NoBrackets(glob) && SelectFnFromGlob(glob).Some? && ValidName(name)
    requires 0 < j < |name| && name[j] == '/' && ValidName(name[..j])
    requires TestFn(SelectFnFromGlob(glob).value, true, name, isDir) == Include
    ensures TestFn(SelectFnFromGlob(glob).value, true, name[..j], true) in {Include, Scan}
  {
    var f, g, dir := SelectFnFromGlob(glob).value, Stripped(glob), name[..j];
    var k :| 0 <= k <= |name| && (AtEnd(name, k) || name[k] == '/') && Match(f.glob, name[..k]);
    if k <= j {
      assert dir[..k] == name[..k];
      assert MatchOrUnder(f.glob, dir);
      return;
    }
    var t := CutMatch(f.glob, name[..k], j);
    assert name[..k][..j] == dir && dir[..j] == dir;
    TokensInStep(g, t);
    var cut := TruncateAfterStars(g);
    ghost var re := if f.glob[t] == Stars then f.glob[..t + 1] else f.glob[..t];
    if f.glob[t] == Stars {
      assert cut == g[..t + 2];
      ScanHas(cut, t + 2);
      assert cut[..t + 2] == cut;
    } else {
      assert t < |cut| && cut[..t] == g[..t] && cut[t] == '/';
      assert t > 0;
      ScanHas(cut, t);
    }
    assert re in f.scan && MatchWhole(re, dir);
    var i :| 0 <= i < |f.scan| && f.scan[i] == re;
    assert MatchWhole(f.scan[i], dir);
  }

  lemma StarGlob()
    ensures SelectFnFromGlob("*/x") ==
            Some(GlobFn([Star, Lit('/'), Lit('x')], false, [[Star], [Star, Lit('/'), Lit('x')]]))
  {
    var g, whole := "*/x", [Star, Lit('/'), Lit('x')];
    assert Tokens("*") == [Star] && Tokens(g) == whole by {
      assert g[1..] == "/x" && "/x"[1..] == "x";
      assert Tokens("x") == [Lit('x')] && Tokens("/x") == [Lit('/'), Lit('x')];
    }
    assert Split(g) == ["*", "x"] by {
      FirstOfAfter("*", '/', "x");
      FirstOfAfter("x", '/', "");
      assert "*" + "/" + "x" == g && Split("x") == ["x"];
    }
    JoinSplit(g);
    hide Tokens, Join, Split;
    assert ["*", "x"][..1] == ["*"] && ["*", "x"][..2] == ["*", "x"] && ["*", "x"][1..1] == [];
    assert Join(["*"]) == "*" by { OnlyOne("*"); }
    assert FindStars(g) == |g| && Stripped(g) == g && !EndsWithSlash(g);
    var scan := PrefixRegexs(g).value;
    assert |scan| == 2 && scan[0] == [Star] && scan[1] == whole;
    assert scan == [[Star], whole];
  }

  lemma OnlyOne(s: string)
    ensures Join([s]) == s
  {
  }

  /** The root of a file system is the exception: when a star matches nothing before it, it is not scanned. */
  lemma RootNotScanned()
    ensures SelectFnFromGlob("*/x").Some?
    ensures var f := SelectFnFromGlob("*/x").value;
      TestFn(f, true, "/x", false) == Include && TestFn(f, true, "/", true) == Silent
  {
    hide SelectFnFromGlob;
    StarGlob();
    var whole := [Star, Lit('/'), Lit('x')];
    assert Match(whole[1..], "/x") by { assert Match(whole[2..], "x") && whole[1..][1..] == whole[2..]; }
    assert "/x"[..2] == "/x" && Match(whole, "/x"[..2]);
    assert !Match(whole, "") && !Match(whole, "/");
    assert "/"[..0] == "" && "/"[..1] == "/";
    assert !MatchOrUnder(whole, "/") && !MatchWhole([Star], "/");
  }

  // ----- together with Select.Iterate

  /** Path.append on names. */
  function ChildName(name: string, c: Component): string {
    if EndsWithSlash(name) then name + c else name + "/" + c
  }

  function FullName(base: string, names: seq<Component>): string
    decreases |names|
  {
    if names == [] then base else FullName(ChildName(base, names[0]), names[1..])
  }

  /** The verdict on a path when the include glob is the first selection function. */
  ghost predicate Judged(f: GlobFn, name: string, node: Node) {
    ValidName(name) &&
    exists others: seq<Opinion> :: IsVerdict([TestFn(f, true, name, node.isDir)] + others, node.verdict)
  }

  /** The tree has a readable file at base/names that the glob matches, under readable directories. */
  ghost predicate Offers(f: GlobFn, nodes: seq<Node>, base: string, names: seq<Component>)
    decreases |names|, 0
  {
    names != [] && exists n :: n in nodes && n.name == names[0] && OffersAt(f, n, ChildName(base, names[0]), names[1..])
  }

  ghost predicate OffersAt(f: GlobFn, node: Node, name: string, names: seq<Component>)
    decreases |names|, 1
  {
    && Judged(f, name, node) && !node.blocked
    && (if names == [] then TestFn(f, true, name, node.isDir) == Include
        else node.isDir && Offers(f, node.children, name, names))
  }

  lemma FirstOpinionRules(first: Opinion, others: seq<Opinion>, verdict: Opinion)
    requires IsVerdict([first] + others, verdict)
    ensures first.Include? ==> verdict.Include?
    ensures first.Scan? ==> verdict in {Include, Scan}
  {
    var all := [first] + others;
    assert all[0] == first;
    if k :| 0 <= k < |all| && Decides(all[k]) && forall j :: 0 <= j < k ==> !Decides(all[j]) {
      assert first.Scan? ==> k > 0 && all[..k][0] == first;
    }
  }

  lemma {:induction false} EmittedBelow(n: Node, nodes: seq<Node>, at: Index, x: Index)
    requires n in nodes && x in Emit(n, at + [n.name])
    ensures x in EmitAll(nodes, at)
  {
    if nodes[0] != n {
      EmittedBelow(n, nodes[1..], at, x);
    }
  }

  lemma {:induction false} FullNameExtends(base: string, names: seq<Component>)
    requires names != [] && "" !in names
    ensures |base| < |FullName(base, names)| && base == FullName(base, names)[..|base|]
    ensures !EndsWithSlash(base) ==> FullName(base, names)[|base|] == '/'
    decreases |names|
  {
    var name := ChildName(base, names[0]);
    assert name[..|base|] == base;
    if |names| > 1 {
      FullNameExtends(name, names[1..]);
      assert FullName(base, names) == FullName(name, names[1..]);
    } else {
      assert FullName(name, names[1..]) == name;
    }
  }

  lemma {:induction false} OfferedNameMatches(f: GlobFn, nodes: seq<Node>, base: string, names: seq<Component>)
    returns (isDir: bool)
    requires Offers(f, nodes, base, names)
    ensures ValidName(FullName(base, names)) && TestFn(f, true, FullName(base, names), isDir) == Include
    decreases |names|
  {
    hide TestFn;
    var name := ChildName(base, names[0]);
    var n :| n in nodes && n.name == names[0] && OffersAt(f, n, name, names[1..]);
    if names[1..] == [] {
      isDir := n.isDir;
    } else {
      isDir := OfferedNameMatches(f, n.children, name, names[1..]);
    }
  }

  lemma VerdictOnTheWay(glob: string, nodes: seq<Node>, base: string, names: seq<Component>, n: Node)
    requires glob != "" && NoBrackets(glob) && SelectFnFromGlob(glob).Some?
    requires "" !in names && names != [] && Offers(SelectFnFromGlob(glob).value, nodes, base, names)
    requires OffersAt(SelectFnFromGlob(glob).value, n, ChildName(base, names[0]), names[1..])
    ensures if names[1..] == [] then n.verdict == Include else n.verdict in {Include, Scan}
  {
    var f, name := SelectFnFromGlob(glob).value, ChildName(base, names[0]);
    var isDir := OfferedNameMatches(f, nodes, base, names);
    hide TestFn, SelectFnFromGlob, IsVerdict;
    if names[1..] != [] {
      FullNameExtends(name, names[1..]);
      IncludedAncestors(glob, FullName(base, names), isDir, |name|);
    }
    var others: seq<Opinion> :| IsVerdict([TestFn(f, true, name, n.isDir)] + others, n.verdict);
    FirstOpinionRules(TestFn(f, true, name, n.isDir), others, n.verdict);
  }

  lemma EmitHolds(node: Node, at: Index, x: Index)
    requires !node.blocked
    requires x == at || (node.isDir && x in EmitAll(node.children, at))
    requires node.verdict.Include? || (x != at && node.verdict.Scan?)
    ensures x in Emit(node, at)
  {
  }

  /**
   * With an include glob first among the selection functions, every file the glob matches is iterated,
   * whatever the other functions say.
   */
  lemma {:induction false} IncludedFilesAreIterated(
    glob: string, nodes: seq<Node>, base: string, at: Index, names: seq<Component>)
    requires glob != "" && NoBrackets(glob) && SelectFnFromGlob(glob).Some? && "" !in names
    requires Offers(SelectFnFromGlob(glob).value, nodes, base, names)
    ensures at + names in EmitAll(nodes, at)
    decreases |names|
  {
    hide SelectFnFromGlob, Judged, Emit, EmitAll;
    var f, name, sub := SelectFnFromGlob(glob).value, ChildName(base, names[0]), at + [names[0]];
    var n :| n in nodes && n.name == names[0] && OffersAt(f, n, name, names[1..]);
    VerdictOnTheWay(glob, nodes, base, names, n);
    assert at + names == sub + names[1..];
    if names[1..] != [] {
      IncludedFilesAreIterated(glob, n.children, name, sub, names[1..]);
    }
    EmitHolds(n, sub, at + names);
    EmittedBelow(n, nodes, at, at + names);
  }

  /** A folder that is included has its contents included, unless a glob with a final slash matches a plain file. */
  lemma ContentsIncluded(f: GlobFn, dir: string, rest: string, isDir: bool)
    requires ValidName(dir) && dir != "/" && dir[|dir| - 1] != '\n' && ValidName(dir + "/" + rest)
    requires TestFn(f, true, dir, true) == Include
    ensures var name := dir + "/" + rest;
      TestFn(f, true, name, isDir) == Include <==> !(f.endsWithSlash && MatchWhole(f.glob, name) && !isDir)
  {
    var name := dir + "/" + rest;
    var k :| 0 <= k <= |dir| && (AtEnd(dir, k) || dir[k] == '/') && Match(f.glob, dir[..k]);
    assert name[..k] == dir[..k] && name[k] == '/';
  }

  // ----- globs without wildcards

  predicate Literal(g: string) {
    forall c :: c in g ==> c != '*' && c != '?'
  }

  lemma {:induction false} LiteralMatch(g: string, s: string)
    requires Literal(g)
    ensures Match(Tokens(g), s) <==> s == g
  {
    if g != "" {
      assert g[0] in g && !StarsAt(g, 0);
      assert Tokens(g) == [Lit(g[0])] + Tokens(g[1..]) && Tokens(g)[1..] == Tokens(g[1..]);
      if s != "" {
        assert forall c :: c in g[1..] ==> c in g;
        LiteralMatch(g[1..], s[1..]);
        assert s == [s[0]] + s[1..] && g == [g[0]] + g[1..];
      }
    }
  }

  /** The glob up to its parts: cut before a slash, or whole. */
  lemma {:induction false} PartsEnd(g: string, i: nat) returns (t: nat)
    requires i < |Split(g)|
    ensures t <= |g| && Join(Split(g)[..i + 1]) == g[..t] && (t == |g| || g[t] == '/')
    ensures i == 0 ==> Split(g)[0] == g[..t]
    decreases |g|
  {
    hide Split, Join;
    var p := FirstOf(g, '/');
    SplitFirst(g);
    if i == 0 {
      t := p;
      assert g[..|g|] == g;
      assert Split(g)[..1] == [g[..p]];
      OnlyOne(g[..p]);
    } else {
      t := PartsEnd(g[p + 1..], i - 1);
      t := p + 1 + t;
      PartsStep(g[..p], Split(g[p + 1..]), i);
    }
  }

  /** $ also matches before a final newline. */
  predicate Spells(name: string, g: string) {
    name == g || name == g + "\n"
  }

  lemma LiteralWhole(g: string, name: string)
    requires Literal(g)
    ensures MatchWhole(Tokens(g), name) <==> Spells(name, g)
  {
    forall k | 0 <= k <= |name| ensures Match(Tokens(g), name[..k]) <==> name[..k] == g {
      LiteralMatch(g, name[..k]);
    }
    assert name[..|name|] == name;
    if name == g + "\n" { assert name[..|g|] == g; }
  }

  lemma LiteralInclude(g: string, name: string)
    requires Literal(g)
    ensures MatchOrUnder(Tokens(g), name) <==> Spells(name, g) || g + "/" <= name
  {
    LiteralWhole(g, name);
    forall k | 0 <= k <= |name| ensures Match(Tokens(g), name[..k]) <==> name[..k] == g {
      LiteralMatch(g, name[..k]);
    }
    if g + "/" <= name {
      assert name[..|g|] == g && name[|g|] == '/';
    }
    if k :| 0 <= k <= |name| && (AtEnd(name, k) || name[k] == '/') && Match(Tokens(g), name[..k]) {
      if AtEnd(name, k) {
        assert MatchWhole(Tokens(g), name);
      } else {
        assert name[..k + 1] == g + "/";
      }
    }
  }

  predicate DoubleSlashAt(g: string, p: nat) {
    p + 1 < |g| && g[p] == '/' && g[p + 1] == '/'
  }

  ghost predicate HasDoubleSlash(g: string) {
    exists p :: 0 <= p < |g| && DoubleSlashAt(g, p)
  }

  lemma DoubleSlashStep(g: string, p: nat)
    requires p < |g| && p == FirstOf(g, '/')
    ensures HasDoubleSlash(g) <==> HasDoubleSlash(g[p + 1..]) || (p + 1 < |g| && g[p + 1] == '/')
  {
    var later := g[p + 1..];
    forall q | 0 <= q < |later| ensures DoubleSlashAt(later, q) <==> DoubleSlashAt(g, p + 1 + q) {}
    forall q | 0 <= q < |g| && DoubleSlashAt(g, q) ensures q == p || (q > p && DoubleSlashAt(later, q - p - 1)) {}
    if p + 1 < |g| && g[p + 1] == '/' { assert DoubleSlashAt(g, p); }
  }

  /** A part that is empty, but for the last, stands between two slashes or before the first one. */
  lemma {:induction false} EmptyPart(g: string)
    ensures var parts := Split(g);
      parts != [] && ("" in parts[..|parts| - 1] <==> HasDoubleSlash(g) || (g != "" && g[0] == '/'))
    decreases |g|
  {
    var p := FirstOf(g, '/');
    SplitFirst(g);
    if p < |g| {
      var later := g[p + 1..];
      EmptyPart(later);
      DoubleSlashStep(g, p);
      hide Split, HasDoubleSlash, FirstOf;
      var rest := Split(later);
      assert ([g[..p]] + rest)[..|rest|] == [g[..p]] + rest[..|rest| - 1];
    }
  }

  lemma EmptyInside(g: string)
    ensures var parts := Split(g);
      |parts| > 2 && "" in parts[1..|parts| - 1] <==> HasDoubleSlash(g)
  {
    var p := FirstOf(g, '/');
    SplitFirst(g);
    if p < |g| {
      var rest := Split(g[p + 1..]);
      EmptyPart(g[p + 1..]);
      DoubleSlashStep(g, p);
      assert ([g[..p]] + rest)[1..|rest|] == rest[..|rest| - 1];
    }
  }

  /** A glob is refused exactly for two slashes in a row, not counting a final slash or what a double star cuts. */
  lemma GlobRefusedIff(glob: string)
    requires glob != "" && NoBrackets(glob)
    ensures SelectFnFromGlob(glob) == None <==>
            HasDoubleSlash(TruncateAfterStars(Stripped(glob)))
  {
    EmptyInside(TruncateAfterStars(Stripped(glob)));
    hide Split, TruncateAfterStars, Stripped, Tokens, HasDoubleSlash;
  }

  /** The name of a path below base is its components between slashes. */
  lemma {:induction false} FullNameIs(base: string, names: seq<Component>)
    requires names != [] && "" !in names && forall c :: c in names ==> '/' !in c
    ensures FullName(base, names) == (if EndsWithSlash(base) then base else base + "/") + Join(names)
    decreases |names|
  {
    var name := ChildName(base, names[0]);
    var dir := if EndsWithSlash(base) then base else base + "/";
    assert name == dir + names[0];
    if |names| == 1 {
      assert names == [names[0]];
      OnlyOne(names[0]);
    } else {
      assert names == [names[0]] + names[1..];
      JoinStep(names[0], names[1..]);
      hide Join;
      assert names[0] in names && names[0] != "";
      assert name[|name| - 1] == names[0][|names[0]| - 1] && name[|name| - 1] in names[0];
      FullNameIs(name, names[1..]);
      assert dir + names[0] + "/" + Join(names[1..]) == dir + (names[0] + "/" + Join(names[1..]));
    }
  }

  lemma LiteralIsWhole(g: string)
    requires Literal(g)
    ensures FindStars(g) == |g| && TruncateAfterStars(g) == g
  {
    forall q | 0 <= q < |g| ensures !StarsAt(g, q) {
      assert g[q] in g;
    }
  }

  lemma LiteralParts(g: string)
    requires Literal(g)
    ensures Literal("/") && forall t :: 0 <= t <= |g| ==> Literal(g[..t])
  {
    forall t | 0 <= t <= |g| ensures Literal(g[..t]) {
      assert forall c :: c in g[..t] ==> c in g;
    }
  }

  /** A directory above g, or its root. */
  predicate IsAbove(dir: string, g: string) {
    (dir != "" && dir + "/" <= g) || (dir == "/" && "/" <= g)
  }

  lemma ScannedIsAbove(g: string, i: nat, name: string)
    requires g != "" && Literal(g) && PrefixRegexs(g).Some? && i < |PrefixRegexs(g).value|
    requires !Spells(name, g) && MatchWhole(PrefixRegexs(g).value[i], name)
    ensures exists dir :: Spells(name, dir) && IsAbove(dir, g)
  {
    LiteralParts(g);
    hide Tokens, MatchWhole, Join, Split, Literal;
    SplitFirst(g);
    var t := PartsEnd(g, i);
    var q := if i == 0 && Split(g)[0] == "" then "/" else g[..t];
    assert g[..|g|] == g;
    LiteralWhole(q, name);
    assert t < |g|;
    assert g[..t] + "/" == g[..t + 1];
    PartsNotEmpty(g, i);
    assert IsAbove(q, g);
  }

  lemma PartsNotEmpty(g: string, i: nat)
    requires i < |Split(g)|
    ensures i > 0 ==> Join(Split(g)[..i + 1]) != ""
  {
    if i > 0 {
      hide Join, Split;
      PartsStep(Split(g)[0], Split(g)[1..], i);
      assert Split(g) == [Split(g)[0]] + Split(g)[1..];
    }
  }

  /** The directories a literal glob scans: those above it. */
  lemma LiteralScan(g: string, name: string)
    requires g != "" && Literal(g) && PrefixRegexs(g).Some? && !Spells(name, g)
    ensures (exists re :: re in PrefixRegexs(g).value && MatchWhole(re, name)) <==>
            exists dir :: Spells(name, dir) && IsAbove(dir, g)
  {
    var scan := PrefixRegexs(g).value;
    forall i | 0 <= i < |scan| && MatchWhole(scan[i], name) ensures exists dir :: Spells(name, dir) && IsAbove(dir, g) {
      ScannedIsAbove(g, i, name);
    }
    LiteralParts(g);
    hide Tokens, MatchWhole, Join, Split, Literal;
    SplitFirst(g);
    if dir :| Spells(name, dir) && IsAbove(dir, g) {
      assert dir + "/" <= g ==> g[..|dir|] == dir;
      LiteralWhole(dir, name);
      if dir != "" && dir + "/" <= g {
        assert g[|dir|] == '/';
        ScanHas(g, |dir|);
      } else {
        assert g[0] == '/' && scan[0] == Tokens("/");
      }
    }
  }

  /**
   * A glob without wildcards: it includes, or excludes, the path it names and what is under it; to include, it
   * scans what is above it.
   */
  lemma LiteralGlob(glob: string, incl: bool, name: string, isDir: bool)
    requires glob != "" && Literal(glob) && !EndsWithSlash(glob) && NoBrackets(glob)
    requires SelectFnFromGlob(glob).Some? && ValidName(name)
    ensures TestFn(SelectFnFromGlob(glob).value, incl, name, isDir) ==
            if Spells(name, glob) || glob + "/" <= name then if incl then Include else Exclude
            else if incl && exists dir :: Spells(name, dir) && IsAbove(dir, glob) then Scan
            else Silent
  {
    LiteralIsWhole(glob);
    LiteralInclude(glob, name);
    if !Spells(name, glob) {
      LiteralScan(glob, name);
    }
  }

  /** With a slash at its end it includes, or excludes, no plain file of that name. */
  lemma LiteralFolderGlob(glob: string, incl: bool, name: string, isDir: bool)
    requires glob != "" && Literal(glob) && !EndsWithSlash(glob) && NoBrackets(glob + "/")
    requires SelectFnFromGlob(glob + "/").Some? && ValidName(name)
    ensures TestFn(SelectFnFromGlob(glob + "/").value, incl, name, isDir) ==
            if (Spells(name, glob) && isDir) || glob + "/" <= name then if incl then Include else Exclude
            else if incl && !Spells(name, glob) && exists dir :: Spells(name, dir) && IsAbove(dir, glob) then Scan
            else Silent
  {
    assert Stripped(glob + "/") == glob && EndsWithSlash(glob + "/") && glob + "/" != "/";
    LiteralIsWhole(glob);
    LiteralInclude(glob, name);
    LiteralWhole(glob, name);
    if !Spells(name, glob) {
      LiteralScan(glob, name);
    }
  }

  // ----- what any glob selects

  /** An exclude glob excludes what the same glob would include, and says nothing otherwise. */
  lemma ExcludeGlob(f: GlobFn, name: string, isDir: bool)
    requires ValidName(name)
    ensures TestFn(f, false, name, isDir) == if TestFn(f, true, name, isDir) == Include then Exclude else Silent
  {
  }

  /** The name, or a directory above it, is matched. */
  ghost predicate GlobCovers(g: string, name: string) {
    exists k :: 0 <= k <= |name| && (k == |name| || name[k] == '/' || name[k..] == "\n") && GlobMatches(g, name[..k])
  }

  ghost predicate GlobNames(g: string, name: string) {
    exists k :: 0 <= k <= |name| && (k == |name| || name[k..] == "\n") && GlobMatches(g, name[..k])
  }

  lemma CoversIff(g: string, name: string)
    ensures MatchOrUnder(Tokens(g), name) <==> GlobCovers(g, name)
    ensures MatchWhole(Tokens(g), name) <==> GlobNames(g, name)
  {
    hide Match, Tokens, GlobMatches;
    forall k | 0 <= k <= |name|
      ensures Match(Tokens(g), name[..k]) <==> GlobMatches(g, name[..k])
      ensures AtEnd(name, k) <==> k == |name| || name[k..] == "\n"
    {
      MatchIsGlobMatch(g, name[..k]);
    }
  }

  /** The glob up to its first double star. */
  ghost predicate IsCut(g: string, cut: string) {
    if exists p :: 0 <= p < |g| && StarsAt(g, p) then
      exists p :: 0 <= p < |g| && StarsAt(g, p) && (forall q :: 0 <= q < p ==> !StarsAt(g, q)) && cut == g[..p + 2]
    else cut == g
  }

  lemma CutIsCut(g: string)
    requires g != ""
    ensures IsCut(g, TruncateAfterStars(g)) && TruncateAfterStars(g) != ""
  {
  }

  /** The glob cut before a slash, or all of it, names this directory; or the directory is the root. */
  ghost predicate CutNames(cut: string, name: string) {
    || (exists t :: 0 < t <= |cut| && (t == |cut| || cut[t] == '/') && GlobNames(cut[..t], name))
    || ("/" <= cut && (name == "/" || name == "/\n"))
  }

  lemma ScanIff(cut: string, name: string)
    requires cut != "" && PrefixRegexs(cut).Some?
    ensures (exists i :: 0 <= i < |PrefixRegexs(cut).value| && MatchWhole(PrefixRegexs(cut).value[i], name)) <==>
            CutNames(cut, name)
  {
    var scan := PrefixRegexs(cut).value;
    hide Tokens, MatchWhole, GlobNames, Join, Split;
    SplitFirst(cut);
    LiteralWhole("/", name) by { assert Literal("/"); }
    forall i | 0 <= i < |scan| && MatchWhole(scan[i], name) ensures CutNames(cut, name) {
      var t := PartsEnd(cut, i);
      PartsNotEmpty(cut, i);
      if !(i == 0 && Split(cut)[0] == "") {
        CoversIff(cut[..t], name);
        assert t > 0;
      }
    }
    if t :| 0 < t <= |cut| && (t == |cut| || cut[t] == '/') && GlobNames(cut[..t], name) {
      ScanHas(cut, t);
      CoversIff(cut[..t], name);
    }
    if "/" <= cut && (name == "/" || name == "/\n") { assert scan[0] == Tokens("/"); }
  }

  /**
   * Any glob, to include or to exclude: what it selects is what it, without a final slash, matches and what is
   * under that; a final slash leaves out plain files of that name. Only to include it scans the directories that
   * a part of it, up to a slash and not beyond its first double star, matches.
   */
  lemma GlobSelects(glob: string, incl: bool, name: string, isDir: bool)
    requires glob != "" && NoBrackets(glob) && SelectFnFromGlob(glob).Some? && ValidName(name)
    ensures var g := if glob == "/" then "/**" else if glob[|glob| - 1] == '/' then glob[..|glob| - 1] else glob;
      var foldersOnly := glob[|glob| - 1] == '/' && glob != "/";
      exists cut :: IsCut(g, cut) &&
        TestFn(SelectFnFromGlob(glob).value, incl, name, isDir) ==
        if GlobCovers(g, name) then
          if foldersOnly && GlobNames(g, name) && !isDir then Silent else if incl then Include else Exclude
        else if incl && CutNames(cut, name) then Scan
        else Silent
  {
    var g := Stripped(glob);
    var cut := TruncateAfterStars(g);
    CutIsCut(g);
    CoversIff(g, name);
    ScanIff(cut, name);
    hide Tokens, MatchOrUnder, MatchWhole, GlobCovers, GlobNames, CutNames, IsCut, TruncateAfterStars, Join, Split;
    var f := SelectFnFromGlob(glob).value;
    assert f.glob == Tokens(g) && f.scan == PrefixRegexs(cut).value;
  }

  /**
   * Where an exclude glob is the first selection function with an opinion, and the opinion is to exclude, neither
   * the path nor anything under it is iterated.
   */
  lemma ExcludedIsNotIteratedByGlob(
      f: GlobFn, nodes: seq<Node>, at: Index, names: seq<Component>, node: Node, name: string,
      opinions: seq<Opinion>, k: nat, below: seq<Component>)
    requires AllListed(nodes) && LeadTo(nodes, names, node) && IsVerdict(opinions, node.verdict)
    requires ValidName(name) && TestFn(f, true, name, node.isDir) == Include
    requires k < |opinions| && opinions[k] == TestFn(f, false, name, node.isDir)
    requires forall j :: 0 <= j < k ==> opinions[j] == Silent
    ensures at + names + below !in EmitAll(nodes, at)
  {
    ExcludeGlob(f, name, node.isDir);
    assert Decides(opinions[k]);
    ExcludedIsNotIterated(nodes, at, names, node, below);
  }
}
