/** globmatch at the root of a file system: when an include glob does not even scan it. */
module GlobRoot {
  import opened Paths
  import opened TarNames
  import opened Selection
  import opened Globs

  /**
   * The glob starts with a star that has to match nothing before the first slash, and its next component
   * needs a character before any double star in it.
   */
  predicate RootHidden(g: string) {
    && |g| > 2 && g[0] == '*' && g[1] == '/' && g[2] != '/'
    && (g[2] != '*' || (|g| > 3 && g[3] != '*' && g[3] != '/'))
  }

  lemma TokensOfStarSlash(g: string)
    requires |g| >= 2 && g[0] == '*' && g[1] == '/'
    ensures Tokens(g) == [Star, Lit('/')] + Tokens(g[2..])
  {
    TokensUnfold(g);
    TokensUnfold(g[1..]);
    assert g[1..][1..] == g[2..];
  }

  lemma HiddenNoMatch(g: string)
    requires RootHidden(g)
    ensures !MatchOrUnder(Tokens(g), "/") && !MatchWhole(Tokens(g), "/")
  {
    var re, rest := Tokens(g), Tokens(g[2..]);
    TokensOfStarSlash(g);
    assert !Match(Tokens(g[2..]), "");
    assert re[1..] == [Lit('/')] + rest && re[1..][1..] == rest;
    assert !Match(re, "");
    assert "/"[1..] == "";
    assert !Match(re, "/");
    assert "/"[..0] == "" && "/"[..1] == "/";
  }

  lemma LoneStarNoMatch()
    ensures !MatchWhole(Tokens("*"), "/")
  {
    assert "*"[1..] == "";
    TokensUnfold("*");
    assert "/"[..0] == "" && "/"[..1] == "/";
    assert Tokens("*") == [Star];
    assert !Match([], "/") && !Match([Star], "/");
  }

  lemma HiddenIsSilent(glob: string)
    requires glob != "" && NoBrackets(glob) && SelectFnFromGlob(glob).Some? && RootHidden(Stripped(glob))
    ensures TestFn(SelectFnFromGlob(glob).value, true, "/", true) == Silent
  {
    var f, g := SelectFnFromGlob(glob).value, Stripped(glob);
    var cut := TruncateAfterStars(g);
    HiddenNoMatch(g);
    LoneStarNoMatch();
    SplitFirst(cut);
    hide Tokens, MatchWhole, MatchOrUnder, Split, Join, RootHidden;
    assert Split(cut)[0] != "";
    forall i | 0 <= i < |f.scan| ensures !MatchWhole(f.scan[i], "/") {
      var t := PartsEnd(cut, i);
      if cut[..t] != "*" {
        HiddenNoMatch(cut[..t]);
      }
    }
  }

  /** A glob whose translation, or one of whose scan patterns, matches the root. */
  lemma ShownByScan(f: GlobFn, re: Regex)
    requires re in f.scan && Match(re, "/")
    ensures TestFn(f, true, "/", true) != Silent
  {
    assert "/"[..1] == "/";
    assert MatchWhole(re, "/");
    var i :| 0 <= i < |f.scan| && f.scan[i] == re;
    assert MatchWhole(f.scan[i], "/");
  }

  lemma ShownByMatch(f: GlobFn, k: nat)
    requires k <= 1 && Match(f.glob, "/"[..k])
    ensures TestFn(f, true, "/", true) != Silent
  {
    assert MatchOrUnder(f.glob, "/");
  }

  lemma MatchShort(g: string)
    requires g == "*/" || g == "*/*" || g == "*/**"
    ensures Match(Tokens(g), "/")
  {
    TokensOfStarSlash(g);
    var rest := Tokens(g[2..]);
    assert rest == if g == "*/" then [] else if g == "*/*" then [Star] else [Stars] by {
      if g == "*/*" {
        assert g[2..] == "*" && "*"[1..] == "";
        TokensUnfold("*");
      } else if g == "*/**" {
        assert g[2..] == "**" && "**"[2..] == "";
      }
    }
    assert Match(rest, "") by { if rest != [] { assert Match(rest[1..], ""); } }
    var re := Tokens(g);
    assert re[1..] == [Lit('/')] + rest && re[1..][1..] == rest && "/"[1..] == "";
    assert Match(re[1..], "/");
  }

  /** A glob that starts with a star and a slash and is not hidden. */
  lemma StarSlashShown(glob: string)
    requires glob != "" && NoBrackets(glob) && SelectFnFromGlob(glob).Some?
    requires var g := Stripped(glob); |g| >= 2 && g[0] == '*' && g[1] == '/' && !RootHidden(g)
    ensures TestFn(SelectFnFromGlob(glob).value, true, "/", true) != Silent
  {
    var f, g := SelectFnFromGlob(glob).value, Stripped(glob);
    var cut := TruncateAfterStars(g);
    assert !StarsAt(g, 0) && !StarsAt(g, 1);
    if g == "*/" || g == "*/*" {
      MatchShort(g);
      assert "/"[..1] == "/";
      ShownByMatch(f, 1);
    } else {
      var part := NotHiddenPart(g);
      ShownPart(f, cut, part);
    }
  }

  /** The part that shows the root, where the glob goes on after it. */
  lemma NotHiddenPart(g: string) returns (part: string)
    requires |g| > 2 && g[0] == '*' && g[1] == '/' && !RootHidden(g) && g != "*/*"
    ensures part == "*/" || part == "*/*" || part == "*/**"
    ensures var cut := TruncateAfterStars(g);
      |part| <= |cut| && cut[..|part|] == part && (|part| == |cut| || cut[|part|] == '/')
  {
    assert !StarsAt(g, 0) && !StarsAt(g, 1);
    if g[2] == '/' {
      part := "*/";
      assert FindStars(g) > 2;
    } else if StarsAt(g, 2) {
      part := "*/**";
      assert FindStars(g) == 2;
    } else {
      part := "*/*";
      assert g[2] == '*' && g[3] == '/' && !StarsAt(g, 3);
      assert FindStars(g) > 3;
    }
  }

  lemma ShownPart(f: GlobFn, cut: string, part: string)
    requires PrefixRegexs(cut) == Some(f.scan) && (part == "*/" || part == "*/*" || part == "*/**")
    requires |part| <= |cut| && cut[..|part|] == part && (|part| == |cut| || cut[|part|] == '/')
    ensures TestFn(f, true, "/", true) != Silent
  {
    ScanHas(cut, |part|);
    MatchShort(part);
    ShownByScan(f, Tokens(part));
  }

  /** An expression that ends in a double star and matches nothing matches everything. */
  lemma {:induction false} NothingThenAll(re: Regex, s: string)
    requires re != [] && re[|re| - 1] == Stars && Match(re, "")
    ensures Match(re, s)
  {
    if |re| == 1 {
      assert re == [Stars];
      StarsMatchAll(s);
    } else {
      NothingThenAll(re[1..], s);
    }
  }

  /** Without a double star at most one leading token matches the empty string: a star. */
  lemma LeadingStars(g: string, t: nat)
    requires t <= |Tokens(g)| && Stars !in Tokens(g)[..t] && Match(Tokens(g)[..t], "")
    ensures t <= 1 && (t == 1 ==> g != "" && g[0] == '*')
  {
    var re := Tokens(g)[..t];
    if t > 0 {
      assert re[0] == Token0(g) && Token0(g) == Star;
    }
  }

  /** A glob that starts with a slash scans the root. */
  lemma SlashShown(f: GlobFn, cut: string)
    requires cut != "" && cut[0] == '/' && PrefixRegexs(cut) == Some(f.scan)
    ensures TestFn(f, true, "/", true) != Silent
  {
    SplitFirst(cut);
    assert cut[..0] == "";
    assert f.scan[0] == Tokens("/");
    LiteralMatch("/", "/");
    ShownByScan(f, Tokens("/"));
  }

  /**
   * For an include glob that matches an absolute name, the root itself is neither included nor scanned if
   * and only if the glob is one of the hidden ones.
   */
  lemma RootSilentIff(glob: string, name: string, isDir: bool)
    requires glob != "" && NoBrackets(glob) && SelectFnFromGlob(glob).Some? && ValidName(name) && name[0] == '/'
    requires TestFn(SelectFnFromGlob(glob).value, true, name, isDir) == Include
    ensures TestFn(SelectFnFromGlob(glob).value, true, "/", true) == Silent <==> RootHidden(Stripped(glob))
  {
    if RootHidden(Stripped(glob)) {
      HiddenIsSilent(glob);
    } else {
      var f := SelectFnFromGlob(glob).value;
      var k :| 0 <= k <= |name| && (AtEnd(name, k) || name[k] == '/') && Match(f.glob, name[..k]);
      NotHiddenShown(glob, name[..k]);
    }
  }

  lemma NotHiddenShown(glob: string, matched: string)
    requires glob != "" && NoBrackets(glob) && SelectFnFromGlob(glob).Some? && !RootHidden(Stripped(glob))
    requires Match(SelectFnFromGlob(glob).value.glob, matched) && (matched == "" || matched[0] == '/')
    ensures TestFn(SelectFnFromGlob(glob).value, true, "/", true) != Silent
  {
    var f, g := SelectFnFromGlob(glob).value, Stripped(glob);
    var cut := TruncateAfterStars(g);
    if matched == "" {
      assert "/"[..0] == "";
      ShownByMatch(f, 0);
    } else {
      var t := CutMatch(f.glob, matched, 0);
      assert matched[..0] == "";
      TokensInStep(g, t);
      hide TestFn, PrefixRegexs, RootHidden;
      if f.glob[t] == Stars {
        assert cut == g[..t + 2] && cut[..|cut|] == cut;
        NothingThenAll(f.glob[..t + 1], "/");
        ScanHas(cut, |cut|);
        ShownByScan(f, Tokens(cut));
      } else {
        LeadingStars(g, t);
        if t == 0 {
          SlashShown(f, cut);
        } else {
          StarSlashShown(glob);
        }
      }
    }
  }

  /**
   * A double star right after the slash is scanned, whatever its component needs after it: the cut after the
   * double star drops that.
   */
  lemma DoubleStarRootScanned(rest: string)
    requires NoBrackets("*/**" + rest) && SelectFnFromGlob("*/**" + rest).Some?
    ensures TestFn(SelectFnFromGlob("*/**" + rest).value, true, "/", true) != Silent
  {
    StarSlashShown("*/**" + rest);
  }
}
