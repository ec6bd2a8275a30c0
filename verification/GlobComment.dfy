/** The comment over matchGlob: "**" is any text, "*" any text without a slash, anything else itself.  For which
    patterns the matcher does what the comment says. */
module GlobComment {
  import opened Glob
  import opened GlobMeaning

  function CommentTokens(pat: string): seq<Token> {
    if pat == "" then []
    else if "**" <= pat then [AnyText] + CommentTokens(pat[2..])
    else if pat[0] == '*' then [Star] + CommentTokens(pat[1..])
    else [Literal(pat[0])] + CommentTokens(pat[1..])
  }

  predicate CommentMeaning(pat: string, s: string) {
    Matches(CommentTokens(pat), s, false)
  }

  /** The matcher does what the comment says, for every text. */
  ghost predicate FollowsComment(pat: string) {
    forall s :: Matches(Tokens(pat), s, true) <==> CommentMeaning(pat, s)
  }

  /** No "*" stands directly before a "/", and "**" stands only at the end and not behind another "*". */
  predicate Ordinary(pat: string) {
    forall i :: 0 <= i < |pat| - 1 && pat[i] == '*' ==> pat[i + 1] != '/' && (pat[i + 1] == '*' ==> i + 2 == |pat|)
  }

  lemma OrdinaryTail(pat: string)
    requires pat != ""
    ensures Ordinary(pat) ==> Ordinary(pat[1..])
    ensures pat[0] != '*' && Ordinary(pat[1..]) ==> Ordinary(pat)
    ensures |pat| >= 2 && pat[1] != '/' && pat[1] != '*' && Ordinary(pat[1..]) ==> Ordinary(pat)
  {
    var rest := pat[1..];
    assert forall i :: 0 <= i < |rest| ==> rest[i] == pat[i + 1];
    if Ordinary(pat) {
      forall i | 0 <= i < |rest| - 1 && rest[i] == '*'
        ensures rest[i + 1] != '/' && (rest[i + 1] == '*' ==> i + 2 == |rest|)
      {
        assert pat[i + 1] == '*' && pat[i + 1 + 1] == rest[i + 1];
      }
    }
    if Ordinary(rest) && (pat[0] != '*' || (|pat| >= 2 && pat[1] != '/' && pat[1] != '*')) {
      forall i | 0 <= i < |pat| - 1 && pat[i] == '*'
        ensures pat[i + 1] != '/' && (pat[i + 1] == '*' ==> i + 2 == |pat|)
      {
        if i > 0 {
          assert rest[i - 1] == '*' && rest[i - 1 + 1] == pat[i + 1];
        }
      }
    }
  }

  // ---- ordinary patterns ----

  lemma {:induction false} OrdinaryTokens(pat: string)
    requires Ordinary(pat)
    ensures Tokens(pat) == CommentTokens(pat) && Harmless(Tokens(pat), Plain)
    decreases |pat|
  {
    if pat != "" {
      OrdinaryTail(pat);
      if "**" <= pat {
        assert pat[0] == '*' && pat[1] == '*';
        assert pat == "**" && pat[2..] == "";
      } else {
        OrdinaryTokens(pat[1..]);
        if pat[0] == '*' && |pat| > 1 {
          assert pat[0 + 1] != '/' && pat[..2] == [pat[0], pat[1]];
        }
      }
    }
  }

  // ---- other patterns ----

  /** Behind "*" and "**", a slash is needed before anything else. */
  predicate SlashAhead(tokens: seq<Token>) {
    tokens != [] &&
    match tokens[0]
    case AnyText => false
    case Dirs => SlashAhead(tokens[1..])
    case Star => SlashAhead(tokens[1..])
    case Literal(c) => c == '/'
  }

  /** Some "*" has a needed slash ahead of it. */
  predicate StarThenSlash(tokens: seq<Token>) {
    tokens != [] && ((tokens[0].Star? && SlashAhead(tokens[1..])) || StarThenSlash(tokens[1..]))
  }

  lemma {:induction false} LeanSlashAhead(tokens: seq<Token>, s: string)
    requires SlashAhead(tokens) && Matches(tokens, s, true) && Marks(s) == MarksOf(tokens)
    ensures StartsWithSlash(s)
    decreases |tokens|
  {
    var piece, tail := LeanPiece(tokens, s);
    if !tokens[0].Literal? {
      LeanSlashAhead(tokens[1..], tail);
      if piece != "" {
        assert s[0] == piece[0];
      }
    }
  }

  /** Then no text without marks to spare matches. */
  lemma {:induction false} NothingLeanMatches(tokens: seq<Token>, s: string)
    requires StarThenSlash(tokens) && Marks(s) == MarksOf(tokens)
    ensures !Matches(tokens, s, true)
    decreases |tokens|
  {
    if Matches(tokens, s, true) {
      var piece, tail := LeanPiece(tokens, s);
      if StarThenSlash(tokens[1..]) {
        NothingLeanMatches(tokens[1..], tail);
      } else {
        LeanSlashAhead(tokens[1..], tail);
      }
    }
  }

  lemma {:induction false} SkeletonStart(tokens: seq<Token>)
    requires EndsOnly(tokens) && !SlashAhead(tokens)
    ensures !StartsWithSlash(Skeleton(tokens))
    decreases |tokens|
  {
    if tokens != [] && !tokens[0].Literal? {
      assert Skeleton(tokens) == Skeleton(tokens[1..]);
      if tokens[0].AnyText? {
        assert tokens[1..] == [];
      } else {
        SkeletonStart(tokens[1..]);
      }
    }
  }

  lemma {:induction false} SkeletonMatches(tokens: seq<Token>)
    requires EndsOnly(tokens) && !StarThenSlash(tokens)
    ensures Matches(tokens, Skeleton(tokens), true)
    decreases |tokens|
  {
    if tokens != [] {
      var rest := tokens[1..];
      SkeletonMatches(rest);
      if tokens[0].Star? {
        SkeletonStart(rest);
      }
      PrependPiece(tokens, if tokens[0].Literal? then [tokens[0].c] else "", Skeleton(rest), true);
    }
  }

  /** The characters of the pattern other than asterisks. */
  function PlainText(pat: string): string {
    if pat == "" then "" else (if pat[0] == '*' then "" else [pat[0]]) + PlainText(pat[1..])
  }

  lemma {:induction false} CommentSkeleton(pat: string)
    ensures Skeleton(CommentTokens(pat)) == PlainText(pat)
    decreases |pat|
  {
    if pat != "" {
      if "**" <= pat {
        CommentSkeleton(pat[2..]);
        assert pat[0] == '*' && pat[1] == '*' && pat[1..][1..] == pat[2..];
      } else {
        CommentSkeleton(pat[1..]);
      }
      assert CommentTokens(pat)[1..] == CommentTokens(if "**" <= pat then pat[2..] else pat[1..]);
    }
  }

  lemma {:induction false} ConsSkeleton(t: Token, ts: seq<Token>)
    ensures Skeleton([t] + ts) == (if t.Literal? then [t.c] else "") + Skeleton(ts)
    ensures MarksOf([t] + ts) == MarkOf(t) + MarksOf(ts)
  {
    assert ([t] + ts)[1..] == ts;
  }

  lemma {:induction false} ConsMarks(c: char, s: string)
    ensures Marks([c] + s) == (if c != '/' then 1 else 0) + Marks(s)
  {
    assert ([c] + s)[1..] == s;
  }

  /** The matcher needs the same marks as the comment, and one slash less for every "**" with a slash. */
  lemma {:induction false} TokenSkeleton(pat: string)
    ensures MarksOf(Tokens(pat)) == Marks(PlainText(pat)) && |Skeleton(Tokens(pat))| <= |PlainText(pat)|
    ensures Dirs in Tokens(pat) ==> |Skeleton(Tokens(pat))| < |PlainText(pat)|
    decreases |pat|
  {
    if pat == "" {
    } else if pat == "**" {
      assert pat[1..] == "*" && "*"[1..] == "";
    } else if "**/" <= pat {
      TokenSkeleton(pat[3..]);
      assert pat[0] == '*' && pat[1] == '*' && pat[2] == '/';
      assert pat[1..][1..] == pat[2..] && pat[2..][1..] == pat[3..];
      assert PlainText(pat) == PlainText(pat[1..]) == PlainText(pat[2..]) == ['/'] + PlainText(pat[3..]);
      ConsSkeleton(Dirs, Tokens(pat[3..]));
      ConsMarks('/', PlainText(pat[3..]));
    } else {
      hide Skeleton, MarksOf, Marks;
      TokenSkeleton(pat[1..]);
      ConsSkeleton(if pat[0] == '*' then Star else Literal(pat[0]), Tokens(pat[1..]));
      ConsMarks(pat[0], PlainText(pat[1..]));
      assert "" + PlainText(pat[1..]) == PlainText(pat[1..]);
    }
  }

  lemma {:induction false} AtLeastSkeleton(tokens: seq<Token>, s: string, strict: bool)
    requires Matches(tokens, s, strict)
    ensures |s| >= |Skeleton(tokens)|
    decreases |tokens|
  {
    if tokens != [] {
      var piece, tail := HeadPiece(tokens, s, strict);
      AtLeastSkeleton(tokens[1..], tail, strict);
    }
  }

  /** The comment accepts the plain text with more in the place of a first "**", and what is in front of that. */
  lemma CommentStar(pat: string, piece: string, tail: string)
    requires pat != "" && pat[0] == '*'
    requires if "**" <= pat then CommentMeaning(pat[2..], tail) else '/' !in piece && CommentMeaning(pat[1..], tail)
    ensures CommentMeaning(pat, piece + tail)
  {
    hide Matches;
    assert CommentTokens(pat)[1..] == CommentTokens(if "**" <= pat then pat[2..] else pat[1..]);
    PrependPiece(CommentTokens(pat), piece, tail, false);
  }

  lemma {:induction false} PlainTextStands(pat: string)
    ensures CommentMeaning(pat, PlainText(pat))
  {
    SkeletonStands(CommentTokens(pat));
    CommentSkeleton(pat);
  }

  /** A "**" in the middle: a text the comment accepts there and the matcher does not. */
  lemma {:induction false} MiddleDouble(pat: string) returns (w: string)
    requires !Ordinary(pat) && !StarThenSlash(Tokens(pat)) && Dirs !in Tokens(pat)
    ensures CommentMeaning(pat, w) && Marks(w) == MarksOf(Tokens(pat)) && !Matches(Tokens(pat), w, true)
    decreases |pat|
  {
    hide Matches;
    var rest := pat[1..];
    OrdinaryTail(pat);
    if "**" <= pat {
      var tail := PlainText(pat[2..]);
      w := "/" + tail;
      PlainTextStands(pat[2..]);
      CommentStar(pat, "/", tail);
      TokenSkeleton(pat);
      assert pat[0] == '*' && pat[1] == '*' && rest[1..] == pat[2..];
      assert PlainText(pat) == PlainText(rest) == tail;
      ConsMarks('/', tail);
      HeadOfDouble(pat);
      NotBehindStar(Tokens(pat), w);
    } else if pat[0] == '*' {
      assert Tokens(pat)[1..] == Tokens(rest) && forall t :: t in Tokens(rest) ==> t in Tokens(pat);
      SingleStar(pat);
      w := MiddleDouble(rest);
      assert "" + w == w;
      CommentStar(pat, "", w);
      NotBehindStar(Tokens(pat), w);
    } else {
      var c := pat[0];
      assert Tokens(pat) == [Literal(c)] + Tokens(rest) && Tokens(pat)[1..] == Tokens(rest);
      var v := MiddleDouble(rest);
      w := [c] + v;
      assert CommentTokens(pat) == [Literal(c)] + CommentTokens(rest) && CommentTokens(pat)[1..] == CommentTokens(rest);
      PrependPiece(CommentTokens(pat), [c], v, false);
      ConsMarks(c, v);
      NotBehindLiteral(Tokens(pat), v);
    }
  }

  lemma {:induction false} HeadOfDouble(pat: string)
    requires "**" <= pat && !Ordinary(pat)
    ensures Tokens(pat) != [] && Tokens(pat)[0] == if "**/" <= pat then Dirs else Star
  {
    assert pat[0] == '*' && Ordinary("**");
  }

  lemma {:induction false} SingleStar(pat: string)
    requires pat != "" && pat[0] == '*' && !("**" <= pat) && !Ordinary(pat) && !StarThenSlash(Tokens(pat))
    ensures !Ordinary(pat[1..])
  {
    OrdinaryTail(pat);
    if |pat| >= 2 {
      assert pat[..2] == [pat[0], pat[1]];
      if pat[1] == '/' {
        assert Tokens(pat)[1..] == Tokens(pat[1..]) && Tokens(pat[1..])[0] == Literal('/');
      }
    }
  }

  lemma {:induction false} LeanStar(tokens: seq<Token>, w: string)
    requires tokens != [] && tokens[0] == Star && Marks(w) == MarksOf(tokens) && Matches(tokens, w, true)
    ensures Matches(tokens[1..], w, true) && !StartsWithSlash(w)
  {
    hide Matches;
    var piece, tail := LeanPiece(tokens, w);
    assert "" + tail == tail;
  }

  lemma {:induction false} NotBehindStar(tokens: seq<Token>, w: string)
    requires tokens != [] && tokens[0] == Star && Marks(w) == MarksOf(tokens)
    requires StartsWithSlash(w) || !Matches(tokens[1..], w, true)
    ensures !Matches(tokens, w, true)
  {
    if Matches(tokens, w, true) {
      LeanStar(tokens, w);
    }
  }

  lemma {:induction false} BehindLiteral(tokens: seq<Token>, v: string)
    requires tokens != [] && tokens[0].Literal? && Matches(tokens, [tokens[0].c] + v, true)
    ensures Matches(tokens[1..], v, true)
  {
    var w := [tokens[0].c] + v;
    var piece, tail := HeadPiece(tokens, w, true);
    assert w[1..] == v && tail == w[1..];
  }

  lemma {:induction false} NotBehindLiteral(tokens: seq<Token>, v: string)
    requires tokens != [] && tokens[0].Literal? && !Matches(tokens[1..], v, true)
    ensures !Matches(tokens, [tokens[0].c] + v, true)
  {
    if Matches(tokens, [tokens[0].c] + v, true) {
      BehindLiteral(tokens, v);
    }
  }

  /** The matcher follows the comment exactly on ordinary patterns. */
  lemma FollowsCommentIff(pat: string)
    ensures FollowsComment(pat) <==> Ordinary(pat)
  {
    hide Matches, Tokens, CommentTokens;
    TokensEndOnly(pat);
    CommentSkeleton(pat);
    TokenSkeleton(pat);
    PlainTextStands(pat);
    if Ordinary(pat) {
      OrdinaryTokens(pat);
      MeansItsTokensIff(pat);
    } else if StarThenSlash(Tokens(pat)) {
      NothingLeanMatches(Tokens(pat), PlainText(pat));
    } else if Dirs in Tokens(pat) {
      SkeletonMatches(Tokens(pat));
      var w := Skeleton(Tokens(pat));
      if CommentMeaning(pat, w) {
        AtLeastSkeleton(CommentTokens(pat), w, false);
      }
    } else {
      var w := MiddleDouble(pat);
    }
  }

  // ---- patterns the comment and the matcher read differently ----

  lemma {:induction false} TokensOfPlain(c: char, rest: string)
    requires c != '*'
    ensures Tokens([c] + rest) == [Literal(c)] + Tokens(rest)
              && CommentTokens([c] + rest) == [Literal(c)] + CommentTokens(rest)
  {
    assert ([c] + rest)[0] == c && ([c] + rest)[1..] == rest;
  }

  lemma {:induction false} TokensOfStar(rest: string)
    requires rest == "" || rest[0] != '*'
    ensures Tokens("*" + rest) == [Star] + Tokens(rest) && CommentTokens("*" + rest) == [Star] + CommentTokens(rest)
  {
    var pat := "*" + rest;
    assert pat[0] == '*' && pat[1..] == rest && (|pat| > 1 ==> pat[1] == rest[0]);
  }

  lemma TokensOfNothing()
    ensures Tokens("") == [] && CommentTokens("") == []
  {}

  /** A "*" between slashes: "a/x/b" should match and does not. */
  lemma MiddleStarExample()
    ensures CommentMeaning("a/*/b", "a/x/b") && !Matches(Tokens("a/*/b"), "a/x/b", true)
  {
    hide Tokens, CommentTokens, Matches;
    TokensOfNothing();
    TokensOfPlain('b', "");
    TokensOfPlain('/', "b");
    TokensOfStar("/b");
    TokensOfPlain('/', "*/b");
    TokensOfPlain('a', "/*/b");
    assert "b" == ['b'] + "" && "/b" == ['/'] + "b" && "*/b" == "*" + "/b";
    assert "/*/b" == ['/'] + "*/b" && "a/*/b" == ['a'] + "/*/b";
    var tokens := [Literal('a'), Literal('/'), Star, Literal('/'), Literal('b')];
    var pieces := ["a", "/", "x", "/", "b"];
    assert Tokens("a/*/b") == tokens == CommentTokens("a/*/b");
    assert SplitsInto(tokens, pieces, false) && Flatten(pieces) == "a/x/b";
    MatchOfSplit(tokens, pieces, false);
    assert StarBeforeSlash(tokens[2..]) && StarBeforeSlash(tokens[1..]);
    StarSlashMatchesNothing(tokens, "a/x/b");
  }

  lemma {:induction false} AfterDouble(rest: string)
    requires rest != "" && rest[0] != '*'
    ensures CommentTokens("**" + rest) == [AnyText] + CommentTokens(rest)
    ensures Tokens("**" + rest) == if rest[0] == '/' then [Dirs] + Tokens(rest[1..]) else [Star, Star] + Tokens(rest)
  {
    CommentDouble(rest);
    if rest[0] == '/' {
      DoubleThenSlash(rest);
    } else {
      DoubleThenOther(rest);
    }
  }

  lemma {:induction false} CommentDouble(rest: string)
    ensures CommentTokens("**" + rest) == [AnyText] + CommentTokens(rest)
  {
    assert ("**" + rest)[2..] == rest;
  }

  lemma {:induction false} DoubleThenSlash(rest: string)
    requires rest != "" && rest[0] == '/'
    ensures Tokens("**" + rest) == [Dirs] + Tokens(rest[1..])
  {
    var pat := "**" + rest;
    assert pat[3..] == rest[1..] && pat[..3] == "**/";
  }

  lemma {:induction false} DoubleThenOther(rest: string)
    requires rest != "" && rest[0] != '*' && rest[0] != '/'
    ensures Tokens("**" + rest) == [Star, Star] + Tokens(rest)
  {
    var pat := "**" + rest;
    assert pat[1..] == "*" + rest && pat[2] == rest[0];
    assert Tokens(pat) == [Star] + Tokens(pat[1..]);
    hide Tokens;
    TokensOfStar(rest);
  }

  /** A "**" before a letter: "x/a" should match and does not. */
  lemma DoubleBeforeLetterExample()
    ensures CommentMeaning("**a", "x/a") && !Matches(Tokens("**a"), "x/a", true)
  {
    hide Tokens, CommentTokens, Matches;
    TokensOfNothing();
    AfterDouble("a");
    TokensOfPlain('a', "");
    assert "a" == ['a'] + "" && "**a" == "**" + "a";
    assert CommentTokens("**a") == [AnyText, Literal('a')];
    var tokens := [Star, Star, Literal('a')];
    assert Tokens("**a") == tokens && "x/a"[1] == '/';
    assert SplitsInto([AnyText, Literal('a')], ["x/", "a"], false) && Flatten(["x/", "a"]) == "x/a";
    MatchOfSplit([AnyText, Literal('a')], ["x/", "a"], false);
    if Matches(tokens, "x/a", true) {
      TwoStars("x/a");
    }
  }

  lemma {:induction false} TwoStars(s: string)
    requires Matches([Star, Star, Literal('a')], s, true)
    ensures '/' !in s
  {
    hide Matches;
    var tokens := [Star, Star, Literal('a')];
    var p, s1 := HeadPiece(tokens, s, true);
    assert tokens[1..] == [Star, Literal('a')];
    var q, s2 := HeadPiece(tokens[1..], s1, true);
    assert tokens[1..][1..] == [Literal('a')];
    var r, s3 := HeadPiece([Literal('a')], s2, true);
    assert [Literal('a')][1..] == [];
    NoTokens(s3, true);
  }

  /** A "**" with a slash: "x" should not match and does. */
  lemma DoubleWithSlashExample()
    ensures !CommentMeaning("**/x", "x") && Matches(Tokens("**/x"), "x", true)
  {
    hide Tokens, CommentTokens, Matches;
    TokensOfNothing();
    AfterDouble("/x");
    TokensOfPlain('/', "x");
    TokensOfPlain('x', "");
    assert "x" == ['x'] + "" && "/x" == ['/'] + "x" && "/x"[1..] == "x" && "**/x" == "**" + "/x";
    assert Tokens("**/x") == [Dirs, Literal('x')];
    assert SplitsInto([Dirs, Literal('x')], ["", "x"], true) && Flatten(["", "x"]) == "x";
    MatchOfSplit([Dirs, Literal('x')], ["", "x"], true);
    assert CommentTokens("**/x") == [AnyText, Literal('/'), Literal('x')];
    if CommentMeaning("**/x", "x") {
      AtLeastSkeleton(CommentTokens("**/x"), "x", false);
    }
  }
}
