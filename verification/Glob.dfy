/** internal/policy/policy.go: the glob matcher of policy paths.

    The matcher reads a pattern as tokens.  Its loop over "*" gives up when it reaches a "/" before it
    has tried the rest of the pattern there, so the text of a "*" is never followed by a "/". */
module Glob {

  datatype Token = AnyText | Dirs | Star | Literal(c: char)

  /** A final "**", a "**" before "/", a "*", any other character. */
  function Tokens(pat: string): seq<Token> {
    if pat == "" then []
    else if pat == "**" then [AnyText]
    else if "**/" <= pat then [Dirs] + Tokens(pat[3..])
    else if pat[0] == '*' then [Star] + Tokens(pat[1..])
    else [Literal(pat[0])] + Tokens(pat[1..])
  }

  /** The texts a token stands for. */
  predicate Stands(t: Token, piece: string) {
    match t
    case AnyText => true
    case Dirs => piece == "" || piece[|piece| - 1] == '/'
    case Star => '/' !in piece
    case Literal(c) => piece == [c]
  }

  predicate StartsWithSlash(s: string) {
    s != "" && s[0] == '/'
  }

  /** The strings a pattern stands for: token by token, with the code's extra condition on "*"
      when `strict`. */
  predicate Matches(tokens: seq<Token>, s: string, strict: bool) {
    if tokens == [] then s == ""
    else exists k :: 0 <= k <= |s| && Stands(tokens[0], s[..k]) && Matches(tokens[1..], s[k..], strict)
                     && (strict && tokens[0].Star? ==> !StartsWithSlash(s[k..]))
  }

  // ---- the same as one split of the whole string ----

  function Flatten(pieces: seq<string>): string {
    if pieces == [] then "" else pieces[0] + Flatten(pieces[1..])
  }

  ghost predicate SplitsInto(tokens: seq<Token>, pieces: seq<string>, strict: bool) {
    && |pieces| == |tokens|
    && forall i :: 0 <= i < |tokens| ==>
         Stands(tokens[i], pieces[i]) && (strict && tokens[i].Star? ==> !StartsWithSlash(Flatten(pieces[i + 1..])))
  }

  lemma {:induction false} SplitOfMatch(tokens: seq<Token>, s: string, strict: bool) returns (pieces: seq<string>)
    requires Matches(tokens, s, strict)
    ensures SplitsInto(tokens, pieces, strict) && Flatten(pieces) == s
    decreases |tokens|
  {
    if tokens == [] {
      pieces := [];
    } else {
      var k :| 0 <= k <= |s| && Stands(tokens[0], s[..k]) && Matches(tokens[1..], s[k..], strict)
               && (strict && tokens[0].Star? ==> !StartsWithSlash(s[k..]));
      var rest := SplitOfMatch(tokens[1..], s[k..], strict);
      pieces := [s[..k]] + rest;
      assert pieces[1..] == rest && s == s[..k] + s[k..];
      forall i | 0 <= i < |tokens|
        ensures Stands(tokens[i], pieces[i]) && (strict && tokens[i].Star? ==>
                  !StartsWithSlash(Flatten(pieces[i + 1..])))
      {
        if i > 0 {
          assert pieces[i + 1..] == rest[i..] && tokens[i] == tokens[1..][i - 1] && pieces[i] == rest[i - 1];
        }
      }
    }
  }

  lemma {:induction false} MatchOfSplit(tokens: seq<Token>, pieces: seq<string>, strict: bool)
    requires SplitsInto(tokens, pieces, strict)
    ensures Matches(tokens, Flatten(pieces), strict)
    decreases |tokens|
  {
    if tokens != [] {
      var rest := pieces[1..];
      forall i | 0 <= i < |rest|
        ensures Stands(tokens[1..][i], rest[i]) && (strict && tokens[1..][i].Star? ==>
                  !StartsWithSlash(Flatten(rest[i + 1..])))
      {
        assert rest[i + 1..] == pieces[i + 2..];
      }
      MatchOfSplit(tokens[1..], rest, strict);
      var s, k := Flatten(pieces), |pieces[0]|;
      assert s[..k] == pieces[0] && s[k..] == Flatten(rest);
    }
  }

  /** Matching means: the string splits into pieces the tokens stand for. */
  lemma {:induction false} MatchesIffSplit(tokens: seq<Token>, s: string, strict: bool)
    ensures Matches(tokens, s, strict) <==> exists pieces :: SplitsInto(tokens, pieces, strict) && Flatten(pieces) == s
  {
    if Matches(tokens, s, strict) {
      var pieces := SplitOfMatch(tokens, s, strict);
    }
    if exists pieces :: SplitsInto(tokens, pieces, strict) && Flatten(pieces) == s {
      var pieces :| SplitsInto(tokens, pieces, strict) && Flatten(pieces) == s;
      MatchOfSplit(tokens, pieces, strict);
    }
  }

  // ---- the matcher ----

  method GlobMatch(pattern: string, text: string) returns (matched: bool)
    ensures matched <==> Matches(Tokens(pattern), text, true)
    decreases |pattern|, 0
  {
    var pat, s := pattern, text;
    while |pat| > 0
      invariant |pat| <= |pattern|
      invariant Matches(Tokens(pattern), text, true) <==> Matches(Tokens(pat), s, true)
      decreases |pat|
    {
      if pat == "**" {
        EverythingMatches(s);
        return true;
      }
      if "**/" <= pat {
        matched := MatchDirs(pat[3..], s);
        MatchesCons(Dirs, Tokens(pat[3..]), s);
        assert Tokens(pat) == [Dirs] + Tokens(pat[3..]);
        return;
      }
      if pat[0] == '*' {
        matched := MatchStar(pat[1..], s);
        MatchesCons(Star, Tokens(pat[1..]), s);
        assert Tokens(pat) == [Star] + Tokens(pat[1..]);
        return;
      }
      MatchesLiteral(pat[0], Tokens(pat[1..]), s);
      assert Tokens(pat) == [Literal(pat[0])] + Tokens(pat[1..]);
      if |s| == 0 || pat[0] != s[0] {
        return false;
      }
      pat, s := pat[1..], s[1..];
    }
    return |s| == 0;
  }

  /** Two stars and a slash: the rest here, or after any slash. */
  method MatchDirs(rest: string, s: string) returns (matched: bool)
    ensures matched <==> SomeTail(Dirs, Tokens(rest), s)
    decreases |rest|, 1
  {
    matched := GlobMatch(rest, s);
    if matched {
      assert Tail(Dirs, Tokens(rest), s, 0);
      return;
    }
    for i := 0 to |s|
      invariant forall k :: 0 <= k <= i ==> !Tail(Dirs, Tokens(rest), s, k)
    {
      if s[i] == '/' {
        matched := GlobMatch(rest, s[i + 1..]);
        if matched {
          assert Tail(Dirs, Tokens(rest), s, i + 1);
          return;
        }
      }
    }
    return false;
  }

  /** "*": the rest at every position up to the first slash, not including it. */
  method MatchStar(rest: string, s: string) returns (matched: bool)
    ensures matched <==> SomeTail(Star, Tokens(rest), s)
    decreases |rest|, 1
  {
    var i := 0;
    while i <= |s|
      invariant 0 <= i <= |s| + 1
      invariant forall k :: 0 <= k < i && k <= |s| ==> !Tail(Star, Tokens(rest), s, k)
      invariant forall k :: 0 <= k < i && k < |s| ==> s[k] != '/'
    {
      if i < |s| && s[i] == '/' {
        assert forall k :: i < k <= |s| ==> s[i] in s[..k];
        return false;
      }
      matched := GlobMatch(rest, s[i..]);
      if matched {
        assert Tail(Star, Tokens(rest), s, i);
        return;
      }
      i := i + 1;
    }
    return false;
  }

  /** The head token takes k characters and the rest matches what remains. */
  ghost predicate Tail(head: Token, rest: seq<Token>, s: string, k: int) {
    0 <= k <= |s| && Stands(head, s[..k]) && Matches(rest, s[k..], true) && (head.Star? ==> !StartsWithSlash(s[k..]))
  }

  ghost predicate SomeTail(head: Token, rest: seq<Token>, s: string) {
    exists k :: Tail(head, rest, s, k)
  }

  lemma {:induction false} MatchesCons(head: Token, rest: seq<Token>, s: string)
    ensures Matches([head] + rest, s, true) <==> SomeTail(head, rest, s)
  {
    var ts := [head] + rest;
    assert ts[0] == head && ts[1..] == rest;
    if Matches(ts, s, true) {
      var piece, tail := HeadPiece(ts, s, true);
      assert s[..|piece|] == piece && s[|piece|..] == tail;
      assert Tail(head, rest, s, |piece|);
    }
    if SomeTail(head, rest, s) {
      var k :| Tail(head, rest, s, k);
      assert s[..k] + s[k..] == s;
      PrependPiece(ts, s[..k], s[k..], true);
    }
  }

  /** The text of the first token, and the rest. */
  lemma HeadPiece(tokens: seq<Token>, s: string, strict: bool) returns (piece: string, tail: string)
    requires tokens != [] && Matches(tokens, s, strict)
    ensures s == piece + tail && Stands(tokens[0], piece) && Matches(tokens[1..], tail, strict)
    ensures strict && tokens[0].Star? ==> !StartsWithSlash(tail)
  {
    var k :| 0 <= k <= |s| && Stands(tokens[0], s[..k]) && Matches(tokens[1..], s[k..], strict)
             && (strict && tokens[0].Star? ==> !StartsWithSlash(s[k..]));
    piece, tail := s[..k], s[k..];
  }

  lemma {:induction false} PrependPiece(tokens: seq<Token>, piece: string, tail: string, strict: bool)
    requires tokens != [] && Stands(tokens[0], piece) && Matches(tokens[1..], tail, strict)
    requires strict && tokens[0].Star? ==> !StartsWithSlash(tail)
    ensures Matches(tokens, piece + tail, strict)
  {
    var s, k := piece + tail, |piece|;
    assert s[..k] == piece && s[k..] == tail;
  }

  lemma {:induction false} EverythingMatches(s: string)
    ensures Matches([AnyText], s, true)
  {
    assert s[|s|..] == "";
    assert Stands([AnyText][0], s[..|s|]) && Matches([AnyText][1..], s[|s|..], true);
  }

  lemma {:induction false} MatchesLiteral(c: char, rest: seq<Token>, s: string)
    ensures Matches([Literal(c)] + rest, s, true) <==> s != "" && s[0] == c && Matches(rest, s[1..], true)
  {
    MatchesCons(Literal(c), rest, s);
    if s != "" && s[0] == c && Matches(rest, s[1..], true) {
      assert s[..1] == [c];
      assert Tail(Literal(c), rest, s, 1);
    }
  }
}
