/** Where the matcher gives a pattern the meaning of its tokens, without its extra condition on "*". */
module GlobMeaning {
  import opened Glob

  // ---- the condition on patterns ----

  /** How the scan stands within a stretch of tokens that only slashes can be needed for: before any "**" with a
      slash (Plain), behind one (Open), or behind one and a later "*" (Past). */
  datatype Mode = Plain | Open | Past

  /** The tokens may stand for a text that begins with a slash. */
  predicate SlashNext(tokens: seq<Token>) {
    tokens != [] &&
    match tokens[0]
    case AnyText => true
    case Dirs => true
    case Star => SlashNext(tokens[1..])
    case Literal(c) => c == '/'
  }

  /** One pass over the tokens.  A "*" with no "**" and slash before it in its stretch must not stand before a slash,
      and behind a "*" that has one no literal slash may follow in that stretch. */
  predicate Harmless(tokens: seq<Token>, mode: Mode) {
    if tokens == [] then true
    else
      var rest := tokens[1..];
      match tokens[0]
      case AnyText => true
      case Dirs => Harmless(rest, if mode == Past then Past else Open)
      case Star => if mode == Plain then !SlashNext(rest) && Harmless(rest, Plain) else Harmless(rest, Past)
      case Literal(c) => if c != '/' then Harmless(rest, Plain) else mode != Past && Harmless(rest, mode)
  }

  /** "**" without a slash stands only at the end. */
  ghost predicate EndsOnly(tokens: seq<Token>) {
    forall i :: 0 <= i < |tokens| - 1 ==> !tokens[i].AnyText?
  }

  lemma {:induction false} TokensEndOnly(pat: string)
    ensures EndsOnly(Tokens(pat))
    decreases |pat|
  {
    if pat == "" || pat == "**" {
    } else if "**/" <= pat {
      TokensEndOnly(pat[3..]);
    } else {
      TokensEndOnly(pat[1..]);
    }
  }

  // ---- slashes ----

  predicate AllSlashes(s: string) {
    forall i :: 0 <= i < |s| ==> s[i] == '/'
  }

  /** The number of leading slashes. */
  function Lead(s: string): (n: nat)
    ensures n <= |s| && AllSlashes(s[..n]) && !StartsWithSlash(s[n..])
  {
    if StartsWithSlash(s) then
      var n := 1 + Lead(s[1..]);
      assert s[n..] == s[1..][n - 1..] && forall i :: 1 <= i < n ==> s[i] == s[1..][i - 1];
      n
    else 0
  }

  function Strip(s: string): string {
    s[Lead(s)..]
  }

  predicate SlashEnd(s: string) {
    s == "" || s[|s| - 1] == '/'
  }

  // ---- a harmless pattern is matched by every text its tokens stand for ----

  lemma {:induction false} NoSlashNext(tokens: seq<Token>, s: string)
    requires Matches(tokens, s, false) && !SlashNext(tokens)
    ensures !StartsWithSlash(s)
    decreases |tokens|
  {
    if tokens != [] {
      var piece, tail := HeadPiece(tokens, s, false);
      if tokens[0].Star? {
        NoSlashNext(tokens[1..], tail);
        assert piece != "" ==> s[0] in piece;
      }
    }
  }

  lemma {:induction false} NoTokens(s: string, strict: bool)
    ensures Matches([], s, strict) <==> s == ""
  {}

  lemma {:induction false} FinalAnything(tokens: seq<Token>, s: string)
    requires tokens != [] && tokens[0].AnyText? && EndsOnly(tokens)
    ensures Matches(tokens, s, true)
  {
    assert |tokens| == 1;
    assert tokens == [AnyText];
    EverythingMatches(s);
  }

  lemma {:induction false} PlainMatches(tokens: seq<Token>, s: string)
    requires EndsOnly(tokens) && Harmless(tokens, Plain) && Matches(tokens, s, false)
    ensures Matches(tokens, s, true)
    decreases |tokens|, 1
  {
    hide Matches, Lead;
    NoTokens(s, true);
    NoTokens(s, false);
    if tokens != [] {
      var rest := tokens[1..];
      var piece, tail := HeadPiece(tokens, s, false);
      match tokens[0] {
        case AnyText => FinalAnything(tokens, s);
        case Literal(_) =>
          PlainMatches(rest, tail);
          PrependPiece(tokens, piece, tail, true);
        case Star =>
          NoSlashNext(rest, tail);
          PlainMatches(rest, tail);
          PrependPiece(tokens, piece, tail, true);
        case Dirs =>
          var n := OpenMatches(rest, tail);
          assert s == (piece + tail[..n]) + tail[n..];
          PrependPiece(tokens, piece + tail[..n], tail[n..], true);
      }
    }
  }

  /** Behind a "**" with a slash, leading slashes may be left to it. */
  lemma {:induction false} OpenMatches(tokens: seq<Token>, s: string) returns (n: nat)
    requires EndsOnly(tokens) && Harmless(tokens, Open) && Matches(tokens, s, false)
    ensures n <= |s| && AllSlashes(s[..n]) && Matches(tokens, s[n..], true)
    decreases |tokens|, 0
  {
    hide Matches, Lead;
    NoTokens(s, true);
    NoTokens(s, false);
    n := 0;
    assert s[0..] == s;
    if tokens != [] {
      var rest := tokens[1..];
      var piece, tail := HeadPiece(tokens, s, false);
      match tokens[0] {
        case AnyText => FinalAnything(tokens, s);
        case Literal(c) =>
          if c == '/' {
            n := OpenMatches(rest, tail);
            assert s[n..] == piece + tail[n..] by {
              assert forall i :: 0 <= i <= n ==> s[i] == '/';
            }
            assert s[..n] == ("/" + tail[..n])[..n];
            PrependPiece(tokens, piece, tail[n..], true);
          } else {
            PlainMatches(rest, tail);
            PrependPiece(tokens, piece, tail, true);
          }
        case Dirs =>
          var m := OpenMatches(rest, tail);
          assert s == (piece + tail[..m]) + tail[m..];
          PrependPiece(tokens, piece + tail[..m], tail[m..], true);
        case Star =>
          PastMatches(rest, tail, piece);
          n := StarLead(tokens, piece, tail);
      }
    }
  }

  /** Behind a "*" that has one: without its leading slashes the text matches, and so it does with them when a
      text without slashes comes first. */
  lemma {:induction false} PastMatches(tokens: seq<Token>, s: string, u: string)
    requires EndsOnly(tokens) && Harmless(tokens, Past) && Matches(tokens, s, false)
    ensures Matches(tokens, Strip(s), true)
    ensures u != "" && '/' !in u && StartsWithSlash(s) ==> Matches(tokens, u + s, true)
    decreases |tokens|, 0
  {
    hide Matches, Lead;
    NoTokens(s, true);
    NoTokens(s, false);
    if tokens != [] {
      var rest := tokens[1..];
      var piece, tail := HeadPiece(tokens, s, false);
      match tokens[0] {
        case AnyText =>
          FinalAnything(tokens, Strip(s));
          FinalAnything(tokens, u + s);
        case Literal(c) =>
          PlainMatches(rest, tail);
          PrependPiece(tokens, piece, tail, true);
          NothingToStrip(s);
        case Dirs =>
          PastMatches(rest, tail, u);
          DirsTakeSlashes(tokens, piece, tail, u);
        case Star =>
          PastMatches(rest, tail, piece);
          var n := StarLead(tokens, piece, tail);
          if StartsWithSlash(s) {
            SlashNotInStar(piece, tail);
            PastMatches(rest, tail, u);
            assert "" + (u + s) == u + s && tail == s;
            if u != "" && '/' !in u {
              assert (u + s)[0] in u;
              PrependPiece(tokens, "", u + s, true);
            }
          }
      }
    }
  }

  /** A "*" takes its text unless a slash follows; then it takes nothing and the rest takes all. */
  lemma StarLead(tokens: seq<Token>, piece: string, tail: string) returns (n: nat)
    requires tokens != [] && tokens[0].Star? && '/' !in piece
    requires Matches(tokens[1..], Strip(tail), true)
    requires piece != "" && StartsWithSlash(tail) ==> Matches(tokens[1..], piece + tail, true)
    ensures var s := piece + tail; n == Lead(s) && Matches(tokens, s[n..], true)
  {
    hide Matches;
    var s := piece + tail;
    n := Lead(s);
    if piece == "" {
      assert s == tail && "" + Strip(tail) == Strip(tail);
      PrependPiece(tokens, "", Strip(tail), true);
    } else {
      assert s[0] in piece;
      assert n == 0 && s[0..] == s;
      if StartsWithSlash(tail) {
        assert "" + s == s;
        PrependPiece(tokens, "", s, true);
      } else {
        assert Strip(tail) == tail;
        PrependPiece(tokens, piece, tail, true);
      }
    }
  }

  lemma {:induction false} DirsTakeSlashes(tokens: seq<Token>, piece: string, tail: string, u: string)
    requires tokens != [] && tokens[0].Dirs? && SlashEnd(piece) && Matches(tokens[1..], Strip(tail), true)
    ensures Matches(tokens, Strip(piece + tail), true)
    ensures StartsWithSlash(piece + tail) ==> Matches(tokens, u + (piece + tail), true)
  {
    hide Matches, Lead, Strip;
    var s := piece + tail;
    var front, n := Front(piece, tail);
    PrependPiece(tokens, front[n..], Strip(tail), true);
    if StartsWithSlash(s) {
      assert u + s == (u + front) + Strip(tail);
      assert (u + front)[|u + front| - 1] == front[|front| - 1];
      PrependPiece(tokens, u + front, Strip(tail), true);
    }
  }

  /** The text up to the leading slashes of the tail. */
  lemma Front(piece: string, tail: string) returns (front: string, n: nat)
    requires SlashEnd(piece)
    ensures piece + tail == front + Strip(tail) && SlashEnd(front)
    ensures n <= |front| && Strip(piece + tail) == front[n..] + Strip(tail) && SlashEnd(front[n..])
    ensures StartsWithSlash(piece + tail) ==> front != ""
  {
    hide Lead;
    var s, m := piece + tail, Lead(tail);
    front, n := piece + tail[..m], Lead(s);
    assert s == front + Strip(tail);
    assert m > 0 ==> front[|front| - 1] == tail[m - 1] == '/';
    if Strip(tail) != "" {
      assert s[|front|] == Strip(tail)[0];
      LeadStops(s, |front|);
    }
    assert s[n..] == front[n..] + Strip(tail);
    if front == "" {
      assert s == Strip(tail);
    }
  }

  lemma {:induction false} LeadStops(s: string, k: nat)
    requires k < |s| && s[k] != '/'
    ensures Lead(s) <= k
  {
    hide Lead;
    var n := Lead(s);
    assert forall i :: 0 <= i < n ==> s[i] == s[..n][i] == '/';
  }

  lemma SlashNotInStar(piece: string, tail: string)
    requires '/' !in piece
    ensures StartsWithSlash(piece + tail) ==> piece == ""
  {
    if piece != "" {
      assert (piece + tail)[0] == piece[0] && piece[0] in piece;
    }
  }

  lemma {:induction false} NothingToStrip(s: string)
    ensures !StartsWithSlash(s) ==> Lead(s) == 0 && Strip(s) == s
  {}

  // ---- any other pattern is not matched by some text its tokens stand for ----

  /** The number of characters other than slashes. */
  function Marks(s: string): nat {
    if s == "" then 0 else (if s[0] != '/' then 1 else 0) + Marks(s[1..])
  }

  function MarksOf(tokens: seq<Token>): nat {
    if tokens == [] then 0 else MarkOf(tokens[0]) + MarksOf(tokens[1..])
  }

  function MarkOf(t: Token): nat {
    if t.Literal? && t.c != '/' then 1 else 0
  }

  lemma {:induction false} MarksAdd(a: string, b: string)
    ensures Marks(a + b) == Marks(a) + Marks(b)
    decreases |a|
  {
    if a == "" {
      assert a + b == b;
    } else {
      assert (a + b)[1..] == a[1..] + b;
      MarksAdd(a[1..], b);
    }
  }

  lemma {:induction false} NoMarks(s: string)
    ensures Marks(s) == 0 <==> AllSlashes(s)
    decreases |s|
  {
    if s != "" {
      NoMarks(s[1..]);
      assert AllSlashes(s) ==> AllSlashes(s[1..]);
      assert forall i :: 1 <= i < |s| ==> s[i] == s[1..][i - 1];
    }
  }

  lemma {:induction false} EnoughMarks(tokens: seq<Token>, s: string, strict: bool)
    requires Matches(tokens, s, strict)
    ensures Marks(s) >= MarksOf(tokens)
    decreases |tokens|
  {
    if tokens != [] {
      var piece, tail := HeadPiece(tokens, s, strict);
      EnoughMarks(tokens[1..], tail, strict);
      MarksAdd(piece, tail);
    }
  }

  /** In a text with no mark too many, a "*" stands for nothing and a "**" for slashes. */
  lemma LeanPiece(tokens: seq<Token>, s: string) returns (piece: string, tail: string)
    requires tokens != [] && Matches(tokens, s, true) && Marks(s) == MarksOf(tokens)
    ensures s == piece + tail && Stands(tokens[0], piece) && Matches(tokens[1..], tail, true)
    ensures Marks(tail) == MarksOf(tokens[1..])
    ensures tokens[0].Star? ==> piece == "" && !StartsWithSlash(tail)
    ensures tokens[0].Dirs? ==> AllSlashes(piece)
  {
    piece, tail := HeadPiece(tokens, s, true);
    EnoughMarks(tokens[1..], tail, true);
    MarksAdd(piece, tail);
    NoMarks(piece);
    if tokens[0].Literal? {
      assert piece[1..] == "";
    }
    assert piece != "" ==> piece[0] in piece;
  }

  /** The literal characters alone. */
  function Skeleton(tokens: seq<Token>): string {
    if tokens == [] then ""
    else (if tokens[0].Literal? then [tokens[0].c] else "") + Skeleton(tokens[1..])
  }

  lemma {:induction false} SkeletonStands(tokens: seq<Token>)
    ensures Matches(tokens, Skeleton(tokens), false) && Marks(Skeleton(tokens)) == MarksOf(tokens)
    decreases |tokens|
  {
    if tokens != [] {
      SkeletonStands(tokens[1..]);
      var piece := if tokens[0].Literal? then [tokens[0].c] else "";
      MarksAdd(piece, Skeleton(tokens[1..]));
      assert piece != "" ==> piece[1..] == "";
      PrependPiece(tokens, piece, Skeleton(tokens[1..]), false);
    }
  }

  /** A text for these tokens that begins with a slash and has no mark too many. */
  lemma {:induction false} SlashFirst(tokens: seq<Token>) returns (w: string)
    requires SlashNext(tokens)
    ensures Matches(tokens, w, false) && Marks(w) == MarksOf(tokens) && StartsWithSlash(w)
    decreases |tokens|
  {
    var rest := tokens[1..];
    SkeletonStands(rest);
    if tokens[0].Star? {
      w := SlashFirst(rest);
      assert "" + w == w;
      PrependPiece(tokens, "", w, false);
    } else {
      w := "/" + Skeleton(rest);
      MarksAdd("/", Skeleton(rest));
      assert "/"[1..] == "";
      PrependPiece(tokens, "/", Skeleton(rest), false);
    }
  }

  /** w shows that the scan was right to stop in this mode. */
  ghost predicate Refutes(tokens: seq<Token>, mode: Mode, w: string) {
    && Matches(tokens, w, false) && Marks(w) == MarksOf(tokens)
    && match mode
       case Plain => !Matches(tokens, w, true)
       case Open => forall n :: 0 <= n <= |w| && AllSlashes(w[..n]) ==> !Matches(tokens, w[n..], true)
       case Past => !Matches(tokens, Strip(w), true)
  }

  /** A shorter witness stays one behind a token that takes nothing of it. */
  lemma {:induction false} Refutation(tokens: seq<Token>, mode: Mode) returns (w: string)
    requires EndsOnly(tokens) && !Harmless(tokens, mode)
    ensures Refutes(tokens, mode, w)
    decreases |tokens|
  {
    var rest := tokens[1..];
    match tokens[0] {
      case Literal(c) =>
        if c == '/' && mode == Past {
          w := Skeleton(tokens);
          SkeletonStands(tokens);
          NoSlashFirst(tokens, w);
        } else {
          var v := Refutation(rest, if c == '/' then mode else Plain);
          w := [c] + v;
          LiteralRefutes(tokens, mode, v);
        }
      case Dirs =>
        w := Refutation(rest, if mode == Past then Past else Open);
        DirsRefutes(tokens, mode, w);
      case Star =>
        if mode != Plain {
          w := Refutation(rest, Past);
          StarRefutes(tokens, mode, w);
        } else if SlashNext(rest) {
          w := SlashFirst(rest);
          StarStops(tokens, w);
        } else {
          w := Refutation(rest, Plain);
          StarRefutes(tokens, Plain, w);
        }
    }
  }

  /** Tokens that begin with a literal slash need one. */
  lemma {:induction false} NoSlashFirst(tokens: seq<Token>, w: string)
    requires tokens != [] && tokens[0] == Literal('/')
    ensures !Matches(tokens, Strip(w), true)
  {
    if Matches(tokens, Strip(w), true) {
      var piece, tail := HeadPiece(tokens, Strip(w), true);
    }
  }

  /** Slashes in front change no marks. */
  lemma {:induction false} SameMarks(w: string, n: nat)
    requires n <= |w| && AllSlashes(w[..n])
    ensures Marks(w[n..]) == Marks(w)
  {
    assert w == w[..n] + w[n..];
    MarksAdd(w[..n], w[n..]);
    NoMarks(w[..n]);
  }

  lemma LiteralRefutes(tokens: seq<Token>, mode: Mode, v: string)
    requires tokens != [] && tokens[0].Literal? && !(tokens[0].c == '/' && mode == Past)
    requires Refutes(tokens[1..], if tokens[0].c == '/' then mode else Plain, v)
    ensures Refutes(tokens, mode, [tokens[0].c] + v)
  {
    hide Matches, Lead;
    var c := tokens[0].c;
    var w := [c] + v;
    MarksAdd([c], v);
    assert [c][1..] == "";
    PrependPiece(tokens, [c], v, false);
    forall n | 0 <= n <= |w| && AllSlashes(w[..n]) && Matches(tokens, w[n..], true)
      ensures n <= |v| && (c != '/' ==> n == 0) && AllSlashes(v[..n]) && Matches(tokens[1..], v[n..], true)
    {
      LiteralShift(tokens, v, n);
    }
    assert w[0..] == w && v[0..] == v;
    NothingToStrip(w);
  }

  lemma {:induction false} LiteralShift(tokens: seq<Token>, v: string, n: nat)
    requires tokens != [] && tokens[0].Literal?
    requires var w := [tokens[0].c] + v; n <= |w| && AllSlashes(w[..n]) && Matches(tokens, w[n..], true)
    ensures n <= |v| && (tokens[0].c != '/' ==> n == 0) && AllSlashes(v[..n]) && Matches(tokens[1..], v[n..], true)
  {
    hide Matches;
    var c := tokens[0].c;
    var w := [c] + v;
    var piece, tail := HeadPiece(tokens, w[n..], true);
    assert w[n..][0] == c && tail == w[n..][1..] == v[n..];
    assert n > 0 ==> w[..n][0] == c;
    forall i | 0 <= i < n
      ensures v[i] == '/'
    {
      assert w[i + 1] == v[i] && (i + 1 < n ==> w[..n][i + 1] == w[i + 1]);
    }
  }

  lemma DirsRefutes(tokens: seq<Token>, mode: Mode, w: string)
    requires tokens != [] && tokens[0].Dirs? && Refutes(tokens[1..], if mode == Past then Past else Open, w)
    ensures Refutes(tokens, mode, w)
  {
    hide Matches, Lead;
    assert "" + w == w && w[0..] == w;
    PrependPiece(tokens, "", w, false);
    forall n | 0 <= n <= |w| && AllSlashes(w[..n]) && Matches(tokens, w[n..], true)
      ensures exists m :: n <= m <= |w| && AllSlashes(w[..m]) && Matches(tokens[1..], w[m..], true)
      ensures !StartsWithSlash(w[n..]) ==> Matches(tokens[1..], w[n..], true)
    {
      var m := DirsShift(tokens, w, n);
    }
  }

  lemma DirsShift(tokens: seq<Token>, w: string, n: nat) returns (m: nat)
    requires tokens != [] && tokens[0].Dirs? && Marks(w) == MarksOf(tokens)
    requires n <= |w| && AllSlashes(w[..n]) && Matches(tokens, w[n..], true)
    ensures n <= m <= |w| && AllSlashes(w[..m]) && Matches(tokens[1..], w[m..], true)
    ensures !StartsWithSlash(w[n..]) ==> m == n
  {
    hide Matches;
    SameMarks(w, n);
    var piece, tail := LeanPiece(tokens, w[n..]);
    m := n + |piece|;
    assert w[m..] == tail && w[..m] == w[..n] + piece;
    if piece != "" {
      assert w[n..][0] == piece[0] == '/';
    }
  }

  lemma StarRefutes(tokens: seq<Token>, mode: Mode, w: string)
    requires tokens != [] && tokens[0].Star? && Refutes(tokens[1..], if mode == Plain then Plain else Past, w)
    ensures Refutes(tokens, mode, w)
  {
    hide Matches, Lead;
    assert "" + w == w && w[0..] == w;
    PrependPiece(tokens, "", w, false);
    forall n | 0 <= n <= |w| && AllSlashes(w[..n]) && Matches(tokens, w[n..], true)
      ensures Matches(tokens[1..], w[n..], true) && w[n..] == Strip(w)
    {
      SameMarks(w, n);
      var piece, tail := LeanPiece(tokens, w[n..]);
      assert tail == w[n..];
      LeadIs(w, n);
    }
  }

  lemma {:induction false} LeadIs(w: string, n: nat)
    requires n <= |w| && AllSlashes(w[..n]) && !StartsWithSlash(w[n..])
    ensures Lead(w) == n
    decreases n
  {
    if n == 0 {
      assert w[0..] == w;
    } else {
      assert w[..n][0] == w[0];
      assert w[1..][..n - 1] == w[..n][1..] && w[1..][n - 1..] == w[n..];
      LeadIs(w[1..], n - 1);
    }
  }

  lemma {:induction false} StarStops(tokens: seq<Token>, w: string)
    requires tokens != [] && tokens[0].Star? && StartsWithSlash(w)
    requires Matches(tokens[1..], w, false) && Marks(w) == MarksOf(tokens[1..])
    ensures Refutes(tokens, Plain, w)
  {
    hide Matches;
    assert "" + w == w;
    PrependPiece(tokens, "", w, false);
    if Matches(tokens, w, true) {
      var piece, tail := LeanPiece(tokens, w);
    }
  }

  // ---- the exact condition ----

  lemma {:induction false} StrictIsMeant(tokens: seq<Token>, s: string)
    requires Matches(tokens, s, true)
    ensures Matches(tokens, s, false)
    decreases |tokens|
  {
    if tokens != [] {
      var piece, tail := HeadPiece(tokens, s, true);
      StrictIsMeant(tokens[1..], tail);
      PrependPiece(tokens, piece, tail, false);
    }
  }

  /** The matcher accepts exactly the texts that the pattern's tokens stand for. */
  ghost predicate MeansItsTokens(pat: string) {
    forall s :: Matches(Tokens(pat), s, true) <==> Matches(Tokens(pat), s, false)
  }

  lemma {:induction false} MeansItsTokensIff(pat: string)
    ensures MeansItsTokens(pat) <==> Harmless(Tokens(pat), Plain)
  {
    hide Matches, Tokens;
    var tokens := Tokens(pat);
    TokensEndOnly(pat);
    if Harmless(tokens, Plain) {
      forall s
        ensures Matches(tokens, s, true) <==> Matches(tokens, s, false)
      {
        if Matches(tokens, s, true) {
          StrictIsMeant(tokens, s);
        }
        if Matches(tokens, s, false) {
          PlainMatches(tokens, s);
        }
      }
    } else {
      var w := Refutation(tokens, Plain);
      assert Matches(tokens, w, false) && !Matches(tokens, w, true);
    }
  }

  // ---- a star and its right neighbour ----

  /** A "*" directly in front of a "/". */
  predicate StarBeforeSlash(tokens: seq<Token>) {
    |tokens| >= 2 && ((tokens[0] == Star && tokens[1] == Literal('/')) || StarBeforeSlash(tokens[1..]))
  }

  /** A "*" directly in front of a "**", as three asterisks in a row give. */
  predicate StarBeforeDouble(tokens: seq<Token>) {
    |tokens| >= 2 && ((tokens[0] == Star && (tokens[1] == Dirs || tokens[1] == AnyText))
        || StarBeforeDouble(tokens[1..]))
  }

  lemma {:induction false} SlashBehindStar(tokens: seq<Token>, s: string)
    requires |tokens| >= 2 && tokens[0] == Star && tokens[1] == Literal('/')
    ensures !Matches(tokens, s, true)
  {
    if Matches(tokens, s, true) {
      var piece, tail := HeadPiece(tokens, s, true);
      var slash, more := HeadPiece(tokens[1..], tail, true);
    }
  }

  /** A pattern with a "*" directly in front of a "/" matches no text at all. */
  lemma {:induction false} StarSlashMatchesNothing(tokens: seq<Token>, s: string)
    requires StarBeforeSlash(tokens)
    ensures !Matches(tokens, s, true)
    decreases |tokens|
  {
    if tokens[0] == Star && tokens[1] == Literal('/') {
      SlashBehindStar(tokens, s);
    } else if Matches(tokens, s, true) {
      var piece, tail := HeadPiece(tokens, s, true);
      StarSlashMatchesNothing(tokens[1..], tail);
    }
  }
}
