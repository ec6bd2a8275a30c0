/** The condition of GlobMeaning read off a pattern's blocks: the stretches between literals other than "/". */
module GlobBlocks {
  import opened Glob
  import opened GlobMeaning

  predicate Slashy(t: Token) {
    !t.Literal? || t.c == '/'
  }

  ghost predicate AllSlashy(tokens: seq<Token>) {
    forall t :: t in tokens ==> Slashy(t)
  }

  /** The length of the first block. */
  function BlockLength(tokens: seq<Token>): (n: nat)
    ensures n <= |tokens| && AllSlashy(tokens[..n]) && (n < |tokens| ==> !Slashy(tokens[n]))
  {
    if tokens == [] || !Slashy(tokens[0]) then 0
    else
      var n := 1 + BlockLength(tokens[1..]);
      assert tokens[..n] == [tokens[0]] + tokens[1..][..n - 1];
      n
  }

  function FirstStar(block: seq<Token>): (n: nat)
    ensures n <= |block| && (n < |block| ==> block[n] == Star) && Star !in block[..n]
  {
    if block == [] || block[0] == Star then 0
    else
      var n := 1 + FirstStar(block[1..]);
      assert block[..n] == [block[0]] + block[1..][..n - 1];
      n
  }

  /** No "*" stands directly before a "/"; and where one stands directly before a "**", there is a "**" with a slash
      before the first "*" of the block and no literal slash behind it. */
  predicate FineBlock(block: seq<Token>) {
    var f := FirstStar(block);
    && !StarBeforeSlash(block)
    && (StarBeforeDouble(block) ==> Dirs in block[..f] && Literal('/') !in block[f..])
  }

  predicate FineBlocks(tokens: seq<Token>) {
    var n := BlockLength(tokens);
    FineBlock(tokens[..n]) && (n < |tokens| ==> FineBlocks(tokens[n + 1..]))
  }

  // ---- the scan of one block ----

  predicate AllStars(block: seq<Token>) {
    forall i :: 0 <= i < |block| ==> block[i] == Star
  }

  lemma {:induction false} StarsOnly(block: seq<Token>)
    requires AllSlashy(block)
    ensures AllStars(block) <==> !SlashNext(block)
    ensures AllStars(block) ==> Harmless(block, Plain) && !StarBeforeSlash(block) && !StarBeforeDouble(block)
    decreases |block|
  {
    if block != [] {
      assert Slashy(block[0]);
      StarsOnly(block[1..]);
      assert AllStars(block) ==> AllStars(block[1..]);
      assert AllStars(block[1..]) && block[0] == Star ==> AllStars(block) by {
        assert forall i :: 1 <= i < |block| ==> block[i] == block[1..][i - 1];
      }
    }
  }

  lemma {:induction false} ScanPast(block: seq<Token>)
    requires AllSlashy(block) && EndsOnly(block)
    ensures Harmless(block, Past) <==> Literal('/') !in block
    decreases |block|
  {
    if block != [] {
      assert Slashy(block[0]) && block == [block[0]] + block[1..];
      if block[0] == AnyText {
        assert block[1..] == [];
      } else {
        ScanPast(block[1..]);
      }
    }
  }

  lemma {:induction false} FirstStarTail(block: seq<Token>)
    requires block != [] && block[0] != Star
    ensures var f, rest := FirstStar(block), block[1..];
            f == 1 + FirstStar(rest) && block[f..] == rest[f - 1..] && block[..f] == [block[0]] + rest[..f - 1]
  {}

  lemma {:induction false} ScanOpen(block: seq<Token>)
    requires AllSlashy(block) && EndsOnly(block)
    ensures Harmless(block, Open) <==> Literal('/') !in block[FirstStar(block)..]
    decreases |block|
  {
    if block != [] {
      assert Slashy(block[0]) && block == [block[0]] + block[1..];
      if block[0] == Star {
        ScanPast(block[1..]);
        assert block[0..] == block;
      } else if block[0] == AnyText {
        assert block == [AnyText];
      } else {
        FirstStarTail(block);
        ScanOpen(block[1..]);
      }
    }
  }

  lemma {:induction false} ScanPlain(block: seq<Token>)
    requires AllSlashy(block) && EndsOnly(block)
    ensures var f := FirstStar(block);
            Harmless(block, Plain) <==> if Dirs in block[..f] then Literal('/') !in block[f..] else AllStars(block[f..])
    decreases |block|
  {
    if block != [] {
      assert Slashy(block[0]) && block == [block[0]] + block[1..];
      if block[0] == Star {
        assert block[0..] == block;
        StarsOnly(block[1..]);
        assert AllStars(block) <==> AllStars(block[1..]) by {
          assert forall i :: 1 <= i < |block| ==> block[i] == block[1..][i - 1];
        }
      } else if block[0] == AnyText {
        assert block == [AnyText];
      } else {
        FirstStarTail(block);
        if block[0] == Dirs {
          ScanOpen(block[1..]);
        } else {
          ScanPlain(block[1..]);
        }
      }
    }
  }

  // ---- the same from neighbouring tokens ----

  lemma {:induction false} BehindFirstStar(block: seq<Token>)
    ensures var rest := block[FirstStar(block)..];
            (StarBeforeSlash(block) <==> StarBeforeSlash(rest)) && (StarBeforeDouble(block) <==> StarBeforeDouble(rest))
    decreases |block|
  {
    if block != [] && block[0] != Star {
      FirstStarTail(block);
      BehindFirstStar(block[1..]);
    } else {
      assert block[0..] == block;
    }
  }

  /** Behind a "*", the first token that is not one has a "*" directly before it. */
  lemma {:induction false} StarThenOther(block: seq<Token>)
    requires AllSlashy(block) && block != [] && block[0] == Star
    ensures AllStars(block) <==> !StarBeforeSlash(block) && !StarBeforeDouble(block)
    ensures Literal('/') in block ==> StarBeforeSlash(block) || StarBeforeDouble(block)
    decreases |block|
  {
    if |block| > 1 {
      assert Slashy(block[1]);
      if block[1] == Star {
        StarThenOther(block[1..]);
        assert block == [Star] + block[1..];
        assert AllStars(block) <==> AllStars(block[1..]) by {
          assert forall i :: 1 <= i < |block| ==> block[i] == block[1..][i - 1];
        }
      }
    }
  }

  lemma {:induction false} SlashThere(block: seq<Token>)
    requires StarBeforeSlash(block)
    ensures Literal('/') in block
    decreases |block|
  {
    if StarBeforeSlash(block[1..]) {
      SlashThere(block[1..]);
    }
  }

  lemma {:induction false} FineBlockIff(block: seq<Token>)
    requires AllSlashy(block) && EndsOnly(block)
    ensures FineBlock(block) <==> Harmless(block, Plain)
  {
    hide Harmless, StarBeforeSlash, StarBeforeDouble;
    var rest := block[FirstStar(block)..];
    ScanPlain(block);
    BehindFirstStar(block);
    if rest != [] {
      StarThenOther(rest);
      if StarBeforeSlash(rest) {
        SlashThere(rest);
      }
    } else {
      StarsOnly(rest);
    }
  }

  // ---- all blocks ----

  lemma {:induction false} SlashNextWithin(tokens: seq<Token>, n: nat)
    requires n < |tokens| && AllSlashy(tokens[..n]) && !Slashy(tokens[n])
    ensures SlashNext(tokens) <==> SlashNext(tokens[..n])
    decreases n
  {
    if n > 0 {
      assert tokens[..n] == [tokens[0]] + tokens[1..][..n - 1];
      SlashNextWithin(tokens[1..], n - 1);
    }
  }

  /** A literal other than a slash starts the scan afresh. */
  lemma {:induction false} ScanInTwo(tokens: seq<Token>, n: nat, mode: Mode)
    requires n < |tokens| && EndsOnly(tokens) && AllSlashy(tokens[..n]) && !Slashy(tokens[n])
    ensures Harmless(tokens, mode) <==> Harmless(tokens[..n], mode) && Harmless(tokens[n + 1..], Plain)
    decreases n
  {
    if n > 0 {
      var rest := tokens[1..];
      assert tokens[..n] == [tokens[0]] + rest[..n - 1] && tokens[n + 1..] == rest[n..];
      assert Slashy(tokens[..n][0]);
      SlashNextWithin(rest, n - 1);
      forall m: Mode
        ensures Harmless(rest, m) <==> Harmless(rest[..n - 1], m) && Harmless(tokens[n + 1..], Plain)
      {
        ScanInTwo(rest, n - 1, m);
      }
    }
  }

  lemma {:induction false} FineBlocksIff(tokens: seq<Token>)
    requires EndsOnly(tokens)
    ensures FineBlocks(tokens) <==> Harmless(tokens, Plain)
    decreases |tokens|
  {
    var n := BlockLength(tokens);
    FineBlockIff(tokens[..n]);
    if n < |tokens| {
      ScanInTwo(tokens, n, Plain);
      FineBlocksIff(tokens[n + 1..]);
    } else {
      assert tokens[..n] == tokens;
    }
  }

  /** The matcher accepts exactly what a pattern's tokens stand for if and only if all its blocks are fine. */
  lemma {:induction false} MeansItsTokensByBlocks(pat: string)
    ensures MeansItsTokens(pat) <==> FineBlocks(Tokens(pat))
  {
    TokensEndOnly(pat);
    FineBlocksIff(Tokens(pat));
    MeansItsTokensIff(pat);
  }
}
