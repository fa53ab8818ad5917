/** What it costs that `handle_format` is passed the argument list by value: exactly which formats print
    the same whether or not the caller's list moves on. */
module ArgumentLists {
  import opened Numerals
  import opened Picture
  import opened Printk

  /** The specifiers that take an argument, in order. */
  function Specs(tokens: seq<Token>): (s: string)
    ensures |s| == ArgCount(tokens)
  {
    if tokens == [] then []
    else Specs(tokens[..|tokens| - 1]) + (if Consumes(tokens[|tokens| - 1]) then [tokens[|tokens| - 1].c] else [])
  }

  /** The `k`-th token reads the argument that its specifier stands for. */
  lemma {:induction false} SpecsAt(tokens: seq<Token>, k: nat)
    requires k < |tokens| && Consumes(tokens[k])
    ensures ArgCount(tokens[..k]) < |Specs(tokens)| && Specs(tokens)[ArgCount(tokens[..k])] == tokens[k].c
    decreases |tokens|
  {
    var init := tokens[..|tokens| - 1];
    if k == |tokens| - 1 {
      assert tokens[..k] == init;
    } else {
      assert init[..k] == tokens[..k] && init[k] == tokens[k];
      SpecsAt(init, k);
    }
  }

  /** The token that reads the `j`-th argument. */
  lemma {:induction false} TokenOf(tokens: seq<Token>, j: nat) returns (k: nat)
    requires j < ArgCount(tokens)
    ensures k < |tokens| && Consumes(tokens[k]) && ArgCount(tokens[..k]) == j
    decreases |tokens|
  {
    var init := tokens[..|tokens| - 1];
    if j < ArgCount(init) {
      k := TokenOf(init, j);
      assert init[..k] == tokens[..k];
    } else {
      k := |tokens| - 1;
    }
  }

  lemma {:induction false} CountGrows(tokens: seq<Token>, k: nat)
    requires k <= |tokens|
    ensures ArgCount(tokens[..k]) <= ArgCount(tokens)
    decreases |tokens|
  {
    if k == |tokens| {
      assert tokens[..k] == tokens;
    } else {
      assert tokens[..|tokens| - 1][..k] == tokens[..k];
      CountGrows(tokens[..|tokens| - 1], k);
    }
  }

  /** As long as at most one argument has been read, both readings print the same. */
  lemma {:induction false} SameSoFar(tokens: seq<Token>, args: seq<Arg>, k: nat)
    requires k <= |tokens| && Fitting(true, tokens, args) && Fitting(false, tokens, args)
    requires ArgCount(tokens[..k]) <= 1
    ensures Rendered(false, tokens, args, k) == Rendered(true, tokens, args, k)
  {
    if k == 0 {
    } else {
      assert tokens[..k][..k - 1] == tokens[..k - 1] && tokens[..k][k - 1] == tokens[k - 1];
      SameSoFar(tokens, args, k - 1);
    }
  }

  // ----- two arguments that print differently -----

  function Sample(spec: char, second: bool): (a: Arg)
    ensures Matches(spec, a)
  {
    match spec
    case 's' => Str(if second then "b" else "a")
    case 'c' => Chr(if second then 'b' else 'a')
    case _ => Num(if second then 1 else 0)
  }

  function Samples(tokens: seq<Token>): (args: seq<Arg>)
    ensures |args| == |Specs(tokens)|
  {
    seq(|Specs(tokens)|, j requires 0 <= j < |Specs(tokens)| => Sample(Specs(tokens)[j], j == 1))
  }

  lemma SamplesFit(tokens: seq<Token>)
    ensures Fitting(true, tokens, Samples(tokens))
  {
    forall k | 0 <= k < |tokens| && Consumes(tokens[k])
      ensures ArgAt(true, tokens, k) < |Samples(tokens)|
      ensures Matches(tokens[k].c, Samples(tokens)[ArgAt(true, tokens, k)])
    {
      SpecsAt(tokens, k);
    }
  }

  /** Two strings neither of which can stand where the other does. */
  predicate Differ(x: string, y: string)
  {
    |x| == |y| && x != y
  }

  /** The first sample, if a specifier can read it at all, prints unlike the second. */
  lemma SamplesDiffer(c: char, d: char)
    requires Consumes(Spec(c)) && Consumes(Spec(d)) && Matches(c, Sample(d, false))
    ensures Differ(Formatted(c, Sample(d, false)), Formatted(c, Sample(c, true)))
  {
    match c
    case 's' =>
      CStringIs("a", 1);
      CStringIs("b", 1);
    case 'c' =>
      CStringIs("a", 1);
      CStringIs("b", 1);
    case 'x' => SmallNumerals(0, 1, 16);
    case _ => SmallNumerals(0, 1, 10);
  }

  lemma SmallNumerals(m: nat, n: nat, base: nat)
    requires IsBase(base) && m == 0 && n == 1
    ensures Numeral(m, base) == "0" && Numeral(n, base) == "1"
    ensures |HexString(m)| == |HexString(n)| == 4 && HexString(m)[3] == '0' && HexString(n)[3] == '1'
  {}

  lemma LongerDiffers(a: seq<Glyph>, x: string, y: string, fg: Color, u: seq<Glyph>, w: seq<Glyph>)
    requires Differ(x, y) && a + Colored(x, fg) <= u && a + Colored(y, fg) <= w
    ensures u != w
  {
    var n := |a|;
    var i :| 0 <= i < |x| && x[i] != y[i];
    assert u[n + i] == (a + Colored(x, fg))[n + i] == Glyph(x[i], fg);
    assert w[n + i] == (a + Colored(y, fg))[n + i] == Glyph(y[i], fg);
  }

  ghost predicate PrintsAlike(tokens: seq<Token>, args: seq<Arg>)
    requires Fitting(true, tokens, args)
  {
    && Fitting(false, tokens, args)
    && Rendered(false, tokens, args, |tokens|) == Rendered(true, tokens, args, |tokens|)
  }

  lemma SamplesPrintUnlike(tokens: seq<Token>)
    requires ArgCount(tokens) >= 2
    ensures Fitting(true, tokens, Samples(tokens)) && !PrintsAlike(tokens, Samples(tokens))
  {
    var args := Samples(tokens);
    SamplesFit(tokens);
    if Fitting(false, tokens, args) {
      var first := TokenOf(tokens, 0);
      var k := TokenOf(tokens, 1);
      SpecsAt(tokens, first);
      SpecsAt(tokens, k);
      var (c, d) := (tokens[k].c, tokens[first].c);
      assert args[1] == Sample(c, true) && args[0] == Sample(d, false);
      SameSoFar(tokens, args, k);
      SamplesDiffer(c, d);
      RenderedGrows(true, tokens, args, k + 1, |tokens|);
      RenderedGrows(false, tokens, args, k + 1, |tokens|);
      UnlikeFrom(tokens, args, k);
    }
  }

  /** Once a token prints differently, so does the whole. */
  lemma UnlikeFrom(tokens: seq<Token>, args: seq<Arg>, k: nat)
    requires k < |tokens| && Fitting(true, tokens, args) && Fitting(false, tokens, args)
    requires Rendered(false, tokens, args, k) == Rendered(true, tokens, args, k)
    requires Differ(Piece(false, tokens, args, k), Piece(true, tokens, args, k))
    ensures Rendered(false, tokens, args, |tokens|) != Rendered(true, tokens, args, |tokens|)
  {
    RenderedGrows(true, tokens, args, k + 1, |tokens|);
    RenderedGrows(false, tokens, args, k + 1, |tokens|);
    var (before, fg) := (Rendered(true, tokens, args, k), ColorAfter(tokens[..k]));
    assert Rendered(true, tokens, args, k + 1) == before + Colored(Piece(true, tokens, args, k), fg);
    assert Rendered(false, tokens, args, k + 1) == before + Colored(Piece(false, tokens, args, k), fg);
    LongerDiffers(before, Piece(false, tokens, args, k), Piece(true, tokens, args, k), fg,
                  Rendered(false, tokens, args, |tokens|), Rendered(true, tokens, args, |tokens|));
  }

  /** A format prints the same in both readings, for all arguments that fit it, exactly when it takes at
      most one. */
  lemma PrintsAlikeExactly(fmt: string)
    requires WellFormed(fmt)
    ensures (forall args :: Fitting(true, Tokens(fmt), args) ==> PrintsAlike(Tokens(fmt), args))
            <==> ArgCount(Tokens(fmt)) <= 1
  {
    var tokens := Tokens(fmt);
    if ArgCount(tokens) <= 1 {
      forall args | Fitting(true, tokens, args) ensures PrintsAlike(tokens, args) {
        OneFits(tokens, args);
        assert tokens[..|tokens|] == tokens;
        SameSoFar(tokens, args, |tokens|);
      }
    } else {
      SamplesPrintUnlike(tokens);
    }
  }

  lemma OneFits(tokens: seq<Token>, args: seq<Arg>)
    requires ArgCount(tokens) <= 1 && Fitting(true, tokens, args)
    ensures Fitting(false, tokens, args)
  {
    forall k | 0 <= k < |tokens| && Consumes(tokens[k]) ensures ArgCount(tokens[..k]) == 0 {
      SpecsAt(tokens, k);
    }
  }

  /** The first format for which it goes wrong: two numbers, the second of which is never printed where
      the list does not move on. */
  lemma TwoNumbers(fmt: string, args: seq<Arg>)
    requires fmt == "%d%d" && args == [Num(1), Num(2)]
    ensures WellFormed(fmt) && Fitting(true, Tokens(fmt), args) && Fitting(false, Tokens(fmt), args)
    ensures Output(true, fmt, args) == Colored("12", DEFAULT_FG)
    ensures Output(false, fmt, args) == Colored("11", DEFAULT_FG)
  {
    TwoTokens(fmt);
    hide Tokens, WellFormed;
    TwoPieces(true, Tokens(fmt), args);
    TwoPieces(false, Tokens(fmt), args);
  }

  lemma TwoTokens(fmt: string)
    requires fmt == "%d%d"
    ensures WellFormed(fmt) && Tokens(fmt) == [Spec('d'), Spec('d')]
  {
    assert fmt[2..] == "%d" && fmt[2..][2..] == [];
    assert Tokens(fmt[2..]) == [Spec('d')] + Tokens(fmt[2..][2..]);
  }

  lemma TwoPieces(advances: bool, tokens: seq<Token>, args: seq<Arg>)
    requires tokens == [Spec('d'), Spec('d')] && args == [Num(1), Num(2)]
    ensures Fitting(advances, tokens, args)
    ensures Rendered(advances, tokens, args, 2) == Colored(if advances then "12" else "11", DEFAULT_FG)
  {
    assert tokens[..0] == [] && tokens[..1] == [Spec('d')] && tokens[..1][..0] == [];
    assert ArgCount(tokens[..1]) == 1 && ColorAfter(tokens[..1]) == DEFAULT_FG;
    assert Piece(advances, tokens, args, 0) == "1";
    assert Piece(advances, tokens, args, 1) == if advances then "2" else "1";
    assert Rendered(advances, tokens, args, 1) == Rendered(advances, tokens, args, 0) + Colored("1", DEFAULT_FG);
  }
}
