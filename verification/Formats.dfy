/** What a format prints, piece by piece: plain text prints itself, a colour code sets the colour of what
    follows, each specifier prints its argument in its own way, and formats put together print one after
    the other. */
module Formats {
  import opened Bits
  import opened Numerals
  import opened Picture
  import opened Printk
  import Console

  // ----- formats put together -----

  /** How many characters the first token of a format takes. */
  function Width(f: string): nat
    requires f != []
  {
    if f[0] == COLOR_ESCAPE || f[0] == '%' then 2 else 1
  }

  /** The first token of a format. */
  function Head(f: string): Token
    requires f != [] && |f| >= Width(f)
  {
    if f[0] == COLOR_ESCAPE then ColorTo(f[1]) else if f[0] == '%' then Spec(f[1]) else Literal(f[0])
  }

  lemma FirstToken(f: string)
    requires f != []
    ensures WellFormed(f) <==> |f| >= Width(f) && f[Width(f) - 1] != '\0' && WellFormed(f[Width(f)..])
    ensures WellFormed(f) ==> Tokens(f) == [Head(f)] + Tokens(f[Width(f)..])
  {}

  lemma SameHead(f: string, g: string)
    requires f != [] && |f| >= Width(f)
    ensures Width(f + g) == Width(f) && Head(f + g) == Head(f)
    ensures (f + g)[Width(f) - 1] == f[Width(f) - 1] && (f + g)[Width(f)..] == f[Width(f)..] + g
  {}

  lemma Front(h: Token, t: seq<Token>, u: seq<Token>)
    ensures [h] + (t + u) == ([h] + t) + u
  {}

  lemma {:induction false} TokensConcat(f: string, g: string)
    requires WellFormed(f) && WellFormed(g)
    ensures WellFormed(f + g) && Tokens(f + g) == Tokens(f) + Tokens(g)
    decreases |f|
  {
    if f == [] {
      assert f + g == g;
    } else {
      FirstToken(f);
      SameHead(f, g);
      var rest := f[Width(f)..];
      assert f + g != [] && |rest| < |f|;
      FirstToken(f + g);
      hide *;
      TokensConcat(rest, g);
      Front(Head(f), Tokens(rest), Tokens(g));
    }
  }

  lemma {:induction false} CountConcat(a: seq<Token>, b: seq<Token>)
    ensures ArgCount(a + b) == ArgCount(a) + ArgCount(b)
    decreases |b|
  {
    if b == [] {
      assert a + b == a;
    } else {
      assert (a + b)[..|a + b| - 1] == a + b[..|b| - 1];
      CountConcat(a, b[..|b| - 1]);
    }
  }

  /** The arguments left after `n` were taken. */
  function Left(advances: bool, args: seq<Arg>, n: nat): seq<Arg>
  {
    if advances && n <= |args| then args[n..] else args
  }

  /** Only colour escapes. */
  predicate OnlyColors(q: seq<Token>)
  {
    forall k :: 0 <= k < |q| ==> q[k].ColorTo?
  }

  lemma {:induction false} ColorsTakeNothing(q: seq<Token>)
    requires OnlyColors(q)
    ensures ArgCount(q) == 0
  {
    if q == [] {
    } else {
      ColorsTakeNothing(q[..|q| - 1]);
    }
  }

  /** What comes before `b` matters for its colour only if `b` does not begin with a colour of its own. */
  lemma {:induction false} ColorConcat(a: seq<Token>, q: seq<Token>, b: seq<Token>)
    requires ColorAfter(a) == ColorAfter(q) || (b != [] && b[0].ColorTo?)
    ensures ColorAfter(a + b) == ColorAfter(q + b)
    decreases |b|
  {
    if b == [] {
      assert a + b == a && q + b == q;
    } else {
      assert (a + b)[..|a + b| - 1] == a + b[..|b| - 1];
      assert (q + b)[..|q + b| - 1] == q + b[..|b| - 1];
      if |b| > 1 { ColorConcat(a, q, b[..|b| - 1]); }
    }
  }

  /** Which argument the `k`-th token of `b` reads, after `a` and after `q`. */
  lemma ReadsAfter(advances: bool, a: seq<Token>, q: seq<Token>, b: seq<Token>, k: nat)
    requires k < |b| && OnlyColors(q)
    ensures (a + b)[|a| + k] == b[k] == (q + b)[|q| + k]
    ensures ArgAt(advances, a + b, |a| + k) ==
            ArgAt(advances, q + b, |q| + k) + if advances then ArgCount(a) else 0
  {
    assert (a + b)[..|a| + k] == a + b[..k] && (q + b)[..|q| + k] == q + b[..k];
    CountConcat(a, b[..k]);
    CountConcat(q, b[..k]);
    ColorsTakeNothing(q);
  }

  lemma FittingLeft(advances: bool, a: seq<Token>, b: seq<Token>, args: seq<Arg>)
    requires Fitting(advances, a + b, args)
    ensures Fitting(advances, a, args)
  {
    forall k | 0 <= k < |a| ensures (a + b)[k] == a[k] && (a + b)[..k] == a[..k] {}
  }

  lemma ReadsLeft(advances: bool, args: seq<Arg>, n: nat, i: nat)
    requires i + (if advances then n else 0) < |args|
    ensures i < |Left(advances, args, n)| && Left(advances, args, n)[i] == args[i + if advances then n else 0]
  {}

  lemma FittingAt(advances: bool, a: seq<Token>, q: seq<Token>, b: seq<Token>, args: seq<Arg>, k: nat)
    requires Fitting(advances, a + b, args) && OnlyColors(q) && k < |b| && Consumes(b[k])
    ensures var (i, rest) := (ArgAt(advances, q + b, |q| + k), Left(advances, args, ArgCount(a)));
      i < |rest| && Matches(b[k].c, rest[i])
  {
    ReadsAfter(advances, a, q, b, k);
    assert Consumes((a + b)[|a| + k]);
    hide ArgAt, ArgCount, Left, Matches;
    ReadsLeft(advances, args, ArgCount(a), ArgAt(advances, q + b, |q| + k));
  }

  lemma FittingRight(advances: bool, a: seq<Token>, q: seq<Token>, b: seq<Token>, args: seq<Arg>)
    requires Fitting(advances, a + b, args) && OnlyColors(q)
    ensures Fitting(advances, q + b, Left(advances, args, ArgCount(a)))
  {
    var rest := Left(advances, args, ArgCount(a));
    forall k | 0 <= k < |b| && Consumes(b[k])
      ensures ArgAt(advances, q + b, |q| + k) < |rest| && Matches(b[k].c, rest[ArgAt(advances, q + b, |q| + k)])
    {
      FittingAt(advances, a, q, b, args, k);
    }
    hide ArgAt, ArgCount, Left, Matches;
    forall j | 0 <= j < |q + b| && Consumes((q + b)[j])
      ensures ArgAt(advances, q + b, j) < |rest| && Matches((q + b)[j].c, rest[ArgAt(advances, q + b, j)])
    {
      assert (q + b)[j] == if j < |q| then q[j] else b[j - |q|];
      assert |q| + (j - |q|) == j;
    }
  }

  /** The same token, reading the same argument once `n` of them are gone, prints the same. */
  lemma PieceMoved(advances: bool, t: seq<Token>, args: seq<Arg>, i: nat, u: seq<Token>, j: nat, n: nat)
    requires i < |t| && j < |u| && t[i] == u[j]
    requires Fitting(advances, t, args) && Fitting(advances, u, Left(advances, args, n))
    requires ArgAt(advances, t, i) == ArgAt(advances, u, j) + if advances then n else 0
    ensures Piece(advances, t, args, i) == Piece(advances, u, Left(advances, args, n), j)
  {
    hide ArgAt, ArgCount, Formatted, Matches, Left;
    if Consumes(t[i]) { ReadsLeft(advances, args, n, ArgAt(advances, u, j)); }
  }

  lemma PieceAfter(advances: bool, a: seq<Token>, q: seq<Token>, b: seq<Token>, args: seq<Arg>, k: nat)
    requires Fitting(advances, a + b, args) && OnlyColors(q) && k < |b|
    requires Fitting(advances, q + b, Left(advances, args, ArgCount(a)))
    ensures Piece(advances, a + b, args, |a| + k) ==
            Piece(advances, q + b, Left(advances, args, ArgCount(a)), |q| + k)
  {
    hide *;
    ReadsAfter(advances, a, q, b, k);
    PieceMoved(advances, a + b, args, |a| + k, q + b, |q| + k, ArgCount(a));
  }

  lemma {:induction false} RenderedPrefix(advances: bool, a: seq<Token>, b: seq<Token>, args: seq<Arg>, k: nat)
    requires k <= |a| && Fitting(advances, a + b, args) && Fitting(advances, a, args)
    ensures Rendered(advances, a + b, args, k) == Rendered(advances, a, args, k)
  {
    if k == 0 {
    } else {
      assert (a + b)[k - 1] == a[k - 1] && (a + b)[..k - 1] == a[..k - 1];
      RenderedPrefix(advances, a, b, args, k - 1);
    }
  }

  lemma {:induction false} ColorsPrintNothing(advances: bool, q: seq<Token>, b: seq<Token>, args: seq<Arg>, k: nat)
    requires OnlyColors(q) && k <= |q| && Fitting(advances, q + b, args)
    ensures Rendered(advances, q + b, args, k) == []
  {
    if k == 0 {
    } else {
      assert (q + b)[k - 1] == q[k - 1];
      ColorsPrintNothing(advances, q, b, args, k - 1);
    }
  }

  /** One more token of `b` prints the same after `a` and after `q`. */
  lemma TokenAfter(advances: bool, a: seq<Token>, q: seq<Token>, b: seq<Token>, args: seq<Arg>, k: nat)
    requires Fitting(advances, a + b, args) && OnlyColors(q) && k < |b|
    requires Fitting(advances, q + b, Left(advances, args, ArgCount(a)))
    requires ColorAfter(a) == ColorAfter(q) || b[0].ColorTo?
    ensures Colored(Piece(advances, a + b, args, |a| + k), ColorAfter((a + b)[..|a| + k])) ==
            Colored(Piece(advances, q + b, Left(advances, args, ArgCount(a)), |q| + k), ColorAfter((q + b)[..|q| + k]))
  {
    PieceAfter(advances, a, q, b, args, k);
    LastColor(a, q, b, k);
    ReadsAfter(advances, a, q, b, k);
    hide ColorAfter, ArgCount, Left;
  }

  /** The tokens `b` after `a` print what they print after `q`, which is nothing but colour. */
  lemma {:induction false} RenderedConcat(
      advances: bool, a: seq<Token>, q: seq<Token>, b: seq<Token>, args: seq<Arg>, k: nat)
    requires Fitting(advances, a + b, args) && OnlyColors(q) && k <= |b|
    requires Fitting(advances, a, args) && Fitting(advances, q + b, Left(advances, args, ArgCount(a)))
    requires ColorAfter(a) == ColorAfter(q) || (b != [] && b[0].ColorTo?)
    ensures Rendered(advances, a + b, args, |a| + k) ==
            Rendered(advances, a, args, |a|) +
            Rendered(advances, q + b, Left(advances, args, ArgCount(a)), |q| + k)
  {
    var rest := Left(advances, args, ArgCount(a));
    hide Rendered, Piece, ColorAfter, Fitting, Left, ArgCount, OnlyColors;
    if k == 0 {
      RenderedPrefix(advances, a, b, args, |a|);
      ColorsPrintNothing(advances, q, b, rest, |q|);
    } else {
      var (i, j) := (|a| + (k - 1), |q| + (k - 1));
      RenderedConcat(advances, a, q, b, args, k - 1);
      TokenAfter(advances, a, q, b, args, k - 1);
      LastPiece(advances, a + b, args, i);
      LastPiece(advances, q + b, rest, j);
      Snoc(Rendered(advances, a, args, |a|), Rendered(advances, q + b, rest, j),
           Colored(Piece(advances, q + b, rest, j), ColorAfter((q + b)[..j])));
    }
  }

  lemma Snoc(h: seq<Glyph>, r: seq<Glyph>, p: seq<Glyph>)
    ensures (h + r) + p == h + (r + p)
  {}

  /** Where the colours before the `k`-th token of `b` differ, that token is a colour itself. */
  lemma LastColor(a: seq<Token>, q: seq<Token>, b: seq<Token>, k: nat)
    requires k < |b| && (ColorAfter(a) == ColorAfter(q) || b[0].ColorTo?)
    ensures ColorAfter((a + b)[..|a| + k]) == ColorAfter((q + b)[..|q| + k]) || (k == 0 && b[0].ColorTo?)
  {
    assert (a + b)[..|a| + k] == a + b[..k] && (q + b)[..|q| + k] == q + b[..k];
    if k > 0 || ColorAfter(a) == ColorAfter(q) { ColorConcat(a, q, b[..k]); }
  }

  // ----- colours -----

  /** A format of at most one colour escape. */
  predicate IsPrefix(p: string)
  {
    p == "" || (|p| == 2 && p[0] == '\U{0001}' && p[1] != '\0')
  }

  /** The colour a prefix sets. */
  predicate Sets(p: string, fg: Color)
    requires IsPrefix(p)
  {
    && (p == "" ==> fg == 0x808080)
    && (p != "" ==>
          && (p[1] == '1' ==> fg == 0xFF0000)
          && (p[1] == '2' ==> fg == 0xFFFFFF)
          && (p[1] == '3' ==> fg == 0x00A36C)
          && (p[1] == '4' ==> fg == 0xF8A611)
          && (p[1] == '5' ==> fg == 0xBF40BF)
          && (p[1] !in "12345" ==> fg == 0x808080))
  }

  lemma PrefixIs(p: string, fmt: string) returns (q: seq<Token>)
    requires IsPrefix(p) && WellFormed(fmt)
    ensures OnlyColors(q) && WellFormed(p + fmt) && Tokens(p + fmt) == q + Tokens(fmt)
    ensures q == (if p == "" then [] else [ColorTo(p[1])]) && Sets(p, ColorAfter(q)) && ArgCount(q) == 0
  {
    if p == "" {
      q := [];
      assert p + fmt == fmt;
    } else {
      q := [ColorTo(p[1])];
      assert (p + fmt)[2..] == fmt && q[..0] == [];
    }
  }

  // ----- plain text -----

  predicate Plain(s: string)
  {
    forall k :: 0 <= k < |s| ==> s[k] != '\0' && s[k] != '%' && s[k] != '\U{0001}'
  }

  function Literals(s: string): (t: seq<Token>)
    ensures |t| == |s| && forall k :: 0 <= k < |s| ==> t[k] == Literal(s[k])
  {
    seq(|s|, k requires 0 <= k < |s| => Literal(s[k]))
  }

  lemma {:induction false} PlainTokens(s: string)
    requires Plain(s)
    ensures WellFormed(s) && Tokens(s) == Literals(s)
  {
    if s == [] {
    } else {
      PlainTokens(s[1..]);
    }
  }

  lemma NothingRead(advances: bool, tokens: seq<Token>, args: seq<Arg>)
    requires forall k :: 0 <= k < |tokens| ==> !Consumes(tokens[k])
    ensures Fitting(advances, tokens, args)
  {}

  lemma {:induction false} ColorStays(q: seq<Token>, t: seq<Token>)
    requires forall k :: 0 <= k < |t| ==> !t[k].ColorTo?
    ensures ColorAfter(q + t) == ColorAfter(q)
    decreases |t|
  {
    if t == [] {
      assert q + t == q;
    } else {
      assert (q + t)[..|q + t| - 1] == q + t[..|t| - 1];
      ColorStays(q, t[..|t| - 1]);
    }
  }

  lemma LiteralAt(advances: bool, q: seq<Token>, s: string, args: seq<Arg>, k: nat)
    requires k < |s| && Fitting(advances, q + Literals(s), args)
    ensures Piece(advances, q + Literals(s), args, |q| + k) == [s[k]]
    ensures ColorAfter((q + Literals(s))[..|q| + k]) == ColorAfter(q)
  {
    var t := Literals(s);
    assert (q + t)[..|q| + k] == q + t[..k] && (q + t)[|q| + k] == Literal(s[k]);
    ColorStays(q, t[..k]);
  }

  lemma ColoredSnoc(s: string, c: char, fg: Color)
    ensures Colored(s + [c], fg) == Colored(s, fg) + Colored([c], fg)
  {}

  lemma {:induction false} LiteralsPrint(advances: bool, q: seq<Token>, s: string, args: seq<Arg>, k: nat)
    requires OnlyColors(q) && k <= |s| && Fitting(advances, q + Literals(s), args)
    ensures Rendered(advances, q + Literals(s), args, |q| + k) == Colored(s[..k], ColorAfter(q))
  {
    var t := Literals(s);
    hide Fitting, Rendered, Piece, ColorAfter;
    if k == 0 {
      ColorsPrintNothing(advances, q, t, args, |q|);
    } else {
      LiteralsPrint(advances, q, s, args, k - 1);
      LiteralAt(advances, q, s, args, k - 1);
      LastPiece(advances, q + t, args, |q| + (k - 1));
      assert s[..k] == s[..k - 1] + [s[k - 1]];
      ColoredSnoc(s[..k - 1], s[k - 1], ColorAfter(q));
    }
  }

  /** Plain text prints itself, in the colour set before it: grey by default. */
  lemma PlainPrintsItself(advances: bool, p: string, s: string, args: seq<Arg>) returns (fg: Color)
    requires IsPrefix(p) && Plain(s)
    ensures WellFormed(p + s) && Fitting(advances, Tokens(p + s), args)
    ensures Output(advances, p + s, args) == Colored(s, fg) && Sets(p, fg)
  {
    PlainTokens(s);
    var q := PrefixIs(p, s);
    fg := ColorAfter(q);
    NothingRead(advances, q + Literals(s), args);
    LiteralsPrint(advances, q, s, args, |s|);
    assert s[..|s|] == s;
  }

  /** Without a colour escape. */
  lemma PlainIsGrey(advances: bool, s: string, args: seq<Arg>)
    requires Plain(s)
    ensures WellFormed(s) && Fitting(advances, Tokens(s), args)
    ensures Output(advances, s, args) == Colored(s, 0x808080)
  {
    var fg := PlainPrintsItself(advances, "", s, args);
    assert "" + s == s;
  }

  // ----- specifiers -----

  lemma SpecToken(c: char)
    requires c != '\0'
    ensures WellFormed(['%', c]) && Tokens(['%', c]) == [Spec(c)]
    ensures ArgCount([Spec(c)]) == if c in "scxd" then 1 else 0
  {
    var fmt := ['%', c];
    assert fmt[2..] == [] && Tokens(fmt[2..]) == [];
    assert [Spec(c)][..0] == [] && ArgCount([]) == 0;
  }

  lemma OneSpec(advances: bool, p: string, c: char, args: seq<Arg>) returns (fg: Color)
    requires IsPrefix(p) && c != '\0' && (Consumes(Spec(c)) ==> args != [] && Matches(c, args[0]))
    ensures WellFormed(p + ['%', c]) && Fitting(advances, Tokens(p + ['%', c]), args) && Sets(p, fg)
    ensures Output(advances, p + ['%', c], args) ==
            Colored(if Consumes(Spec(c)) then Formatted(c, args[0]) else "", fg)
  {
    SpecToken(c);
    var q := PrefixIs(p, ['%', c]);
    var tokens := q + [Spec(c)];
    fg := ColorAfter(q);
    assert tokens[..|q|] == q && tokens[|q|] == Spec(c);
    forall k | 0 <= k < |tokens| && Consumes(tokens[k]) ensures k == |q| {}
    ColorsPrintNothing(advances, q, [Spec(c)], args, |q|);
    LastPiece(advances, tokens, args, |q|);
  }

  /** `%x` prints "0x" and the number in hexadecimal, with at least two digits. */
  lemma PrintsHex(advances: bool, p: string, n: u64, args: seq<Arg>) returns (text: string, fg: Color)
    requires IsPrefix(p) && args != [] && args[0] == Num(n)
    ensures WellFormed(p + "%x") && Fitting(advances, Tokens(p + "%x"), args) && Sets(p, fg)
    ensures Output(advances, p + "%x", args) == Colored(text, fg)
    ensures IsHex(text) && Parse(text[2..], 16) == n
  {
    fg := OneSpec(advances, p, 'x', args);
    text := HexString(n);
    HexRoundTrip(n);
  }

  /** `%d` prints the number in decimal, without superfluous zeros. */
  lemma PrintsDecimal(advances: bool, p: string, n: u64, args: seq<Arg>) returns (text: string, fg: Color)
    requires IsPrefix(p) && args != [] && args[0] == Num(n)
    ensures WellFormed(p + "%d") && Fitting(advances, Tokens(p + "%d"), args) && Sets(p, fg)
    ensures Output(advances, p + "%d", args) == Colored(text, fg)
    ensures IsNumeral(text, 10) && Parse(text, 10) == n
  {
    fg := OneSpec(advances, p, 'd', args);
    text := DecString(n);
    ParseNumeral(n, 10);
  }

  /** `%s` prints a string up to its first NUL. */
  lemma PrintsString(advances: bool, p: string, s: string, args: seq<Arg>) returns (n: nat, fg: Color)
    requires IsPrefix(p) && args != [] && args[0] == Str(s)
    ensures WellFormed(p + "%s") && Fitting(advances, Tokens(p + "%s"), args) && Sets(p, fg)
    ensures n <= |s| && (n == |s| || s[n] == '\0') && forall k :: 0 <= k < n ==> s[k] != '\0'
    ensures Output(advances, p + "%s", args) == Colored(s[..n], fg)
  {
    fg := OneSpec(advances, p, 's', args);
    n := Console.CStringEnd(s);
  }

  /** `%c` prints one character; a NUL prints nothing. */
  lemma PrintsCharacter(advances: bool, p: string, c: char, args: seq<Arg>) returns (fg: Color)
    requires IsPrefix(p) && args != [] && args[0] == Chr(c)
    ensures WellFormed(p + "%c") && Fitting(advances, Tokens(p + "%c"), args) && Sets(p, fg)
    ensures Output(advances, p + "%c", args) == Colored(if c == '\0' then "" else [c], fg)
  {
    fg := OneSpec(advances, p, 'c', args);
    if c == '\0' { CStringIs([c], 0); } else { CStringIs([c], 1); }
  }

  /** Any other specifier prints nothing, whatever the arguments. */
  lemma PrintsNothing(advances: bool, p: string, c: char, args: seq<Arg>)
    requires IsPrefix(p) && c !in "scxd" && c != '\0'
    ensures WellFormed(p + ['%', c]) && Fitting(advances, Tokens(p + ['%', c]), args)
    ensures Output(advances, p + ['%', c], args) == []
  {
    var fg := OneSpec(advances, p, c, args);
  }

  // ----- laws -----

  /** How many arguments a format takes. */
  function Taken(fmt: string): nat
    requires WellFormed(fmt)
  {
    ArgCount(Tokens(fmt))
  }

  /** Plain text takes none, a known specifier one, any other none; formats put together take the sum. */
  lemma TakenIs(p: string, s: string, c: char, f: string, g: string)
    requires IsPrefix(p) && Plain(s) && c != '\0' && WellFormed(f) && WellFormed(g)
    ensures WellFormed(p + s) && Taken(p + s) == 0
    ensures WellFormed(['%', c]) && Taken(['%', c]) == if c in "scxd" then 1 else 0
    ensures WellFormed(f + g) && Taken(f + g) == Taken(f) + Taken(g)
  {
    hide ArgCount, Tokens, WellFormed;
    PlainTakesNone(p, s);
    SpecToken(c);
    TokensConcat(f, g);
    CountConcat(Tokens(f), Tokens(g));
  }

  lemma PlainTakesNone(p: string, s: string)
    requires IsPrefix(p) && Plain(s)
    ensures WellFormed(p + s) && Taken(p + s) == 0
  {
    PlainTokens(s);
    var q := PrefixIs(p, s);
    hide ArgCount, Tokens, WellFormed;
    CountConcat(q, Literals(s));
    NoneTaken(Literals(s));
  }

  lemma {:induction false} NoneTaken(t: seq<Token>)
    requires forall k :: 0 <= k < |t| ==> !Consumes(t[k])
    ensures ArgCount(t) == 0
  {
    if t == [] {
    } else {
      NoneTaken(t[..|t| - 1]);
    }
  }

  lemma OutputIs(advances: bool, fmt: string, tokens: seq<Token>, args: seq<Arg>)
    requires WellFormed(fmt) && Tokens(fmt) == tokens && Fitting(advances, tokens, args)
    ensures Output(advances, fmt, args) == Rendered(advances, tokens, args, |tokens|)
  {}

  /** Two formats that follow each other print one after the other, if what comes before the second
      leaves the colour that `q` does or the second sets its own. */
  lemma OutputConcat(advances: bool, f: string, g: string, fg: string, a: seq<Token>, q: seq<Token>, b: seq<Token>,
      args: seq<Arg>, n: nat)
    requires WellFormed(f) && WellFormed(g) && WellFormed(fg) && OnlyColors(q) && n == ArgCount(a)
    requires Tokens(f) == a && Tokens(g) == q + b && Tokens(fg) == a + b && Fitting(advances, Tokens(fg), args)
    requires ColorAfter(a) == ColorAfter(q) || (b != [] && b[0].ColorTo?)
    ensures Fitting(advances, Tokens(f), args) && Fitting(advances, Tokens(g), Left(advances, args, n))
    ensures Output(advances, fg, args) == Output(advances, f, args) + Output(advances, g, Left(advances, args, n))
  {
    hide *;
    FittingLeft(advances, a, b, args);
    FittingRight(advances, a, q, b, args);
    RenderedConcat(advances, a, q, b, args, |b|);
    OutputIs(advances, fg, a + b, args);
    OutputIs(advances, f, a, args);
    OutputIs(advances, g, q + b, Left(advances, args, n));
  }

  /** A colour escape starts afresh: what follows it prints as if it stood alone. */
  lemma EscapeStartsAfresh(advances: bool, f: string, p: string, g: string, args: seq<Arg>)
    requires WellFormed(f) && IsPrefix(p) && p != "" && WellFormed(g)
    requires WellFormed(f + (p + g)) && Fitting(advances, Tokens(f + (p + g)), args)
    ensures Fitting(advances, Tokens(f), args) && WellFormed(p + g)
    ensures Fitting(advances, Tokens(p + g), Left(advances, args, Taken(f)))
    ensures Output(advances, f + (p + g), args) ==
            Output(advances, f, args) + Output(advances, p + g, Left(advances, args, Taken(f)))
  {
    var q := PrefixIs(p, g);
    TokensConcat(f, p + g);
    var (a, b) := (Tokens(f), Tokens(p + g));
    assert [] + b == b && b[0] == q[0];
    hide Fitting, Output, Left, ColorAfter, Tokens, WellFormed, ArgCount;
    OutputConcat(advances, f, p + g, f + (p + g), a, [], b, args, Taken(f));
  }

  /** Within one colour, formats print one after the other. */
  lemma SameColorConcat(advances: bool, p: string, f: string, g: string, args: seq<Arg>)
    requires IsPrefix(p) && WellFormed(f) && '\U{0001}' !in f && WellFormed(g)
    requires WellFormed(p + (f + g)) && Fitting(advances, Tokens(p + (f + g)), args)
    ensures WellFormed(p + f) && Fitting(advances, Tokens(p + f), args)
    ensures WellFormed(p + g) && Fitting(advances, Tokens(p + g), Left(advances, args, Taken(f)))
    ensures Output(advances, p + (f + g), args) ==
            Output(advances, p + f, args) + Output(advances, p + g, Left(advances, args, Taken(f)))
  {
    TokensConcat(f, g);
    var q := SamePrefix(p, f, g);
    NoEscape(f);
    var (t, u, n) := (Tokens(f), Tokens(g), Taken(f));
    assert n == ArgCount(t);
    hide *;
    SameColor(q, t, u);
    OutputConcat(advances, p + f, p + g, p + (f + g), q + t, q, u, args, n);
  }

  lemma SameColor(q: seq<Token>, t: seq<Token>, u: seq<Token>)
    requires ArgCount(q) == 0 && forall k :: 0 <= k < |t| ==> !t[k].ColorTo?
    ensures ColorAfter(q + t) == ColorAfter(q) && ArgCount(q + t) == ArgCount(t) && q + (t + u) == (q + t) + u
  {
    ColorStays(q, t);
    CountConcat(q, t);
  }

  lemma SamePrefix(p: string, f: string, g: string) returns (q: seq<Token>)
    requires IsPrefix(p) && WellFormed(f) && WellFormed(g) && WellFormed(f + g)
    ensures OnlyColors(q) && ArgCount(q) == 0
    ensures WellFormed(p + f) && WellFormed(p + g) && WellFormed(p + (f + g))
    ensures Tokens(p + f) == q + Tokens(f) && Tokens(p + g) == q + Tokens(g)
    ensures Tokens(p + (f + g)) == q + Tokens(f + g)
  {
    q := PrefixIs(p, f);
    var q' := PrefixIs(p, g);
    var q'' := PrefixIs(p, f + g);
  }

  /** A format that sets no colour prints grey. */
  lemma GreyByDefault(advances: bool, fmt: string, args: seq<Arg>)
    requires WellFormed(fmt) && Fitting(advances, Tokens(fmt), args)
    ensures var grey := ['\U{0001}', '0'];
      && WellFormed(grey + fmt) && Fitting(advances, Tokens(grey + fmt), args)
      && Output(advances, grey + fmt, args) == Output(advances, fmt, args)
  {
    var grey := ['\U{0001}', '0'];
    var q := PrefixIs(grey, fmt);
    var b := Tokens(fmt);
    assert [] + b == b && Left(advances, args, 0) == args;
    assert ColorAfter([]) == ColorAfter(q) && q[..0] == [];
    assert Tokens("") == [] && ArgCount([]) == 0 && Output(advances, "", args) == [];
    hide Fitting, Output, Left, ColorAfter, Tokens, WellFormed, ArgCount;
    OutputConcat(advances, "", grey + fmt, fmt, [], q, b, args, 0);
  }

  lemma {:induction false} NoEscape(f: string)
    requires WellFormed(f) && '\U{0001}' !in f
    ensures forall k :: 0 <= k < |Tokens(f)| ==> !Tokens(f)[k].ColorTo?
    decreases |f|
  {
    if f == [] {
    } else {
      NoEscape(f[if f[0] == '%' then 2 else 1..]);
    }
  }
}
