/** The kernel log printer: `get_color`, `handle_format` and `vprintk` of
    sys/kernel/core/printk.c:125-190. */
module Printk {
  import Bits
  import opened Numerals
  import opened Picture
  import Console

  const DEFAULT_FG: Color := 0x808080
  const COLOR_ESCAPE: char := '\U{0001}'

  function GetColor(code: char): Color
  {
    match code
    case '0' => DEFAULT_FG
    case '1' => 0xFF0000
    case '2' => 0xFFFFFF
    case '3' => 0x00A36C
    case '4' => 0xF8A611
    case '5' => 0xBF40BF
    case _ => DEFAULT_FG
  }

  /** An argument of the variable part of the call. */
  datatype Arg = Str(s: string) | Chr(c: char) | Num(n: Bits.u64)

  // ----- formats as tokens -----

  datatype Token = Literal(c: char) | Spec(c: char) | ColorTo(code: char)

  /** A format is a C string.  `vprintk` reads one character after each `%` and each colour
      escape, so neither may end the format. */
  predicate WellFormed(fmt: string)
    decreases |fmt|
  {
    if fmt == [] then true
    else if fmt[0] == '%' || fmt[0] == COLOR_ESCAPE then |fmt| >= 2 && fmt[1] != '\0' && WellFormed(fmt[2..])
    else fmt[0] != '\0' && WellFormed(fmt[1..])
  }

  function Tokens(fmt: string): seq<Token>
    requires WellFormed(fmt)
    decreases |fmt|
  {
    if fmt == [] then []
    else if fmt[0] == COLOR_ESCAPE then [ColorTo(fmt[1])] + Tokens(fmt[2..])
    else if fmt[0] == '%' then [Spec(fmt[1])] + Tokens(fmt[2..])
    else [Literal(fmt[0])] + Tokens(fmt[1..])
  }

  /** The tokens written back as a format. */
  function Unparse(tokens: seq<Token>): string
  {
    if tokens == [] then []
    else (match tokens[0]
          case Literal(c) => [c]
          case Spec(c) => ['%', c]
          case ColorTo(code) => [COLOR_ESCAPE, code]) + Unparse(tokens[1..])
  }

  predicate GoodToken(t: Token)
  {
    match t
    case Literal(c) => c != '%' && c != COLOR_ESCAPE && c != '\0'
    case Spec(c) => c != '\0'
    case ColorTo(code) => code != '\0'
  }

  /** No character of a format is lost or read twice. */
  lemma {:induction false} TokensRoundTrip(fmt: string)
    requires WellFormed(fmt)
    ensures Unparse(Tokens(fmt)) == fmt
    ensures forall k :: 0 <= k < |Tokens(fmt)| ==> GoodToken(Tokens(fmt)[k])
    decreases |fmt|
  {
    if fmt == [] {
    } else {
      var rest := if fmt[0] == COLOR_ESCAPE || fmt[0] == '%' then fmt[2..] else fmt[1..];
      TokensRoundTrip(rest);
      assert Tokens(fmt)[1..] == Tokens(rest);
    }
  }

  lemma {:induction false} UnparseRoundTrip(tokens: seq<Token>)
    requires forall k :: 0 <= k < |tokens| ==> GoodToken(tokens[k])
    ensures WellFormed(Unparse(tokens)) && Tokens(Unparse(tokens)) == tokens
  {
    if tokens == [] {
    } else {
      UnparseRoundTrip(tokens[1..]);
      var fmt := Unparse(tokens);
      var rest := Unparse(tokens[1..]);
      assert fmt[if tokens[0].Literal? then 1 else 2..] == rest;
    }
  }

  // ----- what a format prints -----

  predicate Consumes(t: Token)
  {
    t.Spec? && (t.c == 's' || t.c == 'c' || t.c == 'x' || t.c == 'd')
  }

  /** How many arguments the tokens take: one for each known specifier, none for anything else. */
  function ArgCount(tokens: seq<Token>): nat
  {
    if tokens == [] then 0
    else ArgCount(tokens[..|tokens| - 1]) + (if Consumes(tokens[|tokens| - 1]) then 1 else 0)
  }

  /** The colour in force after the tokens: that of the last colour escape. */
  function ColorAfter(tokens: seq<Token>): Color
  {
    if tokens == [] then DEFAULT_FG
    else if tokens[|tokens| - 1].ColorTo? then GetColor(tokens[|tokens| - 1].code)
    else ColorAfter(tokens[..|tokens| - 1])
  }

  predicate Matches(spec: char, arg: Arg)
  {
    match spec
    case 's' => arg.Str?
    case 'c' => arg.Chr?
    case _ => arg.Num?
  }

  function Formatted(spec: char, arg: Arg): string
    requires Matches(spec, arg)
  {
    match spec
    case 's' => CString(arg.s)
    case 'c' => CString([arg.c])
    case 'x' => HexString(arg.n)
    case _ => DecString(arg.n)
  }

  /** Which argument the `k`-th token reads.  `handle_format` is passed the list by value.  Where
      `va_list` is an array type the list `advances` for the caller all the same, and each specifier
      reads the next argument; where it is a structure, as on AArch64, the caller keeps its copy, and
      every specifier reads the first one. */
  function ArgAt(advances: bool, tokens: seq<Token>, k: nat): nat
    requires k <= |tokens|
  {
    if advances then ArgCount(tokens[..k]) else 0
  }

  /** The arguments fit the specifiers that read them. */
  ghost predicate Fitting(advances: bool, tokens: seq<Token>, args: seq<Arg>)
  {
    forall k :: 0 <= k < |tokens| && Consumes(tokens[k]) ==>
      ArgAt(advances, tokens, k) < |args| && Matches(tokens[k].c, args[ArgAt(advances, tokens, k)])
  }

  /** What the `k`-th token prints. */
  ghost function Piece(advances: bool, tokens: seq<Token>, args: seq<Arg>, k: nat): string
    requires k < |tokens| && Fitting(advances, tokens, args)
  {
    match tokens[k]
    case Literal(c) => [c]
    case Spec(c) => if Consumes(tokens[k]) then Formatted(c, args[ArgAt(advances, tokens, k)]) else []
    case ColorTo(_) => []
  }

  /** What the first `k` tokens print, each in the colour in force at its place. */
  ghost function Rendered(advances: bool, tokens: seq<Token>, args: seq<Arg>, k: nat): seq<Glyph>
    requires k <= |tokens| && Fitting(advances, tokens, args)
  {
    if k == 0 then []
    else Rendered(advances, tokens, args, k - 1)
         + Colored(Piece(advances, tokens, args, k - 1), ColorAfter(tokens[..k - 1]))
  }

  ghost function Output(advances: bool, fmt: string, args: seq<Arg>): seq<Glyph>
    requires WellFormed(fmt) && Fitting(advances, Tokens(fmt), args)
  {
    Rendered(advances, Tokens(fmt), args, |Tokens(fmt)|)
  }

  lemma NothingWritten(fb: seq<Color>, g: Geometry, font: seq<nat>, at: Cursor)
    requires g.stride > 0 && GoodFont(font)
    ensures Write(fb, g, font, at, []) == fb && CursorAfter(at, []) == at
  {}

  lemma LastPiece(advances: bool, tokens: seq<Token>, args: seq<Arg>, k: nat)
    requires k < |tokens| && Fitting(advances, tokens, args)
    ensures Rendered(advances, tokens, args, k + 1) ==
            Rendered(advances, tokens, args, k) + Colored(Piece(advances, tokens, args, k), ColorAfter(tokens[..k]))
  {}

  lemma {:induction false} RenderedGrows(advances: bool, tokens: seq<Token>, args: seq<Arg>, j: nat, k: nat)
    requires j <= k <= |tokens| && Fitting(advances, tokens, args)
    ensures Rendered(advances, tokens, args, j) <= Rendered(advances, tokens, args, k)
    decreases k
  {
    hide *;
    if j < k {
      LastPiece(advances, tokens, args, k - 1);
      RenderedGrows(advances, tokens, args, j, k - 1);
    }
  }

  // ----- the printer -----

  class Logger {
    const screen: Console.Screen
    /** The static buffers of `hex2str` and `dec2str`. */
    const hexString: array<char>
    const decString: array<char>

    /** Whether the caller's argument list moves on when `handle_format` reads from it. */
    const advances: bool

    constructor (screen: Console.Screen, advances: bool)
      ensures this.screen == screen && this.advances == advances
      ensures hexString.Length == 80 && decString.Length == 80
    {
      this.screen := screen;
      this.advances := advances;
      hexString := new char[80];
      decString := new char[80];
    }

    ghost predicate Valid()
    {
      && screen.Valid() && hexString.Length == 80 && decString.Length == 80
      && hexString as object != screen.fb && decString as object != screen.fb
    }

    /** `handle_format`: print one argument and step over it; `next` is the argument list. */
    method HandleFormat(c: char, args: seq<Arg>, next: nat, color: Color) returns (rest: nat)
      requires Valid()
      requires Consumes(Spec(c)) ==> next < |args| && Matches(c, args[next])
      requires Consumes(Spec(c)) ==> GoodText(Colored(Formatted(c, args[next]), color))
      modifies screen, screen.fb, hexString, decString
      ensures rest == if Consumes(Spec(c)) && advances then next + 1 else next
      ensures var text := if Consumes(Spec(c)) then Colored(Formatted(c, args[next]), color) else [];
        && screen.fb[..] == Write(old(screen.fb[..]), screen.g, screen.font, old(screen.At()), text)
        && screen.At() == CursorAfter(old(screen.At()), text)
    {
      NothingWritten(screen.fb[..], screen.g, screen.font, screen.At());
      hide Write, CursorAfter, CString, HexString, DecString;
      rest := next;
      match c {
        case 's' =>
          screen.PutStr(args[next].s, color);
          rest := if advances then next + 1 else next;
        case 'c' =>
          screen.PutStr([args[next].c], color);
          rest := if advances then next + 1 else next;
        case 'x' =>
          var len := Hex2Str(hexString, args[next].n);
          HexHasNoNul(args[next].n);
          CStringIs(hexString[..], len);
          screen.PutStr(hexString[..], color);
          rest := if advances then next + 1 else next;
        case 'd' =>
          var len := Dec2Str(decString, args[next].n);
          NumeralHasNoNul(args[next].n, 10);
          CStringIs(decString[..], len);
          screen.PutStr(decString[..], color);
          rest := if advances then next + 1 else next;
        case _ =>
      }
    }

    /** `vprintk`. */
    method VPrintk(fmt: string, args: seq<Arg>)
      requires Valid() && WellFormed(fmt) && Fitting(advances, Tokens(fmt), args)
      requires GoodText(Output(advances, fmt, args))
      modifies screen, screen.fb, hexString, decString
      ensures screen.fb[..] ==
              Write(old(screen.fb[..]), screen.g, screen.font, old(screen.At()), Output(advances, fmt, args))
      ensures screen.At() == CursorAfter(old(screen.At()), Output(advances, fmt, args))
    {
      hide Write, CursorAfter, Rendered, GoodText;
      ghost var (tokens, k) := (Tokens(fmt), 0);
      ghost var (fb, at) := (screen.fb[..], screen.At());
      StartOutput(advances, fb, screen.g, screen.font, at, tokens, args);
      var color := DEFAULT_FG;
      var (i, ap) := (0, 0);
      assert fmt[0..] == fmt && tokens[0..] == tokens;
      while i < |fmt|
        invariant 0 <= i <= |fmt| && 0 <= k <= |tokens| && WellFormed(fmt[i..]) && Tokens(fmt[i..]) == tokens[k..]
        invariant color == ColorAfter(tokens[..k]) && ap == ArgAt(advances, tokens, k)
        invariant GoodText(Rendered(advances, tokens, args, k))
        invariant screen.fb[..] == Write(fb, screen.g, screen.font, at, Rendered(advances, tokens, args, k))
        invariant screen.At() == CursorAfter(at, Rendered(advances, tokens, args, k))
        decreases |fmt| - i
      {
        NextToken(fmt, tokens, i, k);
        NextOutput(advances, fb, screen.g, screen.font, at, tokens, args, k);
        if fmt[i] == COLOR_ESCAPE {
          color := GetColor(fmt[i + 1]);
          i, k := i + 2, k + 1;
          continue;
        }
        if fmt[i] == '%' {
          i := i + 1;
          ap := HandleFormat(fmt[i], args, ap, color);
        } else {
          assert CString([fmt[i]]) == [fmt[i]] by { CStringIs([fmt[i]], 1); }
          screen.PutStr([fmt[i]], color);
        }
        i, k := i + 1, k + 1;
      }
      assert |fmt[i..]| == 0 && |tokens[k..]| == 0;
    }
  }

  /** The next token of the format is the one at the reading position. */
  lemma NextToken(fmt: string, tokens: seq<Token>, i: nat, k: nat)
    requires i < |fmt| && k <= |tokens| && WellFormed(fmt[i..]) && Tokens(fmt[i..]) == tokens[k..]
    ensures k < |tokens|
    ensures var two := fmt[i] == '%' || fmt[i] == COLOR_ESCAPE;
      var next := if two then i + 2 else i + 1;
      && (two ==> i + 1 < |fmt|) && next <= |fmt|
      && tokens[k] == (if fmt[i] == COLOR_ESCAPE then ColorTo(fmt[i + 1])
                       else if fmt[i] == '%' then Spec(fmt[i + 1]) else Literal(fmt[i]))
      && fmt[i] != '\0' && WellFormed(fmt[next..]) && Tokens(fmt[next..]) == tokens[k + 1..]
    ensures ColorAfter(tokens[..k + 1]) ==
            if fmt[i] == COLOR_ESCAPE then GetColor(fmt[i + 1]) else ColorAfter(tokens[..k])
    ensures ArgCount(tokens[..k + 1]) == ArgCount(tokens[..k]) + if Consumes(tokens[k]) then 1 else 0
  {
    var rest := fmt[i..];
    var n := if fmt[i] == '%' || fmt[i] == COLOR_ESCAPE then 2 else 1;
    assert rest[0] == fmt[i] && (n == 2 ==> rest[1] == fmt[i + 1]);
    assert rest[n..] == fmt[i + n..];
    assert tokens[k..][0] == tokens[k] && tokens[k..][1..] == tokens[k + 1..];
    assert tokens[..k + 1][..k] == tokens[..k];
  }

  lemma StartOutput(advances: bool, fb: seq<Color>, g: Geometry, font: seq<nat>, at: Cursor,
      tokens: seq<Token>, args: seq<Arg>)
    requires g.stride > 0 && GoodFont(font) && Fitting(advances, tokens, args)
    ensures GoodText(Rendered(advances, tokens, args, 0))
    ensures Write(fb, g, font, at, Rendered(advances, tokens, args, 0)) == fb
    ensures CursorAfter(at, Rendered(advances, tokens, args, 0)) == at
    ensures ColorAfter(tokens[..0]) == DEFAULT_FG && ArgCount(tokens[..0]) == 0
  {}

  /** The output so far, the next piece and the output after it are all printable. */
  lemma PieceIsPrintable(advances: bool, tokens: seq<Token>, args: seq<Arg>, k: nat)
    requires Fitting(advances, tokens, args) && k < |tokens|
    requires GoodText(Rendered(advances, tokens, args, |tokens|))
    ensures var (before, after) := (Rendered(advances, tokens, args, k), Rendered(advances, tokens, args, k + 1));
      var piece := Colored(Piece(advances, tokens, args, k), ColorAfter(tokens[..k]));
      && after == before + piece
      && GoodText(before) && GoodText(piece) && GoodText(after)
  {
    var (before, all) := (Rendered(advances, tokens, args, k), Rendered(advances, tokens, args, |tokens|));
    var piece := Colored(Piece(advances, tokens, args, k), ColorAfter(tokens[..k]));
    assert Rendered(advances, tokens, args, k + 1) == before + piece;
    RenderedGrows(advances, tokens, args, k + 1, |tokens|);
    hide Rendered, Piece, ColorAfter, Fitting;
    PartsPrintable(before, piece, all);
  }

  lemma PartsPrintable(before: seq<Glyph>, piece: seq<Glyph>, all: seq<Glyph>)
    requires before + piece <= all && GoodText(all)
    ensures GoodText(before) && GoodText(piece) && GoodText(before + piece)
  {
    var after := before + piece;
    assert forall j :: 0 <= j < |after| ==> after[j] == all[j];
    assert forall j :: 0 <= j < |before| ==> before[j] == after[j];
    assert forall j :: 0 <= j < |piece| ==> piece[j] == after[|before| + j];
  }

  /** Printing the piece of the next token extends the output by it. */
  lemma NextOutput(advances: bool, fb: seq<Color>, g: Geometry, font: seq<nat>, at: Cursor,
      tokens: seq<Token>, args: seq<Arg>, k: nat)
    requires g.stride > 0 && GoodFont(font) && Fitting(advances, tokens, args) && k < |tokens|
    requires GoodText(Rendered(advances, tokens, args, |tokens|))
    ensures var (before, after) := (Rendered(advances, tokens, args, k), Rendered(advances, tokens, args, k + 1));
      var piece := Colored(Piece(advances, tokens, args, k), ColorAfter(tokens[..k]));
      && GoodText(before) && GoodText(piece) && GoodText(after)
      && Write(fb, g, font, at, after) == Write(Write(fb, g, font, at, before), g, font, CursorAfter(at, before), piece)
      && CursorAfter(at, after) == CursorAfter(CursorAfter(at, before), piece)
      && (piece == [] ==> after == before)
  {
    PieceIsPrintable(advances, tokens, args, k);
    hide Rendered, Piece, Write, CursorAfter;
    var before := Rendered(advances, tokens, args, k);
    var piece := Colored(Piece(advances, tokens, args, k), ColorAfter(tokens[..k]));
    CursorConcat(at, before, piece);
    WriteConcat(fb, g, font, at, before, piece);
  }

  lemma {:induction false} NumeralHasNoNul(n: nat, base: nat)
    requires IsBase(base)
    ensures forall k :: 0 <= k < |Numeral(n, base)| ==> Numeral(n, base)[k] != '\0'
  {
    DivBack(n, base);
    if n < base {
    } else {
      NumeralHasNoNul(n / base, base);
    }
  }

  lemma HexHasNoNul(n: nat)
    ensures forall k :: 0 <= k < |HexString(n)| ==> HexString(n)[k] != '\0'
  {
    NumeralHasNoNul(n, 16);
  }
}
