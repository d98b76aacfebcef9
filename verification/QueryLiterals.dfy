/** How texts spell tokens: numbers by the places of their digits, signs, and blanks between them. */
module QueryLiterals {
  import opened QuerySyntax
  import opened QueryPrinter

  // ---------------------------------------------------------------- numbers by places

  function Power(base: nat, n: nat): nat { if n == 0 then 1 else base * Power(base, n - 1) }

  /** The sum of the digits, each times the power of the base for its place. */
  function PlaceValue(base: nat, ds: string): int
  {
    if ds == [] then 0 else Digit(ds[0]) * Power(base, |ds| - 1) + PlaceValue(base, ds[1..])
  }

  /** How many leading digits lie below 8. */
  function OctalRun(ds: string): (k: nat)
    ensures k <= |ds| && forall i :: 0 <= i < k ==> '0' <= ds[i] <= '7'
    ensures k < |ds| ==> !('0' <= ds[k] <= '7')
  {
    if ds == [] || !('0' <= ds[0] <= '7') then 0 else 1 + OctalRun(ds[1..])
  }

  /** The number that digits spell: octal behind a leading zero, and only up to the first 8 or 9;
      decimal otherwise. */
  function Spelled(ds: string): int
  {
    if ds != [] && ds[0] == '0' then PlaceValue(8, ds[..OctalRun(ds)]) else PlaceValue(10, ds)
  }

  /** Digits, perhaps behind a minus sign. */
  predicate IsLiteral(l: string)
  {
    && l != [] && (l[0] == '-' || '0' <= l[0] <= '9')
    && forall i :: 1 <= i < |l| ==> '0' <= l[i] <= '9'
  }

  function SpelledValue(l: string): int
    requires IsLiteral(l)
  {
    if l[0] == '-' then -Spelled(l[1..]) else Spelled(l)
  }

  lemma {:induction false} InBaseStops(base: nat, ds: string, k: nat, acc: int)
    requires k <= |ds| && forall i :: 0 <= i < k ==> IsDigit(ds[i]) && Digit(ds[i]) < base
    requires k < |ds| ==> !IsDigit(ds[k]) || Digit(ds[k]) >= base
    ensures InBase(base, ds, acc) == acc * Power(base, k) + PlaceValue(base, ds[..k])
    decreases k
  {
    if k == 0 {
      assert ds[..k] == [];
    } else {
      var next := base * acc + Digit(ds[0]);
      InBaseStops(base, ds[1..], k - 1, next);
      assert ds[..k][1..] == ds[1..][..k - 1];
      Distribute(base, acc, Digit(ds[0]), Power(base, k - 1));
    }
  }

  lemma Distribute(base: nat, acc: int, d: int, p: nat)
    ensures (base * acc + d) * p == acc * (base * p) + d * p
  {
  }

  lemma MagnitudeIs(ds: string)
    requires forall i :: 0 <= i < |ds| ==> IsDigit(ds[i])
    ensures Magnitude(ds) == Spelled(ds)
  {
    hide InBase, PlaceValue, Power;
    if ds != [] && ds[0] == '0' {
      InBaseStops(8, ds, OctalRun(ds), 0);
    } else {
      InBaseStops(10, ds, |ds|, 0);
      assert ds[..|ds|] == ds;
    }
  }

  /** A literal is a token just when it has fewer than 16 bytes and its value is an int. */
  lemma LiteralIs(l: string)
    requires IsLiteral(l)
    ensures LiteralToken(l) ==
            if |l| < 16 && -0x8000_0000 <= SpelledValue(l) <= 0x7fff_ffff then TVal(SpelledValue(l)) else TBad
  {
    hide Magnitude, Spelled;
    MagnitudeIs(if l[0] == '-' then l[1..] else l);
  }

  // ---------------------------------------------------------------- texts in pieces

  datatype Piece = Blank | Sign(t: Token) | Number(l: string)

  predicate GoodPiece(p: Piece)
  {
    match p
    case Blank => true
    case Sign(t) => t.TOpr? || t.TOpen? || t.TClose?
    case Number(l) => IsLiteral(l) && |l| < 16 && -0x8000_0000 <= SpelledValue(l) <= 0x7fff_ffff
  }

  function PieceText(p: Piece): string
    requires GoodPiece(p)
  {
    match p
    case Blank => " "
    case Sign(TOpr(NotOp)) => "!"
    case Sign(TOpr(AndOp)) => "&"
    case Sign(TOpr(OrOp)) => "|"
    case Sign(TOpen) => "("
    case Sign(TClose) => ")"
    case Number(l) => l
  }

  function PieceTokens(p: Piece): seq<Token>
    requires GoodPiece(p)
  {
    match p
    case Blank => []
    case Sign(t) => [t]
    case Number(l) => [TVal(SpelledValue(l))]
  }

  /** Numbers are not run together: none follows another without a sign of its own. */
  predicate GoodPieces(ps: seq<Piece>)
  {
    && (forall i :: 0 <= i < |ps| ==> GoodPiece(ps[i]))
    && forall i, j :: 0 <= i && j == i + 1 < |ps| && ps[i].Number? && ps[j].Number? ==> ps[j].l[..1] == "-"
  }

  function TextOf(ps: seq<Piece>): string
    requires forall i :: 0 <= i < |ps| ==> GoodPiece(ps[i])
  {
    if ps == [] then [] else PieceText(ps[0]) + TextOf(ps[1..])
  }

  function TokensOf(ps: seq<Piece>): seq<Token>
    requires forall i :: 0 <= i < |ps| ==> GoodPiece(ps[i])
  {
    if ps == [] then [] else PieceTokens(ps[0]) + TokensOf(ps[1..])
  }

  lemma NumberTokens(l: string)
    requires GoodPiece(Number(l))
    ensures Tokenize(l) == [TVal(SpelledValue(l))]
  {
    hide SpelledValue, LiteralToken;
    LiteralIs(l);
    AllDigits(l[1..]);
    assert l[..|l|] == l && l[|l|..] == [];
  }

  lemma SignTokens(p: Piece)
    requires GoodPiece(p) && !p.Number?
    ensures Tokenize(PieceText(p)) == PieceTokens(p) && |PieceText(p)| == 1 && !StartsLiteral(PieceText(p)[0])
  {
    assert PieceText(p)[1..] == [];
  }

  lemma OnePiece(p: Piece)
    requires GoodPiece(p)
    ensures Tokenize(PieceText(p)) == PieceTokens(p) && TBad !in PieceTokens(p)
  {
    hide Tokenize, SpelledValue;
    if p.Number? {
      NumberTokens(p.l);
    } else {
      SignTokens(p);
    }
  }

  /** Whatever is spelled in pieces is read as the tokens of the pieces. */
  lemma {:induction false} SpelledIsRead(ps: seq<Piece>)
    requires GoodPieces(ps)
    ensures Tokenize(TextOf(ps)) == TokensOf(ps)
    decreases |ps|
  {
    hide Tokenize, PieceText, PieceTokens, GoodPiece;
    if ps == [] {
      NoTokens();
    } else {
      SpelledIsRead(ps[1..]);
      OnePiece(ps[0]);
      KeptApart(ps);
      TokenizeAppend(PieceText(ps[0]), TextOf(ps[1..]));
    }
  }

  lemma KeptApart(ps: seq<Piece>)
    requires GoodPieces(ps) && ps != []
    ensures var a, b := PieceText(ps[0]), TextOf(ps[1..]);
            a == [] || !StartsLiteral(a[|a| - 1]) || b == [] || !IsDigit(b[0])
  {
    if |ps| > 1 && ps[0].Number? {
      var p := ps[1];
      assert GoodPiece(p) && ps[1..][0] == p;
      if !p.Number? {
        SignTokens(p);
      } else {
        assert p.l[..1][0] == '-';
      }
    } else if !ps[0].Number? {
      SignTokens(ps[0]);
    }
  }

  /** Whatever is read without error is spelled in pieces. */
  lemma {:induction false} ReadIsSpelled(text: string) returns (ps: seq<Piece>)
    requires TBad !in Tokenize(text)
    ensures GoodPieces(ps) && TextOf(ps) == text
    decreases |text|
  {
    hide Tokenize;
    if text == [] {
      ps := [];
    } else {
      var p := FirstPiece(text);
      var k := |PieceText(p)|;
      ps := ReadIsSpelled(text[k..]);
      PieceBefore(p, ps);
      ps := [p] + ps;
      assert text == text[..k] + text[k..];
    }
  }

  /** The first piece, behind which nothing continues a number. */
  lemma FirstPiece(text: string) returns (p: Piece)
    requires text != [] && TBad !in Tokenize(text)
    ensures GoodPiece(p) && PieceText(p) != [] && PieceText(p) <= text
    ensures TBad !in Tokenize(text[|PieceText(p)|..])
    ensures var rest := text[|PieceText(p)|..]; p.Number? && rest != [] ==> !('0' <= rest[0] <= '9')
  {
    hide LiteralToken, SpelledValue;
    if text[0] == ' ' {
      p := Blank;
    } else if StartsLiteral(text[0]) {
      var k := 1 + DigitRun(text[1..]);
      var l := text[..k];
      forall i | 1 <= i < |l| ensures '0' <= l[i] <= '9' { assert l[i] == text[1..][i - 1]; }
      LiteralIs(l);
      p := Number(l);
      assert text[k..] != [] ==> text[k..][0] == text[1..][k - 1];
    } else {
      p := Sign(SymbolToken(text[0]));
    }
  }

  lemma PieceBefore(p: Piece, ps: seq<Piece>)
    requires GoodPiece(p) && GoodPieces(ps)
    requires p.Number? && TextOf(ps) != [] ==> !('0' <= TextOf(ps)[0] <= '9')
    ensures GoodPieces([p] + ps) && TextOf([p] + ps) == PieceText(p) + TextOf(ps)
  {
    hide SpelledValue;
    var all := [p] + ps;
    assert all[1..] == ps;
    if ps != [] && ps[0].Number? {
      assert TextOf(ps)[0] == ps[0].l[0];
    }
    forall i | 0 <= i < |all| ensures GoodPiece(all[i]) {
      if i > 0 {
        assert all[i] == ps[i - 1];
      }
    }
    forall i, j | 0 <= i && j == i + 1 < |all| && all[i].Number? && all[j].Number? ensures all[j].l[..1] == "-" {
      if i > 0 {
        assert all[i] == ps[i - 1] && all[j] == ps[j - 1];
      }
    }
  }
}
