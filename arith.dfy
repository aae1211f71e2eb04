/** The arithmetic that `eval` performs on a formula once its cell references have been
    replaced by values: decimal literals, the binary operators + - * / %, unary signs and
    parentheses, with JavaScript's precedence and left associativity.  Expressions outside
    this subset are rejected, as is everything JavaScript itself would reject here. */
module Arith {

  import opened Types
  import opened Text

  datatype BinOp = Add | Sub | Mul | Div | Rem

  datatype Token = Num(value: real) | Op(op: BinOp) | LParen | RParen

  /** A JavaScript number restricted to what this arithmetic produces: a finite value or NaN. */
  datatype Quantity = Real(r: real) | NaN

  // ---------------------------------------------------------------- arithmetic

  function Negate(q: Quantity): Quantity {
    match q
    case NaN => NaN
    case Real(r) => Real(-r)
  }

  /** Towards zero, as JavaScript's `%` truncates its quotient. */
  function Trunc(x: real): int {
    if x >= 0.0 then x.Floor else -((-x).Floor)
  }

  function Apply(op: BinOp, a: Quantity, b: Quantity): Quantity {
    if a.NaN? || b.NaN? then NaN
    else
      match op
      case Add => Real(a.r + b.r)
      case Sub => Real(a.r - b.r)
      case Mul => Real(a.r * b.r)
      case Div => if b.r == 0.0 then NaN else Real(a.r / b.r)
      case Rem => if b.r == 0.0 then NaN else Real(a.r - b.r * Trunc(a.r / b.r) as real)
  }

  /** A product with a factor of magnitude below one is smaller than the other factor. */
  lemma ScaledBelow(b: real, f: real, r: real)
    requires r == b * f && -1.0 < f < 1.0
    ensures b > 0.0 && f >= 0.0 ==> 0.0 <= r < b
    ensures b > 0.0 && f <= 0.0 ==> -b < r <= 0.0
    ensures b < 0.0 && f >= 0.0 ==> b < r <= 0.0
    ensures b < 0.0 && f <= 0.0 ==> 0.0 <= r < -b
  {
    assert b - r == b * (1.0 - f);
    assert b + r == b * (1.0 + f);
    ProductSign(b, 1.0 - f);
    ProductSign(b, 1.0 + f);
    ProductSign(b, f);
  }

  lemma ProductSign(x: real, y: real)
    ensures x > 0.0 && y > 0.0 ==> x * y > 0.0
    ensures x > 0.0 && y < 0.0 ==> x * y < 0.0
    ensures x < 0.0 && y > 0.0 ==> x * y < 0.0
    ensures x < 0.0 && y < 0.0 ==> x * y > 0.0
  {
  }

  /** The remainder takes the sign of the dividend and is smaller than the divisor. */
  lemma RemSign(a: real, b: real)
    requires b != 0.0
    ensures var r := Apply(Rem, Real(a), Real(b)).r;
      (a >= 0.0 ==> 0.0 <= r < Abs(b)) && (a < 0.0 ==> -Abs(b) < r <= 0.0)
  {
    var q := a / b;
    var t := Trunc(q);
    var f := q - t as real;
    var r := a - b * t as real;
    assert Apply(Rem, Real(a), Real(b)).r == r;
    assert r == b * f;
    assert (q >= 0.0 ==> 0.0 <= f < 1.0) && (q < 0.0 ==> -1.0 < f <= 0.0);
    assert a == b * q;
    ProductSign(b, q);
    assert (a >= 0.0) == ((b > 0.0 && q >= 0.0) || (b < 0.0 && q <= 0.0));
    ScaledBelow(b, f, r);
  }

  function Abs(x: real): real { if x < 0.0 then -x else x }

  // ---------------------------------------------------------------- lexer

  /** The number of decimal digits at the head of s. */
  function DigitPrefix(s: string): (n: nat)
    ensures n <= |s| && (n == |s| || !IsDigit(s[n]))
    ensures forall k :: 0 <= k < n ==> IsDigit(s[k])
  {
    if s != [] && IsDigit(s[0]) then 1 + DigitPrefix(s[1..]) else 0
  }

  function Prepend(t: Token, rest: Option<seq<Token>>): Option<seq<Token>> {
    match rest
    case None => None
    case Some(ts) => Some([t] + ts)
  }

  /** The numeric literal at the head of s (`D+`, `D+.D*` or `.D+`) with its length; None
      when there is none, or when it starts with `0` followed by another digit, which strict
      mode forbids. */
  function Literal(s: string): (r: Option<(real, nat)>)
    ensures r.Some? ==> 0 < r.value.1 <= |s|
  {
    var a := DigitPrefix(s);
    var dot := a < |s| && s[a] == '.';
    var b := if dot then DigitPrefix(s[a + 1..]) else 0;
    var n := if dot then a + 1 + b else a;
    if a + b == 0 || (a >= 2 && s[0] == '0') then None
    else
      var whole := DigitsValue(s[..a]) as real;
      var frac := if dot then DigitsValue(s[a + 1..n]) as real / Pow10(b) as real else 0.0;
      Some((whole + frac, n))
  }

  /** The token of an operator or parenthesis character. */
  function Symbol(c: char): Option<Token> {
    match c
    case '(' => Some(LParen)
    case ')' => Some(RParen)
    case '+' => Some(Op(Add))
    case '-' => Some(Op(Sub))
    case '*' => Some(Op(Mul))
    case '/' => Some(Op(Div))
    case '%' => Some(Op(Rem))
    case _ => None
  }

  /** `++`, `--` (increment and decrement, which no literal may follow) and `**`
      (exponentiation, outside this arithmetic). */
  predicate Doubled(s: string) {
    |s| > 1 && s[1] == s[0] && (s[0] == '+' || s[0] == '-' || s[0] == '*')
  }

  /** The tokens of s, or None where JavaScript would raise a syntax error (or where s leaves
      the arithmetic subset). */
  function Lex(s: string): Option<seq<Token>>
    decreases |s|
  {
    if s == [] then Some([])
    else if IsSpace(s[0]) then Lex(s[1..])
    else if IsDigit(s[0]) || s[0] == '.' then
      match Literal(s)
      case None => None
      case Some(lit) => Prepend(Num(lit.0), Lex(s[lit.1..]))
    else
      match Symbol(s[0])
      case None => None
      case Some(t) => if Doubled(s) then None else Prepend(t, Lex(s[1..]))
  }

  // ---------------------------------------------------------------- parser

  datatype Parsed = Parsed(q: Quantity, next: nat)

  /** Expr := Term (('+' | '-') Term)* */
  function ParseExpr(ts: seq<Token>, i: nat): (r: Option<Parsed>)
    requires i <= |ts|
    ensures r.Some? ==> i < r.value.next <= |ts|
    decreases |ts| - i, 3
  {
    match ParseTerm(ts, i)
    case None => None
    case Some(p) => ExprRest(ts, p.next, p.q)
  }

  function ExprRest(ts: seq<Token>, i: nat, acc: Quantity): (r: Option<Parsed>)
    requires i <= |ts|
    ensures r.Some? ==> i <= r.value.next <= |ts|
    decreases |ts| - i, 3
  {
    if i < |ts| && ts[i].Op? && (ts[i].op == Add || ts[i].op == Sub) then
      match ParseTerm(ts, i + 1)
      case None => None
      case Some(p) => ExprRest(ts, p.next, Apply(ts[i].op, acc, p.q))
    else Some(Parsed(acc, i))
  }

  /** Term := Unary (('*' | '/' | '%') Unary)* */
  function ParseTerm(ts: seq<Token>, i: nat): (r: Option<Parsed>)
    requires i <= |ts|
    ensures r.Some? ==> i < r.value.next <= |ts|
    decreases |ts| - i, 2
  {
    match ParseUnary(ts, i)
    case None => None
    case Some(p) => TermRest(ts, p.next, p.q)
  }

  function TermRest(ts: seq<Token>, i: nat, acc: Quantity): (r: Option<Parsed>)
    requires i <= |ts|
    ensures r.Some? ==> i <= r.value.next <= |ts|
    decreases |ts| - i, 2
  {
    if i < |ts| && ts[i].Op? && ts[i].op != Add && ts[i].op != Sub then
      match ParseUnary(ts, i + 1)
      case None => None
      case Some(p) => TermRest(ts, p.next, Apply(ts[i].op, acc, p.q))
    else Some(Parsed(acc, i))
  }

  /** Unary := ('+' | '-') Unary | Primary */
  function ParseUnary(ts: seq<Token>, i: nat): (r: Option<Parsed>)
    requires i <= |ts|
    ensures r.Some? ==> i < r.value.next <= |ts|
    decreases |ts| - i, 1
  {
    if i < |ts| && ts[i].Op? && (ts[i].op == Add || ts[i].op == Sub) then
      match ParseUnary(ts, i + 1)
      case None => None
      case Some(p) => Some(Parsed(if ts[i].op == Sub then Negate(p.q) else p.q, p.next))
    else ParsePrimary(ts, i)
  }

  /** Primary := number | '(' Expr ')' */
  function ParsePrimary(ts: seq<Token>, i: nat): (r: Option<Parsed>)
    requires i <= |ts|
    ensures r.Some? ==> i < r.value.next <= |ts|
    decreases |ts| - i, 0
  {
    if i == |ts| then None
    else
      match ts[i]
      case Num(v) => Some(Parsed(Real(v), i + 1))
      case LParen =>
        (match ParseExpr(ts, i + 1)
         case None => None
         case Some(p) => if p.next < |ts| && ts[p.next] == RParen then Some(Parsed(p.q, p.next + 1)) else None)
      case _ => None
  }

  /** The value of a whole token sequence, or None when it is not one expression. */
  function ParseAll(ts: seq<Token>): Option<Quantity> {
    match ParseExpr(ts, 0)
    case Some(p) => if p.next == |ts| then Some(p.q) else None
    case None => None
  }

  /** What `eval` gives for s: None for a syntax error; NaN for an empty expression, whose
      value `undefined` is NaN to `isNaN`. */
  function Calc(s: string): Option<Quantity> {
    match Lex(s)
    case None => None
    case Some(ts) => if ts == [] then Some(NaN) else ParseAll(ts)
  }

  // ---------------------------------------------------------------- expressions and their text

  /** Arithmetic expressions over natural literals. */
  datatype Ast = Lit(n: nat) | Neg(e: Ast) | Bin(op: BinOp, a: Ast, b: Ast)

  function Value(e: Ast): Quantity {
    match e
    case Lit(n) => Real(n as real)
    case Neg(x) => Negate(Value(x))
    case Bin(op, x, y) => Apply(op, Value(x), Value(y))
  }

  /** The tokens of e, every operation in its own parentheses. */
  function AstTokens(e: Ast): seq<Token> {
    match e
    case Lit(n) => [Num(n as real)]
    case Neg(x) => [LParen, Op(Sub)] + AstTokens(x) + [RParen]
    case Bin(op, x, y) => [LParen] + AstTokens(x) + [Op(op)] + AstTokens(y) + [RParen]
  }

  function OpText(op: BinOp): string {
    match op
    case Add => "+"
    case Sub => "-"
    case Mul => "*"
    case Div => "/"
    case Rem => "%"
  }

  function TokenText(t: Token): string {
    match t
    case Num(v) => NumberText(v)
    case Op(op) => OpText(op)
    case LParen => "("
    case RParen => ")"
  }

  /** Tokens written out, separated by single spaces. */
  function Render(ts: seq<Token>): string {
    if ts == [] then ""
    else if |ts| == 1 then TokenText(ts[0])
    else TokenText(ts[0]) + " " + Render(ts[1..])
  }

  predicate IsNatural(v: real) {
    v >= 0.0 && v.Floor as real == v
  }

  predicate NaturalLiterals(ts: seq<Token>) {
    forall k :: 0 <= k < |ts| ==> ts[k].Num? ==> IsNatural(ts[k].value)
  }

  lemma {:induction false} DigitPrefixOf(d: string, rest: string)
    requires AllDigits(d) && (rest == [] || !IsDigit(rest[0]))
    ensures DigitPrefix(d + rest) == |d|
  {
    if d != [] {
      assert (d + rest)[1..] == d[1..] + rest;
      DigitPrefixOf(d[1..], rest);
    } else {
      assert d + rest == rest;
    }
  }

  lemma LexSpace(rest: string)
    ensures Lex(" " + rest) == Lex(rest)
  {
    assert (" " + rest)[1..] == rest;
  }

  /** A natural number written out and followed by a space lexes back to that number. */
  lemma LexNatural(n: nat, rest: string)
    requires rest == [] || rest[0] == ' '
    ensures Lex(TokenText(Num(n as real)) + rest) == Prepend(Num(n as real), Lex(rest))
  {
    NumberTextOfInt(n);
    var d := NatToString(n);
    var s := d + rest;
    assert TokenText(Num(n as real)) + rest == s;
    DigitPrefixOf(d, rest);
    assert s[..|d|] == d;
    DigitsRoundTrip(n);
    assert Literal(s) == Some((n as real, |d|));
    assert s[|d|..] == rest;
  }

  /** An operator or parenthesis lexes back to itself. */
  lemma LexSymbol(t: Token, rest: string)
    requires !t.Num? && (rest == [] || rest[0] == ' ')
    ensures Lex(TokenText(t) + rest) == Prepend(t, Lex(rest))
  {
    var s := TokenText(t) + rest;
    assert |TokenText(t)| == 1 && s[0] == TokenText(t)[0];
    assert Symbol(s[0]) == Some(t) && !IsSpace(s[0]) && !IsDigit(s[0]) && s[0] != '.';
    assert !Doubled(s);
    assert s[1..] == rest;
  }

  /** One written token, followed by nothing or a space, lexes back to that token. */
  lemma LexToken(t: Token, rest: string)
    requires t.Num? ==> IsNatural(t.value)
    requires rest == [] || rest[0] == ' '
    ensures Lex(TokenText(t) + rest) == Prepend(t, Lex(rest))
  {
    if t.Num? {
      var n: nat := t.value.Floor;
      LexNatural(n, rest);
    } else {
      LexSymbol(t, rest);
    }
  }

  lemma {:induction false} LexRender(ts: seq<Token>)
    requires NaturalLiterals(ts)
    ensures Lex(Render(ts)) == Some(ts)
  {
    if |ts| == 1 {
      LexRenderOne(ts);
    } else if |ts| > 1 {
      NaturalTail(ts);
      LexRender(ts[1..]);
      LexRenderCons(ts);
    }
  }

  lemma LexRenderOne(ts: seq<Token>)
    requires |ts| == 1 && NaturalLiterals(ts)
    ensures Lex(Render(ts)) == Some(ts)
  {
    LexToken(ts[0], "");
    assert TokenText(ts[0]) + "" == Render(ts);
    assert [ts[0]] + [] == ts;
  }

  /** One more token in front of a rendering that lexes back. */
  lemma LexRenderCons(ts: seq<Token>)
    requires |ts| > 1 && (ts[0].Num? ==> IsNatural(ts[0].value))
    requires Lex(Render(ts[1..])) == Some(ts[1..])
    ensures Lex(Render(ts)) == Some(ts)
  {
    var t, rest := ts[0], ts[1..];
    var r := Render(rest);
    assert Render(ts) == TokenText(t) + (" " + r);
    LexToken(t, " " + r);
    LexSpace(r);
    assert [t] + rest == ts;
  }

  lemma NaturalTail(ts: seq<Token>)
    requires ts != [] && NaturalLiterals(ts)
    ensures NaturalLiterals(ts[1..]) && (ts[0].Num? ==> IsNatural(ts[0].value))
  {
    forall k | 0 <= k < |ts[1..]| && ts[1..][k].Num?
      ensures IsNatural(ts[1..][k].value)
    {
      assert ts[1..][k] == ts[k + 1];
    }
  }

  lemma {:induction false} AstLiteralsNatural(e: Ast)
    ensures NaturalLiterals(AstTokens(e))
  {
    match e
    case Lit(n) =>
      assert AstTokens(e)[0].value == n as real;
      assert (n as real).Floor == n;
    case Neg(x) =>
      AstLiteralsNatural(x);
      var ts := AstTokens(e);
      forall k | 0 <= k < |ts| && ts[k].Num?
        ensures IsNatural(ts[k].value)
      {
        assert ts[k] == AstTokens(x)[k - 2];
      }
    case Bin(op, x, y) =>
      AstLiteralsNatural(x);
      AstLiteralsNatural(y);
      var ts := AstTokens(e);
      var m := |AstTokens(x)|;
      forall k | 0 <= k < |ts| && ts[k].Num?
        ensures IsNatural(ts[k].value)
      {
        if k <= m {
          assert ts[k] == AstTokens(x)[k - 1];
        } else {
          assert ts[k] == AstTokens(y)[k - m - 2];
        }
      }
  }

  lemma TokenAt(ts: seq<Token>, i: nat, te: seq<Token>, off: nat, at: nat)
    requires i + |te| <= |ts| && ts[i..i + |te|] == te
    requires off < |te| && at == i + off
    ensures ts[at] == te[off]
  {
    assert ts[i..i + |te|][off] == te[off];
  }

  lemma SliceAt(ts: seq<Token>, i: nat, te: seq<Token>, off: nat, tx: seq<Token>, lo: nat, hi: nat)
    requires i + |te| <= |ts| && ts[i..i + |te|] == te
    requires off + |tx| <= |te| && te[off..off + |tx|] == tx
    requires lo == i + off && hi == lo + |tx|
    ensures ts[lo..hi] == tx
  {
    forall k | 0 <= k < |tx|
      ensures ts[i + off + k] == tx[k]
    {
      assert ts[i + off + k] == te[off + k];
    }
  }

  /** A parenthesised negation parses to the negated value of its operand. */
  lemma ParseNegAt(ts: seq<Token>, i: nat, v: Quantity, j: nat)
    requires i + 2 < j < |ts| && ts[i] == LParen && ts[i + 1] == Op(Sub) && ts[j] == RParen
    requires ParseUnary(ts, i + 2) == Some(Parsed(v, j))
    ensures ParsePrimary(ts, i) == Some(Parsed(Negate(v), j + 1))
  {
    assert ParseUnary(ts, i + 1) == Some(Parsed(Negate(v), j));
    assert TermRest(ts, j, Negate(v)) == Some(Parsed(Negate(v), j));
    assert ParseTerm(ts, i + 1) == Some(Parsed(Negate(v), j));
    assert ExprRest(ts, j, Negate(v)) == Some(Parsed(Negate(v), j));
  }

  /** A parenthesised binary operation parses to the operation applied to its operands'
      values, whatever the precedence of the operator. */
  lemma ParseBinAt(ts: seq<Token>, i: nat, op: BinOp, x: Quantity, j: nat, y: Quantity, k: nat)
    requires i < j < k < |ts| && ts[i] == LParen && ts[j] == Op(op) && ts[k] == RParen
    requires ParseUnary(ts, i + 1) == Some(Parsed(x, j)) && ParseUnary(ts, j + 1) == Some(Parsed(y, k))
    ensures ParsePrimary(ts, i) == Some(Parsed(Apply(op, x, y), k + 1))
  {
    var v := Apply(op, x, y);
    assert TermRest(ts, k, v) == Some(Parsed(v, k));
    assert ExprRest(ts, k, v) == Some(Parsed(v, k));
    if op == Add || op == Sub {
      assert TermRest(ts, k, y) == Some(Parsed(y, k));
      assert ParseTerm(ts, j + 1) == Some(Parsed(y, k));
      assert TermRest(ts, j, x) == Some(Parsed(x, j));
      assert ParseTerm(ts, i + 1) == Some(Parsed(x, j));
      assert ExprRest(ts, j, x) == Some(Parsed(v, k));
    } else {
      assert TermRest(ts, j, x) == Some(Parsed(v, k));
      assert ParseTerm(ts, i + 1) == Some(Parsed(v, k));
    }
    assert ParseExpr(ts, i + 1) == Some(Parsed(v, k));
  }

  lemma FirstToken(e: Ast)
    ensures |AstTokens(e)| > 0 && (AstTokens(e)[0].Num? || AstTokens(e)[0] == LParen)
  {
  }

  /** A number or an opening parenthesis starts a primary, not a sign. */
  lemma UnaryIsPrimary(ts: seq<Token>, i: nat)
    requires i < |ts| && (ts[i].Num? || ts[i] == LParen)
    ensures ParseUnary(ts, i) == ParsePrimary(ts, i)
  {
  }

  /** The tokens of an expression, found at position i, parse as a primary to its value. */
  lemma {:induction false} ParsePrimaryAt(e: Ast, ts: seq<Token>, i: nat)
    requires i + |AstTokens(e)| <= |ts| && ts[i..i + |AstTokens(e)|] == AstTokens(e)
    ensures ParsePrimary(ts, i) == Some(Parsed(Value(e), i + |AstTokens(e)|))
    decreases e, 2
  {
    match e
    case Lit(n) =>
      assert ts[i] == AstTokens(e)[0];
    case Neg(x) =>
      ParseNegTokensAt(e, ts, i);
    case Bin(op, x, y) =>
      ParseBinTokensAt(e, ts, i);
  }

  /** The tokens of an operand, found at position i, parse as a unary expression to its value. */
  lemma {:induction false} OperandAt(e: Ast, ts: seq<Token>, i: nat)
    requires i + |AstTokens(e)| <= |ts| && ts[i..i + |AstTokens(e)|] == AstTokens(e)
    ensures ParseUnary(ts, i) == Some(Parsed(Value(e), i + |AstTokens(e)|))
    decreases e, 3
  {
    ParsePrimaryAt(e, ts, i);
    FirstToken(e);
    assert ts[i] == AstTokens(e)[0];
    UnaryIsPrimary(ts, i);
  }

  lemma {:induction false} ParseNegTokensAt(e: Ast, ts: seq<Token>, i: nat)
    requires e.Neg?
    requires i + |AstTokens(e)| <= |ts| && ts[i..i + |AstTokens(e)|] == AstTokens(e)
    ensures ParsePrimary(ts, i) == Some(Parsed(Value(e), i + |AstTokens(e)|))
    decreases e, 0
  {
    var te := AstTokens(e);
    var tx := AstTokens(e.e);
    var j := i + 2 + |tx|;
    assert |te| == |tx| + 3;
    assert ts[i] == te[0] == LParen;
    assert ts[i + 1] == te[1] == Op(Sub);
    assert te[2..2 + |tx|] == tx;
    SliceAt(ts, i, te, 2, tx, i + 2, j);
    assert ts[j] == te[2 + |tx|] == RParen;
    OperandAt(e.e, ts, i + 2);
    ParseNegAt(ts, i, Value(e.e), j);
  }

  lemma {:induction false} ParseBinTokensAt(e: Ast, ts: seq<Token>, i: nat)
    requires e.Bin?
    requires i + |AstTokens(e)| <= |ts| && ts[i..i + |AstTokens(e)|] == AstTokens(e)
    ensures ParsePrimary(ts, i) == Some(Parsed(Value(e), i + |AstTokens(e)|))
    decreases e, 1
  {
    var j := i + 1 + |AstTokens(e.a)|;
    var k := j + 1 + |AstTokens(e.b)|;
    BinTokensIn(e, ts, i, j, k);
    ParseBinParts(e, ts, i, j, k);
  }

  /** Where the parts of a binary operation's tokens sit when they appear at position i. */
  lemma BinTokensIn(e: Ast, ts: seq<Token>, i: nat, j: nat, k: nat)
    requires e.Bin?
    requires i + |AstTokens(e)| <= |ts| && ts[i..i + |AstTokens(e)|] == AstTokens(e)
    requires j == i + 1 + |AstTokens(e.a)| && k == j + 1 + |AstTokens(e.b)|
    ensures k < |ts| && k + 1 == i + |AstTokens(e)|
    ensures ts[i] == LParen && ts[j] == Op(e.op) && ts[k] == RParen
    ensures ts[i + 1..j] == AstTokens(e.a) && ts[j + 1..k] == AstTokens(e.b)
  {
    var te := AstTokens(e);
    var tx, ty := AstTokens(e.a), AstTokens(e.b);
    BinTokensShape(e);
    TokenAt(ts, i, te, 0, i);
    SliceAt(ts, i, te, 1, tx, i + 1, j);
    TokenAt(ts, i, te, 1 + |tx|, j);
    SliceAt(ts, i, te, 2 + |tx|, ty, j + 1, k);
    TokenAt(ts, i, te, 2 + |tx| + |ty|, k);
  }

  lemma {:induction false} ParseBinParts(e: Ast, ts: seq<Token>, i: nat, j: nat, k: nat)
    requires e.Bin?
    requires j == i + 1 + |AstTokens(e.a)| && k == j + 1 + |AstTokens(e.b)| && k < |ts|
    requires ts[i] == LParen && ts[j] == Op(e.op) && ts[k] == RParen
    requires ts[i + 1..j] == AstTokens(e.a) && ts[j + 1..k] == AstTokens(e.b)
    ensures ParsePrimary(ts, i) == Some(Parsed(Value(e), k + 1))
    decreases e, 0
  {
    OperandAt(e.a, ts, i + 1);
    OperandAt(e.b, ts, j + 1);
    ParseBinAt(ts, i, e.op, Value(e.a), j, Value(e.b), k);
  }

  lemma BinTokensShape(e: Ast)
    requires e.Bin?
    ensures var te, tx, ty := AstTokens(e), AstTokens(e.a), AstTokens(e.b);
      && |te| == |tx| + |ty| + 3 && te[0] == LParen
      && te[1..1 + |tx|] == tx && te[1 + |tx|] == Op(e.op)
      && te[2 + |tx|..2 + |tx| + |ty|] == ty && te[2 + |tx| + |ty|] == RParen
  {
  }

  /** The parser computes the value of every fully parenthesised expression. */
  lemma ParseAstTokens(e: Ast)
    ensures ParseAll(AstTokens(e)) == Some(Value(e))
  {
    var ts := AstTokens(e);
    assert ts[0..|ts|] == ts;
    ParsePrimaryAt(e, ts, 0);
    FirstToken(e);
    UnaryIsPrimary(ts, 0);
    assert ParseTerm(ts, 0) == Some(Parsed(Value(e), |ts|));
    assert ParseExpr(ts, 0) == Some(Parsed(Value(e), |ts|));
  }

  /** The text of an expression. */
  function Source(e: Ast): string {
    Render(AstTokens(e))
  }

  /** `eval` of the text of an expression gives its value. */
  lemma CalcSource(e: Ast)
    ensures Calc(Source(e)) == Some(Value(e))
  {
    AstLiteralsNatural(e);
    LexRender(AstTokens(e));
    ParseAstTokens(e);
  }

  /** A character that is no space, digit, point or operator stops the lexer. */
  lemma LexStray(s: string)
    requires s != [] && !IsSpace(s[0]) && !IsDigit(s[0]) && s[0] != '.' && Symbol(s[0]) == None
    ensures Lex(s) == None
  {
  }

  lemma LexSymbolStep(c: char, rest: string)
    requires Symbol(c).Some? && !Doubled([c] + rest)
    ensures Lex([c] + rest) == Prepend(Symbol(c).value, Lex(rest))
  {
    assert !IsSpace(c) && !IsDigit(c) && c != '.';
    assert ([c] + rest)[1..] == rest;
  }

  lemma LexDigitStep(c: char, rest: string)
    requires IsDigit(c) && (rest == [] || (!IsDigit(rest[0]) && rest[0] != '.'))
    ensures Lex([c] + rest) == Prepend(Num((c as int - 48) as real), Lex(rest))
  {
    var s := [c] + rest;
    assert DigitPrefix(s) == 1 by {
      assert s[1..] == rest;
    }
    assert s[..1] == [c];
    assert DigitsValue([c]) == c as int - 48 by {
      assert [c][..0] == [];
    }
    assert s[1..] == rest;
  }

  /** Multiplication binds tighter than addition. */
  lemma CalcPrecedence()
    ensures Calc("2+3*4") == Some(Real(14.0))
  {
    LexPrecedence();
    ParsePrecedence();
  }

  lemma ParsePrecedence()
    ensures ParseAll([Num(2.0), Op(Add), Num(3.0), Op(Mul), Num(4.0)]) == Some(Real(14.0))
  {
  }

  lemma LexMulFour()
    ensures Lex("3*4") == Some([Num(3.0), Op(Mul), Num(4.0)])
  {
    LexTimesFour();
    assert "3*4" == ['3'] + "*4";
    LexDigitStep('3', "*4");
    assert [Num(3.0)] + [Op(Mul), Num(4.0)] == [Num(3.0), Op(Mul), Num(4.0)];
  }

  lemma LexTimesFour()
    ensures Lex("*4") == Some([Op(Mul), Num(4.0)])
  {
    assert "*4" == ['*'] + "4";
    assert "4" == ['4'] + "";
    LexDigitStep('4', "");
    assert [Num(4.0)] + [] == [Num(4.0)];
    LexSymbolStep('*', "4");
    assert [Op(Mul)] + [Num(4.0)] == [Op(Mul), Num(4.0)];
  }

  lemma LexPrecedence()
    ensures Lex("2+3*4") == Some([Num(2.0), Op(Add), Num(3.0), Op(Mul), Num(4.0)])
  {
    LexPlusMulFour();
    assert "2+3*4" == ['2'] + "+3*4";
    LexDigitStep('2', "+3*4");
    assert [Num(2.0)] + [Op(Add), Num(3.0), Op(Mul), Num(4.0)]
      == [Num(2.0), Op(Add), Num(3.0), Op(Mul), Num(4.0)];
  }

  lemma LexPlusMulFour()
    ensures Lex("+3*4") == Some([Op(Add), Num(3.0), Op(Mul), Num(4.0)])
  {
    LexMulFour();
    assert "+3*4" == ['+'] + "3*4";
    LexSymbolStep('+', "3*4");
    assert [Op(Add)] + [Num(3.0), Op(Mul), Num(4.0)] == [Op(Add), Num(3.0), Op(Mul), Num(4.0)];
  }

  /** `2--3` is a syntax error; with a space the two minus signs are an operator and a sign. */
  lemma CalcDoubleMinus()
    ensures Calc("2--3") == None
    ensures Calc("2- -3") == Some(Real(5.0))
  {
    LexDoubleMinus();
    ParseDoubleMinus();
  }

  lemma ParseDoubleMinus()
    ensures ParseAll([Num(2.0), Op(Sub), Op(Sub), Num(3.0)]) == Some(Real(5.0))
  {
  }

  lemma LexDoubleMinus()
    ensures Lex("2--3") == None
    ensures Lex("2- -3") == Some([Num(2.0), Op(Sub), Op(Sub), Num(3.0)])
  {
    LexDoubledMinus();
    LexSpacedMinus();
  }

  lemma LexDoubledMinus()
    ensures Lex("2--3") == None
  {
    assert "2--3" == ['2'] + "--3";
    assert Doubled("--3");
    assert Lex("--3") == None;
    LexDigitStep('2', "--3");
  }

  lemma LexSpacedMinus()
    ensures Lex("2- -3") == Some([Num(2.0), Op(Sub), Op(Sub), Num(3.0)])
  {
    LexMinusSpaceMinus();
    assert "2- -3" == ['2'] + "- -3";
    LexDigitStep('2', "- -3");
    assert [Num(2.0)] + [Op(Sub), Op(Sub), Num(3.0)] == [Num(2.0), Op(Sub), Op(Sub), Num(3.0)];
  }

  lemma LexMinusSpaceMinus()
    ensures Lex("- -3") == Some([Op(Sub), Op(Sub), Num(3.0)])
  {
    LexMinusThree();
    assert " -3" == " " + "-3";
    LexSpace("-3");
    assert Lex(" -3") == Some([Op(Sub), Num(3.0)]);
    assert "- -3" == ['-'] + " -3";
    LexSymbolStep('-', " -3");
    assert [Op(Sub)] + [Op(Sub), Num(3.0)] == [Op(Sub), Op(Sub), Num(3.0)];
  }

  lemma LexMinusThree()
    ensures Lex("-3") == Some([Op(Sub), Num(3.0)])
  {
    assert "-3" == ['-'] + "3";
    assert "3" == ['3'] + "";
    LexDigitStep('3', "");
    assert [Num(3.0)] + [] == [Num(3.0)];
    LexSymbolStep('-', "3");
    assert [Op(Sub)] + [Num(3.0)] == [Op(Sub), Num(3.0)];
  }

  /** `%` keeps the sign of the dividend; a sign binds tighter than `%`. */
  lemma RemainderExamples()
    ensures ParseAll([Num(7.0), Op(Rem), Op(Sub), Num(3.0)]) == Some(Real(1.0))
    ensures ParseAll([Op(Sub), Num(7.0), Op(Rem), Num(3.0)]) == Some(Real(-1.0))
  {
    assert (7.0 / 3.0).Floor == 2;
    assert Trunc(7.0 / -3.0) == -2;
    assert Trunc(-7.0 / 3.0) == -2;
    assert Apply(Rem, Real(7.0), Real(-3.0)) == Real(1.0);
    assert Apply(Rem, Real(-7.0), Real(3.0)) == Real(-1.0);
  }

  /** Division by zero and the empty expression are not numbers. */
  lemma CalcNaN()
    ensures ParseAll([Num(1.0), Op(Div), Num(0.0)]) == Some(NaN)
    ensures Calc("") == Some(NaN) && Calc("  ") == Some(NaN)
  {
    assert "  " == " " + " ";
    LexSpace(" ");
    assert " " == " " + "";
    LexSpace("");
  }

  /** A literal may not start with a zero followed by a digit; a fraction reads exactly. */
  lemma CalcLiterals()
    ensures Lex("01") == None
    ensures Lex("1.50") == Some([Num(1.5)])
  {
    assert DigitPrefix("01") == 2 by {
      assert "01"[1..] == "1";
      assert "1"[1..] == "";
    }
    assert DigitPrefix("1.50") == 1 by {
      assert "1.50"[1..] == ".50";
    }
    assert "1.50"[2..] == "50";
    assert DigitPrefix("50") == 2 by {
      assert "50"[1..] == "0";
      assert "0"[1..] == "";
    }
    assert "1.50"[..1] == "1" && "1.50"[2..4] == "50";
    assert DigitsValue("1") == 1 by {
      assert "1"[..0] == "";
    }
    assert DigitsValue("50") == 50 by {
      assert "50"[..1] == "5";
      assert "5"[..0] == "";
    }
    assert Literal("1.50") == Some((1.5, 4));
    assert "1.50"[4..] == "";
    assert [Num(1.5)] + [] == [Num(1.5)];
  }

  // ---------------------------------------------------------------- the shape of a source text

  /** The characters an arithmetic source text is made of. */
  predicate ArithChar(c: char) {
    IsDigit(c) || c == ' ' || c == '(' || c == ')' || c == '+' || c == '-' || c == '*' || c == '/' || c == '%'
  }

  lemma TokenShape(t: Token)
    requires t.Num? ==> IsNatural(t.value)
    ensures var r := TokenText(t);
      && r != [] && (forall k :: 0 <= k < |r| ==> ArithChar(r[k]))
      && (t.Num? ==> IsDigit(r[0]) && IsDigit(r[|r| - 1]))
  {
    if t.Num? {
      var n := t.value.Floor;
      assert n as real == t.value;
      NumberTextOfInt(n);
    }
  }

  /** Rendered tokens are arithmetic characters that begin with the first token's text and
      end with the last token's text. */
  lemma {:induction false} RenderShape(ts: seq<Token>)
    requires ts != [] && NaturalLiterals(ts)
    ensures var r := Render(ts);
      && r != [] && (forall k :: 0 <= k < |r| ==> ArithChar(r[k]))
      && (ts[0].Num? ==> IsDigit(r[0])) && (ts[0] == LParen ==> r[0] == '(')
      && (ts[|ts| - 1].Num? ==> IsDigit(r[|r| - 1])) && (ts[|ts| - 1] == RParen ==> r[|r| - 1] == ')')
  {
    TokenShape(ts[0]);
    if |ts| > 1 {
      var rest := ts[1..];
      assert NaturalLiterals(rest) by {
        forall k | 0 <= k < |rest| && rest[k].Num? ensures IsNatural(rest[k].value) {
          assert rest[k] == ts[k + 1];
        }
      }
      RenderShape(rest);
      assert rest[|rest| - 1] == ts[|ts| - 1];
      var a, b := TokenText(ts[0]), Render(rest);
      var r := a + " " + b;
      assert Render(ts) == r;
      forall k | 0 <= k < |r| ensures ArithChar(r[k]) {
        if k < |a| { assert r[k] == a[k]; }
        else if k > |a| { assert r[k] == b[k - |a| - 1]; }
      }
      assert r[|r| - 1] == b[|b| - 1];
    }
  }

  lemma LastToken(e: Ast)
    ensures var ts := AstTokens(e); |ts| > 0 && (ts[|ts| - 1].Num? || ts[|ts| - 1] == RParen)
  {
  }

  /** The text of an expression is non-empty, made of arithmetic characters, starts with a
      digit or `(` and ends with a digit or `)`. */
  lemma SourceShape(e: Ast)
    ensures var s := Source(e);
      && s != [] && (forall k :: 0 <= k < |s| ==> ArithChar(s[k]))
      && (IsDigit(s[0]) || s[0] == '(') && (IsDigit(s[|s| - 1]) || s[|s| - 1] == ')')
  {
    FirstToken(e);
    LastToken(e);
    AstLiteralsNatural(e);
    RenderShape(AstTokens(e));
  }
}
