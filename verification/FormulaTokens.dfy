/** The tokens of a formula, their repair before parsing, and the trees they stand for. */
module FormulaTokens {
  import opened Options

  datatype Bracket = FuncBracket | ParenBracket | ArrayBracket

  datatype LiteralKind = NumberLiteral | TextLiteral | LogicalLiteral | ErrorLiteral | OtherLiteral

  /** Tokens as the tokenizer hands them over. A number literal carries the value it reads as, if
      it reads as one. */
  datatype Token =
    | RangeTok(value: string)
    | ConstTok(kind: LiteralKind, value: string, number: Option<real>)
    | LiteralTok(value: string)
    | OpenTok(bracket: Bracket, value: string)
    | CloseTok(bracket: Bracket)
    | SepTok(row: bool)
    | PrefixTok(value: string)
    | PostfixTok(value: string)
    | InfixTok(value: string)
    | WhiteTok
    | OtherTok(value: string)

  datatype OpKind = Func | Infix | Prefix | Postfix | Array | Union

  /** A leaf keeps the token it came from; an array keeps its number of rows. */
  datatype Ast =
    | Ref(name: string)
    | Const(token: Token)
    | Missing
    | Op(kind: OpKind, name: string, args: seq<Ast>, rows: nat)

  function Upper(s: string): (r: string)
    ensures |r| == |s|
  {
    seq(|s|, i requires 0 <= i < |s| =>
      if 'a' <= s[i] <= 'z' then (s[i] as int - 'a' as int + 'A' as int) as char else s[i])
  }

  /** The name of a call: opening brackets and blanks at the end dropped, letters raised. */
  function FuncName(value: string): (r: string) {
    if |value| > 0 && (value[|value| - 1] == '(' || value[|value| - 1] == ' ') then FuncName(value[..|value| - 1])
    else Upper(value)
  }

  // ---------- tokenizer repair ----------

  /** A colon before INDEX arrives as an operand or glued to the call; make it an operator. */
  function RepairOne(t: Token): (r: seq<Token>) {
    if t == RangeTok(":") then [InfixTok(":")]
    else if t.OpenTok? && t.bracket == FuncBracket && Upper(t.value) == ":INDEX("
      then [InfixTok(":"), OpenTok(FuncBracket, "INDEX(")]
    else [t]
  }

  function Repair(tokens: seq<Token>): (r: seq<Token>) {
    if tokens == [] then [] else RepairOne(tokens[0]) + Repair(tokens[1..])
  }

  // ---------- white space ----------

  predicate EndsValue(t: Token) {
    t.RangeTok? || t.ConstTok? || t.CloseTok? || t.PostfixTok?
  }

  predicate StartsValue(t: Token) {
    t.RangeTok? || t.ConstTok? || t.OpenTok? || t.PrefixTok?
  }

  /** A kept token, or the white space that stands for intersection. */
  datatype Item = Plain(token: Token) | Intersect

  function NextSolid(tokens: seq<Token>): (r: Option<Token>) {
    if tokens == [] then None
    else if tokens[0] != WhiteTok then Some(tokens[0])
    else NextSolid(tokens[1..])
  }

  predicate PrevEndsValue(prev: Option<Token>) {
    prev.Some? && EndsValue(prev.value)
  }

  predicate NextStartsValue(next: Option<Token>) {
    next.Some? && StartsValue(next.value)
  }

  /** White space is an operator only between the end of a value and the start of one. */
  function NormaliseFrom(prev: Option<Token>, tokens: seq<Token>): (r: seq<Item>)
    decreases |tokens|
  {
    if tokens == [] then []
    else if tokens[0] != WhiteTok then [Plain(tokens[0])] + NormaliseFrom(Some(tokens[0]), tokens[1..])
    else if PrevEndsValue(prev) && NextStartsValue(NextSolid(tokens[1..])) then
      [Intersect] + NormaliseFrom(Some(WhiteTok), tokens[1..])
    else NormaliseFrom(prev, tokens[1..])
  }

  function Normalise(tokens: seq<Token>): (r: seq<Item>) {
    NormaliseFrom(None, tokens)
  }

  // ---------- cell:OFFSET(cell, literal, literal) ----------

  const MAX_COL := 16384
  const MAX_ROW := 1048576

  predicate IsLetter(c: char, lower: bool) { 'A' <= c <= 'Z' || (lower && 'a' <= c <= 'z') }

  predicate IsDigit(c: char) { '0' <= c <= '9' }

  function LettersValue(s: string): (r: nat)
    requires forall i :: 0 <= i < |s| ==> IsLetter(s[i], true)
  {
    if s == "" then 0
    else
      var c := s[|s| - 1];
      assert IsLetter(c, true);
      26 * LettersValue(s[..|s| - 1]) + (if c <= 'Z' then c as int - 'A' as int else c as int - 'a' as int) + 1
  }

  function DigitsValue(s: string): (r: nat)
    requires forall i :: 0 <= i < |s| ==> IsDigit(s[i])
  {
    if s == "" then 0
    else
      assert IsDigit(s[|s| - 1]);
      10 * DigitsValue(s[..|s| - 1]) + (s[|s| - 1] as int - '0' as int)
  }

  function Undollar(s: string): (r: string) {
    if s != "" && s[0] == '$' then s[1..] else s
  }

  /** Column and row of a single-cell address with one to three letters, if s is one. */
  function CellAddress(s: string, lower: bool): (r: Option<(nat, nat)>) {
    var t := Undollar(s);
    var n := if |t| > 2 && IsLetter(t[0], lower) && IsLetter(t[1], lower) && IsLetter(t[2], lower) then 3
             else if |t| > 1 && IsLetter(t[0], lower) && IsLetter(t[1], lower) then 2
             else if |t| > 0 && IsLetter(t[0], lower) then 1 else 0;
    var d := Undollar(t[n..]);
    if n > 0 && d != "" && d[0] != '0' && forall i :: 0 <= i < |d| ==> IsDigit(d[i])
    then Some((LettersValue(t[..n]), DigitsValue(d)))
    else None
  }

  predicate IsCellOffset(name: string) {
    |name| > 7 && name[|name| - 7..] == ":OFFSET" && CellAddress(name[..|name| - 7], false).Some?
  }

  /** A possibly signed integer literal. */
  function SignedInteger(arg: Ast): (r: Option<int>) {
    var signed := arg.Op? && arg.kind == Prefix && arg.name in {"+", "-"} && |arg.args| == 1;
    var sign := if signed && arg.name == "-" then -1 else 1;
    var literal := if signed then arg.args[0] else arg;
    if literal.Const? && literal.token.ConstTok? && literal.token.kind == NumberLiteral && literal.token.number.Some?
    then
      var value := literal.token.number.value;
      if -(MAX_ROW as real) <= value <= MAX_ROW as real && value == value.Floor as real then Some(sign * value.Floor)
        else None
    else None
  }

  predicate OnSheet(col: int, row: int) { 1 <= row <= MAX_ROW && 1 <= col <= MAX_COL }

  function StaticRange(name: string, args: seq<Ast>): (r: Option<Ast>) {
    if !IsCellOffset(name) || |args| != 3 || !args[0].Ref? then None
    else
      var left := name[..|name| - 7];
      var base := CellAddress(args[0].name, true);
      var rows, cols := SignedInteger(args[1]), SignedInteger(args[2]);
      if base.None? || rows.None? || cols.None? then None
      else
        var (leftCol, leftRow) := CellAddress(left, false).value;
        var (baseCol, baseRow) := base.value;
        if OnSheet(leftCol, leftRow) && OnSheet(baseCol, baseRow) && OnSheet(baseCol + cols.value, baseRow + rows.value)
        then Some(Op(Infix, ":", [Ref(left), Op(Func, "OFFSET", args, 0)], 0))
        else None
  }
}
