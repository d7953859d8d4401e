/**
 The WHERE language the extension emits: its predicate trees, the text the
 translator builds for them, and a reader for that text. Printing a tree and
 reading the text back returns the same tree, for every nesting and every
 string constant.
 */
module SoqlSyntax {
  import opened Text

  datatype CompareOp = Eq | Ne | Lt | Gt | Le | Ge

  datatype Literal =
    | NullLit
    | StringLit(text: string)
    | BareLit(token: string)   // true, false, numbers, dates, times

  datatype Atom =
    | Comparison(field: string, op: CompareOp, literal: Literal)
    | Membership(field: string, items: seq<Literal>)
    | LikeTest(field: string, pattern: string)

  datatype Connective = And | Or

  /** A parenthesised group with a single member carries no visible connective. */
  datatype Predicate =
    | Condition(atom: Atom)
    | Group(connective: Connective, items: seq<Predicate>)

  // ----- Text ---------------------------------------------------------------

  function OpText(op: CompareOp): string {
    match op
    case Eq => "="
    case Ne => "!="
    case Lt => "<"
    case Gt => ">"
    case Le => "<="
    case Ge => ">="
  }

  function Separator(c: Connective): string {
    if c == And then " AND " else " OR "
  }

  /** One character of a quoted body, escaped when it has to be. */
  function EscapeChar(c: char): string {
    if c == '\\' || c == '\'' then ['\\', c] else [c]
  }

  /** Backslash and quote are preceded by a backslash; nothing else changes. */
  function Escape(s: string): string {
    if s == "" then "" else EscapeChar(s[0]) + Escape(s[1..])
  }

  function Quote(s: string): string {
    "'" + (Escape(s) + "'")
  }

  function PrintLiteral(l: Literal): string {
    match l
    case NullLit => "null"
    case StringLit(s) => Quote(s)
    case BareLit(t) => t
  }

  function PrintLiterals(ls: seq<Literal>): string {
    if |ls| == 0 then ""
    else if |ls| == 1 then PrintLiteral(ls[0])
    else PrintLiteral(ls[0]) + (", " + PrintLiterals(ls[1..]))
  }

  /** The text of an atom after its field name and one space. */
  function TestText(a: Atom): string {
    match a
    case Comparison(_, op, l) => OpText(op) + (" " + PrintLiteral(l))
    case Membership(_, items) => "IN (" + (PrintLiterals(items) + ")")
    case LikeTest(_, p) => "LIKE " + Quote(p)
  }

  function PrintAtom(a: Atom): string {
    a.field + (" " + TestText(a))
  }

  function Print(p: Predicate): string
    decreases p
  {
    match p
    case Condition(a) => PrintAtom(a)
    case Group(c, items) => "(" + (PrintItems(c, items) + ")")
  }

  function PrintItems(c: Connective, items: seq<Predicate>): string
    decreases items
  {
    if |items| == 0 then ""
    else if |items| == 1 then Print(items[0])
    else Print(items[0]) + (Separator(c) + PrintItems(c, items[1..]))
  }

  // ----- Well-formed trees --------------------------------------------------

  predicate IsNameChar(c: char) {
    IsAlphaNumeric(c) || c == '_' || c == '.'
  }

  predicate IsTokenChar(c: char) {
    IsAlphaNumeric(c) || c == '.' || c == '-' || c == '+' || c == ':'
  }

  predicate ValidName(s: string) {
    s != "" && forall c :: c in s ==> IsNameChar(c)
  }

  predicate ValidToken(s: string) {
    s != "" && s != "null" && forall c :: c in s ==> IsTokenChar(c)
  }

  predicate ValidLiteral(l: Literal) {
    l.BareLit? ==> ValidToken(l.token)
  }

  predicate ValidAtom(a: Atom) {
    && ValidName(a.field)
    && match a
       case Comparison(_, _, l) => ValidLiteral(l)
       case Membership(_, items) => |items| > 0 && forall l :: l in items ==> ValidLiteral(l)
       case LikeTest(_, _) => true
  }

  predicate Valid(p: Predicate)
    decreases p
  {
    match p
    case Condition(a) => ValidAtom(a)
    case Group(c, items) =>
      |items| > 0 && (|items| == 1 ==> c == And) && forall i | 0 <= i < |items| :: Valid(items[i])
  }

  predicate ValidItems(c: Connective, items: seq<Predicate>) {
    |items| > 0 && (|items| == 1 ==> c == And) && forall i | 0 <= i < |items| :: Valid(items[i])
  }

  // ----- Reader -------------------------------------------------------------

  datatype Read<+T> = Fail | Got(value: T, rest: string)

  predicate StartsWith(s: string, prefix: string) {
    |prefix| <= |s| && s[..|prefix|] == prefix
  }

  function NameLength(s: string): (n: nat)
    ensures n <= |s|
  {
    if s == "" || !IsNameChar(s[0]) then 0 else 1 + NameLength(s[1..])
  }

  function TokenLength(s: string): (n: nat)
    ensures n <= |s|
  {
    if s == "" || !IsTokenChar(s[0]) then 0 else 1 + TokenLength(s[1..])
  }

  /** The body of a quoted literal, after its opening quote. */
  function ReadQuoted(s: string): (r: Read<string>)
    ensures r.Got? ==> |r.rest| < |s|
  {
    if s == "" then Fail
    else if s[0] == '\'' then Got("", s[1..])
    else if s[0] == '\\' then
      if |s| < 2 then Fail
      else match ReadQuoted(s[2..])
           case Fail => Fail
           case Got(t, rest) => Got([s[1]] + t, rest)
    else match ReadQuoted(s[1..])
         case Fail => Fail
         case Got(t, rest) => Got([s[0]] + t, rest)
  }

  function ReadLiteral(s: string): (r: Read<Literal>)
    ensures r.Got? ==> |r.rest| < |s|
  {
    if s != "" && s[0] == '\'' then
      match ReadQuoted(s[1..])
      case Fail => Fail
      case Got(t, rest) => Got(StringLit(t), rest)
    else
      var n := TokenLength(s);
      if n == 0 then Fail
      else if s[..n] == "null" then Got(NullLit, s[n..])
      else Got(BareLit(s[..n]), s[n..])
  }

  /** Literals up to and including the closing parenthesis of an IN list. */
  function ReadLiterals(s: string): (r: Read<seq<Literal>>)
    ensures r.Got? ==> |r.rest| < |s|
    decreases |s|
  {
    match ReadLiteral(s)
    case Fail => Fail
    case Got(l, rest) =>
      if StartsWith(rest, ")") then Got([l], rest[1..])
      else if StartsWith(rest, ", ") then
        match ReadLiterals(rest[2..])
        case Fail => Fail
        case Got(ls, rest') => Got([l] + ls, rest')
      else Fail
  }

  function ReadOp(s: string): (r: Read<CompareOp>)
    ensures r.Got? ==> |r.rest| < |s|
  {
    if StartsWith(s, "= ") then Got(Eq, s[2..])
    else if StartsWith(s, "!= ") then Got(Ne, s[3..])
    else if StartsWith(s, "<= ") then Got(Le, s[3..])
    else if StartsWith(s, ">= ") then Got(Ge, s[3..])
    else if StartsWith(s, "< ") then Got(Lt, s[2..])
    else if StartsWith(s, "> ") then Got(Gt, s[2..])
    else Fail
  }

  /** What follows the field name and one space. */
  function ReadTest(f: string, s: string): (r: Read<Atom>)
    ensures r.Got? ==> |r.rest| < |s|
  {
    if StartsWith(s, "IN (") then
      match ReadLiterals(s[4..])
      case Fail => Fail
      case Got(ls, rest) => Got(Membership(f, ls), rest)
    else if StartsWith(s, "LIKE '") then
      match ReadQuoted(s[6..])
      case Fail => Fail
      case Got(p, rest) => Got(LikeTest(f, p), rest)
    else
      match ReadOp(s)
      case Fail => Fail
      case Got(op, rest) =>
        match ReadLiteral(rest)
        case Fail => Fail
        case Got(l, rest') => Got(Comparison(f, op, l), rest')
  }

  function ReadAtom(s: string): (r: Read<Atom>)
    ensures r.Got? ==> |r.rest| < |s|
  {
    var n := NameLength(s);
    if n == 0 || !StartsWith(s[n..], " ") then Fail
    else ReadTest(s[..n], s[n + 1..])
  }

  function ReadItem(s: string): (r: Read<Predicate>)
    ensures r.Got? ==> |r.rest| < |s|
    decreases |s|, 0
  {
    if StartsWith(s, "(") then
      match ReadGroup(s[1..])
      case Fail => Fail
      case Got(p, rest) => if StartsWith(rest, ")") then Got(p, rest[1..]) else Fail
    else
      match ReadAtom(s)
      case Fail => Fail
      case Got(a, rest) => Got(Condition(a), rest)
  }

  /** Items joined by one connective; a lone item reads as an AND of one. */
  function ReadGroup(s: string): (r: Read<Predicate>)
    ensures r.Got? ==> |r.rest| < |s|
    decreases |s|, 1
  {
    match ReadItem(s)
    case Fail => Fail
    case Got(p, rest) =>
      var c := if StartsWith(rest, Separator(Or)) then Or else And;
      match ReadMore(c, rest)
      case Fail => Fail
      case Got(ps, rest') => Got(Group(c, [p] + ps), rest')
  }

  function ReadMore(c: Connective, s: string): (r: Read<seq<Predicate>>)
    ensures r.Got? ==> |r.rest| <= |s|
    decreases |s|, 0
  {
    if !StartsWith(s, Separator(c)) then Got([], s)
    else
      match ReadItem(s[|Separator(c)|..])
      case Fail => Fail
      case Got(p, rest) =>
        match ReadMore(c, rest)
        case Fail => Fail
        case Got(ps, rest') => Got([p] + ps, rest')
  }

  /** A whole WHERE clause. */
  function ReadWhere(s: string): Option<Predicate> {
    match ReadGroup(s)
    case Fail => None
    case Got(p, rest) => if rest == "" then Some(p) else None
  }

  // ----- Round trip ---------------------------------------------------------

  lemma StartsWithAppend(a: string, b: string)
    ensures StartsWith(a + b, a)
    ensures (a + b)[|a|..] == b
  {
    assert (a + b)[..|a|] == a;
  }

  lemma NotPrefix(s: string, prefix: string, i: nat)
    requires i < |prefix| && i < |s| && s[i] != prefix[i]
    ensures !StartsWith(s, prefix)
  {
    assert |prefix| <= |s| ==> s[..|prefix|][i] == s[i];
  }

  lemma ReadQuotedChar(c: char, body: string, text: string, rest: string)
    requires ReadQuoted(body) == Got(text, rest)
    ensures ReadQuoted(EscapeChar(c) + body) == Got([c] + text, rest)
  {
    var t := EscapeChar(c) + body;
    assert t[|EscapeChar(c)|..] == body;
  }

  lemma {:induction false} QuotedRoundTrip(s: string, rest: string)
    ensures ReadQuoted(Escape(s) + ("'" + rest)) == Got(s, rest)
  {
    if s == "" {
      assert Escape(s) + ("'" + rest) == "'" + rest;
      assert ("'" + rest)[1..] == rest;
    } else {
      QuotedRoundTrip(s[1..], rest);
      ReadQuotedChar(s[0], Escape(s[1..]) + ("'" + rest), s[1..], rest);
      Assoc(EscapeChar(s[0]), Escape(s[1..]), "'" + rest);
      assert [s[0]] + s[1..] == s;
    }
  }

  lemma {:induction false} NameLengthIs(f: string, rest: string)
    requires forall c :: c in f ==> IsNameChar(c)
    requires rest == "" || !IsNameChar(rest[0])
    ensures NameLength(f + rest) == |f|
  {
    if f == "" {
      assert f + rest == rest;
    } else {
      assert (f + rest)[1..] == f[1..] + rest;
      NameLengthIs(f[1..], rest);
    }
  }

  lemma {:induction false} TokenLengthIs(t: string, rest: string)
    requires forall c :: c in t ==> IsTokenChar(c)
    requires rest == "" || !IsTokenChar(rest[0])
    ensures TokenLength(t + rest) == |t|
  {
    if t == "" {
      assert t + rest == rest;
    } else {
      assert (t + rest)[1..] == t[1..] + rest;
      TokenLengthIs(t[1..], rest);
    }
  }

  /** What may follow a literal: the end, a space, a comma or a parenthesis. */
  predicate Stops(rest: string) {
    rest == "" || !IsTokenChar(rest[0])
  }

  lemma ReadString(body: string, text: string, rest: string)
    requires ReadQuoted(body) == Got(text, rest)
    ensures ReadLiteral("'" + body) == Got(StringLit(text), rest)
  {
    StartsWithAppend("'", body);
  }

  lemma ReadToken(token: string, rest: string)
    requires token != "" && (forall c :: c in token ==> IsTokenChar(c)) && Stops(rest)
    ensures ReadLiteral(token + rest) == Got(if token == "null" then NullLit else BareLit(token), rest)
  {
    TokenLengthIs(token, rest);
    StartsWithAppend(token, rest);
    assert (token + rest)[0] == token[0] && token[0] in token;
  }

  lemma LiteralRoundTrip(l: Literal, rest: string)
    requires ValidLiteral(l) && Stops(rest)
    ensures ReadLiteral(PrintLiteral(l) + rest) == Got(l, rest)
  {
    match l
    case StringLit(s) =>
      QuotedRoundTrip(s, rest);
      ReadString(Escape(s) + ("'" + rest), s, rest);
      Assoc("'", Escape(s) + "'", rest);
      Assoc(Escape(s), "'", rest);
    case NullLit =>
      ReadToken("null", rest);
    case BareLit(k) =>
      ReadToken(k, rest);
  }

  // Each step below names the text it reads, so that no proof has to unfold the
  // reader and rearrange concatenations at the same time.

  lemma ReadLastLiteral(t: string, l: Literal, rest: string)
    requires ReadLiteral(t) == Got(l, ")" + rest)
    ensures ReadLiterals(t) == Got([l], rest)
  {
    StartsWithAppend(")", rest);
  }

  lemma ReadNextLiteral(t: string, l: Literal, tail: string, ls: seq<Literal>, rest: string)
    requires ReadLiteral(t) == Got(l, ", " + tail)
    requires ReadLiterals(tail) == Got(ls, rest)
    ensures ReadLiterals(t) == Got([l] + ls, rest)
  {
    StartsWithAppend(", ", tail);
    assert (", " + tail)[0] == ',';
  }

  /** The text of several items, grouped as it is read: an item, a separator, and the items after it. */
  lemma RegroupItems(first: string, sep: string, others: string, rest: string)
    ensures (first + (sep + others)) + rest == first + (sep + (others + rest))
  {
    Assoc(first, sep + others, rest);
    Assoc(sep, others, rest);
  }

  lemma {:induction false} LiteralsRoundTrip(ls: seq<Literal>, rest: string)
    requires |ls| > 0 && forall l :: l in ls ==> ValidLiteral(l)
    ensures ReadLiterals(PrintLiterals(ls) + (")" + rest)) == Got(ls, rest)
  {
    var close := ")" + rest;
    if |ls| == 1 {
      LiteralRoundTrip(ls[0], close);
      ReadLastLiteral(PrintLiteral(ls[0]) + close, ls[0], rest);
      assert ls == [ls[0]];
    } else {
      var others := PrintLiterals(ls[1..]);
      LiteralsRoundTrip(ls[1..], rest);
      LiteralRoundTrip(ls[0], ", " + (others + close));
      ReadNextLiteral(PrintLiteral(ls[0]) + (", " + (others + close)), ls[0], others + close, ls[1..], rest);
      RegroupItems(PrintLiteral(ls[0]), ", ", others, close);
      assert ls == [ls[0]] + ls[1..];
    }
  }

  lemma ReadPrefix(prefix: string, t: string, rest: string)
    requires t == prefix + rest
    ensures StartsWith(t, prefix) && t[|prefix|..] == rest
    ensures forall i | 0 <= i < |prefix| :: t[i] == prefix[i]
  {
    StartsWithAppend(prefix, rest);
  }

  lemma OpRoundTrip(op: CompareOp, t: string, rest: string)
    requires t == OpText(op) + (" " + rest)
    ensures ReadOp(t) == Got(op, rest)
    ensures t[0] != 'I' && t[0] != 'L'
  {
    Assoc(OpText(op), " ", rest);
    match op
    case Eq =>
      ReadPrefix("= ", t, rest);
    case Ne =>
      ReadPrefix("!= ", t, rest);
      NotPrefix(t, "= ", 0);
    case Le =>
      ReadPrefix("<= ", t, rest);
      NotPrefix(t, "= ", 0);
      NotPrefix(t, "!= ", 0);
    case Ge =>
      ReadPrefix(">= ", t, rest);
      NotPrefix(t, "= ", 0);
      NotPrefix(t, "!= ", 0);
      NotPrefix(t, "<= ", 0);
    case Lt =>
      ReadPrefix("< ", t, rest);
      NotPrefix(t, "= ", 0);
      NotPrefix(t, "!= ", 0);
      NotPrefix(t, "<= ", 1);
      NotPrefix(t, ">= ", 0);
    case Gt =>
      ReadPrefix("> ", t, rest);
      NotPrefix(t, "= ", 0);
      NotPrefix(t, "!= ", 0);
      NotPrefix(t, "<= ", 0);
      NotPrefix(t, ">= ", 1);
      NotPrefix(t, "< ", 0);
  }

  lemma ReadComparison(f: string, t: string, op: CompareOp, l: Literal, middle: string, rest: string)
    requires t != "" && t[0] != 'I' && t[0] != 'L'
    requires ReadOp(t) == Got(op, middle)
    requires ReadLiteral(middle) == Got(l, rest)
    ensures ReadTest(f, t) == Got(Comparison(f, op, l), rest)
  {
    NotPrefix(t, "IN (", 0);
    NotPrefix(t, "LIKE '", 0);
  }

  lemma ReadMembership(f: string, body: string, items: seq<Literal>, rest: string)
    requires ReadLiterals(body) == Got(items, rest)
    ensures ReadTest(f, "IN (" + body) == Got(Membership(f, items), rest)
  {
    StartsWithAppend("IN (", body);
  }

  lemma ReadLike(f: string, body: string, p: string, rest: string)
    requires ReadQuoted(body) == Got(p, rest)
    ensures ReadTest(f, "LIKE '" + body) == Got(LikeTest(f, p), rest)
  {
    var t := "LIKE '" + body;
    StartsWithAppend("LIKE '", body);
    NotPrefix(t, "IN (", 0);
  }

  lemma LikeRoundTrip(f: string, p: string, rest: string)
    ensures ReadTest(f, "LIKE " + Quote(p) + rest) == Got(LikeTest(f, p), rest)
  {
    var body := Escape(p) + ("'" + rest);
    QuotedRoundTrip(p, rest);
    ReadLike(f, body, p, rest);
    Assoc("LIKE ", Quote(p), rest);
    Assoc("'", Escape(p) + "'", rest);
    Assoc(Escape(p), "'", rest);
    Assoc("LIKE ", "'", body);
  }

  lemma MembershipRoundTrip(f: string, items: seq<Literal>, rest: string)
    requires |items| > 0 && forall l :: l in items ==> ValidLiteral(l)
    ensures ReadTest(f, "IN (" + (PrintLiterals(items) + ")") + rest) == Got(Membership(f, items), rest)
  {
    LiteralsRoundTrip(items, rest);
    ReadMembership(f, PrintLiterals(items) + (")" + rest), items, rest);
    Assoc("IN (", PrintLiterals(items) + ")", rest);
    Assoc(PrintLiterals(items), ")", rest);
  }

  lemma TestRoundTrip(a: Atom, rest: string)
    requires ValidAtom(a) && Stops(rest)
    ensures ReadTest(a.field, TestText(a) + rest) == Got(a, rest)
  {
    match a
    case Comparison(f, op, l) =>
      var middle := PrintLiteral(l) + rest;
      Assoc(OpText(op), " " + PrintLiteral(l), rest);
      Assoc(" ", PrintLiteral(l), rest);
      OpRoundTrip(op, TestText(a) + rest, middle);
      LiteralRoundTrip(l, rest);
      ReadComparison(f, TestText(a) + rest, op, l, middle, rest);
    case Membership(f, items) => MembershipRoundTrip(f, items, rest);
    case LikeTest(f, p) => LikeRoundTrip(f, p, rest);
  }

  lemma ReadNamed(f: string, test: string, a: Atom, rest: string)
    requires ValidName(f)
    requires ReadTest(f, test) == Got(a, rest)
    ensures ReadItem(f + (" " + test)) == Got(Condition(a), rest)
  {
    var s := f + (" " + test);
    NameLengthIs(f, " " + test);
    StartsWithAppend(f, " " + test);
    assert s[|f| + 1..] == test;
    assert s[0] == f[0] && f[0] in f;
    NotPrefix(s, "(", 0);
    StartsWithAppend(" ", test);
    assert ReadAtom(s) == Got(a, rest);
  }

  lemma AtomRoundTrip(a: Atom, rest: string)
    requires ValidAtom(a) && Stops(rest)
    ensures ReadItem(PrintAtom(a) + rest) == Got(Condition(a), rest)
  {
    TestRoundTrip(a, rest);
    Assoc(a.field, " " + TestText(a), rest);
    Assoc(" ", TestText(a), rest);
    ReadNamed(a.field, TestText(a) + rest, a, rest);
  }

  lemma ReadParenthesised(t: string, p: Predicate, rest: string)
    requires ReadGroup(t) == Got(p, ")" + rest)
    ensures ReadItem("(" + t) == Got(p, rest)
  {
    StartsWithAppend("(", t);
    StartsWithAppend(")", rest);
  }

  /** A list of items joined by `c` ends here: another item does not follow. */
  predicate Closes(c: Connective, rest: string) {
    Stops(rest) && !StartsWith(rest, Separator(c))
  }

  /** Neither connective follows. */
  predicate Ends(rest: string) {
    rest == "" || rest[0] == ')'
  }

  lemma EndsCloses(rest: string, c: Connective)
    requires Ends(rest)
    ensures Closes(c, rest)
  {
    if rest != "" { NotPrefix(rest, Separator(c), 0); }
  }

  lemma ReadSoleItem(t: string, p: Predicate, rest: string)
    requires ReadItem(t) == Got(p, rest) && Closes(And, rest) && Closes(Or, rest)
    ensures ReadGroup(t) == Got(Group(And, [p]), rest)
  {
    assert [p] + [] == [p];
  }

  /** What is read when `items` come before what `r` is. */
  function After(items: seq<Predicate>, r: Read<seq<Predicate>>): Read<seq<Predicate>> {
    if r.Fail? then Fail else Got(items + r.value, r.rest)
  }

  function GroupOf(c: Connective, r: Read<seq<Predicate>>): Read<Predicate> {
    if r.Fail? then Fail else Got(Group(c, r.value), r.rest)
  }

  /** A first item and a separator: the separator's connective joins what follows. */
  lemma ReadSeveralItems(t: string, c: Connective, p: Predicate, tail: string)
    requires ReadItem(t) == Got(p, Separator(c) + tail)
    ensures ReadGroup(t) == GroupOf(c, After([p], ReadMore(c, Separator(c) + tail)))
  {
    var s := Separator(c) + tail;
    StartsWithAppend(Separator(c), tail);
    if c == And { NotPrefix(s, Separator(Or), 1); }
  }

  lemma ReadThenMore(c: Connective, t: string, p: Predicate, tail: string)
    requires ReadItem(t) == Got(p, tail)
    ensures ReadMore(c, Separator(c) + t) == After([p], ReadMore(c, tail))
  {
    StartsWithAppend(Separator(c), t);
  }

  lemma {:induction false} ItemRoundTrip(p: Predicate, rest: string)
    requires Valid(p) && Stops(rest)
    ensures ReadItem(Print(p) + rest) == Got(p, rest)
    decreases p, 0
  {
    match p
    case Condition(a) => AtomRoundTrip(a, rest);
    case Group(c, items) =>
      EndsCloses(")" + rest, And);
      EndsCloses(")" + rest, Or);
      GroupRoundTrip(p, c, items, ")" + rest);
      ReadParenthesised(PrintItems(c, items) + (")" + rest), p, rest);
      Assoc("(", PrintItems(c, items) + ")", rest);
      Assoc(PrintItems(c, items), ")", rest);
  }

  lemma SeparatorStops(c: Connective, rest: string)
    ensures Stops(Separator(c) + rest)
  {
    assert (Separator(c) + rest)[0] == ' ';
  }

  lemma ReadFirstOfGroup(c: Connective, first: string, p: Predicate, others: string, rest: string)
    requires ReadItem(first + (Separator(c) + (others + rest))) == Got(p, Separator(c) + (others + rest))
    ensures ReadGroup((first + (Separator(c) + others)) + rest) ==
            GroupOf(c, After([p], ReadMore(c, Separator(c) + (others + rest))))
  {
    ReadSeveralItems(first + (Separator(c) + (others + rest)), c, p, others + rest);
    RegroupItems(first, Separator(c), others, rest);
  }

  lemma {:induction false} GroupRoundTrip(parent: Predicate, c: Connective, items: seq<Predicate>, rest: string)
    requires ValidItems(c, items) && Closes(c, rest) && (|items| == 1 ==> Closes(Or, rest))
    requires forall i | 0 <= i < |items| :: items[i] < parent
    ensures ReadGroup(PrintItems(c, items) + rest) == Got(Group(c, items), rest)
    decreases parent, 0, |items|
  {
    if |items| == 1 {
      ItemRoundTrip(items[0], rest);
      ReadSoleItem(Print(items[0]) + rest, items[0], rest);
      assert [items[0]] == items;
    } else {
      var others := PrintItems(c, items[1..]);
      var tail := Separator(c) + (others + rest);
      MoreReads(parent, c, items[1..], rest);
      assert items[1..] + [] == items[1..];
      SeparatorStops(c, others + rest);
      ItemRoundTrip(items[0], tail);
      ReadFirstOfGroup(c, Print(items[0]), items[0], others, rest);
      assert [items[0]] + items[1..] == items;
    }
  }

  /** `printed` is read as `items`, whatever `rest` then reads as. */
  predicate ReadsAs(c: Connective, printed: string, items: seq<Predicate>, rest: string) {
    ReadMore(c, Separator(c) + (printed + rest)) == After(items, ReadMore(c, rest))
  }

  lemma OneReads(c: Connective, printed: string, p: Predicate, rest: string)
    requires ReadItem(printed + rest) == Got(p, rest)
    ensures ReadsAs(c, printed, [p], rest)
  {
    ReadThenMore(c, printed + rest, p, rest);
  }

  lemma OneMoreReads(c: Connective, first: string, p: Predicate, others: string, items: seq<Predicate>, rest: string)
    requires ReadItem(first + (Separator(c) + (others + rest))) == Got(p, Separator(c) + (others + rest))
    requires ReadsAs(c, others, items, rest)
    ensures ReadsAs(c, first + (Separator(c) + others), [p] + items, rest)
  {
    ReadThenMore(c, first + (Separator(c) + (others + rest)), p, Separator(c) + (others + rest));
    RegroupItems(first, Separator(c), others, rest);
    AfterTwice(p, items, ReadMore(c, rest));
  }

  lemma HeadAndTail<T>(s: seq<T>)
    requires |s| > 0
    ensures s == [s[0]] + s[1..]
    ensures |s| == 1 ==> s == [s[0]]
  {
  }

  /** Printed items are read one by one, whatever follows the last of them. */
  lemma {:induction false} MoreReads(parent: Predicate, c: Connective, items: seq<Predicate>, rest: string)
    requires |items| > 0 && Stops(rest)
    requires forall i | 0 <= i < |items| :: Valid(items[i]) && items[i] < parent
    ensures ReadsAs(c, PrintItems(c, items), items, rest)
    decreases parent, 0, |items|
  {
    HeadAndTail(items);
    if |items| == 1 {
      ItemRoundTrip(items[0], rest);
      OneReads(c, Print(items[0]), items[0], rest);
    } else {
      var others := PrintItems(c, items[1..]);
      MoreReads(parent, c, items[1..], rest);
      SeparatorStops(c, others + rest);
      ItemRoundTrip(items[0], Separator(c) + (others + rest));
      OneMoreReads(c, Print(items[0]), items[0], others, items[1..], rest);
    }
  }

  lemma AfterTwice(p: Predicate, items: seq<Predicate>, r: Read<seq<Predicate>>)
    ensures After([p], After(items, r)) == After([p] + items, r)
  {
    if r.Got? { Assoc([p], items, r.value); }
  }

  /** Unique readability: a printed conjunction reads back as the same tree. */
  lemma WhereRoundTrip(c: Connective, items: seq<Predicate>)
    requires ValidItems(c, items)
    ensures ReadWhere(PrintItems(c, items)) == Some(Group(c, items))
  {
    EndsCloses("", c);
    EndsCloses("", Or);
    GroupRoundTrip(Group(c, items), c, items, "");
    assert PrintItems(c, items) + "" == PrintItems(c, items);
  }

  /** A printed AND-list with more text joined to it by AND: its items come first, then what the text adds. */
  lemma JoinedReads(items: seq<Predicate>, more: string)
    requires ValidItems(And, items)
    ensures ReadGroup(PrintItems(And, items) + (Separator(And) + more)) ==
            GroupOf(And, After(items, ReadMore(And, Separator(And) + more)))
  {
    var joined := Separator(And) + more;
    SeparatorStops(And, more);
    if |items| == 1 {
      ItemRoundTrip(items[0], joined);
      ReadSeveralItems(Print(items[0]) + joined, And, items[0], more);
      assert items == [items[0]];
    } else {
      var others := PrintItems(And, items[1..]);
      var tail := Separator(And) + (others + joined);
      MoreReads(Group(And, items), And, items[1..], joined);
      SeparatorStops(And, others + joined);
      ItemRoundTrip(items[0], tail);
      ReadFirstOfGroup(And, Print(items[0]), items[0], others, joined);
      AfterTwice(items[0], items[1..], ReadMore(And, joined));
      assert items == [items[0]] + items[1..];
    }
  }

  /** Two trees that print alike are the same tree. */
  lemma PrintInjective(c: Connective, items: seq<Predicate>, c': Connective, items': seq<Predicate>)
    requires ValidItems(c, items) && ValidItems(c', items')
    requires PrintItems(c, items) == PrintItems(c', items')
    ensures c == c' && items == items'
  {
    WhereRoundTrip(c, items);
    WhereRoundTrip(c', items');
  }
}
