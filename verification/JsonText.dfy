/**
 The string-aware scanners over JSON text. Splitting an array of objects returns the
 objects' own texts, whatever braces, brackets and quotes their strings contain, and
 reading back an escaped string returns the original.
 */
module JsonText {
  import opened Text

  // ----- String literals ------------------------------------------------------

  function Unescape(e: char): char {
    if e == 'n' then '\n' else if e == 't' then '\t' else if e == 'r' then '\r' else e
  }

  /** The contents of a string literal, from just after its opening quote. */
  function ReadBody(s: string): string {
    if s == "" then ""
    else if s[0] == '\\' && |s| > 1 then [Unescape(s[1])] + ReadBody(s[2..])
    else if s[0] == '"' then ""
    else [s[0]] + ReadBody(s[1..])
  }

  lemma ReadBodyStep(json: string, i: nat, out: string)
    requires i < |json|
    ensures json[i] == '\\' && i + 1 < |json| ==>
              out + ReadBody(json[i..]) == out + [Unescape(json[i + 1])] + ReadBody(json[i + 2..])
    ensures json[i] == '"' ==> ReadBody(json[i..]) == ""
    ensures json[i] != '"' && !(json[i] == '\\' && i + 1 < |json|) ==>
              out + ReadBody(json[i..]) == out + [json[i]] + ReadBody(json[i + 1..])
  {
    var s := json[i..];
    assert s[1..] == json[i + 1..];
    if |s| > 1 { assert s[2..] == json[i + 2..]; }
  }

  method ReadStringAt(json: string, pos: nat) returns (out: string)
    requires pos < |json|
    ensures out == ReadBody(json[pos + 1..])
  {
    out := "";
    var i := pos + 1;
    ghost var target := ReadBody(json[pos + 1..]);
    while i < |json|
      invariant pos + 1 <= i <= |json|
      invariant out + ReadBody(json[i..]) == target
    {
      ReadBodyStep(json, i, out);
      var c := json[i];
      i := i + 1;
      if c == '\\' && i < |json| {
        var e := json[i];
        i := i + 1;
        out := out + [Unescape(e)];
      } else if c == '"' {
        return;
      } else {
        out := out + [c];
      }
    }
  }

  function EscapeChar(c: char): string {
    match c
    case '"' => "\\\""
    case '\\' => "\\\\"
    case '\n' => "\\n"
    case '\r' => "\\r"
    case '\t' => "\\t"
    case _ => [c]
  }

  function Escape(s: string): string {
    if s == "" then "" else EscapeChar(s[0]) + Escape(s[1..])
  }

  method JsonEscape(s: string) returns (out: string)
    ensures out == Escape(s)
  {
    out := "";
    for i := 0 to |s|
      invariant out + Escape(s[i..]) == Escape(s)
    {
      assert s[i..][1..] == s[i + 1..];
      Assoc(out, EscapeChar(s[i]), Escape(s[i + 1..]));
      out := out + EscapeChar(s[i]);
    }
    assert s[|s|..] == "";
  }

  lemma ReadEscapedChar(c: char, tail: string)
    ensures ReadBody(EscapeChar(c) + tail) == [c] + ReadBody(tail)
  {
    assert (EscapeChar(c) + tail)[|EscapeChar(c)|..] == tail;
  }

  /** Reading back an escaped string returns it, wherever it stands in the text. */
  lemma {:induction false} EscapeRoundTrip(s: string, rest: string)
    ensures ReadBody(Escape(s) + ("\"" + rest)) == s
  {
    if s == "" {
      assert Escape(s) + ("\"" + rest) == "\"" + rest;
    } else {
      Assoc(EscapeChar(s[0]), Escape(s[1..]), "\"" + rest);
      ReadEscapedChar(s[0], Escape(s[1..]) + ("\"" + rest));
      EscapeRoundTrip(s[1..], rest);
      assert [s[0]] + s[1..] == s;
    }
  }

  // ----- Splitting an array into objects ---------------------------------------

  /** The scan's variables; `open` is the text of the current object so far. */
  datatype Scan = Scan(out: seq<string>, depth: int, inObj: bool, inStr: bool, open: string, stopped: bool)

  const START := Scan([], 0, false, false, "", false)

  function Width(s: string, q: Scan): (n: nat)
    requires s != ""
    ensures 1 <= n <= |s|
  {
    if q.inStr && s[0] == '\\' && |s| > 1 then 2 else 1
  }

  function Turn(s: string, q: Scan): Scan
    requires s != ""
  {
    var c := s[0];
    var grown := if q.inObj then q.(open := q.open + s[..Width(s, q)]) else q;
    if q.inStr then (if c == '"' then grown.(inStr := false) else grown)
    else if c == '"' then grown.(inStr := true)
    else if c == '{' then
      (if q.depth == 0 then q.(inObj := true, open := "{", depth := 1) else grown.(depth := q.depth + 1))
    else if c == '}' then
      (if q.depth == 1 && q.inObj then q.(out := q.out + [q.open + "}"], inObj := false, open := "", depth := 0)
       else grown.(depth := q.depth - 1))
    else if c == ']' && q.depth == 0 then q.(stopped := true)
    else grown
  }

  /** The objects found by scanning the rest of the text. */
  function Objects(s: string, q: Scan): seq<string>
    decreases |s|
  {
    if s == "" || q.stopped then q.out else Objects(s[Width(s, q)..], Turn(s, q))
  }

  lemma OneTurn(json: string, i: nat, q: Scan)
    requires i < |json| && !q.stopped
    ensures var n := Width(json[i..], q);
            && Objects(json[i..], q) == Objects(json[i + n..], Turn(json[i..], q))
            && json[i..][..n] == json[i..i + n]
  {
    assert json[i..][Width(json[i..], q)..] == json[i + Width(json[i..], q)..];
  }

  /** The scan's text since the current object began, as a slice of the input. */
  function OpenText(json: string, objStart: nat, i: nat, inObj: bool): string {
    if inObj && objStart <= i <= |json| then json[objStart..i] else ""
  }

  /** The loop's variables, as the scan sees them at position i. */
  function At(json: string, i: nat, out: seq<string>, depth: int, inObj: bool, inStr: bool, objStart: nat): Scan {
    Scan(out, depth, inObj, inStr, OpenText(json, objStart, i, inObj), false)
  }

  /** One turn of the loop, on the character at i. */
  method ScanChar(json: string, i: nat, out: seq<string>, depth: int, inObj: bool, inStr: bool, objStart: nat)
    returns (stop: bool, i': nat, out': seq<string>, depth': int, inObj': bool, inStr': bool, objStart': nat)
    requires objStart <= i < |json|
    ensures var q := At(json, i, out, depth, inObj, inStr, objStart);
            && i' == i + Width(json[i..], q) && objStart' <= i' <= |json|
            && (stop ==> Turn(json[i..], q).stopped && Turn(json[i..], q).out == out')
            && (!stop ==> Turn(json[i..], q) == At(json, i', out', depth', inObj', inStr', objStart'))
  {
    Slices(json, objStart, i);
    stop, i', out', depth', inObj', inStr', objStart' := false, i + 1, out, depth, inObj, inStr, objStart;
    var c := json[i];
    if inStr {
      if c == '\\' && i + 1 < |json| {
        i' := i + 2;
      } else if c == '"' {
        inStr' := false;
      }
    } else if c == '"' {
      inStr' := true;
    } else if c == '{' {
      if depth == 0 {
        inObj', objStart' := true, i;
      }
      depth' := depth + 1;
    } else if c == '}' {
      depth' := depth - 1;
      if depth' == 0 && inObj {
        out' := out + [json[objStart..i + 1]];
        inObj' := false;
      }
    } else if c == ']' && depth == 0 {
      stop := true;
    }
  }

  /** The loop shared by GetObjectArray and SplitArrayObjects, from just after the bracket. */
  method ScanObjects(json: string, start: nat) returns (out: seq<string>)
    requires start <= |json|
    ensures out == Objects(json[start..], START)
  {
    out := [];
    var depth, inObj, inStr, objStart, i, stop := 0, false, false, start, start, false;
    ghost var target := Objects(json[start..], START);
    while i < |json|
      invariant start <= i <= |json| && 0 <= objStart <= i
      invariant Objects(json[i..], At(json, i, out, depth, inObj, inStr, objStart)) == target
      decreases |json| - i
    {
      OneTurn(json, i, At(json, i, out, depth, inObj, inStr, objStart));
      stop, i, out, depth, inObj, inStr, objStart := ScanChar(json, i, out, depth, inObj, inStr, objStart);
      if stop {
        return;
      }
    }
  }

  lemma Slices(json: string, a: nat, i: nat)
    requires a <= i < |json|
    ensures json[a..i + 1] == json[a..i] + json[i..i + 1] && json[i..i + 1] == [json[i]]
    ensures i + 2 <= |json| ==> json[a..i + 2] == json[a..i] + json[i..i + 2]
  {
  }

  // ----- JSON texts ------------------------------------------------------------

  /** One character of a string literal, or a backslash and the character after it. */
  datatype Piece = Raw(c: char) | Escaped(c: char)

  /**
   A JSON text (sections 4, 5 and 7 of RFC 8259) with its own spacing: literals, strings,
   arrays and objects, any of them with blanks around it.
   */
  datatype Json =
    | Literal(text: string)
    | Text(pieces: seq<Piece>)
    | Array(items: seq<Json>)
    | Object(members: seq<Member>)
    | Spaced(before: string, inner: Json, after: string)

  datatype Member = Member(before: string, key: seq<Piece>, after: string, value: Json)

  /** Outside strings these characters mean nothing to the scan. */
  predicate Inert(c: char) {
    c != '"' && c != '{' && c != '}'
  }

  predicate Blank(s: string) {
    forall i | 0 <= i < |s| :: s[i] == ' ' || s[i] == '\t' || s[i] == '\n' || s[i] == '\r'
  }

  predicate ValidPieces(ps: seq<Piece>) {
    forall i | 0 <= i < |ps| :: ps[i].Raw? ==> ps[i].c != '"' && ps[i].c != '\\'
  }

  predicate Valid(j: Json)
    decreases j
  {
    match j
    case Literal(t) => forall i | 0 <= i < |t| :: Inert(t[i]) && t[i] != '[' && t[i] != ']' && t[i] != ','
    case Text(ps) => ValidPieces(ps)
    case Array(items) => forall i | 0 <= i < |items| :: Valid(items[i])
    case Object(members) =>
      forall i | 0 <= i < |members| ::
        Blank(members[i].before) && ValidPieces(members[i].key) && Blank(members[i].after) && Valid(members[i].value)
    case Spaced(b, inner, a) => Blank(b) && Valid(inner) && Blank(a)
  }

  function PrintPieces(ps: seq<Piece>): string {
    if |ps| == 0 then ""
    else (if ps[0].Raw? then [ps[0].c] else ['\\', ps[0].c]) + PrintPieces(ps[1..])
  }

  function PrintText(ps: seq<Piece>): string {
    "\"" + (PrintPieces(ps) + "\"")
  }

  function Print(j: Json): string
    decreases j
  {
    match j
    case Literal(t) => t
    case Text(ps) => PrintText(ps)
    case Array(items) => "[" + (PrintItems(items) + "]")
    case Object(members) => "{" + (PrintMembers(members) + "}")
    case Spaced(b, inner, a) => b + (Print(inner) + a)
  }

  function PrintItems(items: seq<Json>): string
    decreases items
  {
    if |items| == 0 then ""
    else if |items| == 1 then Print(items[0])
    else Print(items[0]) + ("," + PrintItems(items[1..]))
  }

  function PrintMember(m: Member): string
    decreases m
  {
    m.before + (PrintText(m.key) + (m.after + (":" + Print(m.value))))
  }

  function PrintMembers(members: seq<Member>): string
    decreases members
  {
    if |members| == 0 then ""
    else if |members| == 1 then PrintMember(members[0])
    else PrintMember(members[0]) + ("," + PrintMembers(members[1..]))
  }

  // ----- Passing over text inside an object -------------------------------------

  predicate Inside(q: Scan) {
    q.inObj && q.depth >= 1 && !q.inStr && !q.stopped
  }

  function Grown(q: Scan, t: string): Scan {
    q.(open := q.open + t)
  }

  lemma GrownTwice(q: Scan, a: string, b: string)
    ensures Grown(Grown(q, a), b) == Grown(q, a + b)
  {
    Assoc(q.open, a, b);
  }

  lemma Step(first: string, rest: string, q: Scan)
    requires first != "" && !q.stopped && Width(first + rest, q) == |first|
    ensures Objects(first + rest, q) == Objects(rest, Turn(first + rest, q))
    ensures (first + rest)[..Width(first + rest, q)] == first
  {
    assert (first + rest)[|first|..] == rest;
  }

  lemma {:induction false} PassInert(t: string, rest: string, q: Scan)
    requires Inside(q) && forall i | 0 <= i < |t| :: Inert(t[i])
    ensures Objects(t + rest, q) == Objects(rest, Grown(q, t))
    decreases |t|
  {
    if t == "" {
      assert t + rest == rest && q.open + t == q.open;
    } else {
      Step([t[0]], t[1..] + rest, q);
      assert t + rest == [t[0]] + (t[1..] + rest);
      PassInert(t[1..], rest, Grown(q, [t[0]]));
      GrownTwice(q, [t[0]], t[1..]);
      assert [t[0]] + t[1..] == t;
    }
  }

  function PieceText(p: Piece): string {
    if p.Raw? then [p.c] else ['\\', p.c]
  }

  lemma PassPiece(p: Piece, rest: string, q: Scan)
    requires q.inStr && !q.stopped && q.inObj && (p.Raw? ==> p.c != '"' && p.c != '\\')
    ensures Objects(PieceText(p) + rest, q) == Objects(rest, Grown(q, PieceText(p)))
  {
    Step(PieceText(p), rest, q);
  }

  lemma {:induction false} PassPieces(ps: seq<Piece>, rest: string, q: Scan)
    requires q.inStr && !q.stopped && q.inObj && ValidPieces(ps)
    ensures Objects(PrintPieces(ps) + rest, q) == Objects(rest, Grown(q, PrintPieces(ps)))
    decreases |ps|
  {
    if |ps| == 0 {
      assert PrintPieces(ps) + rest == rest && q.open + PrintPieces(ps) == q.open;
    } else {
      Assoc(PieceText(ps[0]), PrintPieces(ps[1..]), rest);
      PassPiece(ps[0], PrintPieces(ps[1..]) + rest, q);
      PassPieces(ps[1..], rest, Grown(q, PieceText(ps[0])));
      GrownTwice(q, PieceText(ps[0]), PrintPieces(ps[1..]));
    }
  }

  lemma PassQuote(rest: string, q: Scan)
    requires q.inObj && !q.stopped && (q.inStr || q.depth >= 1)
    ensures Objects("\"" + rest, q) == Objects(rest, Grown(q, "\"").(inStr := !q.inStr))
  {
    Step("\"", rest, q);
  }

  /** A string literal is passed over whole, whatever is in it. */
  lemma PassText(ps: seq<Piece>, rest: string, q: Scan)
    requires Inside(q) && ValidPieces(ps)
    ensures Objects(PrintText(ps) + rest, q) == Objects(rest, Grown(q, PrintText(ps)))
  {
    var body := PrintPieces(ps);
    Assoc("\"", body + "\"", rest);
    Assoc(body, "\"", rest);
    PassQuote(body + ("\"" + rest), q);
    var q1 := Grown(q, "\"").(inStr := true);
    PassPieces(ps, "\"" + rest, q1);
    var q2 := Grown(q1, body);
    PassQuote(rest, q2);
    GrownTwice(q, "\"", body);
    GrownTwice(q, "\"" + body, "\"");
    Assoc("\"", body, "\"");
  }

  lemma OpenBrace(rest: string, q: Scan)
    requires Inside(q)
    ensures Objects("{" + rest, q) == Objects(rest, Grown(q, "{").(depth := q.depth + 1))
  {
    Step("{", rest, q);
    assert Turn("{" + rest, q) == Grown(q, "{").(depth := q.depth + 1);
  }

  lemma CloseBrace(rest: string, q: Scan)
    requires Inside(q) && q.depth >= 2
    ensures Objects("}" + rest, q) == Objects(rest, Grown(q, "}").(depth := q.depth - 1))
  {
    Step("}", rest, q);
  }

  /** Two stretches passed one after the other are passed together. */
  lemma PassBoth(a: string, b: string, rest: string, q: Scan)
    requires Objects(a + (b + rest), q) == Objects(b + rest, Grown(q, a))
    requires Objects(b + rest, Grown(q, a)) == Objects(rest, Grown(Grown(q, a), b))
    ensures Objects((a + b) + rest, q) == Objects(rest, Grown(q, a + b))
  {
    Assoc(a, b, rest);
    GrownTwice(q, a, b);
  }

  lemma BlankIsInert(s: string)
    requires Blank(s)
    ensures forall i | 0 <= i < |s| :: Inert(s[i])
  {
  }

  /** Any JSON value inside an object is passed over and becomes part of the object's text. */
  lemma {:induction false} PassValue(j: Json, rest: string, q: Scan)
    requires Valid(j) && Inside(q)
    ensures Objects(Print(j) + rest, q) == Objects(rest, Grown(q, Print(j)))
    decreases j, 3, 0
  {
    match j
    case Literal(t) => PassInert(t, rest, q);
    case Text(ps) => PassText(ps, rest, q);
    case Array(items) => PassArray(j, rest, q);
    case Object(members) => PassObject(j, rest, q);
    case Spaced(b, inner, a) =>
      BlankIsInert(b);
      BlankIsInert(a);
      PassInert(b, (Print(inner) + a) + rest, q);
      var q1 := Grown(q, b);
      PassValue(inner, a + rest, q1);
      PassInert(a, rest, Grown(q1, Print(inner)));
      PassBoth(Print(inner), a, rest, q1);
      PassBoth(b, Print(inner) + a, rest, q);
  }

  lemma {:induction false} PassArray(j: Json, rest: string, q: Scan)
    requires j.Array? && Valid(j) && Inside(q)
    ensures Objects(Print(j) + rest, q) == Objects(rest, Grown(q, Print(j)))
    decreases j, 2, 0
  {
    var body := PrintItems(j.items);
    PassInert("[", (body + "]") + rest, q);
    var q1 := Grown(q, "[");
    PassItems(j, j.items, "]" + rest, q1);
    PassInert("]", rest, Grown(q1, body));
    PassBoth(body, "]", rest, q1);
    PassBoth("[", body + "]", rest, q);
  }

  lemma {:induction false} PassItems(parent: Json, items: seq<Json>, rest: string, q: Scan)
    requires Inside(q) && forall i | 0 <= i < |items| :: Valid(items[i]) && items[i] < parent
    ensures Objects(PrintItems(items) + rest, q) == Objects(rest, Grown(q, PrintItems(items)))
    decreases parent, 1, |items|
  {
    if |items| == 0 {
      assert PrintItems(items) + rest == rest && q.open + "" == q.open;
    } else if |items| == 1 {
      PassValue(items[0], rest, q);
    } else {
      var tail := PrintItems(items[1..]);
      PassValue(items[0], ("," + tail) + rest, q);
      var q1 := Grown(q, Print(items[0]));
      PassInert(",", tail + rest, q1);
      PassItems(parent, items[1..], rest, Grown(q1, ","));
      PassBoth(",", tail, rest, q1);
      PassBoth(Print(items[0]), "," + tail, rest, q);
    }
  }

  lemma {:induction false} PassObject(j: Json, rest: string, q: Scan)
    requires j.Object? && Valid(j) && Inside(q)
    ensures Objects(Print(j) + rest, q) == Objects(rest, Grown(q, Print(j)))
    decreases j, 2, 0
  {
    var body := PrintMembers(j.members);
    Assoc("{", body + "}", rest);
    Assoc(body, "}", rest);
    OpenBrace(body + ("}" + rest), q);
    var q1 := Grown(q, "{").(depth := q.depth + 1);
    PassMembers(j, j.members, "}" + rest, q1);
    CloseBrace(rest, Grown(q1, body));
    GrownTwice(q, "{", body);
    GrownTwice(q, "{" + body, "}");
    Assoc("{", body, "}");
  }

  lemma {:induction false} PassMember(parent: Json, m: Member, rest: string, q: Scan)
    requires Inside(q) && m.value < parent
    requires Blank(m.before) && ValidPieces(m.key) && Blank(m.after) && Valid(m.value)
    ensures Objects(PrintMember(m) + rest, q) == Objects(rest, Grown(q, PrintMember(m)))
    decreases parent, 0, 0
  {
    BlankIsInert(m.before);
    BlankIsInert(m.after);
    var key, value := PrintText(m.key), Print(m.value);
    var colon, afterKey, whole := ":" + value, m.after + (":" + value), key + (m.after + (":" + value));
    PassInert(m.before, whole + rest, q);
    var q1 := Grown(q, m.before);
    PassText(m.key, afterKey + rest, q1);
    var q2 := Grown(q1, key);
    PassInert(m.after, colon + rest, q2);
    var q3 := Grown(q2, m.after);
    PassInert(":", value + rest, q3);
    PassValue(m.value, rest, Grown(q3, ":"));
    PassBoth(":", value, rest, q3);
    PassBoth(m.after, colon, rest, q2);
    PassBoth(key, afterKey, rest, q1);
    PassBoth(m.before, whole, rest, q);
  }

  lemma {:induction false} PassMembers(parent: Json, ms: seq<Member>, rest: string, q: Scan)
    requires Inside(q)
    requires forall i | 0 <= i < |ms| ::
               && ms[i].value < parent && Blank(ms[i].before) && ValidPieces(ms[i].key)
               && Blank(ms[i].after) && Valid(ms[i].value)
    ensures Objects(PrintMembers(ms) + rest, q) == Objects(rest, Grown(q, PrintMembers(ms)))
    decreases parent, 1, |ms|
  {
    if |ms| == 0 {
      assert PrintMembers(ms) + rest == rest && q.open + "" == q.open;
    } else if |ms| == 1 {
      PassMember(parent, ms[0], rest, q);
    } else {
      var tail := PrintMembers(ms[1..]);
      PassMember(parent, ms[0], ("," + tail) + rest, q);
      var q1 := Grown(q, PrintMember(ms[0]));
      PassInert(",", tail + rest, q1);
      PassMembers(parent, ms[1..], rest, Grown(q1, ","));
      PassBoth(",", tail, rest, q1);
      PassBoth(PrintMember(ms[0]), "," + tail, rest, q);
    }
  }

  // ----- The array --------------------------------------------------------------

  predicate Between(q: Scan) {
    !q.inObj && q.open == "" && q.depth == 0 && !q.inStr && !q.stopped
  }

  lemma {:induction false} SkipBetween(t: string, rest: string, q: Scan)
    requires Between(q) && forall i | 0 <= i < |t| :: Inert(t[i]) && t[i] != ']'
    ensures Objects(t + rest, q) == Objects(rest, q)
    decreases |t|
  {
    if t == "" {
      assert t + rest == rest;
    } else {
      Step([t[0]], t[1..] + rest, q);
      assert t + rest == [t[0]] + (t[1..] + rest);
      SkipBetween(t[1..], rest, q);
    }
  }

  lemma OpenFirst(rest: string, q: Scan)
    requires Between(q)
    ensures Objects("{" + rest, q) == Objects(rest, q.(inObj := true, open := "{", depth := 1))
  {
    Step("{", rest, q);
  }

  lemma CloseLast(rest: string, q: Scan)
    requires Inside(q) && q.depth == 1
    ensures Objects("}" + rest, q) ==
            Objects(rest, q.(out := q.out + [q.open + "}"], inObj := false, open := "", depth := 0))
  {
    Step("}", rest, q);
  }

  /** A top-level object is cut out whole. */
  lemma CutObject(j: Json, rest: string, q: Scan)
    requires j.Object? && Valid(j) && Between(q)
    ensures Objects(Print(j) + rest, q) == Objects(rest, q.(out := q.out + [Print(j)]))
  {
    var body := PrintMembers(j.members);
    Assoc("{", body + "}", rest);
    Assoc(body, "}", rest);
    OpenFirst(body + ("}" + rest), q);
    var q1 := q.(inObj := true, open := "{", depth := 1);
    PassMembers(j, j.members, "}" + rest, q1);
    CloseLast(rest, Grown(q1, body));
    Assoc("{", body, "}");
  }

  /** One array element: an object with blanks on either side. */
  datatype Element = Element(before: string, value: Json, after: string)

  predicate ValidElements(es: seq<Element>) {
    forall i | 0 <= i < |es| ::
      Blank(es[i].before) && es[i].value.Object? && Valid(es[i].value) && Blank(es[i].after)
  }

  function PrintElement(e: Element): string {
    e.before + (Print(e.value) + e.after)
  }

  function PrintElements(es: seq<Element>): string {
    if |es| == 0 then ""
    else if |es| == 1 then PrintElement(es[0])
    else PrintElement(es[0]) + ("," + PrintElements(es[1..]))
  }

  function ObjectTexts(es: seq<Element>): (ts: seq<string>)
    ensures |ts| == |es| && forall i | 0 <= i < |es| :: ts[i] == Print(es[i].value)
  {
    seq(|es|, i requires 0 <= i < |es| => Print(es[i].value))
  }

  lemma BlankSkips(s: string)
    requires Blank(s)
    ensures forall i | 0 <= i < |s| :: Inert(s[i]) && s[i] != ']'
  {
  }

  lemma CutElement(e: Element, rest: string, q: Scan)
    requires Blank(e.before) && e.value.Object? && Valid(e.value) && Blank(e.after) && Between(q)
    ensures Objects(PrintElement(e) + rest, q) == Objects(rest, q.(out := q.out + [Print(e.value)]))
  {
    BlankSkips(e.before);
    BlankSkips(e.after);
    Assoc(e.before, Print(e.value) + e.after, rest);
    Assoc(Print(e.value), e.after, rest);
    SkipBetween(e.before, Print(e.value) + (e.after + rest), q);
    CutObject(e.value, e.after + rest, q);
    SkipBetween(e.after, rest, q.(out := q.out + [Print(e.value)]));
  }

  lemma CloseArray(rest: string, q: Scan)
    requires Between(q)
    ensures Objects("]" + rest, q) == q.out
  {
    Step("]", rest, q);
  }

  lemma SkipComma(rest: string, q: Scan)
    requires Between(q)
    ensures Objects("," + rest, q) == Objects(rest, q)
  {
    SkipBetween(",", rest, q);
  }

  lemma {:induction false} CutElements(es: seq<Element>, rest: string, q: Scan)
    requires ValidElements(es) && Between(q)
    ensures Objects(PrintElements(es) + ("]" + rest), q) == q.out + ObjectTexts(es)
    decreases |es|
  {
    if |es| == 0 {
      assert PrintElements(es) + ("]" + rest) == "]" + rest;
      CloseArray(rest, q);
      assert q.out + ObjectTexts(es) == q.out;
    } else {
      var q1 := q.(out := q.out + [Print(es[0].value)]);
      ElementsText(es, rest);
      TextsCons(es, q.out);
      if |es| == 1 {
        CutElement(es[0], "]" + rest, q);
        CloseArray(rest, q1);
        assert ObjectTexts(es[1..]) == [];
      } else {
        var tail := PrintElements(es[1..]) + ("]" + rest);
        CutElement(es[0], "," + tail, q);
        SkipComma(tail, q1);
        CutElements(es[1..], rest, q1);
      }
    }
  }

  lemma TextsCons(es: seq<Element>, out: seq<string>)
    requires |es| > 0
    ensures out + ObjectTexts(es) == out + [Print(es[0].value)] + ObjectTexts(es[1..])
  {
  }

  lemma ElementsText(es: seq<Element>, rest: string)
    requires |es| > 0
    ensures PrintElements(es) + ("]" + rest) ==
            PrintElement(es[0]) + (if |es| == 1 then "]" + rest else "," + (PrintElements(es[1..]) + ("]" + rest)))
  {
    if |es| > 1 {
      Assoc(PrintElement(es[0]), "," + PrintElements(es[1..]), "]" + rest);
      Assoc(",", PrintElements(es[1..]), "]" + rest);
    }
  }

  /** Position of the first '[', or the length of the text. */
  function FirstBracket(s: string): (n: nat)
    ensures n <= |s|
  {
    if s == "" || s[0] == '[' then 0 else 1 + FirstBracket(s[1..])
  }

  function Split(s: string): seq<string> {
    var i := FirstBracket(s);
    if i == |s| then [] else Objects(s[i + 1..], START)
  }

  method SplitArrayObjects(json: string) returns (out: seq<string>)
    ensures out == Split(json)
  {
    var i := 0;
    while i < |json| && json[i] != '['
      invariant 0 <= i <= |json| && FirstBracket(json) == i + FirstBracket(json[i..])
    {
      assert json[i..][1..] == json[i + 1..];
      i := i + 1;
    }
    if i == |json| {
      return [];
    }
    out := ScanObjects(json, i + 1);
  }

  /** Splitting a printed array of objects returns exactly their texts, in order. */
  lemma SplitRoundTrip(es: seq<Element>, rest: string)
    requires ValidElements(es)
    ensures Split("[" + (PrintElements(es) + ("]" + rest))) == ObjectTexts(es)
  {
    var s := "[" + (PrintElements(es) + ("]" + rest));
    assert s[1..] == PrintElements(es) + ("]" + rest);
    CutElements(es, rest, START);
    assert [] + ObjectTexts(es) == ObjectTexts(es);
  }

  // ----- Escapes --------------------------------------------------------------------

  /** Control characters, which section 7 of RFC 8259 wants escaped. */
  predicate IsControl(c: char) {
    c < ' '
  }

  lemma {:induction false} EscapedChars(s: string)
    ensures (exists i | 0 <= i < |Escape(s)| :: IsControl(Escape(s)[i])) <==>
            exists i | 0 <= i < |s| :: IsControl(s[i]) && s[i] !in {'\n', '\r', '\t'}
  {
    if s != "" {
      EscapedChars(s[1..]);
      var head, tail := EscapeChar(s[0]), Escape(s[1..]);
      var all := Escape(s);
      assert all == head + tail;
      assert (exists i | 0 <= i < |all| :: IsControl(all[i])) <==>
             || (exists i | 0 <= i < |head| :: IsControl(head[i]))
             || (exists i | 0 <= i < |tail| :: IsControl(tail[i])) by {
        assert forall i | 0 <= i < |head| :: all[i] == head[i];
        assert forall i | 0 <= i < |tail| :: all[|head| + i] == tail[i];
      }
      assert (exists i | 0 <= i < |head| :: IsControl(head[i])) <==> IsControl(s[0]) && s[0] !in {'\n', '\r', '\t'} by {
        assert |head| == 1 ==> head[0] == s[0];
      }
      assert forall i | 1 <= i < |s| :: s[i] == s[1..][i - 1];
    }
  }

  /**
   The escaped text may stand in a JSON string literal if and only if the text holds no control
   character other than line feed, carriage return and tab, the three that are escaped.
   */
  lemma EscapedIsJsonIff(s: string)
    ensures (forall i | 0 <= i < |Escape(s)| :: !IsControl(Escape(s)[i])) <==>
            forall i | 0 <= i < |s| :: IsControl(s[i]) ==> s[i] in {'\n', '\r', '\t'}
  {
    EscapedChars(s);
  }

  /** What an escape stands for in section 7 of RFC 8259, code points by number aside. */
  function Meant(e: char): char {
    match e
    case 'n' => '\n'
    case 'r' => '\r'
    case 't' => '\t'
    case 'b' => '\U{08}'
    case 'f' => '\U{0c}'
    case _ => e
  }

  predicate SimpleEscapes(ps: seq<Piece>) {
    forall i | 0 <= i < |ps| :: ps[i].Escaped? ==> ps[i].c in {'"', '\\', '/', 'b', 'f', 'n', 'r', 't'}
  }

  /** The text a string literal stands for. */
  function MeantText(ps: seq<Piece>): (t: string)
    ensures |t| == |ps|
    ensures forall i | 0 <= i < |ps| :: t[i] == if ps[i].Raw? then ps[i].c else Meant(ps[i].c)
  {
    seq(|ps|, i requires 0 <= i < |ps| => if ps[i].Raw? then ps[i].c else Meant(ps[i].c))
  }

  function ReadText(ps: seq<Piece>): (t: string)
    ensures |t| == |ps|
    ensures forall i | 0 <= i < |ps| :: t[i] == if ps[i].Raw? then ps[i].c else Unescape(ps[i].c)
  {
    seq(|ps|, i requires 0 <= i < |ps| => if ps[i].Raw? then ps[i].c else Unescape(ps[i].c))
  }

  lemma {:induction false} ReadsPieces(ps: seq<Piece>, rest: string)
    requires ValidPieces(ps)
    ensures ReadBody(PrintPieces(ps) + ("\"" + rest)) == ReadText(ps)
    decreases |ps|
  {
    var end := "\"" + rest;
    if |ps| == 0 {
      assert PrintPieces(ps) + end == end;
    } else {
      ReadsPieces(ps[1..], rest);
      var piece, tail := PieceText(ps[0]), PrintPieces(ps[1..]) + end;
      Assoc(piece, PrintPieces(ps[1..]), end);
      assert (piece + tail)[|piece|..] == tail;
      assert ReadText(ps) == [ReadText(ps)[0]] + ReadText(ps[1..]);
    }
  }

  /** A string literal is read as what it stands for if and only if it has no \b and no \f. */
  lemma ReadsLiteralIff(ps: seq<Piece>, rest: string)
    requires ValidPieces(ps) && SimpleEscapes(ps)
    ensures ReadBody(PrintPieces(ps) + ("\"" + rest)) == MeantText(ps) <==>
            forall i | 0 <= i < |ps| :: ps[i].Escaped? ==> ps[i].c !in {'b', 'f'}
  {
    ReadsPieces(ps, rest);
    if i :| 0 <= i < |ps| && ps[i].Escaped? && ps[i].c in {'b', 'f'} {
      assert ReadText(ps)[i] != MeantText(ps)[i];
    }
  }
}
