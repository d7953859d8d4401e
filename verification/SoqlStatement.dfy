/**
 The whole SELECT statement a scan or a chunk sends, and a reader for it: the field list,
 the object and the WHERE text are recovered exactly.
 */
module SoqlStatement {
  import opened Text
  import opened SoqlSyntax

  datatype Statement = Statement(fields: seq<string>, objectName: string, where: string)

  function PrintStatement(q: Statement): string {
    "SELECT " +
    (Join(", ", q.fields) + (" FROM " + (q.objectName + (if q.where == "" then "" else " WHERE " + q.where))))
  }

  /** A number in decimal digits. */
  function Decimal(n: nat): string {
    var digit := [('0' as int + n % 10) as char];
    if n < 10 then digit else Decimal(n / 10) + digit
  }

  function LimitText(limit: Option<nat>): string {
    match limit
    case None => ""
    case Some(n) => " LIMIT " + Decimal(n)
  }

  /** The number digits spell. */
  function Spelled(s: string): int {
    if s == "" then 0 else 10 * Spelled(s[..|s| - 1]) + (s[|s| - 1] as int - '0' as int)
  }

  /** A limit is spelled in digits only, and they spell it. */
  lemma {:induction false} DecimalRoundTrip(n: nat)
    ensures Decimal(n) != "" && Spelled(Decimal(n)) == n && forall c :: c in Decimal(n) ==> '0' <= c <= '9'
  {
    if n >= 10 {
      DecimalRoundTrip(n / 10);
      var s := Decimal(n);
      assert s[..|s| - 1] == Decimal(n / 10);
    } else {
      assert Decimal(n)[..0] == "";
    }
  }

  /** BuildSelectSoql; scans call it without a limit. */
  method BuildSelectSoql(objectName: string, fields: seq<string>, where: string, limit: Option<nat>)
    returns (soql: string)
    ensures soql == PrintStatement(Statement(fields, objectName, where)) + LimitText(limit)
  {
    soql := "SELECT ";
    for i := 0 to |fields|
      invariant soql == "SELECT " + Join(", ", fields[..i])
    {
      assert fields[..i + 1] == fields[..i] + [fields[i]];
      if i > 0 {
        JoinSnoc(", ", fields[..i], fields[i]);
        soql := soql + ", ";
      }
      soql := soql + fields[i];
    }
    assert fields[..|fields|] == fields;
    ghost var head := soql;
    soql := soql + (" FROM " + objectName);
    if where != "" {
      soql := soql + (" WHERE " + where);
    }
    Assoc("SELECT ", Join(", ", fields), " FROM " + objectName);
    Assoc(head, " FROM " + objectName, " WHERE " + where);
    Assoc(" FROM ", objectName, " WHERE " + where);
    Assoc("SELECT ", Join(", ", fields), " FROM " + (objectName + (" WHERE " + where)));
    assert objectName + "" == objectName;
    assert soql + "" == soql;
    if limit.Some? {
      soql := soql + (" LIMIT " + Decimal(limit.value));
    }
  }

  predicate ValidStatement(q: Statement) {
    |q.fields| > 0 && (forall i | 0 <= i < |q.fields| :: ValidName(q.fields[i])) && ValidName(q.objectName)
  }

  // ----- Reader -------------------------------------------------------------

  function ReadNames(s: string): (r: Read<seq<string>>)
    ensures r.Got? ==> |r.rest| < |s|
    decreases |s|
  {
    var n := NameLength(s);
    if n == 0 then Fail
    else if StartsWith(s[n..], ", ") then
      match ReadNames(s[n + 2..])
      case Fail => Fail
      case Got(names, rest) => Got([s[..n]] + names, rest)
    else Got([s[..n]], s[n..])
  }

  function ReadTail(fields: seq<string>, s: string): Option<Statement> {
    var n := NameLength(s);
    if n == 0 then None
    else if s[n..] == "" then Some(Statement(fields, s[..n], ""))
    else if StartsWith(s[n..], " WHERE ") && |s[n..]| > 7 then Some(Statement(fields, s[..n], s[n..][7..]))
    else None
  }

  function ReadStatement(s: string): Option<Statement> {
    if !StartsWith(s, "SELECT ") then None
    else
      match ReadNames(s[7..])
      case Fail => None
      case Got(fields, rest) => if StartsWith(rest, " FROM ") then ReadTail(fields, rest[6..]) else None
  }

  // ----- Round trip ---------------------------------------------------------

  lemma ReadLastName(name: string, rest: string)
    requires ValidName(name) && (rest == "" || rest[0] == ' ')
    ensures ReadNames(name + rest) == Got([name], rest)
  {
    NameLengthIs(name, rest);
    StartsWithAppend(name, rest);
    if rest != "" { NotPrefix(rest, ", ", 0); }
  }

  lemma ReadNextName(name: string, tail: string, names: seq<string>, rest: string)
    requires ValidName(name) && ReadNames(tail) == Got(names, rest)
    ensures ReadNames(name + (", " + tail)) == Got([name] + names, rest)
  {
    var s := name + (", " + tail);
    NameLengthIs(name, ", " + tail);
    StartsWithAppend(name, ", " + tail);
    StartsWithAppend(", ", tail);
    assert s[|name| + 2..] == tail;
  }

  lemma {:induction false} NamesRoundTrip(names: seq<string>, rest: string)
    requires |names| > 0 && (forall i | 0 <= i < |names| :: ValidName(names[i])) && (rest == "" || rest[0] == ' ')
    ensures ReadNames(Join(", ", names) + rest) == Got(names, rest)
    decreases |names|
  {
    if |names| == 1 {
      ReadLastName(names[0], rest);
      assert names == [names[0]];
    } else {
      var tail := Join(", ", names[1..]);
      NamesRoundTrip(names[1..], rest);
      ReadNextName(names[0], tail + rest, names[1..], rest);
      Assoc(names[0], ", ", tail);
      Assoc(names[0], ", " + tail, rest);
      Assoc(", ", tail, rest);
      assert names == [names[0]] + names[1..];
    }
  }

  lemma TailRoundTrip(fields: seq<string>, objectName: string, where: string)
    requires ValidName(objectName)
    ensures ReadTail(fields, objectName + (if where == "" then "" else " WHERE " + where)) ==
            Some(Statement(fields, objectName, where))
  {
    var rest := if where == "" then "" else " WHERE " + where;
    NameLengthIs(objectName, rest);
    StartsWithAppend(objectName, rest);
    if where != "" { StartsWithAppend(" WHERE ", where); }
  }

  /** Every statement is read back: the fields in order, the object, and the WHERE text untouched. */
  lemma StatementRoundTrip(q: Statement)
    requires ValidStatement(q)
    ensures ReadStatement(PrintStatement(q)) == Some(q)
  {
    var tail := q.objectName + (if q.where == "" then "" else " WHERE " + q.where);
    var rest := " FROM " + tail;
    StartsWithAppend("SELECT ", Join(", ", q.fields) + rest);
    NamesRoundTrip(q.fields, rest);
    StartsWithAppend(" FROM ", tail);
    TailRoundTrip(q.fields, q.objectName, q.where);
  }
}
