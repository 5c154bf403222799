/** The rendered label condition, read as SQL: a reader of its tokens that decides it for a row of the label
    table, and the proof that it decides what the selector asks for. */
module SelectorMeaning {
  import opened SelectorRows
  import opened SelectorText
  import opened Text

  datatype Comparison = Same | Other | Greater | Smaller

  /** Where the reader stands. `acc` is the truth of the conditions already read; they are joined by OR. */
  datatype Reader =
    | Begin(acc: bool)
    | Name(acc: bool)                                              // "(name =", a name is due
    | Key(acc: bool, hit: bool)
    | Value(acc: bool, hit: bool, test: Comparison)                // a comparison, its value is due
    | Compared(acc: bool, truth: bool)
    | Item(acc: bool, hit: bool, negated: bool, values: seq<string>)   // a list, a value is due
    | Items(acc: bool, hit: bool, negated: bool, values: seq<string>)
    | AnyName(acc: bool)                                           // "(name IN (", a name is due
    | Present(acc: bool, truth: bool)
    | Sub(acc: bool)                                               // the subquery, its pattern is due
    | SubPattern(acc: bool, pattern: string)
    | SubName(acc: bool, pattern: string)
    | SubNamed(acc: bool, pattern: string, name: string)
    | Done(acc: bool)
    | Unread

  /** The row a condition is decided for, in its table, under a collation. */
  datatype Scope = Scope(table: seq<LabelRow>, row: LabelRow, same: (char, char) -> bool)

  ghost predicate Passes(test: Comparison, value: string, bound: string) {
    match test
    case Same => value == bound
    case Other => value != bound
    case Greater => Less(bound, value)
    case Smaller => Less(value, bound)
  }

  /** The reader after a piece of fixed text. */
  ghost function AfterText(st: Reader, text: string, sql: Sql, sc: Scope): Reader {
    match st
    case Begin(acc) =>
      if text == "(name = " then Name(acc)
      else if text == "(name IN (" then AnyName(acc)
      else if text == sql.notIn then Sub(acc)
      else Unread
    case Key(acc, hit) =>
      if text == " AND value = " then Value(acc, hit, Same)
      else if text == " AND value != " then Value(acc, hit, Other)
      else if text == " AND value > " then Value(acc, hit, Greater)
      else if text == " AND value < " then Value(acc, hit, Smaller)
      else if text == " AND value IN (" then Item(acc, hit, false, [])
      else if text == " AND value NOT IN (" then Item(acc, hit, true, [])
      else Unread
    case Compared(acc, truth) => if text == ")" then Done(acc || truth) else Unread
    case Items(acc, hit, negated, values) =>
      if text == "," then Item(acc, hit, negated, values)
      else if text == "))" then Done(acc || (hit && (negated <==> sc.row.value !in values)))
      else Unread
    case Present(acc, truth) => if text == "))" then Done(acc || truth) else Unread
    case SubPattern(acc, pattern) => if text == sql.notInName then SubName(acc, pattern) else Unread
    case SubNamed(acc, pattern, name) =>
      if text == sql.notInEnd then Done(acc || Lacks(sc.table, sc.row.id, pattern, name, sc.same)) else Unread
    case Done(acc) => if text == " OR " then Begin(acc) else Unread
    case _ => Unread
  }

  /** The reader after a placeholder that is bound to a text. */
  ghost function AfterArg(st: Reader, arg: string, sc: Scope): Reader {
    match st
    case Name(acc) => Key(acc, sc.row.name == arg)
    case Value(acc, hit, test) => Compared(acc, hit && Passes(test, sc.row.value, arg))
    case Item(acc, hit, negated, values) => Items(acc, hit, negated, values + [arg])
    case AnyName(acc) => Present(acc, sc.row.name == arg)
    case Sub(acc) => SubPattern(acc, arg)
    case SubName(acc, pattern) => SubNamed(acc, pattern, arg)
    case _ => Unread
  }

  ghost function AfterToken(st: Reader, t: Token, sql: Sql, sc: Scope): Reader {
    match t
    case Lit(text) => AfterText(st, text, sql, sc)
    case Param(arg) => if arg.Str? then AfterArg(st, arg.text, sc) else Unread
  }

  /** Reads a query from some point on. */
  ghost function Read(st: Reader, q: Query, sql: Sql, sc: Scope): Reader {
    match q case Empty => st case More(front, last) => AfterToken(Read(st, front, sql, sc), last, sql, sc)
  }

  lemma {:induction false} ReadThen(st: Reader, a: Query, b: Query, sql: Sql, sc: Scope)
    ensures Read(st, a.Then(b), sql, sc) == Read(Read(st, a, sql, sc), b, sql, sc)
  {
    if b.More? { ReadThen(st, a, b.front, sql, sc); }
  }

  /** The subquery does not begin like another condition. */
  ghost predicate Distinct(sql: Sql) {
    sql.notIn != "(name = " && sql.notIn != "(name IN ("
  }

  lemma CompareMeans(acc: bool, test: string, op: Comparison, req: Requirement, sql: Sql, sc: Scope)
    requires req.values != []
    requires AfterText(Key(acc, sc.row.name == req.key), test, sql, sc) == Value(acc, sc.row.name == req.key, op)
    ensures Read(Begin(acc), Compare(test, req), sql, sc) ==
              Done(acc || (sc.row.name == req.key && Passes(op, sc.row.value, req.values[0])))
  {
    var q1 := Empty.Text("(name = ");
    var q2 := q1.Bind(Str(req.key));
    var q3 := q2.Text(test);
    var q4 := q3.Bind(Str(req.values[0]));
    assert Read(Begin(acc), q1, sql, sc) == Name(acc);
    assert Read(Begin(acc), q2, sql, sc) == Key(acc, sc.row.name == req.key);
    assert Read(Begin(acc), q3, sql, sc) == Value(acc, sc.row.name == req.key, op);
    assert Read(Begin(acc), q4, sql, sc).Compared?;
  }

  lemma {:induction false} ListMeans(st: Reader, q: Query, values: seq<string>, sql: Sql, sc: Scope)
    requires values != [] && Read(st, q, sql, sc).Item? && Read(st, q, sql, sc).values == []
    ensures var r := Read(st, q, sql, sc); Read(st, List(q, values), sql, sc) == Items(r.acc, r.hit, r.negated, values)
  {
    var n, r := |values| - 1, Read(st, q, sql, sc);
    if n == 0 {
      assert [] + [values[0]] == values;
    } else {
      ListMeans(st, q, values[..n], sql, sc);
      assert Read(st, List(q, values[..n]).Text(","), sql, sc) == Item(r.acc, r.hit, r.negated, values[..n]);
      assert values[..n] + [values[n]] == values;
    }
  }

  lemma AmongMeans(acc: bool, test: string, negated: bool, req: Requirement, sql: Sql, sc: Scope)
    requires req.values != []
    requires AfterText(Key(acc, sc.row.name == req.key), test, sql, sc) ==
              Item(acc, sc.row.name == req.key, negated, [])
    ensures Read(Begin(acc), Among(test, req), sql, sc) ==
              Done(acc || (sc.row.name == req.key && (negated <==> sc.row.value !in req.values)))
  {
    var q1 := Empty.Text("(name = ");
    var q2 := q1.Bind(Str(req.key));
    var q3 := q2.Text(test);
    assert Read(Begin(acc), q1, sql, sc) == Name(acc);
    assert Read(Begin(acc), q2, sql, sc) == Key(acc, sc.row.name == req.key);
    assert Read(Begin(acc), q3, sql, sc) == Item(acc, sc.row.name == req.key, negated, []);
    ListMeans(Begin(acc), q3, req.values, sql, sc);
  }

  lemma ExistsMeans(acc: bool, req: Requirement, sql: Sql, sc: Scope)
    ensures Read(Begin(acc), Empty.Text("(name IN (").Bind(Str(req.key)).Text("))"), sql, sc) ==
              Done(acc || sc.row.name == req.key)
  {
    var q1 := Empty.Text("(name IN (");
    assert Read(Begin(acc), q1, sql, sc) == AnyName(acc);
    assert Read(Begin(acc), q1.Bind(Str(req.key)), sql, sc) == Present(acc, sc.row.name == req.key);
  }

  lemma AbsentMeans(acc: bool, req: Requirement, pattern: string, sql: Sql, sc: Scope)
    requires Distinct(sql)
    ensures Read(Begin(acc),
              Empty.Text(sql.notIn).Bind(Str(pattern)).Text(sql.notInName).Bind(Str(req.key)).Text(sql.notInEnd),
              sql, sc)
              == Done(acc || Lacks(sc.table, sc.row.id, pattern, req.key, sc.same))
  {
    var q1 := Empty.Text(sql.notIn);
    var q2 := q1.Bind(Str(pattern));
    var q3 := q2.Text(sql.notInName);
    assert Read(Begin(acc), q1, sql, sc) == Sub(acc);
    assert Read(Begin(acc), q2, sql, sc) == SubPattern(acc, pattern);
    assert Read(Begin(acc), q3, sql, sc) == SubName(acc, pattern);
    assert Read(Begin(acc), q3.Bind(Str(req.key)), sql, sc) == SubNamed(acc, pattern, req.key);
  }

  /** The condition rendered for a requirement, read as SQL, is the requirement's meaning for the row. */
  lemma ClauseMeans(acc: bool, req: Requirement, pattern: string, sql: Sql, sc: Scope)
    requires WellFormed(req) && Distinct(sql)
    ensures Read(Begin(acc), Clause(sql, req, pattern), sql, sc) ==
              Done(acc || Holds(sc.table, sc.row, pattern, req, sc.same))
  {
    match req.op {
      case DoesNotExist => AbsentMeans(acc, req, pattern, sql, sc);
      case DoubleEquals => CompareMeans(acc, " AND value = ", Same, req, sql, sc);
      case Equals => CompareMeans(acc, " AND value = ", Same, req, sql, sc);
      case In => AmongMeans(acc, " AND value IN (", false, req, sql, sc);
      case NotEquals => CompareMeans(acc, " AND value != ", Other, req, sql, sc);
      case NotIn => AmongMeans(acc, " AND value NOT IN (", true, req, sql, sc);
      case Exists => ExistsMeans(acc, req, sql, sc);
      case GreaterThan => CompareMeans(acc, " AND value > ", Greater, req, sql, sc);
      case LessThan => CompareMeans(acc, " AND value < ", Smaller, req, sql, sc);
    }
  }

  /** Some requirement holds of the row. */
  ghost predicate AnyHolds(reqs: seq<Requirement>, pattern: string, sc: Scope)
    requires AllWellFormed(reqs)
  {
    exists i :: 0 <= i < |reqs| && Holds(sc.table, sc.row, pattern, reqs[i], sc.same)
  }

  /** The whole rendered condition, read as SQL: some requirement holds of the row. */
  lemma {:induction false} ConditionMeans(reqs: seq<Requirement>, pattern: string, sql: Sql, sc: Scope)
    requires reqs != [] && AllWellFormed(reqs) && Distinct(sql)
    ensures Read(Begin(false), Joined(Clauses(sql, reqs, pattern), " OR "), sql, sc) ==
              Done(AnyHolds(reqs, pattern, sc))
  {
    var n := |reqs| - 1;
    var front, cs := reqs[..n], Clauses(sql, reqs, pattern);
    if n == 0 {
      OneMeans(reqs, pattern, sql, sc);
    } else {
      ConditionMeans(front, pattern, sql, sc);
      assert cs[..n] == Clauses(sql, front, pattern);
      OrMeans(Joined(cs[..n], " OR "), AnyHolds(front, pattern, sc), reqs[n], pattern, sql, sc);
      OneMoreHolds(reqs, pattern, sc);
    }
  }

  lemma OneMeans(reqs: seq<Requirement>, pattern: string, sql: Sql, sc: Scope)
    requires |reqs| == 1 && AllWellFormed(reqs) && Distinct(sql)
    ensures Read(Begin(false), Clause(sql, reqs[0], pattern), sql, sc) == Done(AnyHolds(reqs, pattern, sc))
  {
    ClauseMeans(false, reqs[0], pattern, sql, sc);
    assert AnyHolds(reqs, pattern, sc) <==> Holds(sc.table, sc.row, pattern, reqs[0], sc.same);
  }

  lemma OrMeans(q: Query, truth: bool, req: Requirement, pattern: string, sql: Sql, sc: Scope)
    requires WellFormed(req) && Distinct(sql) && Read(Begin(false), q, sql, sc) == Done(truth)
    ensures Read(Begin(false), q.Text(" OR ").Then(Clause(sql, req, pattern)), sql, sc) ==
              Done(truth || Holds(sc.table, sc.row, pattern, req, sc.same))
  {
    assert Read(Begin(false), q.Text(" OR "), sql, sc) == Begin(truth);
    ReadThen(Begin(false), q.Text(" OR "), Clause(sql, req, pattern), sql, sc);
    ClauseMeans(truth, req, pattern, sql, sc);
  }

  lemma OneMoreHolds(reqs: seq<Requirement>, pattern: string, sc: Scope)
    requires reqs != [] && AllWellFormed(reqs)
    ensures var n := |reqs| - 1;
            AnyHolds(reqs, pattern, sc) <==>
              AnyHolds(reqs[..n], pattern, sc) || Holds(sc.table, sc.row, pattern, reqs[n], sc.same)
  {
    var n := |reqs| - 1;
    if i :| 0 <= i < |reqs| && Holds(sc.table, sc.row, pattern, reqs[i], sc.same) {
      if i < n { assert reqs[..n][i] == reqs[i]; }
    }
  }
}
