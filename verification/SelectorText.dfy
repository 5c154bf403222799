/** Rendering a label and a field selector as an SQL condition: the text with its placeholders, and
    the arguments bound to them. */
module SelectorText {
  import opened Text

  datatype Operator = DoesNotExist | Equals | DoubleEquals | In | NotEquals | NotIn | Exists | GreaterThan | LessThan

  datatype Requirement = Requirement(key: string, op: Operator, values: seq<string>)

  /** What the label parser guarantees of a requirement. */
  predicate WellFormed(req: Requirement) {
    match req.op
    case Exists | DoesNotExist => req.values == []
    case In | NotIn => req.values != []
    case _ => |req.values| == 1
  }

  ghost predicate AllWellFormed(reqs: seq<Requirement>) {
    forall i | 0 <= i < |reqs| :: WellFormed(reqs[i])
  }

  /** A selector parameter, as parsed. */
  datatype Selector = Absent | Malformed | Unselectable | Requirements(reqs: seq<Requirement>)

  datatype Arg = Str(text: string) | Num(number: int) | Flag(flag: bool)

  /** A piece of a query: literal text, or a placeholder with the argument it is meant for. */
  datatype Token = Lit(text: string) | Param(arg: Arg)

  datatype Query = Empty | More(front: Query, last: Token) {
    ghost function Text(s: string): Query { More(this, Lit(s)) }

    ghost function Bind(arg: Arg): Query { More(this, Param(arg)) }

    ghost function Then(q: Query): Query
      decreases q
    {
      match q case Empty => this case More(front, last) => More(Then(front), last)
    }
  }

  ghost function Show(t: Token): string {
    match t case Lit(text) => text case Param(_) => "?"
  }

  /** The query text, a question mark for each placeholder. */
  ghost function Plain(q: Query): string {
    match q case Empty => "" case More(front, last) => Plain(front) + Show(last)
  }

  ghost function ParamOf(t: Token): seq<Arg> {
    match t case Lit(_) => [] case Param(arg) => [arg]
  }

  /** The arguments, in placeholder order. */
  ghost function Params(q: Query): seq<Arg> {
    match q case Empty => [] case More(front, last) => Params(front) + ParamOf(last)
  }

  ghost function ShowNumbered(t: Token, n: nat, itoa: nat -> string): string {
    match t case Lit(text) => text case Param(_) => "$" + itoa(n + 1)
  }

  /** The query text with placeholders numbered after the first n. */
  ghost function PlainNumbered(q: Query, n: nat, itoa: nat -> string): string {
    match q
    case Empty => ""
    case More(front, last) => PlainNumbered(front, n, itoa) + ShowNumbered(last, n + |Params(front)|, itoa)
  }

  /** No literal holds a question mark. */
  ghost predicate Clean(q: Query) {
    match q case Empty => true case More(front, last) => Clean(front) && (last.Lit? ==> '?' !in last.text)
  }

  lemma Assoc<T>(x: seq<T>, y: seq<T>, z: seq<T>)
    ensures x + (y + z) == x + y + z
  {
  }

  lemma {:induction false} ThenPlain(a: Query, b: Query)
    ensures Plain(a.Then(b)) == Plain(a) + Plain(b)
  {
    if b.More? {
      ThenPlain(a, b.front);
      Assoc(Plain(a), Plain(b.front), Show(b.last));
    }
  }

  lemma {:induction false} ThenParams(a: Query, b: Query)
    ensures Params(a.Then(b)) == Params(a) + Params(b)
  {
    if b.More? {
      ThenParams(a, b.front);
      Assoc(Params(a), Params(b.front), ParamOf(b.last));
    }
  }

  ghost predicate NumberedAs(q: Query, n: nat, itoa: nat -> string, r: string) {
    PlainNumbered(q, n, itoa) == r
  }

  lemma NumberedMore(q: Query, t: Token, k: nat, n: nat, itoa: nat -> string, r: string)
    requires NumberedAs(q, n, itoa, r) && |Params(q)| == k
    ensures NumberedAs(More(q, t), n, itoa, r + ShowNumbered(t, n + k, itoa))
  {
  }

  lemma {:induction false} ThenNumbered(a: Query, b: Query, n: nat, itoa: nat -> string)
    ensures NumberedAs(a.Then(b), n, itoa, PlainNumbered(a, n, itoa) + PlainNumbered(b, n + |Params(a)|, itoa))
  {
    if b.More? {
      var k, ra := |Params(a)|, PlainNumbered(a, n, itoa);
      var rb := PlainNumbered(b.front, n + k, itoa);
      ThenNumbered(a, b.front, n, itoa);
      assert |Params(a.Then(b.front))| == k + |Params(b.front)| by { ThenParams(a, b.front); }
      NumberedMore(a.Then(b.front), b.last, k + |Params(b.front)|, n, itoa, ra + rb);
      Assoc(ra, rb, ShowNumbered(b.last, n + k + |Params(b.front)|, itoa));
    }
  }

  lemma {:induction false} ThenClean(a: Query, b: Query)
    ensures Clean(a.Then(b)) <==> Clean(a) && Clean(b)
  {
    if b.More? {
      ThenClean(a, b.front);
    }
  }

  // Numbering placeholders in a text.

  /** The question marks among the first i characters. */
  ghost function Marks(text: string, i: nat): nat
    requires i <= |text|
  {
    if i == 0 then 0 else Marks(text, i - 1) + if text[i - 1] == '?' then 1 else 0
  }

  /** The first i characters, with question marks replaced by numbers from n + 1 on. */
  ghost function Numbered(text: string, i: nat, n: nat, itoa: nat -> string): string
    requires i <= |text|
  {
    if i == 0 then ""
    else Numbered(text, i - 1, n, itoa) +
         if text[i - 1] == '?' then "$" + itoa(n + Marks(text, i - 1) + 1) else [text[i - 1]]
  }

  method ReplaceParamsToNumbers(where: string, n: nat, itoa: nat -> string) returns (r: string)
    ensures r == Numbered(where, |where|, n, itoa)
  {
    r := "";
    var args := n;
    for i := 0 to |where|
      invariant args == n + Marks(where, i) && r == Numbered(where, i, n, itoa)
    {
      if where[i] == '?' {
        args := args + 1;
        r := r + ("$" + itoa(args));
      } else {
        r := r + [where[i]];
      }
    }
  }

  lemma {:induction false} NumberedWithin(a: string, b: string, i: nat, n: nat, itoa: nat -> string)
    requires i <= |a|
    ensures Marks(a + b, i) == Marks(a, i) && Numbered(a + b, i, n, itoa) == Numbered(a, i, n, itoa)
  {
    if i > 0 {
      NumberedWithin(a, b, i - 1, n, itoa);
    }
  }

  lemma {:induction false} NumberedBeyond(a: string, b: string, j: nat, n: nat, itoa: nat -> string)
    requires j <= |b|
    ensures Marks(a + b, |a| + j) == Marks(a, |a|) + Marks(b, j)
    ensures Numbered(a + b, |a| + j, n, itoa) == Numbered(a, |a|, n, itoa) + Numbered(b, j, n + Marks(a, |a|), itoa)
  {
    if j == 0 {
      NumberedWithin(a, b, |a|, n, itoa);
    } else {
      NumberedBeyond(a, b, j - 1, n, itoa);
      assert (a + b)[|a| + j - 1] == b[j - 1];
    }
  }

  lemma {:induction false} NothingToNumber(text: string, i: nat, n: nat, itoa: nat -> string)
    requires '?' !in text && i <= |text|
    ensures Marks(text, i) == 0 && Numbered(text, i, n, itoa) == text[..i]
  {
    if i > 0 {
      NothingToNumber(text, i - 1, n, itoa);
      assert text[..i] == text[..i - 1] + [text[i - 1]];
    }
  }

  /** The text has k question marks, and numbering them gives r. */
  ghost predicate NumbersTo(text: string, k: nat, r: string, n: nat, itoa: nat -> string) {
    Marks(text, |text|) == k && Numbered(text, |text|, n, itoa) == r
  }

  lemma NumbersToken(t: Token, n: nat, itoa: nat -> string)
    requires t.Lit? ==> '?' !in t.text
    ensures NumbersTo(Show(t), |ParamOf(t)|, ShowNumbered(t, n, itoa), n, itoa)
  {
    match t
    case Lit(text) => NothingToNumber(text, |text|, n, itoa); assert text[..|text|] == text;
    case Param(_) => assert Marks("?", 0) == 0 && Numbered("?", 0, n, itoa) == "";
  }

  lemma NumbersOneMore(text: string, k: nat, r: string, t: Token, n: nat, itoa: nat -> string)
    requires (t.Lit? ==> '?' !in t.text) && NumbersTo(text, k, r, n, itoa)
    ensures NumbersTo(text + Show(t), k + |ParamOf(t)|, r + ShowNumbered(t, n + k, itoa), n, itoa)
  {
    NumberedBeyond(text, Show(t), |Show(t)|, n, itoa);
    NumbersToken(t, n + k, itoa);
  }

  /** Numbering the text numbers the placeholders. */
  lemma {:induction false} NumbersParams(q: Query, n: nat, itoa: nat -> string)
    requires Clean(q)
    ensures NumbersTo(Plain(q), |Params(q)|, PlainNumbered(q, n, itoa), n, itoa)
  {
    if q.More? {
      NumbersParams(q.front, n, itoa);
      NumbersOneMore(Plain(q.front), |Params(q.front)|, PlainNumbered(q.front, n, itoa), q.last, n, itoa);
    }
  }

  /** Each placeholder binds the argument it is meant for: behind a base query with as many
      placeholders as arguments, a question mark preceded by k others gets argument k. */
  lemma PlainBinding(base: string, args: seq<Arg>, a: Query, v: Arg, b: Query)
    requires Marks(base, |base|) == |args| && Clean(a)
    ensures var q := a.Bind(v).Then(b);
            var text, at := base + Plain(q), |base + Plain(a)|;
            && at < |text| && text[at] == '?'
            && Marks(text, at) < |args + Params(q)| && (args + Params(q))[Marks(text, at)] == v
  {
    Around(a, v, b);
    MarksBehind(base, a, "?" + Plain(b));
    InTheMiddle(base, Plain(a), '?', Plain(b));
    InTheMiddle(args, Params(a), v, Params(b));
  }

  lemma InTheMiddle<T>(x: seq<T>, y: seq<T>, v: T, z: seq<T>)
    ensures x + (y + [v] + z) == x + y + ([v] + z) && (x + (y + [v] + z))[|x + y|] == v
  {
  }

  lemma Around(a: Query, v: Arg, b: Query)
    ensures Plain(a.Bind(v).Then(b)) == Plain(a) + "?" + Plain(b)
    ensures Params(a.Bind(v).Then(b)) == Params(a) + [v] + Params(b)
  {
    ThenPlain(a.Bind(v), b);
    ThenParams(a.Bind(v), b);
  }

  lemma MarksBehind(base: string, a: Query, rest: string)
    requires Clean(a)
    ensures Marks(base + Plain(a) + rest, |base + Plain(a)|) == Marks(base, |base|) + |Params(a)|
  {
    var text := Plain(a);
    assert Marks(text, |text|) == |Params(a)| by { NumbersParams(a, 0, n => ""); }
    NumberedBeyond(base, text, |text|, 0, n => "");
    NumberedWithin(base + text, rest, |base + text|, 0, n => "");
  }

  /** And after n arguments, the placeholder for argument n + k is numbered n + k + 1. */
  lemma NumberedBinding(args: seq<Arg>, a: Query, v: Arg, b: Query, itoa: nat -> string)
    ensures var q := a.Bind(v).Then(b);
            var k := |args| + |Params(a)|;
            && HasPrefix(PlainNumbered(q, |args|, itoa), PlainNumbered(a, |args|, itoa) + "$" + itoa(k + 1))
            && k < |args + Params(q)| && (args + Params(q))[k] == v
  {
    Around(a, v, b);
    NumberedAround(|args|, a, v, b, itoa);
  }

  lemma NumberedAround(n: nat, a: Query, v: Arg, b: Query, itoa: nat -> string)
    ensures HasPrefix(PlainNumbered(a.Bind(v).Then(b), n, itoa),
              PlainNumbered(a, n, itoa) + "$" + itoa(n + |Params(a)| + 1))
  {
    var number := itoa(n + |Params(a)| + 1);
    assert PlainNumbered(a.Bind(v), n, itoa) == PlainNumbered(a, n, itoa) + ("$" + number);
    Assoc(PlainNumbered(a, n, itoa), "$", number);
    ThenNumbered(a.Bind(v), b, n, itoa);
  }

  // Rendering a selector.

  /** The fixed text around the placeholders of a query. */
  datatype Sql = Sql(select: string, where: string, having: string, end: string,
                     notIn: string, notInName: string, notInEnd: string)

  ghost predicate NoMarks(sql: Sql) {
    && '?' !in sql.select && '?' !in sql.where && '?' !in sql.having && '?' !in sql.end
    && '?' !in sql.notIn && '?' !in sql.notInName && '?' !in sql.notInEnd
  }

  function Repeat(s: string, n: nat): string {
    if n == 0 then "" else Repeat(s, n - 1) + s
  }

  function TrimSuffix(s: string, suffix: string): string {
    if |suffix| <= |s| && s[|s| - |suffix|..] == suffix then s[..|s| - |suffix|] else s
  }

  /** The placeholders of a value list. */
  function InGen(n: nat): string {
    TrimSuffix(Repeat("?,", n), ",")
  }

  /** A query followed by a value list. */
  ghost function List(q: Query, values: seq<string>): Query {
    if values == [] then q
    else if |values| == 1 then q.Bind(Str(values[0]))
    else List(q, values[..|values| - 1]).Text(",").Bind(Str(values[|values| - 1]))
  }

  ghost function Strs(values: seq<string>): seq<Arg> {
    seq(|values|, i requires 0 <= i < |values| => Str(values[i]))
  }

  lemma {:induction false} ListText(q: Query, values: seq<string>)
    requires values != []
    ensures Plain(List(q, values)) + "," == Plain(q) + Repeat("?,", |values|)
    ensures Params(List(q, values)) == Params(q) + Strs(values)
    ensures Clean(q) ==> Clean(List(q, values))
  {
    var n := |values| - 1;
    if n == 0 {
      assert Repeat("?,", 0) == "";
      assert Repeat("?,", 1) == "?,";
    } else {
      ListText(q, values[..n]);
      assert Strs(values) == Strs(values[..n]) + [Str(values[n])];
      OneMoreValue(List(q, values[..n]), Str(values[n]), Plain(q) + Repeat("?,", n));
    }
  }

  lemma OneMoreValue(q: Query, v: Arg, text: string)
    requires Plain(q) + "," == text
    ensures Plain(q.Text(",").Bind(v)) + "," == text + "?,"
    ensures Params(q.Text(",").Bind(v)) == Params(q) + [v]
    ensures Clean(q) ==> Clean(q.Text(",").Bind(v))
  {
    assert Plain(q.Text(",").Bind(v)) == Plain(q) + "," + "?";
    assert Params(q.Text(",")) == Params(q);
  }

  ghost function Compare(test: string, req: Requirement): Query
    requires req.values != []
  {
    Empty.Text("(name = ").Bind(Str(req.key)).Text(test).Bind(Str(req.values[0])).Text(")")
  }

  ghost function Among(test: string, req: Requirement): Query {
    List(Empty.Text("(name = ").Bind(Str(req.key)).Text(test), req.values).Text("))")
  }

  /** The condition a requirement stands for. */
  ghost function Clause(sql: Sql, req: Requirement, pattern: string): Query
    requires WellFormed(req)
  {
    match req.op
    case DoesNotExist =>
      Empty.Text(sql.notIn).Bind(Str(pattern)).Text(sql.notInName).Bind(Str(req.key)).Text(sql.notInEnd)
    case DoubleEquals | Equals => Compare(" AND value = ", req)
    case In => Among(" AND value IN (", req)
    case NotEquals => Compare(" AND value != ", req)
    case NotIn => Among(" AND value NOT IN (", req)
    case Exists => Empty.Text("(name IN (").Bind(Str(req.key)).Text("))")
    case GreaterThan => Compare(" AND value > ", req)
    case LessThan => Compare(" AND value < ", req)
  }

  ghost function Clauses(sql: Sql, reqs: seq<Requirement>, pattern: string): seq<Query>
    requires AllWellFormed(reqs)
  {
    seq(|reqs|, i requires 0 <= i < |reqs| => Clause(sql, reqs[i], pattern))
  }

  /** Conditions joined by a separator. */
  ghost function Joined(cs: seq<Query>, sep: string): Query {
    if cs == [] then Empty
    else if |cs| == 1 then cs[0]
    else Joined(cs[..|cs| - 1], sep).Text(sep).Then(cs[|cs| - 1])
  }

  /** The whole condition on the listed rows. */
  ghost function Condition(sql: Sql, pattern: string, reqs: seq<Requirement>): Query
    requires AllWellFormed(reqs)
  {
    Empty.Text(sql.select).Bind(Str(pattern)).Text(sql.where)
      .Then(Joined(Clauses(sql, reqs, pattern), " OR "))
      .Text(sql.having).Bind(Num(|reqs|)).Text(sql.end)
  }

  /** The text `where` and the arguments `added` take the query q to q'. */
  ghost predicate Extends(q: Query, q': Query, where: string, added: seq<Arg>) {
    Plain(q') == Plain(q) + where && Params(q') == Params(q) + added && (Clean(q) ==> Clean(q'))
  }

  /** The text `where` and the arguments added to `args` are those of the query. */
  ghost predicate Renders(q: Query, where: string, args: seq<Arg>, args': seq<Arg>) {
    where == Plain(q) && args' == args + Params(q) && Clean(q)
  }

  lemma FromEmpty(q: Query, where: string, args: seq<Arg>, added: seq<Arg>)
    requires Extends(Empty, q, where, added)
    ensures Renders(q, where, args, args + added)
  {
    assert "" + where == where && [] + added == added;
  }

  lemma ExtendsTrans(q: Query, q': Query, q'': Query, w: string, w': string, a: seq<Arg>, a': seq<Arg>)
    requires Extends(q, q', w, a) && Extends(q', q'', w', a')
    ensures Extends(q, q'', w + w', a + a')
  {
    Assoc(Plain(q), w, w');
    Assoc(Params(q), a, a');
  }

  lemma ExtendsText(q: Query, s: string)
    requires '?' !in s
    ensures Extends(q, q.Text(s), s, [])
  {
  }

  lemma ExtendsBind(q: Query, arg: Arg)
    ensures Extends(q, q.Bind(arg), "?", [arg])
  {
  }

  /** Text, a placeholder, text. */
  lemma ExtendsAround(q: Query, s: string, arg: Arg, t: string)
    requires '?' !in s && '?' !in t
    ensures Extends(q, q.Text(s).Bind(arg).Text(t), s + "?" + t, [arg])
  {
    var q1 := q.Text(s);
    var q2 := q1.Bind(arg);
    ExtendsText(q, s);
    ExtendsBind(q1, arg);
    ExtendsTrans(q, q1, q2, s, "?", [], [arg]);
    ExtendsText(q2, t);
    ExtendsTrans(q, q2, q2.Text(t), s + "?", t, [] + [arg], []);
    assert [] + [arg] + [] == [arg];
  }

  /** Text, a placeholder, text, a placeholder, text. */
  lemma ExtendsTwice(q: Query, s: string, arg: Arg, t: string, arg': Arg, u: string)
    requires '?' !in s && '?' !in t && '?' !in u
    ensures Extends(q, q.Text(s).Bind(arg).Text(t).Bind(arg').Text(u), s + "?" + t + "?" + u, [arg, arg'])
  {
    var q1 := q.Text(s).Bind(arg).Text(t);
    var q2 := q1.Bind(arg');
    ExtendsAround(q, s, arg, t);
    ExtendsBind(q1, arg');
    ExtendsTrans(q, q1, q2, s + "?" + t, "?", [arg], [arg']);
    ExtendsText(q2, u);
    ExtendsTrans(q, q2, q2.Text(u), s + "?" + t + "?", u, [arg] + [arg'], []);
    assert [arg] + [arg'] + [] == [arg, arg'];
  }

  lemma ExtendsList(q: Query, values: seq<string>)
    requires values != []
    ensures Extends(q, List(q, values), InGen(|values|), Strs(values))
  {
    ListText(q, values);
    var text := Repeat("?,", |values|);
    assert text[|text| - 1..] == ",";
    assert Plain(List(q, values)) + "," == Plain(q) + InGen(|values|) + ",";
    SameFront(Plain(List(q, values)), Plain(q) + InGen(|values|), ',');
  }

  lemma SameFront(a: string, b: string, c: char)
    requires a + [c] == b + [c]
    ensures a == b
  {
    assert a == (a + [c])[..|a|];
  }

  method RenderList(values: seq<string>, args: seq<Arg>) returns (args': seq<Arg>)
    ensures args' == args + Strs(values)
  {
    args' := args;
    for i := 0 to |values|
      invariant args' == args + Strs(values[..i])
    {
      args' := args' + [Str(values[i])];
      assert Strs(values[..i + 1]) == Strs(values[..i]) + [Str(values[i])];
    }
    assert values[..|values|] == values;
  }

  method RenderCompare(test: string, req: Requirement, args: seq<Arg>) returns (where: string, args': seq<Arg>)
    requires req.values != [] && '?' !in test
    ensures Renders(Compare(test, req), where, args, args')
  {
    where := "(name = " + "?" + test + "?" + ")";
    args' := args + [Str(req.key), Str(req.values[0])];
    ExtendsTwice(Empty, "(name = ", Str(req.key), test, Str(req.values[0]), ")");
    FromEmpty(Compare(test, req), where, args, [Str(req.key), Str(req.values[0])]);
  }

  method RenderAmong(test: string, req: Requirement, args: seq<Arg>) returns (where: string, args': seq<Arg>)
    requires req.values != [] && '?' !in test
    ensures Renders(Among(test, req), where, args, args')
  {
    where := "(name = " + "?" + test + InGen(|req.values|) + "))";
    args' := args + [Str(req.key)];
    args' := RenderList(req.values, args');
    AmongText(test, req);
    assert args' == args + ([Str(req.key)] + Strs(req.values));
    FromEmpty(Among(test, req), where, args, [Str(req.key)] + Strs(req.values));
  }

  lemma AmongText(test: string, req: Requirement)
    requires req.values != [] && '?' !in test
    ensures Extends(Empty, Among(test, req), "(name = " + "?" + test + InGen(|req.values|) + "))",
              [Str(req.key)] + Strs(req.values))
  {
    var head := "(name = " + "?" + test;
    var q := Empty;
    var q1 := q.Text("(name = ").Bind(Str(req.key)).Text(test);
    var q2 := List(q1, req.values);
    ExtendsAround(q, "(name = ", Str(req.key), test);
    ExtendsList(q1, req.values);
    ExtendsTrans(q, q1, q2, head, InGen(|req.values|), [Str(req.key)], Strs(req.values));
    ExtendsText(q2, "))");
    ExtendsTrans(q, q2, q2.Text("))"), head + InGen(|req.values|), "))", [Str(req.key)] + Strs(req.values), []);
    assert [Str(req.key)] + Strs(req.values) + [] == [Str(req.key)] + Strs(req.values);
  }

  /** One turn of the rendering loop. */
  method RenderClause(sql: Sql, req: Requirement, pattern: string, args: seq<Arg>)
    returns (where: string, args': seq<Arg>)
    requires WellFormed(req) && NoMarks(sql)
    ensures Renders(Clause(sql, req, pattern), where, args, args')
  {
    match req.op {
      case DoesNotExist =>
        where := sql.notIn + "?" + sql.notInName + "?" + sql.notInEnd;
        args' := args + [Str(pattern), Str(req.key)];
        ExtendsTwice(Empty, sql.notIn, Str(pattern), sql.notInName, Str(req.key), sql.notInEnd);
        FromEmpty(Clause(sql, req, pattern), where, args, [Str(pattern), Str(req.key)]);
      case DoubleEquals | Equals =>
        where, args' := RenderCompare(" AND value = ", req, args);
      case In =>
        where, args' := RenderAmong(" AND value IN (", req, args);
      case NotEquals =>
        where, args' := RenderCompare(" AND value != ", req, args);
      case NotIn =>
        where, args' := RenderAmong(" AND value NOT IN (", req, args);
      case Exists =>
        where := "(name IN (" + "?" + "))";
        args' := args + [Str(req.key)];
        ExtendsAround(Empty, "(name IN (", Str(req.key), "))");
        FromEmpty(Clause(sql, req, pattern), where, args, [Str(req.key)]);
      case GreaterThan =>
        where, args' := RenderCompare(" AND value > ", req, args);
      case LessThan =>
        where, args' := RenderCompare(" AND value < ", req, args);
    }
  }

  /** The rendering loop. */
  method RenderClauses(sql: Sql, reqs: seq<Requirement>, pattern: string, args: seq<Arg>)
    returns (where: string, args': seq<Arg>)
    requires AllWellFormed(reqs) && NoMarks(sql)
    ensures Renders(Joined(Clauses(sql, reqs, pattern), " OR "), where, args, args')
  {
    var sep, wheres := " OR ", [];
    args' := args;
    ghost var cs: seq<Query> := [];
    for i := 0 to |reqs|
      invariant cs == Clauses(sql, reqs[..i], pattern) && |wheres| == |cs|
      invariant Renders(Joined(cs, sep), Join(wheres, sep), args, args')
    {
      var clause;
      ghost var before := args';
      clause, args' := RenderClause(sql, reqs[i], pattern, args');
      ghost var c := Clause(sql, reqs[i], pattern);
      ClausesPush(sql, reqs, pattern, i);
      OneMoreClause(cs, c, wheres, clause, sep, args, before, args');
      wheres, cs := wheres + [clause], cs + [c];
    }
    assert reqs[..|reqs|] == reqs;
    where := Join(wheres, sep);
  }

  lemma ClausesPush(sql: Sql, reqs: seq<Requirement>, pattern: string, i: nat)
    requires AllWellFormed(reqs) && i < |reqs|
    ensures Clauses(sql, reqs[..i + 1], pattern) == Clauses(sql, reqs[..i], pattern) + [Clause(sql, reqs[i], pattern)]
  {
  }

  lemma OneMoreClause(cs: seq<Query>, c: Query, wheres: seq<string>, clause: string, sep: string, args: seq<Arg>,
                      args': seq<Arg>, args'': seq<Arg>)
    requires '?' !in sep && |wheres| == |cs|
    requires Renders(Joined(cs, sep), Join(wheres, sep), args, args') && Renders(c, clause, args', args'')
    ensures Renders(Joined(cs + [c], sep), Join(wheres + [clause], sep), args, args'')
  {
    JoinPush(wheres, clause, sep);
    JoinedPush(cs, c, sep);
    if cs != [] {
      NextClause(Joined(cs, sep), c, Join(wheres, sep), sep, clause, args, args', args'');
    }
  }

  lemma JoinedPush(cs: seq<Query>, c: Query, sep: string)
    ensures Joined(cs + [c], sep) == if cs == [] then c else Joined(cs, sep).Text(sep).Then(c)
  {
    assert (cs + [c])[..|cs|] == cs;
  }

  lemma NextClause(q: Query, c: Query, w: string, sep: string, clause: string, args: seq<Arg>, args': seq<Arg>,
                   args'': seq<Arg>)
    requires '?' !in sep && Renders(q, w, args, args') && Renders(c, clause, args', args'')
    ensures Renders(q.Text(sep).Then(c), w + sep + clause, args, args'')
  {
    ThenAll(q.Text(sep), c);
    assert Params(q) + [] == Params(q);
    Assoc(args, Params(q), Params(c));
  }

  lemma ThenAll(a: Query, b: Query)
    ensures Plain(a.Then(b)) == Plain(a) + Plain(b) && Params(a.Then(b)) == Params(a) + Params(b)
    ensures Clean(a.Then(b)) <==> Clean(a) && Clean(b)
  {
    ThenPlain(a, b);
    ThenParams(a, b);
    ThenClean(a, b);
  }

  lemma JoinPush(parts: seq<string>, part: string, sep: string)
    ensures Join(parts + [part], sep) == if parts == [] then part else Join(parts, sep) + sep + part
  {
    if parts == [] {
      assert parts + [part] == [part];
    } else {
      JoinAppend(parts, [part], sep);
    }
  }

  /** The text of a query, plain or numbered after n arguments. */
  ghost function QueryText(q: Query, numbered: bool, n: nat, itoa: nat -> string): string {
    if numbered then PlainNumbered(q, n, itoa) else Plain(q)
  }

  method RenderCondition(sql: Sql, pattern: string, reqs: seq<Requirement>, args: seq<Arg>)
    returns (where: string, args': seq<Arg>)
    requires AllWellFormed(reqs) && NoMarks(sql)
    ensures Renders(Condition(sql, pattern, reqs), where, args, args')
  {
    var clauses;
    clauses, args' := RenderClauses(sql, reqs, pattern, args + [Str(pattern)]);
    Framed(Joined(Clauses(sql, reqs, pattern), " OR "), sql, Str(pattern), Num(|reqs|), clauses, args, args');
    args' := args' + [Num(|reqs|)];
    where := sql.select + "?" + sql.where + clauses + (sql.having + "?" + sql.end);
  }

  lemma Framed(q: Query, sql: Sql, first: Arg, last: Arg, clauses: string, args: seq<Arg>, args': seq<Arg>)
    requires NoMarks(sql) && Renders(q, clauses, args + [first], args')
    ensures Renders(Empty.Text(sql.select).Bind(first).Text(sql.where).Then(q)
                      .Text(sql.having).Bind(last).Text(sql.end),
                    sql.select + "?" + sql.where + clauses + (sql.having + "?" + sql.end), args, args' + [last])
  {
    var head := Empty.Text(sql.select).Bind(first).Text(sql.where);
    var body := head.Then(q);
    var all := body.Text(sql.having).Bind(last).Text(sql.end);
    ExtendsAround(Empty, sql.select, first, sql.where);
    ThenAll(head, q);
    assert Extends(head, body, clauses, Params(q));
    ExtendsTrans(Empty, head, body, sql.select + "?" + sql.where, clauses, [first], Params(q));
    ExtendsAround(body, sql.having, last, sql.end);
    ExtendsTrans(Empty, body, all, sql.select + "?" + sql.where + clauses, sql.having + "?" + sql.end,
        [first] + Params(q), [last]);
    FromEmpty(all, sql.select + "?" + sql.where + clauses + (sql.having + "?" + sql.end), args,
        [first] + Params(q) + [last]);
    assert args + ([first] + Params(q) + [last]) == args' + [last];
  }

  method NumberQuery(ghost q: Query, text: string, n: nat, itoa: nat -> string) returns (r: string)
    requires Clean(q) && text == Plain(q)
    ensures r == PlainNumbered(q, n, itoa)
  {
    r := ReplaceParamsToNumbers(text, n, itoa);
    NumbersParams(q, n, itoa);
  }

  method RenderLabels(sql: Sql, pattern: string, selector: Selector, args: seq<Arg>, numbered: bool,
                      itoa: nat -> string)
    returns (where: string, args': seq<Arg>, ok: bool)
    requires NoMarks(sql) && (selector.Requirements? ==> AllWellFormed(selector.reqs))
    ensures ok <==> !selector.Malformed?
    ensures !selector.Requirements? ==> where == "" && args' == args
    ensures selector.Requirements? ==>
      var q := Condition(sql, pattern, selector.reqs);
      Clean(q) && where == QueryText(q, numbered, |args|, itoa) && args' == args + Params(q)
  {
    match selector {
      case Absent | Unselectable =>
        return "", args, true;
      case Malformed =>
        return "", args, false;
      case Requirements(reqs) =>
        where, args' := RenderCondition(sql, pattern, reqs, args);
        if numbered {
          where := NumberQuery(Condition(sql, pattern, reqs), where, |args|, itoa);
        }
        ok := true;
    }
  }

  // ----- field selectors -----

  datatype FieldRequirement = FieldRequirement(field: string, negated: bool, value: string)

  datatype FieldSelector = NoFields | BadFields | Fields(reqs: seq<FieldRequirement>)

  /** How a dialect looks a field up: with its name in the text, its name as an argument, or not at
      all. The texts surround the name and the placeholders. */
  datatype Lookup =
    | Named(before: string, after: string, end: string)
    | Bound(before: string, middle: string, end: string)
    | Anywhere(before: string, end: string)

  /** The fixed text of a field query. */
  datatype FieldSql = FieldSql(select: string, where: string, end: string)

  /** `strings.ReplaceAll(field, ".", "_")`. */
  function Underscored(field: string): string {
    seq(|field|, i requires 0 <= i < |field| => if field[i] == '.' then '_' else field[i])
  }

  /** Every dot has become an underscore, and nothing else has changed. */
  lemma UnderscoredExact(field: string)
    ensures '.' !in Underscored(field) && |Underscored(field)| == |field|
    ensures forall i | 0 <= i < |field| && field[i] != '.' :: Underscored(field)[i] == field[i]
    ensures forall i | 0 <= i < |field| && field[i] == '.' :: Underscored(field)[i] == '_'
  {
  }

  /** The condition a field requirement stands for. */
  ghost function FieldClause(lookup: Lookup, req: FieldRequirement): Query {
    var field, value, open := Underscored(req.field), Str(req.value), if req.negated then "(NOT " else "(";
    match lookup
    case Named(before, after, end) => Empty.Text(open + (before + field + after)).Bind(value).Text(end + ")")
    case Bound(before, middle, end) =>
      Empty.Text(open + before).Bind(Str(field)).Text(middle).Bind(value).Text(end + ")")
    case Anywhere(before, end) => Empty.Text(open + before).Bind(value).Text(end + ")")
  }

  ghost function FieldClauses(lookup: Lookup, reqs: seq<FieldRequirement>): seq<Query> {
    seq(|reqs|, i requires 0 <= i < |reqs| => FieldClause(lookup, reqs[i]))
  }

  ghost function FieldCondition(sql: FieldSql, lookup: Lookup, pattern: string, reqs: seq<FieldRequirement>): Query {
    var body := Joined(FieldClauses(lookup, reqs), " AND ");
    Empty.Text(sql.select).Bind(Str(pattern)).Text(sql.where).Then(body).Text(sql.end)
  }

  /** The fixed text of a lookup holds no question mark, and neither does a field name that goes into it. */
  ghost predicate NoLookupMarks(lookup: Lookup, req: FieldRequirement) {
    match lookup
    case Named(before, after, end) => '?' !in before && '?' !in Underscored(req.field) && '?' !in after && '?' !in end
    case Bound(before, middle, end) => '?' !in before && '?' !in middle && '?' !in end
    case Anywhere(before, end) => '?' !in before && '?' !in end
  }

  ghost predicate NoFieldMarks(sql: FieldSql, lookup: Lookup, reqs: seq<FieldRequirement>) {
    && '?' !in sql.select && '?' !in sql.where && '?' !in sql.end
    && forall i | 0 <= i < |reqs| :: NoLookupMarks(lookup, reqs[i])
  }

  /** Text and arguments are those of the query. */
  ghost predicate Shows(q: Query, where: string, args: seq<Arg>, args': seq<Arg>) {
    where == Plain(q) && args' == args + Params(q)
  }

  lemma ShowsAround(s: string, arg: Arg, t: string, args: seq<Arg>)
    ensures Shows(Empty.Text(s).Bind(arg).Text(t), s + "?" + t, args, args + [arg])
  {
    var q := Empty.Text(s).Bind(arg);
    assert Plain(Empty.Text(s)) == s && Params(Empty.Text(s)) == [];
    assert Plain(q) == s + "?" && Params(q) == [arg];
  }

  lemma ShowsTwice(s: string, arg: Arg, t: string, arg': Arg, u: string, args: seq<Arg>)
    ensures Shows(Empty.Text(s).Bind(arg).Text(t).Bind(arg').Text(u), s + "?" + t + "?" + u, args,
              args + [arg] + [arg'])
  {
    var q := Empty.Text(s).Bind(arg).Text(t);
    ShowsAround(s, arg, t, []);
    assert Params(q) == [arg];
    assert Plain(q.Bind(arg')) == s + "?" + t + "?" && Params(q.Bind(arg')) == [arg] + [arg'];
  }

  method RenderField(lookup: Lookup, req: FieldRequirement, args: seq<Arg>) returns (where: string, args': seq<Arg>)
    ensures Shows(FieldClause(lookup, req), where, args, args')
  {
    var field, open := Underscored(req.field), if req.negated then "(NOT " else "(";
    args' := args;
    match lookup {
      case Named(before, after, end) =>
        args' := args' + [Str(req.value)];
        where := open + (before + field + after) + "?" + (end + ")");
        ShowsAround(open + (before + field + after), Str(req.value), end + ")", args);
      case Bound(before, middle, end) =>
        args' := args' + [Str(field)];
        args' := args' + [Str(req.value)];
        where := open + before + "?" + middle + "?" + (end + ")");
        ShowsTwice(open + before, Str(field), middle, Str(req.value), end + ")", args);
      case Anywhere(before, end) =>
        args' := args' + [Str(req.value)];
        where := open + before + "?" + (end + ")");
        ShowsAround(open + before, Str(req.value), end + ")", args);
    }
  }

  /** The loop over the field requirements. */
  method RenderFieldClauses(lookup: Lookup, reqs: seq<FieldRequirement>, args: seq<Arg>)
    returns (where: string, args': seq<Arg>)
    ensures Shows(Joined(FieldClauses(lookup, reqs), " AND "), where, args, args')
  {
    var sep, wheres := " AND ", [];
    args' := args;
    ghost var cs: seq<Query> := [];
    for i := 0 to |reqs|
      invariant cs == FieldClauses(lookup, reqs[..i]) && |wheres| == |cs|
      invariant Shows(Joined(cs, sep), Join(wheres, sep), args, args')
    {
      var clause;
      ghost var before := args';
      clause, args' := RenderField(lookup, reqs[i], args');
      ghost var c := FieldClause(lookup, reqs[i]);
      assert FieldClauses(lookup, reqs[..i + 1]) == FieldClauses(lookup, reqs[..i]) + [c];
      ShowsMore(cs, c, wheres, clause, sep, args, before, args');
      wheres, cs := wheres + [clause], cs + [c];
    }
    assert reqs[..|reqs|] == reqs;
    where := Join(wheres, sep);
  }

  lemma ShowsMore(cs: seq<Query>, c: Query, wheres: seq<string>, clause: string, sep: string, args: seq<Arg>,
                  args': seq<Arg>, args'': seq<Arg>)
    requires |wheres| == |cs| && Shows(Joined(cs, sep), Join(wheres, sep), args, args')
    requires Shows(c, clause, args', args'')
    ensures Shows(Joined(cs + [c], sep), Join(wheres + [clause], sep), args, args'')
  {
    JoinPush(wheres, clause, sep);
    JoinedPush(cs, c, sep);
    if cs != [] { ShowsNext(Joined(cs, sep), c, Join(wheres, sep), sep, clause, args, args', args''); }
  }

  lemma ShowsNext(q: Query, c: Query, w: string, sep: string, clause: string, args: seq<Arg>, args': seq<Arg>,
                  args'': seq<Arg>)
    requires Shows(q, w, args, args') && Shows(c, clause, args', args'')
    ensures Shows(q.Text(sep).Then(c), w + sep + clause, args, args'')
  {
    ThenPlain(q.Text(sep), c);
    ThenParams(q.Text(sep), c);
    assert Params(q) + [] == Params(q);
    Assoc(args, Params(q), Params(c));
  }

  lemma ShowsFramed(sql: FieldSql, first: Arg, body: Query, clauses: string, args: seq<Arg>, args': seq<Arg>)
    requires Shows(body, clauses, args + [first], args')
    ensures Shows(Empty.Text(sql.select).Bind(first).Text(sql.where).Then(body).Text(sql.end),
                  sql.select + "?" + sql.where + clauses + sql.end, args, args')
  {
    var head := Empty.Text(sql.select).Bind(first).Text(sql.where);
    ShowsAround(sql.select, first, sql.where, []);
    assert Params(head) == [first];
    ThenPlain(head, body);
    ThenParams(head, body);
    assert Params(head.Then(body)) + [] == Params(head.Then(body));
    Assoc(args, [first], Params(body));
  }

  lemma {:induction false} CleanJoined(cs: seq<Query>, sep: string)
    requires '?' !in sep
    ensures Clean(Joined(cs, sep)) <==> forall i | 0 <= i < |cs| :: Clean(cs[i])
  {
    if |cs| > 1 {
      var n := |cs| - 1;
      CleanJoined(cs[..n], sep);
      assert forall i | 0 <= i < n :: cs[..n][i] == cs[i];
      ThenClean(Joined(cs[..n], sep).Text(sep), cs[n]);
    }
  }

  lemma CleanText(q: Query, s: string)
    ensures Clean(q.Text(s)) <==> Clean(q) && '?' !in s
  {
  }

  lemma CleanBind(q: Query, arg: Arg)
    ensures Clean(q.Bind(arg)) <==> Clean(q)
  {
  }

  lemma CleanAround(s: string, arg: Arg, t: string)
    ensures Clean(Empty.Text(s).Bind(arg).Text(t)) <==> '?' !in s && '?' !in t
  {
    CleanText(Empty, s);
    CleanBind(Empty.Text(s), arg);
    CleanText(Empty.Text(s).Bind(arg), t);
  }

  lemma CleanField(lookup: Lookup, req: FieldRequirement)
    ensures Clean(FieldClause(lookup, req)) <==> NoLookupMarks(lookup, req)
  {
    var open, value := if req.negated then "(NOT " else "(", Str(req.value);
    var field := Underscored(req.field);
    match lookup
    case Named(before, after, end) => CleanAround(open + (before + field + after), value, end + ")");
    case Bound(before, middle, end) =>
      var q := Empty.Text(open + before).Bind(Str(field)).Text(middle);
      CleanAround(open + before, Str(field), middle);
      CleanBind(q, value);
      CleanText(q.Bind(value), end + ")");
    case Anywhere(before, end) => CleanAround(open + before, value, end + ")");
  }

  /** The condition is clean exactly when no name put into its text holds a question mark. */
  lemma CleanFields(sql: FieldSql, lookup: Lookup, pattern: string, reqs: seq<FieldRequirement>)
    ensures Clean(FieldCondition(sql, lookup, pattern, reqs)) <==> NoFieldMarks(sql, lookup, reqs)
  {
    var cs := FieldClauses(lookup, reqs);
    forall i | 0 <= i < |reqs| ensures Clean(cs[i]) <==> NoLookupMarks(lookup, reqs[i]) { CleanField(lookup, reqs[i]); }
    CleanJoined(cs, " AND ");
    var head := Empty.Text(sql.select).Bind(Str(pattern)).Text(sql.where);
    CleanAround(sql.select, Str(pattern), sql.where);
    ThenClean(head, Joined(cs, " AND "));
    CleanText(head.Then(Joined(cs, " AND ")), sql.end);
  }

  /** Where the field name is bound or ignored, the condition is clean whatever the names are. */
  lemma AnyFieldNames(sql: FieldSql, lookup: Lookup, pattern: string, reqs: seq<FieldRequirement>)
    requires !lookup.Named? && NoFieldMarks(sql, lookup, [])
    requires '?' !in lookup.before && '?' !in lookup.end && (lookup.Bound? ==> '?' !in lookup.middle)
    ensures NoFieldMarks(sql, lookup, reqs) && Clean(FieldCondition(sql, lookup, pattern, reqs))
  {
    CleanFields(sql, lookup, pattern, reqs);
  }

  lemma {:induction false} MarksIn(text: string, i: nat)
    requires i <= |text|
    ensures Marks(text, i) == 0 <==> '?' !in text[..i]
  {
    if i > 0 {
      MarksIn(text, i - 1);
      assert text[..i] == text[..i - 1] + [text[i - 1]];
    }
  }

  /** The text has a question mark for each argument and no other exactly when it is clean. */
  lemma {:induction false} MarksExact(q: Query)
    ensures |Params(q)| <= Marks(Plain(q), |Plain(q)|)
    ensures |Params(q)| == Marks(Plain(q), |Plain(q)|) <==> Clean(q)
  {
    if q.More? {
      var last := Show(q.last);
      MarksExact(q.front);
      NumberedBeyond(Plain(q.front), last, |last|, 0, i => "");
      MarksIn(last, |last|);
      assert last[..|last|] == last;
      if q.last.Param? { assert Marks("?", 0) == 0; }
    }
  }

  /** The text of a query as the code numbers it. */
  ghost function TextOf(q: Query, numbered: bool, n: nat, itoa: nat -> string): string {
    if numbered then Numbered(Plain(q), |Plain(q)|, n, itoa) else Plain(q)
  }

  lemma TextOfClean(q: Query, numbered: bool, n: nat, itoa: nat -> string)
    requires numbered ==> Clean(q)
    ensures TextOf(q, numbered, n, itoa) == QueryText(q, numbered, n, itoa)
  {
    if numbered { NumbersParams(q, n, itoa); }
  }

  method RenderFields(sql: FieldSql, lookup: Lookup, pattern: string, selector: FieldSelector, args: seq<Arg>,
                      numbered: bool, itoa: nat -> string)
    returns (where: string, args': seq<Arg>, ok: bool)
    ensures ok <==> !selector.BadFields?
    ensures !selector.Fields? ==> where == "" && args' == args
    ensures selector.Fields? ==>
      var q := FieldCondition(sql, lookup, pattern, selector.reqs);
      && args' == args + Params(q) && where == TextOf(q, numbered, |args|, itoa)
      && (Clean(q) <==> NoFieldMarks(sql, lookup, selector.reqs))
  {
    match selector {
      case NoFields =>
        return "", args, true;
      case BadFields =>
        return "", args, false;
      case Fields(reqs) =>
        var clauses;
        clauses, args' := RenderFieldClauses(lookup, reqs, args + [Str(pattern)]);
        ghost var q := FieldCondition(sql, lookup, pattern, reqs);
        ShowsFramed(sql, Str(pattern), Joined(FieldClauses(lookup, reqs), " AND "), clauses, args, args');
        where := sql.select + "?" + sql.where + clauses + sql.end;
        CleanFields(sql, lookup, pattern, reqs);
        if numbered {
          where := ReplaceParamsToNumbers(where, |args|, itoa);
        }
        ok := true;
    }
  }

  // ----- both selectors -----

  function Pattern(prefix: string): string {
    if |prefix| > 0 && prefix[|prefix| - 1] == '%' then prefix else prefix + "%"
  }

  ghost function LabelQuery(sql: Sql, pattern: string, selector: Selector): Query
    requires selector.Requirements? ==> AllWellFormed(selector.reqs)
  {
    if selector.Requirements? then Condition(sql, pattern, selector.reqs) else Empty
  }

  ghost function FieldQuery(sql: FieldSql, lookup: Lookup, pattern: string, selector: FieldSelector): Query {
    if selector.Fields? then FieldCondition(sql, lookup, pattern, selector.reqs) else Empty
  }

  lemma TextsJoin(a: Query, b: Query, numbered: bool, n: nat, itoa: nat -> string)
    ensures QueryText(a.Then(b), numbered, n, itoa) ==
              QueryText(a, numbered, n, itoa) + QueryText(b, numbered, n + |Params(a)|, itoa)
    ensures Params(a.Then(b)) == Params(a) + Params(b) && (Clean(a.Then(b)) <==> Clean(a) && Clean(b))
  {
    ThenPlain(a, b);
    ThenParams(a, b);
    ThenClean(a, b);
    ThenNumbered(a, b, n, itoa);
  }

  /** Both selectors of a request render as one query behind the base query, numbered exactly when that is. */
  method RenderSelectors(sql: Sql, fieldSql: FieldSql, lookup: Lookup, base: string, prefix: string,
                         labels: Selector, fields: FieldSelector, args: seq<Arg>, itoa: nat -> string)
    returns (where: string, args': seq<Arg>, ok: bool)
    requires NoMarks(sql) && (labels.Requirements? ==> AllWellFormed(labels.reqs))
    ensures ok <==> !labels.Malformed? && !fields.BadFields?
    ensures ok ==>
      var q := LabelQuery(sql, Pattern(prefix), labels).Then(FieldQuery(fieldSql, lookup, Pattern(prefix), fields));
      && args' == args + Params(q) && (Clean(q) <==> (fields.Fields? ==> NoFieldMarks(fieldSql, lookup, fields.reqs)))
      && ('$' !in base || Clean(q) ==> where == QueryText(q, '$' in base, |args|, itoa))
  {
    var pattern, numbered := Pattern(prefix), '$' in base;
    where, args', ok := RenderLabels(sql, pattern, labels, args, numbered, itoa);
    if !ok {
      return "", args', false;
    }
    ghost var a, b := LabelQuery(sql, pattern, labels), FieldQuery(fieldSql, lookup, pattern, fields);
    assert args' == args + Params(a) && where == QueryText(a, numbered, |args|, itoa) && Clean(a);
    var fieldsWhere;
    fieldsWhere, args', ok := RenderFields(fieldSql, lookup, pattern, fields, args', numbered, itoa);
    if !ok {
      return "", args', false;
    }
    TextsJoin(a, b, numbered, |args|, itoa);
    if !numbered || Clean(b) { TextOfClean(b, numbered, |args + Params(a)|, itoa); }
    Assoc(args, Params(a), Params(b));
    where := where + fieldsWhere;
  }
}
