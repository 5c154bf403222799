/** What the label query selects: rows of the label table matching any requirement, grouped by
    object, kept if the group has as many rows as there are requirements. */
module SelectorRows {
  import opened Numerals
  import opened SelectorText
  import opened Text

  /** A row of the label table. */
  datatype LabelRow = LabelRow(id: nat, kineName: string, name: string, value: string)

  /** LIKE, with `%` for any text and `_` for any character. The collation decides which characters are the same. */
  ghost predicate Like(s: string, pattern: string, same: (char, char) -> bool)
    decreases |s| + |pattern|
  {
    if pattern == "" then s == ""
    else if pattern[0] == '%' then Like(s, pattern[1..], same) || (s != "" && Like(s[1..], pattern, same))
    else s != "" && (pattern[0] == '_' || same(s[0], pattern[0])) && Like(s[1..], pattern[1..], same)
  }

  ghost predicate Reflexive(same: (char, char) -> bool) {
    forall c :: same(c, c)
  }

  lemma {:induction false} LikeAnything(s: string, same: (char, char) -> bool)
    ensures Like(s, "%", same)
  {
    assert "%"[1..] == "";
    if s != "" {
      LikeAnything(s[1..], same);
    }
  }

  lemma {:induction false} LikeStart(s: string, start: string, rest: string, same: (char, char) -> bool)
    requires Reflexive(same) && HasPrefix(s, start) && Like(s[|start|..], rest, same)
    ensures Like(s, start + rest, same)
  {
    var pattern := start + rest;
    if start == "" {
      assert pattern == rest && s[0..] == s;
    } else {
      assert pattern[1..] == start[1..] + rest && s[0] == start[0] && pattern[0] == start[0];
      assert s[1..][|start| - 1..] == s[|start|..];
      assert HasPrefix(s[1..], start[1..]);
      LikeStart(s[1..], start[1..], rest, same);
    }
  }

  /** Every name with the prefix passes the pattern, wildcards in the prefix included. */
  lemma PrefixIsLike(name: string, prefix: string, same: (char, char) -> bool)
    requires Reflexive(same) && HasPrefix(name, prefix)
    ensures Like(name, Pattern(prefix), same)
  {
    var start := if |prefix| > 0 && prefix[|prefix| - 1] == '%' then prefix[..|prefix| - 1] else prefix;
    assert Pattern(prefix) == start + "%";
    assert HasPrefix(name, start);
    LikeAnything(name[|start|..], same);
    LikeStart(name, start, "%", same);
  }

  /** Without wildcards in the prefix, and with characters the same only if equal, no other name does. */
  lemma {:induction false} LikeIsPrefix(name: string, prefix: string)
    requires '%' !in prefix && '_' !in prefix
    ensures Pattern(prefix) == prefix + "%"
    ensures Like(name, Pattern(prefix), (a, b) => a == b) <==> HasPrefix(name, prefix)
    decreases |prefix|
  {
    var same := (a: char, b: char) => a == b;
    var pattern := prefix + "%";
    assert prefix != "" ==> prefix[|prefix| - 1] in prefix;
    if prefix == "" {
      LikeAnything(name, same);
      assert pattern == "%";
    } else {
      assert pattern[0] == prefix[0] && pattern[0] in prefix && pattern[1..] == prefix[1..] + "%";
      if name != "" {
        LikeIsPrefix(name[1..], prefix[1..]);
        assert HasPrefix(name, prefix) <==> name[0] == prefix[0] && HasPrefix(name[1..], prefix[1..]) by {
          PrefixTail(name, prefix);
        }
      }
    }
  }

  lemma PrefixTail(s: string, p: string)
    requires s != "" && p != ""
    ensures HasPrefix(s, p) <==> s[0] == p[0] && HasPrefix(s[1..], p[1..])
  {
    if |p| <= |s| {
      assert s[..|p|] == [s[0]] + s[1..][..|p| - 1] && p == [p[0]] + p[1..];
    }
  }

  /** What an operator asks of the value of its label; DoesNotExist asks nothing of any value. */
  predicate Test(req: Requirement, value: string)
    requires WellFormed(req)
  {
    match req.op
    case DoesNotExist => false
    case DoubleEquals | Equals => value == req.values[0]
    case In => value in req.values
    case NotEquals => value != req.values[0]
    case NotIn => value !in req.values
    case Exists => true
    case GreaterThan => Less(req.values[0], value)
    case LessThan => Less(value, req.values[0])
  }

  /** The object has no label row of the name. */
  ghost predicate Lacks(table: seq<LabelRow>, id: nat, pattern: string, name: string, same: (char, char) -> bool) {
    forall i | 0 <= i < |table| && table[i].id == id && Like(table[i].kineName, pattern, same) :: table[i].name != name
  }

  /** The meaning of one condition, for a label row. */
  ghost predicate Holds(table: seq<LabelRow>, row: LabelRow, pattern: string, req: Requirement,
                        same: (char, char) -> bool)
    requires WellFormed(req)
  {
    if req.op == DoesNotExist then Lacks(table, row.id, pattern, req.key, same)
    else row.name == req.key && Test(req, row.value)
  }

  /** The WHERE condition of the label query: the conditions are joined by OR. */
  ghost predicate Hit(table: seq<LabelRow>, row: LabelRow, id: nat, pattern: string, reqs: seq<Requirement>,
                      same: (char, char) -> bool)
    requires AllWellFormed(reqs)
  {
    && row.id == id && Like(row.kineName, pattern, same)
    && exists i :: 0 <= i < |reqs| && Holds(table, row, pattern, reqs[i], same)
  }

  /** COUNT over the rows of one group, among the first n rows of the table. */
  ghost function Count(table: seq<LabelRow>, n: nat, id: nat, pattern: string, reqs: seq<Requirement>,
                       same: (char, char) -> bool): nat
    requires AllWellFormed(reqs) && n <= |table|
  {
    if n == 0 then 0
    else Count(table, n - 1, id, pattern, reqs, same) +
         if Hit(table, table[n - 1], id, pattern, reqs, same) then 1 else 0
  }

  /** The label query returns the id: its group is not empty and has as many rows as there are requirements. */
  ghost predicate Selected(table: seq<LabelRow>, id: nat, pattern: string, reqs: seq<Requirement>,
                           same: (char, char) -> bool)
    requires AllWellFormed(reqs)
  {
    var count := Count(table, |table|, id, pattern, reqs, same);
    count > 0 && count == |reqs|
  }

  ghost predicate OneRowEach(table: seq<LabelRow>, id: nat) {
    forall i, j | 0 <= i < j < |table| && table[i].id == id && table[j].id == id :: table[i].name != table[j].name
  }

  /** The rows of an id are the labels of one object, one row for each. */
  ghost predicate Describes(table: seq<LabelRow>, id: nat, name: string, labels: map<string, string>) {
    && (forall i | 0 <= i < |table| && table[i].id == id ::
          table[i].kineName == name && table[i].name in labels && table[i].value == labels[table[i].name])
    && (forall k | k in labels :: LabelRow(id, name, k, labels[k]) in table)
    && OneRowEach(table, id)
  }

  ghost predicate NoRows(table: seq<LabelRow>, id: nat) {
    forall i | 0 <= i < |table| :: table[i].id != id
  }

  /** Inserting an object's labels under a new id. */
  method InsertLabels(table: seq<LabelRow>, id: nat, key: string, labels: map<string, string>)
    returns (table': seq<LabelRow>)
    requires NoRows(table, id)
    ensures table <= table' && Describes(table', id, key, labels)
    ensures forall i | |table| <= i < |table'| :: table'[i].id == id
  {
    table' := table;
    var left := labels.Keys;
    while left != {}
      invariant left <= labels.Keys && table <= table'
      invariant forall i | |table| <= i < |table'| :: table'[i].id == id
      invariant Describes(table', id, key, map k | k in labels && k !in left :: labels[k])
      decreases left
    {
      var k :| k in left;
      table' := table' + [LabelRow(id, key, k, labels[k])];
      left := left - {k};
    }
    assert labels == map k | k in labels && k !in left :: labels[k];
  }

  /** A label set meets a requirement as the query reads it: the key is there and its value passes. */
  ghost predicate Meets(labels: map<string, string>, req: Requirement)
    requires WellFormed(req)
  {
    req.key in labels && Test(req, labels[req.key])
  }

  ghost predicate DistinctKeys(reqs: seq<Requirement>) {
    forall i, j | 0 <= i < j < |reqs| :: reqs[i].key != reqs[j].key
  }

  /** No requirement asks for the absence of a key. */
  ghost predicate NoAbsence(reqs: seq<Requirement>) {
    forall i | 0 <= i < |reqs| :: reqs[i].op != DoesNotExist
  }

  /** Some requirement asks for the absence of a key, and gets it. */
  ghost predicate AbsenceMet(labels: map<string, string>, reqs: seq<Requirement>) {
    exists i :: 0 <= i < |reqs| && reqs[i].op == DoesNotExist && reqs[i].key !in labels
  }

  // ----- counting the rows of a group -----

  /** The names of the labels hit, among the first n rows. */
  ghost function HitNames(table: seq<LabelRow>, n: nat, id: nat, pattern: string, reqs: seq<Requirement>,
                          same: (char, char) -> bool): set<string>
    requires AllWellFormed(reqs) && n <= |table|
  {
    if n == 0 then {}
    else
      var front := HitNames(table, n - 1, id, pattern, reqs, same);
      if Hit(table, table[n - 1], id, pattern, reqs, same) then front + {table[n - 1].name} else front
  }

  lemma {:induction false} HitNameFrom(table: seq<LabelRow>, n: nat, id: nat, pattern: string, reqs: seq<Requirement>,
                                       same: (char, char) -> bool, k: string) returns (i: nat)
    requires AllWellFormed(reqs) && n <= |table| && k in HitNames(table, n, id, pattern, reqs, same)
    ensures i < n && Hit(table, table[i], id, pattern, reqs, same) && table[i].name == k
  {
    if k in HitNames(table, n - 1, id, pattern, reqs, same) {
      i := HitNameFrom(table, n - 1, id, pattern, reqs, same, k);
    } else {
      i := n - 1;
    }
  }

  lemma {:induction false} HitNameOf(table: seq<LabelRow>, n: nat, id: nat, pattern: string, reqs: seq<Requirement>,
                                     same: (char, char) -> bool, i: nat)
    requires AllWellFormed(reqs) && i < n <= |table| && Hit(table, table[i], id, pattern, reqs, same)
    ensures table[i].name in HitNames(table, n, id, pattern, reqs, same)
  {
    if i < n - 1 {
      HitNameOf(table, n - 1, id, pattern, reqs, same, i);
    }
  }

  /** A group has one row for each hit label. */
  lemma {:induction false} CountIsNames(table: seq<LabelRow>, n: nat, id: nat, pattern: string, reqs: seq<Requirement>,
                                        same: (char, char) -> bool)
    requires AllWellFormed(reqs) && n <= |table| && OneRowEach(table, id)
    ensures Count(table, n, id, pattern, reqs, same) == |HitNames(table, n, id, pattern, reqs, same)|
  {
    if n > 0 {
      CountIsNames(table, n - 1, id, pattern, reqs, same);
      if Hit(table, table[n - 1], id, pattern, reqs, same) &&
          table[n - 1].name in HitNames(table, n - 1, id, pattern, reqs, same) {
        var _ := HitNameFrom(table, n - 1, id, pattern, reqs, same, table[n - 1].name);
        assert false;
      }
    }
  }

  /** The labels that make the WHERE condition true: all of them if an absence is asked for and met,
      otherwise those that meet a requirement. */
  ghost function MetKeys(labels: map<string, string>, reqs: seq<Requirement>): set<string>
    requires AllWellFormed(reqs)
  {
    set k | k in labels && (AbsenceMet(labels, reqs) || MetBySome(k, labels[k], reqs))
  }

  ghost predicate MetBySome(name: string, value: string, reqs: seq<Requirement>)
    requires AllWellFormed(reqs)
  {
    exists i :: 0 <= i < |reqs| && reqs[i].key == name && Test(reqs[i], value)
  }

  lemma LacksIs(table: seq<LabelRow>, id: nat, name: string, labels: map<string, string>, pattern: string, key: string,
                same: (char, char) -> bool)
    requires Describes(table, id, name, labels) && Like(name, pattern, same)
    ensures Lacks(table, id, pattern, key, same) <==> key !in labels
  {
    if key in labels {
      var i :| 0 <= i < |table| && table[i] == LabelRow(id, name, key, labels[key]);
      assert !Lacks(table, id, pattern, key, same);
    }
  }

  lemma HitIs(table: seq<LabelRow>, i: nat, id: nat, name: string, labels: map<string, string>, pattern: string,
              reqs: seq<Requirement>, same: (char, char) -> bool)
    requires AllWellFormed(reqs) && Describes(table, id, name, labels) && Like(name, pattern, same) && i < |table|
    requires table[i].id == id
    ensures Hit(table, table[i], id, pattern, reqs, same) <==>
              AbsenceMet(labels, reqs) || MetBySome(table[i].name, table[i].value, reqs)
  {
    var row := table[i];
    forall j | 0 <= j < |reqs|
      ensures Holds(table, row, pattern, reqs[j], same) <==>
                (reqs[j].op == DoesNotExist && reqs[j].key !in labels) ||
                    (reqs[j].key == row.name && Test(reqs[j], row.value))
    {
      LacksIs(table, id, name, labels, pattern, reqs[j].key, same);
    }
    if Hit(table, row, id, pattern, reqs, same) {
      var j :| 0 <= j < |reqs| && Holds(table, row, pattern, reqs[j], same);
    }
  }

  lemma HitNamesAre(table: seq<LabelRow>, id: nat, name: string, labels: map<string, string>, pattern: string,
                    reqs: seq<Requirement>, same: (char, char) -> bool)
    requires AllWellFormed(reqs) && Describes(table, id, name, labels)
    ensures HitNames(table, |table|, id, pattern, reqs, same) ==
              if Like(name, pattern, same) then MetKeys(labels, reqs) else {}
  {
    var hits := HitNames(table, |table|, id, pattern, reqs, same);
    forall k | k in hits ensures Like(name, pattern, same) && k in MetKeys(labels, reqs) {
      var i := HitNameFrom(table, |table|, id, pattern, reqs, same, k);
      HitIs(table, i, id, name, labels, pattern, reqs, same);
    }
    forall k | k in MetKeys(labels, reqs) && Like(name, pattern, same) ensures k in hits {
      var i :| 0 <= i < |table| && table[i] == LabelRow(id, name, k, labels[k]);
      HitIs(table, i, id, name, labels, pattern, reqs, same);
      HitNameOf(table, |table|, id, pattern, reqs, same, i);
    }
  }

  // ----- counting the keys of a selector -----

  /** The keys whose presence is asked for. */
  ghost function Keys(reqs: seq<Requirement>): set<string> {
    if reqs == [] then {}
    else
      var front, last := Keys(reqs[..|reqs| - 1]), reqs[|reqs| - 1];
      if last.op == DoesNotExist then front else front + {last.key}
  }

  lemma {:induction false} KeyFrom(reqs: seq<Requirement>, k: string) returns (i: nat)
    requires k in Keys(reqs)
    ensures i < |reqs| && reqs[i].key == k && reqs[i].op != DoesNotExist
  {
    var n := |reqs| - 1;
    if k in Keys(reqs[..n]) {
      i := KeyFrom(reqs[..n], k);
    } else {
      i := n;
    }
  }

  lemma {:induction false} KeyOf(reqs: seq<Requirement>, i: nat)
    requires i < |reqs| && reqs[i].op != DoesNotExist
    ensures reqs[i].key in Keys(reqs)
  {
    if i < |reqs| - 1 {
      KeyOf(reqs[..|reqs| - 1], i);
    }
  }

  /** There are as many keys as requirements exactly if none repeats and none asks for an absence. */
  lemma {:induction false} KeyCount(reqs: seq<Requirement>)
    ensures |Keys(reqs)| <= |reqs|
    ensures |Keys(reqs)| == |reqs| <==> DistinctKeys(reqs) && NoAbsence(reqs)
  {
    if reqs != [] {
      var n := |reqs| - 1;
      var front, last := reqs[..n], reqs[n];
      KeyCount(front);
      if last.op == DoesNotExist {
        assert !NoAbsence(reqs);
      } else if last.key in Keys(front) {
        assert Keys(reqs) == Keys(front);
        var i := KeyFrom(front, last.key);
        assert reqs[i].key == reqs[n].key;
      } else {
        KeyCountLast(reqs);
      }
    }
  }

  lemma KeyCountLast(reqs: seq<Requirement>)
    requires reqs != [] && reqs[|reqs| - 1].op != DoesNotExist && reqs[|reqs| - 1].key !in Keys(reqs[..|reqs| - 1])
    ensures DistinctKeys(reqs) && NoAbsence(reqs) <==> DistinctKeys(reqs[..|reqs| - 1]) && NoAbsence(reqs[..|reqs| - 1])
  {
    var front, last := reqs[..|reqs| - 1], reqs[|reqs| - 1];
    assert forall i | 0 <= i < |front| :: front[i] == reqs[i];
    if DistinctKeys(front) && NoAbsence(front) {
      forall i | 0 <= i < |front| ensures reqs[i].key != last.key { KeyOf(front, i); }
      forall i, j | 0 <= i < j < |reqs| ensures reqs[i].key != reqs[j].key {
        if j < |front| { assert front[i].key != front[j].key; }
      }
    }
    if DistinctKeys(reqs) && NoAbsence(reqs) {
      forall i, j | 0 <= i < j < |front| ensures front[i].key != front[j].key { assert reqs[i].key != reqs[j].key; }
      forall i | 0 <= i < |front| ensures front[i].op != DoesNotExist { assert reqs[i].op != DoesNotExist; }
    }
  }

  lemma MetAmongKeys(labels: map<string, string>, reqs: seq<Requirement>)
    requires AllWellFormed(reqs) && !AbsenceMet(labels, reqs)
    ensures MetKeys(labels, reqs) <= Keys(reqs)
  {
    forall k | k in MetKeys(labels, reqs) ensures k in Keys(reqs) {
      var i :| 0 <= i < |reqs| && reqs[i].key == k && Test(reqs[i], labels[k]);
      KeyOf(reqs, i);
    }
  }

  lemma KeyMet(labels: map<string, string>, reqs: seq<Requirement>, i: nat)
    requires AllWellFormed(reqs) && DistinctKeys(reqs) && !AbsenceMet(labels, reqs) && i < |reqs|
    requires reqs[i].key in MetKeys(labels, reqs)
    ensures Meets(labels, reqs[i])
  {
    var k := reqs[i].key;
    var j :| 0 <= j < |reqs| && reqs[j].key == k && Test(reqs[j], labels[k]);
    assert i == j;
  }

  lemma MetKey(labels: map<string, string>, reqs: seq<Requirement>, k: string)
    requires AllWellFormed(reqs) && (forall i | 0 <= i < |reqs| :: Meets(labels, reqs[i])) && k in Keys(reqs)
    ensures k in MetKeys(labels, reqs)
  {
    var i := KeyFrom(reqs, k);
    assert Meets(labels, reqs[i]);
  }

  /** With distinct keys, every key is met exactly if every requirement is. */
  lemma AllKeysMet(labels: map<string, string>, reqs: seq<Requirement>)
    requires AllWellFormed(reqs) && DistinctKeys(reqs) && NoAbsence(reqs)
    ensures Keys(reqs) <= MetKeys(labels, reqs) <==> forall i | 0 <= i < |reqs| :: Meets(labels, reqs[i])
  {
    if Keys(reqs) <= MetKeys(labels, reqs) {
      forall i | 0 <= i < |reqs| ensures Meets(labels, reqs[i]) {
        KeyOf(reqs, i);
        KeyMet(labels, reqs, i);
      }
    }
    if forall i | 0 <= i < |reqs| :: Meets(labels, reqs[i]) {
      forall k | k in Keys(reqs) ensures k in MetKeys(labels, reqs) { MetKey(labels, reqs, k); }
    }
  }

  lemma SameSize<T>(a: set<T>, b: set<T>)
    requires a <= b
    ensures |a| <= |b| && (|a| == |b| <==> a == b)
  {
    assert b == a + (b - a);
    if |a| == |b| { assert b - a == {}; }
  }

  /** What a selector selects, as the query reads it. An absence that is asked for and met makes
      every label of the object count, so the object is selected exactly if it has as many labels as
      there are requirements. Otherwise it is selected exactly if no requirement asks for an absence,
      none repeats a key, and all are met. */
  ghost predicate Reading(labels: map<string, string>, reqs: seq<Requirement>)
    requires AllWellFormed(reqs)
  {
    if AbsenceMet(labels, reqs) then |labels| == |reqs|
    else reqs != [] && NoAbsence(reqs) && DistinctKeys(reqs) && forall i | 0 <= i < |reqs| :: Meets(labels, reqs[i])
  }

  lemma CountedReading(labels: map<string, string>, reqs: seq<Requirement>)
    requires AllWellFormed(reqs)
    ensures var n := |MetKeys(labels, reqs)|; (n > 0 && n == |reqs|) <==> Reading(labels, reqs)
  {
    if AbsenceMet(labels, reqs) {
      assert MetKeys(labels, reqs) == labels.Keys;
    } else {
      MetAmongKeys(labels, reqs);
      SameSize(MetKeys(labels, reqs), Keys(reqs));
      KeyCount(reqs);
      if DistinctKeys(reqs) && NoAbsence(reqs) { AllKeysMet(labels, reqs); }
    }
  }

  /** The query selects an object exactly if its name passes the pattern and its labels fit that reading. */
  lemma SelectsExactly(table: seq<LabelRow>, id: nat, name: string, labels: map<string, string>, pattern: string,
                       reqs: seq<Requirement>, same: (char, char) -> bool)
    requires AllWellFormed(reqs) && Describes(table, id, name, labels)
    ensures Selected(table, id, pattern, reqs, same) <==> Like(name, pattern, same) && Reading(labels, reqs)
  {
    CountIsNames(table, |table|, id, pattern, reqs, same);
    HitNamesAre(table, id, name, labels, pattern, reqs, same);
    CountedReading(labels, reqs);
  }

  // ----- Kubernetes' reading -----

  /** A value and a bound that Kubernetes compares as integers, and not at all if one is not an integer. */
  ghost predicate Above(value: string, bound: string) {
    ParseInt(value).Some? && ParseInt(bound).Some? && ParseInt(bound).value < ParseInt(value).value
  }

  ghost predicate Kubernetes(labels: map<string, string>, req: Requirement)
    requires WellFormed(req)
  {
    match req.op
    case DoesNotExist => req.key !in labels
    case DoubleEquals | Equals => req.key in labels && labels[req.key] == req.values[0]
    case In => req.key in labels && labels[req.key] in req.values
    case NotEquals => req.key in labels ==> labels[req.key] != req.values[0]
    case NotIn => req.key in labels ==> labels[req.key] !in req.values
    case Exists => req.key in labels
    case GreaterThan => req.key in labels && Above(labels[req.key], req.values[0])
    case LessThan => req.key in labels && Above(req.values[0], labels[req.key])
  }

  /** The order of two texts is that of the integers they stand for. For plain numerals: when the
      beginning of the longer is not below the shorter. If one is no integer: when the texts are not
      in order either. With signs or leading zeros: when they are in the order of their padded digits. */
  predicate SameOrder(low: string, high: string) {
    if ParseInt(low).None? || ParseInt(high).None? then !Less(low, high)
    else if Canonical(low) && Canonical(high) then Aligned(low, high)
    else Less(low, high) <==> NumeralLess(low, high)
  }

  /** The query and Kubernetes read a requirement alike. */
  ghost predicate AgreesOn(labels: map<string, string>, req: Requirement)
    requires WellFormed(req)
  {
    match req.op
    case DoesNotExist => req.key in labels
    case NotEquals | NotIn => req.key in labels
    case GreaterThan => req.key in labels ==> SameOrder(req.values[0], labels[req.key])
    case LessThan => req.key in labels ==> SameOrder(labels[req.key], req.values[0])
    case _ => true
  }

  lemma OrderExact(low: string, high: string)
    ensures (Less(low, high) <==> Above(high, low)) <==> SameOrder(low, high)
  {
    if Canonical(low) && Canonical(high) {
      CanonicalParses(low);
      CanonicalParses(high);
      OrdersAgree(low, high);
    } else if ParseInt(low).Some? && ParseInt(high).Some? {
      NumeralLessIs(low, high);
    }
  }

  /** One requirement, exactly: it is met as the query reads it just when Kubernetes says so, if and
      only if they agree on it. */
  lemma MeetsExact(labels: map<string, string>, req: Requirement)
    requires WellFormed(req)
    ensures (Meets(labels, req) <==> Kubernetes(labels, req)) <==> AgreesOn(labels, req)
  {
    if req.key in labels {
      match req.op {
        case GreaterThan => OrderExact(req.values[0], labels[req.key]);
        case LessThan => OrderExact(labels[req.key], req.values[0]);
        case _ =>
      }
    }
  }

  /** Over a prefix range, a selector with distinct keys that the two read alike selects exactly the
      objects Kubernetes selects. */
  lemma SelectorCorrect(table: seq<LabelRow>, id: nat, name: string, labels: map<string, string>, prefix: string,
                        reqs: seq<Requirement>, same: (char, char) -> bool)
    requires AllWellFormed(reqs) && Describes(table, id, name, labels) && Reflexive(same) && HasPrefix(name, prefix)
    requires reqs != [] && DistinctKeys(reqs) && NoAbsence(reqs)
    requires forall i | 0 <= i < |reqs| :: AgreesOn(labels, reqs[i])
    ensures Selected(table, id, Pattern(prefix), reqs, same) <==>
              forall i | 0 <= i < |reqs| :: Kubernetes(labels, reqs[i])
  {
    PrefixIsLike(name, prefix, same);
    SelectsExactly(table, id, name, labels, Pattern(prefix), reqs, same);
    forall i | 0 <= i < |reqs|
      ensures Meets(labels, reqs[i]) <==> Kubernetes(labels, reqs[i])
    {
      MeetsExact(labels, reqs[i]);
    }
  }

  /** The objects Kubernetes selects and the query misses, exactly. With an absence asked for, the object
      is found only if it happens to have as many labels as there are requirements. Otherwise
      it is found if and only if there is a requirement, no key repeats, and none is read differently. */
  lemma FoundExactly(table: seq<LabelRow>, id: nat, name: string, labels: map<string, string>, prefix: string,
                     reqs: seq<Requirement>, same: (char, char) -> bool)
    requires AllWellFormed(reqs) && Describes(table, id, name, labels) && Reflexive(same) && HasPrefix(name, prefix)
    requires forall i | 0 <= i < |reqs| :: Kubernetes(labels, reqs[i])
    ensures Selected(table, id, Pattern(prefix), reqs, same) <==>
              if NoAbsence(reqs) then
                reqs != [] && DistinctKeys(reqs) && forall i | 0 <= i < |reqs| :: AgreesOn(labels, reqs[i])
              else |labels| == |reqs|
  {
    PrefixIsLike(name, prefix, same);
    SelectsExactly(table, id, name, labels, Pattern(prefix), reqs, same);
    forall i | 0 <= i < |reqs|
      ensures Meets(labels, reqs[i]) <==> AgreesOn(labels, reqs[i])
    {
      MeetsExact(labels, reqs[i]);
    }
  }

  /** The objects the query selects and Kubernetes does not, exactly. With an absence met, those with as
      many labels as there are requirements. Otherwise those for which every requirement that
      Kubernetes rejects, and no other, is read differently. */
  lemma ExtraExactly(table: seq<LabelRow>, id: nat, name: string, labels: map<string, string>, prefix: string,
                     reqs: seq<Requirement>, same: (char, char) -> bool)
    requires AllWellFormed(reqs) && Describes(table, id, name, labels) && Reflexive(same) && HasPrefix(name, prefix)
    requires exists i :: 0 <= i < |reqs| && !Kubernetes(labels, reqs[i])
    ensures Selected(table, id, Pattern(prefix), reqs, same) <==>
              if AbsenceMet(labels, reqs) then |labels| == |reqs|
              else NoAbsence(reqs) && DistinctKeys(reqs) &&
                   forall i | 0 <= i < |reqs| :: Kubernetes(labels, reqs[i]) <==> AgreesOn(labels, reqs[i])
  {
    PrefixIsLike(name, prefix, same);
    SelectsExactly(table, id, name, labels, Pattern(prefix), reqs, same);
    forall i | 0 <= i < |reqs|
      ensures Meets(labels, reqs[i]) <==> (Kubernetes(labels, reqs[i]) <==> AgreesOn(labels, reqs[i]))
    {
      MeetsExact(labels, reqs[i]);
    }
  }

  /** Without orders and absences, the query selects no object that Kubernetes does not. */
  lemma NothingElse(table: seq<LabelRow>, id: nat, name: string, labels: map<string, string>, pattern: string,
                    reqs: seq<Requirement>, same: (char, char) -> bool)
    requires AllWellFormed(reqs) && Describes(table, id, name, labels) && Selected(table, id, pattern, reqs, same)
    requires forall i | 0 <= i < |reqs| :: reqs[i].op !in {DoesNotExist, GreaterThan, LessThan}
    ensures forall i | 0 <= i < |reqs| :: Kubernetes(labels, reqs[i])
  {
    SelectsExactly(table, id, name, labels, pattern, reqs, same);
  }

  /** For Equals, In and Exists on distinct keys, the query selects exactly what Kubernetes selects. */
  lemma PositiveSelectors(table: seq<LabelRow>, id: nat, name: string, labels: map<string, string>, prefix: string,
                          reqs: seq<Requirement>, same: (char, char) -> bool)
    requires AllWellFormed(reqs) && reqs != [] && Describes(table, id, name, labels) && Reflexive(same)
    requires HasPrefix(name, prefix)
    requires DistinctKeys(reqs) && forall i | 0 <= i < |reqs| :: reqs[i].op in {Equals, DoubleEquals, In, Exists}
    ensures Selected(table, id, Pattern(prefix), reqs, same) <==>
              forall i | 0 <= i < |reqs| :: Kubernetes(labels, reqs[i])
  {
    SelectorCorrect(table, id, name, labels, prefix, reqs, same);
  }

  /** The value 9 passes the text of `> 10` but is not above ten. */
  lemma NineAboveTen(labels: map<string, string>, key: string)
    requires key in labels && labels[key] == "9"
    ensures var req := Requirement(key, GreaterThan, ["10"]);
            WellFormed(req) && Meets(labels, req) && !Kubernetes(labels, req)
  {
    CanonicalParses("9");
    CanonicalParses("10");
    assert "10"[1..] == "0" && "0"[1..] == "" && "9"[1..] == "";
    assert Value("9") == 9 && Value("0") == 0 && Value("10") == 10;
  }
}
