/** DynamoDB `SET` update expressions as the user repository builds them: a
    list of `path = :value` clauses, the `#name` placeholders they use, and the
    `:value` placeholders. The clauses are kept structured; `Render` produces the
    expression text sent to the service and `Apply` is what the service does. */
module UpdateExpression {
  import opened Values
  import opened Dynamo

  /** One `path = :value` clause. A path that starts with '#' is a placeholder
      resolved through the request's attribute names; any other path is an
      attribute name written literally. */
  datatype Clause = Clause(path: string, valueRef: string)

  datatype Request = Request(clauses: seq<Clause>, names: map<string, string>, values: map<string, Json>)

  function RenderClause(c: Clause): (s: string)
    ensures |s| == |c.path| + 3 + |c.valueRef|
    ensures s[..|c.path|] == c.path && s[|c.path| + 3..] == c.valueRef
  {
    c.path + " = " + c.valueRef
  }

  function RenderClauses(cs: seq<Clause>): (parts: seq<string>)
    ensures |parts| == |cs|
    ensures forall i | 0 <= i < |cs| :: parts[i] == RenderClause(cs[i])
  {
    if cs == [] then [] else [RenderClause(cs[0])] + RenderClauses(cs[1..])
  }

  /** Ruby's `Array#join(sep)`. */
  function Join(parts: seq<string>, sep: string): (s: string)
    ensures |parts| == 0 ==> s == ""
    ensures |parts| == 1 ==> s == parts[0]
    ensures |parts| > 1 ==> s == parts[0] + sep + Join(parts[1..], sep)
  {
    if |parts| == 0 then ""
    else if |parts| == 1 then parts[0]
    else parts[0] + sep + Join(parts[1..], sep)
  }

  /** The expression text: "SET " and the clauses joined by ", ". */
  function Render(cs: seq<Clause>): string {
    "SET " + Join(RenderClauses(cs), ", ")
  }

  /** The attribute a clause writes: a '#' placeholder looks its name up. */
  function ResolvePath(path: string, names: map<string, string>): Option<string> {
    if |path| > 0 && path[0] == '#' then
      if path in names then Some(names[path]) else None
    else Some(path)
  }

  /** Every placeholder the clauses use is defined by the request. */
  predicate Resolvable(cs: seq<Clause>, names: map<string, string>, values: map<string, Json>) {
    forall i | 0 <= i < |cs| :: ResolvePath(cs[i].path, names).Some? && cs[i].valueRef in values
  }

  /** The service's reading of a `SET` request: the clauses applied left to right. */
  function Apply(item: Item, cs: seq<Clause>, names: map<string, string>, values: map<string, Json>): Item
    requires Resolvable(cs, names, values)
    decreases |cs|
  {
    if cs == [] then item
    else Apply(item[ResolvePath(cs[0].path, names).value := values[cs[0].valueRef]], cs[1..], names, values)
  }

  lemma {:induction false} ApplyConcat(item: Item, c1: seq<Clause>, c2: seq<Clause>, names: map<string, string>, values: map<string, Json>)
    requires Resolvable(c1, names, values) && Resolvable(c2, names, values)
    ensures Resolvable(c1 + c2, names, values)
    ensures Apply(item, c1 + c2, names, values) == Apply(Apply(item, c1, names, values), c2, names, values)
    decreases |c1|
  {
    if c1 == [] {
      assert c1 + c2 == c2;
    } else {
      assert (c1 + c2)[0] == c1[0];
      assert (c1 + c2)[1..] == c1[1..] + c2;
      var item' := item[ResolvePath(c1[0].path, names).value := values[c1[0].valueRef]];
      ApplyConcat(item', c1[1..], c2, names, values);
    }
  }

  /** Prefixing a common string is injective: distinct names give distinct placeholders. */
  lemma PrefixInjective(p: string, a: string, b: string)
    requires p + a == p + b
    ensures a == b
  {
    assert a == (p + a)[|p|..];
    assert b == (p + b)[|p|..];
  }

  lemma PrefixDistinct(p: string, a: string, b: string)
    requires a != b
    ensures p + a != p + b
  {
    if p + a == p + b {
      PrefixInjective(p, a, b);
    }
  }
}
