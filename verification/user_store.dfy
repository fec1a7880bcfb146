/** `UserRepository`: the user record of a Cognito user, stored in the shared
    users table. Timestamps are parameters: `now` stands for the ISO-8601 text
    `create` writes and `zone` for the zone name `Time.current.zone` that
    `update_status` and `update` write as `updated_at`. */
module UserStore {
  import opened Values
  import opened Dynamo
  import opened UpdateExpression

  /** The attributes `create` writes. */
  const CreatedAttributes: set<string> :=
    {"user_id", "workspace_id", "email", "name", "role", "status", "created_at", "updated_at"}

  /** The attributes `normalize_item` returns: the record's own fields and the
      settings fields that share the item, but never name, role or workspace_id. */
  const UserView: set<string> :=
    {"user_id", "email", "status", "created_at", "updated_at",
     "meeting_title", "auto_delete_days", "slack_webhook_url"}

  /** `allowed_attributes` of `update`. */
  const Updatable: set<string> := {"workspace_id", "email", "name", "role", "status"}

  const DefaultName: Json := Str("test")
  const DefaultRole: Json := Str("member")
  const DefaultStatus: Json := Str("pending")

  datatype CreateError = DuplicateUser

  /** A keyword argument: `None` when the caller omits it. */
  function ArgOr(arg: Option<Json>, default: Json): Json {
    if arg.Some? then arg.value else default
  }

  /** `normalize_item`. */
  function Normalize(item: Item): (r: Item)
    ensures r.Keys == UserView
    ensures forall k | k in UserView :: r[k] == Get(item, k)
  {
    Project(item, UserView)
  }

  /** `create`: a conditional put that fails when the user already exists. The
      workspace, created_at and updated_at arguments are accepted and ignored. */
  function Create(t: Table, userId: string, workspaceId: Json, email: Json,
                  name: Option<Json>, role: Option<Json>, status: Option<Json>,
                  createdAt: Option<Json>, updatedAt: Option<Json>, now: string)
    : (r: (Table, Result<Item, CreateError>))
    ensures userId in t ==> r.0 == t && r.1 == Err(DuplicateUser)
    ensures userId !in t ==>
      && r.1.Ok?
      && r.0 == t[userId := r.1.value]
      && r.1.value.Keys == CreatedAttributes
      && r.1.value["user_id"] == Str(userId)
      && r.1.value["workspace_id"] == Str("1")
      && r.1.value["email"] == email
      && r.1.value["name"] == ArgOr(name, DefaultName)
      && r.1.value["role"] == ArgOr(role, DefaultRole)
      && r.1.value["status"] == ArgOr(status, DefaultStatus)
      && r.1.value["created_at"] == r.1.value["updated_at"] == Str(now)
    ensures WellKeyed(t) ==> WellKeyed(r.0)
  {
    if userId in t then (t, Err(DuplicateUser))
    else
      var item := map[
        "user_id" := Str(userId),
        "workspace_id" := Str("1"),
        "email" := email,
        "name" := ArgOr(name, DefaultName),
        "role" := ArgOr(role, DefaultRole),
        "status" := ArgOr(status, DefaultStatus),
        "created_at" := Str(now),
        "updated_at" := Str(now)];
      (PutItem(t, userId, item), Ok(item))
  }

  /** `find_by_user_id`: nil for an absent user, else the normalized record. */
  function FindByUserId(t: Table, userId: string): (r: Option<Item>)
    ensures r.None? <==> userId !in t
    ensures r.Some? ==> r.value.Keys == UserView
    ensures r.Some? ==> forall k | k in UserView :: r.value[k] == Get(t[userId], k)
    ensures r.Some? ==> "name" !in r.value && "role" !in r.value && "workspace_id" !in r.value
  {
    Find(t, userId, UserView)
  }

  /** `update_status`: an `UpdateItem` that sets status and updated_at. */
  function UpdateStatus(t: Table, userId: string, status: Json, zone: string): (r: (Table, Item))
    ensures r.0.Keys == t.Keys + {userId}
    ensures forall k | k in t && k != userId :: r.0[k] == t[k]
    ensures Get(r.0[userId], "status") == status
    ensures Get(r.0[userId], "updated_at") == Str(zone)
    ensures forall a | a != "status" && a != "updated_at" :: Get(r.0[userId], a) == Get(Current(t, userId), a)
    ensures r.1 == Normalize(r.0[userId])
    ensures WellKeyed(t) ==> WellKeyed(r.0)
  {
    var item := Current(t, userId)["status" := status]["updated_at" := Str(zone)];
    (PutItem(t, userId, item), Normalize(item))
  }

  /** The attributes hash of `update` as its (key, value) pairs in order; a Ruby
      hash has no repeated key. */
  predicate DistinctKeys(attrs: seq<(string, Json)>) {
    forall i, j | 0 <= i < j < |attrs| :: attrs[i].0 != attrs[j].0
  }

  /** The pairs `update` keeps: an allowed attribute with a non-nil value. */
  predicate Eligible1(p: (string, Json)) {
    p.0 in Updatable && p.1 != Null
  }

  /** The pairs `update` writes, in input order. */
  function Eligible(attrs: seq<(string, Json)>): (e: seq<(string, Json)>)
    ensures forall p :: p in e <==> p in attrs && Eligible1(p)
    ensures |e| <= |attrs|
    ensures DistinctKeys(attrs) ==> DistinctKeys(e)
  {
    if attrs == [] then []
    else
      var rest := Eligible(attrs[1..]);
      assert forall p | p in attrs[1..] :: p in attrs;
      if Eligible1(attrs[0]) then
        assert DistinctKeys(attrs) ==> forall p | p in rest :: p.0 != attrs[0].0;
        [attrs[0]] + rest
      else rest
  }

  /** Filtering keeps the input order. */
  lemma {:induction false} EligibleAppend(a: seq<(string, Json)>, b: seq<(string, Json)>)
    ensures Eligible(a + b) == Eligible(a) + Eligible(b)
  {
    if a == [] {
      assert a + b == b;
    } else {
      assert (a + b)[0] == a[0];
      assert (a + b)[1..] == a[1..] + b;
      EligibleAppend(a[1..], b);
    }
  }

  /** The attribute keys of a list of pairs. */
  function KeysOf(e: seq<(string, Json)>): set<string> {
    set i | 0 <= i < |e| :: e[i].0
  }

  /** The values `update` writes, keyed by attribute. */
  function Written(e: seq<(string, Json)>): (w: map<string, Json>)
    ensures w.Keys == KeysOf(e)
    ensures DistinctKeys(e) ==> forall i | 0 <= i < |e| :: w[e[i].0] == e[i].1
  {
    if e == [] then map[]
    else
      var w := Written(e[1..])[e[0].0 := e[0].1];
      assert KeysOf(e) == KeysOf(e[1..]) + {e[0].0} by {
        forall k | k in KeysOf(e) ensures k in KeysOf(e[1..]) + {e[0].0} {
          var i :| 0 <= i < |e| && e[i].0 == k;
          if i > 0 { assert e[1..][i - 1].0 == k; }
        }
      }
      assert DistinctKeys(e) ==> forall i | 0 <= i < |e| :: w[e[i].0] == e[i].1 by {
        if DistinctKeys(e) {
          forall i | 0 <= i < |e| ensures w[e[i].0] == e[i].1 {
            if i > 0 { assert e[1..][i - 1] == e[i]; }
          }
        }
      }
      w
  }

  /** One clause `#k = :k` per written pair. */
  function Clauses(e: seq<(string, Json)>): (cs: seq<Clause>)
    ensures |cs| == |e|
    ensures forall i | 0 <= i < |e| :: cs[i] == Clause("#" + e[i].0, ":" + e[i].0)
  {
    if e == [] then [] else [Clause("#" + e[0].0, ":" + e[0].0)] + Clauses(e[1..])
  }

  /** `attribute_names`: each placeholder `#k` names the attribute `k`. */
  function NamesOf(e: seq<(string, Json)>): (names: map<string, string>)
    ensures forall i | 0 <= i < |e| :: "#" + e[i].0 in names && names["#" + e[i].0] == e[i].0
  {
    if e == [] then map[]
    else
      var names := NamesOf(e[1..])["#" + e[0].0 := e[0].0];
      assert forall i | 0 < i < |e| :: e[1..][i - 1] == e[i];
      forall i | 0 <= i < |e| ensures "#" + e[i].0 in names && names["#" + e[i].0] == e[i].0 {
        if i > 0 && "#" + e[i].0 == "#" + e[0].0 {
          PrefixInjective("#", e[i].0, e[0].0);
        }
      }
      names
  }

  /** `attribute_values` without `:updated_at`: each placeholder `:k` holds the value of `k`. */
  function ValuesOf(e: seq<(string, Json)>): (values: map<string, Json>)
    requires DistinctKeys(e)
    ensures forall i | 0 <= i < |e| :: ":" + e[i].0 in values && values[":" + e[i].0] == e[i].1
  {
    if e == [] then map[]
    else
      var values := ValuesOf(e[1..])[":" + e[0].0 := e[0].1];
      assert forall i | 0 < i < |e| :: e[1..][i - 1] == e[i];
      forall i | 0 <= i < |e| ensures ":" + e[i].0 in values && values[":" + e[i].0] == e[i].1 {
        if i > 0 && ":" + e[i].0 == ":" + e[0].0 {
          PrefixInjective(":", e[i].0, e[0].0);
        }
      }
      values
  }

  /** The `UpdateItem` request `update` sends for the written pairs `e`. */
  function BuildRequest(e: seq<(string, Json)>, zone: string): Request
    requires DistinctKeys(e)
  {
    Request(Clauses(e) + [Clause("updated_at", ":updated_at")],
            NamesOf(e),
            ValuesOf(e)[":updated_at" := Str(zone)])
  }

  /** The clause texts for the written pairs `e`. */
  function PartsOf(e: seq<(string, Json)>): (parts: seq<string>)
    ensures |parts| == |e| + 1
    ensures forall i | 0 <= i < |e| :: parts[i] == "#" + e[i].0 + " = :" + e[i].0
    ensures parts[|e|] == "updated_at = :updated_at"
  {
    var cs := Clauses(e) + [Clause("updated_at", ":updated_at")];
    var parts := RenderClauses(cs);
    forall i | 0 <= i < |e| ensures parts[i] == "#" + e[i].0 + " = :" + e[i].0 {
      assert cs[i] == Clauses(e)[i];
      RenderPlaceholderClause(e[i].0);
    }
    assert cs[|e|] == Clause("updated_at", ":updated_at");
    UpdatedAtClause();
    parts
  }

  lemma UpdatedAtClause()
    ensures RenderClause(Clause("updated_at", ":updated_at")) == "updated_at = :updated_at"
  {
  }

  /** The clauses `update_parts` renders to: one `#k = :k` per written pair in
      input order, then `updated_at = :updated_at`. */
  function UpdateParts(attrs: seq<(string, Json)>): (parts: seq<string>)
    ensures var e := Eligible(attrs);
      && |parts| == |e| + 1
      && (forall i | 0 <= i < |e| :: parts[i] == "#" + e[i].0 + " = :" + e[i].0)
      && parts[|e|] == "updated_at = :updated_at"
  {
    PartsOf(Eligible(attrs))
  }

  lemma RenderPlaceholderClause(k: string)
    ensures RenderClause(Clause("#" + k, ":" + k)) == "#" + k + " = :" + k
  {
    assert ("#" + k) + " = " + (":" + k) == "#" + k + " = :" + k;
  }

  /** The `update_expression` text, built for any attribute hash. */
  function UpdateExpressionText(attrs: seq<(string, Json)>): (x: string)
    ensures x == "SET " + Join(UpdateParts(attrs), ", ")
    ensures |x| > 4 && x[..4] == "SET "
  {
    Render(Clauses(Eligible(attrs)) + [Clause("updated_at", ":updated_at")])
  }

  /** Every placeholder of the clauses for `e` is defined. */
  lemma ClausesResolvable(e: seq<(string, Json)>, names: map<string, string>, values: map<string, Json>)
    requires forall i | 0 <= i < |e| :: "#" + e[i].0 in names
    requires forall i | 0 <= i < |e| :: ":" + e[i].0 in values
    ensures Resolvable(Clauses(e), names, values)
  {
  }

  lemma MapUpdateCommute(item: Item, w: map<string, Json>, k: string, v: Json)
    requires k !in w
    ensures item[k := v] + w == item + w[k := v]
  {
  }

  /** What the service does with the clauses `update` builds: the written pairs
      land on the item; every other attribute is kept. */
  lemma {:induction false} ApplyWritten(item: Item, e: seq<(string, Json)>, names: map<string, string>, values: map<string, Json>)
    requires DistinctKeys(e)
    requires forall i | 0 <= i < |e| :: "#" + e[i].0 in names && names["#" + e[i].0] == e[i].0
    requires forall i | 0 <= i < |e| :: ":" + e[i].0 in values && values[":" + e[i].0] == e[i].1
    ensures Resolvable(Clauses(e), names, values)
    ensures Apply(item, Clauses(e), names, values) == item + Written(e)
    decreases |e|
  {
    ClausesResolvable(e, names, values);
    if e != [] {
      var cs := Clauses(e);
      var k := e[0].0;
      assert cs[0].path[0] == '#';
      assert ResolvePath(cs[0].path, names) == Some(k);
      var item' := item[k := e[0].1];
      assert cs[1..] == Clauses(e[1..]);
      var e' := e[1..];
      assert forall i | 0 <= i < |e'| :: e'[i] == e[i + 1];
      ApplyWritten(item', e', names, values);
      assert k !in KeysOf(e');
      MapUpdateCommute(item, Written(e'), k, e[0].1);
    }
  }

  /** The item after `update` wrote the pairs `e` and `zone`. */
  lemma UpdatedItem(base: Item, e: seq<(string, Json)>, zone: string)
    requires DistinctKeys(e)
    requires forall i | 0 <= i < |e| :: e[i].0 in Updatable
    ensures var req := BuildRequest(e, zone);
      && Resolvable(req.clauses, req.names, req.values)
      && Apply(base, req.clauses, req.names, req.values) == (base + Written(e))["updated_at" := Str(zone)]
  {
    var req := BuildRequest(e, zone);
    var names, values := req.names, req.values;
    RequestValues(e, zone);
    ApplyWritten(base, e, names, values);
    var tail := [Clause("updated_at", ":updated_at")];
    ApplyUpdatedAt(base + Written(e), names, values, zone);
    ApplyConcat(base, Clauses(e), tail, names, values);
  }

  /** The request's values hold each written pair's value under its placeholder. */
  lemma RequestValues(e: seq<(string, Json)>, zone: string)
    requires DistinctKeys(e)
    requires forall i | 0 <= i < |e| :: e[i].0 in Updatable
    ensures var values := BuildRequest(e, zone).values;
      && (forall i | 0 <= i < |e| :: ":" + e[i].0 in values && values[":" + e[i].0] == e[i].1)
      && values[":updated_at"] == Str(zone)
  {
    var values := BuildRequest(e, zone).values;
    forall i | 0 <= i < |e| ensures ":" + e[i].0 in values && values[":" + e[i].0] == e[i].1 {
      PrefixDistinct(":", e[i].0, "updated_at");
    }
  }

  /** The closing `updated_at = :updated_at` clause sets the timestamp. */
  lemma ApplyUpdatedAt(item: Item, names: map<string, string>, values: map<string, Json>, zone: string)
    requires ":updated_at" in values && values[":updated_at"] == Str(zone)
    ensures Resolvable([Clause("updated_at", ":updated_at")], names, values)
    ensures Apply(item, [Clause("updated_at", ":updated_at")], names, values) == item["updated_at" := Str(zone)]
  {
    var tail := [Clause("updated_at", ":updated_at")];
    assert "updated_at"[0] != '#';
    assert ResolvePath("updated_at", names) == Some("updated_at");
    assert tail[1..] == [];
  }

  /** An eligible input pair is what `update` writes for its attribute. */
  lemma WrittenValue(attrs: seq<(string, Json)>, i: int)
    requires DistinctKeys(attrs)
    requires 0 <= i < |attrs| && Eligible1(attrs[i])
    ensures attrs[i].0 in Written(Eligible(attrs)) && Written(Eligible(attrs))[attrs[i].0] == attrs[i].1
  {
    var e := Eligible(attrs);
    assert attrs[i] in e;
    var j :| 0 <= j < |e| && e[j] == attrs[i];
  }

  /** `update` never writes the key attribute. */
  lemma KeyNotWritten(attrs: seq<(string, Json)>)
    ensures "user_id" !in KeysOf(Eligible(attrs))
  {
    var e := Eligible(attrs);
    forall j | 0 <= j < |e| ensures e[j].0 != "user_id" {
      assert e[j] in e;
    }
  }

  /** The allowed attributes are neither the key nor the timestamp. */
  lemma UpdatableNames(k: string)
    requires k in Updatable
    ensures k != "updated_at" && k != "user_id"
  {
  }

  lemma OverlayGet(base: Item, w: map<string, Json>, zone: string, a: string)
    ensures Get((base + w)["updated_at" := Str(zone)], a)
      == if a == "updated_at" then Str(zone) else if a in w then w[a] else Get(base, a)
  {
  }

  /** The item `update` leaves, attribute by attribute. */
  lemma WrittenItem(attrs: seq<(string, Json)>, base: Item, zone: string)
    requires DistinctKeys(attrs)
    ensures var item := (base + Written(Eligible(attrs)))["updated_at" := Str(zone)];
      && Get(item, "updated_at") == Str(zone)
      && (forall i | 0 <= i < |attrs| && Eligible1(attrs[i]) :: Get(item, attrs[i].0) == attrs[i].1)
      && (forall a | a != "updated_at" && a !in KeysOf(Eligible(attrs)) :: Get(item, a) == Get(base, a))
      && Get(item, "user_id") == Get(base, "user_id")
  {
    var e := Eligible(attrs);
    var w := Written(e);
    var item := (base + w)["updated_at" := Str(zone)];
    OverlayGet(base, w, zone, "updated_at");
    forall i | 0 <= i < |attrs| && Eligible1(attrs[i])
      ensures Get(item, attrs[i].0) == attrs[i].1
    {
      WrittenValue(attrs, i);
      UpdatableNames(attrs[i].0);
      OverlayGet(base, w, zone, attrs[i].0);
    }
    forall a | a != "updated_at" && a !in KeysOf(e) ensures Get(item, a) == Get(base, a) {
      OverlayGet(base, w, zone, a);
    }
    KeyNotWritten(attrs);
    OverlayGet(base, w, zone, "user_id");
  }

  /** The item the service leaves after `update` sends its request for a
      non-empty set of written pairs, starting from `base`. */
  function UpdatedRecord(base: Item, attrs: seq<(string, Json)>, zone: string): (item: Item)
    requires DistinctKeys(attrs)
    requires Eligible(attrs) != []
    ensures Get(item, "updated_at") == Str(zone)
    ensures forall i | 0 <= i < |attrs| && Eligible1(attrs[i]) :: Get(item, attrs[i].0) == attrs[i].1
    ensures forall a | a != "updated_at" && a !in KeysOf(Eligible(attrs)) :: Get(item, a) == Get(base, a)
    ensures Get(item, "user_id") == Get(base, "user_id")
  {
    var e := Eligible(attrs);
    var req := BuildRequest(e, zone);
    assert forall i | 0 <= i < |e| :: e[i] in e;
    UpdatedItem(base, e, zone);
    WrittenItem(attrs, base, zone);
    Apply(base, req.clauses, req.names, req.values)
  }

  /** `update`: writes the allowed, non-nil attributes and updated_at; with
      nothing to write it performs no write and returns `find_by_user_id`. */
  function Update(t: Table, userId: string, attrs: seq<(string, Json)>, zone: string): (r: (Table, Option<Item>))
    requires DistinctKeys(attrs)
    ensures Eligible(attrs) == [] ==> r.0 == t && r.1 == FindByUserId(t, userId)
    ensures Eligible(attrs) != [] ==>
      && r.0.Keys == t.Keys + {userId}
      && (forall k | k in t && k != userId :: r.0[k] == t[k])
      && r.0[userId] == UpdatedRecord(Current(t, userId), attrs, zone)
      && r.1 == Some(Normalize(r.0[userId]))
    ensures WellKeyed(t) ==> WellKeyed(r.0)
  {
    var e := Eligible(attrs);
    if e == [] then (t, FindByUserId(t, userId))
    else
      var item := UpdatedRecord(Current(t, userId), attrs, zone);
      (PutItem(t, userId, item), Some(Normalize(item)))
  }

  /** An attribute is written by `update` exactly when the input has it with an
      allowed name and a non-nil value. */
  lemma WrittenIff(attrs: seq<(string, Json)>, a: string)
    ensures a in KeysOf(Eligible(attrs)) <==> exists i :: 0 <= i < |attrs| && attrs[i].0 == a && Eligible1(attrs[i])
  {
    var e := Eligible(attrs);
    if a in KeysOf(e) {
      var j :| 0 <= j < |e| && e[j].0 == a;
      assert e[j] in attrs;
    }
    if exists i :: 0 <= i < |attrs| && attrs[i].0 == a && Eligible1(attrs[i]) {
      var i :| 0 <= i < |attrs| && attrs[i].0 == a && Eligible1(attrs[i]);
      assert attrs[i] in e;
    }
  }

  /** A created record reads back with its email and status, and without the
      name, role and workspace it was stored with. */
  lemma CreateThenFind(t: Table, userId: string, workspaceId: Json, email: Json,
                       name: Option<Json>, role: Option<Json>, status: Option<Json>, now: string)
    requires userId !in t
    ensures var t' := Create(t, userId, workspaceId, email, name, role, status, None, None, now).0;
      && FindByUserId(t', userId).Some?
      && FindByUserId(t', userId).value["email"] == email
      && FindByUserId(t', userId).value["status"] == ArgOr(status, DefaultStatus)
      && FindByUserId(t', userId).value["created_at"] == Str(now)
      && FindByUserId(t', userId).value["meeting_title"] == Null
  {
  }
}
