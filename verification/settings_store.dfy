/** `UserSettingsRepository`: per-user settings kept in the same table as the
    user record. Its save is a whole-item put, so it replaces whatever the user
    repository stored under the same `user_id`. `now` stands for the ISO-8601
    text of `Time.current`. */
module SettingsStore {
  import opened Values
  import opened Dynamo
  import UserStore

  /** The attributes `normalize_item` returns and `create_or_update` writes. */
  const SettingsView: set<string> :=
    {"user_id", "meeting_title", "auto_delete_days", "slack_webhook_url", "created_at", "updated_at"}

  /** The attributes the user repository writes that a settings save does not. */
  const ProfileAttributes: set<string> := {"workspace_id", "email", "name", "role", "status"}

  /** `normalize_item`. */
  function Normalize(item: Item): (r: Item)
    ensures r.Keys == SettingsView
    ensures forall k | k in SettingsView :: r[k] == Get(item, k)
  {
    Project(item, SettingsView)
  }

  /** `find_by_user_id`: nil for an absent user, else exactly the six settings fields. */
  function FindByUserId(t: Table, userId: string): (r: Option<Item>)
    ensures r.None? <==> userId !in t
    ensures r.Some? ==> r.value.Keys == SettingsView
    ensures r.Some? ==> forall k | k in SettingsView :: r.value[k] == Get(t[userId], k)
  {
    Find(t, userId, SettingsView)
  }

  /** The `created_at` a save keeps: the stored one when it is truthy, else `now`. */
  function KeptCreatedAt(t: Table, userId: string, now: string): (c: Json)
    ensures userId !in t ==> c == Str(now)
    ensures userId in t && RubyTruthy(Get(t[userId], "created_at")) ==> c == t[userId]["created_at"]
    ensures userId in t && !RubyTruthy(Get(t[userId], "created_at")) ==> c == Str(now)
  {
    var existing := FindByUserId(t, userId);
    if existing.Some? && RubyTruthy(existing.value["created_at"]) then existing.value["created_at"] else Str(now)
  }

  /** `create_or_update`: puts a whole new item holding the three settings (nil
      when absent from the input), the user id and the timestamps, and returns it. */
  function CreateOrUpdate(t: Table, userId: string, attrs: map<string, Json>, now: string): (r: (Table, Item))
    ensures r.0.Keys == t.Keys + {userId}
    ensures r.0[userId] == r.1
    ensures r.1.Keys == SettingsView
    ensures r.1["user_id"] == Str(userId)
    ensures r.1["meeting_title"] == Get(attrs, "meeting_title")
    ensures r.1["auto_delete_days"] == Get(attrs, "auto_delete_days")
    ensures r.1["slack_webhook_url"] == Get(attrs, "slack_webhook_url")
    ensures r.1["created_at"] == KeptCreatedAt(t, userId, now)
    ensures r.1["updated_at"] == Str(now)
    ensures forall a | a in ProfileAttributes :: a !in r.0[userId]
    ensures forall k | k in t && k != userId :: r.0[k] == t[k]
    ensures WellKeyed(t) ==> WellKeyed(r.0)
  {
    var item := SettingsItem(userId, attrs, KeptCreatedAt(t, userId, now), now);
    (PutItem(t, userId, item), item)
  }

  /** The item a save puts. */
  function SettingsItem(userId: string, attrs: map<string, Json>, createdAt: Json, now: string): (item: Item)
    ensures item.Keys == SettingsView
    ensures item["user_id"] == Str(userId)
    ensures item["meeting_title"] == Get(attrs, "meeting_title")
    ensures item["auto_delete_days"] == Get(attrs, "auto_delete_days")
    ensures item["slack_webhook_url"] == Get(attrs, "slack_webhook_url")
    ensures item["created_at"] == createdAt
    ensures item["updated_at"] == Str(now)
  {
    map[
      "user_id" := Str(userId),
      "meeting_title" := Get(attrs, "meeting_title"),
      "auto_delete_days" := Get(attrs, "auto_delete_days"),
      "slack_webhook_url" := Get(attrs, "slack_webhook_url"),
      "created_at" := createdAt,
      "updated_at" := Str(now)]
  }

  /** The hash a save returns is what a later read returns. */
  lemma SaveThenFind(t: Table, userId: string, attrs: map<string, Json>, now: string)
    ensures var r := CreateOrUpdate(t, userId, attrs, now);
      FindByUserId(r.0, userId) == Some(r.1)
  {
    var r := CreateOrUpdate(t, userId, attrs, now);
    assert Normalize(r.1) == r.1;
  }

  /** Saving settings for a user who signed up erases the sign-up record: the
      user repository then reads nil email and status, while created_at survives. */
  lemma SaveErasesUserRecord(t: Table, userId: string, email: Json, now0: string,
                             attrs: map<string, Json>, now1: string)
    requires userId !in t
    requires email != Null
    ensures var t1 := UserStore.Create(t, userId, Null, email, None, None, None, None, None, now0).0;
      var t2 := CreateOrUpdate(t1, userId, attrs, now1).0;
      && UserStore.FindByUserId(t1, userId).value["email"] == email
      && UserStore.FindByUserId(t1, userId).value["status"] == UserStore.DefaultStatus
      && UserStore.FindByUserId(t2, userId).value["email"] == Null
      && UserStore.FindByUserId(t2, userId).value["status"] == Null
      && UserStore.FindByUserId(t2, userId).value["created_at"] == Str(now0)
  {
  }
}
