/** The two form requests that guard writing a post: who may submit one
    (`authorize`) and what the body must contain (`rules`), and the
    validated data each hands to the controller. */
module PostRequests {
  import opened Types
  import DateFormat
  import opened Validation

  /** The fields of a create or update request that the rules mention. */
  datatype PostPayload = PostPayload(title: Field, body: Field, imagePath: Field, publishedAt: Field)

  /** What a create request hands on: `image_path` and `published_at` are
      `None` when they were missing or null. */
  datatype StoreData = StoreData(title: string, body: string, imagePath: Option<string>,
                                 publishedAt: Option<DateFormat.DateTime>)

  /** What an update request hands on: the outer `None` means the field was
      missing and is left alone; `Some(None)` means it was sent as null. */
  datatype UpdateData = UpdateData(title: Option<string>, body: Option<string>,
                                   imagePath: Option<Option<string>>,
                                   publishedAt: Option<Option<DateFormat.DateTime>>)

  function TitlesOf(posts: map<nat, Post>): set<string> {
    set id | id in posts :: posts[id].title
  }

  /** The titles the update of post `id` must avoid: `unique` ignoring the
      row being updated. */
  function TitlesExcept(posts: map<nat, Post>, id: nat): set<string> {
    set k | k in posts && k != id :: posts[k].title
  }

  function StoreTitleRules(titles: set<string>): seq<Rule> {
    [Required, IsString, Max(255), UniqueAmong(titles)]
  }

  const StoreBodyRules: seq<Rule> := [Required, IsString]

  function UpdateTitleRules(otherTitles: set<string>): seq<Rule> {
    [Sometimes, Required, IsString, Max(255), UniqueAmong(otherTitles)]
  }

  const UpdateBodyRules: seq<Rule> := [Sometimes, Required, IsString]

  const ImagePathRules: seq<Rule> := [Nullable, IsString, Max(2048)]

  const PublishedAtRules: seq<Rule> := [Nullable, DateTimeFormat]

  function Normalized(p: PostPayload): PostPayload {
    PostPayload(Normalize(p.title), Normalize(p.body), Normalize(p.imagePath), Normalize(p.publishedAt))
  }

  /** The names of the fields of a create request that fail their rules. */
  function StoreErrors(p: PostPayload, titles: set<string>): set<string> {
    var n := Normalized(p);
    ErrorsOf("title", n.title, StoreTitleRules(titles), NoEmailRule)
    + ErrorsOf("body", n.body, StoreBodyRules, NoEmailRule)
    + ErrorsOf("image_path", n.imagePath, ImagePathRules, NoEmailRule)
    + ErrorsOf("published_at", n.publishedAt, PublishedAtRules, NoEmailRule)
  }

  function UpdateErrors(p: PostPayload, otherTitles: set<string>): set<string> {
    var n := Normalized(p);
    ErrorsOf("title", n.title, UpdateTitleRules(otherTitles), NoEmailRule)
    + ErrorsOf("body", n.body, UpdateBodyRules, NoEmailRule)
    + ErrorsOf("image_path", n.imagePath, ImagePathRules, NoEmailRule)
    + ErrorsOf("published_at", n.publishedAt, PublishedAtRules, NoEmailRule)
  }

  /** Missing, null or blank: a nullable field given this way is stored as
      null. */
  predicate Unset(f: Field) {
    f.Absent? || f.Null? || (f.Text? && IsBlank(f.text))
  }

  /** The field was sent as the date-time whose timestamp is `stamp`. */
  predicate SentAt(f: Field, stamp: int) {
    HasText(f) && DateFormat.Parse(f.text).Some? && DateFormat.ToTimestamp(DateFormat.Parse(f.text).value) == stamp
  }

  /** Text of a field that passed its rules, `None` for null or missing. */
  function TextOf(f: Field): Option<string> {
    if f.Text? then Some(f.text) else None
  }

  function DateOf(f: Field): Option<DateFormat.DateTime> {
    if HasText(f) then DateFormat.Parse(f.text) else None
  }

  lemma DateOfIsValid(f: Field)
    ensures DateOf(f).Some? ==> DateFormat.ValidDateTime(DateOf(f).value)
  {
    if DateOf(f).Some? {
      DateFormat.FormatParse(f.text);
    }
  }

  /** The value an update sets for an optional field: `None` when the field
      was missing, so it is not part of the validated data. */
  function Sent<T>(f: Field, v: T): Option<T> {
    if f.Absent? then None else Some(v)
  }

  /** A create request as the framework judges it: `authorize` (a signed-in
      user) and then the rules. */
  function ValidateStore(actor: Actor, p: PostPayload, titles: set<string>): (r: Result<StoreData, Failure>)
    ensures actor.Anonymous? <==> r == Err(Forbidden)
    ensures r.Ok? <==> actor.Authenticated? && StoreErrors(p, titles) == {}
    ensures r.Err? && actor.Authenticated? ==> r.error == Invalid(StoreErrors(p, titles))
    ensures r.Ok? ==> var d := r.value;
              && p.title == Text(d.title) && !IsBlank(d.title) && |d.title| <= 255 && d.title !in titles
              && p.body == Text(d.body) && !IsBlank(d.body)
              && (d.imagePath.None? <==> Unset(p.imagePath))
              && (d.imagePath.Some? ==> p.imagePath == Text(d.imagePath.value) && |d.imagePath.value| <= 2048)
              && (d.publishedAt.None? <==> Unset(p.publishedAt))
              && (d.publishedAt.Some? ==> HasText(p.publishedAt) && DateFormat.Parse(p.publishedAt.text) == d.publishedAt
                                          && DateFormat.ValidDateTime(d.publishedAt.value))
  {
    if actor.Anonymous? then Err(Forbidden)
    else
      var errors := StoreErrors(p, titles);
      if errors != {} then Err(Invalid(errors))
      else
        var n := Normalized(p);
        StoreErrorsExact(p, titles);
        DateOfIsValid(n.publishedAt);
        Ok(StoreData(n.title.text, n.body.text, TextOf(n.imagePath), DateOf(n.publishedAt)))
  }

  /** An update request: `authorize` (a signed-in user) and then the rules,
      with every field optional. */
  function ValidateUpdate(actor: Actor, p: PostPayload, otherTitles: set<string>): (r: Result<UpdateData, Failure>)
    ensures actor.Anonymous? <==> r == Err(Forbidden)
    ensures r.Ok? <==> actor.Authenticated? && UpdateErrors(p, otherTitles) == {}
    ensures r.Err? && actor.Authenticated? ==> r.error == Invalid(UpdateErrors(p, otherTitles))
    ensures r.Ok? ==> var d := r.value;
              && (d.title.Some? <==> !p.title.Absent?)
              && (d.title.Some? ==> p.title == Text(d.title.value) && !IsBlank(d.title.value)
                                    && |d.title.value| <= 255 && d.title.value !in otherTitles)
              && (d.body.Some? <==> !p.body.Absent?)
              && (d.body.Some? ==> p.body == Text(d.body.value) && !IsBlank(d.body.value))
              && (d.imagePath.Some? <==> !p.imagePath.Absent?)
              && (d.imagePath.Some? ==> (d.imagePath.value.None? <==> Unset(p.imagePath)))
              && (d.imagePath.Some? && d.imagePath.value.Some? ==>
                    p.imagePath == Text(d.imagePath.value.value) && |d.imagePath.value.value| <= 2048)
              && (d.publishedAt.Some? <==> !p.publishedAt.Absent?)
              && (d.publishedAt.Some? ==> (d.publishedAt.value.None? <==> Unset(p.publishedAt)))
              && (d.publishedAt.Some? && d.publishedAt.value.Some? ==>
                    HasText(p.publishedAt) && DateFormat.Parse(p.publishedAt.text) == d.publishedAt.value
                    && DateFormat.ValidDateTime(d.publishedAt.value.value))
  {
    if actor.Anonymous? then Err(Forbidden)
    else
      var errors := UpdateErrors(p, otherTitles);
      if errors != {} then Err(Invalid(errors))
      else
        var n := Normalized(p);
        UpdateErrorsExact(p, otherTitles);
        DateOfIsValid(n.publishedAt);
        Ok(UpdateData(TextOf(n.title), TextOf(n.body),
                      Sent(n.imagePath, TextOf(n.imagePath)), Sent(n.publishedAt, DateOf(n.publishedAt))))
  }

  /** Which field of a create request fails, stated on the raw request. */
  lemma StoreErrorsExact(p: PostPayload, titles: set<string>)
    ensures "title" in StoreErrors(p, titles) <==>
              !(p.title.Text? && !IsBlank(p.title.text) && |p.title.text| <= 255 && p.title.text !in titles)
    ensures "body" in StoreErrors(p, titles) <==> !(p.body.Text? && !IsBlank(p.body.text))
    ensures "image_path" in StoreErrors(p, titles) <==>
              p.imagePath.Scalar? || p.imagePath.Structured? ||
              (p.imagePath.Text? && !IsBlank(p.imagePath.text) && |p.imagePath.text| > 2048)
    ensures "published_at" in StoreErrors(p, titles) <==>
              p.publishedAt.Structured? ||
              (p.publishedAt.Scalar? && DateFormat.Parse(p.publishedAt.text).None?) ||
              (p.publishedAt.Text? && !IsBlank(p.publishedAt.text) && DateFormat.Parse(p.publishedAt.text).None?)
    ensures StoreErrors(p, titles) <= {"title", "body", "image_path", "published_at"}
  {
    var n := Normalized(p);
    assert [Required, IsString, Max(255)] + [UniqueAmong(titles)] == StoreTitleRules(titles);
    RequiredBoundedText(n.title, 255, [UniqueAmong(titles)], NoEmailRule);
    UniqueOnly(n.title, titles);
    RequiredText(n.body);
    NullableBoundedText(n.imagePath, 2048, NoEmailRule);
    NullableDate(n.publishedAt, NoEmailRule);
  }

  /** Which field of an update request fails, stated on the raw request: a
      missing field never does. */
  lemma UpdateErrorsExact(p: PostPayload, otherTitles: set<string>)
    ensures "title" in UpdateErrors(p, otherTitles) <==>
              !p.title.Absent? &&
              !(p.title.Text? && !IsBlank(p.title.text) && |p.title.text| <= 255 && p.title.text !in otherTitles)
    ensures "body" in UpdateErrors(p, otherTitles) <==> !p.body.Absent? && !(p.body.Text? && !IsBlank(p.body.text))
    ensures "image_path" in UpdateErrors(p, otherTitles) <==>
              p.imagePath.Scalar? || p.imagePath.Structured? ||
              (p.imagePath.Text? && !IsBlank(p.imagePath.text) && |p.imagePath.text| > 2048)
    ensures "published_at" in UpdateErrors(p, otherTitles) <==>
              p.publishedAt.Structured? ||
              (p.publishedAt.Scalar? && DateFormat.Parse(p.publishedAt.text).None?) ||
              (p.publishedAt.Text? && !IsBlank(p.publishedAt.text) && DateFormat.Parse(p.publishedAt.text).None?)
    ensures UpdateErrors(p, otherTitles) <= {"title", "body", "image_path", "published_at"}
  {
    var n := Normalized(p);
    SometimesSkips(n.title, [Required, IsString, Max(255), UniqueAmong(otherTitles)], NoEmailRule);
    assert [Sometimes] + [Required, IsString, Max(255), UniqueAmong(otherTitles)] == UpdateTitleRules(otherTitles);
    assert [Required, IsString, Max(255)] + [UniqueAmong(otherTitles)] == [Required, IsString, Max(255), UniqueAmong(otherTitles)];
    RequiredBoundedText(n.title, 255, [UniqueAmong(otherTitles)], NoEmailRule);
    UniqueOnly(n.title, otherTitles);
    SometimesSkips(n.body, [Required, IsString], NoEmailRule);
    assert [Sometimes] + [Required, IsString] == UpdateBodyRules;
    RequiredText(n.body);
    NullableBoundedText(n.imagePath, 2048, NoEmailRule);
    NullableDate(n.publishedAt, NoEmailRule);
  }

  lemma UniqueOnly(f: Field, taken: set<string>)
    ensures FieldPasses(f, [UniqueAmong(taken)], NoEmailRule) <==>
              !((f.Scalar? || (f.Text? && !IsBlank(f.text))) && f.text in taken)
  {
    if (f.Scalar? || (f.Text? && !IsBlank(f.text))) && f.text in taken {
      assert Applies([UniqueAmong(taken)][0], f, false);
    }
  }

  lemma RequiredText(f: Field)
    ensures FieldPasses(f, [Required, IsString], NoEmailRule) <==> f.Text? && !IsBlank(f.text)
  {
    var rules := [Required, IsString];
    assert Sometimes !in rules && Nullable !in rules;
    assert Applies(rules[0], f, false);
    if f.Scalar? || f.Structured? {
      assert Applies(rules[1], f, false);
    }
  }

  /** Re-sending a post's own title passes `unique` when no other post has
      that title. */
  lemma OwnTitleStaysAvailable(posts: map<nat, Post>, id: nat)
    requires id in posts
    requires forall k :: k in posts && k != id ==> posts[k].title != posts[id].title
    ensures posts[id].title !in TitlesExcept(posts, id)
    ensures posts[id].title in TitlesOf(posts)
  {
  }

  /** Only signed-in requesters get past either request's `authorize`. */
  lemma AuthorizeIsSignedIn(actor: Actor, p: PostPayload, titles: set<string>)
    ensures ValidateStore(actor, p, titles) == Err(Forbidden) <==> actor.Anonymous?
    ensures ValidateUpdate(actor, p, titles) == Err(Forbidden) <==> actor.Anonymous?
  {
  }
}
