/** The decisions of the post controller that do not touch storage: which
    rows a requester's listing holds, in what order and how it is cut into
    pages; what `show` answers; which policy rule each resource action is
    wired to; and the records `store` and `update` write. The writes
    themselves are methods of `Blog.Blog`. */
module PostController {
  import opened Types
  import DateFormat
  import PostPolicy
  import Routes
  import opened PostRequests

  // ---------------------------------------------------------------- index

  /** The listing filter: signed-in admins and editors see every post;
      everyone else only posts whose `published_at` is set and not after
      `now` (note: `<=`, where the view rule uses `<`). */
  predicate Listed(actor: Actor, post: Post, now: int) {
    (actor.Authenticated? && (actor.role == Admin || actor.role == Editor))
    || (post.publishedAt.Some? && post.publishedAt.value <= now)
  }

  function FilterListed(actor: Actor, rows: seq<Post>, now: int): (r: seq<Post>)
    ensures forall i :: 0 <= i < |r| ==> Listed(actor, r[i], now)
    ensures forall p :: multiset(r)[p] == if Listed(actor, p, now) then multiset(rows)[p] else 0
    ensures |r| <= |rows|
  {
    if rows == [] then []
    else
      var rest := FilterListed(actor, rows[1..], now);
      assert rows == [rows[0]] + rows[1..];
      if Listed(actor, rows[0], now) then [rows[0]] + rest else rest
  }

  /** Newest `updated_at` first. */
  predicate ByLatest(s: seq<Post>) {
    forall i, j :: 0 <= i < j < |s| ==> s[i].updatedAt >= s[j].updatedAt
  }

  function InsertByLatest(p: Post, s: seq<Post>): (r: seq<Post>)
    requires ByLatest(s)
    ensures ByLatest(r)
    ensures multiset(r) == multiset(s) + multiset{p}
    ensures |r| == |s| + 1
  {
    if s == [] then [p]
    else if p.updatedAt >= s[0].updatedAt then
      PrependByLatest(p, s);
      [p] + s
    else
      var rest := InsertByLatest(p, s[1..]);
      assert s == [s[0]] + s[1..];
      NoneNewerInserted(p, s, rest);
      PrependByLatest(s[0], rest);
      [s[0]] + rest
  }

  lemma NoneNewerInserted(p: Post, s: seq<Post>, rest: seq<Post>)
    requires ByLatest(s) && s != [] && p.updatedAt < s[0].updatedAt
    requires multiset(rest) == multiset(s[1..]) + multiset{p}
    ensures forall k :: 0 <= k < |rest| ==> rest[k].updatedAt <= s[0].updatedAt
  {
    forall k | 0 <= k < |rest| ensures rest[k].updatedAt <= s[0].updatedAt {
      var x := rest[k];
      assert x in multiset(rest);
      if x != p {
        assert x in multiset(s[1..]);
        var j :| 0 <= j < |s[1..]| && s[1..][j] == x;
        assert s[j + 1] == x;
      }
    }
  }

  lemma PrependByLatest(x: Post, t: seq<Post>)
    requires ByLatest(t)
    requires forall k :: 0 <= k < |t| ==> t[k].updatedAt <= x.updatedAt
    ensures ByLatest([x] + t)
  {
    var u := [x] + t;
    forall i, j | 0 <= i < j < |u| ensures u[i].updatedAt >= u[j].updatedAt {
      assert u[j] == t[j - 1];
      if i > 0 { assert u[i] == t[i - 1]; }
    }
  }

  /** `latest('updated_at')`: the rows ordered newest first. */
  function SortByLatest(rows: seq<Post>): (r: seq<Post>)
    ensures ByLatest(r)
    ensures multiset(r) == multiset(rows)
    ensures |r| == |rows|
  {
    if rows == [] then []
    else
      assert rows == [rows[0]] + rows[1..];
      InsertByLatest(rows[0], SortByLatest(rows[1..]))
  }

  const PerPage: nat := 10

  /** The page number the paginator uses: the requested one when it is a
      whole number of at least 1, the first page otherwise. */
  function ResolvePage(requested: Option<int>): (page: nat)
    ensures page >= 1
    ensures requested.Some? && requested.value >= 1 ==> page == requested.value
    ensures !(requested.Some? && requested.value >= 1) ==> page == 1
  {
    if requested.Some? && requested.value >= 1 then requested.value else 1
  }

  /** How many of `total` rows page `page` holds: a full page while rows
      remain, the rest on the last page, none after it. */
  function PageLength(total: nat, page: nat): nat
    requires page >= 1
  {
    var start := (page - 1) * PerPage;
    if start >= total then 0 else if total - start < PerPage then total - start else PerPage
  }

  /** Page `page` of `rows`: the rows from `(page - 1) * PerPage` on, as
      many as fit on a page and as remain. */
  function PageOf(rows: seq<Post>, page: nat): (r: seq<Post>)
    requires page >= 1
    ensures |r| <= PerPage
    ensures forall i :: 0 <= i < |r| ==> (page - 1) * PerPage + i < |rows| && r[i] == rows[(page - 1) * PerPage + i]
    ensures |r| == PageLength(|rows|, page)
  {
    var start := (page - 1) * PerPage;
    if start >= |rows| then []
    else if start + PerPage <= |rows| then rows[start..start + PerPage]
    else rows[start..]
  }

  /** The JSON page the listing answers with. */
  datatype Paginated = Paginated(data: seq<Post>, total: nat, perPage: nat, currentPage: nat, lastPage: nat)

  function LastPage(total: nat): (n: nat)
    ensures n >= 1
    ensures (n - 1) * PerPage < total || (total == 0 && n == 1)
    ensures total <= n * PerPage
  {
    if total == 0 then 1 else (total + PerPage - 1) / PerPage
  }

  /** Exactly the pages from 1 to the last one hold rows, when there are
      any rows at all. */
  lemma PagesUpToLast(total: nat, page: nat)
    requires page >= 1
    ensures PageLength(total, page) > 0 <==> total > 0 && page <= LastPage(total)
  {
    if total > 0 {
      var n := LastPage(total);
      assert (n - 1) * PerPage < total <= n * PerPage;
      if page <= n {
        assert (page - 1) * PerPage <= (n - 1) * PerPage;
      } else {
        assert (page - 1) * PerPage >= n * PerPage;
      }
    }
  }

  /** `index`: filter by requester, order newest first, cut page `page`. */
  function Index(actor: Actor, rows: seq<Post>, now: int, requested: Option<int>): (r: Paginated)
    ensures r.data == PageOf(SortByLatest(FilterListed(actor, rows, now)), ResolvePage(requested))
    ensures |r.data| <= PerPage && r.perPage == PerPage
    ensures r.currentPage == ResolvePage(requested)
    ensures |r.data| == PageLength(r.total, r.currentPage)
    ensures forall i :: 0 <= i < |r.data| ==> Listed(actor, r.data[i], now) && r.data[i] in rows
    ensures forall i, j :: 0 <= i < j < |r.data| ==> r.data[i].updatedAt >= r.data[j].updatedAt
    ensures r.total == |FilterListed(actor, rows, now)| && r.total <= |rows|
    ensures r.lastPage == LastPage(r.total)
  {
    var listed := FilterListed(actor, rows, now);
    var page := ResolvePage(requested);
    var ordered := SortByLatest(listed);
    OrderedListingFacts(actor, rows, now);
    var data := PageOf(ordered, page);
    assert |data| == PageLength(|listed|, page);
    Paginated(data, |listed|, PerPage, page, LastPage(|listed|))
  }

  /** Every row of the ordered listing is listed for the requester and comes
      from the table. */
  lemma OrderedListingFacts(actor: Actor, rows: seq<Post>, now: int)
    ensures forall x :: x in SortByLatest(FilterListed(actor, rows, now)) ==> Listed(actor, x, now) && x in rows
  {
    var listed := FilterListed(actor, rows, now);
    var ordered := SortByLatest(listed);
    forall x | x in ordered ensures Listed(actor, x, now) && x in rows {
      assert x in multiset(ordered);
      assert multiset(listed)[x] > 0;
      assert x in multiset(rows);
    }
  }

  /** Every signed-in requester (admin or editor) gets all rows. */
  lemma {:induction false} StaffSeeEverything(actor: Actor, rows: seq<Post>, now: int)
    requires actor.Authenticated?
    ensures FilterListed(actor, rows, now) == rows
  {
    if rows != [] {
      StaffSeeEverything(actor, rows[1..], now);
      assert rows == [rows[0]] + rows[1..];
    }
  }

  /** A guest's listing holds exactly the published rows dated up to now,
      each as often as the table has it. */
  lemma GuestSeesPublishedOnly(rows: seq<Post>, now: int, p: Post)
    ensures p in FilterListed(Anonymous, rows, now) <==>
              p in rows && p.publishedAt.Some? && p.publishedAt.value <= now
  {
    var r := FilterListed(Anonymous, rows, now);
    assert p in r <==> multiset(r)[p] > 0;
    assert p in rows <==> multiset(rows)[p] > 0;
  }

  /** Consecutive pages partition the ordered listing: the row at place `i`
      of page `page` is the row at place `(page - 1) * 10 + i` overall. */
  lemma PagesFollowOrder(actor: Actor, rows: seq<Post>, now: int, page: nat, i: nat)
    requires page >= 1
    requires i < |Index(actor, rows, now, Some(page)).data|
    ensures Index(actor, rows, now, Some(page)).data[i] ==
              SortByLatest(FilterListed(actor, rows, now))[(page - 1) * PerPage + i]
  {
    var ordered := SortByLatest(FilterListed(actor, rows, now));
    var data := PageOf(ordered, page);
    assert ResolvePage(Some(page)) == page;
    assert Index(actor, rows, now, Some(page)).data == data;
    assert data[i] == ordered[(page - 1) * PerPage + i];
  }

  /** The boundary the two rules disagree on: a post dated exactly `now` is
      in a guest's listing, yet the policy refuses to show it to that guest;
      at every other instant the two rules agree for guests. */
  lemma ListedButNotViewableAtNow(post: Post, now: int)
    ensures post.publishedAt == Some(now) ==>
              Listed(Anonymous, post, now) && !PostPolicy.View(Anonymous, post, now)
    ensures Listed(Anonymous, post, now) && !PostPolicy.View(Anonymous, post, now) <==>
              post.publishedAt == Some(now)
    ensures PostPolicy.View(Anonymous, post, now) ==> Listed(Anonymous, post, now)
  {
  }

  // ------------------------------------------------------ resource wiring

  /** `authorizeResource`: the policy rule each post route is checked
      against, with the post the route is bound to. */
  function ResourceAbility(r: Routes.Route, post: Post): (a: Option<PostPolicy.Ability>)
    ensures a.Some? <==> r in {Routes.ListPosts, Routes.ShowPost, Routes.StorePost, Routes.UpdatePost, Routes.DestroyPost}
  {
    match r
    case ListPosts => Some(PostPolicy.ViewAnyPosts)
    case ShowPost => Some(PostPolicy.ViewPost(post))
    case StorePost => Some(PostPolicy.CreatePost)
    case UpdatePost => Some(PostPolicy.UpdatePost(post))
    case DestroyPost => Some(PostPolicy.DeletePost(post))
    case _ => None
  }

  /** Update and destroy are guarded by the same verdict, creating needs a
      signed-in user, listing is open to all, and showing follows `view`. */
  lemma ResourceWiring(actor: Actor, post: Post, now: int)
    ensures PostPolicy.Allows(actor, ResourceAbility(Routes.ShowPost, post).value, now) ==
            PostPolicy.View(actor, post, now)
    ensures PostPolicy.Allows(actor, ResourceAbility(Routes.UpdatePost, post).value, now) ==
            PostPolicy.Allows(actor, ResourceAbility(Routes.DestroyPost, post).value, now)
    ensures PostPolicy.Allows(actor, ResourceAbility(Routes.StorePost, post).value, now) <==> actor.Authenticated?
    ensures PostPolicy.Allows(actor, ResourceAbility(Routes.ListPosts, post).value, now)
  {
  }

  // ----------------------------------------------------------------- show

  /** `show`: the post bound from the slug, if the requester may view it;
      403 otherwise, 404 when no post has the slug. */
  function Show(actor: Actor, bound: Option<Post>, now: int): (r: Result<Post, Failure>)
    ensures bound.None? ==> r == Err(NotFound)
    ensures bound.Some? ==> (r.Ok? <==> PostPolicy.Allows(actor, PostPolicy.ViewPost(bound.value), now))
    ensures r.Ok? ==> bound.Some? && r.value == bound.value
    ensures bound.Some? && r.Err? ==> r.error == Forbidden
  {
    match bound
    case None => Err(NotFound)
    case Some(p) => if PostPolicy.View(actor, p, now) then Ok(p) else Err(Forbidden)
  }

  // ----------------------------------------------------- records written

  function StampOf(d: Option<DateFormat.DateTime>): Option<int>
    requires d.Some? ==> DateFormat.ValidDateTime(d.value)
  {
    if d.Some? then Some(DateFormat.ToTimestamp(d.value)) else None
  }

  predicate DatesValid(d: StoreData) {
    d.publishedAt.Some? ==> DateFormat.ValidDateTime(d.publishedAt.value)
  }

  /** The row `store` inserts for validated data `d`. */
  function NewPost(id: nat, ownerId: nat, d: StoreData, slug: string, now: int): Post
    requires DatesValid(d)
  {
    Post(id, ownerId, d.title, d.body, slug, StampOf(d.publishedAt), d.imagePath, now, now)
  }

  predicate UpdateDatesValid(d: UpdateData) {
    d.publishedAt.Some? && d.publishedAt.value.Some? ==> DateFormat.ValidDateTime(d.publishedAt.value.value)
  }

  /** The attributes `update` fills before saving: each validated field,
      and a slug recomputed from the title whenever a title was sent. */
  function Filled(p: Post, d: UpdateData, slugOf: string -> string): Post
    requires UpdateDatesValid(d)
  {
    p.(title := if d.title.Some? then d.title.value else p.title,
       slug := if d.title.Some? then slugOf(d.title.value) else p.slug,
       body := if d.body.Some? then d.body.value else p.body,
       imagePath := if d.imagePath.Some? then d.imagePath.value else p.imagePath,
       publishedAt := if d.publishedAt.Some? then StampOf(d.publishedAt.value) else p.publishedAt)
  }

  /** Saving touches `updated_at` only when some attribute changed. */
  function ApplyUpdate(p: Post, d: UpdateData, slugOf: string -> string, now: int): Post
    requires UpdateDatesValid(d)
  {
    var q := Filled(p, d, slugOf);
    if q == p then p else q.(updatedAt := now)
  }

  /** What `store` writes: the requester owns the post, the slug comes from
      the title, title, body and image path are stored as sent, the sent
      date as its timestamp, and an image path or publication date that was
      missing, null or blank is stored as null. */
  lemma StoreRecord(actor: Actor, p: PostPayload, titles: set<string>, id: nat,
                    slugOf: string -> string, now: int)
    requires ValidateStore(actor, p, titles).Ok?
    ensures var d := ValidateStore(actor, p, titles).value;
            DatesValid(d) &&
            var post := NewPost(id, actor.id, d, slugOf(d.title), now);
            && post.ownerId == actor.id && post.id == id
            && p.title == Text(post.title) && post.slug == slugOf(post.title)
            && p.body == Text(post.body)
            && (post.imagePath.None? <==> Unset(p.imagePath))
            && (post.imagePath.Some? ==> p.imagePath == Text(post.imagePath.value))
            && (post.publishedAt.None? <==> Unset(p.publishedAt))
            && (post.publishedAt.Some? ==> SentAt(p.publishedAt, post.publishedAt.value))
            && post.createdAt == now && post.updatedAt == now
  {
    StoreErrorsExact(p, titles);
  }

  /** What `update` writes: id, owner and creation time never change; every
      sent field takes the sent value (a date as its timestamp) and the slug
      follows the title exactly when a title was sent; every field left out
      of the request keeps its value. */
  lemma UpdateRecord(p: Post, d: UpdateData, slugOf: string -> string, now: int)
    requires UpdateDatesValid(d)
    ensures var q := ApplyUpdate(p, d, slugOf, now);
            && q.id == p.id && q.ownerId == p.ownerId && q.createdAt == p.createdAt
            && (d.title.Some? ==> q.title == d.title.value && q.slug == slugOf(d.title.value))
            && (d.title.None? ==> q.title == p.title && q.slug == p.slug)
            && (d.body.Some? ==> q.body == d.body.value)
            && (d.body.None? ==> q.body == p.body)
            && (d.imagePath.Some? ==> q.imagePath == d.imagePath.value)
            && (d.imagePath.None? ==> q.imagePath == p.imagePath)
            && (d.publishedAt.Some? ==> q.publishedAt == StampOf(d.publishedAt.value))
            && (d.publishedAt.None? ==> q.publishedAt == p.publishedAt)
            && (q.updatedAt == p.updatedAt || q.updatedAt == now)
            && (q != p ==> q.updatedAt == now)
            && (q.(updatedAt := p.updatedAt) == p ==> q == p)
  {
  }

  /** An update that sends nothing leaves the row exactly as it was. */
  lemma EmptyUpdateIsNoOp(p: Post, slugOf: string -> string, now: int)
    ensures ApplyUpdate(p, UpdateData(None, None, None, None), slugOf, now) == p
  {
  }
}
