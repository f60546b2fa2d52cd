/** The blog: a table of posts behind a JSON API (create, read, update,
    delete, the published listing) and the post and listing pages, whose
    templates split the tags and fall back to a cut of the content when a post
    has no excerpt. The table is a map from id to post held by a store object.
    The id the database gives a new row, the clock and a commit that fails are
    parameters of the operations. */
module Blog {
  import opened Values
  import opened Text

  const RequiredFields: string := "Title, content, and author are required"
  const PostDeleted: string := "Post deleted successfully"
  /** The text of werkzeug's `NotFound`, which `get_or_404` raises for a missing id. */
  const NotFoundText: string :=
    "404 Not Found: The requested URL was not found on the server. If you entered the URL manually please check your spelling and try again."
  /** How much of the content a listing card shows when the post has no excerpt. */
  const ExcerptLength: nat := 150
  const Ellipsis: string := "..."

  datatype Post = Post(
    id: int,
    title: string,
    content: string,
    author: string,
    excerpt: string,
    tags: string,
    isPublished: bool,
    createdAt: int,
    updatedAt: int)

  /** A JSON request body for create or update: `None` for a key it does not carry. */
  datatype Payload = Payload(
    title: Option<string>,
    content: Option<string>,
    author: Option<string>,
    excerpt: Option<string>,
    tags: Option<string>,
    isPublished: Option<bool>)

  // ---------------------------------------------------------------------------
  // Create

  /** `data.get(key)` is truthy. */
  predicate Given(v: Option<string>) {
    v.Some? && v.value != ""
  }

  predicate HasRequiredFields(data: Payload) {
    Given(data.title) && Given(data.content) && Given(data.author)
  }

  /** The row `BlogPost(...)` builds from a valid body: the three required
      fields as given, the excerpt and tags empty and the post published unless
      the body says otherwise. Both timestamps are the creation time. */
  function NewPost(data: Payload, id: int, now: int): (p: Post)
    requires HasRequiredFields(data)
    ensures p.id == id && p.createdAt == now && p.updatedAt == now
    ensures p.title == data.title.value && p.content == data.content.value && p.author == data.author.value
    ensures p.title != "" && p.content != "" && p.author != ""
    ensures p.excerpt == (if data.excerpt.Some? then data.excerpt.value else "")
    ensures p.tags == (if data.tags.Some? then data.tags.value else "")
    ensures p.isPublished == (data.isPublished.None? || data.isPublished.value)
  {
    Post(id, data.title.value, data.content.value, data.author.value,
         data.excerpt.GetOr(""), data.tags.GetOr(""), data.isPublished.GetOr(true), now, now)
  }

  // ---------------------------------------------------------------------------
  // Update

  /** A body with no keys. */
  const EmptyPayload: Payload := Payload(None, None, None, None, None, None)

  /** The post after the update route's field assignments: every field whose
      key the body carries takes the body's value, every other field keeps its
      value, and the update time is refreshed. */
  function Patch(p: Post, data: Payload, now: int): Post {
    p.(title := data.title.GetOr(p.title),
       content := data.content.GetOr(p.content),
       author := data.author.GetOr(p.author),
       excerpt := data.excerpt.GetOr(p.excerpt),
       tags := data.tags.GetOr(p.tags),
       isPublished := data.isPublished.GetOr(p.isPublished),
       updatedAt := now)
  }

  /** An update changes a field only if the body carries its key, always sets
      the field to the carried value, and never touches the id or the creation time. */
  lemma PatchChangesOnlyCarriedKeys(p: Post, data: Payload, now: int)
    ensures var q := Patch(p, data, now);
      && q.id == p.id && q.createdAt == p.createdAt && q.updatedAt == now
      && (q.title != p.title ==> data.title.Some?) && (data.title.Some? ==> q.title == data.title.value)
      && (q.content != p.content ==> data.content.Some?) && (data.content.Some? ==> q.content == data.content.value)
      && (q.author != p.author ==> data.author.Some?) && (data.author.Some? ==> q.author == data.author.value)
      && (q.excerpt != p.excerpt ==> data.excerpt.Some?) && (data.excerpt.Some? ==> q.excerpt == data.excerpt.value)
      && (q.tags != p.tags ==> data.tags.Some?) && (data.tags.Some? ==> q.tags == data.tags.value)
      && (q.isPublished != p.isPublished ==> data.isPublished.Some?)
      && (data.isPublished.Some? ==> q.isPublished == data.isPublished.value)
  {
  }

  /** A body with no keys only refreshes the update time. */
  lemma PatchWithEmptyBody(p: Post, now: int)
    ensures Patch(p, EmptyPayload, now) == p.(updatedAt := now)
  {
  }

  /** Sending the same update twice is the same as sending it once. */
  lemma PatchIdempotent(p: Post, data: Payload, now: int)
    ensures Patch(Patch(p, data, now), data, now) == Patch(p, data, now)
  {
  }

  // ---------------------------------------------------------------------------
  // Lookup by id

  /** `BlogPost.query.get_or_404(post_id)`: the post, or 404 when there is none. */
  function Lookup(posts: map<int, Post>, id: int): (r: Response<Post>)
    ensures r.Error? <==> id !in posts
    ensures r.Error? ==> r == Error(404, NotFoundText)
    ensures r.Reply? ==> r.status == 200 && r.body == posts[id]
  {
    if id in posts then Reply(200, posts[id]) else Error(404, NotFoundText)
  }

  /** The JSON routes as written: `get_or_404` runs inside `try ... except
      Exception`, and werkzeug's `NotFound` is an `Exception`, so the handler
      catches it and answers 500 with its text instead of 404. */
  function ApiLookupAsWritten(posts: map<int, Post>, id: int): (r: Response<Post>)
    ensures r.Error? <==> id !in posts
    ensures r.Error? ==> r == Error(500, NotFoundText)
    ensures r.Reply? ==> r == Lookup(posts, id)
  {
    if id in posts then Reply(200, posts[id]) else Error(500, NotFoundText)
  }

  /** The update route as written, as its reply and the table after it: the
      lookup of `ApiLookupAsWritten`, then the patch and the commit, a failure
      of either rolled back. */
  function UpdateAsWritten(posts: map<int, Post>, id: int, data: Payload, now: int, dbError: Option<string>)
    : (r: (Response<Post>, map<int, Post>))
    ensures r.0.Error? ==> r.1 == posts
    ensures id !in posts ==> r.0 == Error(500, NotFoundText)
    ensures id in posts && dbError.Some? ==> r.0 == Error(500, dbError.value)
    ensures id in posts && dbError.None? ==>
              r == (Reply(200, Patch(posts[id], data, now)), posts[id := Patch(posts[id], data, now)])
  {
    match ApiLookupAsWritten(posts, id)
    case Error(status, message) => (Error(status, message), posts)
    case Reply(_, post) =>
      var patched := Patch(post, data, now);
      if dbError.Some? then (Error(500, dbError.value), posts)
      else (Reply(200, patched), posts[id := patched])
  }

  /** The delete route as written, as its reply and the table after it. */
  function DeleteAsWritten(posts: map<int, Post>, id: int, dbError: Option<string>)
    : (r: (Response<string>, map<int, Post>))
    ensures r.0.Error? ==> r.1 == posts
    ensures id !in posts ==> r.0 == Error(500, NotFoundText)
    ensures id in posts && dbError.Some? ==> r.0 == Error(500, dbError.value)
    ensures id in posts && dbError.None? ==> r == (Reply(200, PostDeleted), posts - {id})
  {
    match ApiLookupAsWritten(posts, id)
    case Error(status, message) => (Error(status, message), posts)
    case Reply(_, _) =>
      if dbError.Some? then (Error(500, dbError.value), posts)
      else (Reply(200, PostDeleted), posts - {id})
  }

  /** On an empty table, reading, updating or deleting post 1 through the JSON
      routes as written answers 500 and leaves the table empty, where the
      corrected lookup answers 404. */
  lemma ApiLookupAsWrittenAnswers500ForMissingId(data: Payload, now: int)
    ensures ApiLookupAsWritten(map[], 1).status == 500
    ensures UpdateAsWritten(map[], 1, data, now, None) == (Error(500, NotFoundText), map[])
    ensures DeleteAsWritten(map[], 1, None) == (Error(500, NotFoundText), map[])
    ensures Lookup(map[], 1).status == 404
  {
  }

  // ---------------------------------------------------------------------------
  // The published listing

  /** Newest first: creation times never increase along the list. */
  predicate NewestFirst(list: seq<Post>) {
    forall i, j :: 0 <= i < j < |list| ==> list[i].createdAt >= list[j].createdAt
  }

  /** The published posts among those with the given ids. */
  ghost function PublishedAmong(posts: map<int, Post>, ids: set<int>): set<Post> {
    set id | id in ids && id in posts && posts[id].isPublished :: posts[id]
  }

  /** A post no older than every entry of a newest-first list can head it. */
  lemma HeadNewestFirst(q: Post, rest: seq<Post>)
    requires NewestFirst(rest)
    requires forall x :: x in multiset(rest) ==> x.createdAt <= q.createdAt
    ensures NewestFirst([q] + rest)
  {
    var r := [q] + rest;
    forall i, j | 0 <= i < j < |r| ensures r[i].createdAt >= r[j].createdAt {
      assert r[j] == rest[j - 1];
      assert rest[j - 1] in multiset(rest);
      if i > 0 { assert r[i] == rest[i - 1]; }
    }
  }

  /** No entry after the head of a newest-first list is newer than the head. */
  lemma TailNoNewer(list: seq<Post>)
    requires NewestFirst(list) && list != []
    ensures forall x :: x in multiset(list[1..]) ==> x.createdAt <= list[0].createdAt
  {
    forall x | x in multiset(list[1..]) ensures x.createdAt <= list[0].createdAt {
      var k :| 0 <= k < |list[1..]| && list[1..][k] == x;
      assert list[k + 1] == x;
    }
  }

  /** `p` placed into a newest-first list before the first post not newer than it. */
  function InsertNewestFirst(p: Post, list: seq<Post>): (r: seq<Post>)
    requires NewestFirst(list)
    ensures NewestFirst(r)
    ensures multiset(r) == multiset(list) + multiset{p}
    decreases |list|
  {
    if list == [] || list[0].createdAt <= p.createdAt then
      HeadNewestFirst(p, list);
      [p] + list
    else
      var tail := list[1..];
      assert list == [list[0]] + tail;
      var rest := InsertNewestFirst(p, tail);
      TailNoNewer(list);
      assert forall x :: x in multiset(rest) ==> x == p || x in multiset(tail);
      HeadNewestFirst(list[0], rest);
      [list[0]] + rest
  }

  /** A listing of `posts` as `filter_by(is_published=True).order_by(created_at.desc())`
      returns it: newest first, and holding each published post exactly once
      and nothing else. */
  ghost predicate IsPublishedListing(posts: map<int, Post>, list: seq<Post>) {
    NewestFirst(list) && multiset(list) == multiset(PublishedAmong(posts, posts.Keys))
  }

  /** What a listing means for its entries: all published, all in the table
      under their own id, none twice, and every published post present. */
  lemma PublishedListingEntries(posts: map<int, Post>, list: seq<Post>)
    requires forall id :: id in posts ==> posts[id].id == id
    requires IsPublishedListing(posts, list)
    ensures forall i :: 0 <= i < |list| ==> list[i].isPublished && list[i].id in posts && posts[list[i].id] == list[i]
    ensures forall i, j :: 0 <= i < j < |list| ==> list[i] != list[j]
    ensures forall id :: id in posts && posts[id].isPublished ==> posts[id] in list
  {
    var published := PublishedAmong(posts, posts.Keys);
    forall i | 0 <= i < |list|
      ensures list[i].isPublished && list[i].id in posts && posts[list[i].id] == list[i]
    {
      assert list[i] in multiset(list);
      assert list[i] in published;
    }
    forall i, j | 0 <= i < j < |list| ensures list[i] != list[j] {
      var x := list[i];
      assert list == list[..i] + [x] + list[i + 1..j] + [list[j]] + list[j + 1..];
      assert multiset(list)[x] >= 1 + (if list[j] == x then 1 else 0);
      assert multiset(published)[x] <= 1;
    }
    forall id | id in posts && posts[id].isPublished ensures posts[id] in list {
      assert posts[id] in published;
      assert posts[id] in multiset(list);
    }
  }

  /** Adding one id to those already listed adds its post if it is published. */
  lemma PublishedAmongAddsOne(posts: map<int, Post>, ids: set<int>, id: int)
    requires forall k :: k in posts ==> posts[k].id == k
    requires id in posts && id !in ids
    ensures posts[id].isPublished ==>
              multiset(PublishedAmong(posts, ids + {id})) ==
              multiset(PublishedAmong(posts, ids)) + multiset{posts[id]}
    ensures !posts[id].isPublished ==> PublishedAmong(posts, ids + {id}) == PublishedAmong(posts, ids)
  {
    var before := PublishedAmong(posts, ids);
    var after := PublishedAmong(posts, ids + {id});
    if posts[id].isPublished {
      assert after == before + {posts[id]};
      assert posts[id] !in before;
    } else {
      assert after == before;
    }
  }

  /** A set of ids that is not empty has a member. */
  lemma NonEmptyHasMember(ids: set<int>)
    requires ids != {}
    ensures exists k :: k in ids
  {
    if forall k :: k !in ids {
      assert false;
    }
  }

  /** Some member of a non-empty set of ids; which one does not matter. */
  method AnyId(ids: set<int>) returns (id: int)
    requires ids != {}
    ensures id in ids
  {
    NonEmptyHasMember(ids);
    var k :| k in ids;
    id := k;
  }

  /** `listing` lists, newest first, the published posts among the ids `listed`. */
  ghost predicate ListedSoFar(posts: map<int, Post>, listed: set<int>, listing: seq<Post>) {
    NewestFirst(listing) && multiset(listing) == multiset(PublishedAmong(posts, listed))
  }

  /** One step of building the listing: taking one more id keeps `ListedSoFar`. */
  lemma ListingStep(posts: map<int, Post>, listed: set<int>, listing: seq<Post>, id: int)
    requires forall k :: k in posts ==> posts[k].id == k
    requires id in posts && id !in listed
    requires ListedSoFar(posts, listed, listing)
    ensures ListedSoFar(posts, listed + {id},
                        if posts[id].isPublished then InsertNewestFirst(posts[id], listing) else listing)
  {
    PublishedAmongAddsOne(posts, listed, id);
  }

  // ---------------------------------------------------------------------------
  // What the pages render

  /** The tag labels of the post page: none when the tags are empty
      (`{% if post.tags %}`), otherwise every comma-separated piece, stripped. */
  function TagLabels(tags: string): (r: seq<string>)
    ensures tags == "" ==> r == []
    ensures tags != "" ==>
              && |r| == |Split(tags, ',')|
              && forall i :: 0 <= i < |r| ==> r[i] == Strip(Split(tags, ',')[i], PythonWhitespace)
  {
    if tags == "" then []
    else
      var pieces := Split(tags, ',');
      seq(|pieces|, i requires 0 <= i < |pieces| => Strip(pieces[i], PythonWhitespace))
  }

  /** No label contains a comma or starts or ends with white space, and each is
      the trimmed text of one piece. */
  lemma {:induction false} TagLabelsAreCleanPieces(tags: string)
    ensures forall i :: 0 <= i < |TagLabels(tags)| ==>
              && ',' !in TagLabels(tags)[i]
              && (TagLabels(tags)[i] == [] ||
                  (TagLabels(tags)[i][0] !in PythonWhitespace &&
                   TagLabels(tags)[i][|TagLabels(tags)[i]| - 1] !in PythonWhitespace))
  {
    var r := TagLabels(tags);
    if tags != "" {
      var pieces := Split(tags, ',');
      forall i | 0 <= i < |r| ensures ',' !in r[i] {
        var a := LeadingCount(pieces[i], PythonWhitespace);
        assert CoreOf(r[i], pieces[i], a, PythonWhitespace);
        forall k | 0 <= k < |r[i]| ensures r[i][k] != ',' {
          assert r[i][k] == pieces[i][a + k];
        }
      }
    }
  }

  /** Tags written without white space render as their pieces, which join
      back into the stored text. */
  lemma TagLabelsOfTightTags(tags: string)
    requires tags != ""
    requires forall i :: 0 <= i < |tags| ==> tags[i] !in PythonWhitespace
    ensures TagLabels(tags) == Split(tags, ',')
    ensures Join(TagLabels(tags), ',') == tags
  {
    var pieces := Split(tags, ',');
    JoinSplit(tags, ',');
    forall i | 0 <= i < |pieces| ensures Strip(pieces[i], PythonWhitespace) == pieces[i] {
      PieceOfTightText(tags, i);
      var p := pieces[i];
      if p != [] {
        assert LeadingCount(p, PythonWhitespace) == 0;
        assert TrailingCount(p, PythonWhitespace) == 0;
      }
    }
  }

  /** Pieces of a text without white space have no white space either. */
  lemma {:induction false} PieceOfTightText(s: string, i: nat)
    requires forall k :: 0 <= k < |s| ==> s[k] !in PythonWhitespace
    requires i < |Split(s, ',')|
    ensures forall k :: 0 <= k < |Split(s, ',')[i]| ==> Split(s, ',')[i][k] !in PythonWhitespace
    decreases |s|
  {
    if s != [] {
      var rest := Split(s[1..], ',');
      forall k | 0 <= k < |s[1..]| ensures s[1..][k] !in PythonWhitespace {
        assert s[1..][k] == s[k + 1];
      }
      if s[0] == ',' {
        if i > 0 { PieceOfTightText(s[1..], i - 1); }
      } else {
        if i == 0 {
          PieceOfTightText(s[1..], 0);
        } else {
          PieceOfTightText(s[1..], i);
        }
      }
    }
  }

  function Min(a: int, b: int): int {
    if a <= b then a else b
  }

  /** The excerpt a listing card shows: the post's own excerpt, or the first
      150 characters of the content followed by `...` when the excerpt is empty. */
  function CardExcerpt(excerpt: string, content: string): string {
    if excerpt != "" then excerpt else content[..Min(ExcerptLength, |content|)] + Ellipsis
  }

  /** A card keeps a given excerpt; without one it shows a prefix of the content
      of at most 150 characters, the whole content when it fits, then `...`. */
  lemma CardExcerptFallback(excerpt: string, content: string)
    ensures excerpt != "" ==> CardExcerpt(excerpt, content) == excerpt
    ensures excerpt == "" ==>
              var r := CardExcerpt(excerpt, content);
              && |r| <= ExcerptLength + 3
              && |r| == Min(ExcerptLength, |content|) + 3
              && EndsWith(r, Ellipsis)
              && r[..|r| - 3] == content[..|r| - 3]
              && (|content| <= ExcerptLength ==> r == content + Ellipsis)
  {
  }

  /** The data the post page renders. */
  datatype PostPage = PostPage(post: Post, tagLabels: seq<string>)

  // ---------------------------------------------------------------------------
  // The store

  class BlogStore {
    /** The `blog_post` table, by id. */
    var posts: map<int, Post>

    /** Every row is stored under its own id. */
    ghost predicate Valid()
      reads this
    {
      forall id :: id in posts ==> posts[id].id == id
    }

    constructor ()
      ensures Valid() && posts == map[]
    {
      posts := map[];
    }

    /** POST /api/blog/posts. `id` is the unused id the database gives the new
        row, `now` the clock, `dbError` the text of a failing commit. Without
        a title, content or author the answer is 400 and nothing is stored; a
        failing commit is rolled back and answered with 500; otherwise the new
        post is stored and returned with 201. */
    method CreatePost(data: Payload, id: int, now: int, dbError: Option<string>)
      returns (response: Response<Post>)
      requires Valid()
      requires id !in posts
      modifies this
      ensures Valid()
      ensures !HasRequiredFields(data) ==>
                response == Error(400, RequiredFields) && posts == old(posts)
      ensures HasRequiredFields(data) && dbError.Some? ==>
                response == Error(500, dbError.value) && posts == old(posts)
      ensures HasRequiredFields(data) && dbError.None? ==>
                && response == Reply(201, NewPost(data, id, now))
                && posts == old(posts)[id := NewPost(data, id, now)]
    {
      if !HasRequiredFields(data) {
        return Error(400, RequiredFields);
      }
      var post := NewPost(data, id, now);
      match dbError {
        case Some(message) =>
          response := Error(500, message);
        case None =>
          posts := posts[id := post];
          response := Reply(201, post);
      }
    }

    /** GET /api/blog/posts/<id>. */
    function GetPost(id: int): (r: Response<Post>)
      reads this
      ensures r.Error? <==> id !in posts
      ensures r.Error? ==> r.status == 404
      ensures r.Reply? ==> r.body == posts[id]
    {
      Lookup(posts, id)
    }

    /** GET /blog/post/<id>: the post page, with its tags split into labels, or 404. */
    function PostPageFor(id: int): (r: Response<PostPage>)
      reads this
      ensures r.Error? <==> id !in posts
      ensures r.Error? ==> r == Error(404, NotFoundText)
      ensures r.Reply? ==> r.body.post == posts[id] && r.body.tagLabels == TagLabels(posts[id].tags)
    {
      match Lookup(posts, id)
      case Error(status, message) => Error(status, message)
      case Reply(_, post) => Reply(200, PostPage(post, TagLabels(post.tags)))
    }

    /** PUT /api/blog/posts/<id>, with the corrected lookup: a missing id is
        answered with 404 (the route as written answers 500, see
        `UpdateAsWritten`); for a stored id it is the route as written. The
        fields the body carries are assigned one by one and the update time
        refreshed; a failing commit is rolled back (the table is as before) and
        answered with 500, a successful one stores and returns the patched post. */
    method UpdatePost(id: int, data: Payload, now: int, dbError: Option<string>)
      returns (response: Response<Post>)
      requires Valid()
      modifies this
      ensures Valid()
      ensures id !in old(posts) ==> response == Error(404, NotFoundText) && posts == old(posts)
      ensures id in old(posts) && dbError.Some? ==>
                response == Error(500, dbError.value) && posts == old(posts)
      ensures id in old(posts) && dbError.None? ==>
                && response == Reply(200, Patch(old(posts)[id], data, now))
                && posts == old(posts)[id := Patch(old(posts)[id], data, now)]
      ensures id in old(posts) ==> (response, posts) == UpdateAsWritten(old(posts), id, data, now, dbError)
    {
      var found := Lookup(posts, id);
      if found.Error? {
        return found;
      }
      var post := found.body;
      if data.title.Some? { post := post.(title := data.title.value); }
      if data.content.Some? { post := post.(content := data.content.value); }
      if data.author.Some? { post := post.(author := data.author.value); }
      if data.excerpt.Some? { post := post.(excerpt := data.excerpt.value); }
      if data.tags.Some? { post := post.(tags := data.tags.value); }
      if data.isPublished.Some? { post := post.(isPublished := data.isPublished.value); }
      post := post.(updatedAt := now);
      match dbError {
        case Some(message) =>
          response := Error(500, message);
        case None =>
          posts := posts[id := post];
          response := Reply(200, post);
      }
    }

    /** DELETE /api/blog/posts/<id>, with the corrected lookup: a missing id
        is answered with 404 (the route as written answers 500, see
        `DeleteAsWritten`); for a stored id it is the route as written. A
        failing commit is rolled back and answered with 500; otherwise exactly
        the addressed post is removed and every other post is left as it was. */
    method DeletePost(id: int, dbError: Option<string>) returns (response: Response<string>)
      requires Valid()
      modifies this
      ensures Valid()
      ensures id !in old(posts) ==> response == Error(404, NotFoundText) && posts == old(posts)
      ensures id in old(posts) && dbError.Some? ==>
                response == Error(500, dbError.value) && posts == old(posts)
      ensures id in old(posts) && dbError.None? ==>
                response == Reply(200, PostDeleted) && posts == old(posts) - {id}
      ensures id in old(posts) ==> (response, posts) == DeleteAsWritten(old(posts), id, dbError)
    {
      var found := Lookup(posts, id);
      if found.Error? {
        return Error(found.status, found.message);
      }
      match dbError {
        case Some(message) =>
          response := Error(500, message);
        case None =>
          posts := posts - {id};
          response := Reply(200, PostDeleted);
      }
    }

    /** GET /api/blog/posts: the published posts, newest first; a failing
        query is answered with 500. The table is only read. */
    method PublishedPosts(dbError: Option<string>) returns (response: Response<seq<Post>>)
      requires Valid()
      ensures dbError.Some? ==> response == Error(500, dbError.value)
      ensures dbError.None? ==>
                response.Reply? && response.status == 200 && IsPublishedListing(posts, response.body)
    {
      if dbError.Some? {
        return Error(500, dbError.value);
      }
      var table := posts;
      var remaining := table.Keys;
      ghost var listed: set<int> := {};
      var listing: seq<Post> := [];
      assert PublishedAmong(table, listed) == {};
      while remaining != {}
        invariant remaining !! listed && remaining + listed == table.Keys
        invariant ListedSoFar(table, listed, listing)
        decreases remaining
      {
        var id := AnyId(remaining);
        ListingStep(table, listed, listing, id);
        if table[id].isPublished {
          listing := InsertNewestFirst(table[id], listing);
        }
        remaining := remaining - {id};
        listed := listed + {id};
      }
      response := Reply(200, listing);
    }
  }
}
