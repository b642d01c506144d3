/** The fallback featured image (`swanwick_fake_featured_image`, a
    post_thumbnail_html filter): on listing views, a post whose featured-image
    markup is empty gets an image found in its content. The first image or
    gallery block marker names an attachment; if that attachment is an image its
    id is memoised in the post meta `swanwick_fake_thumbnail_id`, and later
    calls read it from there without scanning the content again. */
module FakeThumbnail {
  import opened PhpStrings
  import opened BlockMarker

  type PostId = nat

  /** The post meta key that memoises the fallback attachment id. */
  const FakeThumbnailKey: string := "swanwick_fake_thumbnail_id"

  /** A post meta entry: a post and a meta key. */
  datatype MetaKey = MetaKey(post: PostId, key: string)

  /** What the resolver reads from the host and never changes.
      - content: what `get_the_content` yields for each post;
      - attachmentMime: the `post_mime_type` of the post `get_post` resolves a
        captured id to (an id without an entry resolves to no post, whose mime
        type reads as "");
      - render: `wp_get_attachment_image(id, size, false, attr)`, with the size
        and attributes passed through as opaque strings. */
  datatype Host = Host(
    content: map<PostId, string>,
    attachmentMime: map<string, string>,
    render: (string, string, string) -> string)

  function ContentOf(host: Host, post: PostId): string {
    if post in host.content then host.content[post] else ""
  }

  function MimeOf(host: Host, id: string): string {
    if id in host.attachmentMime then host.attachmentMime[id] else ""
  }

  /** `get_post_meta($post, FakeThumbnailKey, true)`: "" when the entry is missing. */
  function Cached(meta: map<MetaKey, string>, post: PostId): string {
    var k := MetaKey(post, FakeThumbnailKey);
    if k in meta then meta[k] else ""
  }

  /** `strpos($mime, 'image') !== false`: "image" anywhere in the mime type. */
  predicate IsImageMime(mime: string)
    ensures IsImageMime(mime) <==> Contains(mime, "image")
  {
    StrPos(mime, "image").Some?
  }

  /** The id the content scan settles on: the digits of the leftmost block
      marker, provided they name an image attachment. */
  function Discovered(host: Host, post: PostId): (r: Option<string>)
    ensures r.Some? ==>
      && IsImageMime(MimeOf(host, r.value))
      && |r.value| > 0 && AllDigits(r.value)
      && exists m :: Matches(ContentOf(host, post), m) && m.id == r.value
           && forall m' :: Matches(ContentOf(host, post), m') ==> m.start <= m'.start
    ensures r.None? ==> forall m ::
      Matches(ContentOf(host, post), m) && (forall m' :: Matches(ContentOf(host, post), m') ==> m.start <= m'.start)
      ==> !IsImageMime(MimeOf(host, m.id))
  {
    var content := ContentOf(host, post);
    match LeftmostMatch(content)
    case None => None
    case Some(m) =>
      forall m1, m2 | Matches(content, m1) && Matches(content, m2) && m1.start == m2.start
        ensures m1 == m2
      {
        MatchUnique(content, m1, m2);
      }
      // `is_numeric($t_id)`; it always holds, since a match captures digits only
      if AllDigits(m.id) && IsImageMime(MimeOf(host, m.id)) then Some(m.id) else None
  }

  /** The outcome of one call: the filtered markup and the post meta afterwards. */
  datatype Outcome = Outcome(html: string, meta: map<MetaKey, string>)

  /** One call of the filter, on values: the markup it returns and the post
      meta it leaves. Markup that is already there passes through; otherwise
      a cached id is rendered, and the only entry that may change is this
      post's memoised id, set to the id the content scan discovered. */
  function Resolve(meta: map<MetaKey, string>, host: Host, html: string, post: PostId,
                   size: string, attr: string, single: bool): (r: Outcome)
    ensures single || !Empty(html) ==> r == Outcome(html, meta)
    ensures !single && Empty(html) && !Empty(Cached(meta, post)) ==>
      r == Outcome(host.render(Cached(meta, post), size, attr), meta)
    ensures r.meta != meta ==>
      && Discovered(host, post).Some?
      && r.meta == meta[MetaKey(post, FakeThumbnailKey) := Discovered(host, post).value]
      && r.html == host.render(Discovered(host, post).value, size, attr)
  {
    if single || !Empty(html) then Outcome(html, meta)
    else
      var cached := Cached(meta, post);
      if !Empty(cached) then Outcome(host.render(cached, size, attr), meta)
      else
        match Discovered(host, post)
        case Some(id) => Outcome(host.render(id, size, attr), meta[MetaKey(post, FakeThumbnailKey) := id])
        case None => Outcome(host.render(cached, size, attr), meta)
  }

  /** On a single post, or when there already is featured-image markup, the
      markup passes through and the meta is left alone. */
  lemma ResolvePassThrough(meta: map<MetaKey, string>, host: Host, html: string, post: PostId,
                           size: string, attr: string, single: bool)
    requires single || !Empty(html)
    ensures Resolve(meta, host, html, post, size, attr, single) == Outcome(html, meta)
  {
  }

  /** A cache hit renders the cached id, writes nothing, and does not depend on
      the content or the attachment table: the content is not scanned. */
  lemma ResolveCacheHit(meta: map<MetaKey, string>, host: Host, other: Host, html: string, post: PostId,
                        size: string, attr: string)
    requires Empty(html) && !Empty(Cached(meta, post))
    requires other.render == host.render
    ensures Resolve(meta, host, html, post, size, attr, false) == Outcome(host.render(Cached(meta, post), size, attr), meta)
    ensures Resolve(meta, other, html, post, size, attr, false) == Resolve(meta, host, html, post, size, attr, false)
  {
  }

  /** The only write: on a cache miss, the leftmost marker's id, once its
      attachment has proved to be an image; every such miss writes that id and
      renders it. A miss that finds nothing renders the (empty) cached value. */
  lemma ResolveWrite(meta: map<MetaKey, string>, host: Host, html: string, post: PostId,
                     size: string, attr: string, single: bool)
    ensures
      var r := Resolve(meta, host, html, post, size, attr, single);
      && (r.meta == meta || r.meta == meta[MetaKey(post, FakeThumbnailKey) := Discovered(host, post).value])
      && (r.meta != meta ==>
            && !single && Empty(html) && Empty(Cached(meta, post))
            && Discovered(host, post).Some?
            && IsImageMime(MimeOf(host, Discovered(host, post).value))
            && r.html == host.render(Discovered(host, post).value, size, attr))
      && (!single && Empty(html) && Empty(Cached(meta, post)) && Discovered(host, post).Some? ==>
            r == Outcome(host.render(Discovered(host, post).value, size, attr),
                         meta[MetaKey(post, FakeThumbnailKey) := Discovered(host, post).value]))
      && (!single && Empty(html) && Empty(Cached(meta, post)) && Discovered(host, post).None? ==>
            r == Outcome(host.render(Cached(meta, post), size, attr), meta))
  {
    var r := Resolve(meta, host, html, post, size, attr, single);
    if r.meta != meta {
      assert !single && Empty(html) && Empty(Cached(meta, post));
    }
  }

  /** Every other meta entry, of this post or any other, is left as it was. */
  lemma ResolveTouchesOneEntry(meta: map<MetaKey, string>, host: Host, html: string, post: PostId,
                               size: string, attr: string, single: bool, k: MetaKey)
    requires k != MetaKey(post, FakeThumbnailKey)
    ensures
      var r := Resolve(meta, host, html, post, size, attr, single);
      (k in r.meta <==> k in meta) && (k in meta ==> r.meta[k] == meta[k])
  {
  }

  /** A second call with the meta the first call left behind renders the same
      markup and writes nothing more. */
  lemma ResolveTwice(meta: map<MetaKey, string>, host: Host, html: string, post: PostId,
                     size: string, attr: string, single: bool)
    ensures
      var first := Resolve(meta, host, html, post, size, attr, single);
      Resolve(first.meta, host, html, post, size, attr, single) == first
  {
    var first := Resolve(meta, host, html, post, size, attr, single);
    if !single && Empty(html) && Empty(Cached(meta, post)) && Discovered(host, post).Some? {
      var id := Discovered(host, post).value;
      assert Cached(first.meta, post) == id;
      if Empty(id) {
        assert first.meta[MetaKey(post, FakeThumbnailKey) := id] == first.meta;
      }
    }
  }

  /** After a write, the next call is a cache hit, except when the written id
      is "0" (which happens only if the attachment looked up for "0" is an
      image): PHP's `empty("0")` makes that write invisible to the cache test,
      so such a post is scanned and written again on every call. */
  lemma ResolveSecondCallHits(meta: map<MetaKey, string>, host: Host, html: string, post: PostId,
                              size: string, attr: string)
    ensures
      var first := Resolve(meta, host, html, post, size, attr, false);
      first.meta != meta ==>
        (!Empty(Cached(first.meta, post)) <==> Discovered(host, post).value != "0")
  {
  }

  /** The content `<!-- wp:image {"id":N,`. */
  function ImageBlock(id: string): string {
    Opening + "image" + IdKey + KeyEnd + id + ","
  }

  /** In `<!-- wp:image {"id":N,` the leftmost match captures N. */
  lemma ImageBlockCaptures(id: string)
    requires |id| > 0 && AllDigits(id)
    ensures LeftmostMatch(ImageBlock(id)).Some? && LeftmostMatch(ImageBlock(id)).value.id == id
  {
    var m := BlockMatch(0, HeadChoice(Image, false, false), id);
    assert Head(m.head) == Opening + "image" + IdKey + KeyEnd;
    assert OccursAt(MatchText(m), MatchText(m), 0);
    assert Matches(ImageBlock(id), m);
    MatchUnique(ImageBlock(id), LeftmostMatch(ImageBlock(id)).value, m);
  }

  /** A post whose content is a single image block: the scan settles on its id
      exactly when the attachment's mime type mentions "image". */
  lemma DiscoveredImageBlock(host: Host, post: PostId, id: string)
    requires |id| > 0 && AllDigits(id)
    requires ContentOf(host, post) == ImageBlock(id)
    ensures Discovered(host, post) == (if IsImageMime(MimeOf(host, id)) then Some(id) else None)
  {
    ImageBlockCaptures(id);
  }

  /** Content holding only `<!-- wp:image {"id":42,`, attachment 42 a JPEG,
      nothing cached: 42 is cached and rendered. */
  lemma ResolveImageExample(meta: map<MetaKey, string>, render: (string, string, string) -> string,
                            post: PostId, size: string, attr: string)
    requires Empty(Cached(meta, post))
    ensures
      var host := Host(map[post := ImageBlock("42")], map["42" := "image/jpeg"], render);
      Resolve(meta, host, "", post, size, attr, false)
        == Outcome(render("42", size, attr), meta[MetaKey(post, FakeThumbnailKey) := "42"])
  {
    var host := Host(map[post := ImageBlock("42")], map["42" := "image/jpeg"], render);
    assert MimeOf(host, "42") == "image/jpeg";
    assert OccursAt("image/jpeg", "image", 0);
    DiscoveredImageBlock(host, post, "42");
  }

  /** Content holding only `<!-- wp:image {"id":7,`, attachment 7 plain text,
      nothing cached: nothing is cached and the cached value (empty) is rendered. */
  lemma ResolveNotImageExample(meta: map<MetaKey, string>, render: (string, string, string) -> string,
                               post: PostId, size: string, attr: string)
    requires Empty(Cached(meta, post))
    ensures
      var host := Host(map[post := ImageBlock("7")], map["7" := "text/plain"], render);
      Resolve(meta, host, "", post, size, attr, false) == Outcome(render(Cached(meta, post), size, attr), meta)
  {
    var host := Host(map[post := ImageBlock("7")], map["7" := "text/plain"], render);
    assert MimeOf(host, "7") == "text/plain";
    AbsentChar("text/plain", "image", 1);
    DiscoveredImageBlock(host, post, "7");
  }

  /** The post meta store the filter reads and writes, with the host lookups it
      only reads. */
  class PostMetaStore {
    var meta: map<MetaKey, string>
    const host: Host

    constructor (meta0: map<MetaKey, string>, host: Host)
      ensures meta == meta0 && this.host == host
    {
      meta := meta0;
      this.host := host;
    }

    /** `swanwick_fake_featured_image($html, $post_id, $thumbnail_id, $size, $attr)`,
        with `is_single()` passed in as `single`. */
    method FakeFeaturedImage(html: string, post: PostId, size: string, attr: string, single: bool)
      returns (result: string)
      modifies this
      ensures result == Resolve(old(meta), host, html, post, size, attr, single).html
      ensures meta == Resolve(old(meta), host, html, post, size, attr, single).meta
    {
      if single {
        return html;
      }
      result := html;
      if Empty(html) {
        var thumbnailId := Cached(meta, post);
        if Empty(thumbnailId) {
          var content := ContentOf(host, post);
          var matches := LeftmostMatch(content);
          if matches.Some? {
            var tId := matches.value.id;
            // `is_numeric($t_id)`: always true here, a captured id is all digits
            if AllDigits(tId) {
              if StrPos(MimeOf(host, tId), "image").Some? {
                assert Discovered(host, post) == Some(tId);
                thumbnailId := tId;
                meta := meta[MetaKey(post, FakeThumbnailKey) := thumbnailId];
              }
            }
          }
        }
        result := host.render(thumbnailId, size, attr);
      }
    }
  }
}
