/** The data-derivation parts of the Books to Scrape extractor: the object
    key under which a cover image is stored and the upload that happens at
    most once per key, and the rating, availability and image fields of a
    scraped row. HTML parsing is abstracted into `Pod`, the network into
    `Net`, and the object store into the `Store` map. */
module BooksScraper {
  import opened Base
  import opened Text
  import opened Paths
  import BooksTransformer

  type Bytes = seq<bv8>

  /** The star-rating class names and their values. */
  const RatingMap: map<string, int> := map["One" := 1, "Two" := 2, "Three" := 3, "Four" := 4, "Five" := 5]

  // ---------------------------------------------------------------------
  // Object store
  // ---------------------------------------------------------------------

  datatype Object = Object(data: Bytes, contentType: string)

  /** The MinIO state: the buckets and the objects, keyed by bucket and key. */
  datatype Store = Store(buckets: set<string>, objects: map<(string, string), Object>)

  /** `ensure_bucket`: creates the bucket if it does not exist. */
  function EnsureBucket(s: Store, bucket: string): (t: Store)
    ensures t.buckets == s.buckets + {bucket} && t.objects == s.objects
  {
    s.(buckets := s.buckets + {bucket})
  }

  /** An HTTP response that passed `raise_for_status`; `contentType` is the
      Content-Type header if sent. */
  datatype Response = Response(content: Bytes, contentType: Option<string>)

  /** The outside world of the download: `fetch(url)` is the GET (None when
      it raises a request error or an error status), `uploadOk(key)` says
      whether the upload of that key succeeds, `md5(url)` is the hex digest
      of the URL's UTF-8 bytes. */
  datatype Net = Net(fetch: string -> Option<Response>, uploadOk: string -> bool, md5: string -> string)

  // ---------------------------------------------------------------------
  // The image key
  // ---------------------------------------------------------------------

  /** Python's truthiness fallback `s or d` for an optional string. */
  function OrDefault(s: Option<string>, d: string): (r: string)
    ensures s.Some? && s.value != [] ==> r == s.value
    ensures s.None? || s.value == [] ==> r == d
  {
    if s.Some? && s.value != [] then s.value else d
  }

  /** `url.split("?")[0]`: the URL up to its first `?`. */
  function BeforeQuery(url: string): (p: string)
    ensures |p| <= |url| && p == url[..|p|]
    ensures forall i :: 0 <= i < |p| ==> p[i] != '?'
    ensures |p| == |url| || url[|p|] == '?'
  {
    if url == [] || url[0] == '?' then []
    else [url[0]] + BeforeQuery(url[1..])
  }

  /** The file extension of the image: that of the URL's path part, or
      `.jpg` when it has none. */
  function ImageExt(url: string): (ext: string)
    ensures |ext| > 0 && ext[0] == '.'
    ensures SplitExt(BeforeQuery(url)) == [] ==> ext == ".jpg"
    ensures SplitExt(BeforeQuery(url)) != [] ==> ext == SplitExt(BeforeQuery(url))
    ensures ext == ".jpg" || (EndsWith(BeforeQuery(url), ext) && forall k :: 1 <= k < |ext| ==> ext[k] != '.' && ext[k] != '/')
  {
    var e := SplitExt(BeforeQuery(url));
    if e == [] then ".jpg" else e
  }

  /** The cut is at the first `?`. */
  lemma BeforeQueryAt(p: string, q: string)
    requires forall i :: 0 <= i < |p| ==> p[i] != '?'
    ensures BeforeQuery(p + "?" + q) == p
  {
    var u := p + "?" + q;
    var r := BeforeQuery(u);
    assert u[|p|] == '?';
    assert forall i :: 0 <= i < |p| ==> u[i] == p[i];
    assert r == u[..|p|] == p;
  }

  /** A query string is cut before the extension is taken. */
  lemma ImageExtQuery(url: string)
    requires url == "m/a.png?v=1.2"
    ensures ImageExt(url) == ".png"
  {
    var p := "m/a.png";
    assert url == p + "?" + "v=1.2";
    BeforeQueryAt(p, "v=1.2");
    assert p[1] == '/' && p[3] == '.' && p[2] == 'a';
    assert p[4] == 'p' && p[5] == 'n' && p[6] == 'g';
    assert RFind(p, '/') == 1;
    assert RFind(p, '.') == 3;
    assert p[3..] == ".png";
  }

  /** A path without extension falls back to `.jpg`. */
  lemma ImageExtDefault()
    ensures ImageExt("m/cover") == ".jpg"
  {
    var p := "m/cover";
    assert BeforeQuery(p) == p;
    assert RFind(p, '.') == -1;
  }

  /** The key prefix: the images directory, `books` when it is None or
      empty, with its leading and trailing slashes stripped. */
  function KeyPrefix(outDir: Option<string>): (p: string)
    ensures p == [] || (p[0] != '/' && p[|p| - 1] != '/')
  {
    StripBy(OrDefault(outDir, "books"), Slashes)
  }

  /** `f"{prefix}/{md5hex(url)}{ext}"`. */
  function ImageKey(md5: string -> string, outDir: Option<string>, url: string): (key: string)
    ensures StartsWith(key, KeyPrefix(outDir) + "/")
    ensures EndsWith(key, ImageExt(url))
    ensures |key| == |KeyPrefix(outDir)| + 1 + |md5(url)| + |ImageExt(url)|
    ensures key[|KeyPrefix(outDir)| + 1..|key| - |ImageExt(url)|] == md5(url)
  {
    var pre, ext := KeyPrefix(outDir) + "/", ImageExt(url);
    var key := pre + md5(url) + ext;
    assert key[..|pre|] == pre && key[|key| - |ext|..] == ext;
    assert key[|pre|..|key| - |ext|] == md5(url);
    key
  }

  /** The default directory gives the prefix `books`, for None and for the
      empty string alike. */
  lemma KeyPrefixDefault()
    ensures KeyPrefix(None) == "books"
    ensures KeyPrefix(Some("")) == "books"
  {
    assert TrimStart("books", Slashes) == "books";
    assert TrimEnd("books", Slashes) == "books";
  }

  /** The directory `/` gives the empty prefix. */
  lemma KeyPrefixRoot()
    ensures KeyPrefix(Some("/")) == ""
  {
    assert "/"[1..] == "";
    assert TrimStart("/", Slashes) == "";
  }

  /** Surrounding slashes are cut from the directory: `/name/` gives
      `name` for a name without slashes at its ends. */
  lemma KeyPrefixCut(name: string)
    requires name != [] && name[0] != '/' && name[|name| - 1] != '/'
    ensures KeyPrefix(Some("/" + name + "/")) == name
  {
    var c := "/" + name + "/";
    var t := name + "/";
    assert OrDefault(Some(c), "books") == c;
    assert c[0] == '/' && c[1..] == t;
    assert t[0] == name[0] && !InSet(Slashes, t[0]);
    assert TrimStart(c, Slashes) == t;
    assert t[|t| - 1] == '/' && t[..|t| - 1] == name;
    assert !InSet(Slashes, name[|name| - 1]);
    assert TrimEnd(t, Slashes) == name;
  }

  /** Under one prefix and with 32-character digests, which contain no dot,
      two URLs share a key exactly when they share the digest and the
      extension. */
  lemma ImageKeySame(md5: string -> string, outDir: Option<string>, u: string, v: string)
    requires |md5(u)| == 32 && |md5(v)| == 32
    ensures ImageKey(md5, outDir, u) == ImageKey(md5, outDir, v) <==> md5(u) == md5(v) && ImageExt(u) == ImageExt(v)
  {
    var p := KeyPrefix(outDir) + "/";
    var ku := ImageKey(md5, outDir, u);
    var kv := ImageKey(md5, outDir, v);
    if ku == kv {
      assert ku == p + md5(u) + ImageExt(u) && kv == p + md5(v) + ImageExt(v);
      assert md5(u) == ku[|p|..|p| + 32] == kv[|p|..|p| + 32] == md5(v);
      assert ImageExt(u) == ku[|p| + 32..] == kv[|p| + 32..] == ImageExt(v);
    }
  }

  // ---------------------------------------------------------------------
  // The download
  // ---------------------------------------------------------------------

  /** `_download_image(session, img_url, out_dir, logger)` against the
      store, with `bucketEnv` the `S3_BUCKET` variable. The bucket is
      ensured first; an object already under the key is reported without
      any request; otherwise the image is fetched and uploaded, and any
      failure of either step gives None with the objects untouched. A
      missing Content-Type header stores `image/jpeg`. */
  function DownloadImage(s: Store, net: Net, bucketEnv: Option<string>, url: string, outDir: Option<string>): (r: (Option<string>, Store))
    ensures var bucket := bucketEnv.GetOr("images");
            var key := ImageKey(net.md5, outDir, url);
            && r.1.buckets == s.buckets + {bucket}
            && (r.0.Some? ==> r.0.value == key && (bucket, key) in r.1.objects)
            && ((bucket, key) in s.objects ==> r.0 == Some(key) && r.1.objects == s.objects)
            && ((bucket, key) !in s.objects ==>
                  (r.0.Some? <==> net.fetch(url).Some? && net.uploadOk(key)))
            && (r.0.None? ==> r.1.objects == s.objects)
            && (r.0.Some? && (bucket, key) !in s.objects ==>
                  r.1.objects == s.objects[(bucket, key) :=
                    Object(net.fetch(url).value.content, net.fetch(url).value.contentType.GetOr("image/jpeg"))])
  {
    var bucket := bucketEnv.GetOr("images");
    var s1 := EnsureBucket(s, bucket);
    var key := ImageKey(net.md5, outDir, url);
    if (bucket, key) in s1.objects then (Some(key), s1)
    else
      match net.fetch(url)
      case None => (None, s1)
      case Some(resp) =>
        if !net.uploadOk(key) then (None, s1)
        else
          var obj := Object(resp.content, resp.contentType.GetOr("image/jpeg"));
          (Some(key), s1.(objects := s1.objects[(bucket, key) := obj]))
  }

  /** No object already in the store is ever replaced, and only the image's
      own key can be added. */
  lemma DownloadKeepsObjects(s: Store, net: Net, bucketEnv: Option<string>, url: string, outDir: Option<string>)
    ensures var t := DownloadImage(s, net, bucketEnv, url, outDir).1;
            && s.objects.Keys <= t.objects.Keys
            && (forall k :: k in s.objects ==> t.objects[k] == s.objects[k])
            && t.objects.Keys <= s.objects.Keys + {(bucketEnv.GetOr("images"), ImageKey(net.md5, outDir, url))}
  {
  }

  /** A second download of the same image, after a first that returned a
      key, returns the same key without fetching or uploading: the store
      does not change. So two calls upload at most once. */
  lemma DownloadTwice(s: Store, net: Net, bucketEnv: Option<string>, url: string, outDir: Option<string>)
    requires DownloadImage(s, net, bucketEnv, url, outDir).0.Some?
    ensures var (k1, s1) := DownloadImage(s, net, bucketEnv, url, outDir);
            DownloadImage(s1, net, bucketEnv, url, outDir) == (k1, s1)
  {
    var (k1, s1) := DownloadImage(s, net, bucketEnv, url, outDir);
    var bucket := bucketEnv.GetOr("images");
    assert s1.buckets + {bucket} == s1.buckets;
  }

  // ---------------------------------------------------------------------
  // One product card
  // ---------------------------------------------------------------------

  /** `RATING_MAP.get(classes[1], 0)` if there is a second CSS class, else
      0 (the lookup of the empty word). */
  function RatingOf(classes: seq<string>): (n: int)
    ensures 0 <= n <= 5
    ensures n == 0 <==> |classes| < 2 || classes[1] !in RatingMap
  {
    var word := if |classes| > 1 then classes[1] else "";
    if word in RatingMap then RatingMap[word] else 0
  }

  /** Each rating word maps to its own number, so distinct words give
      distinct ratings, and a class list without a known word rates 0. */
  lemma RatingWords(first: string, word: string)
    ensures RatingOf([first, word]) == (if word in RatingMap then RatingMap[word] else 0)
    ensures RatingOf([first, "One"]) == 1 && RatingOf([first, "Five"]) == 5
    ensures RatingOf([first]) == 0 && RatingOf([]) == 0
    ensures forall a, b :: a in RatingMap && b in RatingMap && a != b ==> RatingMap[a] != RatingMap[b]
  {
  }

  /** `"In stock" in availability_txt`. */
  function InStock(text: string): (b: bool)
    ensures b <==> exists i :: OccursAt(text, "In stock", i)
  {
    Contains(text, "In stock")
  }

  /** The site's two availability texts. */
  lemma InStockExamples()
    ensures InStock("In stock (22 available)")
    ensures !InStock("Out of stock")
  {
    assert OccursAt("In stock (22 available)", "In stock", 0);
    forall i ensures !OccursAt("Out of stock", "In stock", i) {
      if 0 <= i && i + 8 <= 12 {
        assert "Out of stock"[i..i + 8][0] == "Out of stock"[i];
      }
    }
  }

  /** What the selectors read from one `article.product_pod`: the link's
      title attribute, the price text, the class list of the rating
      paragraph, the availability text, and the image's `src` when there is
      an image (an image without `src` resolves like the empty `src`). */
  datatype Pod = Pod(
    titleAttr: Option<string>,
    priceText: string,
    ratingClasses: seq<string>,
    availabilityText: string,
    imgSrc: Option<string>)

  /** Options of a scraping run: the images switch and directory, the
      `S3_BUCKET` variable, and `urljoin(BASE_URL, ·)`. */
  datatype Run = Run(downloadImages: bool, imagesDir: Option<string>, bucketEnv: Option<string>, resolve: string -> string)

  /** The image URL of a card, None when the card has no image. */
  function ImgUrl(run: Run, pod: Pod): Option<string> {
    match pod.imgSrc
    case None => None
    case Some(src) => Some(run.resolve(src))
  }

  /** `row` is the row of card `pod`: every field but the image path is
      determined by the card, and an image path, if any, is the image's key
      and arises only with downloads on and an image URL. */
  predicate RowOf(net: Net, run: Run, category: string, pod: Pod, row: BooksTransformer.RawBook) {
    && row.title == Some(Strip(pod.titleAttr.GetOr("")))
    && row.category == Some(category) && row.priceRaw == Some(pod.priceText)
    && row.rating == Some(RatingOf(pod.ratingClasses))
    && row.available == Some(InStock(pod.availabilityText))
    && row.imgUrl == ImgUrl(run, pod)
    && (row.imgPath.Some? ==>
          && run.downloadImages && ImgUrl(run, pod).Some? && ImgUrl(run, pod).value != []
          && row.imgPath.value == ImageKey(net.md5, run.imagesDir, ImgUrl(run, pod).value))
  }

  /** The row for one card of category `category`, and the store after its
      image download, if any. */
  function ScrapeBook(s: Store, net: Net, run: Run, category: string, pod: Pod): (r: (BooksTransformer.RawBook, Store))
    ensures RowOf(net, run, category, pod, r.0)
    ensures !run.downloadImages || ImgUrl(run, pod).None? || ImgUrl(run, pod).value == [] ==>
              r.0.imgPath.None? && r.1 == s
    ensures var url := ImgUrl(run, pod);
            run.downloadImages && url.Some? && url.value != [] ==>
              r == (r.0.(imgPath := DownloadImage(s, net, run.bucketEnv, url.value, run.imagesDir).0),
                    DownloadImage(s, net, run.bucketEnv, url.value, run.imagesDir).1)
  {
    var url := ImgUrl(run, pod);
    var (path, s') :=
      if run.downloadImages && url.Some? && url.value != [] then DownloadImage(s, net, run.bucketEnv, url.value, run.imagesDir)
      else (None, s);
    (BooksTransformer.RawBook(
       Some(Strip(pod.titleAttr.GetOr(""))), Some(category), Some(pod.priceText),
       Some(RatingOf(pod.ratingClasses)), Some(InStock(pod.availabilityText)), url, path),
     s')
  }

  /** The rows for the cards of one category, in page order, the image
      downloads threading the store: one row per card, each the row of its
      own card. */
  function ScrapeBooks(s: Store, net: Net, run: Run, category: string, pods: seq<Pod>): (r: (seq<BooksTransformer.RawBook>, Store))
    ensures |r.0| == |pods|
    ensures forall i :: 0 <= i < |pods| ==> RowOf(net, run, category, pods[i], r.0[i])
    decreases |pods|
  {
    if |pods| == 0 then ([], s)
    else
      var (row, s1) := ScrapeBook(s, net, run, category, pods[0]);
      var (rows, s2) := ScrapeBooks(s1, net, run, category, pods[1..]);
      ([row] + rows, s2)
  }

  /** Scraping never replaces a stored object; with downloads switched off
      it leaves the store as it was. */
  lemma {:induction false} ScrapeBooksStore(s: Store, net: Net, run: Run, category: string, pods: seq<Pod>)
    ensures var t := ScrapeBooks(s, net, run, category, pods).1;
            && s.objects.Keys <= t.objects.Keys
            && forall k :: k in s.objects ==> t.objects[k] == s.objects[k]
    ensures !run.downloadImages ==> ScrapeBooks(s, net, run, category, pods).1 == s
    decreases |pods|
  {
    if |pods| > 0 {
      var url := ImgUrl(run, pods[0]);
      if run.downloadImages && url.Some? && url.value != [] {
        DownloadKeepsObjects(s, net, run.bucketEnv, url.value, run.imagesDir);
      }
      var s1 := ScrapeBook(s, net, run, category, pods[0]).1;
      ScrapeBooksStore(s1, net, run, category, pods[1..]);
    }
  }

  /** Scraping the cards `a + b` scrapes `a`, then `b` on the store that
      `a` left behind. */
  lemma {:induction false} ScrapeBooksAppend(s: Store, net: Net, run: Run, category: string, a: seq<Pod>, b: seq<Pod>)
    ensures var sa := ScrapeBooks(s, net, run, category, a).1;
            ScrapeBooks(s, net, run, category, a + b).0
            == ScrapeBooks(s, net, run, category, a).0 + ScrapeBooks(sa, net, run, category, b).0
    ensures var sa := ScrapeBooks(s, net, run, category, a).1;
            ScrapeBooks(s, net, run, category, a + b).1 == ScrapeBooks(sa, net, run, category, b).1
    decreases |a|
  {
    if |a| == 0 {
      assert a + b == b;
      ScrapeBooksNil(s, net, run, category);
      var rb := ScrapeBooks(s, net, run, category, b).0;
      assert [] + rb == rb;
    } else {
      var ab := a + b;
      ConsSplit(a, b);
      var first := ScrapeBook(s, net, run, category, a[0]);
      ScrapeBooksCons(s, net, run, category, a);
      ScrapeBooksCons(s, net, run, category, ab);
      ScrapeBooksAppend(first.1, net, run, category, a[1..], b);
      var tailA := ScrapeBooks(first.1, net, run, category, a[1..]).0;
      var restB := ScrapeBooks(ScrapeBooks(first.1, net, run, category, a[1..]).1, net, run, category, b).0;
      ConsAssoc(first.0, tailA, restB);
    }
  }

  lemma ConsSplit<T>(a: seq<T>, b: seq<T>)
    requires |a| > 0
    ensures (a + b)[0] == a[0] && (a + b)[1..] == a[1..] + b
  {
  }

  lemma ConsAssoc<T>(x: T, a: seq<T>, b: seq<T>)
    ensures [x] + (a + b) == ([x] + a) + b
  {
  }

  lemma ScrapeBooksNil(s: Store, net: Net, run: Run, category: string)
    ensures ScrapeBooks(s, net, run, category, []) == ([], s)
  {
  }

  /** One card, then the rest on the store it left. */
  lemma ScrapeBooksCons(s: Store, net: Net, run: Run, category: string, pods: seq<Pod>)
    requires |pods| > 0
    ensures var first := ScrapeBook(s, net, run, category, pods[0]);
            var rest := ScrapeBooks(first.1, net, run, category, pods[1..]);
            ScrapeBooks(s, net, run, category, pods) == ([first.0] + rest.0, rest.1)
  {
  }

  /** Card `i` gets the row `ScrapeBook` gives it on the store left by the
      cards before it: its image path is the result of the download run
      against that store. */
  lemma ScrapeBooksRow(s: Store, net: Net, run: Run, category: string, pods: seq<Pod>, i: int)
    requires 0 <= i < |pods|
    ensures ScrapeBooks(s, net, run, category, pods).0[i]
            == ScrapeBook(ScrapeBooks(s, net, run, category, pods[..i]).1, net, run, category, pods[i]).0
  {
    var pre, post := pods[..i], pods[i..];
    assert pods == pre + post;
    ScrapeBooksAppend(s, net, run, category, pre, post);
    var si := ScrapeBooks(s, net, run, category, pre).1;
    assert post[0] == pods[i];
  }

  /** Every row of a category is its card's row on the store threaded
      through the earlier cards' downloads. */
  lemma ScrapeBooksRows(s: Store, net: Net, run: Run, category: string, pods: seq<Pod>)
    ensures var rows := ScrapeBooks(s, net, run, category, pods).0;
            forall i :: 0 <= i < |pods| ==>
              rows[i] == ScrapeBook(ScrapeBooks(s, net, run, category, pods[..i]).1, net, run, category, pods[i]).0
  {
    forall i | 0 <= i < |pods|
      ensures ScrapeBooks(s, net, run, category, pods).0[i]
              == ScrapeBook(ScrapeBooks(s, net, run, category, pods[..i]).1, net, run, category, pods[i]).0
    {
      ScrapeBooksRow(s, net, run, category, pods, i);
    }
  }
}
