/** The Bloom filter of ingestor/scrapers/__init__.py, packed eight positions to a byte, and the
    deduplicating loop of ingestor/scrapers/http_scraper.py on top of it.

    The digest of a seed and an item is an unknown function into the natural numbers. */
module BloomFilter {
  import opened Options

  /** 1 << k */
  function Mask(k: nat): bv8
    requires k < 8
  {
    (1 as bv8) << k
  }

  predicate BitIn(b: bv8, k: nat)
    requires k < 8
  {
    b & Mask(k) != 0
  }

  /** Setting bit k of a byte sets that bit and no other. */
  lemma SetOneBit(b: bv8, k: nat, j: nat)
    requires k < 8 && j < 8
    ensures BitIn(b | Mask(k), j) <==> BitIn(b, j) || j == k
  {
    MaskValues(k);
    MaskValues(j);
  }

  lemma MaskValues(k: nat)
    requires k < 8
    ensures Mask(k) == if k == 0 then 1 else if k == 1 then 2 else if k == 2 then 4 else if k == 3 then 8
                       else if k == 4 then 16 else if k == 5 then 32 else if k == 6 then 64 else 128
  {
    if k == 0 {} else if k == 1 {} else if k == 2 {} else if k == 3 {}
    else if k == 4 {} else if k == 5 {} else if k == 6 {} else {}
  }

  predicate InRange(ps: seq<nat>, size: nat) {
    forall i | 0 <= i < |ps| :: ps[i] < size
  }

  /** Size, number of hashes and the digest; the source computes the first two from capacity and
      error rate, and never below one. */
  datatype Shape = Shape(size: nat, hashCount: nat, digest: (nat, string) -> nat) {
    predicate Proper() {
      size >= 1 && hashCount >= 1
    }

    function Positions(item: string): (ps: seq<nat>)
      requires Proper()
      ensures |ps| == hashCount && InRange(ps, size)
      ensures forall seed | 0 <= seed < hashCount :: ps[seed] == digest(seed, item) % size
    {
      seq(hashCount, seed requires 0 <= seed => digest(seed, item) % size)
    }

    function PositionSet(item: string): set<nat>
      requires Proper()
    {
      set p | p in Positions(item)
    }

    /** The positions that the items of `added` set between them. */
    function MarkedBy(added: set<string>): set<nat>
      requires Proper()
    {
      set x, p | x in added && p in Positions(x) :: p
    }

    /** The filter reports the item: every one of its positions is one of some added item. */
    predicate Suspects(added: set<string>, item: string)
      requires Proper()
    {
      PositionSet(item) <= MarkedBy(added)
    }

    /** There are no false negatives, also after any number of further additions. */
    lemma NoFalseNegatives(added: set<string>, item: string, more: set<string>)
      requires Proper() && item in added
      ensures Suspects(added + more, item)
    {
    }

    lemma MarkedByOneMore(added: set<string>, item: string)
      requires Proper()
      ensures MarkedBy(added + {item}) == MarkedBy(added) + PositionSet(item)
    {
    }
  }

  predicate BitAt(bits: seq<bv8>, p: nat)
    requires p / 8 < |bits|
  {
    BitIn(bits[p / 8], p % 8)
  }

  /** The set of positions that the bytes stand for. */
  ghost function Marked(bits: seq<bv8>, size: nat): set<nat>
    requires size / 8 < |bits|
  {
    set p: nat | p < size && BitAt(bits, p)
  }

  lemma SetPosition(bits: seq<bv8>, size: nat, p: nat)
    requires size / 8 < |bits| && p < size
    ensures p / 8 < |bits|
    ensures Marked(bits[p / 8 := bits[p / 8] | Mask(p % 8)], size) == Marked(bits, size) + {p}
  {
    var after := bits[p / 8 := bits[p / 8] | Mask(p % 8)];
    forall q: nat | q < size
      ensures BitAt(after, q) <==> BitAt(bits, q) || q == p
    {
      if q / 8 == p / 8 { SetOneBit(bits[p / 8], p % 8, q % 8); }
    }
  }

  /** The bytes after setting the bits of ps in turn. */
  ghost function WithBits(bits: seq<bv8>, size: nat, ps: seq<nat>): (after: seq<bv8>)
    requires size / 8 < |bits| && InRange(ps, size)
    ensures |after| == |bits|
  {
    if ps == [] then bits
    else
      var before, p := WithBits(bits, size, ps[..|ps| - 1]), ps[|ps| - 1];
      assert p / 8 <= size / 8;
      before[p / 8 := before[p / 8] | Mask(p % 8)]
  }

  lemma {:induction false} WithBitsMarks(bits: seq<bv8>, size: nat, ps: seq<nat>)
    requires size / 8 < |bits| && InRange(ps, size)
    ensures Marked(WithBits(bits, size, ps), size) == Marked(bits, size) + set p | p in ps
    decreases |ps|
  {
    if ps != [] {
      var n := |ps| - 1;
      assert ps == ps[..n] + [ps[n]];
      WithBitsMarks(bits, size, ps[..n]);
      SetPosition(WithBits(bits, size, ps[..n]), size, ps[n]);
    }
  }

  class Filter {
    const shape: Shape
    const bits: array<bv8>
    ghost var added: set<string>

    /** The bytes refine the set of positions of everything added. */
    ghost predicate Valid()
      reads this, bits
    {
      && shape.Proper() && bits.Length == shape.size / 8 + 1
      && Marked(bits[..], shape.size) == shape.MarkedBy(added)
    }

    constructor (shape: Shape)
      requires shape.Proper()
      ensures Valid() && this.shape == shape && added == {} && fresh(bits)
    {
      this.shape := shape;
      bits := new bv8[shape.size / 8 + 1](_ => 0);
      added := {};
      new;
      forall p: nat | p < shape.size
        ensures !BitAt(bits[..], p)
      {
        MaskValues(p % 8);
      }
    }

    method SetBits(positions: seq<nat>)
      requires shape.size / 8 < bits.Length && InRange(positions, shape.size)
      modifies bits
      ensures bits[..] == WithBits(old(bits[..]), shape.size, positions)
    {
      for i := 0 to |positions|
        invariant bits[..] == WithBits(old(bits[..]), shape.size, positions[..i])
      {
        assert positions[..i + 1][..i] == positions[..i];
        var p := positions[i];
        assert p / 8 <= shape.size / 8;
        bits[p / 8] := bits[p / 8] | Mask(p % 8);
      }
      assert positions[..|positions|] == positions;
    }

    /** Mark item as seen. */
    method Add(item: string)
      requires Valid()
      modifies `added, bits
      ensures Valid() && added == old(added) + {item}
      ensures Marked(bits[..], shape.size) == old(Marked(bits[..], shape.size)) + shape.PositionSet(item)
    {
      var positions := shape.Positions(item);
      ghost var before := bits[..];
      SetBits(positions);
      WithBitsMarks(before, shape.size, positions);
      shape.MarkedByOneMore(added, item);
      added := added + {item};
    }

    /** True for everything added; true for anything else only when each of its positions is
        one of some added item. */
    method Contains(item: string) returns (suspected: bool)
      requires Valid()
      ensures suspected <==> shape.Suspects(added, item)
      ensures item in added ==> suspected
    {
      var positions := shape.Positions(item);
      for i := 0 to |positions|
        invariant forall k | 0 <= k < i :: positions[k] in Marked(bits[..], shape.size)
      {
        if bits[positions[i] / 8] & Mask(positions[i] % 8) == 0 {
          assert positions[i] !in Marked(bits[..], shape.size);
          assert positions[i] in shape.PositionSet(item);
          return false;
        }
      }
      return true;
    }
  }

  // ------------------------------------------------------------- the deduplicating scraper

  datatype Post = Post(id: Option<string>, title: Option<string>, body: Option<string>)

  datatype ScrapedItem = ScrapedItem(url: string, title: string, content: string, source: string)

  /** The scraped items, or the KeyError of a post without an id. */
  datatype ScrapeResult = Scraped(items: seq<ScrapedItem>) | KeyError

  const POSTS_URL := "https://jsonplaceholder.typicode.com/posts"

  function UrlOf(id: string): string {
    POSTS_URL + "/" + id
  }

  function OrEmpty(s: Option<string>): string {
    if s.Some? then s.value else ""
  }

  function ItemOf(post: Post): ScrapedItem
    requires post.id.Some?
  {
    ScrapedItem(UrlOf(post.id.value), OrEmpty(post.title), OrEmpty(post.body), "jsonplaceholder")
  }

  datatype Emission = Emission(items: seq<ScrapedItem>, seen: set<string>, failed: bool)

  /** What the loop over the fetched posts emits, given the URLs seen before. */
  function Emit(shape: Shape, seen: set<string>, posts: seq<Post>): Emission
    requires shape.Proper()
  {
    if posts == [] then Emission([], seen, false)
    else
      var done, post := Emit(shape, seen, posts[..|posts| - 1]), posts[|posts| - 1];
      if done.failed then done
      else if post.id.None? then done.(failed := true)
      else if shape.Suspects(done.seen, UrlOf(post.id.value)) then done
      else Emission(done.items + [ItemOf(post)], done.seen + {UrlOf(post.id.value)}, false)
  }

  /** A pass fails exactly at a post without an id. */
  lemma {:induction false} FailsWithoutId(shape: Shape, seen: set<string>, posts: seq<Post>)
    requires shape.Proper()
    ensures Emit(shape, seen, posts).failed <==> exists i :: 0 <= i < |posts| && posts[i].id.None?
    decreases |posts|
  {
    if posts != [] {
      var pre, last := posts[..|posts| - 1], posts[|posts| - 1];
      FailsWithoutId(shape, seen, pre);
      if Emit(shape, seen, pre).failed {
        var i :| 0 <= i < |pre| && pre[i].id.None?;
        assert posts[i].id.None?;
      } else {
        assert forall i | 0 <= i < |pre| :: pre[i] == posts[i];
      }
    }
  }

  /** A failed pass leaves marked what the pass over the posts before the first one without an id
      marks. */
  lemma {:induction false} FailedPass(shape: Shape, seen: set<string>, posts: seq<Post>) returns (n: nat)
    requires shape.Proper() && Emit(shape, seen, posts).failed
    ensures n < |posts| && posts[n].id.None? && forall i | 0 <= i < n :: posts[i].id.Some?
    ensures !Emit(shape, seen, posts[..n]).failed
    ensures Emit(shape, seen, posts).seen == Emit(shape, seen, posts[..n]).seen
    decreases |posts|
  {
    var pre := posts[..|posts| - 1];
    if Emit(shape, seen, pre).failed {
      n := FailedPass(shape, seen, pre);
      assert pre[..n] == posts[..n];
    } else {
      n := |pre|;
      FailsWithoutId(shape, seen, pre);
      forall i | 0 <= i < n
        ensures posts[i].id.Some?
      {
        assert pre[i] == posts[i];
      }
    }
  }

  /** The URLs of the items that come from posts before the n-th, when item k comes from post
      from[k]. */
  ghost function UrlsBefore(items: seq<ScrapedItem>, from: seq<nat>, n: nat): set<string>
    requires |from| == |items|
  {
    set k | 0 <= k < |items| && from[k] < n :: items[k].url
  }

  ghost predicate Ascending(from: seq<nat>, n: nat) {
    && (forall k | 0 <= k < |from| :: from[k] < n)
    && (forall j, k | 0 <= j < k < |from| :: from[j] < from[k])
  }

  /** The item shows the post: its URL under the posts' address, its title and body, empty when
      it has none. */
  ghost predicate Shows(item: ScrapedItem, post: Post) {
    && post.id.Some? && item.url == "https://jsonplaceholder.typicode.com/posts" + "/" + post.id.value
    && item.title == (if post.title.Some? then post.title.value else "")
    && item.content == (if post.body.Some? then post.body.value else "")
    && item.source == "jsonplaceholder"
  }

  /** A post is picked exactly when the filter does not suspect its URL, given the URLs seen
      before the pass and those emitted before it. */
  ghost predicate PicksNew(shape: Shape, seen: set<string>, posts: seq<Post>, items: seq<ScrapedItem>, from: seq<nat>)
    requires shape.Proper() && |from| == |items|
  {
    forall i | 0 <= i < |posts| && posts[i].id.Some? ::
      i in from <==> !shape.Suspects(seen + UrlsBefore(items, from, i), UrlOf(posts[i].id.value))
  }

  ghost function UrlSet(items: seq<ScrapedItem>): set<string> {
    set k | 0 <= k < |items| :: items[k].url
  }

  lemma BeforeAll(items: seq<ScrapedItem>, from: seq<nat>, n: nat)
    requires |from| == |items| && Ascending(from, n)
    ensures UrlsBefore(items, from, n) == UrlSet(items)
  {
  }

  lemma BeforeGrows(items: seq<ScrapedItem>, from: seq<nat>, item: ScrapedItem, n: nat, i: nat)
    requires |from| == |items| && i <= n
    ensures UrlsBefore(items + [item], from + [n], i) == UrlsBefore(items, from, i)
  {
    var items', from' := items + [item], from + [n];
    forall u
      ensures u in UrlsBefore(items', from', i) <==> u in UrlsBefore(items, from, i)
    {
      if u in UrlsBefore(items, from, i) {
        var k :| 0 <= k < |items| && from[k] < i && items[k].url == u;
        assert items'[k] == items[k] && from'[k] == from[k];
      }
      if u in UrlsBefore(items', from', i) {
        var k :| 0 <= k < |items'| && from'[k] < i && items'[k].url == u;
        assert k < |items| && items'[k] == items[k] && from'[k] == from[k];
      }
    }
  }

  lemma SkipsSuspected(shape: Shape, seen: set<string>, pre: seq<Post>, post: Post, items: seq<ScrapedItem>, from: seq<nat>)
    requires shape.Proper() && |from| == |items| && Ascending(from, |pre|) && PicksNew(shape, seen, pre, items, from)
    requires post.id.Some? && shape.Suspects(seen + UrlSet(items), UrlOf(post.id.value))
    ensures PicksNew(shape, seen, pre + [post], items, from)
  {
    var n := |pre|;
    BeforeAll(items, from, n);
    forall i | 0 <= i < n + 1 && (pre + [post])[i].id.Some?
      ensures i in from <==> !shape.Suspects(seen + UrlsBefore(items, from, i), UrlOf((pre + [post])[i].id.value))
    {
      if i < n { assert (pre + [post])[i] == pre[i]; }
    }
  }

  lemma TakesNew(shape: Shape, seen: set<string>, pre: seq<Post>, post: Post, items: seq<ScrapedItem>, from: seq<nat>,
                 item: ScrapedItem)
    requires shape.Proper() && |from| == |items| && Ascending(from, |pre|) && PicksNew(shape, seen, pre, items, from)
    requires post.id.Some? && !shape.Suspects(seen + UrlSet(items), UrlOf(post.id.value))
    ensures PicksNew(shape, seen, pre + [post], items + [item], from + [|pre|])
  {
    var n := |pre|;
    BeforeAll(items, from, n);
    forall i: nat | i < n + 1 && (pre + [post])[i].id.Some?
      ensures i in from + [n]
         <==> !shape.Suspects(seen + UrlsBefore(items + [item], from + [n], i), UrlOf((pre + [post])[i].id.value))
    {
      BeforeGrows(items, from, item, n, i);
      if i < n {
        assert (pre + [post])[i] == pre[i];
        assert i in from + [n] <==> i in from;
      } else {
        assert (from + [n])[|from|] == n;
      }
    }
  }

  /** What a complete pass is to emit: for each new post, in the order of the posts, an item that
      shows it; and it marks exactly the URLs of these. */
  ghost predicate CompletePass(shape: Shape, seen: set<string>, posts: seq<Post>, items: seq<ScrapedItem>,
                               after: set<string>, from: seq<nat>)
    requires shape.Proper()
  {
    && |from| == |items| && Ascending(from, |posts|)
    && (forall k | 0 <= k < |from| :: Shows(items[k], posts[from[k]]))
    && PicksNew(shape, seen, posts, items, from)
    && after == seen + UrlSet(items)
  }

  lemma PassSkips(shape: Shape, seen: set<string>, pre: seq<Post>, post: Post, items: seq<ScrapedItem>,
                  after: set<string>, from: seq<nat>)
    requires shape.Proper() && CompletePass(shape, seen, pre, items, after, from)
    requires post.id.Some? && shape.Suspects(after, UrlOf(post.id.value))
    ensures CompletePass(shape, seen, pre + [post], items, after, from)
  {
    SkipsSuspected(shape, seen, pre, post, items, from);
    forall k | 0 <= k < |from|
      ensures (pre + [post])[from[k]] == pre[from[k]]
    {
    }
  }

  lemma PassTakes(shape: Shape, seen: set<string>, pre: seq<Post>, post: Post, items: seq<ScrapedItem>,
                  after: set<string>, from: seq<nat>)
    requires shape.Proper() && CompletePass(shape, seen, pre, items, after, from)
    requires post.id.Some? && !shape.Suspects(after, UrlOf(post.id.value))
    ensures CompletePass(shape, seen, pre + [post], items + [ItemOf(post)],
                         after + {UrlOf(post.id.value)}, from + [|pre|])
  {
    TakesNew(shape, seen, pre, post, items, from, ItemOf(post));
    UrlSetGrows(items, ItemOf(post));
    var items', from' := items + [ItemOf(post)], from + [|pre|];
    forall k | 0 <= k < |from'|
      ensures Shows(items'[k], (pre + [post])[from'[k]])
    {
      if k < |from| { assert items'[k] == items[k] && (pre + [post])[from'[k]] == pre[from[k]]; }
    }
  }

  lemma {:induction false} EmitsEachNewPost(shape: Shape, seen: set<string>, posts: seq<Post>) returns (from: seq<nat>)
    requires shape.Proper() && !Emit(shape, seen, posts).failed
    ensures CompletePass(shape, seen, posts, Emit(shape, seen, posts).items, Emit(shape, seen, posts).seen, from)
    decreases |posts|
  {
    if posts == [] {
      from := [];
    } else {
      var n := |posts| - 1;
      var pre, post := posts[..n], posts[n];
      var done := Emit(shape, seen, pre);
      from := EmitsEachNewPost(shape, seen, pre);
      assert pre + [post] == posts;
      if shape.Suspects(done.seen, UrlOf(post.id.value)) {
        PassSkips(shape, seen, pre, post, done.items, done.seen, from);
      } else {
        PassTakes(shape, seen, pre, post, done.items, done.seen, from);
        from := from + [n];
      }
    }
  }

  lemma UrlSetGrows(items: seq<ScrapedItem>, item: ScrapedItem)
    ensures UrlSet(items + [item]) == UrlSet(items) + {item.url}
  {
    var longer := items + [item];
    forall u | u in UrlSet(items) + {item.url}
      ensures u in UrlSet(longer)
    {
      if u == item.url {
        assert longer[|items|].url == u;
      } else {
        var k :| 0 <= k < |items| && items[k].url == u;
        assert longer[k].url == u;
      }
    }
  }

  function Urls(items: seq<ScrapedItem>): seq<string> {
    seq(|items|, i requires 0 <= i < |items| => items[i].url)
  }

  ghost predicate Distinct(urls: seq<string>) {
    forall i, j | 0 <= i < j < |urls| :: urls[i] != urls[j]
  }

  lemma DistinctTogether(earlier: seq<string>, later: seq<string>, seen: set<string>)
    requires Distinct(earlier) && Distinct(later)
    requires (forall u | u in earlier :: u in seen) && (forall u | u in later :: u !in seen)
    ensures Distinct(earlier + later)
  {
    forall i, j | 0 <= i < |earlier| && 0 <= j < |later|
      ensures earlier[i] != later[j]
    {
      assert earlier[i] in seen && later[j] !in seen;
    }
  }

  /** Emitted URLs are pairwise distinct, were not seen before, and are seen afterwards. */
  lemma {:induction false} EmitsOnlyNew(shape: Shape, seen: set<string>, posts: seq<Post>)
    requires shape.Proper()
    ensures var e := Emit(shape, seen, posts);
            && Distinct(Urls(e.items))
            && (forall u | u in Urls(e.items) :: u !in seen && u in e.seen)
            && seen <= e.seen
    decreases |posts|
  {
    if posts != [] {
      EmitsOnlyNew(shape, seen, posts[..|posts| - 1]);
      var done, e := Emit(shape, seen, posts[..|posts| - 1]), Emit(shape, seen, posts);
      if e.items != done.items {
        var url := UrlOf(posts[|posts| - 1].id.value);
        assert Urls(e.items) == Urls(done.items) + [url];
        if url in done.seen { shape.NoFalseNegatives(done.seen, url, {}); }
      }
    }
  }

  /** Nothing is dropped silently: after a complete pass every post's URL is either emitted or
      was already reported by the filter, and no later pass emits it again. */
  lemma {:induction false} EmitsOrSuspected(shape: Shape, seen: set<string>, posts: seq<Post>, i: nat)
    requires shape.Proper() && i < |posts| && !Emit(shape, seen, posts).failed
    ensures posts[i].id.Some? && shape.Suspects(Emit(shape, seen, posts).seen, UrlOf(posts[i].id.value))
    decreases |posts|
  {
    var done, e := Emit(shape, seen, posts[..|posts| - 1]), Emit(shape, seen, posts);
    if i < |posts| - 1 {
      EmitsOrSuspected(shape, seen, posts[..|posts| - 1], i);
    } else if e.seen != done.seen {
      shape.NoFalseNegatives(e.seen, UrlOf(posts[i].id.value), {});
    }
  }

  class HttpScraper {
    const seen: Filter
    ghost var emitted: seq<string>  // the URLs of all items returned so far

    ghost predicate Valid()
      reads this, seen, seen.bits
    {
      && seen.Valid() && Distinct(emitted)
      && forall u | u in emitted :: u in seen.added
    }

    constructor (shape: Shape)
      requires shape.Proper()
      ensures Valid() && emitted == [] && seen.shape == shape && seen.added == {} && fresh(seen) && fresh(seen.bits)
    {
      seen := new Filter(shape);
      emitted := [];
    }

    /** One scrape, given what the fetch delivered. All items ever returned have pairwise
        distinct URLs. */
    method Scrape(fetched: Option<seq<Post>>) returns (r: ScrapeResult)
      requires Valid()
      modifies `emitted, seen`added, seen.bits
      ensures Valid()
      ensures emitted == old(emitted) + if r.Scraped? then Urls(r.items) else []
      ensures fetched.None? ==> r == Scraped([]) && seen.added == old(seen.added)
      ensures fetched.Some? ==>
                var e := Emit(seen.shape, old(seen.added), fetched.value);
                && seen.added == e.seen
                && r == if e.failed then KeyError else Scraped(e.items)
      ensures fetched.Some? ==> (r.KeyError? <==> exists i :: 0 <= i < |fetched.value| && fetched.value[i].id.None?)
      ensures fetched.Some? && r.Scraped? ==>
                exists from :: CompletePass(seen.shape, old(seen.added), fetched.value, r.items, seen.added, from)
    {
      if fetched.None? {
        return Scraped([]);
      }
      var posts := fetched.value;
      var items: seq<ScrapedItem> := [];
      ghost var before := seen.added;
      EmitsOnlyNew(seen.shape, before, posts);
      FailsWithoutId(seen.shape, before, posts);
      for i := 0 to |posts|
        invariant seen.Valid() && emitted == old(emitted)
        invariant Emit(seen.shape, before, posts[..i]) == Emission(items, seen.added, false)
        invariant before <= seen.added
      {
        assert posts[..i + 1][..i] == posts[..i] && posts[..i + 1][i] == posts[i];
        if posts[i].id.None? {
          FailureSticks(seen.shape, before, posts, i + 1);
          return KeyError;
        }
        var url := UrlOf(posts[i].id.value);
        var suspected := seen.Contains(url);
        if !suspected {
          seen.Add(url);
          items := items + [ItemOf(posts[i])];
        }
      }
      assert posts[..|posts|] == posts;
      DistinctTogether(emitted, Urls(items), before);
      ghost var from := EmitsEachNewPost(seen.shape, before, posts);
      emitted := emitted + Urls(items);
      r := Scraped(items);
    }
  }

  lemma {:induction false} FailureSticks(shape: Shape, seen: set<string>, posts: seq<Post>, n: nat)
    requires shape.Proper() && n <= |posts| && Emit(shape, seen, posts[..n]).failed
    ensures Emit(shape, seen, posts) == Emit(shape, seen, posts[..n])
    decreases |posts|
  {
    if n < |posts| {
      assert posts[..|posts| - 1][..n] == posts[..n];
      FailureSticks(shape, seen, posts[..|posts| - 1], n);
    } else {
      assert posts[..n] == posts;
    }
  }
}
