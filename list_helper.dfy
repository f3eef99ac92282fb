/*
 * The blog-statistics helper: four reductions over an in-memory list of
 * blog records (utils/list_helper.js).
 *
 *  - TotalLikes  sums the likes (a left fold starting at 0);
 *  - FavoriteBlog returns the record with the most likes, without its url,
 *    keeping the EARLIEST record on a tie;
 *  - MostBlogs   counts posts per author and returns the leader;
 *  - MostLikes   sums likes per author and returns the leader;
 *    both keep the LAST tied author in first-seen order.
 *
 * The input is a `seq`, a value: no operation here can change it.
 */
module ListHelper {

  /** A stored blog post. Upstream sets a missing `likes` to 0, so it is never negative. */
  datatype Blog = Blog(title: string, author: string, url: string, likes: nat)

  /** What `favoriteBlog` returns: the record cut down to title, author and likes. */
  datatype BlogSummary = BlogSummary(title: string, author: string, likes: nat)

  /** What `mostBlogs` returns: an author and their number of posts. */
  datatype BlogCount = BlogCount(author: string, blogs: nat)

  /** What `mostLikes` returns: an author and the likes summed over their posts. */
  datatype LikeCount = LikeCount(author: string, likes: nat)

  /** `null` in the source is `None` here. */
  datatype Option<T> = None | Some(value: T)

  // ---------------------------------------------------------------------------
  // totalLikes
  // ---------------------------------------------------------------------------

  /** `blogs.reduce((sum, item) => sum + item.likes, 0)`: a left fold, written
      by peeling off the last record. */
  function TotalLikes(blogs: seq<Blog>): nat
  {
    if |blogs| == 0 then 0
    else TotalLikes(blogs[..|blogs| - 1]) + blogs[|blogs| - 1].likes
  }

  /** No record has more likes than the total. */
  lemma {:induction false} TotalLikesBound(blogs: seq<Blog>, i: int)
    requires 0 <= i < |blogs|
    ensures blogs[i].likes <= TotalLikes(blogs)
    decreases |blogs|
  {
    if i < |blogs| - 1 {
      TotalLikesBound(blogs[..|blogs| - 1], i);
    }
  }

  /** Appending records adds their likes: the fold is a homomorphism from
      concatenation to addition. */
  lemma {:induction false} TotalLikesAppend(s: seq<Blog>, t: seq<Blog>)
    ensures TotalLikes(s + t) == TotalLikes(s) + TotalLikes(t)
    decreases |t|
  {
    if |t| == 0 {
      assert s + t == s;
    } else {
      var t' := t[..|t| - 1];
      assert (s + t)[..|s + t| - 1] == s + t';
      TotalLikesAppend(s, t');
    }
  }

  /** Taking record `i` out of the list takes its likes out of the total. */
  lemma TotalLikesRemove(t: seq<Blog>, i: int)
    requires 0 <= i < |t|
    ensures TotalLikes(t) == TotalLikes(t[..i] + t[i + 1..]) + t[i].likes
  {
    var before, after := t[..i], t[i + 1..];
    assert t == (before + [t[i]]) + after;
    TotalLikesAppend(before + [t[i]], after);
    TotalLikesAppend(before, after);
    assert (before + [t[i]])[..|before|] == before;
  }

  /** The total does not depend on the order of the records. */
  lemma {:induction false} TotalLikesPermutation(s: seq<Blog>, t: seq<Blog>)
    requires multiset(s) == multiset(t)
    ensures TotalLikes(s) == TotalLikes(t)
    decreases |s|
  {
    if |s| == 0 {
      assert |t| == |multiset(t)| == 0;
    } else {
      var x := s[|s| - 1];
      var s' := s[..|s| - 1];
      assert s == s' + [x];
      assert x in multiset(t);
      var i :| 0 <= i < |t| && t[i] == x;
      var t' := t[..i] + t[i + 1..];
      assert t == t[..i] + [x] + t[i + 1..];
      assert multiset(s') == multiset(s) - multiset{x};
      assert multiset(t') == multiset(t) - multiset{x};
      TotalLikesPermutation(s', t');
      TotalLikesRemove(t, i);
    }
  }

  // ---------------------------------------------------------------------------
  // favoriteBlog
  // ---------------------------------------------------------------------------

  /** The reducer of `favoriteBlog`: the incoming record replaces the current
      favorite only when it has strictly more likes. */
  function Favor(favorite: Blog, item: Blog): (next: Blog)
    ensures next == favorite || next == item
    ensures favorite.likes <= next.likes && item.likes <= next.likes
    ensures next.likes == favorite.likes ==> next == favorite
  {
    if favorite.likes < item.likes then item else favorite
  }

  /** `blogs.reduce(Favor, favorite)`, as a left fold. The result is the seed
      or one of the records, and never has fewer likes than the seed. */
  function Reduce(favorite: Blog, blogs: seq<Blog>): (r: Blog)
    ensures r == favorite || r in blogs
    ensures favorite.likes <= r.likes
  {
    if |blogs| == 0 then favorite
    else Favor(Reduce(favorite, blogs[..|blogs| - 1]), blogs[|blogs| - 1])
  }

  /** Record `k` has the most likes, and every record before it has fewer. */
  ghost predicate IsEarliestMaximum(blogs: seq<Blog>, k: int)
  {
    && 0 <= k < |blogs|
    && (forall i :: 0 <= i < |blogs| ==> blogs[i].likes <= blogs[k].likes)
    && (forall i :: 0 <= i < k ==> blogs[i].likes < blogs[k].likes)
  }

  /** The projection `{title, author, likes}`. */
  function Summarize(blog: Blog): BlogSummary
  {
    BlogSummary(blog.title, blog.author, blog.likes)
  }

  /** `favoriteBlog`: `null` exactly for the empty list, otherwise the fold
      seeded with the first record, projected. */
  function FavoriteBlog(blogs: seq<Blog>): (favorite: Option<BlogSummary>)
    ensures favorite.None? <==> |blogs| == 0
  {
    if |blogs| == 0 then None
    else Some(Summarize(Reduce(blogs[0], blogs)))
  }

  /** The fold seeded with the first record stops at the earliest record
      that has the maximum number of likes. */
  lemma {:induction false} ReduceFindsEarliestMaximum(blogs: seq<Blog>)
    requires |blogs| > 0
    ensures exists k :: IsEarliestMaximum(blogs, k) && Reduce(blogs[0], blogs) == blogs[k]
    decreases |blogs|
  {
    var n := |blogs|;
    var front := blogs[..n - 1];
    if n == 1 {
      assert Reduce(blogs[0], front) == blogs[0];
      assert IsEarliestMaximum(blogs, 0);
    } else {
      assert front[0] == blogs[0];
      ReduceFindsEarliestMaximum(front);
      var k :| IsEarliestMaximum(front, k) && Reduce(front[0], front) == front[k];
      assert Reduce(blogs[0], blogs) == Favor(blogs[k], blogs[n - 1]);
      assert forall i :: 0 <= i < n - 1 ==> blogs[i] == front[i];
      if blogs[k].likes < blogs[n - 1].likes {
        assert IsEarliestMaximum(blogs, n - 1);
      } else {
        assert IsEarliestMaximum(blogs, k);
      }
    }
  }

  /** For a non-empty list, `favoriteBlog` returns the title, author and
      likes of the first record whose likes are at least every record's. */
  lemma FavoriteBlogIsEarliestMaximum(blogs: seq<Blog>)
    requires |blogs| > 0
    ensures exists k :: IsEarliestMaximum(blogs, k) && FavoriteBlog(blogs) == Some(Summarize(blogs[k]))
  {
    ReduceFindsEarliestMaximum(blogs);
  }

  /** The favorite is determined: at most one index is the earliest maximum. */
  lemma EarliestMaximumUnique(blogs: seq<Blog>, j: int, k: int)
    requires IsEarliestMaximum(blogs, j) && IsEarliestMaximum(blogs, k)
    ensures j == k
  {
    assert blogs[j].likes <= blogs[k].likes && blogs[k].likes <= blogs[j].likes;
  }

  // ---------------------------------------------------------------------------
  // Per-author grouping (the dictionaries of mostBlogs and mostLikes)
  // ---------------------------------------------------------------------------

  /** No key occurs twice, as in the keys of a dictionary. */
  ghost predicate Distinct(keys: seq<string>)
  {
    forall i, j :: 0 <= i < j < |keys| ==> keys[i] != keys[j]
  }

  /** The authors of `blogs`, each once, in the order in which they first
      occur: the key order of a dictionary filled record by record. */
  function Authors(blogs: seq<Blog>): seq<string>
  {
    if |blogs| == 0 then []
    else
      var order := Authors(blogs[..|blogs| - 1]);
      var author := blogs[|blogs| - 1].author;
      if author in order then order else order + [author]
  }

  /** Each author is listed once, and the listed authors are exactly those
      of the records. */
  lemma {:induction false} AuthorsOfRecords(blogs: seq<Blog>)
    ensures Distinct(Authors(blogs))
    ensures forall i :: 0 <= i < |blogs| ==> blogs[i].author in Authors(blogs)
    ensures forall a :: a in Authors(blogs) ==> exists i :: 0 <= i < |blogs| && blogs[i].author == a
    decreases |blogs|
  {
    if |blogs| > 0 {
      var front := blogs[..|blogs| - 1];
      AuthorsOfRecords(front);
      assert forall i :: 0 <= i < |front| ==> blogs[i] == front[i];
    }
  }

  /** Authors are listed in first-seen order: the authors of any prefix of
      the records are a prefix of the authors of all of them. */
  lemma {:induction false} AuthorsOfPrefix(blogs: seq<Blog>, n: nat)
    requires n <= |blogs|
    ensures Authors(blogs[..n]) <= Authors(blogs)
    decreases |blogs| - n
  {
    if n < |blogs| {
      AuthorsOfPrefix(blogs, n + 1);
      assert blogs[..n + 1][..n] == blogs[..n];
    } else {
      assert blogs[..n] == blogs;
    }
  }

  /** The number of records written by `author`. */
  function PostsBy(blogs: seq<Blog>, author: string): nat
  {
    if |blogs| == 0 then 0
    else PostsBy(blogs[..|blogs| - 1], author) + (if blogs[|blogs| - 1].author == author then 1 else 0)
  }

  /** The likes summed over the records written by `author`. */
  function LikesBy(blogs: seq<Blog>, author: string): nat
  {
    if |blogs| == 0 then 0
    else LikesBy(blogs[..|blogs| - 1], author) + (if blogs[|blogs| - 1].author == author then blogs[|blogs| - 1].likes else 0)
  }

  /** An author is listed exactly when they wrote at least one record; an
      author who is not listed has no likes. */
  lemma {:induction false} AuthorsArePosters(blogs: seq<Blog>, author: string)
    ensures author in Authors(blogs) <==> PostsBy(blogs, author) > 0
    ensures author !in Authors(blogs) ==> LikesBy(blogs, author) == 0
    decreases |blogs|
  {
    if |blogs| > 0 {
      AuthorsArePosters(blogs[..|blogs| - 1], author);
    }
  }

  /** One author's likes never exceed the total. */
  lemma {:induction false} LikesByAtMostTotal(blogs: seq<Blog>, author: string)
    ensures LikesBy(blogs, author) <= TotalLikes(blogs)
    decreases |blogs|
  {
    if |blogs| > 0 {
      LikesByAtMostTotal(blogs[..|blogs| - 1], author);
    }
  }

  /** The posts of the authors in `keys`, added up. */
  function PostsOver(blogs: seq<Blog>, keys: seq<string>): nat
  {
    if |keys| == 0 then 0
    else PostsOver(blogs, keys[..|keys| - 1]) + PostsBy(blogs, keys[|keys| - 1])
  }

  /** The likes of the authors in `keys`, added up. */
  function LikesOver(blogs: seq<Blog>, keys: seq<string>): nat
  {
    if |keys| == 0 then 0
    else LikesOver(blogs, keys[..|keys| - 1]) + LikesBy(blogs, keys[|keys| - 1])
  }

  /** One more record adds one post, and its likes, to the sums over a set of
      distinct authors that contains its author, and nothing otherwise. */
  lemma {:induction false} OverAppend(blogs: seq<Blog>, blog: Blog, keys: seq<string>)
    requires Distinct(keys)
    ensures PostsOver(blogs + [blog], keys) == PostsOver(blogs, keys) + if blog.author in keys then 1 else 0
    ensures LikesOver(blogs + [blog], keys) == LikesOver(blogs, keys) + if blog.author in keys then blog.likes else 0
    decreases |keys|
  {
    if |keys| > 0 {
      var front := keys[..|keys| - 1];
      assert Distinct(front);
      assert blog.author in keys <==> blog.author in front || blog.author == keys[|keys| - 1];
      OverAppend(blogs, blog, front);
      assert (blogs + [blog])[..|blogs|] == blogs;
    }
  }

  /** Grouping by author loses no record and no like: the per-author counts
      add up to the number of records, and the per-author sums to the total
      likes. */
  lemma {:induction false} GroupingPartitions(blogs: seq<Blog>)
    ensures PostsOver(blogs, Authors(blogs)) == |blogs|
    ensures LikesOver(blogs, Authors(blogs)) == TotalLikes(blogs)
    decreases |blogs|
  {
    if |blogs| > 0 {
      var front, blog := blogs[..|blogs| - 1], blogs[|blogs| - 1];
      assert blogs == front + [blog];
      GroupingPartitions(front);
      AuthorsOfRecords(front);
      OverAppend(front, blog, Authors(front));
      if blog.author !in Authors(front) {
        AuthorsArePosters(front, blog.author);
        assert (Authors(front) + [blog.author])[..|Authors(front)|] == Authors(front);
      }
    }
  }

  // ---------------------------------------------------------------------------
  // Leader selection (the `for...in` loop of mostBlogs and mostLikes)
  // ---------------------------------------------------------------------------

  /** Scans `order` starting from the leader ("", 0) and replaces the leader
      whenever an author's total is at least the leader's (`>=`). So the
      result is an author with the greatest total, and among tied authors the
      LAST one in `order`. */
  method SelectLeader(totals: map<string, nat>, order: seq<string>) returns (author: string, total: nat)
    requires Distinct(order)
    requires forall a :: a in order ==> a in totals
    ensures |order| == 0 ==> author == "" && total == 0
    ensures |order| > 0 ==> author in order && total == totals[author]
    ensures forall a :: a in order ==> totals[a] <= total
    ensures forall i, j :: 0 <= i < j < |order| && order[i] == author ==> totals[order[j]] < total
  {
    author, total := "", 0;
    ghost var k := 0;
    for n := 0 to |order|
      invariant n > 0 ==> 0 <= k < n && author == order[k] && total == totals[author]
      invariant n == 0 ==> author == "" && total == 0
      invariant forall i :: 0 <= i < n ==> totals[order[i]] <= total
      invariant forall i :: k < i < n ==> totals[order[i]] < total
    {
      if totals[order[n]] >= total {
        author, total := order[n], totals[order[n]];
        k := n;
      }
    }
  }

  // ---------------------------------------------------------------------------
  // mostBlogs
  // ---------------------------------------------------------------------------

  /** `leader` is an author of `blogs` with as many posts as anybody, reported
      with their own count, and every author listed after them in first-seen
      order has strictly fewer posts. */
  ghost predicate IsMostBlogs(blogs: seq<Blog>, leader: BlogCount)
  {
    var order := Authors(blogs);
    && leader.author in order
    && leader.blogs == PostsBy(blogs, leader.author)
    && (forall a :: PostsBy(blogs, a) <= leader.blogs)
    && (forall i, j :: 0 <= i < j < |order| && order[i] == leader.author ==> PostsBy(blogs, order[j]) < leader.blogs)
  }

  /** The `forEach` of `mostBlogs`: a dictionary from author to number of
      posts, filled record by record (`counts[a] ? counts[a] + 1 : 1`),
      together with its keys in insertion order. */
  method CountPosts(blogs: seq<Blog>) returns (counts: map<string, nat>, order: seq<string>)
    ensures order == Authors(blogs)
    ensures forall a :: a in counts <==> a in order
    ensures forall a :: a in counts ==> counts[a] == PostsBy(blogs, a)
  {
    counts, order := map[], [];
    for i := 0 to |blogs|
      invariant order == Authors(blogs[..i])
      invariant forall a :: a in counts <==> a in order
      invariant forall a :: a in counts ==> counts[a] == PostsBy(blogs[..i], a)
    {
      var author := blogs[i].author;
      assert blogs[..i + 1][..i] == blogs[..i];
      assert forall a :: PostsBy(blogs[..i + 1], a) == PostsBy(blogs[..i], a) + if a == author then 1 else 0;
      AuthorsArePosters(blogs[..i], author);
      if author !in counts {
        order := order + [author];
      }
      counts := counts[author := if author in counts && counts[author] != 0 then counts[author] + 1 else 1];
    }
    assert blogs[..|blogs|] == blogs;
  }

  /** `mostBlogs`: `null` exactly for the empty list; otherwise counts the
      posts per author in a dictionary, then picks the leader. */
  method MostBlogs(blogs: seq<Blog>) returns (top: Option<BlogCount>)
    ensures top.None? <==> |blogs| == 0
    ensures top.Some? ==> IsMostBlogs(blogs, top.value)
  {
    if |blogs| == 0 {
      return None;
    }
    var counts, order := CountPosts(blogs);
    AuthorsOfRecords(blogs);
    var author, n := SelectLeader(counts, order);
    top := Some(BlogCount(author, n));
    forall a ensures PostsBy(blogs, a) <= n {
      AuthorsArePosters(blogs, a);
    }
  }

  /** The result of `mostBlogs` is determined by the records alone. */
  lemma MostBlogsUnique(blogs: seq<Blog>, x: BlogCount, y: BlogCount)
    requires IsMostBlogs(blogs, x) && IsMostBlogs(blogs, y)
    ensures x == y
  {
  }

  // ---------------------------------------------------------------------------
  // mostLikes
  // ---------------------------------------------------------------------------

  /** `leader` is an author of `blogs` with as many likes as anybody, reported
      with their own sum, and every author listed after them in first-seen
      order has strictly fewer likes. */
  ghost predicate IsMostLikes(blogs: seq<Blog>, leader: LikeCount)
  {
    var order := Authors(blogs);
    && leader.author in order
    && leader.likes == LikesBy(blogs, leader.author)
    && (forall a :: LikesBy(blogs, a) <= leader.likes)
    && (forall i, j :: 0 <= i < j < |order| && order[i] == leader.author ==> LikesBy(blogs, order[j]) < leader.likes)
  }

  /** The `forEach` of `mostLikes`: a dictionary from author to summed
      likes, filled record by record (`sums[a] ? sums[a] + likes : likes`),
      together with its keys in insertion order. A present entry holding 0 is
      falsy in the source and is overwritten with the record's likes, which
      is the same as adding them. */
  method SumLikes(blogs: seq<Blog>) returns (sums: map<string, nat>, order: seq<string>)
    ensures order == Authors(blogs)
    ensures forall a :: a in sums <==> a in order
    ensures forall a :: a in sums ==> sums[a] == LikesBy(blogs, a)
  {
    sums, order := map[], [];
    for i := 0 to |blogs|
      invariant order == Authors(blogs[..i])
      invariant forall a :: a in sums <==> a in order
      invariant forall a :: a in sums ==> sums[a] == LikesBy(blogs[..i], a)
    {
      var blog := blogs[i];
      assert blogs[..i + 1][..i] == blogs[..i];
      assert forall a :: LikesBy(blogs[..i + 1], a) == LikesBy(blogs[..i], a) + if a == blog.author then blog.likes else 0;
      AuthorsArePosters(blogs[..i], blog.author);
      if blog.author !in sums {
        order := order + [blog.author];
      }
      sums := sums[blog.author := if blog.author in sums && sums[blog.author] != 0 then sums[blog.author] + blog.likes else blog.likes];
    }
    assert blogs[..|blogs|] == blogs;
  }

  /** `mostLikes`: `null` exactly for the empty list; otherwise sums the
      likes per author in a dictionary, then picks the leader. */
  method MostLikes(blogs: seq<Blog>) returns (top: Option<LikeCount>)
    ensures top.None? <==> |blogs| == 0
    ensures top.Some? ==> IsMostLikes(blogs, top.value)
  {
    if |blogs| == 0 {
      return None;
    }
    var sums, order := SumLikes(blogs);
    AuthorsOfRecords(blogs);
    var author, n := SelectLeader(sums, order);
    top := Some(LikeCount(author, n));
    forall a ensures LikesBy(blogs, a) <= n {
      AuthorsArePosters(blogs, a);
    }
  }

  /** The result of `mostLikes` is determined by the records alone. */
  lemma MostLikesUnique(blogs: seq<Blog>, x: LikeCount, y: LikeCount)
    requires IsMostLikes(blogs, x) && IsMostLikes(blogs, y)
    ensures x == y
  {
  }
}
