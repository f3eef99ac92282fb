# Blog statistics helper, verified model

This project models `utils/list_helper.js` of a small blogging API: four
reductions over an in-memory list of blog records (`title`, `author`, `url`,
`likes`).

- `totalLikes` sums the likes, starting from 0.
- `favoriteBlog` returns the record with the most likes, cut down to
  `{title, author, likes}`, or `null` for an empty list. The fold replaces its
  pick only on a strict improvement, so on a tie the EARLIEST record wins.
- `mostBlogs` counts posts per author in a dictionary and returns the leader as
  `{author, blogs}`, or `null`.
- `mostLikes` sums likes per author in a dictionary and returns the leader as
  `{author, likes}`, or `null`.

The last two pick their leader with `>=` while walking the dictionary's keys,
so among tied authors the LAST one in key order wins. The model treats every
author name as an ordinary string key of a fresh dictionary. Such a dictionary
lists its keys in insertion order: the order in which authors are first seen in
the list. Names that the JavaScript object inherits from its prototype break
this assumption; they are listed under "## Left out".

Everything is in `list_helper.dfy`, module `ListHelper`:

- `totalLikes` and `favoriteBlog` are written with `reduce` in the source.
  They are modelled as recursive functions (`TotalLikes`, and `Reduce` over the
  reducer `Favor`). Both are left folds, defined by peeling off the last record.
- `mostBlogs` and `mostLikes` update a dictionary inside `forEach` and then
  update a leader object inside `for...in`. They are modelled as methods.
  `CountPosts` and `SumLikes` fill a `map<string, nat>` and a key sequence in
  insertion order. `SelectLeader` is the `for...in` loop, which is the same in
  both functions.
- Their results are specified against reference functions: `Authors`
  (distinct authors in first-seen order), `PostsBy` and `LikesBy` (per-author
  count and sum). The predicates `IsMostBlogs` and `IsMostLikes` state the
  leader and its tie-break.
- The dictionary update `d[a] ? d[a] + w : w` is modelled as written: an entry
  that is absent or 0 is overwritten with `w`. For `mostLikes` an entry can
  hold 0, and overwriting it gives the same sum as adding.
- `null` is `None` of an `Option` datatype.
- The input is a Dafny `seq`, which is a value. So no operation can change the
  caller's list, and each result is a new value.

## Model

| member | source | states |
|---|---|---|
| ListHelper.TotalLikes | utils/list_helper.js:5-11 | the left fold `sum + item.likes` from 0 over the records: the sum of all likes, 0 for the empty list |
| ListHelper.TotalLikesBound | utils/list_helper.js:5-11 | the total is at least the likes of every record |
| ListHelper.TotalLikesAppend | utils/list_helper.js:5-11 | the total of a concatenation is the sum of the totals, so appending a record adds its likes (and the empty list totals 0) |
| ListHelper.TotalLikesRemove | utils/list_helper.js:5-11 | taking one record out of the list takes exactly its likes out of the total |
| ListHelper.TotalLikesPermutation | utils/list_helper.js:5-11 | two lists with the same records in any order have the same total |
| ListHelper.Favor | utils/list_helper.js:17-19 | the reducer returns one of its two arguments, with likes at least both, and keeps the current favorite on a tie |
| ListHelper.Reduce | utils/list_helper.js:21 | `blogs.reduce(reducer, seed)`, the left fold of `Favor` from the seed: its result is the seed or one of the records, and has at least the seed's likes |
| ListHelper.Summarize | utils/list_helper.js:23-27 | the projection of a record to `{title, author, likes}`, dropping the url |
| ListHelper.FavoriteBlog | utils/list_helper.js:13-31 | the result is `null` exactly when the list is empty |
| ListHelper.ReduceFindsEarliestMaximum | utils/list_helper.js:17-21 | the fold seeded with the first record returns record k, where k is the lowest index whose likes are at least every record's |
| ListHelper.FavoriteBlogIsEarliestMaximum | utils/list_helper.js:13-31 | for a non-empty list the result is the title, author and likes of the earliest record with the most likes |
| ListHelper.EarliestMaximumUnique | utils/list_helper.js:18 | at most one index is the earliest maximum, so the favorite is fully determined |
| ListHelper.AuthorsOfRecords | utils/list_helper.js:39 | the dictionary's keys are distinct and are exactly the authors of the records |
| ListHelper.AuthorsOfPrefix | utils/list_helper.js:39 | keys are in first-seen order: the authors of any prefix of the list are a prefix of the authors of the whole list |
| ListHelper.AuthorsArePosters | utils/list_helper.js:39 | an author is a key exactly when they wrote a record; an author who is not a key has 0 likes |
| ListHelper.LikesByAtMostTotal | utils/list_helper.js:63-64 | one author's summed likes never exceed the total likes |
| ListHelper.OverAppend | utils/list_helper.js:39-64 | one more record adds one post and its likes to the sums over any distinct authors that include its author, and nothing otherwise |
| ListHelper.GroupingPartitions | utils/list_helper.js:37-64 | the per-author counts add up to the number of records, and the per-author sums add up to the total likes |
| ListHelper.CountPosts | utils/list_helper.js:37-39 | the dictionary holds exactly the authors, in first-seen order, each mapped to their number of records |
| ListHelper.SumLikes | utils/list_helper.js:61-64 | the dictionary holds exactly the authors, in first-seen order, each mapped to the sum of their likes |
| ListHelper.SelectLeader | utils/list_helper.js:41-51 | the `>=` scan returns ("", 0) for no keys; otherwise a key with the greatest total and that total, and every key after it has a strictly smaller total (the last tied key wins) |
| ListHelper.MostBlogs | utils/list_helper.js:33-54 | `null` exactly for the empty list; otherwise an author of the list, with their own post count, at least every author's count, and every author first seen after them has fewer posts |
| ListHelper.MostBlogsUnique | utils/list_helper.js:46-51 | at most one author and count satisfy the mostBlogs specification |
| ListHelper.MostLikes | utils/list_helper.js:57-79 | `null` exactly for the empty list; otherwise an author of the list, with their own summed likes, at least every author's sum, and every author first seen after them has fewer likes |
| ListHelper.MostLikesUnique | utils/list_helper.js:71-76 | at most one author and sum satisfy the mostLikes specification |

## Left out

- `dummy` (utils/list_helper.js:1-3) always returns 1 and is not modelled.
- The HTTP handlers, the database and token code (controllers/blogs.js), server start-up (index.js) and configuration (utils/config.js) are not part of this model. The aggregation functions are pure and do not call them.
- `likes` is a `nat`. Upstream defaults a missing `likes` to 0 (controllers/blogs.js:37-39), and the model assumes no record has negative likes. With negative sums the source's leader scan, which starts from `{author: "", likes: 0}`, could return the empty author. The model does not capture that.
- JavaScript numbers are doubles and are exact only up to 2^53. The model's sums are unbounded integers.
- CountPosts: author names that a plain `{}` inherits from `Object.prototype` (such as "constructor", "toString" or "__proto__") are not modelled. The source reads such a name through the prototype at utils/list_helper.js:39. A function is truthy, so the first post by "constructor" stores the string concatenation of the function's source text and 1, not the count 1. Assigning to "__proto__" stores no key at all. The model counts every name as an ordinary key.
- SumLikes: the same prototype-name behaviour at utils/list_helper.js:63-64 is not modelled. There the inherited function is concatenated with the likes.
- MostBlogs: for prototype-named authors the result differs from the source. A string compared with a number by `>=` (utils/list_helper.js:47) is false, so such an author never leads in the source. For authors ["constructor", "constructor", "Ann"] the source returns {author: "Ann", blogs: 1}, while the model returns BlogCount("constructor", 2). If every author is "toString", the source returns {author: "", blogs: 0}, while the model returns that author.
- MostLikes: the same divergence for prototype-named authors at utils/list_helper.js:72. If every author is "toString", the source returns {author: "", likes: 0}.
- JavaScript objects list integer-like keys (such as an author named "42") before the other keys. The model always uses insertion order for author keys.
- The concrete test scenarios in tests/blog.test.js rely on tests/test_helper.js, which is not part of this model. Their general properties are proved above: the empty-list results and the maximum and tie-break rules.
