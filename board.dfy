/** The records of the bulletin board and the read-only queries over them:
    lookup by password, the comments of an article, substring search and the page views. */
module Board {
  import opened Wrappers
  import opened Seqs

  /** An article as stored in articles.json. Both fields are optional because the confirm
      step can store an empty record `{}`; `created_at` is never assigned, so it is not a field. */
  datatype Article = Article(password: Option<string>, message: Option<string>)

  /** The empty record `{}` that the session draft slot holds when nothing is pending. */
  const EmptyRecord: Article := Article(None, None)

  /** A comment as stored in comments.json; `articleId` is the password of the article it belongs to. */
  datatype Comment = Comment(author: string, content: string, articleId: string)

  /** Reading articles.json re-sorts it by a key that no record has, so the loaded order
      is an unspecified permutation of the stored one: the same records, as often. */
  predicate IsLoadOrder(loaded: seq<Article>, stored: seq<Article>)
    ensures IsLoadOrder(loaded, stored) ==> |loaded| == |stored|
    ensures IsLoadOrder(loaded, stored) ==> forall i :: 0 <= i < |loaded| ==> loaded[i] in multiset(stored)
  {
    multiset(loaded) == multiset(stored)
  }

  /** A store holding a single record loads as exactly that record. */
  lemma LoadOfSingle(loaded: seq<Article>, a: Article)
    requires IsLoadOrder(loaded, [a])
    ensures loaded == [a]
  {
    assert |loaded| == |multiset(loaded)| == 1;
    assert loaded[0] in multiset(loaded);
  }

  /** The article's identifier test: `article[:password] == id`. */
  function HasPassword(id: string): Article -> bool
  {
    (a: Article) => a.password == Some(id)
  }

  /** The comment's owner test: `comment[:article_id] == id`. */
  function OfArticle(id: string): Comment -> bool
  {
    (c: Comment) => c.articleId == id
  }

  /** The articles that survive deleting `id` (`reject!` on the loaded list). */
  function WithoutArticle(loaded: seq<Article>, id: string): (r: seq<Article>)
    ensures forall i :: 0 <= i < |r| ==> r[i] in loaded && r[i].password != Some(id)
    ensures forall i :: 0 <= i < |loaded| && loaded[i].password != Some(id) ==> loaded[i] in r
  {
    Filter(Not(HasPassword(id)), loaded)
  }

  /** The comments that survive deleting the comments of `id` (`reject!` on comments.json). */
  function WithoutComments(comments: seq<Comment>, id: string): (r: seq<Comment>)
    ensures forall i :: 0 <= i < |r| ==> r[i] in comments && r[i].articleId != id
    ensures forall i :: 0 <= i < |comments| && comments[i].articleId != id ==> comments[i] in r
  {
    Filter(Not(OfArticle(id)), comments)
  }

  /** The stored comments of article `id`, in stored order (`load_comments_for_article`). */
  function CommentsFor(comments: seq<Comment>, id: string): (r: seq<Comment>)
    ensures forall i :: 0 <= i < |r| ==> r[i] in comments && r[i].articleId == id
    ensures forall i :: 0 <= i < |comments| && comments[i].articleId == id ==> comments[i] in r
  {
    Filter(OfArticle(id), comments)
  }

  /** The first loaded article whose password is `id`, or nothing (`load_article_by_password`). */
  function FindByPassword(loaded: seq<Article>, id: string): (r: Option<Article>)
    ensures r.None? <==> forall i :: 0 <= i < |loaded| ==> loaded[i].password != Some(id)
    ensures r.Some? ==> exists i :: 0 <= i < |loaded| && loaded[i] == r.value && r.value.password == Some(id)
                                    && forall j :: 0 <= j < i ==> loaded[j].password != Some(id)
  {
    Detect(HasPassword(id), loaded)
  }

  /** Deleting an article removes every record with that password, however many there are,
      and keeps each other record exactly as often as before. */
  lemma DeleteArticleMultiplicity(loaded: seq<Article>, id: string, a: Article)
    ensures multiset(WithoutArticle(loaded, id))[a] == if a.password == Some(id) then 0 else multiset(loaded)[a]
  {
    FilterMultiplicity(Not(HasPassword(id)), loaded, a);
  }

  /** Deleting keeps the surviving records in their loaded relative order. */
  lemma DeleteArticleKeepsOrder(front: seq<Article>, back: seq<Article>, id: string)
    ensures WithoutArticle(front + back, id) == WithoutArticle(front, id) + WithoutArticle(back, id)
  {
    FilterConcat(Not(HasPassword(id)), front, back);
  }

  /** Deleting the same identifier twice gives the result of deleting it once. */
  lemma DeleteArticleIdempotent(loaded: seq<Article>, id: string)
    ensures WithoutArticle(WithoutArticle(loaded, id), id) == WithoutArticle(loaded, id)
  {
    FilterIdempotent(Not(HasPassword(id)), loaded);
  }

  /** Deleting an identifier no record has rewrites the list unchanged, and only then. */
  lemma DeleteArticleNoMatch(loaded: seq<Article>, id: string)
    ensures WithoutArticle(loaded, id) == loaded <==> forall i :: 0 <= i < |loaded| ==> loaded[i].password != Some(id)
  {
    FilterKeepsAll(Not(HasPassword(id)), loaded);
  }

  /** Deleting the comments of an article keeps the others in stored order, and twice is once. */
  lemma DeleteCommentsOrderAndIdempotence(front: seq<Comment>, back: seq<Comment>, id: string)
    ensures WithoutComments(front + back, id) == WithoutComments(front, id) + WithoutComments(back, id)
    ensures WithoutComments(WithoutComments(front, id), id) == WithoutComments(front, id)
  {
    FilterConcat(Not(OfArticle(id)), front, back);
    FilterIdempotent(Not(OfArticle(id)), front);
  }

  /** After the comments of `id` are deleted, none are listed for `id`. */
  lemma NoCommentsAfterDelete(comments: seq<Comment>, id: string)
    ensures CommentsFor(WithoutComments(comments, id), id) == []
  {
    var rest := WithoutComments(comments, id);
    FilterKeepsNone(OfArticle(id), rest);
  }

  /** Appending comments extends the list of each article by the appended comments that belong to it. */
  lemma CommentsForAppend(comments: seq<Comment>, created: seq<Comment>, id: string)
    ensures CommentsFor(comments + created, id) == CommentsFor(comments, id) + CommentsFor(created, id)
  {
    FilterConcat(OfArticle(id), comments, created);
  }

  /** Creating `n` comments for `id` and `m` for other articles, in any interleaving,
      adds exactly `n` to the comments listed for `id`. */
  lemma CommentCountAfterCreations(comments: seq<Comment>, created: seq<Comment>, id: string, n: nat, m: nat)
    requires |created| == n + m
    requires |WithoutComments(created, id)| == m
    ensures |CommentsFor(comments + created, id)| == |CommentsFor(comments, id)| + n
  {
    CommentsForAppend(comments, created, id);
    FilterPartition(OfArticle(id), created);
  }

  /** Ruby's `String#include?`: `q` occurs in `s` as a contiguous run. */
  predicate Contains(s: string, q: string)
    ensures q == [] ==> Contains(s, q)
    ensures Contains(s, q) ==> |q| <= |s|
  {
    q <= s || (s != [] && Contains(s[1..], q))
  }

  /** `q` occurs in `s` starting at offset `k`. */
  predicate OccursAt(s: string, q: string, k: int)
  {
    0 <= k <= |s| - |q| && s[k..k + |q|] == q
  }

  /** `Contains` is occurrence at some offset; in particular the empty string occurs everywhere. */
  lemma {:induction false} ContainsIff(s: string, q: string)
    ensures Contains(s, q) <==> exists k :: OccursAt(s, q, k)
  {
    if q <= s {
      assert OccursAt(s, q, 0);
    } else if s != [] {
      ContainsIff(s[1..], q);
      if Contains(s[1..], q) {
        var k :| OccursAt(s[1..], q, k);
        assert OccursAt(s, q, k + 1);
      }
      if exists k :: OccursAt(s, q, k) {
        var k :| OccursAt(s, q, k);
        assert OccursAt(s[1..], q, k - 1);
      }
    }
  }

  /** Every character of a contained string occurs in the containing one. */
  lemma ContainsOnlyOwnChars(s: string, q: string, c: char)
    requires Contains(s, q) && c in q
    ensures c in s
  {
    ContainsIff(s, q);
    var k :| OccursAt(s, q, k);
    var j :| 0 <= j < |q| && q[j] == c;
    assert s[k + j] == s[k..k + |q|][j];
  }

  /** The Ruby exceptions the search block can raise. */
  datatype Fault =
    | NilReceiver   // `nil.include?`: the record lacks the field (NoMethodError)
    | NilQuery      // `s.include?(nil)`: the request has no `query` (TypeError)

  /** The search block for one article: `password.include?(q) || message.include?(q)`,
      with Ruby's short-circuit, so `message` is only looked at when `password` does not match. */
  function Matches(a: Article, query: Option<string>): (r: Result<bool, Fault>)
    ensures query.None? ==> r.Failure?
    ensures query.Some? ==> (r.Success? <==> Evaluable(a, query.value))
    ensures r.Success? ==> r.value == Hit(query.value)(a)
  {
    match a.password
    case None => Failure(NilReceiver)
    case Some(p) =>
      match query
      case None => Failure(NilQuery)
      case Some(q) =>
        if Contains(p, q) then Success(true)
        else
          match a.message
          case None => Failure(NilReceiver)
          case Some(m) => Success(Contains(m, q))
  }

  /** The article's password or its message contains `q`. */
  function Hit(q: string): Article -> bool
  {
    (a: Article) => (a.password.Some? && Contains(a.password.value, q)) || (a.message.Some? && Contains(a.message.value, q))
  }

  /** The search block runs on the article without raising. */
  predicate Evaluable(a: Article, q: string)
  {
    a.password.Some? && (Contains(a.password.value, q) || a.message.Some?)
  }

  /** `search_articles`: select over the loaded list, stopping at the first exception. */
  function Search(loaded: seq<Article>, query: Option<string>): (r: Result<seq<Article>, Fault>)
    ensures query.None? ==> (r.Success? <==> loaded == [])
  {
    if loaded == [] then Success([])
    else
      match Matches(loaded[0], query)
      case Failure(e) => Failure(e)
      case Success(hit) =>
        match Search(loaded[1..], query)
        case Failure(e) => Failure(e)
        case Success(rest) => Success(if hit then [loaded[0]] + rest else rest)
  }

  /** Search succeeds exactly when the block can be evaluated on every loaded article, and then
      returns exactly the articles whose password or message contains the query, in loaded order. */
  lemma {:induction false} SearchSpec(loaded: seq<Article>, q: string)
    ensures Search(loaded, Some(q)).Success? <==> forall i :: 0 <= i < |loaded| ==> Evaluable(loaded[i], q)
    ensures Search(loaded, Some(q)).Success? ==> Search(loaded, Some(q)).value == Filter(Hit(q), loaded)
  {
    if loaded != [] {
      SearchSpec(loaded[1..], q);
      assert forall i :: 1 <= i < |loaded| ==> loaded[i] == loaded[1..][i - 1];
      var a := loaded[0];
      if Evaluable(a, q) {
        assert Matches(a, Some(q)) == Success(Hit(q)(a));
      }
    }
  }

  /** An empty query matches every article that has a password: search returns the whole loaded list. */
  lemma {:induction false} SearchEmptyQuery(loaded: seq<Article>)
    requires forall i :: 0 <= i < |loaded| ==> loaded[i].password.Some?
    ensures Search(loaded, Some("")) == Success(loaded)
  {
    if loaded != [] {
      assert forall i :: 1 <= i < |loaded| ==> loaded[i] == loaded[1..][i - 1];
      SearchEmptyQuery(loaded[1..]);
      assert "" <= loaded[0].password.value;
      assert [loaded[0]] + loaded[1..] == loaded;
    }
  }

  /** What the search page lists: the search result reversed (`search_articles(query).reverse`). */
  function SearchView(loaded: seq<Article>, query: Option<string>): (r: Result<seq<Article>, Fault>)
    ensures r.Success? <==> Search(loaded, query).Success?
    ensures r.Success? ==> var found := Search(loaded, query).value;
              |r.value| == |found| && forall i :: 0 <= i < |found| ==> r.value[i] == found[|found| - 1 - i]
  {
    match Search(loaded, query)
    case Failure(e) => Failure(e)
    case Success(found) =>
      assert forall i :: 0 <= i < |found| ==> Reverse(found)[i] == found[|found| - 1 - i] by {
        forall i | 0 <= i < |found| ensures Reverse(found)[i] == found[|found| - 1 - i] {
          ReverseAt(found, i);
        }
      }
      Success(Reverse(found))
  }

  /** When it succeeds, the search page shows each hit of the query as often as it is loaded, last loaded first. */
  lemma SearchViewSpec(loaded: seq<Article>, q: string)
    requires forall i :: 0 <= i < |loaded| ==> Evaluable(loaded[i], q)
    ensures SearchView(loaded, Some(q)).Success?
    ensures var shown := SearchView(loaded, Some(q)).value;
            var hits := Filter(Hit(q), loaded);
            |shown| == |hits| && forall i :: 0 <= i < |hits| ==> shown[i] == hits[|hits| - 1 - i]
    ensures forall a :: multiset(SearchView(loaded, Some(q)).value)[a] == if Hit(q)(a) then multiset(loaded)[a] else 0
  {
    SearchSpec(loaded, q);
    var hits := Filter(Hit(q), loaded);
    forall i | 0 <= i < |hits| ensures Reverse(hits)[i] == hits[|hits| - 1 - i] {
      ReverseAt(hits, i);
    }
    ReverseMultiset(hits);
    forall a ensures multiset(hits)[a] == if Hit(q)(a) then multiset(loaded)[a] else 0 {
      FilterMultiplicity(Hit(q), loaded, a);
    }
  }

  /** What the full-article page shows: the article found by id and its comments newest first. */
  datatype ArticlePage = ArticlePage(article: Option<Article>, comments: seq<Comment>)

  /** `get '/full_article/:id'`: look the article up and list its comments reversed. */
  function FullArticleView(loaded: seq<Article>, comments: seq<Comment>, id: string): (page: ArticlePage)
    ensures page.article == FindByPassword(loaded, id)
    ensures |page.comments| == |CommentsFor(comments, id)|
    ensures forall i :: 0 <= i < |page.comments| ==> page.comments[i] in comments && page.comments[i].articleId == id
    ensures forall i :: 0 <= i < |page.comments| ==> page.comments[i] == CommentsFor(comments, id)[|page.comments| - 1 - i]
    ensures multiset(page.comments) == multiset(CommentsFor(comments, id))
  {
    var mine := CommentsFor(comments, id);
    ReverseAll(mine);
    ArticlePage(FindByPassword(loaded, id), Reverse(mine))
  }

  /** The comment stored last for an article is the first one its page shows, and the
      earlier ones follow in reverse stored order. */
  lemma NewestCommentFirst(loaded: seq<Article>, comments: seq<Comment>, c: Comment)
    ensures FullArticleView(loaded, comments + [c], c.articleId).comments
            == [c] + Reverse(CommentsFor(comments, c.articleId))
  {
    var id := c.articleId;
    var before := CommentsFor(comments, id);
    CommentsForAppend(comments, [c], id);
    assert CommentsFor([c], id) == [c];
    var mine := before + [c];
    assert mine[..|mine| - 1] == before;
  }

  /** The lookup the code intends after a save: in file order, where the new record is first,
      looking `p` up finds the record just saved, with its message `m`. */
  lemma FindAfterSaveInFileOrder(loaded: seq<Article>, p: string, m: string)
    ensures FindByPassword([Article(Some(p), Some(m))] + loaded, p) == Some(Article(Some(p), Some(m)))
  {
  }

  /** The lookup as written reloads, and the reload re-sorts: right after `(p, m)` is saved, looking
      `p` up finds some record with password `p`, and it is the one just saved when no older record
      shares `p`. */
  lemma FindAfterSave(loaded: seq<Article>, reloaded: seq<Article>, p: string, m: string)
    requires IsLoadOrder(reloaded, [Article(Some(p), Some(m))] + loaded)
    ensures FindByPassword(reloaded, p).Some? && FindByPassword(reloaded, p).value.password == Some(p)
    ensures (forall i :: 0 <= i < |loaded| ==> loaded[i].password != Some(p)) ==>
              FindByPassword(reloaded, p) == Some(Article(Some(p), Some(m)))
  {
    var saved := Article(Some(p), Some(m));
    assert saved in multiset([saved] + loaded);
    assert saved in reloaded;
    var k :| 0 <= k < |reloaded| && reloaded[k] == saved;
    var r := FindByPassword(reloaded, p);
    if forall i :: 0 <= i < |loaded| ==> loaded[i].password != Some(p) {
      var i :| 0 <= i < |reloaded| && reloaded[i] == r.value && r.value.password == Some(p)
               && forall j :: 0 <= j < i ==> reloaded[j].password != Some(p);
      assert r.value in multiset([saved] + loaded);
      assert r.value in [saved] + loaded;
    }
  }

  /** With two records sharing password "p", the reload may put the older one first, and the
      lookup right after saving then returns the older message. */
  lemma FindAfterSaveCounterexample()
    ensures var saved, older := Article(Some("p"), Some("new")), Article(Some("p"), Some("old"));
            IsLoadOrder([older, saved], [saved] + [older])
            && FindByPassword([older, saved], "p") == Some(older) && older != saved
  {
    var saved, older := Article(Some("p"), Some("new")), Article(Some("p"), Some("old"));
    assert [older, saved] == [older] + [saved];
    assert multiset([older, saved]) == multiset([saved] + [older]);
  }

  /** A board with one article whose message is "hello world": searching "ell" finds it. */
  lemma SearchScenarioHit()
    ensures var a := Article(Some("p1"), Some("hello world"));
            Search([a], Some("ell")) == Success([a])
  {
    var a := Article(Some("p1"), Some("hello world"));
    assert 'e' !in "p1";
    if Contains("p1", "ell") {
      ContainsOnlyOwnChars("p1", "ell", 'e');
    }
    assert OccursAt("hello world", "ell", 1);
    ContainsIff("hello world", "ell");
    assert Matches(a, Some("ell")) == Success(true);
    assert [a][1..] == [];
    assert Search([a][1..], Some("ell")) == Success([]);
    assert [a][0] == a;
    assert [[a][0]] + [] == [a];
  }

  /** On the same board, searching "zzz" finds nothing. */
  lemma SearchScenarioMiss()
    ensures var a := Article(Some("p1"), Some("hello world"));
            Search([a], Some("zzz")) == Success([])
  {
    var a := Article(Some("p1"), Some("hello world"));
    assert 'z' !in "p1" && 'z' !in "hello world";
    if Contains("p1", "zzz") {
      ContainsOnlyOwnChars("p1", "zzz", 'z');
    }
    if Contains("hello world", "zzz") {
      ContainsOnlyOwnChars("hello world", "zzz", 'z');
    }
    assert Matches(a, Some("zzz")) == Success(false);
  }
}
