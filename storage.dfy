/** The two JSON files as the two sequence fields of one store object, and the helpers
    that read, modify and rewrite them. */
module Storage {
  import opened Wrappers
  import opened Board

  class Store {
    /** articles.json in file order; an absent file is the empty sequence. */
    var articles: seq<Article>
    /** comments.json in file order; loading it does not re-sort it. */
    var comments: seq<Comment>

    /** Both files absent. */
    constructor ()
      ensures articles == [] && comments == []
    {
      articles := [];
      comments := [];
    }

    /** `save_article_to_file`: load the articles (in `loaded` order), put the new record in
        front with `unshift` and rewrite the file. */
    method SaveArticle(article: Article, loaded: seq<Article>)
      requires IsLoadOrder(loaded, articles)
      modifies this
      ensures articles == [article] + loaded
      ensures |articles| == |old(articles)| + 1 && articles[0] == article && articles[1..] == loaded
      ensures multiset(articles) == multiset(old(articles)) + multiset{article}
      ensures comments == old(comments)
    {
      assert |loaded| == |multiset(loaded)| == |multiset(articles)| == |articles|;
      var list := loaded;
      list := [article] + list;
      assert list[1..] == loaded;
      articles := list;
    }

    /** `save_comment_to_file`: append the new comment with `push` and rewrite the file. */
    method SaveComment(comment: Comment)
      modifies this
      ensures comments == old(comments) + [comment]
      ensures |comments| == |old(comments)| + 1 && comments[|comments| - 1] == comment
      ensures forall i :: 0 <= i < |old(comments)| ==> comments[i] == old(comments)[i]
      ensures articles == old(articles)
    {
      var list := comments;
      list := list + [comment];
      comments := list;
    }

    /** `delete_article`: load the articles, `reject!` every record whose password is `id`
        and rewrite the file with what is left. */
    method DeleteArticle(id: string, loaded: seq<Article>)
      requires IsLoadOrder(loaded, articles)
      modifies this
      ensures articles == WithoutArticle(loaded, id)
      ensures forall i :: 0 <= i < |articles| ==> articles[i].password != Some(id)
      ensures forall a :: multiset(articles)[a] == if a.password == Some(id) then 0 else multiset(old(articles))[a]
      ensures comments == old(comments)
    {
      articles := WithoutArticle(loaded, id);
      forall a ensures multiset(articles)[a] == if a.password == Some(id) then 0 else multiset(old(articles))[a] {
        DeleteArticleMultiplicity(loaded, id, a);
      }
    }

    /** `delete_comments_for_article`: `reject!` every comment of article `id` and rewrite the file. */
    method DeleteCommentsForArticle(id: string)
      modifies this
      ensures comments == WithoutComments(old(comments), id)
      ensures CommentsFor(comments, id) == []
      ensures articles == old(articles)
    {
      NoCommentsAfterDelete(comments, id);
      comments := WithoutComments(comments, id);
    }
  }
}
