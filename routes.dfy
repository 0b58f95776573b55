/** The request handlers: their presence-only validation, the one-slot session draft,
    the cascade delete and the reversals done before rendering. */
module Routes {
  import opened Wrappers
  import opened Seqs
  import opened Board
  import opened Storage

  /** Where a state-changing handler sends the browser. */
  datatype Response = RedirectBack | RedirectTo(path: string)

  /** The one visitor-scoped field of the session that the board uses. */
  class Session {
    /** `session[:new_article]`: `None` before the first request, otherwise the pending draft,
        which is the empty record when nothing is pending. */
    var newArticle: Option<Article>

    /** A visitor's first contact: the slot is absent. */
    constructor ()
      ensures newArticle == None
    {
      newArticle := None;
    }
  }

  /** The `before` filter, run ahead of every route: `session[:new_article] ||= {}`. */
  method BeforeFilter(session: Session)
    modifies session
    ensures session.newArticle == if old(session.newArticle).None? then Some(EmptyRecord) else old(session.newArticle)
    ensures session.newArticle.Some?
  {
    if session.newArticle.None? {
      session.newArticle := Some(EmptyRecord);
    }
  }

  /** The first `post '/article'`: when both parameters are present (an empty string is
      present) the article is saved at once; otherwise nothing is written. */
  method PostArticle(store: Store, password: Option<string>, message: Option<string>, loaded: seq<Article>)
    returns (resp: Response)
    requires IsLoadOrder(loaded, store.articles)
    modifies store
    ensures password.Some? && message.Some? ==>
              store.articles == [Article(password, message)] + loaded && resp == RedirectBack
    ensures !(password.Some? && message.Some?) ==>
              store.articles == old(store.articles) && resp == RedirectTo("/post_article")
    ensures store.comments == old(store.comments)
  {
    if password.Some? && message.Some? {
      store.SaveArticle(Article(password, message), loaded);
      resp := RedirectBack;
    } else {
      resp := RedirectTo("/post_article");
    }
  }

  /** The second `post '/article'`: puts the article in the draft slot, replacing whatever
      was pending, and writes nothing. */
  method PostArticleDraft(session: Session, password: Option<string>, message: Option<string>)
    returns (resp: Response)
    modifies session
    ensures password.Some? && message.Some? ==>
              session.newArticle == Some(Article(password, message)) && resp == RedirectTo("/confirm_article")
    ensures !(password.Some? && message.Some?) ==>
              session.newArticle == old(session.newArticle) && resp == RedirectTo("/post_article")
  {
    if password.Some? && message.Some? {
      session.newArticle := Some(Article(password, message));
      resp := RedirectTo("/confirm_article");
    } else {
      resp := RedirectTo("/post_article");
    }
  }

  /** `post '/confirm_article'`: any present slot value, the empty record included, is saved
      in front of the articles and the slot is reset to the empty record. */
  method ConfirmArticle(store: Store, session: Session, loaded: seq<Article>) returns (resp: Response)
    requires IsLoadOrder(loaded, store.articles)
    modifies store, session
    ensures old(session.newArticle).Some? ==>
              store.articles == [old(session.newArticle).value] + loaded
              && session.newArticle == Some(EmptyRecord) && resp == RedirectTo("/article")
    ensures old(session.newArticle).None? ==>
              store.articles == old(store.articles)
              && session.newArticle == None && resp == RedirectTo("/post_article")
    ensures store.comments == old(store.comments)
  {
    if session.newArticle.Some? {
      var draft := session.newArticle.value;
      store.SaveArticle(draft, loaded);
      session.newArticle := Some(EmptyRecord);
      resp := RedirectTo("/article");
    } else {
      resp := RedirectTo("/post_article");
    }
  }

  /** `post '/comment'`: with all three parameters present the comment is appended and the
      browser goes to the article's page; otherwise nothing is written. */
  method PostComment(store: Store, author: Option<string>, content: Option<string>, articleId: Option<string>)
    returns (resp: Response)
    modifies store
    ensures author.Some? && content.Some? && articleId.Some? ==>
              store.comments == old(store.comments) + [Comment(author.value, content.value, articleId.value)]
              && resp == RedirectTo("/full_article/" + articleId.value)
    ensures !(author.Some? && content.Some? && articleId.Some?) ==>
              store.comments == old(store.comments) && resp == RedirectTo("/")
    ensures store.articles == old(store.articles)
  {
    if author.Some? && content.Some? && articleId.Some? {
      store.SaveComment(Comment(author.value, content.value, articleId.value));
      resp := RedirectTo("/full_article/" + articleId.value);
    } else {
      resp := RedirectTo("/");
    }
  }

  /** `delete '/delete_article/:id'`: delete the article's records, then its comments.
      Nothing with identifier `id` is left, and every other record stays, in order. */
  method DeleteArticleCascade(store: Store, id: string, loaded: seq<Article>) returns (resp: Response)
    requires IsLoadOrder(loaded, store.articles)
    modifies store
    ensures store.articles == WithoutArticle(loaded, id)
    ensures store.comments == WithoutComments(old(store.comments), id)
    ensures forall i :: 0 <= i < |store.articles| ==> store.articles[i].password != Some(id)
    ensures CommentsFor(store.comments, id) == []
    ensures forall a: Article :: a.password != Some(id) ==> multiset(store.articles)[a] == multiset(old(store.articles))[a]
    ensures forall i :: 0 <= i < |old(store.comments)| && old(store.comments)[i].articleId != id ==>
              old(store.comments)[i] in store.comments
    ensures resp == RedirectTo("/article")
  {
    store.DeleteArticle(id, loaded);
    store.DeleteCommentsForArticle(id);
    resp := RedirectTo("/article");
  }

  /** A whole `POST /article` request: the `before` filter, then the first matching route.
      The direct-save handler shadows the draft handler, so the slot is never filled here. */
  method PostArticleRequest(store: Store, session: Session, password: Option<string>, message: Option<string>,
                            loaded: seq<Article>) returns (resp: Response)
    requires IsLoadOrder(loaded, store.articles)
    modifies store, session
    ensures session.newArticle == if old(session.newArticle).None? then Some(EmptyRecord) else old(session.newArticle)
    ensures password.Some? && message.Some? ==>
              store.articles == [Article(password, message)] + loaded && resp == RedirectBack
    ensures !(password.Some? && message.Some?) ==>
              store.articles == old(store.articles) && resp == RedirectTo("/post_article")
    ensures store.comments == old(store.comments)
  {
    BeforeFilter(session);
    resp := PostArticle(store, password, message, loaded);
  }

  /** A whole `POST /confirm_article` request: the `before` filter leaves the slot present,
      so the confirm handler always saves, the empty record when no draft was pending. */
  method ConfirmRequest(store: Store, session: Session, loaded: seq<Article>) returns (resp: Response)
    requires IsLoadOrder(loaded, store.articles)
    modifies store, session
    ensures store.articles == [if old(session.newArticle).Some? then old(session.newArticle).value else EmptyRecord] + loaded
    ensures session.newArticle == Some(EmptyRecord)
    ensures store.comments == old(store.comments)
    ensures resp == RedirectTo("/article")
  {
    BeforeFilter(session);
    resp := ConfirmArticle(store, session, loaded);
  }

  /** On an empty board, posting ("alice", "hello") leaves exactly that record, and every
      load of it, whatever the re-sort does, lists just that record. */
  method FirstPostScenario() returns (stored: seq<Article>)
    ensures stored == [Article(Some("alice"), Some("hello"))]
    ensures forall loaded :: IsLoadOrder(loaded, stored) ==> loaded == stored
  {
    var store := new Store();
    var session := new Session();
    var resp := PostArticleRequest(store, session, Some("alice"), Some("hello"), []);
    stored := store.articles;
    forall loaded | IsLoadOrder(loaded, stored) ensures loaded == stored {
      LoadOfSingle(loaded, Article(Some("alice"), Some("hello")));
    }
  }

  /** Post article "x", two comments for it and one for "y", then delete "x": no reload finds
      the article, its comments are gone, and the comment of "y" remains. */
  method CascadeScenario() returns (stored: seq<Article>, remaining: seq<Comment>, others: seq<Comment>)
    ensures forall reloaded :: IsLoadOrder(reloaded, stored) ==> FindByPassword(reloaded, "x") == None
    ensures remaining == [] && others == [Comment("bob", "hi", "y")]
  {
    var store := new Store();
    var resp := PostArticle(store, Some("x"), Some("body"), []);
    resp := PostComment(store, Some("ann"), Some("first"), Some("x"));
    resp := PostComment(store, Some("bob"), Some("hi"), Some("y"));
    resp := PostComment(store, Some("ann"), Some("second"), Some("x"));
    var c1, c2, c3 := Comment("ann", "first", "x"), Comment("bob", "hi", "y"), Comment("ann", "second", "x");
    assert store.comments == [c1, c2, c3];
    assert [c1, c2, c3][1..] == [c2, c3] && [c2, c3][1..] == [c3];
    assert WithoutComments([c3], "x") == [];
    assert WithoutComments([c2, c3], "x") == [c2];
    resp := DeleteArticleCascade(store, "x", store.articles);
    stored := store.articles;
    forall reloaded | IsLoadOrder(reloaded, stored) ensures FindByPassword(reloaded, "x") == None {
      assert |reloaded| == |stored| == 0;
    }
    remaining := CommentsFor(store.comments, "x");
    others := store.comments;
  }

  /** Drafting twice keeps only the second draft; confirming saves it, and confirming again
      saves the empty record that the slot was reset to. */
  method DraftScenario() returns (stored: seq<Article>, slot: Option<Article>)
    ensures stored == [EmptyRecord, Article(Some("b"), Some("2"))]
    ensures slot == Some(EmptyRecord)
  {
    var store := new Store();
    var session := new Session();
    BeforeFilter(session);
    var resp := PostArticleDraft(session, Some("a"), Some("1"));
    BeforeFilter(session);
    resp := PostArticleDraft(session, Some("b"), Some("2"));
    resp := ConfirmRequest(store, session, []);
    resp := ConfirmRequest(store, session, store.articles);
    stored := store.articles;
    slot := session.newArticle;
  }
}
