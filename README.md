# Bulletin board store — a Dafny model

This project models the record-list core of the Sinatra bulletin board `5gyou/myapp.rb`.
Visitors post articles and attach comments to them. An article's `password` serves as its
identifier, not as a secret. The two JSON files, `articles.json` and `comments.json`, are the two
sequence fields of a `Store` object. Each helper that loads a file, changes the array and
rewrites the file is a method that reassigns the field. The read-only helpers are functions:
search, lookup by password, comments of an article, and the reversals done before rendering.
The `session[:new_article]` draft slot is a field of a `Session` object.

Modules:

- `Wrappers`: `Option` (Ruby's `nil` is `None`) and `Result`.
- `Seqs`: generic `Filter` (Ruby's `select`; `reject` is `Filter(Not(f), _)`), `Detect` and `Reverse`, with their lemmas.
- `Board`: the `Article` and `Comment` records, the load-order predicate, the queries, search (`String#include?` is `Contains`) and the page views.
- `Storage`: class `Store` with the file helpers `SaveArticle`, `SaveComment`, `DeleteArticle` and `DeleteCommentsForArticle`.
- `Routes`: class `Session`, the `before` filter, the route handlers, whole requests (filter plus first matching route), and three client scenarios.

Behaviour modelled as the code does it:

- **Presence-only validation.** Parameters are `Option<string>`. `params[:x] && ...` accepts the empty string, so only `Some` is required.
- **Unspecified article order.** Every load of `articles.json` sorts by `created_at` and reverses. No record ever gets that key, and `sort_by` is not stable. So the loaded order is modelled as a caller-supplied `loaded` sequence with the same multiset as the stored one (`Board.IsLoadOrder`). Every article operation works on that loaded sequence. Order properties are stated relative to it, and nothing is promised about it.
- **Shadowed draft route.** `post '/article'` is defined twice, and the first definition (direct save) wins. `Routes.PostArticleRequest` runs the `before` filter and then that handler, so the draft slot is never filled over HTTP. The draft handler is still modelled, as `Routes.PostArticleDraft`.
- **The empty draft is saved.** The `before` filter makes the slot present. The confirm step tests only presence, so an empty `{}` is saved too (`Board.EmptyRecord`, an article with both fields absent). `Routes.ConfirmRequest` and `Routes.DraftScenario` state this.
- **Search exceptions.** The search block `password.include?(q) || message.include?(q)` can raise on a record that lacks a field, or on a request without `query`. These raises are `Failure` results, and Ruby's short-circuit is kept: `message` is examined only when `password` does not match.

Behaviour a reader might expect but the code does not have:

- Creation checks presence, not non-emptiness.
- Lookup by password runs over the re-sorted load, not over file order.
- Listing is not newest-first, because `created_at` is never assigned.
- `POST /article` saves directly instead of filling the draft.
- Confirm saves the empty draft instead of treating it as an error.
- The search page is reversed relative to the loaded order, not relative to insertion order.

## Model

| member | source | states |
|---|---|---|
| `Seqs.Filter` | 5gyou/myapp.rb:122-125 | The result is no longer than the input, holds only input elements that pass, and holds every input element that passes |
| `Seqs.FilterConcat` | 5gyou/myapp.rb:77 | Select/reject over `a + b` is the result over `a` followed by the result over `b`: kept elements keep their relative order |
| `Seqs.FilterIdempotent` | 5gyou/myapp.rb:77 | Rejecting twice with the same block equals rejecting once |
| `Seqs.FilterKeepsAll` | 5gyou/myapp.rb:77 | The filter returns its input unchanged iff every element passes |
| `Seqs.FilterKeepsNone` | 5gyou/myapp.rb:124 | The filter returns nothing iff no element passes |
| `Seqs.FilterMultiplicity` | 5gyou/myapp.rb:83 | Each passing value occurs in the result exactly as often as in the input, and each failing value not at all |
| `Seqs.FilterPartition` | 5gyou/myapp.rb:124 | The elements kept by a block and those kept by its complement together are the input's elements, each as often as in the input, so their lengths add up to the input's |
| `Seqs.Detect` | 5gyou/myapp.rb:119 | `detect` returns nothing iff no element passes; otherwise it returns a passing element at an index before which none passes |
| `Seqs.Reverse` | 5gyou/myapp.rb:56 | `reverse` keeps the length |
| `Seqs.ReverseAt` | 5gyou/myapp.rb:56 | Position `i` of the reversal holds the element `i` places from the end |
| `Seqs.ReverseAll` | 5gyou/myapp.rb:56 | Every position of the reversal holds its mirror element, and reversal keeps each element's multiplicity |
| `Seqs.ReverseMultiset` | 5gyou/myapp.rb:38 | Reversal keeps every element with its multiplicity |
| `Board.IsLoadOrder` | 5gyou/myapp.rb:90 | A re-sorted load has the same records as the file, as often, and so the same length |
| `Board.LoadOfSingle` | 5gyou/myapp.rb:87-94 | A store holding one record loads as exactly that record, whatever the re-sort does |
| `Board.WithoutArticle` | 5gyou/myapp.rb:75-79 | After `delete_article(id)`, no record has password `id`, and every loaded record with another password remains |
| `Board.WithoutComments` | 5gyou/myapp.rb:81-85 | After `delete_comments_for_article(id)`, no comment has `article_id == id`, and every other comment remains |
| `Board.CommentsFor` | 5gyou/myapp.rb:122-125 | The comments of an article are exactly the stored comments with that `article_id` |
| `Board.FindByPassword` | 5gyou/myapp.rb:117-120 | Lookup returns nothing iff no loaded article has the password; otherwise it returns the first loaded one that has it |
| `Board.DeleteArticleMultiplicity` | 5gyou/myapp.rb:75-79 | Deletion removes every record with the id, however many there are, and keeps every other record exactly as often |
| `Board.DeleteArticleKeepsOrder` | 5gyou/myapp.rb:77 | Deletion keeps the surviving records in their loaded relative order |
| `Board.DeleteArticleIdempotent` | 5gyou/myapp.rb:75-79 | Deleting an id twice gives the same list as deleting it once |
| `Board.DeleteArticleNoMatch` | 5gyou/myapp.rb:75-79 | Deletion leaves the list unchanged iff no record has the id |
| `Board.DeleteCommentsOrderAndIdempotence` | 5gyou/myapp.rb:81-85 | Deleting an article's comments keeps the others in stored order, and doing it twice equals doing it once |
| `Board.NoCommentsAfterDelete` | 5gyou/myapp.rb:81-85 | After an article's comments are deleted, listing its comments gives the empty sequence |
| `Board.CommentsForAppend` | 5gyou/myapp.rb:110-114 | Appending comments extends an article's comment list by exactly the appended comments that belong to it, at the end |
| `Board.CommentCountAfterCreations` | 5gyou/myapp.rb:122-125 | After N comments for an article and M for others, in any interleaving, its comment count grows by exactly N |
| `Board.Contains` | 5gyou/myapp.rb:45 | `String#include?`: the empty query is contained in every string, and a contained query is no longer than the string |
| `Board.ContainsIff` | 5gyou/myapp.rb:45 | `include?` holds iff the query occurs at some offset as a contiguous run (the empty query occurs everywhere) |
| `Board.ContainsOnlyOwnChars` | 5gyou/myapp.rb:45 | Every character of a contained string occurs in the string that contains it |
| `Board.Matches` | 5gyou/myapp.rb:45 | The search block raises without a query; with one, it runs without raising iff the password is present and either contains the query or the message is present (short-circuit `||`), and its value is whether password or message contains the query |
| `Board.Search` | 5gyou/myapp.rb:42-47 | Without a query, search fails exactly when there is an article to test |
| `Board.SearchSpec` | 5gyou/myapp.rb:42-47 | Search succeeds iff the block can be evaluated on every loaded article; then it returns exactly the articles whose password or message contains the query, in loaded order |
| `Board.SearchEmptyQuery` | 5gyou/myapp.rb:42-47 | An empty query returns every loaded article when all of them have a password |
| `Board.SearchView` | 5gyou/myapp.rb:38 | The search page succeeds iff the search does, and lists the search result last to first |
| `Board.SearchViewSpec` | 5gyou/myapp.rb:36-40 | The search page lists the hits last-loaded first, each as often as it is loaded, and nothing else |
| `Board.SearchScenarioHit` | 5gyou/myapp.rb:42-47 | Searching "ell" over the message "hello world" finds the article |
| `Board.SearchScenarioMiss` | 5gyou/myapp.rb:42-47 | Searching "zzz" over the same board finds nothing |
| `Board.FullArticleView` | 5gyou/myapp.rb:53-58 | The article page shows the lookup result and the article's stored comments reversed: position `i` holds the comment `i` places from the end of the stored list, each as often as stored |
| `Board.NewestCommentFirst` | 5gyou/myapp.rb:56 | After a comment is appended for an article, its page shows that comment first, followed by the article's earlier comments in reverse stored order |
| `Board.FindAfterSave` | 5gyou/myapp.rb:117-120 | Right after `(p, m)` is saved, looking up `p` in any reload finds a record with password `p`, and finds `(p, m)` itself when no older record has password `p` |
| `Board.FindAfterSaveCounterexample` | 5gyou/myapp.rb:118 | With an older record sharing password `p`, a permitted reload puts it first and the lookup returns the older message |
| `Board.FindAfterSaveInFileOrder` | 5gyou/myapp.rb:98 | Looked up in file order, where the new record is first, `p` finds the record just saved, with message `m` |
| `Storage.Store.constructor` | 5gyou/myapp.rb:87-108 | Absent files are empty article and comment lists |
| `Storage.Store.SaveArticle` | 5gyou/myapp.rb:96-100 | The list grows by one, the new record is at index 0, the rest equals the loaded list in order, and comments are unchanged |
| `Storage.Store.SaveComment` | 5gyou/myapp.rb:110-114 | The comment is appended at the end, earlier comments keep their positions, and articles are unchanged |
| `Storage.Store.DeleteArticle` | 5gyou/myapp.rb:75-79 | The file becomes the loaded list without the id's records; no record with the id is left, and the others keep their multiplicity |
| `Storage.Store.DeleteCommentsForArticle` | 5gyou/myapp.rb:81-85 | The file becomes the stored comments without the id's comments; none is listed for the id afterwards |
| `Routes.Session.constructor` | 5gyou/myapp.rb:131-133 | On first contact the draft slot is absent |
| `Routes.BeforeFilter` | 5gyou/myapp.rb:131-133 | An absent slot becomes the empty record, and a present one is kept; afterwards the slot is present |
| `Routes.PostArticle` | 5gyou/myapp.rb:26-34 | With both parameters present, even empty, the article is saved in front and the browser goes back; otherwise nothing is written and the browser goes to the form |
| `Routes.PostArticleDraft` | 5gyou/myapp.rb:135-142 | With both parameters present, the slot is overwritten with the new draft, not accumulated; otherwise the slot is unchanged |
| `Routes.ConfirmArticle` | 5gyou/myapp.rb:149-158 | A present slot, even the empty record, is saved in front and then reset to the empty record; an absent slot writes nothing |
| `Routes.PostComment` | 5gyou/myapp.rb:60-72 | With all three parameters present, the comment is appended and the browser goes to `/full_article/<id>`; otherwise nothing is written |
| `Routes.DeleteArticleCascade` | 5gyou/myapp.rb:164-169 | No article with the id and no comment for it remain; every other article keeps its multiplicity, and every other comment remains |
| `Routes.PostArticleRequest` | 5gyou/myapp.rb:26-34 | A whole `POST /article` request saves directly and never fills the draft slot, because the first definition shadows the second; it redirects as the first handler does and leaves comments unchanged |
| `Routes.ConfirmRequest` | 5gyou/myapp.rb:149-158 | A whole confirm request always saves: the pending draft, or the empty record when none is pending; then it resets the slot |
| `Routes.FirstPostScenario` | 5gyou/myapp.rb:26-34 | On an empty board, posting ("alice", "hello") stores exactly that record, and every load lists just it |
| `Routes.CascadeScenario` | 5gyou/myapp.rb:164-169 | After posting "x" with two comments and deleting it, no reload finds "x", it has no comments, and another article's comment remains |
| `Routes.DraftScenario` | 5gyou/myapp.rb:135-158 | Drafting twice keeps only the second draft, confirming saves it, and confirming again saves the empty record |

## Findings

| source | as written | input that shows it | evidently intended | confidence | as-written member | corrected member |
|---|---|---|---|---|---|---|
| 5gyou/myapp.rb:117-120 | The lookup reloads the articles, and the reload re-sorts them by a `created_at` key that no record has (lines 90 and 28), so the order is unspecified; passwords may repeat | Save ("p", "old"), then ("p", "new"); a reload may list ("p", "old") first, and looking "p" up returns the older message | Right after ("p", "new") is saved, looking "p" up returns it, as file order (new record first, line 98) would | medium, not executed | `Board.FindAfterSaveCounterexample` | `Board.FindAfterSaveInFileOrder` |

The handlers keep modelling the lookup as written, over the re-sorted load. `Board.FindAfterSave` states what that lookup still guarantees. `Board.FindAfterSaveInFileOrder` proves the intended property for a lookup in file order.

## Left out

- File and JSON handling are left out: `File.exist?`, `File.read`, `File.write`, `JSON.parse` and `to_json`. The files are sequence fields, an absent file is the empty sequence, and malformed JSON is a concern of the JSON library.
- The `sort_by { created_at }.reverse` re-sort is left out. Only its effect is modelled: some permutation of the stored records (`Board.IsLoadOrder`). No order is proved, so "articles a, b, c list c first" is not a property of this model.
- The `get '/article'` listing and the `get '/confirm_article'` page only render data. The listing renders another permutation of the loaded articles, and the confirm page renders the slot.
- Routing, `erb` rendering and the static pages (`/`, `/setumei`, `/lock`, `/post_article`) are left out. The target of `redirect back` (the Referer header) is recorded only as `RedirectBack`.
- The Rack cookie session setup and its random secret are left out. Only the one draft slot is kept.
- Concurrent requests are left out. The read-modify-write cycles have no locking, and the code promises nothing about races.
- Stored comments are assumed to carry all three string fields, because the only way to create one sets all three. Request parameters are strings or absent; array and hash parameters are not modelled.
