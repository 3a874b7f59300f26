# Comment box: a Dafny model

This project models the logic of a small browser comment widget (`src/CommentBox.js`).
A user types a username and a comment. Submitted comments are listed with a relative
"time ago" label and can be deleted. The list and the last username survive page
reloads through two browser storage keys, `comments` and `username`.

Four parts are modelled, one module each:

- `Sanitizer` covers `Comment._getProcessedContent`. It escapes the five HTML-special
  characters with five chained global replacements, `&` first. Then one global lazy
  regular-expression pass wraps each backtick span in `<code>…</code>`. Both stages are
  pure functions on `string`. They are proved against a per-character map, an entity
  decoder and a tag reader.
- `TimeAgo` covers the label expression of `Comment._updateTimeString`. The elapsed
  time is a whole number of milliseconds, `now - createdTime`. The clock reading `now`
  is a parameter. `Math.round(ms / (1000 * u))` is computed exactly as
  `(ms + 500 * u) / (1000 * u)`. The label is a (count, unit) pair.
- `Comments` covers `CommentApp`. It is a class with the displayed list `comments` and
  the `comments` storage key `storage`. Submission is validated and then pushed;
  deletion uses `Array.prototype.splice(index, 1)`. Every change writes the whole list
  to storage, and mounting reads it back.
- `Input` covers `CommentInput`. It is a class with the username and content fields,
  the cached last username, and the `username` storage key.

`Wrappers` holds the `Option` type that stands for JavaScript's `null`.

Three behaviours of the code worth noting:

- `_loadComments` has no fallback for stored data that fails to parse. `JSON.parse`
  would throw. The model stores the list itself, so there is no parse step at all.
- `handleDeleteComment` has no index check and no error of its own. The model gives
  `splice`'s own behaviour: a negative index counts from the end, and an index past the
  end removes nothing. The list view only ever passes indices it rendered
  (`src/CommentBox.js:198-199`), and for those exactly one element is removed.
- `handleSubmit` clears the content field even when the list rejects the submission.

## Model

| member | source | states |
|---|---|---|
| `Sanitizer.ReplaceAll` | src/CommentBox.js:147-151 | one `.replace(/c/g, rep)`: if `rep` has no `c`, no `c` is left; text without `c` is unchanged |
| `Sanitizer.EscapeChained` | src/CommentBox.js:146-151 | the five chained replacements as written leave no raw `<`, `>`, `"` or `'`; `EscapeChainedIsEscape` proves them equal to `Escape` |
| `Sanitizer.Escape` | src/CommentBox.js:146-151 | the escaped text has no raw `<`, `>`, `"` or `'`, and it is at least as long as the input |
| `Sanitizer.EscapeChainedIsEscape` | src/CommentBox.js:146-151 | the five chained replacements, `&` first, equal the per-character entity map, so no entity is escaped twice |
| `Sanitizer.EscapedAmpersandsBeginEntities` | src/CommentBox.js:147-151 | every `&` in the escaped text begins one of `&amp;`, `&lt;`, `&gt;`, `&quot;`, `&#039;` |
| `Sanitizer.UnescapeEscape` | src/CommentBox.js:146-151 | decoding the five entities gives the original text back, so escaping loses nothing |
| `Sanitizer.FindTick` | src/CommentBox.js:152 | the closing backtick is the nearest one at or after the given position; none is found only if none exists |
| `Sanitizer.FirstSpan` | src/CommentBox.js:152 | a backtick, a non-empty inner text and the nearest later backtick become `<code>inner</code>`; the text before is kept and the pass resumes after the closing backtick |
| `Sanitizer.WrapCodeKeepsQuotesOut` | src/CommentBox.js:152 | the code pass (`WrapCode`, specified span by span by `FirstSpan`, `WrapCodeUnchangedIffNoSpan` and `UnwrapWrapCode`) adds no `"` or `'`: its tags hold none |
| `Sanitizer.WrapCodeUnchangedIffNoSpan` | src/CommentBox.js:152 | on any text the code pass changes nothing exactly when no two backticks have a character between them; a lone backtick or an empty pair stays |
| `Sanitizer.UnwrapWrapCode` | src/CommentBox.js:152 | on text without `<`, turning the tags back into backticks restores the input, so text inside and outside spans keeps its content and order |
| `Sanitizer.ProcessContent` | src/CommentBox.js:145-153 | escape, then wrap: no quote reaches the page; escaped text without a span is shown as escaped; the whole sanitiser is injective, since decoding tags, then entities, gives the raw comment back |
| `Sanitizer.EscapeExample` | src/CommentBox.js:146-151 | `<b>&"'` becomes `&lt;b&gt;&amp;&quot;&#039;` |
| `Sanitizer.ProcessContentExample` | src/CommentBox.js:146-152 | a span holding `<` is escaped first and then wrapped: `` `<` `` becomes `<code>&lt;</code>` |
| `TimeAgo.TimeLabel` | src/CommentBox.js:133-142 | exactly one unit, chosen by the thresholds 60/3600/86400/2592000/31536000 s; the count is 1..60 for seconds and minutes, 1..24 hours, 1..30 days, 1..12 months, at least 1 year; under one second, including a future creation time, the label is 1 second; otherwise the count is the elapsed time rounded to the nearest unit, halves up |
| `TimeAgo.TimeLabelMonotone` | src/CommentBox.js:133-141 | as the clock advances the label never goes backwards: a larger unit, or the same unit with a count at least as large |
| `TimeAgo.TimeLabelExamples` | src/CommentBox.js:134-138 | 0 ms gives 1 second, 30 s gives 30 seconds, 59.6 s gives 60 seconds, 90 s gives 2 minutes, 2 h gives 2 hours |
| `Comments.Check` | src/CommentBox.js:234-237 | a null comment is ignored; an empty username is rejected whatever the content; an empty content with a username is rejected; only a comment with both non-empty is accepted |
| `Comments.SpliceOne` | src/CommentBox.js:247 | `splice(index, 1)`: an in-range index removes exactly that element, keeping the elements before and after it in order; the removed element accounts for the whole difference; a negative index counts from the end; an index past the end removes nothing; no index adds anything |
| `Comments.SpliceOneWellFormed` | src/CommentBox.js:245-250 | deleting keeps every remaining comment's username and content non-empty |
| `Comments.CommentApp.constructor` | src/CommentBox.js:207 | the list starts empty and storage is as it was left |
| `Comments.CommentApp.LoadComments` | src/CommentBox.js:222-227 | a stored list replaces the displayed one; with nothing stored the list is unchanged; storage is not written |
| `Comments.CommentApp.SaveComments` | src/CommentBox.js:229-231 | storage holds exactly the list afterwards |
| `Comments.CommentApp.SubmitComment` | src/CommentBox.js:234-243 | accepted: the list grows by the one new comment at the end, earlier elements unchanged, and storage equals the new list; any rejection leaves list and storage unchanged; well-formedness is kept |
| `Comments.CommentApp.DeleteComment` | src/CommentBox.js:245-250 | the list becomes `SpliceOne` of the old list, storage equals the new list, and well-formedness is kept |
| `Comments.CommentApp.Reload` | src/CommentBox.js:218-227 | a reload after any submit or delete shows the same list; with nothing stored it shows an empty list |
| `Input.CommentInput.constructor` | src/CommentBox.js:16-21 | empty fields, no cached name, storage as it was left; the cache invariant holds |
| `Input.CommentInput.SaveUsername` | src/CommentBox.js:80-83 | the cache and the stored name both become the given name; the fields are unchanged |
| `Input.CommentInput.DidMount` | src/CommentBox.js:56-68 | a non-empty stored name that differs from the cache fills the username field and is cached and stored again; otherwise nothing changes; the cache invariant is kept |
| `Input.CommentInput.UsernameChange` | src/CommentBox.js:93-95 | the username field takes the typed value; nothing else changes |
| `Input.CommentInput.ContentChange` | src/CommentBox.js:97-99 | the content field takes the typed value; nothing else changes |
| `Input.CommentInput.UsernameBlur` | src/CommentBox.js:86-91 | a write happens exactly when the username is non-empty and differs from the cache; after a write, cache and storage hold the username; afterwards a second blur would not write |
| `Input.CommentInput.Submit` | src/CommentBox.js:102-109 | the list receives `{username, content, now}` with the outcome `Check` gives; the content field is cleared whatever the outcome; the username and its cache stay |
| `Input.Open` | src/CommentBox.js:56-68 | on page load a non-empty stored name fills the username field and becomes the cached name; otherwise the field stays empty and nothing is cached |

## Left out

- React rendering, JSX, refs and `focus()` calls (src/CommentBox.js:23-50, 69, 72, 162-203, 209-216) are user interface only.
- `Comment.handleDeleteComment` and `CommentList.handleDeleteComment` (src/CommentBox.js:156-158, 192-194) only pass the rendered index on to `CommentApp.handleDeleteComment`.
- `alert` calls (src/CommentBox.js:236-237) are modelled only by the rejection verdicts `MissingUsername` and `MissingContent`.
- The `setInterval`/`clearInterval` refresh cycle (src/CommentBox.js:124-131) is browser scheduling. `Date.now()` is a parameter `now`.
- `localStorage` and `JSON.stringify`/`JSON.parse` are abstracted away. Each storage key is a field holding the value itself. The two keys live in the two classes that use them, because no operation touches both.
- `TimeAgo.TimeLabel`: computed on exact integers. It does not model IEEE double division or how `Math.round` treats values at exact half boundaries after floating-point error. It does not model a non-numeric `createdTime`.
- `Input.CommentInput.UsernameBlur`: saves the field `username`, where the source saves `event.target.value`. The input is controlled by `state.username` (src/CommentBox.js:31), so the two agree at a blur.
- React `setState` batching is not modelled. Each handler is one atomic update.
- Several browser tabs sharing one storage are not modelled.
