# Comment form controller — a Dafny model

This project models the browser-side controller of a single-page comments
site: the script `public/js/main.js` that intercepts the submission of the
"add comment" form, checks that no text field is empty, and then either
flags the empty fields and shows an error banner, or shows a success banner,
copies the form's `name` and `comment` fields into a new comment, clears
them, and inserts that comment, hidden, right after the heading of the
comments section. Two delayed callbacks follow a success: after 100 ms the
first hidden comment is revealed, and after 5000 ms the success banner is
hidden again.

The page is abstracted into the state the controller reads and writes
(`CommentController.Page`):

- `fields`: the form's text inputs and text areas in document order, each a
  `FormState.Field` with its `name` attribute, its value, and the index of
  the `.form-input` container that holds it;
- `containerError`: the `input-error` flag of each container, indexed by
  container, so two fields in one container share one flag as they do in
  the page;
- `errorShown`, `successShown`: the `show-form-message` class of the two
  banners;
- `comments`: the comments after the section's heading, newest first, each
  a `FormState.Comment` of user name, content and the `comment-hidden` flag;
- `pendingReveals` (ghost): entrance steps scheduled and not yet run.

Module `FormState` holds the value types and the specification functions:
`Marked` (the container flags after validation visits the fields in order),
`LastValue` and `Record` (the comment record the copy loop builds),
`ClearKnown` (the fields after that loop), `FirstHidden` and `Revealed`
(the entrance step), and the lemmas that say what these mean. Module
`CommentController` holds the class `Page`, whose methods follow the
script's functions one for one. The one exception is the copy loop of
`showNewComment`, which is a method of its own, `CopyAndClearFields`, called
from `ShowNewComment` at the point where the loop stands. Two client methods,
`RejectedScenario` and `AcceptedScenario`, check the two submit scenarios
against the contracts.

Points of the code's behaviour that the model keeps:

- The code validates every text field, whatever its `name`. It copies and
  clears only fields whose name is a key of the record (`name` or
  `comment`); every other field keeps its value.
- When several fields share a name, the last one wins (`LastValueLast`). A
  name no field carries gives `''` (`LastValueNone`).
- Validation does not trim: only exactly `''` is invalid, so whitespace-only
  input passes.
- The entrance step reveals the first `.comment-hidden` element in document
  order, not the comment that scheduled it. With two submits inside 100 ms,
  the first timer reveals the newer comment. `Page.RevealNewComment` models
  this. The ghost counter shows that a hidden comment is always there for
  the step to find, because every pending step has exactly one hidden
  comment.

## Model

| member | source | states |
|---|---|---|
| CommentController.Page.SubmitForm | public/js/main.js:25-41 | Flags are always recomputed. When every field is filled, the error banner is hidden, the success banner is shown, known fields are cleared, and exactly one hidden comment is prepended. Otherwise the error banner is shown and fields, success banner and comments are unchanged. |
| CommentController.Page.ValidateForm | public/js/main.js:50-74 | Returns true iff no field's value is exactly `''`. Flags become `Marked` of the fields; fields, banners and comments are untouched. With one container per field, a container is flagged iff its field is empty, and the result is true iff no field's container is flagged. |
| CommentController.Page.ShowNewComment | public/js/main.js:84-131 | The error banner is hidden and the success banner is shown. Fields become `ClearKnown` of the old fields. The comments become `[NewComment(old fields)]` followed by the old list. One more entrance step is pending, and the container flags are unchanged. |
| CommentController.Page.CopyAndClearFields | public/js/main.js:98-107 | Afterwards the fields are `ClearKnown` of the old fields, and the returned record is `Record` of the old fields. |
| CommentController.Page.ShowFormErrorMessage | public/js/main.js:161-172 | The error banner is shown unless `actuallyHideItInstead` is set, in which case it is hidden. |
| CommentController.Page.ShowFormSuccessMessage | public/js/main.js:139-147 | The success banner is shown. |
| CommentController.Page.HideFormSuccessMessage | public/js/main.js:149-151 | The success banner is hidden, whatever the state. Nothing else changes. |
| CommentController.Page.RevealNewComment | public/js/main.js:127-129 | Needs a pending entrance step. A hidden comment then exists, and the list becomes `Revealed` of the old list. One fewer step is pending, and nothing else changes. |
| FormState.Marked | public/js/main.js:58-70 | The container flags after validation visits the fields in order; the flag list keeps its length. What each flag then holds is stated by `MarkedLast`, `MarkedUntouched` and `OwnContainersFlags`. |
| FormState.MarkedUntouched | public/js/main.js:58-70 | Validation leaves the flag of a container with no field in it unchanged. |
| FormState.MarkedLast | public/js/main.js:58-70 | A container's flag after validation is "value is empty" for the last field visited in it, whatever earlier fields in it held. |
| FormState.OwnContainersFlags | public/js/main.js:58-70 | With one container per field, the flagged containers are exactly those of empty fields, and other containers keep their old flag. |
| FormState.FilledClearsFlags | public/js/main.js:62-69 | When every field is filled, every field's container is unflagged afterwards, whatever earlier submits left. This is recovery after a failed submit. |
| FormState.MarkedIdempotent | public/js/main.js:58-70 | Validating the same fields twice gives the same flags as validating once. |
| FormState.LastValue | public/js/main.js:86-107 | The value the record ends with under a key is `''` or the value of some field with that name; `LastValueLast` and `LastValueNone` say which. |
| FormState.LastValueLast | public/js/main.js:99-107 | For a key, the record holds the value of the last field with that name. |
| FormState.LastValueNone | public/js/main.js:86-89 | With no field of that name, the record keeps its initial `''`. |
| FormState.Record | public/js/main.js:86-107 | The record after the copy loop: a field whose name is not a key is skipped, so the record never holds a key other than `name` or `comment`. |
| FormState.RecordKeys | public/js/main.js:86-107 | The record has exactly the keys `name` and `comment`, before and after the loop. |
| FormState.RecordHolds | public/js/main.js:99-107 | After the loop, the record's value under each key is `LastValue` for that key. |
| FormState.Cleared | public/js/main.js:101-106 | One field after the loop visits it: name and container are kept, a field named `name` or `comment` is emptied, any other field is unchanged. |
| FormState.ClearKnown | public/js/main.js:99-107 | The fields after the copy-and-clear loop; the list keeps its length. `ClearKnownSpec` and `ClearKnownAt` state that each field is `Cleared` on its own. |
| FormState.ClearKnownSpec | public/js/main.js:99-107 | Clearing keeps every field's name and container. It empties exactly the fields named `name` or `comment` and leaves every other field unchanged. |
| FormState.NewComment | public/js/main.js:86-117 | The comment a success inserts is hidden, and its user name and content are each `''` or the value of a field named `name`, respectively `comment`. |
| FormState.ClearKnownEmptiesRecord | public/js/main.js:99-107 | Read again from the cleared fields, the record would hold `''` under each key. |
| FormState.ClearedFormFails | public/js/main.js:62-65 | After a success, a form with a `name` or `comment` field fails validation until that field is filled again. |
| FormState.FirstHidden | public/js/main.js:128 | The index found holds a hidden comment, and every comment before it is visible. |
| FormState.Revealed | public/js/main.js:128 | The first hidden comment becomes visible. Every comment keeps its user name, content and position, and every other comment is unchanged. |
| FormState.RevealedOne | public/js/main.js:127-129 | The entrance step lowers the number of hidden comments by exactly one. |
| FormState.PrependHidden | public/js/main.js:110-123 | After the new hidden comment goes in front, it is the first hidden comment, and the number of hidden comments rises by one. This is a one-step unfolding of `FirstHidden` and `CountHidden`, kept as a lemma so that `ShowNewComment` can restore the ghost counter. |
| FormState.CountHidden | public/js/main.js:128 | The count is zero exactly when no comment is hidden; this is the state where the query at line 128 would find nothing. |

## Left out

- `index.js` (the Express server, request logging, template setup and the fixed comment data) is not part of this model. It is server wiring with no logic of its own. The constructor `Page.constructor` stands for the page as loaded: any fields, no container flagged, both banners hidden, and server comments that are all visible.
- `addCommentsFunctionality` (public/js/main.js:12-16) and the DOM lookups in `submitForm` and `showNewComment` are not modelled. This covers `getElementById`, `querySelector(All)`, `closest`, `addEventListener` and `preventDefault`. The abstract state stands in for them. A missing form, banner, heading or container would throw in the source; the model assumes the page has them all.
- Timers: `setTimeout` delays (100 ms, 5000 ms), their real-time order and their stacking are not modelled. Each callback is a step a caller may run at any later point.
- HTML construction and `insertAdjacentHTML` (public/js/main.js:110-123) are not modelled. The source inserts field values into markup unescaped. The model keeps the new comment as its raw user name and content.
- `console.log` (public/js/main.js:143) is not modelled.
- `Record`: known keys are exactly `name` and `comment`. The source's test `typeof commentData[key] !== 'undefined'` is also true for inherited names such as `toString` or `constructor`. A field with such a name would be copied and cleared in the source, but not in the model.
- `RevealNewComment`: it requires a pending entrance step. If no comment were hidden, the source would fail on `null`. The model proves that state cannot arise while every reveal answers an earlier successful submit.
- `HideFormSuccessMessage` is not tied to a pending timer. The source hides the banner unconditionally, so any number of hide steps may run.
