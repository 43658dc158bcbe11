# Article catalogue: a Dafny model of the client-side state

The application is a small React catalogue of articles. Each article has an
id, a title, a brief description and a detailed description. The `App`
component keeps the list of articles in memory. It also keeps four view cells:
`showForm`, `viewMode`, `isEditing` and `currentArticle`. Its handlers add,
edit, view and delete articles. The `ArticleForm` component validates the three
texts before handing the article back.

This project models that core and proves what it promises:

- `Wrappers` (`wrappers.dfy`): the `Option` type that stands for `null`.
- `Validation` (`validation.dfy`): JavaScript's `trim` over the ECMAScript
  whitespace set, and the error map `validateForm` builds.
- `Articles` (`articles.dfy`): the `Article` record and the pure list
  operations. These are id assignment (`Math.max(...ids) + 1`, or 1), append,
  replace-by-id (`map`), remove-by-id (`filter`) and `find`. The file also holds
  the list invariant (ids present and pairwise distinct, every text non-blank)
  and the lemmas that each operation keeps it.
- `ArticleForms` (`article_form.dfy`): the form as a class. Its cells are the
  three texts and `errors`; it has `validateForm` and `handleSubmit`. The
  `onSave` call becomes the returned `Option<Article>`.
- `App` (`app.dfy`): the component as a class with the five state cells. There
  is one method per handler, each an atomic update. `CurrentView` is the render
  condition. `SubmitForm` is the form-to-`handleSave` round. Every handler keeps
  `Valid()`: the form and detail views are never both active, and each has a
  `currentArticle` to render. The detail view's article is always one the list
  still holds.

Decisions that follow the code:

- Whether a save adds or updates depends on the `isEditing` cell, not on
  whether the saved article's id is null.
- `Math.max` coerces a `null` id to 0 (`Articles.Key`). This keeps `NextId` total.
- Cancel clears only `showForm`. It leaves `currentArticle` and `isEditing` as
  they were.
- Delete is reachable only from the list cards (src/App.jsx:98), so
  `HandleDelete` requires the form to be closed. It still clears
  `currentArticle` and `viewMode` when the deleted id is the current one, as
  lines 52-55 do.

Handlers carry, as preconditions, where their buttons are rendered:

- `HandleDelete` needs an article with that id to exist, because line 48
  dereferences `articleToDelete.title`. It also needs the form to be closed.
- `HandleBack` needs the form to be closed.
- `HandleView` takes a card of the list.
- `HandleSave` runs only from the open form, after validation passed.

## Model

| member | source | states |
|---|---|---|
| `Validation.TrimStart` | src/App.jsx:150-152 | the result is the suffix of the text left after every leading whitespace character, and it does not start with whitespace |
| `Validation.TrimEnd` | src/App.jsx:150-152 | the result is the prefix left after every trailing whitespace character, and it does not end with whitespace |
| `Validation.Trim` | src/App.jsx:150-152 | `trim()` yields the contiguous slice of the text left after removing its leading and trailing characters, every one of them whitespace, with no whitespace left at either end |
| `Validation.BlankIffAllWhitespace` | src/App.jsx:150-152 | `!s.trim()` holds exactly when every character of `s` is whitespace |
| `Validation.Validate` | src/App.jsx:148-153 | the error map has a `title`, `briefDescription` or `detailedDescription` key exactly when that field's trimmed text is empty, carrying that field's message |
| `Validation.ValidateEmptyIff` | src/App.jsx:155 | the map has no keys exactly when none of the three texts is blank |
| `Validation.OnlyTitleBlank` | src/App.jsx:150-152 | a blank title beside two filled fields yields the title error alone |
| `Validation.EmptyTitleScenario` | src/App.jsx:148-155 | validating `("", "B", "C")` yields exactly `{title: "Le titre est obligatoire"}` |
| `Articles.MaxKey` | src/App.jsx:38 | `Math.max` over the ids of a non-empty list is an id of the list and no id exceeds it |
| `Articles.NextId` | src/App.jsx:38 | the new id is 1 on an empty list; otherwise it is the largest id plus one, so it exceeds every id |
| `Articles.NextIdAfterOneAndThree` | src/App.jsx:38 | after ids 1 and 3 the new id is 4 |
| `Articles.AddArticle` | src/App.jsx:39-40 | the list grows by one; earlier records are unchanged and in order; the last record is the draft's fields under the fresh id |
| `Articles.AddToEmpty` | src/App.jsx:38-40 | an add on an empty list stores the draft with id 1 |
| `Articles.NextIdIsFresh` | src/App.jsx:38 | no record already carries the fresh id |
| `Articles.AddKeepsDistinct` | src/App.jsx:38-40 | if ids are pairwise distinct before an add, they still are after it |
| `Articles.AddKeepsStoreValid` | src/App.jsx:38-40 | adding a complete draft keeps the list invariant |
| `Articles.FindAfterAdd` | src/App.jsx:38-47 | looking up the assigned id after an add finds the draft's fields under that id |
| `Articles.RemoveUndoesAdd` | src/App.jsx:38-49 | deleting the id an add assigned gives back the list from before the add |
| `Articles.ReplaceById` | src/App.jsx:34 | same length; each record whose id equals the saved id becomes the saved article; every other record is unchanged in its place |
| `Articles.ReplaceNoMatch` | src/App.jsx:34 | an edit-save whose id matches no record leaves the list identical |
| `Articles.ReplaceExactlyOne` | src/App.jsx:34 | with distinct ids, an edit-save changes exactly the one record with that id |
| `Articles.ReplaceKeepsIds` | src/App.jsx:34 | an edit-save never changes which id sits at which position |
| `Articles.ReplaceKeepsStoreValid` | src/App.jsx:33-35 | saving a complete edited article keeps the list invariant |
| `Articles.RemoveById` | src/App.jsx:49 | a record survives the filter exactly when it was in the list and carries another id |
| `Articles.RemoveConcat` | src/App.jsx:49 | the filter distributes over concatenation, so the survivors keep their relative order |
| `Articles.RemoveAbsent` | src/App.jsx:49 | removing an id no record carries leaves the list identical |
| `Articles.RemoveIdempotent` | src/App.jsx:49 | removing the same id twice equals removing it once |
| `Articles.RemoveExactlyOne` | src/App.jsx:49 | with distinct ids, deleting the id at position k removes that record alone and keeps the rest in order |
| `Articles.RemoveKeepsDistinct` | src/App.jsx:49 | deleting keeps ids pairwise distinct |
| `Articles.RemoveKeepsStoreValid` | src/App.jsx:49 | deleting keeps the list invariant |
| `Articles.Find` | src/App.jsx:47 | `find` returns the first record with the id; absent exactly when no record carries it |
| `Articles.FindAfterRemove` | src/App.jsx:47-49 | after a delete, looking the id up finds nothing |
| `Articles.CompleteIffValid` | src/App.jsx:150-152 | a record is complete (each text has a non-whitespace character) exactly when its texts pass validation |
| `ArticleForms.ArticleForm.constructor` | src/App.jsx:143-146 | the form's cells start as the article's texts, with an empty error map |
| `ArticleForms.ArticleForm.SetTitle` | src/App.jsx:175 | the title cell takes the typed value |
| `ArticleForms.ArticleForm.SetBriefDescription` | src/App.jsx:187 | the brief-description cell takes the typed value |
| `ArticleForms.ArticleForm.SetDetailedDescription` | src/App.jsx:198 | the detailed-description cell takes the typed value |
| `ArticleForms.ArticleForm.Edited` | src/App.jsx:161 | the merged article keeps the original id (or null for a draft) and carries the three edited texts |
| `ArticleForms.ArticleForm.ValidateForm` | src/App.jsx:148-156 | stores the error map and returns true exactly when the three texts pass validation |
| `ArticleForms.ArticleForm.HandleSubmit` | src/App.jsx:158-163 | hands back an article only when validation passes; that article is the original merged with the edited texts, and it is complete; otherwise nothing is saved |
| `App.VisibleStartSaved` | src/App.jsx:150-152 | a record with an id whose three texts each start with a non-whitespace character is saved: it has an id and passes validation |
| `App.InitialArticlesValid` | src/App.jsx:219-244 | the four seed records, ids 1 to 4 with filled texts, satisfy the list invariant |
| `App.AppState.constructor` | src/App.jsx:7-16 | the list starts as the seed records, no flag is set, no current article, and the invariant holds |
| `App.AppState.CurrentView` | src/App.jsx:84-136 | the list view exactly when neither flag is set, the detail view exactly when `viewMode` is set (showing a stored article), otherwise the form on `currentArticle` |
| `App.AppState.HandleAdd` | src/App.jsx:18-23 | opens the form on the empty draft in add mode; the list is unchanged; the invariant holds |
| `App.AppState.HandleEdit` | src/App.jsx:25-30 | opens the form on the article in edit mode; the list is unchanged; the invariant holds |
| `App.AppState.HandleSave` | src/App.jsx:32-44 | in edit mode the list is the replace-by-id of the old list, otherwise the old list with the draft appended under the fresh id; the form closes and nothing else changes |
| `App.AppState.HandleDelete` | src/App.jsx:46-57 | a declined confirmation changes nothing; a confirmed one filters the id out, and clears `currentArticle` and `viewMode` exactly when the current article carries that id |
| `App.AppState.HandleView` | src/App.jsx:59-63 | shows the article in the detail view with the form closed; the list is unchanged |
| `App.AppState.HandleBack` | src/App.jsx:65-68 | clears the current article and leaves the detail view; the list is unchanged |
| `App.AppState.Cancel` | src/App.jsx:133 | closes the form and leaves `currentArticle`, `isEditing`, `viewMode` and the list as they were |
| `App.SubmitForm` | src/App.jsx:158-162 | a failed validation leaves the application state untouched with the form open; a passing one stores the merged article (replace or append by `isEditing`), closes the form, and leaves `currentArticle`, `isEditing` and `viewMode` as they were |

## Left out

- `index.js`: the Express listener and MySQL connection read and write no articles. It is I/O plumbing and is not part of this model.
- Toast notifications and `ToastContainer`: fire-and-forget calls into a library outside the model.
- The `window.confirm` dialog: it becomes the `confirmed` parameter of `HandleDelete`.
- JSX markup, CSS classes, the form heading chosen by `isEditing`, and the per-field error messages' rendering: presentation only.
- `e.preventDefault()` in `handleSubmit`: a browser event detail.
- React scheduling: each handler is one atomic, synchronous update of the cells. The mount effect that seeds the list is folded into the constructor, so the first render with an empty list is not modelled.
- App.InitialArticlesValid: the seed records keep their ids and titles, but their descriptions are cut to their opening words. Long string literals are too costly for the verifier, and only non-blankness matters to the model.
- Validation.IsWhitespace: lists ECMAScript's WhiteSpace and LineTerminator code points as current Unicode defines them. Characters are Unicode scalar values, not UTF-16 code units.
- Articles.NextId: ids are unbounded integers rather than IEEE doubles, and the argument-count limit of `Math.max(...ids)` on huge lists is not modelled.
- App.AppState.HandleSave: requires the form to be open and the article to be complete. Its only caller is the form after validation (`App.SubmitForm` shows the two together). A direct call with a blank article is outside the model.
