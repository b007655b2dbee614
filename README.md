# Quiz Creator admin panel — a verified model

The admin page of Quiz Creator (`admin.js`) lets a user do the following:

- create or select a quiz by name;
- give it difficulty levels, which can be deleted and reordered;
- add, edit, delete and reset the multiple-choice questions of each level.

All of this happens in one in-memory document: a list of quizzes. Each quiz has:

- an `id` derived from its name;
- a `levels` list whose `order` fields number the levels;
- a `questions` map from level id to that level's list of questions.

This project models that document and the operations the panel's buttons run on it. It proves the following:

- level ids within a quiz stay unique;
- level orders stay `1..N` in list order;
- no question list outlives its level;
- every rejected operation leaves the document as it was;
- edits and deletions touch only their target.

It also models the two derived-text rules the panel depends on:

- the slug rule `name.toLowerCase().replace(/\s+/g, '-')` that makes ids;
- the file-extension test that classifies a media URL as a video or an image.

Modules:

- `Wrappers`: `Option`, used for JavaScript's `null`.
- `Text`: the `\s`/`trim()` whitespace class, `trim`, ASCII lower-casing, the collapse of whitespace runs, and the quiz and level ids. The lemmas cover trimming, the slug rule being idempotent, and how slugs join across whitespace.
- `Media`: URL classification and the `{type, url}` media fields.
- `Levels`: the level record and the list operations (`some`, `findIndex`, `Math.max`, `filter`, renumbering, and the adjacent swaps). The lemmas cover uniqueness, dense orders, up-then-down round trips, and which ids are present after each step.
- `Questions`: the question record, the new-question and edit rules, and `splice(index, 1)`.
- `Store`: the classes `Quiz` (levels and questions, updated in place) and `AdminPanel` (`quizData.quizzes` and `currentQuiz`), with one method per button handler.

Form fields, the `confirm()` answer and the active media-type button are inputs to the methods.

## Model

| member | source | states |
|---|---|---|
| `Text.Trim` | admin.js:137 | the result is a slice of the input; only whitespace is cut from each end; the ends of the result are not whitespace; the result is empty exactly when the input is all whitespace |
| `Text.TrimIdempotent` | admin.js:137 | trimming twice equals trimming once |
| `Text.Lower` | admin.js:145 | same length; each capital A–Z becomes its own small letter (code point plus 32); every other character is kept; so no capital remains and whitespace stays where it was |
| `Text.LowerAppend` | admin.js:145 | lower-casing distributes over concatenation |
| `Text.CollapseSpaces` | admin.js:145 | the result of `replace(/\s+/g, '-')` contains no whitespace |
| `Text.CollapseFromAppend` | admin.js:145 | the run-by-run scan of a concatenation is the scan of the first part followed by the scan of the second, given whether the first part ended in whitespace |
| `Text.CollapseNoSpace` | admin.js:145 | text without whitespace is left unchanged |
| `Text.CollapseRunTail` | admin.js:145 | inside a whitespace run, the rest of the run emits nothing |
| `Text.CollapseRun` | admin.js:145 | a whole whitespace run becomes one hyphen |
| `Text.CollapseAppend` | admin.js:145 | collapsing distributes over a concatenation that does not split a whitespace run |
| `Text.Slug` | admin.js:145 | an id contains no whitespace and no capital letter; a non-empty name gives a non-empty id |
| `Text.NoUpperCollapse` | admin.js:145 | collapsing whitespace introduces no capital letter |
| `Text.SlugIdempotent` | admin.js:145 | applying the slug rule to an id gives the same id |
| `Text.SlugJoin` | admin.js:145 | two words separated by any whitespace run get their slugs joined by exactly one hyphen |
| `Text.QuizId` | admin.js:137-145 | the quiz id has no whitespace or capital letter; it is empty exactly when the name field holds only whitespace |
| `Text.LevelId` | admin.js:547-557 | a level id is the quiz id, a hyphen, then a slug without whitespace |
| `Text.SlugOfPlainWord` | admin.js:145 | a lower-case word without whitespace is its own slug |
| `Text.TrimOfWord` | admin.js:137 | a string starting and ending on non-whitespace is not changed by trimming |
| `Text.AnimalTriviaId` | admin.js:137-145 | the name "Animal Trivia" gets the id `animal-trivia` |
| `Media.Classify` | admin.js:516-537 | an empty URL selects nothing; a non-empty URL is a video exactly when it ends in `.mp4`, `.webm` or `.ogg` in any letter case, and otherwise an image |
| `Media.ClassifyIgnoresCase` | admin.js:518 | changing the letter case of a URL never changes its kind |
| `Media.VideoBySuffix` | admin.js:518 | any URL ending in a video extension, in any case, is a video |
| `Media.ImageByPngSuffix` | admin.js:518 | a URL ending in `.png` is an image |
| `Media.MediaField` | admin.js:746-753 | the stored media is `null` exactly when the URL is empty, and otherwise holds the selected kind and the URL |
| `Levels.IndexOf` | admin.js:624 | `findIndex`: -1 exactly when no level has the id; otherwise the first position holding it |
| `Levels.IndexOfUnique` | admin.js:624 | with unique ids, `findIndex` of a level's id is that level's position |
| `Levels.MaxOrder` | admin.js:566-567 | `Math.max` of the orders: at least every order, and equal to one of them |
| `Levels.NextOrder` | admin.js:566-567 | the new order is 1 for an empty list; otherwise it is greater than every order and one more than some order; with dense orders it is the list length plus one |
| `Levels.AppendKeepsInvariants` | admin.js:560-576 | appending a level with a fresh id and the next order keeps ids unique and orders dense |
| `Levels.AppendHas` | admin.js:570-576 | after appending, the ids present are the old ones plus the new one |
| `Levels.WithoutId` | admin.js:602 | `filter`: the id is gone; every other level is kept; an absent id changes nothing |
| `Levels.WithoutIdAppend` | admin.js:602 | filtering a concatenation is filtering each part, in order, so the kept levels stay in their original order (any ids) |
| `Levels.WithoutIdOne` | admin.js:602 | a single level is kept exactly when its id differs from the removed one |
| `Levels.WithoutIdAt` | admin.js:602 | with unique ids, filtering out a level's id drops exactly that position |
| `Levels.WithoutIdKeepsUnique` | admin.js:602 | filtering keeps ids unique |
| `Levels.Renumber` | admin.js:608-610 | after the `forEach`, every order equals position plus one and nothing else changes; already-dense orders are untouched |
| `Levels.RenumberKeepsUnique` | admin.js:608-610 | renumbering keeps ids unique |
| `Levels.WithoutIdHas` | admin.js:602 | after filtering, an id is present exactly when it was present and is not the removed one |
| `Levels.RenumberHas` | admin.js:608-610 | renumbering changes no id's presence |
| `Levels.DeleteHas` | admin.js:602-610 | after deletion, an id is present exactly when it was present before and is not the deleted one |
| `Levels.DeleteShifts` | admin.js:602-610 | deleting position `k` leaves the earlier levels as they were; every later level moves one place forward and its order drops by one |
| `Levels.MovedUp` | admin.js:623-633 | the level and its predecessor swap places and take orders `index` and `index + 1`; every other position is unchanged; the first level or an absent id changes nothing |
| `Levels.MovedDown` | admin.js:642-652 | the level and its successor swap places and take orders `index + 1` and `index + 2`; every other position is unchanged; the last level changes nothing |
| `Levels.MovedUpKeepsInvariants` | admin.js:623-633 | moving up keeps ids unique and orders dense; the level ends one position earlier |
| `Levels.MovedDownKeepsInvariants` | admin.js:642-652 | moving down keeps ids unique and orders dense; the level ends one position later |
| `Levels.MovedHas` | admin.js:623-652 | moving a level adds and removes no id |
| `Levels.SwapKeepsUnique` | admin.js:626-627 | exchanging two neighbours keeps ids unique |
| `Levels.UpThenDownRestores` | admin.js:623-652 | on a valid list, moving a level up and then down gives back the original list |
| `Levels.DownThenUpRestores` | admin.js:623-652 | on a valid list, moving a level down and then up gives back the original list |
| `Questions.NewQuestion` | admin.js:740-753 | the new question has the form text and the four options in form order; `correct` is 0, the first option; each media field is `null` exactly when its URL is empty |
| `Questions.Edited` | admin.js:423-440 | an edit gives the question a new question would get from the same form, except that `correct` is kept |
| `Questions.EditedIdempotent` | admin.js:423-440 | saving the same form twice equals saving it once |
| `Questions.EditedNewUnchanged` | admin.js:423-440 | editing a new question with the form it came from changes nothing |
| `Questions.RemoveAt` | admin.js:465 | `splice(index, 1)`: one element shorter; earlier elements stay put and later ones shift forward by one |
| `Questions.RemoveAtInverse` | admin.js:465 | re-inserting the removed question restores the list; the multiset lost exactly that question |
| `Store.FindQuiz` | admin.js:148 | `find`: -1 exactly when no quiz has the id; otherwise the first quiz holding it |
| `Store.Quiz.constructor` | admin.js:155-160 | a new quiz has the given id and name, no levels and no questions |
| `Store.Quiz.AddLevel` | admin.js:547-581 | an empty trimmed name, or an id already present, changes nothing. Otherwise the level is appended with the next order, and an empty question list is created only if its id had none. Unique ids, dense orders and no orphaned question lists are preserved |
| `Store.Quiz.DeleteLevel` | admin.js:596-610 | declining changes nothing. Otherwise the new levels are the filtered, renumbered old levels, and exactly the deleted id's question list is removed. No id appears that was not there; unique ids, dense orders and no orphaned lists are preserved |
| `Store.Quiz.MoveLevelUp` | admin.js:623-640 | the levels become `MovedUp` of the old levels; questions are untouched; the invariants are preserved; the level moves one place earlier |
| `Store.Quiz.MoveLevelDown` | admin.js:642-659 | the levels become `MovedDown` of the old levels; questions are untouched; the invariants are preserved; the level moves one place later |
| `Store.Quiz.AddQuestion` | admin.js:729-758 | with no level selected, or an empty field, nothing changes. Otherwise the new question is appended to that level's list, which is created if missing, and no other list changes |
| `Store.Quiz.EditQuestion` | admin.js:331-335 | a missing question gives "not found" and an empty field gives "missing field"; neither changes anything. Otherwise only the question at `index` of that level changes, to `Edited`. The keys, the other lists and the other positions are unchanged |
| `Store.Quiz.DeleteQuestion` | admin.js:454-465 | declining, or a missing question, changes nothing. Otherwise only that level's list changes, by `RemoveAt`; the keys are kept |
| `Store.Quiz.ResetQuestions` | admin.js:773-776 | declining changes nothing; otherwise every question list is gone and the levels stay |
| `Store.AdminPanel.ResetQuestions` | admin.js:773-776 | declining changes nothing; with no current quiz a confirmed reset throws before assigning, so nothing changes; otherwise every question list of the current quiz is gone and its levels stay |
| `Store.AdminPanel.constructor` | admin.js:5-7 | the panel starts from the default data, with no quizzes, and no quiz is selected |
| `Store.AdminPanel.SaveQuizName` | admin.js:136-162 | an empty trimmed name changes nothing. Otherwise the current quiz becomes the first quiz with the derived id, and the list stays as it was. If no quiz has that id, a new empty quiz with the trimmed name is appended and selected. Quiz ids stay unique |
| `Store.AdminPanel.AddCustomLevel` | admin.js:541-545 | with no current quiz nothing changes; otherwise it behaves as `Quiz.AddLevel` |
| `Store.AdminPanel.AddCustomQuestion` | admin.js:707-711 | with no current quiz nothing changes; otherwise it behaves as `Quiz.AddQuestion` |

## Left out

- Persistence is not modelled. The `localStorage` reads and writes and the JSON encoding of the document are the storage of the state, not its logic.
- The DOM is not modelled:
  - rendering of the level list, the level selector and the question list;
  - previews, modals and form resets.
- Form values, the active media-type button and the answer to `confirm()`:
  - they are method arguments;
  - `showModal` messages appear as a `Reason`.
- Uploaded files are left out. `FileReader` reads a file asynchronously, writes its data URL into the URL field and selects the kind from the file's MIME type. The model takes the URL field and the selected kind as inputs.
- `viewQuestions` and `updateQuestionsList` only build text for display.
- `editLevel` pre-fills the form and then calls `deleteLevel`, which is modelled.
- The `quizId` query parameter read by `initAdmin` only preselects a quiz at page load.
- Remembered question in `editQuestion`/`saveEditedQuestion`:
  - the source stores a reference to the question object between opening and saving the editor;
  - the model performs the edit by `(levelId, index)` in one step;
  - so it does not model a question deleted or moved while the editor is open.
- Level objects are modelled as values. The source mutates them in place, but nothing outside the level list holds a reference to them. Question objects are values too; the one reference held outside the document, the remembered question of the editor, is covered by the previous line.
- Text.Lower: only ASCII letters are lower-cased, while `toLowerCase` folds all of Unicode. The `/i` flag of the video test folds only ASCII letters, so the model is exact there.
- Text is modelled as sequences of Unicode scalar values, not as UTF-16 code units.
- Store.Quiz.MoveLevelDown and Levels.MovedDown:
  - both require the id to be present or the list to be empty;
  - for an absent id on a non-empty list, the source's `findIndex` gives -1 and the swap at admin.js:646-647 runs anyway;
  - that swap stores `undefined` at position 0 and the first level under the key `"-1"`, corrupting the in-memory list;
  - then `levels[0].order` throws a TypeError;
  - the model does not represent that corrupted state.
- Store.Quiz.EditQuestion and Store.Quiz.DeleteQuestion take an integer index:
  - a `parseInt` result of `NaN` is not modelled;
  - object keys inherited from `Object.prototype` (`questions["constructor"]`) are not modelled.
- Store.Quiz.AddQuestion:
  - it keeps the no-orphans invariant only when the selected id is one of the quiz's levels;
  - the selector offers only those, but the source does not check this itself.
- Store.AdminPanel.Valid:
  - it covers unique quiz ids and the current quiz being listed;
  - per-quiz invariants are stated on each `Quiz` and preserved by each method;
  - it is not a single invariant over every quiz.
- Random placement of the right answer is not modelled. `addCustomQuestion` always stores `correct: 0`, as the model does. Its success message announces that the right answer will be placed at random; that happens outside admin.js, which is not part of this model.
- The reset button is on the page even before a quiz is chosen. A confirmed reset then throws a TypeError instead of showing a message. Store.AdminPanel.ResetQuestions reports this as `Rejected(Threw)` and changes nothing, as the source's throw happens before any assignment.
