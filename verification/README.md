# Mergington activity registry, modelled in Dafny

The Mergington High School API keeps an in-memory registry of
extracurricular activities. It maps each activity name to a record with a
description, a schedule, an advertised `max_participants` and an ordered
list of participant emails. A caller can list the registry. A caller can
sign an email up, which appends it to the list. A caller can unregister an
email, which removes it from the list. Unknown activities, duplicate
signups and unknown participants are refused with 404, 400 and 404
failures. The page that shows the registry escapes every text it puts into
HTML with `escapeHtml`, and it shows "spots left" as capacity minus the
participant count.

Files:

- `activities.dfy`, module `Activities` (src/app.py). It holds the record
  and error datatypes and the two transitions `Signup` and `Unregister` as
  pure functions over the map. `RemoveFirst` models Python's `list.remove`.
  The seed registry is built from its nine entries. `Handle` and `Replay`
  are proof scaffolding with no counterpart in the source: `Handle` routes
  one request to `Signup` or `Unregister`, and `Replay` serves a sequence of
  requests one at a time, so that lemmas can speak of every reachable
  registry. The class `ActivityRegistry` owns the
  shared map. Its constructor installs the seed data, and its methods
  reassign the map exactly as the spec functions say. The lemmas cover
  error cases, append-at-end, first-occurrence removal, the no-duplicates
  invariant, the signup/unregister round trip, unenforced capacity and
  reachability from the seed. The client method `ChessClubFlow` replays the
  test suite's "Chess Club" scenario against the class, and
  `UnregisterTwice` shows a repeated unregister failing on the class.
- `page.dfy`, module `ActivitiesPage` (src/static/app.js). `EscapeHtml` is
  the chain of five global replacements, `&` first. `EscapeEach` is an
  independent per-character reference. Three properties are proved on the
  chain itself: it distributes over concatenation, it leaves plain text
  alone, and it leaves no raw `<`, `>`, `"` or `'`. Distribution and a check
  of each single character then show that the chain equals `EscapeEach`.
  The length bound and the entity property are proved on `EscapeEach` and
  carried over through that equality. `SpotsLeft` and its lemmas tie the
  card's availability figure to the registry transitions.

## Model

| member | source | states |
|---|---|---|
| `Activities.HttpError.StatusCode` | src/app.py:95-121 | NotFound failures are reported with 404 and Conflict failures with 400 |
| `Activities.RemoveFirst` | src/app.py:124 | `list.remove` on a list holding the email yields a list exactly one element shorter |
| `Activities.RemoveFirstCutsFirstOccurrence` | src/app.py:124 | `list.remove` cuts out exactly the element at the first index holding the email; everything before and after stays in order |
| `Activities.RemoveFirstMultiset` | src/app.py:124 | removal takes exactly one copy of the email out of the list's multiset of elements |
| `Activities.RemoveFirstFromDistinct` | src/app.py:124 | on a duplicate-free list, the email is absent afterwards and the list stays duplicate-free |
| `Activities.RemoveFirstAfterAppend` | src/app.py:106-124 | appending an absent email and then removing it gives back the original list |
| `Activities.AppendKeepsDistinct` | src/app.py:102-106 | appending an email that is not already listed keeps the list duplicate-free |
| `Activities.Signup` | src/app.py:92-107 | signup keeps the set of activity names, changes no other activity and no field but `participants`, and succeeds exactly when the activity exists and the email is not listed; a failure changes nothing |
| `Activities.Unregister` | src/app.py:111-125 | unregister keeps the set of activity names, changes no other activity and no field but `participants`, and succeeds exactly when the activity exists and the email is listed; a failure changes nothing |
| `Activities.SignupFailures` | src/app.py:95-103 | unknown activity gives NotFound "Activity not found" (404); a listed email gives Conflict "Student already signed up for this activity" (400); neither changes the registry |
| `Activities.SignupAppends` | src/app.py:106-107 | a successful signup answers "Signed up {email} for {name}" and the new list is the old one with the email at the end; description, schedule and capacity are unchanged |
| `Activities.SignupPreservesWellFormed` | src/app.py:102-106 | signup keeps every activity's participants free of duplicates |
| `Activities.SignupTwiceConflicts` | src/app.py:102-103 | a second signup of the same email is a Conflict that leaves the registry unchanged |
| `Activities.SignupIgnoresCapacity` | src/app.py:92-107 | signup succeeds even when the participant count has reached `max_participants`, pushing the count above it |
| `Activities.UnregisterFailures` | src/app.py:114-121 | unknown activity gives NotFound "Activity not found"; an unlisted email gives NotFound "Participant not found in this activity"; both are 404 and neither changes the registry |
| `Activities.UnregisterRemoves` | src/app.py:124-125 | a successful unregister answers "Unregistered {email} from {name}", cuts out the first occurrence of the email and keeps the order of the rest and the other fields; on a duplicate-free list the email is then absent |
| `Activities.UnregisterPreservesWellFormed` | src/app.py:120-124 | unregister keeps every activity's participants free of duplicates |
| `Activities.UnregisterTwiceNotFound` | src/app.py:120-124 | on a well-formed registry, a second unregister of the same email is NotFound "Participant not found in this activity" |
| `Activities.SignupThenUnregister` | tests/test_api.py:24-38 | signing up an email not yet listed and then unregistering it both succeed and restore the registry exactly |
| `Activities.ReplayPreservesWellFormed` | src/app.py:91-125 | any sequence of signup and unregister requests keeps every participant list free of duplicates |
| `Activities.ReplayKeepsCatalogue` | src/app.py:91-125 | no sequence of requests adds, removes or renames an activity, or changes a description, schedule or capacity |
| `Activities.RegistryOf` | src/app.py:23-78 | the registry built from the literal's entries has exactly the entries' names as keys |
| `Activities.SeedWellFormed` | src/app.py:23-78 | every activity built from the nine seed entries has duplicate-free participants and is within its capacity |
| `Activities.SeedChessClub` | src/app.py:24-29 | the registry built from the seed entries holds "Chess Club" with capacity 12 and participants michael@ and daniel@mergington.edu, and has no "Unknown Club" |
| `Activities.SeedActivities` | src/app.py:23-78 | the start-up registry has duplicate-free participants within capacity everywhere, and its "Chess Club" has capacity 12 and the two seeded participants; there is no "Unknown Club" |
| `Activities.ReachableWellFormed` | src/app.py:23-125 | every registry reachable from the seed by any sequence of requests is free of duplicate participants |
| `Activities.ActivityRegistry.constructor` | src/app.py:23-78 | the shared registry starts as the seed data and satisfies the no-duplicates invariant |
| `Activities.ActivityRegistry.GetActivities` | src/app.py:86-88 | listing returns the registry as it stands and changes nothing |
| `Activities.ActivityRegistry.SignupForActivity` | src/app.py:91-107 | the response and the new map are those of `Signup` on the old map; the no-duplicates invariant is kept |
| `Activities.ActivityRegistry.UnregisterFromActivity` | src/app.py:110-125 | the response and the new map are those of `Unregister` on the old map; the no-duplicates invariant is kept |
| `Activities.UnregisterTwice` | src/app.py:119-124 | on a registry keeping the invariant, the first unregister succeeds exactly when the activity exists and lists the email; after a success, the repeat is NotFound "Participant not found in this activity"; after a failure, the repeat fails the same way |
| `Activities.ChessClubFlow` | tests/test_api.py:16-38 | on the seeded registry, signing up tester@example.com for "Chess Club" succeeds and lists it after the two seeded emails; a repeat is a 400 Conflict; unregistering succeeds and restores the seed exactly; a repeat unregister is NotFound; signing up for "Unknown Club" is a 404 NotFound |
| `ActivitiesPage.EscapeHtml` | src/static/app.js:8-16 | a value that is not a string escapes to the empty string; a string escapes, through the chain of five replacements `EscapeString`, to the per-character escape `EscapeEach` |
| `ActivitiesPage.ReplaceAll` | src/static/app.js:11 | a global replace of an absent character returns the text unchanged, and a character absent from the replacement is absent from the result |
| `ActivitiesPage.EscapeChar` | src/static/app.js:11-15 | the reference map: a plain character stays itself; a special one becomes an entity that starts with `&` and has no special character after it |
| `ActivitiesPage.EscapeStringChar` | src/static/app.js:11-15 | on a single character the replacement chain gives exactly the reference map's entity |
| `ActivitiesPage.EscapeStringIsPerCharacter` | src/static/app.js:10-15 | the chain of five replacements, `&` first, equals escaping character by character |
| `ActivitiesPage.EscapeHtmlDistributes` | src/static/app.js:10-15 | escaping `a + b` gives the escape of `a` followed by the escape of `b` |
| `ActivitiesPage.EscapeNonString` | src/static/app.js:9 | any value that is not a string escapes to the empty string |
| `ActivitiesPage.EscapeHtmlKeepsPlainText` | src/static/app.js:10-15 | text with none of `& < > " '` is returned unchanged |
| `ActivitiesPage.EscapeHtmlNoRawSpecials` | src/static/app.js:12-15 | the output contains no `<`, `>`, `"` or `'` |
| `ActivitiesPage.EscapeHtmlAmpersandsBeginEntities` | src/static/app.js:11-15 | every `&` in the output begins one of `&amp;`, `&lt;`, `&gt;`, `&quot;`, `&#039;` |
| `ActivitiesPage.EscapeHtmlLength` | src/static/app.js:11-15 | the output is at least as long as the input, and exactly as long when the input has no special character |
| `ActivitiesPage.SpotsLeft` | src/static/app.js:32 | the figure is negative exactly when the list is longer than the capacity, and zero exactly when the list is at capacity |
| `ActivitiesPage.SpotsLeftAfterSignup` | src/static/app.js:32 | a successful signup lowers spots left by one; signing up to a full activity still succeeds and leaves a negative figure |
| `ActivitiesPage.SpotsLeftAfterUnregister` | src/static/app.js:32 | a successful unregister raises spots left by one |
| `ActivitiesPage.SeedSpotsLeft` | src/static/app.js:32 | every seeded activity shows a non-negative figure, and "Chess Club" shows 10 |

## Left out

- FastAPI wiring is not modelled: the `app` object, route decorators, the static-file mount and the redirect at `/`. HTTP status codes appear only as `HttpError.StatusCode`. The JSON bodies `{"message": …}` and `{"detail": …}` become the `Ok` and `Failed` responses.
- The registry is a map of record values. Python's `get_activities` hands out the live dict, so a caller could mutate it through that alias. `GetActivities` returns a value instead.
- Python dicts keep insertion order, which fixes the order of the JSON listing. A Dafny `map` has no order, so listing order is not modelled. The seed's order is kept only in `SeedEntries`.
- Concurrency between requests is not modelled. Each request is one atomic step, and `Replay` serves requests one at a time.
- `RemoveFirst` requires the email to be listed. Python's `list.remove` raises `ValueError` otherwise, and the guard at src/app.py:120 rules that case out.
- The test's own cleanup at tests/test_api.py:21-22 writes to the dict directly. It is not modelled; the scenario starts from the seed.
- All DOM work in src/static/app.js is not modelled: element lookup, templating, event handlers, `confirm`, `alert`, `setTimeout`, `fetch` and `response.json()`. `encodeURIComponent` is a browser library call and is also left out.
- `JsValue` collapses every non-string value into `NotAString`, because `escapeHtml` treats them all alike. Script strings are sequences of UTF-16 code units, while Dafny `char` is a Unicode scalar. The five special characters are ASCII, so escaping is the same on both.
- `SpotsLeft` uses unbounded integers. The script computes it with double-precision numbers, which are exact for any realistic capacity and list length.
