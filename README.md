# Contributor links and the feedback widget, in Dafny

This project models the two browser scripts of the documentation site.

- **Contributor link normaliser** (`docs/js/github-contributors.js`,
  `fixContributorLinks`). It finds every anchor inside a
  `.md-source-file__fact` element whose `href` starts with `mailto:`. For each
  one it takes the address after `mailto:`, keeps the part before the first
  `@` as a GitHub username, and points the link at
  `https://github.com/<username>`. It also sets `target="_blank"` and
  `rel="noopener noreferrer"`, and cuts the visible text at its first `@`.
  The page is an `array<Link>` of link records. The pass first selects the
  indices (`SelectContributorLinks`, the static `querySelectorAll` result). It
  then rewrites those links in place (`FixContributorLinks`). Its meaning is
  the pure function `NormalizedPage`, and the properties are proved about that
  function: exact rewrite, unselected links untouched, links handled
  independently, and idempotence. Idempotence is why re-running the pass on
  every DOM mutation is safe.
- **Feedback click handler** (`js/feedback.js`). `FeedbackWidget.Click(i, path)`
  runs the listener of option `i`. It clears the selected marker on every
  option in a loop, marks option `i`, and shows option `i`'s note if it has one.
  Then it reads, updates and writes back the `path -> rating` object stored
  under `page_feedback` in `LocalStorage`. The UI changes happen before the
  storage step. If that step throws, the UI changes stay and nothing is
  written. Sequences of clicks are modelled by `Run`, and the lemmas about it
  state the single-selection invariant, overwrite-per-path and
  "other paths unchanged".

The stored item is modelled by what `JSON.parse` makes of its text
(`StoredItem`):

- A missing key and the empty string are both falsy, so `|| '{}'` turns them
  into an empty object.
- Text that is not JSON makes `JSON.parse` throw a SyntaxError.
- The JSON literal `null` parses. The assignment to a property of `null` then
  throws a TypeError.
- Any other non-object JSON value (a number, string, boolean or array) takes the
  assignment without error, because the script is not in strict mode. Nothing
  of it survives `JSON.stringify`, so the rating is silently dropped. A finite
  value is written back as it was.
- A number beyond double range, such as `1e400`, parses to an infinity, which
  `JSON.stringify` writes as `null`. After the first click storage holds
  `null`, and every later click throws a TypeError (`NonFiniteTurnsNull`).

The handler has no `try`. Unparseable stored text makes `JSON.parse` throw.
The handler stops after the UI changes, and every later click throws the same
way (`UnwritableIsSticky`). It never falls back to an empty map.

## Model

| member | source | states |
|---|---|---|
| `JsStrings.SplitHead` | docs/js/github-contributors.js:11 | `s.split(c)[0]` is a prefix of `s` with no `c` in it. It ends just before the first `c`, or is all of `s` when `c` does not occur |
| `JsStrings.ReplaceFirst` | docs/js/github-contributors.js:10 | `s.replace(pat, rep)` leaves `s` unchanged when `pat` does not occur. When `s` starts with `pat`, the result is `rep` followed by the rest of `s` |
| `GithubContributors.Username` | docs/js/github-contributors.js:10-11 | the username never contains `@`. For an `href` of the form `mailto:e`, it is the part of `e` before its first `@`, or all of `e` (no identity is rejected) |
| `GithubContributors.DisplayText` | docs/js/github-contributors.js:19-21 | the new text never contains `@`. Text without `@` is unchanged. Text with `@` becomes its prefix ending just before the first `@` |
| `GithubContributors.NormalizedPage` | docs/js/github-contributors.js:8-22 | one pass keeps the number and order of links and changes each link on its own, by `NormalizeLink`: a selected link becomes `Rewritten(link)` (the `forEach` body), any other link stays as it is |
| `GithubContributors.UnselectedUnchanged` | docs/js/github-contributors.js:6 | a link outside a fact container, or whose `href` does not start with `mailto:`, keeps every attribute and its text |
| `GithubContributors.RewriteOfMailto` | docs/js/github-contributors.js:10-21 | `NormalizeLink` gives a selected link `mailto:e` (through `Rewritten`) `href == "https://github.com/" + SplitHead(e, '@')` (all of `e` when it has no `@`), `target == "_blank"`, `rel == "noopener noreferrer"` and its text cut at the first `@` |
| `GithubContributors.RewrittenNotSelected` | docs/js/github-contributors.js:14 | a rewritten link is no longer matched by the selector |
| `GithubContributors.NormalizeLinkIdempotent` | docs/js/github-contributors.js:6-21 | a second pass over one link changes nothing |
| `GithubContributors.NormalizedPageIdempotent` | docs/js/github-contributors.js:4-23 | running the pass on an already normalised page gives the same page |
| `GithubContributors.RepeatedPasses` | docs/js/github-contributors.js:29-35 | any number of passes (at least one), as the MutationObserver triggers them, equals one pass |
| `GithubContributors.NormalizedPageConcat` | docs/js/github-contributors.js:8-22 | the pass over `a + b` is the pass over `a` followed by the pass over `b` |
| `GithubContributors.RescanAfterInsertion` | docs/js/github-contributors.js:29-37 | inserting links into a normalised page and re-running the pass gives what one pass over the whole page gives |
| `GithubContributors.SelectContributorLinks` | docs/js/github-contributors.js:6 | returns exactly the indices of the selected links, strictly increasing (document order, no repeats) |
| `GithubContributors.FixContributorLinks` | docs/js/github-contributors.js:4-23 | after the in-place loop over the selected links, the array is `NormalizedPage` of the old array |
| `Feedback.Parse` | js/feedback.js:35 | parsing fails exactly on malformed text, and the error is a SyntaxError. A missing key and `""` read as the empty object, and a stored object reads as itself |
| `Feedback.SetEntry` | js/feedback.js:36 | it throws exactly on `null`. On an object it maps `path` to the rating verbatim and keeps every other key and value. Any other value is left as it is |
| `Feedback.Serialize` | js/feedback.js:37 | what is written back parses to the value that was serialised, except that a non-finite number is written as `null` |
| `Feedback.StoreRatingSpec` | js/feedback.js:35-37 | the storage step `StoreRating` fails exactly on malformed text (SyntaxError) or `null` (TypeError). From a missing key, `""` or an object it writes `entries[path := rating]`. A finite non-object value is written back unchanged, and a number beyond double range is written back as `null` |
| `Feedback.FirstRating` | js/feedback.js:35 | a missing key (or `""`) is treated as the empty map, so the first rating gives `{path: rating}` |
| `Feedback.LaterRatingOverwrites` | js/feedback.js:36 | rating the same path twice leaves the storage as rating it only the second time |
| `Feedback.DistinctPathsCommute` | js/feedback.js:36 | ratings of two different paths give the same storage in either order |
| `Feedback.Clicked` | js/feedback.js:18-27 | after clicking option `i`, option `i` is selected and no other option is, whatever the prior state. Option `i`'s note is shown if it has one. Other notes, and every option's value and note presence, are unchanged |
| `Feedback.LastClickedIsSelected` | js/feedback.js:18-21 | after any non-empty sequence of clicks, exactly one option is selected: the last one clicked |
| `Feedback.NotesStayRevealed` | js/feedback.js:24-27 | a note once shown stays shown, and the note of every clicked option that has one is shown |
| `Feedback.Run` | js/feedback.js:11-38 | running the handler once per click (`AfterClick` per click: `Clicked` on the options, then the storage step or nothing when it throws) keeps the number of options and every option's value and note presence |
| `Feedback.UnwritableIsSticky` | js/feedback.js:35-37 | when the stored text is malformed or `null`, every click throws before writing, so the stored item never changes |
| `Feedback.NonFiniteTurnsNull` | js/feedback.js:35-37 | with a number beyond double range stored, the first click writes `null`, and the next click's storage step throws a TypeError |
| `Feedback.RunKeepsUnratedPaths` | js/feedback.js:35-37 | starting from a missing key, `""` or an object, the stored keys after a sequence of clicks are the old keys plus the clicked paths. Every path never clicked keeps its old rating |
| `Feedback.LastRatingStored` | js/feedback.js:34-37 | after a non-empty sequence of clicks on a writable store, the last click's path maps to that option's `data-md-value` |
| `Feedback.FeedbackWidget.Click` | js/feedback.js:11-38 | the options become `Clicked(old options, i)` whether or not storage succeeds. The stored item becomes the result of the storage step, or stays as it was when that step throws. The outcome says which happened and names the exception |

## Left out

- Event wiring is not modelled: the `DOMContentLoaded` listeners, `addEventListener` and `event.preventDefault()`. A click is the method call `FeedbackWidget.Click(i, path)`.
- The MutationObserver's registration and callback are not modelled as code. Their only effect, re-running the pass, is covered by `RepeatedPasses` and `RescanAfterInsertion`.
- CSS selector matching is not modelled. Whether a link sits in a `.md-source-file__fact` element, and whether an option has a `.md-feedback__note`, are boolean fields.
- Feedback setup is not modelled: the lookup of `.md-feedback` and of its options at page load. When the container is missing no handler is installed, so there is no widget. The constructor of `FeedbackWidget` takes the options that were found.
- The JSON text format is abstracted to the cases of `StoredItem`. The whitespace of re-serialised text is not modelled. A JSON object's values are modelled as strings, which is what the handler writes.
- Feedback.Serialize: a non-finite number nested inside a stored array or object (`[1e400]`, `{"/a": 1e400}`) is written back by `JSON.stringify` as `null` in place. The model treats array text and object values as opaque, so it does not capture this rewrite. It only models a non-finite number that is the whole stored value.
- `localStorage.setItem` is assumed to succeed. A quota error thrown by the browser is not modelled.
- `console.log` is not modelled (it has no effect on state). `window.location.pathname` is the `path` parameter.
- An option without a `data-md-value` attribute is not modelled: there `getAttribute` would give `null`, which is serialised as `null`. `value` is always a string.
- Changes to storage made from other tabs are not modelled. The model is sequential.
- Links are values in an array, not shared DOM objects. The same element cannot appear twice in a `NodeList`, so aliasing is not modelled. An attribute the element lacks is the empty string. Assigning `textContent` is modelled as replacing a string.
