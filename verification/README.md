# p3-reader core, modelled in Dafny

p3-reader is a single-page study app. It shows instruction cards with
clickable words and phrases, keeps a personal word list, runs a four-option
translation quiz and searches a subject's word bank. Its logic lives in
`app.js`. This project models the pure rules inside that file as Dafny
functions over plain values, and proves what those rules promise.

- Stored values are inputs. A `localStorage` read is a parameter, and a
  write is the function's result.
- `Date.now()` is a parameter.
- Every `Math.random()` call is the next element of a finite sequence of
  draws in `[0, 1)`. A run that needs more draws than it is given ends in
  `OutOfDraws`.

Modules, one per concern:

- `Common`: option type, `Math.min`/`Math.max`, `slice(0, n)`, `filter`, the random index.
- `Text`: whitespace as `trim` and `\s` see it, ASCII case mapping, `includes`, decimal digits.
- `Escape`: `escapeHTML`, plus a decoder used as its partner.
- `Dataset`: the phrase index and word index built by `loadSubject`, and the glossary lookup.
- `Annotate`: `wrapTextWithClicks` as written, and `Decode`, which parses annotated HTML back into plain characters, word spans and phrase spans. Removing the span markup from what `Decode` returns is `Visible`. `Unmark` reads the `__PH_k__` markers of pass 1 back as the text each one recorded, which is what pass 1 is meant to undo.
- `AnnotateFixed`: the annotator with phrase restoration working as evidently intended.
- `Wordbook`: add, save and delete on the word list.
- `Search`: the word bank and word list search boxes.
- `Quiz`: `startQuiz`, `pickQuiz` and the quiz tab, as written and corrected. Besides declining when fewer than four different translations exist, the corrected start draws each distractor from the translations not yet chosen, one draw per option, so it never repeats a draw and always finishes; this goes beyond the guard app.js evidently lacks, and maps draws to options differently from app.js:305-308.
- `Controls`: font-size buttons, card index clamps, dictionary cache freshness.

The annotator escapes only word runs and phrase texts; every other
character, `<` included, is copied through raw (`Annotate.RawMarkupCopied`).

## Model

| member | source | states |
|---|---|---|
| Escape.EscapeHtml | app.js:171-176 | the result has no `<` or `>`; decoding `&amp;`, `&lt;`, `&gt;` gives the input back exactly, because `&` is replaced first; text without `&`, `<`, `>` is unchanged |
| Escape.UnescapeEscapeEach | app.js:171-176 | escaping each character on its own and decoding gives the input back |
| Escape.EscapeIsPerChar | app.js:172-175 | the three chained `replaceAll` calls equal escaping every character on its own |
| Text.Normalize | app.js:109 | `trim().toLowerCase()` yields trimmed, lower-case text |
| Text.NormalizeIdempotent | app.js:109 | normalising twice equals normalising once |
| Text.TrimCuts | app.js:109 | `trim` removes only whitespace, and only from the two ends |
| Text.EqIgnoreCaseLower | app.js:187 | the regex `i` flag's equality is equality after lower-casing |
| Text.SplitCountOfTrimmed | app.js:119 | on trimmed text, `split(/\s+/)` gives at least two pieces exactly when the text contains whitespace |
| Text.Contains | app.js:589 | `includes` holds exactly when the needle occurs at some position |
| Text.DecimalInjective | app.js:189 | distinct marker numbers print differently |
| Text.JsLength | app.js:120 | `length` counts UTF-16 code units: never fewer than the characters, and exactly as many when every character lies in the Basic Multilingual Plane |
| Dataset.CollocationPhrases | app.js:112-116 | the collocation phrases are exactly the normalised non-empty collocations |
| Dataset.PhraseList | app.js:105-117 | the phrase list holds exactly the normalised terms and collocations of words that have a term |
| Dataset.Dedup | app.js:119 | `Array.from(new Set(...))` is repeat-free, has the same members, and keeps each value at its first occurrence, in that order |
| Dataset.SortByLength | app.js:120 | the longest-first sort is a permutation, leaves UTF-16 lengths non-increasing, and is stable: the phrases of each length keep their order |
| Dataset.SortExample | app.js:120 | a phrase of four characters ending in an emoji has UTF-16 length 5, the same as `abc d`, so the stable sort keeps the two in input order |
| Dataset.BuildPhraseIndex | app.js:105-121 | the phrase index is repeat-free, sorted longest first, and holds exactly the listed phrases with at least two whitespace-separated tokens |
| Dataset.PhraseIndexShape | app.js:105-121 | every index entry is trimmed, lower-case and contains whitespace |
| Dataset.PhraseIndexMembers | app.js:105-121 | an entry is in the index exactly when it is a multi-token phrase of some named word |
| Dataset.BuildWordIndex | app.js:106-111 | every key maps to a word of the list that has a term and normalises to that key |
| Dataset.WordIndexKeys | app.js:106-111 | a key is in the word index exactly when some named word normalises to it |
| Dataset.WordIndexLastWins | app.js:109-110 | a key maps to the last word that carries it |
| Dataset.LookupTerm | app.js:415-420 | the lookup finds the normalised term; failing that, the term without a trailing `'s`; otherwise nothing |
| Dataset.StripPossessive | app.js:417-419 | a term ending in `'s` loses exactly those two characters; any other term is kept |
| Dataset.PossessiveFindsBase | app.js:417-419 | `w's` finds the word `w` when `w's` is not a key of its own |
| Annotate.Lex | app.js:197 | the global word scan cuts the text into maximal `[A-Za-z][A-Za-z']*` runs and single other characters, which spell the text |
| Annotate.LexUnique | app.js:197 | that cut is the only well-formed one |
| Annotate.WrapTextWithClicks | app.js:178-180 | empty or missing text gives `""` |
| Annotate.WrapsEveryWordOnce | app.js:196-199 | with no phrases, every word run is wrapped once with `data-term` equal to the run, and removing the spans gives the text back |
| Annotate.WrapWords | app.js:196-199 | the word pass decodes to its word runs and other characters in order, removing its markup gives the text back, it holds no phrase span, and no underscore in it is followed by a letter |
| Annotate.NoLettersPassThrough | app.js:197 | text without letters is left as it is |
| Annotate.RawMarkupCopied | app.js:197 | `1 < 2` comes out with its `<` unescaped |
| Annotate.PhraseCap | app.js:186 | only the first 500 phrases are tried |
| Annotate.ScanKeeps | app.js:187-192 | one phrase's global replace is a left-to-right scan whose pieces spell the text, and every hit equals the phrase ignoring case |
| Annotate.ScanFindsMatches | app.js:187-192 | every hit of one phrase's global replace starts where `\b<phrase>\b` matches ignoring case, and every such match is a hit or lies inside an earlier hit |
| Annotate.ScanRoundTrip | app.js:187-192 | on text and a phrase without `_`, reading each `__PH_k__` of one phrase's replaced text back as the match it recorded gives the text back |
| Annotate.PhrasePass | app.js:185-193 | the phrase loop only appends markers: the list it started with stays in front |
| Annotate.PhrasePassReadsBack | app.js:185-193 | over text made of kept characters and earlier markers, the phrase loop's text reads back, marker by marker, as the text the markers stood for |
| Annotate.PassReadsBack | app.js:185-193 | on text without `_` and non-empty phrases without `_`, reading the markers of the phrase loop back gives the text it started from |
| Annotate.Pass1 | app.js:183-194 | pass 1 numbers its markers `__PH_0__`, `__PH_1__`, … by position, every marker's text equals, ignoring case, one of the first 500 index entries, and, when the text and those entries hold no `_`, replacing each id in the marked text by its recorded match gives the input back |
| Annotate.PhrasePassIds | app.js:185-193 | the k-th match, counted over all phrases, gets marker `__PH_k__` |
| Annotate.MarkerIdsDistinct | app.js:189 | different match numbers give different marker ids |
| Annotate.IdNotPrefix | app.js:189 | no marker id is a prefix of text that starts with a different marker id, so each id in the marked text is read back unambiguously |
| Annotate.PhrasePassMatches | app.js:186-192 | every recorded match equals, ignoring case, one of the phrases tried |
| Annotate.RenderNoUnderscoreBeforeLetter | app.js:197-199 | after the word pass, no underscore is followed by a letter, because each marker's `PH` has been wrapped |
| Annotate.RestoreMarkers | app.js:202-208 | a text holding none of the marker ids comes back unchanged |
| Annotate.RestoreIsIdentity | app.js:202-208 | on such text, restoring the markers changes nothing |
| Annotate.PhraseSpansNeverEmitted | app.js:196-208 | as written, the output is the word pass over the marked text: removing the markup leaves the marked text, markers included, and there is no phrase span |
| Annotate.MarkerShownLiterally | app.js:183-210 | with the phrase `so on` indexed, removing the markup from the output for `and so on` leaves `and __PH_0__`, and there is no phrase span |
| AnnotateFixed.ClaimAgreesWithScan | app.js:187-192 | claiming a phrase over plain text matches exactly what the regex replace matches |
| AnnotateFixed.ClaimOriginal | app.js:187-192 | claiming one phrase keeps the text the pieces spell |
| AnnotateFixed.ClaimAllOriginal | app.js:185-193 | claiming all the phrases keeps the text the pieces spell |
| AnnotateFixed.ClaimAllMatches | app.js:185-193 | every claimed text was already claimed or equals one of the phrases, ignoring case |
| AnnotateFixed.WrapTextWithClicksFixed | app.js:178-211 | corrected annotator: removing the span markup gives back the input text, and there is one phrase span per claimed phrase |
| AnnotateFixed.PhraseSpansMatchIndex | app.js:185-208 | every phrase span shown equals, ignoring case, one of the first 500 index entries |
| AnnotateFixed.SameWithoutPhrases | app.js:185-199 | with no phrases, the corrected annotator and the original give the same output |
| AnnotateFixed.PhraseSpanExample | app.js:201-208 | with `so on` indexed, removing the markup from the corrected output for `and so on` gives `and so on` back, and `so on` is its one phrase span |
| Wordbook.Save | app.js:221-223 | what is stored is the first 2000 entries |
| Wordbook.FindKey | app.js:228 | `find` returns the first entry with the key, or none when no entry has it |
| Wordbook.Bump | app.js:229-233 | a repeated add counts one more sighting; it keeps a non-empty translation and fills an empty one; it keeps a set timestamp and fills a zero one with the current time |
| Wordbook.AddExisting | app.js:228-233 | a known key is updated in place: same length, `seen` one higher, a non-empty `zh` kept, every other entry untouched |
| Wordbook.AddNew | app.js:234-237 | a new key goes in front with `seen = 1`; the old entries follow in order, cut so at most 2000 remain |
| Wordbook.AddKeepsInvariant | app.js:221-238 | adding keeps keys unique and the list at most 2000 long |
| Wordbook.Add | app.js:224-238 | a blank or whitespace-only term leaves the list unchanged; otherwise the list stays within 2000 entries and, starting from a list within the cap, holds the term's key |
| Wordbook.Delete | app.js:760-761 | after a delete no entry has the key; the other entries of a list within the cap remain |
| Wordbook.DeleteKeepsOrder | app.js:760-761 | deleting works entry by entry: the kept entries stay in their order |
| Wordbook.DeleteUndoesAdd | app.js:760-761 | deleting a word just added as new by `addToWordbook` gives back the earlier list, when that list was not full |
| Wordbook.DeleteKeepsUnique | app.js:760-761 | deleting keeps keys unique |
| Search.SearchBank | app.js:586-590 | the results are the first min(200, matches) words of the bank that match the normalised query, in bank order |
| Search.SearchWordbook | app.js:738-744 | the results are the first min(500, matches) entries of the list that match the normalised query, in list order |
| Search.BankShowsAllFewHits | app.js:587-590 | when at most 200 words match, every matching word is listed |
| Search.WordbookShowsAllFewHits | app.js:739-744 | when at most 500 entries match, every matching entry is listed |
| Search.BlankQueryListsFirst | app.js:586-590 | a blank query lists the first 200 words as stored, and in the word list box (app.js:739) the first 500 entries |
| Search.QueryNormalized | app.js:586 | padding and letter case of the query do not change the results, in either box |
| Search.TermHitMatches | app.js:589 | a term containing the query in any letter case matches |
| Quiz.Pool | app.js:301 | the pool holds exactly the cards with both English and Chinese |
| Quiz.FillOptions | app.js:304-308 | when the distractor loop ends, it has extended the options to four different translations from the pool |
| Quiz.Shuffle | app.js:310-313 | the Fisher-Yates loop permutes the options; it needs one draw per position above 0 |
| Quiz.StartQuiz | app.js:299-323 | no quiz exactly when fewer than 4 cards are usable; a started quiz asks a usable card and expects that card's translation |
| Quiz.StartQuizShape | app.js:299-323 | no quiz exactly when fewer than 4 cards are usable; a started quiz has 4 different options from the pool, `ans = q.zh` among them, `n` one higher, `score` carried over, nothing chosen |
| Quiz.StartQuizHangs | app.js:302-308 | with 4 or more usable cards but fewer than 4 different translations, the loop never finishes, whatever the draws |
| Quiz.FillCanFinish | app.js:304-308 | with four different translations in the pool, the distractor loop can end: some draws, one per missing option, complete the four options and leave the draws after them unused |
| Quiz.StartQuizCanStart | app.js:299-323 | with four different translations among the usable cards, seven draws can start a quiz as written; with `Quiz.StartQuizHangs`, a quiz can start exactly when the usable cards carry four different translations |
| Quiz.HangExample | app.js:302-308 | four usable cards all translated `x`: as written the start never finishes; corrected, it declines |
| Quiz.StartQuizFixedShape | app.js:299-323 | corrected start: no quiz exactly when fewer than 4 different translations exist; otherwise seven draws always start a well-formed quiz |
| Quiz.PickQuiz | app.js:325-330 | only a pick on an unanswered quiz has effect; it records the option and raises `score` by one exactly when the option is `ans` |
| Quiz.PickOnce | app.js:326 | a second pick changes nothing |
| Quiz.EnterQuiz | app.js:494-498 | any quiz the tab shows is the one it then holds; it says "not enough cards" exactly when none is held and the subject has fewer than 4 usable cards; a quiz shown for another subject is the one held before |
| Quiz.EnterShowsOtherSubject | app.js:494-498 | entering a subject that cannot start a quiz shows the quiz held for another subject |
| Quiz.StaleQuizExample | app.js:494-498 | a held `math` quiz is shown on the `science` tab when science has no usable cards |
| Quiz.EnterFixedShowsOwnSubject | app.js:494-500 | corrected tab: any quiz it shows is of its own subject |
| Quiz.ScoreNeverExceedsCount | app.js:319-330 | across any sequence of tab entries, next-question presses and picks, `score` never exceeds the questions answered, so `score <= n` and the badge's denominator (app.js:510) is never below the score |
| Controls.FontPlus | app.js:45-49 | `A+` never goes above 26, keeps an in-range size in range, and adds one below 26 |
| Controls.FontMinus | app.js:50-54 | `A-` never goes below 15, keeps an in-range size in range, and subtracts one above 15 |
| Controls.FontStepsCancel | app.js:45-54 | inside the range, one step up and one step down cancel |
| Controls.FontPressesStayInRange | app.js:45-54 | any run of presses keeps an in-range font size within [15, 26] |
| Controls.ShownIndex | app.js:429 | on a non-empty deck the shown index lies in [0, len-1], an in-range stored index is kept, and a missing one shows card 0 |
| Controls.ShownIndexIdempotent | app.js:429-430 | storing the shown index shows the same card again |
| Controls.PrevIndex | app.js:466 | previous steps back one card and stops at 0 |
| Controls.NextIndex | app.js:469 | next steps forward one card and stops at the last |
| Controls.StepsStayOnDeck | app.js:466-469 | on a non-empty deck, prev and next stay on the deck and undo each other away from the ends |
| Controls.RandomCard | app.js:473 | a random card is on the deck |
| Controls.EveryCardReachable | app.js:473 | every card can come up |
| Controls.DictLookup | app.js:250-258 | the cache is keyed by the normalised term; a blank term does nothing; an entry is served only while fresh, otherwise the term is fetched |
| Controls.CacheExpiry | app.js:256 | an entry is fresh when its timestamp is set and less than 14 days old, and it only goes stale: stale from exactly 14 days on |
| Controls.DictLookupNormalizes | app.js:250-258 | padding and case of the term do not change the lookup |

## Left out

- Rendering, dialogs, keyboard and click handlers, and the click-outside geometry test: these are user interface, not logic.
- `localStorage` reads and writes and JSON parsing: stored values are inputs and outputs. A corrupt stored word list (the `catch` of app.js:217) is not modelled.
- The dictionary and translation requests in `lookupDictionary` (app.js:260-296) and `fetch` in `loadSubject`: these are network I/O. Only the cache test is kept.
- Speech, audio, vibration and title flashing: these are browser APIs.
- Export through `Blob` (app.js:714-723): this is I/O.
- `sw.js` is not part of this model. It is service-worker caching with no rules of its own.
- The quiz tab's "add the words of this sentence" button (app.js:546-551): it takes the `[A-Za-z][A-Za-z']*` runs of the question's English, keeps the first 30, and adds each with the translation the word index holds under its lower-cased spelling, or an empty one. Only `addToWordbook` is modelled; the run extraction is the one `Annotate.Lex` models for the word pass.
- The shift-click add of app.js:422: it only calls `addToWordbook`, which is modelled.
- The `$` patterns that `replaceAll` interprets in a replacement string (app.js:204) are not modelled, because as written no marker is ever found there (see Findings). The corrected annotator builds phrase spans directly.
- Strings are sequences of Unicode characters. Only the phrase sort measures length in UTF-16 code units (`Text.JsLength`); elsewhere lengths and positions count characters, which agrees with JavaScript for text inside the Basic Multilingual Plane.
- Case mapping covers ASCII letters only. `toLowerCase` and the regex `i` flag also fold other scripts.
- Controls.FontPlus: a font size stored as text that is not a number (`parseInt` giving `NaN`) is not modelled; sizes are integers.
- Controls.ShownIndex: a stored index that is not an integer is not modelled.
- Annotate.Pass1: the read-back of the marked text is proved only when the input and the first 500 index entries hold no `_` (entries are non-empty by construction). With an `_` in the text, an id `__PH_k__` already in the input could be read back as the k-th match.
- Annotate.ScanRoundTrip: the same condition applies: the text and the phrase hold no `_`, and the phrase is non-empty.
- Quiz.StartQuizShape: the distractor loop and the shuffle draw from a finite sequence, so a run the given draws do not finish ends in `OutOfDraws`, where app.js would draw again. `Quiz.StartQuizHangs` shows that, below four different translations, every finite sequence ends that way; `Quiz.StartQuizCanStart` shows that, with four or more, some seven draws start a quiz.
- Quiz.ScoreNeverExceedsCount: a tab entry or next-question press that runs out of draws leaves the state unchanged, where app.js:305-308 would still be looping.

## Findings

| source | as written | input that shows it | evidently intended | confidence | as-written member | corrected member |
|---|---|---|---|---|---|---|
| app.js:197-208 | the word pass also wraps the letters `PH` inside each `__PH_k__` marker, so the `replaceAll` at app.js:204 never finds a marker | text `and so on`, phrase index `["so on"]`: removing the markup from the output leaves `and __PH_0__`, and there is no phrase span | each phrase match comes out as one clickable phrase span showing the original text | high (not executed) | Annotate.MarkerShownLiterally | AnnotateFixed.PhraseSpanExample |
| app.js:302-308 | the guard counts usable cards, but the distractor loop needs four different translations, so it never ends when fewer exist | four usable cards all translated `x` | no quiz when fewer than four different translations exist | high (not executed) | Quiz.HangExample | Quiz.StartQuizFixedShape |
| app.js:494-498 | when `startQuiz` bails out, `state.quiz` still holds the previous subject's quiz, and the tab shows it | a `math` quiz held, then the `science` tab opened with no usable cards | the tab says there are too few cards for this subject | high (not executed) | Quiz.StaleQuizExample | Quiz.EnterFixedShowsOwnSubject |
