# Ride-sharing app core, modelled in Dafny

This project models three parts of a ride-sharing web app:

- The `ride-matching` edge function. It scores how well every active ride offer fits a rider's pickup, dropoff and coordinates (40 / 40 / 20 points). It keeps the offers scoring above 30 and returns them best first. It also creates rides, lists a user's rides and soft-deletes rides in the `rides` collection.
- The checkout card form. Its formatters run on every keystroke: card number, expiry and CVV. A guard runs before a payment is processed.
- The ride-cost split form. It holds a total and a list of participants, which the user adds to, removes from and edits. A guard runs before payment requests are sent.

Modules:

- `Strings` models the JavaScript string primitives the code relies on:
  - the ECMAScript `\s` and `\d` classes;
  - `includes`;
  - `split(/\s+/)` and `split(',')`;
  - the two `replace` filters.
- `StableSort` is the stable descending sort that `Array.prototype.sort` performs with a `b - a` comparator.
- `RideMatching` holds the word-overlap score, the distance decay, the per-ride score and the GET_MATCHED_RIDES pipeline.
- `RideStore` is the ride collection as a class, with CREATE_RIDE, DELETE_RIDE, GET_USER_RIDES and GET_MATCHED_RIDES.
- `StripeCheckout` holds `formatCardNumber`, `formatExpiry`, the CVV filter and the `handlePayment` guard.
- `Split` is the split form as a class `SplitForm`, whose `participants` field the handlers reassign.

Scores are exact reals. Two functions are parameters of the model:

- lower-casing (`toLowerCase`);
- the haversine distance in kilometres between two `"lat,lng"` coordinate pairs, including their `parseFloat`.

`Date.now()` and `new Date()` are passed in as integers.

Two points of the matching code are easy to misread; the model follows the code as written:

- Only rides whose status is `active` are candidates; `pending` rides are not.
- A location text is scored exactly as `calculateLocationMatch` computes it. A non-empty text of whitespace alone splits into two empty words. The empty word is contained in every word, so such a text scores 1 against any one-word text, not 0 (`RideMatching.BlankTextMatchesAnyWord`). The `pickup && r.pickup` guards already send the empty string to a sub-score of 0.

## Model

| member | source | states |
|---|---|---|
| Strings.Contains | supabase/functions/ride-matching/index.ts:157 | `includes` can only hold when the needle is no longer than the haystack |
| Strings.ContainsIffOccurs | supabase/functions/ride-matching/index.ts:157 | `includes` holds exactly when the needle occurs at some index of the haystack |
| Strings.ContainsWitness | supabase/functions/ride-matching/index.ts:157 | where the left-to-right scan of `includes` succeeds, the needle occurs |
| Strings.OccursAtContains | supabase/functions/ride-matching/index.ts:157 | an occurrence at any index makes `includes` succeed |
| Strings.ContainsSelfAndEmpty | supabase/functions/ride-matching/index.ts:157 | every string includes itself and the empty string |
| Strings.IsWhitespace | src/components/StripeCheckout.tsx:49 | the ECMAScript `\s` class used here and by `split(/\s+/)` at index.ts:152-153; among ASCII characters it is exactly the space and tab through carriage return |
| Strings.IsDigit | src/components/StripeCheckout.tsx:55 | the ECMAScript `\d` class used here and by the CVV filter at :130; no digit is whitespace or the slash `formatExpiry` inserts |
| Strings.RemoveWhitespace | src/components/StripeCheckout.tsx:49 | `replace(/\s/g, "")` leaves no whitespace and never lengthens the text |
| Strings.RemoveWhitespaceAppend | src/components/StripeCheckout.tsx:49 | whitespace removal distributes over concatenation |
| Strings.RemoveWhitespaceAfterClean | src/components/StripeCheckout.tsx:49 | a prefix without whitespace passes through unchanged |
| Strings.RemoveWhitespaceAfterBlank | src/components/StripeCheckout.tsx:49 | a prefix of whitespace alone disappears |
| Strings.RemoveWhitespaceOfClean | src/components/StripeCheckout.tsx:49 | text without whitespace is unchanged |
| Strings.RemoveWhitespaceOfBlank | src/components/StripeCheckout.tsx:49 | removing whitespace leaves nothing exactly when the text is whitespace alone, both directions |
| Strings.StripNonDigits | src/components/StripeCheckout.tsx:130 | `replace(/\D/g, "")` leaves only ASCII digits and never lengthens the text |
| Strings.StripNonDigitsKeepsDigitsInOrder | src/components/StripeCheckout.tsx:130 | the CVV filter keeps each digit and drops every other character, in order (distributes over concatenation) |
| Strings.StripNonDigitsAppend | src/components/StripeCheckout.tsx:130 | the digit filter distributes over concatenation |
| Strings.StripNonDigitsOfChar | src/components/StripeCheckout.tsx:130 | one character passes the digit filter iff it is a digit |
| Strings.StripNonDigitsOfDigits | src/components/StripeCheckout.tsx:130 | a CVV already made of digits passes unchanged |
| Strings.SplitWords | supabase/functions/ride-matching/index.ts:152-153 | `split(/\s+/)` always yields at least one word |
| Strings.SplitWordsAreClean | supabase/functions/ride-matching/index.ts:152-153 | no word contains whitespace |
| Strings.SplitWordsConcat | supabase/functions/ride-matching/index.ts:152-153 | the words put together are the input without its whitespace |
| Strings.SplitWordsOfClean | supabase/functions/ride-matching/index.ts:152-153 | a text without whitespace is one word |
| Strings.SplitWordsCount | supabase/functions/ride-matching/index.ts:152-153 | `split(/\s+/)` gives exactly one more word than there are runs of whitespace |
| Strings.SeparatorsAreBlank | supabase/functions/ride-matching/index.ts:152-153 | every cut is a non-empty run of whitespace |
| Strings.SplitWordsInnerNonEmpty | supabase/functions/ride-matching/index.ts:152-153 | every word between the first and the last is non-empty, so each cut is a maximal run of whitespace and never falls inside one |
| Strings.SplitWordsRoundTrip | supabase/functions/ride-matching/index.ts:152-153 | interleaving the words with the runs of whitespace gives the input back; with the clean words, the blank cuts, the non-empty inner words and the first and last word lemmas this fixes the words |
| Strings.SplitWordsFirstEmpty | supabase/functions/ride-matching/index.ts:152-153 | the first word is empty iff the text is empty or starts with whitespace |
| Strings.SplitWordsLastEmpty | supabase/functions/ride-matching/index.ts:152-153 | the last word is empty iff the text is empty or ends with whitespace |
| Strings.WeaveLast | supabase/functions/ride-matching/index.ts:152-153 | for any whitespace-free words joined by runs of whitespace, the last word is empty iff the text is empty or ends with whitespace |
| Strings.SplitOn | supabase/functions/ride-matching/index.ts:168-169 | `split(',')` yields at least one part |
| Strings.SplitOnSpec | supabase/functions/ride-matching/index.ts:168-171 | parts = commas + 1, no part holds a comma, joining with ',' gives the input back |
| StableSort.WithKeyAppend | supabase/functions/ride-matching/index.ts:88-89 | picking the elements with one score distributes over concatenation |
| StableSort.SortDesc | supabase/functions/ride-matching/index.ts:89 | sorting keeps the number of elements |
| StableSort.SortDescSpec | supabase/functions/ride-matching/index.ts:89 | the sort orders by non-increasing key, is a permutation, and keeps equal keys in input order |
| RideMatching.WordMatches | supabase/functions/ride-matching/index.ts:157 | a word matches when some word of the other text contains it or is contained in it; nothing matches against no words, and a word the other text also has always matches |
| RideMatching.Max | supabase/functions/ride-matching/index.ts:162 | `Math.max` of the two word counts: at least each of them and equal to one of them |
| RideMatching.MatchCount | supabase/functions/ride-matching/index.ts:155-160 | the matched-word count never exceeds the number of words |
| RideMatching.CalculateLocationMatch | supabase/functions/ride-matching/index.ts:150-163 | the counting loop returns the location match, a score in [0, 1] |
| RideMatching.MatchCountOfPrefix | supabase/functions/ride-matching/index.ts:155-160 | after n iterations the counter equals the number of matching positions among the first n words |
| RideMatching.MatchCountCountsMatchedWords | supabase/functions/ride-matching/index.ts:155-160 | the count is the number of word positions of `str1` that match some word of `str2` |
| RideMatching.MatchCountAll | supabase/functions/ride-matching/index.ts:155-160 | every word is counted iff every word matches |
| RideMatching.LocationMatch | supabase/functions/ride-matching/index.ts:150-163 | the location match lies in [0, 1]; the denominator is never zero |
| RideMatching.LocationMatchIsOne | supabase/functions/ride-matching/index.ts:150-163 | score 1 iff every word of `str1` matches and `str2` has no more words |
| RideMatching.LocationMatchSelf | supabase/functions/ride-matching/index.ts:150-163 | identical texts score 1 |
| RideMatching.EmptyWordMatches | supabase/functions/ride-matching/index.ts:157 | the empty word matches any non-empty word list |
| RideMatching.BlankTextMatchesAnyWord | supabase/functions/ride-matching/index.ts:150-163 | a whitespace-only text scores 1 against any single word |
| RideMatching.SplitWordsOfTwo | supabase/functions/ride-matching/index.ts:152-153 | two words joined by one whitespace character split back into the two words |
| RideMatching.LocationMatchAsymmetricForward | supabase/functions/ride-matching/index.ts:156-162 | "a a" against "a b" scores 1 |
| RideMatching.LocationMatchAsymmetricBackward | supabase/functions/ride-matching/index.ts:156-162 | "a b" against "a a" scores 1/2, so the score is not symmetric |
| RideMatching.DistanceDecay | supabase/functions/ride-matching/index.ts:186-189 | the decay lies in [0, 1], is 1 up to 2 km and 0 from 10 km |
| RideMatching.DistanceDecayMonotonic | supabase/functions/ride-matching/index.ts:186-189 | the decay never increases with distance |
| RideMatching.DistanceDecayHalfway | supabase/functions/ride-matching/index.ts:189 | at 6 km, halfway through the decay, the match is 1/2 |
| RideMatching.DistanceMatch | supabase/functions/ride-matching/index.ts:166-190 | the distance match lies in [0, 1] and is 0 unless each location holds exactly one comma |
| RideMatching.Truthy | supabase/functions/ride-matching/index.ts:64-76 | the `pickup && r.pickup`, `dropoff && r.dropoff` and `location && r.location` guards: a string field is truthy exactly when it is present and not the empty string |
| RideMatching.TextScore | supabase/functions/ride-matching/index.ts:65-74 | a text sub-score lies in [0, 1] and is 0 unless both fields are non-empty |
| RideMatching.GeoScore | supabase/functions/ride-matching/index.ts:77-80 | the location sub-score lies in [0, 1] and is 0 unless both locations are non-empty |
| RideMatching.RideScore | supabase/functions/ride-matching/index.ts:61-81 | a ride's score lies in [0, 100]; without both locations it is at most 80; without a text pair it is at most 20 |
| RideMatching.ScoreRide | supabase/functions/ride-matching/index.ts:61-87 | the accumulating callback yields the ride with its weighted score, in [0, 100] |
| RideMatching.ActiveRides | supabase/functions/ride-matching/index.ts:57 | every candidate is active and there are no more candidates than stored rides |
| RideMatching.ScoreAll | supabase/functions/ride-matching/index.ts:60-87 | the `map` step keeps the length and pairs the ride at each position with its own score |
| RideMatching.AboveThreshold | supabase/functions/ride-matching/index.ts:88 | every kept ride scores above 30; the filter never lengthens the list |
| RideMatching.MatchedRides | supabase/functions/ride-matching/index.ts:53-89 | there are never more matches than stored rides |
| RideMatching.ActiveRidesAppend | supabase/functions/ride-matching/index.ts:57 | the candidate filter distributes over concatenation, so candidates keep store order |
| RideMatching.ActiveRidesSpec | supabase/functions/ride-matching/index.ts:57 | the candidates are exactly the stored rides with status "active" |
| RideMatching.ScoreAllSpec | supabase/functions/ride-matching/index.ts:60-87 | the `map` step pairs each ride with its own score |
| RideMatching.AboveThresholdSpec | supabase/functions/ride-matching/index.ts:88 | the filter keeps exactly the scores above 30, preserving order per score |
| RideMatching.MatchedRidesSpec | supabase/functions/ride-matching/index.ts:53-97 | results are exactly the active rides scoring above 30, scores in (30, 100], sorted best first, a permutation of the filtered rides, equal scores in store order |
| RideStore.NewRideDoc | supabase/functions/ride-matching/index.ts:36-42 | a created ride is active, owned by the caller or "anonymous", stamped with the time, and carries the request's fields |
| RideStore.MarkDeleted | supabase/functions/ride-matching/index.ts:118-123 | a delete keeps the length and changes each ride not at all or only to status "deleted", and only rides with that id |
| RideStore.MarkDeletedSpec | supabase/functions/ride-matching/index.ts:118-123 | rides with another id are untouched; with unique ids the ride with that id is the one marked "deleted" |
| RideStore.DeletedRideIsInactive | supabase/functions/ride-matching/index.ts:118-123 | after a delete no ride with that id is active |
| RideStore.DeletedRideIsNotMatched | supabase/functions/ride-matching/index.ts:57 | the ride just deleted does not appear in GET_MATCHED_RIDES run on the collection after the delete (`RideCollection` keeps this for every later call) |
| RideStore.ActiveRidesOf | supabase/functions/ride-matching/index.ts:100-101 | every listed ride belongs to the user and is active; the list is no longer than the collection |
| RideStore.UserRides | supabase/functions/ride-matching/index.ts:100-103 | sorting by creation time lists as many rides as the filter found |
| RideStore.ActiveRidesOfSpec | supabase/functions/ride-matching/index.ts:101 | a user's rides are exactly the stored rides with that owner and status "active" |
| RideStore.UserRidesSpec | supabase/functions/ride-matching/index.ts:99-108 | GET_USER_RIDES lists exactly the user's active rides, newest first, as a permutation |
| RideStore.DeletedRideIsNotListed | supabase/functions/ride-matching/index.ts:101 | the ride just deleted does not appear in GET_USER_RIDES run on the collection after the delete (`RideCollection` keeps this for every later call) |
| RideStore.CreatedRideIsListed | supabase/functions/ride-matching/index.ts:36-44 | a ride just created is listed for its owner and is a matching candidate |
| RideStore.DeleteKeepsConsistent | supabase/functions/ride-matching/index.ts:118-123 | a delete keeps ids unique and below the next id, and every ride with a deleted id stays "deleted" once the id joins the deleted ones |
| RideStore.RideCollection.CreateRide | supabase/functions/ride-matching/index.ts:36-51 | appends the new document under a fresh id that was never deleted, keeping ids unique and the deleted ids unchanged |
| RideStore.RideCollection.DeleteRide | supabase/functions/ride-matching/index.ts:118-131 | the collection becomes the soft-deleted one, an id that was ever assigned joins the deleted ids, and every ride with a deleted id stays "deleted" |
| RideStore.RideCollection.GetUserRides | supabase/functions/ride-matching/index.ts:99-116 | lists exactly the stored rides of the user that are active, each as often as stored, newest first, never one that was ever deleted |
| RideStore.RideCollection.GetMatchedRides | supabase/functions/ride-matching/index.ts:53-97 | returns exactly the active stored rides scoring above 30 with their scores, best first, equal scores in store order, never one that was ever deleted |
| StripeCheckout.Chunks | src/components/StripeCheckout.tsx:50 | the pieces join back to the cleaned text, each holds one to four characters, and every piece but the last holds exactly four |
| StripeCheckout.Take | src/components/StripeCheckout.tsx:51-57 | `slice` from the start: the prefix of the text of length `n`, or the whole text when it is shorter |
| StripeCheckout.JoinWithSpacesSpec | src/components/StripeCheckout.tsx:51 | `chunks.join(" ")` puts one space between each two chunks, is empty only for no chunks or one empty chunk, and splitting it on spaces gives back chunks that hold no space |
| Strings.SplitOnJoinWith | src/components/StripeCheckout.tsx:51 | `join` with a separator and `split` on it are inverse for pieces that do not hold the separator |
| StripeCheckout.FormatCardNumber | src/components/StripeCheckout.tsx:48-52 | the formatted number has at most 19 characters and is empty iff nothing is left once whitespace is removed, which by `RemoveWhitespaceOfBlank` means the input is all whitespace |
| StripeCheckout.GroupedLength | src/components/StripeCheckout.tsx:50-51 | grouping n > 0 characters gives n + (n - 1) / 4 characters |
| StripeCheckout.GroupedLayout | src/components/StripeCheckout.tsx:50-51 | grouped text has a space at every fifth position, a non-whitespace character elsewhere, and no trailing space |
| StripeCheckout.GroupedUngroups | src/components/StripeCheckout.tsx:50-51 | removing the spaces from grouped text gives the text back |
| StripeCheckout.GroupedPrefix | src/components/StripeCheckout.tsx:50-51 | the first 5m - 1 characters of grouped text are the grouping of its first 4m characters |
| StripeCheckout.FormatCardNumberIsGroupedPrefix | src/components/StripeCheckout.tsx:48-52 | the result is the grouping of the first 16 non-whitespace characters |
| StripeCheckout.FormatCardNumberSpec | src/components/StripeCheckout.tsx:48-52 | the result is laid out in groups of four separated by single spaces; without spaces it is the first 16 non-whitespace characters of the input, in order |
| StripeCheckout.FormatCardNumberIdempotent | src/components/StripeCheckout.tsx:95-99 | reformatting a formatted card number changes nothing |
| StripeCheckout.FormatExpiry | src/components/StripeCheckout.tsx:54-60 | at most 5 characters; a "/" at index 2 exactly when the input holds two or more digits |
| StripeCheckout.FormatExpiryShape | src/components/StripeCheckout.tsx:54-60 | every character but the one at index 2 is a digit; fewer than two digits come back as the digits typed, exactly two get a trailing "/" |
| StripeCheckout.DigitsAroundSlash | src/components/StripeCheckout.tsx:57 | the digit filter drops the inserted "/" |
| StripeCheckout.FormatExpiryDigits | src/components/StripeCheckout.tsx:54-60 | the result's digits are the input's first four digits |
| StripeCheckout.FormatExpiryIdempotent | src/components/StripeCheckout.tsx:112-116 | reformatting a formatted expiry changes nothing |
| StripeCheckout.HandlePayment | src/components/StripeCheckout.tsx:27-36 | processing starts iff signed in and all four card fields are non-empty; the login error iff not signed in |
| StripeCheckout.BlankCardNumberIsRefused | src/components/StripeCheckout.tsx:33 | a card number typed as whitespace alone is refused |
| Split.WithBlank | src/components/Split.tsx:16-19 | appends one blank row under the given id, keeping the others |
| Split.WithoutId | src/components/Split.tsx:24 | filtering never lengthens the list |
| Split.WithoutIdSpec | src/components/Split.tsx:24 | the filter keeps exactly the rows with another id |
| Split.WithoutIdAppend | src/components/Split.tsx:24 | the filter distributes over concatenation, so survivors keep their order |
| Split.WithoutIdKeepsOthers | src/components/Split.tsx:24 | removing an absent id changes nothing |
| Split.WithoutUniqueIdDropsAtMostOne | src/components/Split.tsx:24 | with unique ids the filter drops at most one row |
| Split.WithoutIdKeepsUniqueIds | src/components/Split.tsx:24 | the filter keeps ids unique |
| Split.AfterRemove | src/components/Split.tsx:22-26 | the list never grows and keeps only rows it had; with more than one row, no row with the id survives |
| Split.AfterRemoveSpec | src/components/Split.tsx:22-26 | a single row is never removed; otherwise the rows with that id go; with unique ids the list never empties |
| Split.DuplicateIdsCanEmptyTheList | src/components/Split.tsx:18-24 | two rows sharing a clock id are both removed, emptying the list |
| Split.WithBlankKeepsUniqueIds | src/components/Split.tsx:15-20 | adding under a fresh id keeps ids unique |
| Split.RemoveUndoesAdd | src/components/Split.tsx:15-26 | removing a row just added under a fresh id restores the non-empty list |
| Split.SetNameAt | src/components/Split.tsx:116-120 | only the name of the edited row changes |
| Split.SetEmailAt | src/components/Split.tsx:126-130 | only the email of the edited row changes |
| Split.EditsKeepUniqueIds | src/components/Split.tsx:116-130 | edits keep ids unique |
| Split.BlankRowBlocksSending | src/components/Split.tsx:15-37 | a newly added row blocks sending until a non-empty email is entered for it |
| Split.SomeMissingEmail | src/components/Split.tsx:34 | `some(p => !p.email)` holds iff some participant has an empty email |
| Split.ReadyToSend | src/components/Split.tsx:34 | the guard passes iff the total is non-empty and every participant has an email |
| Split.SplitForm.constructor | src/components/Split.tsx:10-13 | the form starts at "50.00" with the current user alone, and the form invariant (at least one row, unique ids) holds |
| Split.SplitForm.SetTotalAmount | src/components/Split.tsx:70 | sets the total, leaving the participants unchanged and the form invariant kept |
| Split.SplitForm.AddParticipant | src/components/Split.tsx:15-20 | the list becomes the old list plus one blank row; the form invariant is kept when `now` differs from every existing id |
| Split.SplitForm.RemoveParticipant | src/components/Split.tsx:22-26 | the list becomes the filtered list, unless it has a single row; the form invariant is kept, so the list never empties |
| Split.SplitForm.EditName | src/components/Split.tsx:113-122 | renames a row other than the first (the first is disabled), keeping the form invariant |
| Split.SplitForm.EditEmail | src/components/Split.tsx:123-132 | changes the email of a row other than the first, keeping the form invariant |
| Split.SplitForm.HandleSendRequest | src/components/Split.tsx:33-39 | sends iff the total is non-empty and every participant has an email |

## Left out

- HTTP handling, CORS preflight, JSON parsing of the request and the Mongo connection are not modelled. The two error responses (400 for an unknown action, 500 for an exception) are also left out. The collection is an in-memory sequence.
- Floating-point rounding of the score sums is not modelled. In IEEE-754 arithmetic a weighted sum whose exact value is 30 can round to either side of the strict `> 30` filter (index.ts:88); the model compares the exact sum.
- The haversine formula and `parseFloat` are left out because they use floating point. They are a parameter returning a real, so NaN coordinates are not modelled; the decay itself is exact.
- `toLowerCase` is a parameter, because Unicode case mapping is not modelled. JavaScript strings are UTF-16 code units and are treated here as characters.
- `RideMatching.CalculateLocationMatch`: the `forEach` callback is a loop, and `some` is the `WordMatches` predicate.
- `RideStore.RideCollection.CreateRide`: `_id` values are a counter standing in for Mongo ObjectIds. The returned `result.toString()` is identified with the id. `createdAt` is an integer time passed in.
- `RideStore.RideCollection.DeleteRide`: an id string that is not a valid ObjectId (the constructor throws, giving a 500) is not modelled. Any caller may delete any ride; there is no ownership check in the code.
- `RideMatching.ActiveRides`: `find({ status: 'active' })` (index.ts:57) is not sorted, so Mongo gives no order guarantee. The model fixes it as store order (`RideMatching.ActiveRidesAppend`). That order only shows in the result among rides of equal score.
- `RideStore.UserRides`: Mongo's order among rides created at the same instant is unspecified. The model keeps store order for them.
- An `undefined` user id in GET_USER_RIDES, and an absent `ride` in DELETE_RIDE, are not modelled.
- The `id` field added to each result record is identified with the `_id` (`ScoredRide.Id`).
- `Split.SplitForm.AddParticipant`: the form invariant (at least one row, no two rows sharing an id) is promised only when `Date.now()` differs from every existing id. Two adds within one millisecond give two rows the same id, and removing that id then empties the list (`Split.DuplicateIdsCanEmptyTheList`).
- `calculateShare` in the split form is left out: it uses `parseFloat` and `toFixed` on floating point, and its value is only displayed.
- The 2-second payment timer, the toasts, the loading flag and the `onSuccess` callback are left out. `HandlePayment` stops at deciding to process.
- `maxLength` attributes on the inputs are browser behaviour, not part of the handlers, and are not modelled. The CVV has no length limit in its handler.
- `Split.SplitForm.EditName` and `Split.SplitForm.EditEmail`: the handlers copy the array shallowly and then assign the row object's field. This mutates the row object shared with the previous state. The model updates values, so that aliasing is not captured.
- Rendering and the list's React keys are not modelled.
