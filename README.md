# Product Ads Board — a Dafny model of its data logic

The Product Ads Board is a single-page classifieds site. A sidebar form posts
product ads. The ads are kept as an ordered list of records. The main page
lists them with a category filter and a text search, newest first. This
project models the two pieces of that page that are data logic rather than
rendering, and proves what they promise:

- **Posting an ad** (`app.py:45-62`). Title, description and contact must each
  hold something other than whitespace. The record is built from the trimmed
  fields. The seller defaults to `"Anonymous"`. The price is kept only when it
  is positive. The `image_base64` key is present only when an image was
  attached. The record is appended to the end of the list, the list is saved
  to the ads file, and the script restarts and reads the file again. The list
  is never edited or shrunk.
- **Listing** (`app.py:78-95`). An exact-match category filter runs first
  (`"All"` turns it off). Then a case-insensitive substring search runs on
  title or description (an empty term turns it off). Then the result is
  shown in reverse, newest first, under a "Showing N ad(s)" count or a "no
  ads found" notice.

Files (all modules are given to Dafny together):

- `wrappers.dfy` — `Option` (Python's `None` or a missing dict key) and `Result`.
- `text.dfy` — `str.strip()` (`Strip`, over Python's own whitespace set), `str.lower()` (`Lower`, ASCII letters) and
  the substring test `needle in hay` (`Contains`).
- `seqs.dfy` — the list comprehension `[x for x in s if p(x)]` (`Filter`),
  `reversed` (`Reverse`) and the subsequence relation `IsSubseq`, with their
  lemmas.
- `ads.dfy` — the `Ad` record, the submitted `Form`, the required-field rule
  `Accepts`, the stored-record invariant `WellFormed`, and `NewAd`, the
  record built from an accepted form.
- `board.dfy` — the list loaded at start-up (`Load`), the pure specification
  of a submission (`Post`), and the class `Board` whose `Submit` method
  mutates the list as the page does.
- `listing.dfy` — `ByCategory`, `BySearch`, their composition `Filtered`,
  how the category views split the list, and `Render`, the page's view of the
  list.

Points where the code's behaviour is easy to misread:

- A non-positive price is stored as a `price` key holding `None`. The key is
  not removed. `Ad.price` is therefore `Option<real>` and the key is always
  there.
- The category is stored exactly as the form delivers it. The code does not
  check it against the seven categories; the form's drop-down is what keeps
  it inside that set. `NewAd` states that the stored category equals the
  form's.
- Nothing checks that `image_base64` decodes to a valid image. The model only
  records whether the key is present and, when it is, that it holds the
  encoding of the uploaded bytes.
- The search runs whenever the term is non-empty, without trimming it. A
  term made only of spaces is searched for as it stands.

## Model

| member | source | states |
|---|---|---|
| Text.Strip | app.py:46 | the stripped string neither starts nor ends with whitespace and is no longer than the input |
| Text.StripEmptyIff | app.py:46 | stripping leaves nothing exactly when the input is empty or whitespace only |
| Text.StripIsSlice | app.py:50 | the stripped string is a slice of the input with only whitespace cut off before and after it |
| Text.WidenFront | app.py:50 | whitespace cuts of the input without its leading space stay whitespace cuts of the input |
| Text.WidenBack | app.py:50 | whitespace cuts of the input without its trailing space stay whitespace cuts of the input |
| Text.StripIdempotent | app.py:50 | stripping a stripped field changes nothing, so a stored field is already in its trimmed form |
| Text.StrippedIsFixed | app.py:50 | a string without surrounding whitespace is its own strip |
| Text.Lower | app.py:84-87 | `str.lower()` keeps the string's length (what it does at each position is stated by `Text.LowerAt`) |
| Text.LowerAt | app.py:84-87 | at each position an ASCII capital becomes the matching small letter and every other character stays as it is |
| Text.SameLowerIff | app.py:84 | two strings lower-case alike exactly when they have the same length and differ at most in the case of ASCII letters |
| Text.LowerSlice | app.py:87 | lower-casing commutes with slicing |
| Text.LowerIdempotent | app.py:84 | lower-casing twice equals lower-casing once |
| Text.LowerHasNoCapitals | app.py:84 | a lower-cased string holds no ASCII capital |
| Text.Contains | app.py:87 | the empty string occurs in every string, and a string occurs only in strings at least as long |
| Text.ContainsLower | app.py:87 | a substring stays a substring when both sides are lower-cased |
| Seqs.IsSubseqRefl | app.py:80 | a list is a subsequence of itself (the no-op cases of both filters) |
| Seqs.IsSubseqMultiset | app.py:81 | a subsequence never holds an element more often than its source |
| Seqs.IsSubseqTrans | app.py:78-88 | subsequence of a subsequence is a subsequence (the two filters in a row) |
| Seqs.Filter | app.py:81 | the comprehension returns no more elements than it is given, and only elements satisfying the condition |
| Seqs.FilterCount | app.py:81 | each satisfying element is kept exactly as often as the input holds it; every other element is dropped |
| Seqs.FilterCounts | app.py:81 | the same, for every element at once |
| Seqs.FilterMembers | app.py:81 | an element is in the result iff it is in the input and satisfies the condition |
| Seqs.FilterIsSubseq | app.py:81 | the comprehension keeps the input's order: its result is a subsequence of the input |
| Seqs.FilterKeepsAll | app.py:81 | a condition every element meets returns the input unchanged |
| Seqs.FilterAgree | app.py:85-88 | two conditions that agree on every element give the same result |
| Seqs.FilterAppend | app.py:61 | filtering a list with an element appended is filtering the list, then the element |
| Seqs.FilterFilter | app.py:80-88 | two comprehensions in a row equal one comprehension over the conjunction |
| Seqs.FilterUnique | app.py:81 | the comprehension's result is the only subsequence that holds only satisfying elements and each of them as often as the input |
| Seqs.DistinctCountOne | app.py:34-36 | an element of a list without repeats occurs in it exactly once |
| Seqs.Reverse | app.py:95 | `reversed` keeps the length |
| Seqs.ReverseAt | app.py:95 | position k of the reversed list is position n-1-k of the list |
| Seqs.ReverseMirrors | app.py:95 | every position of the reversed list mirrors a position of the list |
| Seqs.ReverseMultiset | app.py:95 | reversing keeps every element with its multiplicity |
| Seqs.ReverseReverse | app.py:95 | reversing twice restores the storage order |
| Seqs.ReverseAppendFirst | app.py:95 | the element appended last is shown first |
| Ads.Accepts | app.py:46-47 | a form is refused exactly when title, description or contact is empty or whitespace only |
| Ads.SellerOf | app.py:51 | the stored seller is never empty and never padded; it is the trimmed name, or `"Anonymous"` when that is empty |
| Ads.PriceOf | app.py:54 | the stored price is `None` exactly when the input is not positive; otherwise it is the input, and positive |
| Ads.NewAd | app.py:49-59 | a record built from an accepted form is well formed (required fields non-empty and trimmed, seller filled, price absent or positive); the seller is always filled and a stored price always positive; title, description, contact are the trimmed inputs; category is passed through; `image_base64` is present exactly when an image was attached and then holds the encoded bytes |
| Board.Load | app.py:12-19 | the start-up list is the file's list when it parses, and empty when the file is missing or unreadable |
| Board.Post | app.py:45-61 | a submission fails exactly when a required field is blank; on success the list grows by exactly one, every earlier record is unchanged, and the new last record is the well-formed record built from the form |
| Board.AppendKeepsWellFormed | app.py:61 | appending a well-formed record to a list of well-formed records keeps them all well formed |
| Board.PostKeepsWellFormed | app.py:61 | appending an accepted submission keeps every record of the list well formed |
| Board.Board.constructor | app.py:26 | the board starts with the list read from the ads file |
| Board.Board.Submit | app.py:45-62 | a refused submission leaves the list unchanged and reports the missing-field error, whose message is the page's "Title, description, and contact are required!"; an accepted one appends exactly the record `Post` specifies; a list of well-formed records stays so |
| Listing.Matches | app.py:87 | the empty term matches every ad; a term longer than both title and description matches none |
| Listing.ByCategory | app.py:80-81 | `"All"` returns the list unchanged; any other selection returns a subsequence holding exactly the ads of that category, each as often as the list holds it |
| Listing.BySearch | app.py:83-88 | an empty term returns the list unchanged; otherwise a subsequence holding exactly the ads whose lowered title or lowered description contains the lowered term, each as often as the list holds it |
| Listing.SearchGuardRedundant | app.py:83-88 | the `if search_term:` guard changes nothing: for every term, including the empty one, the search equals one comprehension with the match condition |
| Listing.Shown | app.py:78-88 | with `"All"` and an empty term every ad passes both filters; under any other selection a passing ad has the selected category |
| Listing.Filtered | app.py:78-88 | the filtered list is a subsequence of all ads and holds exactly the ads passing both filters, each as often as the whole list holds it |
| Listing.ShownIffListed | app.py:78-88 | a one-ad list comes through both filters unchanged exactly when the ad passes them |
| Listing.FilteredIsOnePass | app.py:78-88 | category-then-search equals one order-keeping pass with the combined condition |
| Listing.FilteredCount | app.py:78-88 | every ad passing both filters appears in the filtered list as often as in the whole list; every other ad not at all |
| Listing.SearchIgnoresCase | app.py:84 | two search terms with the same lower-case form select the same ads |
| Listing.SearchIgnoresLetterCase | app.py:83-88 | two search terms that differ only in the case of ASCII letters select the same ads |
| Listing.ViewStep | app.py:80-81 | putting one ad in front of the list adds one to the size of its category's view and nothing to any other view |
| Listing.ViewSizeIsCount | app.py:80-81 | a category view holds as many ads as the list has of that category |
| Listing.ViewSizesAreCounts | app.py:80-81 | adding up the sizes of several category views is adding up the categories' counts |
| Listing.CountSumCons | app.py:80-81 | one more ad raises the added-up counts by the number of selections equal to its category |
| Listing.CountSumOfNone | app.py:80-81 | the empty list has no ad of any category |
| Listing.CountsPartition | app.py:80-81 | for distinct categories that every ad carries one of, the counts add up to the number of ads |
| Listing.ViewsPartition | app.py:80-81 | for distinct selections other than `"All"` that every ad carries one of, the views' sizes add up to the number of ads: each ad is listed under exactly one view |
| Listing.CategoriesAreSelections | app.py:34-36 | the form's seven categories are distinct and none is `"All"`, so `ViewsPartition` applies to them |
| Listing.Render | app.py:91-95 | the "no ads found" notice appears exactly when the filtered list is empty; otherwise the count equals the number of ads shown, the ads shown are the filtered ads with the same multiplicities, in reverse order |
| Listing.NewestFirst | app.py:61-95 | an ad appended last (as a posting does) that passes the current filters is the first ad shown |
| Listing.NoPhoneWithoutP | app.py:87 | a lowered text without the letter p cannot contain "phone" |
| Listing.PhoneAdMatches | app.py:87 | the lowered term "phone" occurs in the lowered title "iPhone 13 Pro" |
| Listing.HoseAdMisses | app.py:87 | the lowered term "phone" occurs neither in the title "Garden Hose" nor in the description "Twenty metres" |
| Listing.SearchPhoneExample | app.py:83-88 | searching "phone" over a hose ad and a phone ad keeps exactly the phone ad |

## Left out

- Every Streamlit call (page setup, sidebar, form widgets, columns, images, buttons, toasts): rendering only. The form's raw values are the `Form` datatype; the page's output is the `View` datatype.
- `st.rerun()` after a successful submission (`app.py:64`) restarts the script, which reloads the list from the file (`app.py:26`). The model does not rerun anything: `Board.ads` carries the list from one submission to the next.
- Board.Board.Submit: successive calls assume that saving the list as JSON and loading it back gives the same list; the JSON round trip is not modelled.
- A failing `save_ads` is not modelled: it raises after the record was appended to the in-memory list (`app.py:61-62`), while the model keeps the record. Opening the file for writing (`app.py:22`) empties it before anything is written, so a failure during the write leaves an empty or partial file. The next run reads it as unreadable (`app.py:17-18`) and starts from an empty list, so every ad is lost, not only the new one.
- `save_ads` and the JSON encoding of the file: file I/O. A successful submission's list is what would be written. The contents of a parsed file are taken as a list of records; a JSON document that parses to something other than a list of records is not modelled.
- The last-writer-wins race between two concurrent submissions through the shared file: concurrency.
- Base64 encoding of the uploaded image: a library call. It is the parameter `encode`, and only the key's presence and its value `encode(bytes)` are modelled.
- The price's display text (`$` with two decimals, or "Contact for price") and the `id(ad)` key of the copy button: formatting and object identity for the UI only.
- Upload restrictions: the uploaded file is a sequence of bytes; the allowed image types (png, jpg, jpeg) are enforced by the upload widget and are not modelled.
- Ads.PriceOf: the price is a mathematical `real`; binary floating-point rounding of `float(price)` is not modelled, because the code only compares the value with zero and passes it through.
- Text.Lower: maps only the ASCII letters A-Z; Python's `str.lower()` also lower-cases non-ASCII letters (and can change a string's length for a few characters), which is not modelled.
