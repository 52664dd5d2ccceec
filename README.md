# get-stuffed: a verified model of the recipe app's front-end logic

The recipe-sharing web app "get-stuffed" is a set of React pages over a hosted
database. Its one real algorithm is the inline markup tokenizer behind the
`FormattedText` component. It turns a recipe's text into plain strings and
styled nodes: links, bold, italic, strikethrough and inline code. Around it
sit small pieces of list, index and validation logic in the pages.

The Dafny project models these, one module per source file:

- `FormattedText` models the tokenizer.
  - The five regular expressions are hand-written matchers. Each is proved equal
    to a declarative description of what its expression accepts at a
    position. That description includes the shortest capture of the lazy
    `.+?`.
  - The leftmost search of each pattern and the table scan are modelled
    directly. The scan keeps the earliest match, and the first-listed pattern
    wins a tie.
  - `ParseInline` is the cursor loop of `parseInline`. It carries its
    invariants and is proved equal to the specification function `Tokens`.
  - Lemmas about `Tokens` state the properties: the nodes cover the line
    exactly, no plain string is empty, no two plain strings are adjacent,
    keys count up from 0, which match wins, and what a line without markup
    gives.
  - `Render` is the component. It splits on line feeds, tokenizes each line
    and puts a break between lines.
- `RecipesIndex` models the recipe list page. It covers the tag and effort
  filters, their toggles, the quick filters, clearing the filters and the
  image-loaded flag. The page state is a class that keeps the list shown in
  step with the selections.
- `ImageUploader` models the photo picker. Its two parallel lists, the files
  and their previews, are appended to and cut at one position together. It
  also covers the button caption and the count badge.
- `ImageGallery` models the photo gallery. It covers the tile layout with
  its "+k more" overlay, and the viewer's state machine with cyclic
  next/previous. It stays faithful to JavaScript's `%`.
- `NewRecipe` models the new-recipe form.
  - It covers the checklist toggle and chips, and the cook-time key and
    paste filters.
  - It covers the submit handler: its early exits, the tag and effort link
    rows, and the photo loop that records each successful upload with its
    position as sort order.
- `AdminPage` models the administration page. It covers the paging
  arithmetic and paging state, the search reset, the ban and admin switches,
  the avatar letter, and the trimmed-name editors for tags and effort levels.
- `LoginPage` models the sign-in card. It covers the password-strength rule,
  the sign-in error wording, and the login, forgotten-password and sign-up
  handlers with their guard order.
- `Collections` models the collection cards. It covers the missing-count
  default, the count line, the "Untitled" fallback, the icon and the
  description.
- `Choices` holds the tag and effort-level option type that the list page
  and the form share.
- `JsText` and `Lists` hold the JavaScript built-ins the pages use, with their
  properties. `JsText` has `trim`, `split`/`join`, `includes`, ASCII case
  mapping and decimal rendering. `Lists` has `filter`, subsequences and the
  multi-select toggle.

Backend calls are not modelled. Each handler that awaits one takes the
answer as a parameter: the row count, the error message, the inserted
recipe's id, or the upload's stored path. The clock (`Date.now()`) and
`URL.createObjectURL` are also passed in as parameters.

## Model

| member | source | states |
|---|---|---|
| `FormattedText.ParseInline` | src/components/FormattedText.tsx:70-96 | The cursor loop returns exactly `Tokens(text, 0)`, the specification of the tokenizer the lemmas below are about |
| `FormattedText.EarliestMatch` | src/components/FormattedText.tsx:71-82 | The table scan over the five patterns finds a match exactly when a step has one, namely the step's match |
| `FormattedText.TokensCover` | src/components/FormattedText.tsx:84-95 | Replacing each styled node by the text it was matched from and concatenating all nodes gives back the line: no gaps, no overlaps |
| `FormattedText.TokensTidy` | src/components/FormattedText.tsx:84-94 | No plain string is empty, no two plain strings are adjacent, and every styled node is well formed (non-empty captures, valid URL, no line terminator or backtick inside) |
| `FormattedText.TokensKeys` | src/components/FormattedText.tsx:73-95 | The styled nodes of a line are keyed `key`, `key+1`, … in emission order |
| `FormattedText.TokensPlain` | src/components/FormattedText.tsx:70-87 | An empty line gives no nodes; a non-empty line gives the single plain string of itself exactly when no pattern matches anywhere in it |
| `FormattedText.StepEarliest` | src/components/FormattedText.tsx:71-82 | The chosen match starts where its pattern matches and no pattern matches earlier, and no pattern listed before it matches at that start |
| `FormattedText.StepExactly` | src/components/FormattedText.tsx:71-82 | Conversely, a match with no match of any pattern before it and none of an earlier-listed pattern at its start is the one chosen |
| `FormattedText.StepNone` | src/components/FormattedText.tsx:84-87 | A step finds no match exactly when no pattern matches at any position |
| `FormattedText.Best` | src/components/FormattedText.tsx:75-82 | The scan's choice is a found match with the least start, strictly earlier than every match listed before it; none exactly when no pattern matched |
| `FormattedText.FindFrom` | src/components/FormattedText.tsx:76 | The leftmost match of a pattern: it matches at the index found and at no earlier index |
| `FormattedText.Step` | src/components/FormattedText.tsx:71-89 | A chosen match is well formed and its source text stands in the remaining text at its index |
| `FormattedText.SourceLength` | src/components/FormattedText.tsx:95 | Every match consumes at least three characters, so the cursor advances |
| `FormattedText.MatchAtCorrect` | src/components/FormattedText.tsx:16-68 | Each hand-written matcher returns a span at an index exactly when its regular expression accepts that span there |
| `FormattedText.MatchAtSound` | src/components/FormattedText.tsx:16-68 | A match is well formed and its source text occurs at the index where it was found |
| `FormattedText.MatchAt` | src/components/FormattedText.tsx:16-68 | A pattern's matcher only builds spans of its own kind |
| `FormattedText.LinkAtCorrect` | src/components/FormattedText.tsx:22-33 | The link matcher returns label `l` and URL `u` exactly when `[l](u)` stands there with a non-empty label without `]` and an `http://` or `https://` URL whose rest is a non-empty run without whitespace or `)` |
| `FormattedText.LinkAt` | src/components/FormattedText.tsx:22-33 | The link pattern only ever yields a link node |
| `FormattedText.LinkAtSound` | src/components/FormattedText.tsx:22-33 | What the link matcher returns is a link the expression accepts at that index |
| `FormattedText.LinkAtLaidOut` | src/components/FormattedText.tsx:22-33 | A link the expression accepts is the one the matcher returns, with the label as content and the URL as target |
| `FormattedText.LinkFound` | src/components/FormattedText.tsx:22 | The four pieces found by the matcher spell out the link's source text |
| `FormattedText.UrlEnd` | src/components/FormattedText.tsx:22 | The URL part ends at a `)` inside the text |
| `FormattedText.UrlEndSound` | src/components/FormattedText.tsx:22 | The URL text the matcher takes is a valid `https?://` URL |
| `FormattedText.SchemeTail` | src/components/FormattedText.tsx:22 | An `https` URL is not also read as `http`, so the scheme fixes where the URL's tail begins |
| `FormattedText.IndexOf` | src/components/FormattedText.tsx:22 | The first index at or after a position holding a character, and no earlier one holds it |
| `FormattedText.RunEnd` | src/components/FormattedText.tsx:22 | The maximal run of URL characters (`[^\s)]`) from a position |
| `FormattedText.DelimitedAt` | src/components/FormattedText.tsx:37-48 | The bold, italic and strike capture is one the expression `D(.+?)D` accepts, and no shorter one is; none when no capture is accepted |
| `FormattedText.DelimitedAtCorrect` | src/components/FormattedText.tsx:37-48 | The delimited matcher returns a capture exactly when it is the shortest non-empty, line-terminator-free text closed by the delimiter |
| `FormattedText.DelimitedAtSound` | src/components/FormattedText.tsx:37-48 | A delimited capture is non-empty, holds no line terminator, and stands between two delimiters |
| `FormattedText.LazyClose` | src/components/FormattedText.tsx:37 | The lazy search stops at the first closing delimiter, fails on a line terminator, and passes no closing delimiter |
| `FormattedText.LazyBold` | src/components/FormattedText.tsx:37 | On `**a** x **b**` the bold capture could close at the last `**` but is "a" at 0 and "b" at 8 |
| `FormattedText.TwoBoldNodes` | src/components/FormattedText.tsx:37-38 | `**a** x **b**` gives bold "a" keyed 0, plain " x ", bold "b" keyed 1 |
| `FormattedText.BoldPlainBold` | src/components/FormattedText.tsx:37-95 | Any bold text, text without markup, bold text gives two bold nodes around one plain string |
| `FormattedText.BoldAt` | src/components/FormattedText.tsx:37 | `**a**` with `a` free of asterisks and line breaks is a bold match of `a`, and no link starts there |
| `FormattedText.CodeAt` | src/components/FormattedText.tsx:52-53 | The code capture is one the expression accepts, and it is the only one |
| `FormattedText.CodeAtCorrect` | src/components/FormattedText.tsx:52 | The code matcher returns a capture exactly when backtick, a non-empty run without backticks, backtick stand there |
| `FormattedText.CodeAtSound` | src/components/FormattedText.tsx:52 | A code capture holds no backtick and stands between two backticks |
| `FormattedText.Wrap` | src/components/FormattedText.tsx:38-48 | A delimited pattern's node carries the capture verbatim, with no nested parsing |
| `FormattedText.Rank` | src/components/FormattedText.tsx:16-68 | The position of each pattern in the table, in the order link, bold, italic, strike, code |
| `FormattedText.RenderCover` | src/components/FormattedText.tsx:101-120 | Nothing renders exactly when the text is absent or empty; otherwise each line is tokenized with keys from 0, a break follows every line but the last, and joining the lines' texts with line feeds gives back the text |
| `RecipesIndex.FiltersKeepOrder` | src/pages/recipes/index.tsx:47-54 | The filtered list is a subsequence of the recipes; a recipe is in it exactly when some selected tag matches (if tags are selected) and some selected effort matches (if efforts are); with nothing selected it is the whole list |
| `RecipesIndex.FindByName` | src/pages/recipes/index.tsx:110 | The tag found has the given name up to case; none is found exactly when no tag's name matches |
| `RecipesIndex.FindByNameFirst` | src/pages/recipes/index.tsx:110 | The tag found is the first whose name matches |
| `RecipesIndex.PresetFlipsButton` | src/pages/recipes/index.tsx:158-160 | Pressing a quick filter whose tag exists turns its button from lit to unlit or back and leaves the buttons of other tags alone; a button with no tag is never lit |
| `RecipesIndex.MarkLoadedOnly` | src/pages/recipes/index.tsx:297 | An image-load event sets the flag on the cards with that id only; the cards, their order and the other flags stay |
| `RecipesIndex.RecipesIndexPage.constructor` | src/pages/recipes/index.tsx:104-105 | After loading, both lists are the recipes and nothing is selected |
| `RecipesIndex.RecipesIndexPage.Refilter` | src/pages/recipes/index.tsx:56 | The effect sets the shown list to the filtered recipes and changes nothing else |
| `RecipesIndex.RecipesIndexPage.ToggleTag` | src/pages/recipes/index.tsx:118 | The tag selection is toggled and the shown list recomputed |
| `RecipesIndex.RecipesIndexPage.ToggleEffort` | src/pages/recipes/index.tsx:119 | The effort selection is toggled and the shown list recomputed |
| `RecipesIndex.RecipesIndexPage.SetPresetFilter` | src/pages/recipes/index.tsx:109-115 | A tag found by case-blind name is toggled and the efforts emptied; with no such tag nothing changes |
| `RecipesIndex.RecipesIndexPage.ClearFilters` | src/pages/recipes/index.tsx:117-121 | Both selections are emptied, no filter is active and every recipe is shown |
| `RecipesIndex.RecipesIndexPage.ImageLoaded` | src/pages/recipes/index.tsx:297 | The shown cards get the loaded flag for that id, keeping the page in step with its filters |
| `Lists.ToggleMembers` | src/pages/recipes/index.tsx:118 | After a toggle the id is selected exactly when it was not before; other ids keep their state; an absent id goes at the end |
| `Lists.ToggleTwice` | src/pages/recipes/index.tsx:118-119 | Toggling twice restores the set of selected ids, and the very list when the id was absent |
| `Lists.ToggleNoDuplicates` | src/pages/recipes/index.tsx:118-119 | A duplicate-free selection stays duplicate-free |
| `Lists.FilterSubsequence` | src/pages/recipes/index.tsx:50 | `filter` keeps an order-preserving subsequence |
| `Lists.FilterMembers` | src/pages/recipes/index.tsx:50 | `filter` keeps exactly the elements that pass |
| `ImageUploader.RemoveAtSlices` | src/components/SortableImageUploader.tsx:36-37 | Removing an index in range deletes exactly that element and keeps the rest in order; any other index leaves the list as it was |
| `ImageUploader.RemoveAtLength` | src/components/SortableImageUploader.tsx:36-37 | Removing an index in range shortens the list by one |
| `ImageUploader.ButtonLabelEmpty` | src/components/SortableImageUploader.tsx:164 | The caption is "Add photos" exactly when there are no images, else "Add more" |
| `ImageUploader.Badge` | src/components/SortableImageUploader.tsx:168-188 | The badge shows exactly when there is an image, and reads as the image count |
| `ImageUploader.Uploader.constructor` | src/components/SortableImageUploader.tsx:21 | A new picker has no images and no previews |
| `ImageUploader.Uploader.AddFiles` | src/components/SortableImageUploader.tsx:23-30 | Without a file list nothing changes; otherwise the files are appended in order and one preview per file, so the lists stay equal in length |
| `ImageUploader.Uploader.Remove` | src/components/SortableImageUploader.tsx:32-39 | With a callback the lists stay and the callback gets the index; without one the index goes from both lists, which stay equal in length |
| `ImageGallery.JsRem` | src/components/RecipeImageGallery.tsx:31-37 | JavaScript's `%` agrees with the mathematical remainder on non-negative operands |
| `ImageGallery.NextWraps` | src/components/RecipeImageGallery.tsx:31-33 | From a shown photo, next stays among the photos and wraps from the last to the first |
| `ImageGallery.PrevWraps` | src/components/RecipeImageGallery.tsx:35-37 | From a shown photo, previous stays among the photos and wraps from the first to the last |
| `ImageGallery.PrevUndoesNext` | src/components/RecipeImageGallery.tsx:31-37 | Previous undoes next and next undoes previous |
| `ImageGallery.NextTimesCycle` | src/components/RecipeImageGallery.tsx:31-33 | `k ≤ n` presses of next move `k` places round the cycle; `n` presses come back to the start |
| `ImageGallery.LayoutAccounts` | src/components/RecipeImageGallery.tsx:15-130 | Nothing renders without photos; every photo is a tile or counted by the overlay, which shows exactly when there are more than three |
| `ImageGallery.Counter` | src/components/RecipeImageGallery.tsx:190-194 | The counter shows exactly when there is more than one photo |
| `ImageGallery.CounterReads` | src/components/RecipeImageGallery.tsx:193 | The counter reads the one-based position, " / ", then the number of photos |
| `ImageGallery.Gallery.constructor` | src/components/RecipeImageGallery.tsx:21-29 | The viewer starts closed at the first photo |
| `ImageGallery.Gallery.Open` | src/components/RecipeImageGallery.tsx:21-25 | Opening sets the index and opens the viewer |
| `ImageGallery.Gallery.Close` | src/components/RecipeImageGallery.tsx:27-29 | Closing clears the open flag only |
| `ImageGallery.Gallery.Select` | src/components/RecipeImageGallery.tsx:197-203 | A thumbnail click sets the index only |
| `ImageGallery.Gallery.Next` | src/components/RecipeImageGallery.tsx:31-33 | The index steps to the next one and stays valid |
| `ImageGallery.Gallery.Prev` | src/components/RecipeImageGallery.tsx:35-37 | The index steps to the previous one and stays valid |
| `ImageGallery.Gallery.KeyDown` | src/components/RecipeImageGallery.tsx:39-43 | Escape closes, ArrowRight steps next, ArrowLeft steps previous, any other key changes nothing |
| `NewRecipe.SelectedNamesInOptionsOrder` | src/pages/recipes/new.tsx:34-36 | The chips follow the options' order, one per selected option, and name exactly the selected options |
| `NewRecipe.SelectedNamesIgnoreSelectionOrder` | src/pages/recipes/new.tsx:34-36 | The order in which options were ticked does not change the chips |
| `NewRecipe.ToggleTwiceSameChips` | src/pages/recipes/new.tsx:26-36 | Ticking an option twice leaves the chips as they were |
| `NewRecipe.SingleCharacterKeys` | src/pages/recipes/new.tsx:221-246 | A one-character key gets through exactly when it is a digit, or a, c, v or x with Ctrl |
| `NewRecipe.NamedKeys` | src/pages/recipes/new.tsx:221-246 | A longer key name gets through exactly when it is one of the listed editing keys |
| `NewRecipe.EditingKeysLong` | src/pages/recipes/new.tsx:224-232 | Every listed editing key is longer than one character |
| `NewRecipe.PasteLikeTyping` | src/pages/recipes/new.tsx:247-255 | A paste gets through exactly when it is non-empty and each character would get through typed alone; a number's rendering does |
| `NewRecipe.ExtensionAfterLastDot` | src/pages/recipes/new.tsx:144 | The extension holds no dot, is the text after the last dot, and is the whole name without one |
| `NewRecipe.LinkRows` | src/pages/recipes/new.tsx:132-141 | No insert when nothing is selected; otherwise one row per selected id, in order |
| `NewRecipe.ImageRowsRecorded` | src/pages/recipes/new.tsx:142-156 | Every recorded row is a successful upload of the photo at its sort order, which is below the photo count |
| `NewRecipe.ImageRowsIncrease` | src/pages/recipes/new.tsx:142-156 | The recorded sort orders strictly increase |
| `NewRecipe.ImageRowsStep` | src/pages/recipes/new.tsx:146-155 | One more photo keeps the rows so far and adds its own row, with its position as sort order, exactly when its upload succeeded |
| `NewRecipe.ImageRowsComplete` | src/pages/recipes/new.tsx:142-156 | Every photo whose upload succeeded has a row |
| `NewRecipe.NewRecipeForm.constructor` | src/pages/recipes/new.tsx:115-117 | A new form has no photos and no selections |
| `NewRecipe.NewRecipeForm.ToggleTag` | src/pages/recipes/new.tsx:26-32 | The tag toggle appends an absent id and removes a present one, changing nothing else |
| `NewRecipe.NewRecipeForm.ToggleEffort` | src/pages/recipes/new.tsx:26-32 | The effort toggle appends an absent id and removes a present one, changing nothing else |
| `NewRecipe.NewRecipeForm.Submit` | src/pages/recipes/new.tsx:115-161 | Not logged in or a failed insert stops with its error; otherwise the link rows and the image rows of the photo loop are written and success is reported |
| `AdminPage.RowRange` | src/pages/admin/index.tsx:81 | Each page asks for exactly ten rows |
| `AdminPage.PagesTile` | src/pages/admin/index.tsx:81 | Page 1 starts at row 0; each page starts right after the previous one; every row is on exactly one page |
| `AdminPage.TotalPages` | src/pages/admin/index.tsx:164 | The page count is the ceiling of users over ten |
| `AdminPage.ShownPages` | src/pages/admin/index.tsx:426 | The caption shows at least one page, and the page count when there are users |
| `AdminPage.NextEnabledIff` | src/pages/admin/index.tsx:429 | From a real page, Next is enabled exactly when a later page exists |
| `AdminPage.UserPager.constructor` | src/pages/admin/index.tsx:40-42 | The list starts on page 1 with an empty search |
| `AdminPage.UserPager.SetSearch` | src/pages/admin/index.tsx:278 | Editing the search resets the page to 1 |
| `AdminPage.UserPager.Loaded` | src/pages/admin/index.tsx:85 | A missing user count is taken as 0 |
| `AdminPage.UserPager.Prev` | src/pages/admin/index.tsx:409-410 | Previous is ignored on page 1 and otherwise steps back, from any page, including one left past the last by a smaller count; a valid page stays valid |
| `AdminPage.UserPager.Next` | src/pages/admin/index.tsx:429-430 | Next is ignored when disabled and otherwise steps on, from any page; a valid page stays valid |
| `AdminPage.BanToggled` | src/pages/admin/index.tsx:103-106 | The ban switch writes the negated flag and keeps the rest of the user |
| `AdminPage.AdminToggled` | src/pages/admin/index.tsx:108-111 | The admin switch writes the negated flag and keeps the rest of the user |
| `AdminPage.TogglesUndo` | src/pages/admin/index.tsx:103-111 | Each switch pressed twice restores the user, and the two switches commute |
| `AdminPage.AvatarInitial` | src/pages/admin/index.tsx:326 | The avatar letter is one character, never a lower-case ASCII letter, and equal up to case to the first character of the username, else of the email, else "?" |
| `AdminPage.AvatarInitialCaseBlind` | src/pages/admin/index.tsx:326 | The letter depends only on the username when there is one, ignores ASCII case, and is "?" with neither name nor email |
| `AdminPage.NameEditor.constructor` | src/pages/admin/index.tsx:46-48 | The editor starts with an empty add box and no row being renamed |
| `AdminPage.NameEditor.Add` | src/pages/admin/index.tsx:113-117 | A name blank after trimming inserts nothing; otherwise the trimmed name is inserted and the box emptied |
| `AdminPage.NameEditor.StartEdit` | src/pages/admin/index.tsx:495 | The pencil button starts renaming the row from its current name |
| `AdminPage.NameEditor.CancelEdit` | src/pages/admin/index.tsx:488 | The cross button stops renaming |
| `AdminPage.NameEditor.Save` | src/pages/admin/index.tsx:119-123 | A name blank after trimming saves nothing; otherwise the row gets the trimmed name and renaming stops |
| `AdminPage.NameEditor.RenameKey` | src/pages/admin/index.tsx:484 | Enter saves, Escape cancels, any other key changes nothing |
| `AdminPage.SavedNameTrimmed` | src/pages/admin/index.tsx:113-141 | A stored name is never blank, neither starts nor ends with white space, and trims to itself |
| `AdminPage.Deleted` | src/pages/admin/index.tsx:125-129 | A row is deleted exactly when the confirmation is accepted |
| `JsText.TrimBlank` | src/pages/admin/index.tsx:114 | A name trims to "" exactly when it is all white space; otherwise trimming cuts white space off both ends |
| `JsText.TrimIdempotent` | src/pages/admin/index.tsx:115 | Trimming twice is trimming once |
| `JsText.JoinSplit` | src/components/FormattedText.tsx:108 | Splitting on a character and joining again gives back the text |
| `JsText.LastPiece` | src/pages/recipes/new.tsx:144 | The last piece of a split holds no separator and follows the last one, or is the whole text |
| `JsText.ContainsAt` | src/pages/auth/login.tsx:35 | `includes` holds exactly when the text occurs at some position |
| `JsText.NatToStringValue` | src/pages/collections/index.tsx:81 | A number written in decimal reads back as that number |
| `JsText.NatToStringInjective` | src/pages/collections/index.tsx:81 | Different numbers are written differently |
| `LoginPage.ValidatePasswordMeans` | src/pages/auth/login.tsx:26-28 | A password is accepted exactly when it has eight or more characters, no line terminator, and an upper-case letter, a digit and a special character somewhere |
| `LoginPage.NoLowerCaseNeeded` | src/pages/auth/login.tsx:27 | Lower-case letters are not required: "CHEF2024!" is accepted |
| `LoginPage.LineBreakRefused` | src/pages/auth/login.tsx:27 | A line terminator anywhere spoils a password |
| `LoginPage.LoginMessage` | src/pages/auth/login.tsx:35-37 | An error containing "Invalid login credentials" reads "Wrong email or password"; any other passes through verbatim |
| `LoginPage.LoginMessageIdempotent` | src/pages/auth/login.tsx:35-37 | The replacement wording is left alone, so mapping twice is mapping once |
| `LoginPage.Login.constructor` | src/pages/auth/login.tsx:10-18 | The card starts with empty fields, no messages, in sign-in mode |
| `LoginPage.Login.HandleLogin` | src/pages/auth/login.tsx:30-42 | A failure shows its mapped message; a success shows the welcome message; the fields stay |
| `LoginPage.Login.ForgotPassword` | src/pages/auth/login.tsx:44-51 | With no email, "Enter your email first" is shown and nothing is sent; otherwise the service's error or the sent message is shown |
| `LoginPage.Login.HandleSignup` | src/pages/auth/login.tsx:53-74 | Strength is checked before the confirmation; neither failure sends; a sign-up returning a user clears the three fields and leaves registration mode |
| `Collections.RecipeCount` | src/pages/collections/index.tsx:31 | A missing count is 0 |
| `Collections.CountLabel` | src/pages/collections/index.tsx:79-81 | The line is "Empty collection" exactly when the count is 0 |
| `Collections.CountLabelReads` | src/pages/collections/index.tsx:81 | A non-empty collection's line is its count in decimal then " recipe", plural for every count but one |
| `Collections.CountLabelInjective` | src/pages/collections/index.tsx:79-81 | Different counts get different lines |
| `Collections.Title` | src/pages/collections/index.tsx:73 | The heading is the name when there is one, else "Untitled", and never empty |
| `Collections.IconOf` | src/pages/collections/index.tsx:75 | The globe shows exactly when the collection is public |
| `Collections.ShownDescription` | src/pages/collections/index.tsx:83-87 | The description shows exactly when it is non-empty, verbatim |
| `Collections.CardShows` | src/pages/collections/index.tsx:70-88 | A card always has a heading, reads "Empty collection" for a missing count, tells its count and its visibility back |

## Left out

- Backend and network calls (authentication, table queries, inserts, updates, deletes, storage uploads, signed and public URLs): each handler receives the reply as a parameter instead.
- The reloads that follow a write (`loadUsers`, `loadTags`, `loadEfforts`) and the rows they fetch, since they only mirror the database.
- JSX rendering, styles, hover handlers and React element construction: `FormattedText` nodes are a datatype, and the React `key` is a number in `Styled`.
- Concurrency: the `Promise.all` fan-outs are not modelled; `NewRecipe.NewRecipeForm.Submit` runs the awaited uploads in order, as the source's loop does.
- `setTimeout` redirects, `router` navigation and `console` logging: these have no effect on the modelled state.
- The clock `Date.now()` and `URL.createObjectURL` are parameters (`now`, `objectUrl`); the upload path's time stamp is therefore any number.
- The loading flags that only toggle a spinner (`loading` of the recipe, collection and admin pages), the checklist's open/closed toggle, the show-password switches, and the gallery's image fallback on error.
- Effects are modelled as the state after they run: `RecipesIndex.RecipesIndexPage.Refilter` is the filter effect, called by every handler that changes a selection.
- Empty lines: `parseInline` of an empty line returns no nodes, since its loop never runs (src/components/FormattedText.tsx:70). The component wraps each line in a fragment, so an empty line renders nothing besides its break. The model gives a `Line` with no nodes, followed by a break unless it is last.
- `AdminPage.AvatarInitial`: upper-casing is modelled for ASCII letters only; JavaScript's full Unicode mapping (which can turn one character into two, as with "ß") is not.
- `RecipesIndex.FindByName`: the case-blind comparison lowers ASCII letters only, not the full Unicode mapping of `toLowerCase`.
- JavaScript strings are sequences of UTF-16 code units; the model uses `seq<char>` and does not distinguish surrogate pairs.
- `ImageGallery.NextTimesCycle`: stated for at most `n` presses; longer runs follow by applying it repeatedly.
- `RecipeActions.tsx`, `Navbar.tsx`, `_app.tsx`, the home page, `reset-password.tsx`, `collections/new.tsx` and `profile.tsx` are not part of this model: glue around authentication and storage.
- Drag reordering of photos: the uploader has no reorder code.
- The viewer's previous and next arrow buttons (src/components/RecipeImageGallery.tsx:148) are not modelled separately; they are shown under the same `images.length > 1` test as the counter, which `ImageGallery.Counter` states.
- `LoadingSpinner.tsx`'s random choice and locale date formatting on the admin page.
