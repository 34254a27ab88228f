# ElevaTech product pages — a Dafny model

This project models the page logic of the ElevaTech product website. It covers
three scripts:

- The **products page** (`products-script.js`). A fixed catalog of fifteen
  elevator products can be filtered by category, searched and sorted. The page
  shows six results at first, and "Load More" appends three at a time. Helpers
  escape HTML and look up category labels. A quick-view modal shows a product
  found by id.
- The **solutions page** (`solutions-script.js`). It has a tab strip, a
  "process steps" accordion with an "Expand All / Collapse All" button, and
  keyboard navigation between steps.
- The **contact page** (`contact-script.js`). It has an FAQ accordion,
  per-field validation messages with a single-error rule, and a character
  counter under the message box.

Every operation is a pure function over immutable datatypes. The DOM becomes
plain state: class flags are booleans, the rendered list is a `seq<Product>`,
and error elements are a `seq<string>`. Browser facts the scripts only read
become parameters: whether an element exists, a field's validity flags, the
key pressed, and whether focus is on a step header.

Modules, one per file:

| file | module | contents |
|---|---|---|
| `wrappers.dfy` | `Wrappers` | `Option` |
| `text.dfy` | `Text` | JavaScript `trim`, `toLowerCase`, `includes`, and decimal rendering of counts |
| `seqs.dfy` | `Seqs` | `filter`, order-preserving subsequences, JavaScript `slice`, reversal |
| `escape.dfy` | `Escape` | `escapeHtml` and an entity decoder used as its inverse |
| `catalog.dfy` | `Catalog` | the product records, `getCategoryName`, find-by-id and the quick-view guard |
| `catalog_view.dfy` | `CatalogView` | filter/search/sort, the rendered view, "Load More", the button rule |
| `process_steps.dfy` | `ProcessSteps` | the process-step accordion, expand-all button and key handler |
| `tabs.dfy` | `Tabs` | the solutions tab strip |
| `contact.dfy` | `Contact` | FAQ, field validation and errors, the character counter |

"Load More" slices `allProducts` at the number of products currently shown. It
does not continue the active filter's results, and the model keeps this
behaviour as written. `CatalogView.LoadMoreIgnoresView` states what it does
after a `'newest'` sort. The next click appends catalog products 7, 8 and 9,
not the next sorted results 9, 8 and 7. The click after that shows product 10
twice. After a category filter the button is hidden exactly when all
matching results are shown. A later "Load More" still appends catalog
positions, and it hides the button only once fifteen products are shown.

The `'security'` category holds three products (ids 2, 6 and 11); see
`CatalogView.SecurityView`.

## Model

| member | source | states |
|---|---|---|
| `Catalog.CatalogShape` | products-script.js:6-142 | the catalog holds fifteen products with ids 1 to 15 in page order, each in one of the five known categories |
| `Catalog.CategoryName` | products-script.js:250-259 | a known category key maps to a non-empty label different from the key; any other string falls back to the key itself |
| `Catalog.CategoryNameInjective` | products-script.js:251-257 | different known keys get different labels, and no label is itself a key |
| `Catalog.FindById` | products-script.js:485 | `find` returns None exactly when no product has the id; otherwise it returns the product at the first position whose id matches |
| `Catalog.QuickViewOpensForCatalogIds` | products-script.js:482-493 | a "View Details" click opens the modal exactly for ids 1..15 and shows catalog entry `id - 1` |
| `Escape.EscapeHtmlIsEscapeEach` | products-script.js:238-246 | the five chained `replace` calls equal an independent per-character escape, because `&` is replaced first and no entity is escaped twice |
| `Escape.UnescapeEscapeHtml` | products-script.js:238-246 | decoding the five entities in the output of `escapeHtml` gives back the input, so escaping loses nothing |
| `Escape.EscapeNoMeta` | products-script.js:241-245 | the output of `escapeHtml` contains no `<`, `>`, `"` or `'` |
| `Escape.EscapeAmpersandsStartEntities` | products-script.js:241 | every `&` in the output starts one of the five entities |
| `Escape.EscapeHtmlLength` | products-script.js:239-246 | the empty text escapes to the empty string, and escaping never shortens a text |
| `Text.TrimSpec` | products-script.js:381-382 | `trim` gives the empty string exactly for blank text; the result occurs inside the input with only white space before and after it, and neither starts nor ends with white space |
| `Text.TrimIdempotent` | products-script.js:382 | trimming twice is trimming once |
| `Text.LowerSpec` | products-script.js:382-386 | lower-casing is idempotent and keeps white space where it was, so a blank search stays blank |
| `Text.Contains` | products-script.js:384-386 | `includes` is true exactly when the term occurs at some position of the text |
| `Text.DecimalRoundTrip` | contact-script.js:308 | a length written in decimal reads back as the same number |
| `Seqs.Filter` | products-script.js:377 | `filter` keeps exactly the elements that pass the test and never grows the list |
| `Seqs.FilterIsSubsequence` | products-script.js:377 | `filter` keeps the survivors in their original order |
| `Seqs.FilterCounts` | products-script.js:377 | `filter` keeps each surviving value as many times as it occurs in the input and drops every other value |
| `Seqs.Slice` | products-script.js:301 | `slice(start, end)` clamps both bounds to the length and returns the elements from the clamped start up to the clamped end |
| `CatalogView.ByCategory` | products-script.js:376-378 | `'all'` keeps the list; any other filter keeps exactly the products of that category, in order |
| `CatalogView.ByCategoryCounts` | products-script.js:376-378 | the category step keeps each product of the category (every product for `'all'`) as many times as the input holds it, and no other product |
| `CatalogView.BySearch` | products-script.js:381-388 | a blank search keeps the list; otherwise the term is non-empty and a product is kept exactly when its lower-cased title, description or category contains the term, in order |
| `CatalogView.BySearchCounts` | products-script.js:381-388 | the search step keeps each matching product (every product for a blank search) as many times as the input holds it, and no other product |
| `CatalogView.ApplySort` | products-script.js:391-406 | `'newest'` and `'popular'` give a permutation with descending ids; `'price'`, `'featured'` and any other value keep the order |
| `CatalogView.PopularIsNewest` | products-script.js:398-401 | `'popular'` sorts exactly as `'newest'` does |
| `CatalogView.NewestIsUniqueArrangement` | products-script.js:393 | for distinct ids, the `'newest'` result is the only strictly id-descending arrangement of the products |
| `CatalogView.FilterAndSort` | products-script.js:372-406 | the sorted results are a permutation of the filtered, searched catalog |
| `CatalogView.FilterAndSortMembers` | products-script.js:372-388 | a product is a result exactly when it is in the catalog, passes the category filter, and, when the search is not blank, matches its term |
| `CatalogView.UnknownFilterIsEmpty` | products-script.js:376-378 | a filter that is neither `'all'` nor a catalog category yields no results |
| `CatalogView.ResultsKeepCatalogOrder` | products-script.js:373-406 | without a sort by id, results appear in catalog order |
| `CatalogView.NewestResultsStrictlyDescending` | products-script.js:392-394 | `'newest'` results have strictly decreasing ids, whatever the filter and search |
| `CatalogView.NewestCatalogIsReversed` | products-script.js:392-394 | the whole catalog sorted `'newest'` is the catalog reversed |
| `CatalogView.FeaturedCatalogIsCatalog` | products-script.js:402-405 | the default controls show the catalog in page order |
| `CatalogView.SecurityView` | products-script.js:372-422 | the `'security'` filter shows products 2, 6 and 11 and hides "Load More" |
| `CatalogView.ButtonShownIffClickAdds` | products-script.js:262-303 | `updateProductCount`'s rule displays the button exactly when a click would add products, and after a click the display is exactly that rule |
| `CatalogView.InitProducts` | products-script.js:169-172 | start-up shows the first six catalog products and displays the button |
| `CatalogView.FilterAndSortProducts` | products-script.js:409-421 | the view is the first min(6, results) results, and the button is hidden exactly when every result is shown |
| `CatalogView.LoadMoreProducts` | products-script.js:296-306 | a click keeps what is shown and appends catalog positions from the current count up to min(count + 3, 15); with 15 or more shown nothing changes; the button is hidden exactly when 15 or more are shown |
| `CatalogView.LoadMoreIgnoresView` | products-script.js:297-302 | after a `'newest'` view the next click appends catalog products 7, 8 and 9 rather than the next sorted results, and the click after that shows product 10 twice |
| `CatalogView.LoadMoreExtendsPrefix` | products-script.js:297-302 | from a catalog prefix of length n, a click shows the catalog prefix of length min(n + 3, 15) |
| `CatalogView.LoadMoreTimesCount` | products-script.js:297-302 | k clicks from n shown products show min(n + 3k, 15) products |
| `CatalogView.LoadMoreWalkThrough` | products-script.js:146-306 | from start-up, clicks show 9, 12 and then all 15 products in catalog order; the button is then hidden and further clicks change nothing |
| `CatalogView.StepKeepsConsistent` | products-script.js:262-422 | filter changes and clicks keep the view within the catalog, at most 15 long, with a displayed button only when fewer than 15 are shown |
| `CatalogView.RunKeepsConsistent` | products-script.js:280-422 | any sequence of filter changes and clicks from a consistent view ends in a consistent view |
| `CatalogView.ReachableViewsConsistent` | products-script.js:150-422 | the view after page load and any sequence of filter changes and clicks is consistent |
| `CatalogView.ShownButtonMakesProgress` | products-script.js:270-274 | in a consistent view, clicking a displayed "Load More" always adds a product |
| `Contact.FaqClick` | contact-script.js:113-123 | after a click every other item is closed, and the clicked item's state is flipped |
| `Contact.FaqClickLeavesAtMostOne` | contact-script.js:110-124 | after any click at most one item is open: the clicked one if it was closed, none if it was open |
| `Contact.FaqClickTwice` | contact-script.js:113-123 | clicking a closed question twice leaves every item closed |
| `Contact.FaqClicksAtMostOne` | products-script.js:425-445 | any run of clicks on the products page's FAQ, which uses the same handler, keeps at most one item open |
| `Contact.ValidationMessage` | contact-script.js:69-78 | a missing value outranks a type mismatch; a mismatch names e-mail or telephone for those field types; every other case gets "Please check this field" |
| `Contact.MessagesDistinct` | contact-script.js:70-77 | the four messages are pairwise different |
| `Contact.MessageNamesTheRule` | contact-script.js:69-78 | each message is shown exactly for its rule: required for a missing value, the e-mail or phone text for a mismatch on that kind of field, and "Please check this field" otherwise |
| `Contact.ClearFieldError` | contact-script.js:99-105 | the first error element is removed, the others are kept in order, and the border is reset |
| `Contact.ShowFieldError` | contact-script.js:80-97 | the message becomes the last error and the border turns red; a field with at most one error ends with exactly that one |
| `Contact.ShowThenClear` | contact-script.js:80-105 | clearing right after showing an error on an error-free field removes it again |
| `Contact.ValidateField` | contact-script.js:61-67 | an invalid field with a non-blank value gets its validation message; a valid or blank field has its error cleared |
| `Contact.ValidateKeepsTidy` | contact-script.js:49-57 | blur and input keep a field at no more than one error, with a red border exactly when it has one |
| `Contact.ValidateShowsAtMostTheMessage` | contact-script.js:61-78 | after a blur a blank or valid field shows no error, and an invalid non-blank field shows exactly its message |
| `Contact.RequiredMessageNeverShown` | contact-script.js:62-71 | for text-like fields, where `valueMissing` implies an empty value, a blur never shows "This field is required" |
| `Contact.CounterText` | contact-script.js:308 | the counter text ends in `/1000` |
| `Contact.CounterColourFor` | contact-script.js:311-317 | red exactly above 900 characters, amber exactly for 751..900, grey exactly up to 750 |
| `Contact.OnInput` | contact-script.js:306-318 | the counter is visible exactly for a non-empty value, takes the threshold colour, and its text reads back as the length |
| `Contact.CounterRoundTrip` | contact-script.js:308 | parsing the counter text gives back the length |
| `Contact.CounterTextInjective` | contact-script.js:308 | different lengths give different counter texts |
| `Contact.ColourMonotone` | contact-script.js:311-317 | a longer value never has a colour closer to grey |
| `Contact.InitialCounterIsEmptyInput` | contact-script.js:292-309 | the counter as created (`0/1000`, hidden, grey) equals the counter after input of an empty value |
| `ProcessSteps.Init` | solutions-script.js:165-276 | with no steps nothing changes; otherwise the first step is expanded, the other steps keep their markup state, every header's aria-expanded matches its step, and `allExpanded` starts false |
| `ProcessSteps.InitFromCollapsed` | solutions-script.js:169-172 | from collapsed markup the first step is the only expanded one after start-up |
| `ProcessSteps.ExpandedCountFull` | solutions-script.js:249-252 | the count of expanded steps equals the total exactly when every step is expanded |
| `ProcessSteps.UpdateExpandAllButton` | solutions-script.js:246-265 | with a button, `allExpanded` is true and the caption reads "Collapse All" exactly when every step is expanded; without one nothing changes |
| `ProcessSteps.ClickHeader` | solutions-script.js:179-201 | the clicked step flips and its aria-expanded follows it; opening a step leaves it the only expanded one and sets aria false on the steps it closed; closing a step changes no other step |
| `ProcessSteps.ClickKeepsAriaSynced` | solutions-script.js:186-196 | a click keeps every header's aria-expanded equal to its step's state |
| `ProcessSteps.ClickKeepsAtMostOne` | solutions-script.js:188-197 | a click keeps at most one step expanded |
| `ProcessSteps.ClickTwiceClosesAll` | solutions-script.js:180-197 | clicking a collapsed step twice leaves every step collapsed |
| `ProcessSteps.ClickAlignsButton` | solutions-script.js:199-200 | after any header click the button agrees with the steps, whatever its caption said before |
| `ProcessSteps.ExpandAll` | solutions-script.js:227-244 | with a button and steps, a click flips `allExpanded`, sets every step and header to the new value, and captions the button to match; otherwise nothing changes |
| `ProcessSteps.ExpandAllTwice` | solutions-script.js:228-240 | two expand-all clicks restore `allExpanded` and leave every step in that state |
| `ProcessSteps.FirstExpanded` | solutions-script.js:366 | the key handler's active step is the first expanded one, and there is none exactly when no step is expanded |
| `ProcessSteps.KeyTarget` | solutions-script.js:366-398 | the handler clicks nothing without an expanded step, off a step header, or for keys other than the arrows, Home and End; Down/Right picks the step after the first expanded one and Up/Left the one before it, nothing at the ends; Home picks the first step and End the last |
| `ProcessSteps.KeyDown` | solutions-script.js:365-398 | nothing happens without an expanded step, off a header, or for other keys; an arrow clicks the neighbour of the first expanded step when there is one, Home clicks the first header and End the last |
| `ProcessSteps.ArrowDownWithSeveralOpen` | solutions-script.js:366-375 | when the step after the first expanded one is open too, Down/Right collapses that step and changes no other |
| `ProcessSteps.ArrowDownOnThreeOpen` | solutions-script.js:366-375 | with three steps all open, Down/Right collapses the second step only |
| `ProcessSteps.ArrowDownMovesOn` | solutions-script.js:369-375 | in an accordion, Down or Right makes the next step the only expanded one, and does nothing on the last step |
| `ProcessSteps.ArrowUpMovesBack` | solutions-script.js:376-382 | in an accordion, Up or Left makes the previous step the only expanded one, and does nothing on the first step |
| `ProcessSteps.HomeOnFirstStepCloses` | solutions-script.js:383-389 | Home while the first step is the open one clicks its header and collapses it, leaving nothing open |
| `ProcessSteps.KeyKeepsAriaSynced` | solutions-script.js:365-398 | a key press keeps headers matching their steps and keeps the button agreeing |
| `ProcessSteps.EventKeepsAriaSynced` | solutions-script.js:175-244 | header clicks, expand-all clicks and key presses keep headers matching their steps and keep the button agreeing |
| `ProcessSteps.RunKeepsAriaSynced` | solutions-script.js:164-289 | any sequence of such events keeps headers matching their steps, and a button that agrees keeps agreeing |
| `Tabs.PaneWithId` | solutions-script.js:37 | `getElementById` finds the first pane with the id, or none when no pane has it |
| `Tabs.ClickTab` | solutions-script.js:26-40 | only the clicked button is active; the only active pane is the first one whose id equals the button's `data-tab`, and none is active when no pane has it |
| `Tabs.ClickShowsMatchingPane` | solutions-script.js:29-40 | at most one pane is active, it has the clicked tab's id, and none is active exactly when no pane has that id |
| `Tabs.ClickTabIdempotent` | solutions-script.js:26-40 | clicking the active tab again changes nothing |
| `Tabs.LastClickWins` | solutions-script.js:28-30 | two clicks leave the strip as the second click alone would |

## Left out

- DOM rendering and markup: `renderProducts`, `createProductElement` and the quick-view fields are not modelled. Only `escapeHtml` and `getCategoryName` from that code are. Notifications and injected style blocks are not modelled either.
- Timers and animation: the 800 ms "Load More" delay, the button spinner and disabled state, `scrollIntoView`, MutationObserver effects, CSS transitions and the staggered step fade-in. "Load More" is modelled as the state after its delay.
- Form submission, `checkValidity`, `reportValidity` and `FormData`. Validity enters as the flags `valueMissing`, `typeMismatch` and "other constraint failed".
- `about-script.js` and `script.js`: counters, reveal effects, menus, smooth scroll and parallax. They are cosmetic DOM glue and are not part of this model.
- Text.Lower: lower-cases ASCII letters only. JavaScript's `toLowerCase` also maps non-ASCII letters. The catalog text is ASCII apart from a degree sign, which has no case. The search term is typed by the visitor, so a non-ASCII term can match differently: JavaScript lower-cases U+212A KELVIN SIGN to `k`, so "\u212Ait" finds product 5 ("IOT Smart Sensor Kit") in the browser and nothing in the model.
- Catalog.CategoryName: keys inherited from `Object.prototype`, such as `'toString'`, are not modelled. For those the source returns a function rather than a string.
- Catalog.FindById: the id is an integer. The source compares the button's `data-id` string with `==`, so JavaScript's string-to-number coercion is not modelled.
- Tabs.PaneWithId: searches only the tab panes. `getElementById` can also return a non-pane element. A button without `data-tab` looks up the id "undefined".
- ProcessSteps.KeyDown: the steps are taken to be consecutive siblings, so `nextElementSibling` of step i is step i + 1. The `.process-step.expanded` query is taken to see only these steps. A step header `click()` is modelled as `ClickHeader`.
- Contact.OnInput: takes the value's length as a number of characters. The browser counts UTF-16 code units.
- Contact.FaqClick: on the products page the handler sits behind an `if (faqItems)` guard. That guard is always true, so the same function models it.
- CatalogView.InitProducts: the `#productsContainer` element is taken to be present. Without it the source's start-up returns early: no products are shown, the button is not updated, and neither the filter controls nor the FAQ are wired up.
- CatalogView.UpdateProductCount: the `#productCount` and `#loadMore` elements are taken to be present. Without `#productCount` the source leaves the button's display as it was at start-up and after "Load More" (a filter sets the display itself afterwards); without `#loadMore` a "Load More" call does nothing.
- Contact.ValidateKeepsTidy: each form field is taken to have its own parent element, so the `.field-error` elements under that parent are the field's own. The source looks errors up through `field.parentNode`. With two fields under one parent, an input on one field removes the first error under the parent, which may be the other field's; that field keeps a red border and shows no error.
- Contact.RequiredMessageNeverShown: covers text-like fields only. A required checkbox or radio button that is unchecked has `valueMissing` with the value "on", so a blur does show "This field is required" for it.
- CatalogView.ApplySort: ids are distinct, so the model does not say how equal ids are ordered.
- The `window.productsScript` debug export and all console logging.
