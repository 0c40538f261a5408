# Management-page components: a Dafny model

This project models the logic inside a React component library and its small
user/post management page. Four pieces are covered:

- **The Table view engine** (`TableData`, `TableSort`, `TableView`, `TableCells`, `TableComponent`).
  - The `Table` class holds the five pieces of view state: rows, current page, search term, sort column and sort direction.
  - It has the events that change them: a header click, typing a search, a new `data` prop, and the "이전"/"다음" pager buttons.
  - Pure functions derive what is shown: the search filter, the page slice, the page count, the columns, and each cell's rendering.
- **The form validators** (`Validation`): username, email, post title and required field. Each returns no message for an acceptable value, or the message of the first rule it breaks.
- **The statistics cards** (`StatsHelpers`): counts by status and role, and the total number of views.
- **Three component decision rules:**
  - `Badge`: how its variant and label are resolved.
  - `Button`: the business rules that disable it, label it and colour it.
  - `Dialog`: the page-wide scroll lock it writes into `document.body.style.overflow`, and which header and footer it shows.

`Js` models the JavaScript behaviour these rely on:
- the truthiness of React children and `||`;
- the `\s` character class and `trim`;
- `length` in UTF-16 code units;
- `includes`, `endsWith`, `toLowerCase`;
- `String(number)`;
- `localeCompare`.

The code behaves as follows where a reader might expect otherwise:
- The page number is **not** clamped after a search narrows the rows. `TableView.SearchCanStrandPage` shows that a reader can be left on an empty page with no pager.
- A new `data` prop replaces the rows, but it does **not** reset the page or the sort indicator.
- The sort is **stable**, because `Array.prototype.sort` is. Re-sorting keeps the order of rows that compare equal (`TableSort.SortStable`).
- Before any sort, the sort column is the empty string, not null.

Three behaviours of the code are stated as they are:
- A user's status badge reuses the post labels: an active user reads "게시됨". See `TableCells.UserStatusUsesPostLabels`.
- An open dialog with `showFooter` whose footer props resolve to the number 0 prints a bare "0" after the body, as React renders the value of the `&&` chain. See `Dialog.ZeroFooterPrintsZero`.
- The scroll lock has no counting, so one dialog closing unlocks the page under another that is still open. See `Dialog.CloseOneOfTwo`.

## Model

| member | source | states |
|---|---|---|
| `Js.Or` | packages/after/src/components/ui/badge.tsx:72 | JavaScript's logical or of two children is the first when it is truthy, else the second; the result is truthy iff either operand is |
| `Js.Utf16Length` | packages/app/src/utils/validation.ts:5 | `length` counts UTF-16 code units: between the number of characters and twice it, and equal to it for text within the Basic Multilingual Plane |
| `Js.Lower` | packages/app/src/utils/validation.ts:19 | `toLowerCase` keeps the length and maps every character independently |
| `Js.ContainsIff` | packages/app/src/utils/validation.ts:55 | `includes` holds exactly when the substring occurs at some index |
| `Js.TrimEmptyIff` | packages/app/src/utils/validation.ts:64 | `trim()` is empty exactly when every character is whitespace |
| `Js.IntToString` | packages/after/src/components/ui/table.tsx:128 | `String(n)` is non-empty and starts with '-' exactly for negative numbers |
| `TableData.ToJsString` | packages/after/src/components/ui/table.tsx:128-139 | `String(v)` is empty exactly for the empty string |
| `Js.CompareStrings` | packages/after/src/components/ui/table.tsx:128 | the string comparison answers -1, 0 or 1 |
| `Js.CompareStringsAntisymmetric` | packages/after/src/components/ui/table.tsx:127-129 | swapping the strings negates the comparison |
| `Js.CompareStringsZeroIff` | packages/after/src/components/ui/table.tsx:127-129 | two strings compare equal exactly when they are equal |
| `Js.CompareStringsTransitive` | packages/after/src/components/ui/table.tsx:127-129 | "at most" on strings is transitive |
| `Validation.UsernameAcceptedIff` | packages/app/src/utils/validation.ts:2-24 | a username is accepted iff it is empty, or it has 3 to 20 characters, all in `[a-zA-Z0-9_]`, and is not a reserved word in any case |
| `Validation.UsernameFirstFailingRule` | packages/app/src/utils/validation.ts:5-21 | each of the four messages is returned exactly when its rule fails and every earlier rule passed |
| `Validation.ValidateUsername` | packages/app/src/utils/validation.ts:2-24 | an empty username gets no message; any message given is one of the four username messages |
| `Validation.ReservedIgnoresCase` | packages/app/src/utils/validation.ts:18-21 | "ADMIN" and "Root" are refused as reserved |
| `Validation.ReservedIsNotSubstring` | packages/app/src/utils/validation.ts:18-21 | "admin_kim" is accepted: the reserved check is an exact match |
| `Validation.EmailPatternIff` | packages/app/src/utils/validation.ts:29-31 | the email pattern matches exactly the strings with no whitespace, one '@' after a non-empty local part, and a '.' strictly inside the domain |
| `Validation.EmailAcceptedIff` | packages/app/src/utils/validation.ts:26-39 | an email is accepted iff it is empty, or well formed and ending in "@company.com" or "@example.com" |
| `Validation.ValidateEmail` | packages/app/src/utils/validation.ts:26-39 | an empty email gets no message; any message given is the format or the domain message |
| `Validation.EmailDomainErrorIff` | packages/app/src/utils/validation.ts:29-36 | the domain message is given exactly for well-formed addresses outside the company domains; the format message exactly for non-empty malformed ones |
| `Validation.ForeignDomainRefused` | packages/app/src/utils/validation.ts:34-36 | "kim@gmail.com" is well formed but gets the domain message |
| `Validation.PostTitleAcceptedIff` | packages/app/src/utils/validation.ts:42-61 | a title is accepted iff it is empty, or it has 5 to 100 code units and no banned word occurs at any position |
| `Validation.ValidatePostTitle` | packages/app/src/utils/validation.ts:42-61 | an empty title gets no message; any message given is one of the three title messages |
| `Validation.PostTitleFirstFailingRule` | packages/app/src/utils/validation.ts:45-51 | the too-short message is given exactly for non-empty titles under 5 code units, the too-long message exactly for titles over 100 |
| `Validation.PostTitleBannedAfterLength` | packages/app/src/utils/validation.ts:45-58 | the banned-word message is given exactly for titles of acceptable length containing a banned word |
| `Validation.ValidateRequired` | packages/app/src/utils/validation.ts:63-68 | an error exactly when the value is empty or all whitespace, and the message starts with and contains the field name |
| `StatsHelpers.Count` | packages/app/src/pages/management-page/utils/stats-helpers.ts:17 | `filter(p).length` never exceeds the length |
| `StatsHelpers.CountIsCardinality` | packages/app/src/pages/management-page/utils/stats-helpers.ts:17 | `filter(p).length` is the number of positions whose element satisfies `p` |
| `StatsHelpers.CountAppend` | packages/app/src/pages/management-page/utils/stats-helpers.ts:21 | the count over two lists joined is the sum of their counts |
| `StatsHelpers.CountDisjoint` | packages/app/src/pages/management-page/utils/stats-helpers.ts:15-26 | three predicates that never hold together count at most the length in total |
| `StatsHelpers.CalculateUserStats` | packages/app/src/pages/management-page/utils/stats-helpers.ts:12-32 | total is the number of users; the four cards are labelled 활성/비활성/정지/관리자 and count users by status active, inactive, suspended and role admin; the admin count is at most the total |
| `StatsHelpers.UserStatusCountsBounded` | packages/app/src/pages/management-page/utils/stats-helpers.ts:15-26 | the three status counts add up to at most the number of users |
| `StatsHelpers.CalculatePostStats` | packages/app/src/pages/management-page/utils/stats-helpers.ts:34-54 | total is the number of posts; three cards count published, draft and archived posts under fixed labels; the fourth is "총 조회수", is the sum of all views, equals the only post's views for one post, and is 0 for no posts |
| `StatsHelpers.PostStatusCountsBounded` | packages/app/src/pages/management-page/utils/stats-helpers.ts:37-48 | the three status counts add up to at most the number of posts |
| `StatsHelpers.PostViewsAdditive` | packages/app/src/pages/management-page/utils/stats-helpers.ts:49-52 | the view total of two post lists joined is the sum of their view totals |
| `StatsHelpers.SumViewsAppend` | packages/app/src/pages/management-page/utils/stats-helpers.ts:51 | the left fold of views distributes over concatenation |
| `StatsHelpers.SumViewsNonNegative` | packages/app/src/pages/management-page/utils/stats-helpers.ts:51 | with no negative view counts the total is not negative |
| `StatsHelpers.SumViewsBoundsEach` | packages/app/src/pages/management-page/utils/stats-helpers.ts:51 | with no negative view counts the total is at least each post's views |
| `StatsHelpers.SumViews` | packages/app/src/pages/management-page/utils/stats-helpers.ts:51 | one post totals its own views; posts that all have 0 views total 0 |
| `Badge.ResolveBadge` | packages/after/src/components/ui/badge.tsx:64-150 | after the four switch blocks the variant is that of the last applicable prop (or the given one), and the content is the children if truthy, else the first applicable label |
| `Badge.StatusRule` | packages/after/src/components/ui/badge.tsx:68-91 | the status switch has a case exactly for published, draft, archived, pending and rejected, each with a non-empty label |
| `Badge.RoleRule` | packages/after/src/components/ui/badge.tsx:93-112 | the userRole switch has a case exactly for admin, moderator, user and guest, each with a non-empty label |
| `Badge.PriorityRule` | packages/after/src/components/ui/badge.tsx:114-129 | the priority switch has a case exactly for high, medium and low, each with a non-empty label |
| `Badge.PaymentRule` | packages/after/src/components/ui/badge.tsx:131-150 | the paymentStatus switch has a case exactly for paid, pending, failed and refunded, each with a non-empty label |
| `Badge.ApplyRule` | packages/after/src/components/ui/badge.tsx:70-73 | a matching case sets the variant and, through the logical or, keeps truthy content; no matching case changes nothing |
| `Badge.RulesInOrder` | packages/after/src/components/ui/badge.tsx:68-150 | running the four switch blocks one after another yields the last applicable variant and, through the logical or with the content so far, the first applicable label |
| `Badge.RenderedVariant` | packages/after/src/components/ui/badge.tsx:33-37 | an unresolved variant is rendered as "primary" |
| `Badge.LastVariantIsLastApplicable` | packages/after/src/components/ui/badge.tsx:68-150 | the variant comes from the applicable rule with the highest position |
| `Badge.LastVariantDefault` | packages/after/src/components/ui/badge.tsx:65-150 | with no applicable rule the given variant stays |
| `Badge.FirstLabelIsFirstApplicable` | packages/after/src/components/ui/badge.tsx:68-150 | the label comes from the applicable rule with the lowest position |
| `Badge.PaymentStatusDecidesVariant` | packages/after/src/components/ui/badge.tsx:131-150 | a recognised paymentStatus decides the variant whatever the other props are |
| `Badge.StatusDecidesLabel` | packages/after/src/components/ui/badge.tsx:68-91 | with empty children a recognised status supplies the label whatever the other props are |
| `Badge.ChildrenWin` | packages/after/src/components/ui/badge.tsx:66-72 | truthy children are always shown as given |
| `Badge.UnknownValuesChangeNothing` | packages/after/src/components/ui/badge.tsx:65-150 | absent or unlisted values leave the given variant and children unchanged |
| `Badge.VariantAndLabelDisagree` | packages/after/src/components/ui/badge.tsx:68-150 | a published badge with a failed payment is "danger" yet reads "게시됨" |
| `Button.ResolveButton` | packages/after/src/components/ui/button.tsx:54-119 | the button is disabled iff the caller disabled it or one of the three rules forbids the action; the variant is forced for delete/publish/archive; an empty label is replaced by the action's label; the type defaults to "button"; all only when entityType, action and entity are all given |
| `Button.Forbidden` | packages/after/src/components/ui/button.tsx:69-93 | the rules forbid only deleting a user and publishing or archiving a post |
| `Button.AutoLabel` | packages/after/src/components/ui/button.tsx:96-110 | every action gets a non-empty label, and only create gets the long one |
| `Button.ActionVariant` | packages/after/src/components/ui/button.tsx:113-119 | delete, publish and archive force a variant and the others do not; only delete forces "danger" |
| `Button.PublishXorArchive` | packages/after/src/components/ui/button.tsx:77-93 | for any post exactly one of publish and archive is forbidden |
| `Button.CreateAndEditUnrestricted` | packages/after/src/components/ui/button.tsx:67-119 | create and edit are never disabled by the rules and keep the caller's variant |
| `Button.AutoLabelNonEmpty` | packages/after/src/components/ui/button.tsx:96-110 | every automatic label is non-empty |
| `Dialog.OverflowFor` | packages/after/src/components/ui/dialog.tsx:73-77 | the effect writes "hidden" for an open dialog and "unset" for a closed one |
| `Dialog.ScrollLock.constructor` | packages/after/src/components/ui/dialog.tsx:72-81 | mounting runs the effect for the initial `isOpen` |
| `Dialog.ScrollLock.RunEffect` | packages/after/src/components/ui/dialog.tsx:72-77 | the effect leaves overflow "hidden" when open and "unset" when closed |
| `Dialog.ScrollLock.Cleanup` | packages/after/src/components/ui/dialog.tsx:78-80 | the cleanup always leaves overflow "unset" |
| `Dialog.ScrollLock.Rerender` | packages/after/src/components/ui/dialog.tsx:72-81 | a re-render writes nothing unless `isOpen` changed, and then leaves the value for the new `isOpen` |
| `Dialog.ScrollLock.Unmount` | packages/after/src/components/ui/dialog.tsx:78-80 | unmounting leaves overflow "unset", open or not |
| `Dialog.CloseOneOfTwo` | packages/after/src/components/ui/dialog.tsx:72-81 | with two open dialogs on one page, closing one unlocks scrolling while the other stays open |
| `Dialog.MountClosedBesideOpen` | packages/after/src/components/ui/dialog.tsx:72-81 | mounting a closed dialog unlocks scrolling under an open one |
| `Dialog.Render` | packages/after/src/components/ui/dialog.tsx:83-120 | a closed dialog renders nothing; an open one shows the children, the resolved header and what the footer expression leaves after the body |
| `Dialog.RenderHeader` | packages/after/src/components/ui/dialog.tsx:86-103 | a truthy header is shown as given; otherwise a non-empty title gets the title header; otherwise no header |
| `Dialog.RenderFooter` | packages/after/src/components/ui/dialog.tsx:106-117 | the footer row is shown exactly when showFooter holds and footer or footerContent is truthy, around footer when that is truthy; with showFooter, a falsy footer and footerContent 0 the bare text "0" is left instead |
| `Dialog.HeaderPrecedence` | packages/after/src/components/ui/dialog.tsx:86-103 | a truthy header wins; only the title header has a close button; with neither there is no header |
| `Dialog.FooterPrecedence` | packages/after/src/components/ui/dialog.tsx:106-117 | the footer row shows exactly when showFooter holds and footer or footerContent is truthy, and footer wins; a 0 left by the `&&` chain prints "0" |
| `Dialog.FooterNeedsShowFooter` | packages/after/src/components/ui/dialog.tsx:115-117 | without showFooter no footer is shown |
| `Dialog.ZeroFooterPrintsZero` | packages/after/src/components/ui/dialog.tsx:106-117 | an open dialog whose only footer prop is the number 0 shows "0" after its body |
| `TableData.Get` | packages/after/src/components/ui/table.tsx:120-121 | `row[key]` is `undefined` when the row has no such key, and otherwise a value stored under it |
| `TableData.GetFirstMatch` | packages/after/src/components/ui/table.tsx:120-121 | a key that is present reads as the value of its first occurrence, the only one in an object |
| `TableData.ActualColumns` | packages/after/src/components/ui/table.tsx:151-159 | given columns are used as they are; otherwise one column per key of the first row, headed by the key; none for no rows |
| `TableData.KeyColumns` | packages/after/src/components/ui/table.tsx:154-158 | one column per key, in key order, with the key as header and no width |
| `TableData.DerivedColumnsIgnoreLaterRows` | packages/after/src/components/ui/table.tsx:153 | derived columns depend on the first row only |
| `TableSort.NewDirection` | packages/after/src/components/ui/table.tsx:114-115 | descending exactly when the same column is clicked while ascending |
| `TableSort.Click` | packages/after/src/components/ui/table.tsx:114-117 | after a click the clicked column is the sort column |
| `TableSort.ClicksAlternate` | packages/after/src/components/ui/table.tsx:114-117 | repeated clicks on one column alternate the direction and never return to unsorted |
| `TableSort.OtherColumnStartsAscending` | packages/after/src/components/ui/table.tsx:114-115 | a click on another column sorts ascending |
| `TableSort.Compare` | packages/after/src/components/ui/table.tsx:119-130 | rows with equal values in the column compare as 0 |
| `TableSort.CompareNumbers` | packages/after/src/components/ui/table.tsx:123-125 | on two numbers the comparator is negative exactly when the first is smaller (the second, descending) and 0 exactly when they are equal |
| `TableSort.DescSwapsOperands` | packages/after/src/components/ui/table.tsx:123-129 | the descending comparator is the ascending one with operands swapped |
| `TableSort.CompareAntisymmetric` | packages/after/src/components/ui/table.tsx:119-130 | swapping two rows negates the comparator |
| `TableSort.CompareTransitive` | packages/after/src/components/ui/table.tsx:119-130 | on rows whose values are all numbers or all non-numbers the comparator is transitive |
| `TableSort.MixedColumnNotTransitive` | packages/after/src/components/ui/table.tsx:123-129 | on a column mixing numbers and strings the comparator is not transitive |
| `TableSort.Insert` | packages/after/src/components/ui/table.tsx:119 | one insertion step adds exactly the inserted row |
| `TableSort.SortRows` | packages/after/src/components/ui/table.tsx:119-130 | the sort returns a permutation of its input |
| `TableSort.InsertSorted` | packages/after/src/components/ui/table.tsx:119-130 | inserting into sorted rows of one kind keeps them sorted |
| `TableSort.SortRowsSorted` | packages/after/src/components/ui/table.tsx:119-132 | on a column of one kind the new rows are a permutation of the old ones in comparator order |
| `TableSort.SortedUnchanged` | packages/after/src/components/ui/table.tsx:119-132 | rows already in comparator order are returned unchanged |
| `TableSort.SortIdempotent` | packages/after/src/components/ui/table.tsx:119-132 | sorting twice by the same column and direction equals sorting once |
| `TableSort.SortStable` | packages/after/src/components/ui/table.tsx:119-132 | on a column of one kind the rows that compare equal to any row come out in their input order |
| `TableSort.SortByAgeExample` | packages/after/src/components/ui/table.tsx:119-130 | ages 30, 25, 35 sort ascending to 25, 30, 35 |
| `TableView.FilterRows` | packages/after/src/components/ui/table.tsx:137-141 | the filter keeps at most the rows it is given |
| `TableView.FilterMembership` | packages/after/src/components/ui/table.tsx:135-142 | a row is kept exactly when some value of it, stringified and lower-cased, contains the lower-cased term |
| `TableView.FilterAppend` | packages/after/src/components/ui/table.tsx:137-141 | filtering two blocks of rows joined gives the two results joined, so kept rows keep their order |
| `TableView.FilterSnoc` | packages/after/src/components/ui/table.tsx:137-141 | one more row at the end is kept after the earlier results exactly when it matches |
| `TableView.FilterKeepsAllMatching` | packages/after/src/components/ui/table.tsx:137-141 | when every row matches, the rows come back unchanged |
| `TableView.NoSearchShowsAll` | packages/after/src/components/ui/table.tsx:135-142 | without search or with an empty term all rows are kept |
| `TableView.FilteredData` | packages/after/src/components/ui/table.tsx:135-142 | without search or with an empty term the rows come back unchanged; the filter never adds rows |
| `TableView.SearchIgnoresTermCase` | packages/after/src/components/ui/table.tsx:139 | the case of the term does not change the result |
| `TableView.SearchFindsNumbers` | packages/after/src/components/ui/table.tsx:138-139 | the term "30" finds a row whose value is the number 30 |
| `TableView.TotalPages` | packages/after/src/components/ui/table.tsx:149 | the page count is the least number of pages that hold all rows, and 0 for no rows |
| `TableView.PageRows` | packages/after/src/components/ui/table.tsx:144-147 | a page holds at most pageSize rows, taken in order from position (page-1)*pageSize |
| `TableView.PageBeyondLastEmpty` | packages/after/src/components/ui/table.tsx:144-149 | a page number past the page count shows no rows |
| `TableView.PageIsSlice` | packages/after/src/components/ui/table.tsx:144-147 | a page is exactly the slice from its start to the next page's start, both cut at the end of the rows |
| `TableView.RowOnItsPage` | packages/after/src/components/ui/table.tsx:144-149 | row k appears at position k mod pageSize of page k div pageSize + 1, which exists |
| `TableView.AllPagesGiveAllRows` | packages/after/src/components/ui/table.tsx:144-149 | the pages laid end to end are exactly the rows |
| `TableView.ThreePagesExample` | packages/after/src/components/ui/table.tsx:144-149 | 25 rows at 10 per page make 3 pages; the first holds rows 1-10, the last rows 21-25 |
| `TableView.PrevPage` | packages/after/src/components/ui/table.tsx:392 | the previous page is never below 1 |
| `TableView.NextPage` | packages/after/src/components/ui/table.tsx:402 | the next page is never above the page count |
| `TableView.PagerKeepsRange` | packages/after/src/components/ui/table.tsx:391-402 | from a page in 1..totalPages both buttons stay in that range |
| `TableView.PrevMovesBack` | packages/after/src/components/ui/table.tsx:391-392 | previous goes back one page, and changes nothing exactly when it is disabled |
| `TableView.NextMovesForward` | packages/after/src/components/ui/table.tsx:401-402 | next goes forward one page, and changes nothing exactly when it is disabled |
| `TableView.NextThenPrev` | packages/after/src/components/ui/table.tsx:392-402 | next then previous returns to the starting page, below the last page |
| `TableView.ThreePagesButtons` | packages/after/src/components/ui/table.tsx:391-401 | with three pages previous is disabled only on page 1 and next only on page 3 |
| `TableView.NextFromBeyondLast` | packages/after/src/components/ui/table.tsx:401-402 | from a page past the last, next is enabled and jumps back to the last page |
| `TableView.SearchCanStrandPage` | packages/after/src/components/ui/table.tsx:144-149 | on page 2 or later with one page of matching rows or fewer, no row and no pager are shown |
| `TableCells.CellContent` | packages/after/src/components/ui/table.tsx:378 | without an entity type a cell shows the raw value |
| `TableCells.RenderCell` | packages/after/src/components/ui/table.tsx:162-335 | only the actions column gives buttons; only role and status give status badges; a column without domain rendering gives the raw value |
| `TableCells.RoleBadge` | packages/after/src/components/ui/table.tsx:167-193 | a role badge has a label exactly for admin, moderator, user and guest |
| `TableCells.UserStatusBadge` | packages/after/src/components/ui/table.tsx:194-216 | a user status badge always has a label, and is "danger" exactly for statuses other than active and inactive |
| `TableCells.PostStatusBadge` | packages/after/src/components/ui/table.tsx:254-284 | a post status badge has a label exactly for published, draft, archived, pending and rejected |
| `TableCells.CategoryVariant` | packages/after/src/components/ui/table.tsx:239-246 | only development, design and accessibility get a colour other than "secondary" |
| `TableCells.PostActions` | packages/after/src/components/ui/table.tsx:288-326 | post actions are two or three buttons, edit first and delete last |
| `TableCells.PostActionsFollowStatus` | packages/after/src/components/ui/table.tsx:288-326 | post actions start with edit and end with delete; publish, archive and restore are offered exactly for draft, published and archived posts |
| `TableCells.OfferedChangeIsAllowed` | packages/after/src/components/ui/table.tsx:294-309 | the status change offered is never one the Button rules forbid for that post |
| `TableCells.RoleBadgeAgreesWithBadge` | packages/after/src/components/ui/table.tsx:167-193 | a known role gets the same variant and label as the Badge's userRole rule |
| `TableCells.PostStatusAgreesWithBadge` | packages/after/src/components/ui/table.tsx:254-284 | a known post status gets the same variant and label as the Badge's status rule |
| `TableCells.UserStatusUsesPostLabels` | packages/after/src/components/ui/table.tsx:194-216 | an active user is shown like a published post and every status but active and inactive like a rejected post |
| `TableCells.MissingValuePlaceholders` | packages/after/src/components/ui/table.tsx:217-287 | a falsy last-login shows "-", a missing view count "0", any number its formatted form |
| `TableCells.CategoryPillShowsValue` | packages/after/src/components/ui/table.tsx:238-253 | the category pill shows the value; only development, design and accessibility get their own colour |
| `TableCells.OtherColumnsRaw` | packages/after/src/components/ui/table.tsx:329-334 | a column without domain rendering shows its raw value |
| `TableComponent.Table.constructor` | packages/after/src/components/ui/table.tsx:101-105 | the initial state is the data prop, page 1, an empty search, no sort column, ascending |
| `TableComponent.Table.Shown` | packages/after/src/components/ui/table.tsx:144-147 | the rows shown are the current page of the filtered rows: at most pageSize of them, and none beyond the last page |
| `TableComponent.Table.Arrow` | packages/after/src/components/ui/table.tsx:362-364 | a header shows the sort direction exactly on the sort column of a sortable table |
| `TableComponent.Table.HandleSort` | packages/after/src/components/ui/table.tsx:111-133 | on an unsortable table nothing changes; otherwise the indicator moves by the toggle rule and the current rows are re-sorted by the column in the new direction; page and search stay |
| `TableComponent.Table.SetSearchTerm` | packages/after/src/components/ui/table.tsx:345 | only the search term changes; the page is kept |
| `TableComponent.Table.ReceiveData` | packages/after/src/components/ui/table.tsx:107-109 | a new data prop replaces the rows; page, search and sort indicator stay |
| `TableComponent.Table.ClickPrev` | packages/after/src/components/ui/table.tsx:386-394 | with the pager shown the page becomes max(1, p-1); otherwise nothing changes |
| `TableComponent.Table.ClickNext` | packages/after/src/components/ui/table.tsx:398-404 | with the pager shown the page becomes min(totalPages, p+1); otherwise nothing changes |
| `TableComponent.NextKeepsPageInRange` | packages/after/src/components/ui/table.tsx:401-402 | from an existing page, next keeps the table on an existing page |
| `TableComponent.PrevKeepsPageInRange` | packages/after/src/components/ui/table.tsx:391-392 | from an existing page, previous keeps the table on an existing page |

## Left out

- Rendering: JSX structure, the class strings built with `cva`, and the `cn` helper are left out. They are styling, and `cn` lives in a utility package that is not part of this model.
- Callbacks: `onRowClick`, `onEdit`, `onDelete`, `onPublish`, `onArchive`, `onRestore` and the dialog's `onClose` are out of scope. They call back into the page, so the model records only which handler a button names.
- Other page code: the entity-management hook (service calls, `confirm`, microtasks), the dark-mode hook and toggle, and the presentational components (alert, header, input, select, textarea, helper text, label) are out of scope.
- Numbers: they are whole numbers. The comparator's `aVal - bVal` and the sum of `views` work on JavaScript floating point; fractions, NaN and infinities are not modelled.
- `Js.CompareStrings`: `localeCompare` is modelled as lexicographic order on character codes, not the locale's collation.
- `Js.Lower`: lower-cases ASCII letters only, not the full Unicode case mapping.
- `TableSort.SortRowsSorted`: sortedness is proved only for a column whose values are all numbers or all non-numbers. With a mixed column the comparator is not a consistent order (`TableSort.MixedColumnNotTransitive`). The JavaScript engine's result then depends on its sort algorithm, and the model commits to a stable insertion sort.
- `TableCells.MissingValuePlaceholders`: the locale formatting of `toLocaleString` is not modelled. The cell records the value to be formatted.
- `TableView.PageRows`: assumes a positive page size. A page size of 0 or below makes the page count infinite or negative in JavaScript.
- Column `render` functions and per-column `sortable` flags are not modelled: the table never reads them.
- Element children: React elements, arrays and other children are modelled as one opaque truthy element.
- Absent string props: an absent prop (title, status, role, priority, payment status) is modelled as the empty string, which JavaScript treats the same as `undefined` in every test the components make.
- Prop changes: the props other than `data` are fixed for the life of a `Table`.
- Dialog re-renders: only `isOpen` is tracked. React's development-mode double run of effects is not modelled.
- `Badge.RenderedVariant`: an unset variant is one case, rendered with the default "primary". The typed prop cannot be `null`, so the model does not separate `null`, for which no variant class is rendered, from `undefined`.
- `TableData.ToJsString`: every object is stringified as a plain object, "[object Object]". Arrays ("1,2") and dates (their date text) stringify otherwise; the users and posts the page passes hold neither.
- Dialog size: the size variant only picks a width class, so it is not modelled.
- The Dialog's exported helper components (`DialogHeader`, `DialogTitle`, `DialogClose`, `DialogBody`, `DialogFooter`) only wrap their children in styled elements.
