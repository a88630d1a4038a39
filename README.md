# Portfolio catalogue and admin editor — a verified Dafny model

The application is a portfolio showcase. A public catalogue lists the
studio's projects. Each project has a title, a client, a `YYYY-MM` date, tag
ids, a main image and a gallery. A detail page shows one project. An admin
dashboard creates, edits and filters projects and tags. This project models
the logic of the three views in Dafny and proves what that logic promises.

- **Public catalogue** (`ProjectList`): a case-insensitive search on title or
  client, AND "any selected industry tag", AND "any selected work-type tag",
  followed by a newest-first sort on the date string. The built-in sort is
  stable, so it is modelled by an insertion sort that keeps equal dates in
  input order (`DateOrder`). Toggling an id in a selection is `Selection`.
  The split of the tag list into industry and work-type tags is `Taxonomy`.
- **Admin list** (`AdminFilter`): the fetched projects are sorted once, when
  they are loaded. The tag filter then keeps that order and returns the
  loaded list itself when nothing is selected. The admin list is proved equal
  to the public list with an empty search term.
- **Admin editor** (`AdminEditor`):
  - `ProjectEditor` is a class holding the draft project, the ordered image
    list, the main image, the two drag positions and the open/closed flag.
    Its methods are the event handlers: start new, start edit, toggle a tag,
    append an uploaded image, drag start, drag enter, drop, remove an image,
    choose the main image, and save.
  - The save step is the pure function `SaveProject`. It validates the draft
    and splits the images into `imageUrl` and `gallery`.
  - `SaveTag` is the tag form's save step.
- **Month picker** (`MonthPicker`): the `YYYY-MM` value a month button
  produces, the year arrows and the button label.
- **Project detail** (`ProjectDetail`): `formatDate`, resolving the project's
  tag ids against all tags, the industry/work-type split, the order the images
  are shown in, and the loading / not-found / shown states.

`Sequences` and `Text` hold the generic pieces these views use:
`Array.prototype.filter`, the two `splice` shapes, `localeCompare` on
fixed-width dates, ASCII `toLowerCase`, `includes`, `padStart`, `split` and
`replace`. `Scenarios` proves results of the catalogue filter, the date sort
and the image editor on concrete data.

Strings are `seq<char>`. An optional or falsy field of a `Partial<Project>` is
an `Option`, and JavaScript's `x || d` on it is `StringOr`. The clock, random
ids and the fetched data are parameters.

Behaviour of the code the model keeps:
- The admin filter does not sort. It relies on the sort done at load time, and
  with no selection it returns the loaded list itself.
- `setMainImage` accepts any value. The model's `requires img in images`
  stands for the UI, which offers only images from the list.
- The record handed to `saveProject` from the admin form has no `videoUrl`,
  so the admin form never sets a video link.
- Images are read as data URLs and kept in the form until saving.
- Nothing checks that `date` has the `YYYY-MM` shape. `formatDate` is modelled
  on every string, including ones without `-`.

## Model

| member | source | states |
|---|---|---|
| Selection.Toggle | pages/Admin.tsx:122-131 | an absent id is appended at the end; a present id has every copy removed, the others keep their counts and order; membership afterwards is membership before XOR being the id |
| Selection.ToggleTwiceRestores | pages/ProjectList.tsx:35-45 | toggling an id that was not selected twice gives back exactly the original selection |
| Selection.StricterMatchesFewer | pages/ProjectList.tsx:55-61 | within one category, a project passing a stricter selection (more ids in a non-empty selection is weaker; a first selection in an empty category is stricter) passes the weaker one |
| Taxonomy.OfCategory | pages/Admin.tsx:118-119 | the tags of one category are exactly the tags of that category, as an order-preserving sublist |
| Taxonomy.PartitionIsExact | pages/ProjectList.tsx:32-33 | industry and work-type lists together hold every tag exactly as often as the tag list, and each tag is in exactly one of them |
| Text.LexTrichotomy | pages/ProjectList.tsx:64 | the date comparison is irreflexive and of two different strings exactly one sorts first |
| Text.LexTransitive | pages/ProjectList.tsx:64 | the date comparison is transitive |
| Text.ContainsIffOccurs | pages/ProjectList.tsx:52-53 | `includes` holds exactly when the part occurs at some position |
| Text.LowerIdempotent | pages/ProjectList.tsx:52-53 | lower-casing twice is lower-casing once |
| DateOrder.Insert | pages/ProjectList.tsx:64 | inserting keeps every element and adds the new one (multiset) |
| DateOrder.SortByDateDesc | pages/ProjectList.tsx:64 | the sort is a permutation of its input and dates never increase along it |
| DateOrder.InsertKeepsSorted | pages/ProjectList.tsx:64 | inserting into a newest-first list keeps it newest first |
| DateOrder.HeadIsNewest | pages/ProjectList.tsx:64 | the head of a newest-first list is at least as new as every element |
| DateOrder.InsertThenFilter | pages/ProjectList.tsx:64 | filtering after inserting into a sorted list is inserting into the filtered list (or not at all) |
| DateOrder.SortFilterCommute | pages/ProjectList.tsx:50-65 | sorting then filtering gives the same list as filtering then sorting |
| DateOrder.SortOfSorted | pages/ProjectList.tsx:64 | a list already newest first is left exactly as it is |
| DateOrder.SortIsStable | pages/ProjectList.tsx:64 | the projects of any one date come out in their input order |
| DateOrder.SortIdempotent | pages/Admin.tsx:113 | sorting a sorted list again changes nothing |
| ProjectList.Matching | pages/ProjectList.tsx:51-63 | the filter keeps each project passing all three tests exactly as often as it occurs, drops the rest, and keeps input order |
| ProjectList.FilteredProjects | pages/ProjectList.tsx:50-65 | every shown project passes search, industry and type tests; each passing project is shown as often as it occurs; dates never increase; projects of one date keep input order |
| ProjectList.SortIsStableForAllDates | pages/ProjectList.tsx:64 | stability, for every date at once |
| ProjectList.EmptyTermMatchesAll | pages/ProjectList.tsx:52-53 | the empty search term matches every project |
| ProjectList.NoCriteriaShowsAll | pages/ProjectList.tsx:50-65 | with no term and no selection every project is shown, only reordered newest first |
| ProjectList.SearchIgnoresCase | pages/ProjectList.tsx:52-53 | a term and its lower-cased form match the same projects |
| ProjectList.SearchHitHasPosition | pages/ProjectList.tsx:52-53 | a hit means the lower-cased term occurs at some position of the lower-cased title or client |
| ProjectList.StricterSelectionShowsFewer | pages/ProjectList.tsx:35-61 | adding ids to a non-empty selection or clearing a category never hides a project; a first selection in an empty category never shows a new one |
| ProjectList.FilterIsIdempotent | pages/ProjectList.tsx:50-65 | filtering the shown list again with the same criteria gives the same list |
| AdminFilter.LoadProjects | pages/Admin.tsx:106-116 | the loaded list is a permutation of the fetched one, newest first, with equal dates in fetched order |
| AdminFilter.AdminFilteredProjects | pages/Admin.tsx:132-151 | with both selections empty (as after clearing) the very same list; otherwise exactly the order-preserving sublist of projects passing both category tests |
| AdminFilter.AdminAgreesWithPublicList | pages/Admin.tsx:139-151 | on the loaded list the admin filter equals the public filter with an empty term, hence is newest first without sorting again |
| MonthPicker.MonthField | pages/Admin.tsx:31 | the padded month of index m is the two-digit rendering of m + 1 |
| MonthPicker.MonthValue | pages/Admin.tsx:30-32 | a picked value is the year, `-`, then the two-digit month m + 1 |
| MonthPicker.MonthValueIsYearMonth | pages/Admin.tsx:30-32 | for a four-digit year the value is a well-formed `YYYY-MM` whose month digits read m + 1 (01 to 12) |
| MonthPicker.MonthValueFields | pages/Admin.tsx:30-32 | for a four-digit year a picked value is the four year digits, `-`, then the two digits of m + 1 |
| MonthPicker.YearMonthDigitsLess | pages/Admin.tsx:30-32 | two `YYYY-MM` renderings compare as strings exactly as their (year, month) pairs compare |
| MonthPicker.YearMonthDigitsEqual | pages/Admin.tsx:30-32 | two `YYYY-MM` renderings are equal exactly when year and month are |
| MonthPicker.MonthValueOrder | pages/Admin.tsx:30-32 | for four-digit years, comparing two picked values as strings orders them by year then month, and equal values mean equal year and month |
| MonthPicker.YearArrowsMoveChronologically | pages/Admin.tsx:53-59 | for four-digit years, the same month one year back sorts earlier and one year on sorts later |
| MonthPicker.HighlightIsUnique | pages/Admin.tsx:62-69 | for one year at most one month button equals the current value |
| MonthPicker.PickerLabel | pages/Admin.tsx:47 | an empty value is labelled "Select Date" |
| MonthPicker.PickerLabelMatchesDetailDate | pages/Admin.tsx:47 | the picker label and the detail page's date format agree on every `Y-M` value |
| MonthPicker.PickedValueLabel | pages/Admin.tsx:47 | for a four-digit year, a picked value is labelled `YYYY. MM` |
| ProjectDetail.FormatDate | pages/ProjectDetail.tsx:37-42 | the empty date stays empty; any other starts with its first `-` field followed by `. ` |
| ProjectDetail.FormatDateOfFields | pages/ProjectDetail.tsx:38-42 | `Y-M` without further `-` is shown `Y. M` |
| ProjectDetail.FormatDateOfMoreFields | pages/ProjectDetail.tsx:38-42 | a date with further `-` fields, such as `YYYY-MM-DD`, is shown as its first field, `. `, then its second field only |
| ProjectDetail.FormatDateOfYearMonth | pages/ProjectDetail.tsx:37-42 | `YYYY-MM` is shown `YYYY. MM` |
| ProjectDetail.FormatDateWithoutSeparator | pages/ProjectDetail.tsx:40-41 | a non-empty date without `-` is shown with the month `undefined` |
| ProjectDetail.ResolveTags | pages/ProjectDetail.tsx:24 | the resolved tags are exactly the tags whose id the project lists, each as often as it occurs in all tags, in all-tags order; unknown ids are dropped |
| ProjectDetail.ResolvedTagsSplitExactly | pages/ProjectDetail.tsx:34-35 | each resolved tag is shown under exactly one heading and the two headings together hold all of them |
| ProjectDetail.DisplayImages | pages/ProjectDetail.tsx:129-143 | the page shows 1 + gallery images, the main image first, then the gallery in order |
| ProjectDetail.LoadDetail | pages/ProjectDetail.tsx:15-32 | no id keeps the page loading; a missing project shows not found; otherwise the fetched project with exactly `ResolveTags` of its tag ids |
| AdminEditor.LoadImages | pages/Admin.tsx:154-161 | the editor's images are the main image then the gallery, in order, with empty entries dropped and every non-empty entry kept as often as it occurs |
| AdminEditor.Reorder | pages/Admin.tsx:197-207 | a drop keeps length and multiset, puts the dragged image at the target and keeps all others in their relative order |
| AdminEditor.ReorderInPlace | pages/Admin.tsx:197-207 | dropping an image where it was picked up changes nothing |
| AdminEditor.ReorderUndo | pages/Admin.tsx:197-207 | dragging back from the target to the origin undoes a drag |
| AdminEditor.SaveProject | pages/Admin.tsx:224-249 | missing title or client is rejected first, then an empty image list; otherwise the main image is the chosen one or the first, the gallery is every other image in order and never holds it, and absent fields take their defaults |
| AdminEditor.SaveFromValidEditor | pages/Admin.tsx:224-249 | from a consistent editor a save yields a persistable project whose main image is the chosen one (or the first image); the detail page then shows that image followed by every other editor image in order: the same set of images as the editor, and exactly the editor's images with their counts when the main image occurs once among them |
| AdminEditor.EditorLoadsDisplayedImages | pages/Admin.tsx:154-161 | editing a stored project loads exactly the images its detail page shows, in the same order |
| AdminEditor.EditThenSaveUnchanged | pages/Admin.tsx:224-249 | saving an opened project unchanged gives it back, with `featured` made explicit and no `videoUrl` in the record |
| AdminEditor.SaveTag | pages/Admin.tsx:265-276 | no name means nothing is saved; otherwise the draft's id or a fresh one, and work type unless a category was chosen |
| AdminEditor.EditTagThenSaveUnchanged | pages/Admin.tsx:265-276 | saving an opened tag unchanged gives it back |
| AdminEditor.ProjectEditor.constructor | pages/Admin.tsx:92-100 | the editor starts closed, empty, consistent and with no drag positions |
| AdminEditor.ProjectEditor.StartNewProject | pages/Admin.tsx:163-170 | a new project opens with only today's date, no images and no main image |
| AdminEditor.ProjectEditor.StartEditProject | pages/Admin.tsx:154-161 | editing opens the project's fields, its non-empty images main first, and its main image |
| AdminEditor.ProjectEditor.ToggleProjectTag | pages/Admin.tsx:285-291 | the draft's tags (empty when absent) are toggled and nothing else changes |
| AdminEditor.ProjectEditor.AppendImage | pages/Admin.tsx:172-187 | an uploaded image goes to the end and becomes the main image only when the list was empty |
| AdminEditor.ProjectEditor.DragStart | pages/Admin.tsx:189-191 | records the dragged position, nothing else changes |
| AdminEditor.ProjectEditor.DragEnter | pages/Admin.tsx:193-195 | records the entered position, nothing else changes |
| AdminEditor.ProjectEditor.Drop | pages/Admin.tsx:197-207 | without both positions nothing changes; otherwise the images are reordered, both positions are cleared and the main image is kept |
| AdminEditor.ProjectEditor.RemoveImage | pages/Admin.tsx:209-218 | only position idx is removed; removing the main image's value makes the new first image (or empty) the main image |
| AdminEditor.ProjectEditor.SetMainImage | pages/Admin.tsx:220-222 | the chosen image becomes the main image, nothing else changes |
| AdminEditor.ProjectEditor.Save | pages/Admin.tsx:224-255 | the result is the save step on the current state; on success the project is persistable, the draft is cleared and the form closes; on a validation error nothing changes |
| Scenarios.IndustrySelectionScenario | pages/ProjectList.tsx:50-65 | Alpha (t1) and Beta (t2) with industry t1 selected show only Alpha |
| Scenarios.SearchScenario | pages/ProjectList.tsx:50-65 | the term "beta" shows only Beta |
| Scenarios.DateSortScenario | pages/ProjectList.tsx:64 | dates 2024-02, 2023-12, 2024-12 come out 2024-12, 2024-02, 2023-12 |

## Left out

- Data access: every `mockSupabase` call (fetching, saving, deleting, looking up by id) goes to a service that is not part of this model. Fetched data are parameters, and saving yields the record that would be sent.
- Authentication, routing, the login page, the layout, theming and PDF export are not part of this model.
- Asynchronous file reading: `FileReader` callbacks finish in any order; only the step one successfully finished upload performs (`AppendImage`) is modelled. A failed read also fires `onloadend` and appends `null`, which a `string` cannot hold; that case is not modelled.
- The clock and random ids: today's `YYYY-MM` and a fresh id are parameters of `StartNewProject`, `Save`, `SaveProject` and `SaveTag`.
- The picker's initial year comes from `new Date(value + '-01')`, which depends on the time zone. The displayed year is a parameter of `MonthValue`.
- Locale and Unicode: `localeCompare` is modelled as code-unit order and `toLowerCase` as ASCII folding. `toLowerCase` agrees with the browser on ASCII text, and `localeCompare` agrees with code-unit order on fixed-width `YYYY-MM` dates; other text is not modelled.
- The loading views of the catalogue and the admin page, the grid/full view toggle, dialogs (`alert`, `confirm`) and all JSX rendering are presentation.
- Deleting projects and tags is a single service call with no logic of its own.
- Video links are not modelled: their parsing is not in the files modelled, and the record the admin form saves never carries one.
- Filtering never mutates the project list. The model works on values, so this holds by construction and is not stated separately.
- AdminEditor.ProjectEditor.Drop: requires both recorded positions to be within the list. The positions come from the rendered list. A stale dragged position past the end is not modelled; the code would then splice `undefined` into the list. A stale target position past the end is not modelled either; the code would then append the dragged image at the end.
- AdminEditor.ProjectEditor.DragStart: requires the position to be within the list, as every rendered image's position is.
- AdminEditor.ProjectEditor.DragEnter: requires the position to be within the list, as every rendered image's position is.
- AdminEditor.ProjectEditor.AppendImage: requires a non-empty image, since a data URL is never empty; a failed read, which appends `null` (and makes it the main image of an empty list), is not modelled.
- AdminEditor.ProjectEditor.SetMainImage: requires the image to be in the list, since the UI offers only listed images.
- AdminEditor.ProjectEditor.RemoveImage: requires a position within the list, since it is called from a rendered image.
- MonthPicker.MonthValueIsYearMonth: stated for four-digit years only; other years give values that are not `YYYY-MM`.
- ProjectDetail.FormatDate: its own contract states only the empty case and the prefix. The exact output is given by `FormatDateOfFields` and `FormatDateOfYearMonth` (one `-`), `FormatDateOfMoreFields` (any number of `-`) and `FormatDateWithoutSeparator` (no `-`).
