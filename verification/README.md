# websiteCompiler core, modelled in Dafny

websiteCompiler builds a static multi-language website out of the `edit-me`
source tree. Its build engine is written in Rust. The engine finds every
file that must be rebuilt when a reusable component changes. It expands the
`<r-NAME key="value">` component tags of each page into the component's HTML
and adds the component's stylesheet and script links to the page head. It
rewrites `<root>/` into the relative path back to the site root and inlines
TypeScript snippets. It stages every source file into
`actual-website-do-not-edit`, and it writes one localised copy of each page
per language. The site's own scripts add a dot-notation category filter with
tri-state tube images and an item filter. They also read a tab-indented
category file and sort product items by price or date.

This project models those pieces as pure functions over strings, sets, maps
and sequences, and proves properties of them. The file system, the compilers
and the DOM become inputs.

| module (file) | models |
|---|---|
| `Wrappers` (wrappers.dfy) | `Option` and `Result` |
| `Text` (text.dfy) | substring search, `split`/`join`, `str::replace`, trimming, `filter` |
| `FsPath` (fs_path.dfy) | the Unix `Path` operations the engine uses: `join`/`push`, normal components, `file_name`, `extension`, `file_stem` |
| `Closure` (closure.dfy) | `get_all_files_that_need_recompiling` |
| `Expansion` (expansion.dfy) | `replace_html_component_placeholders` |
| `Assets` (assets.dfy) | `get_relative_path`, the `<root>/` rewrite and the TypeScript snippet inclusion |
| `Staging` (staging.dfy) | the priority list, the prioritised/non-prioritised split, output path mapping and file kinds |
| `Translation` (translation.dfy) | `<div>TEXT=KEY</div>` substitution, the three-level lookup, localised file naming |
| `WebText` (web_text.dfy) | the extension strip, `_getElementsImageName`, `isValidImagePath` |
| `FilterTiers` (filter_tiers.dfy) | children, descendants, ancestors, and the item rule shared by both category-filter scripts |
| `CategoryFilter` (category_filter.dfy) | the TypeScript category filter: state tables, descendant aggregation, `SELECTING_NONE` item test, header stack |
| `CategoryFilterJs` (category_filter_js.dfy) | the JavaScript category filter: the click cascade and the boolean item test |
| `Categories` (categories.dfy) | the category-file reader of the index page |
| `SortButton` (sort_button.dfy) | the sort button: stable sorts, the order getters, the flexbox order assignment |

## Model

| member | source | states |
|---|---|---|
| Text.ReplaceAllIsSplitJoin | src/components.rs:128 | replacing every copy of a pattern equals splitting at the pattern and joining with the replacement |
| Text.ReplaceAllNoMatch | src/components.rs:128 | text without a copy of the pattern comes back unchanged |
| Text.ReplaceAllConcat | src/components.rs:339 | replacement distributes over a concatenation when no match straddles the seam |
| Text.ReplaceKeepsOccurrence | src/components.rs:158 | a copy of another text that no copy of the pattern overlaps survives the replacement |
| Text.SplitJoin | actual-website-do-not-edit/shared/reusables/category-filter/category-filter.ts:939 | joining the parts of a split with the separator gives the text back |
| Text.Trim | edit-me/pages/index/index.ts:202 | the trimmed text is empty exactly when the text is all whitespace, and otherwise starts and ends with a non-space |
| FsPath.Push | src/components.rs:124 | pushing an absolute segment replaces the path; otherwise the result starts with the base, ends with the segment, and its normal components are the base's followed by the segment's |
| FsPath.FileName | src/main.rs:505-506 | the file name is the last normal component of the path, and there is none exactly when the path has no normal component or ends in `..`; it holds no `/` |
| FsPath.Extension | src/main.rs:343-345 | the extension, when present, is dot-free and follows the last dot of a file name that does not start with that dot |
| FsPath.FileStem | src/main.rs:505-506 | the stem exists exactly when a file name does; the name is stem + `.` + extension, or the stem itself without extension |
| FsPath.FileNameOfPush | src/main.rs:510-511 | pushing a plain name makes it the path's file name |
| FsPath.ExtensionOfDotted | src/main.rs:343-345 | a file name `name.ext` with non-empty name and dot-free ext has extension `ext` and stem `name` |
| Assets.RelativePath | src/components.rs:75-91 | `../` repeated max(0, n − 2) times for n normal components, so 3·max(0, n − 2) characters long |
| Assets.RelativePathOfJoin | src/components.rs:78-90 | for a path written as n normal components joined by `/`, the result is `../` repeated max(0, n − 2) times |
| Assets.RelativePathDeep | tests/components_test.rs:135-140 | `level1/level2/level3/level4/file.txt` climbs three levels |
| Assets.RelativePathMedium | tests/components_test.rs:143-148 | three components climb one level |
| Assets.RelativePathShallow | tests/components_test.rs:151-156 | two components climb none |
| Assets.RelativePathRootFile | tests/components_test.rs:159-164 | `README.md` climbs none |
| Assets.RelativePathTrailingSlash | tests/components_test.rs:167-173 | a trailing slash adds no component |
| Assets.RelativePathFour | tests/components_test.rs:167-173 | `a/b/c/d` climbs two levels, as the same path with a trailing slash does |
| Assets.PushEmptyKeepsDepth | src/components.rs:124-125 | joining an empty segment changes neither the components nor the relative path |
| Assets.RewriteRoot | src/components.rs:102-132 | a missing or binary file, or a text without the search text, is left alone; otherwise every `root/` becomes the relative path |
| Assets.RewriteRootReplacesEverywhere | src/components.rs:127-128 | every `root/` of the file is rewritten, not only the lines holding the search text, and none is left in the pieces |
| Assets.ApplySnippets | src/components.rs:148-159 | the inclusion fails exactly when a snippet path names an unreadable file; tags without a snippet file leave the text unchanged |
| Assets.IncludeSnippets | src/components.rs:136-163 | a missing file is skipped, an unreadable one is an error, a text without tags is unchanged |
| Assets.ApplySnippetsReplacesEveryCopy | src/components.rs:148-159 | a tag with a text snippet has every copy replaced: the text is split at the tag, no part holds it, and the parts are joined with the snippet text before the next tag |
| Assets.ApplySnippetsKeepsTag | src/components.rs:148-159 | a tag with no text snippet is still in the result, provided no name that is replaced holds an angle bracket |
| Assets.IncludeSnippetsKeepsTag | src/components.rs:136-163 | the same for a whole file: a successful inclusion leaves a text that still holds a tag without snippet |
| Assets.SpliceRebuildsTag | src/components.rs:142-159 | `<<r-n>>` with a snippet `r-n` ends as `<r-n>`: replacement can rebuild a tag it has just removed |
| Assets.SnippetTagsNotExpanded | src/components.rs:144-158 | a page `<r-x>` whose snippet holds `<r-y>` ends as `<r-y>` although `y` has a snippet: tags are collected once from the text as read |
| Assets.SingleTagContents | src/components.rs:142-146 | a text that is one tag `<r-n>` yields the single capture `n` |
| Closure.CloseIndex | src/components.rs:539 | the lazy `.*?` stops at the first `>` after the opener, and never across a line break |
| Closure.TagContents | src/components.rs:588-595 | every capture is free of `>` and line breaks and occurs in the page between `<r-` and `>`; a page without `<r-` has none |
| Closure.TagContentsOfTag | src/components.rs:588-595 | a text starting with a tag `<r-n>` yields `n` first, then the captures of the rest |
| Closure.TailTags | src/components.rs:588 | the same facts for the scan resumed one character later |
| Closure.FirstWord | src/components.rs:599 | the first word is empty exactly when the capture is all whitespace, and holds no whitespace |
| Closure.UsesFrontier | src/components.rs:588-624 | a file triggers exactly when one capture names a component whose body path is in the frontier |
| Closure.HtmlFiles | src/components.rs:557-558 | the walked files kept are exactly those whose extension is `html` |
| Closure.Visit | src/components.rs:566-624 | a file not yet in the set is added exactly when it triggers; it joins the frontier only if its path contains the components directory |
| Closure.Pass | src/components.rs:562-627 | a pass only grows the set and the frontier, only adds readable HTML files of the walk, and keeps the frontier equal to the set's component paths |
| Closure.PassShrinksUnadded | src/components.rs:644-646 | a pass that changes the size leaves fewer HTML files outside the set |
| Closure.Loop | src/components.rs:562-652 | the loop keeps the input and stops within (unadded HTML files + 1) passes, cycles included |
| Closure.Close | src/components.rs:520-663 | the result contains the input, and equals it when no input path contains the components directory |
| Closure.ClosePasses | src/components.rs:555-652 | no pass is made without a component in the input; otherwise at most (unadded HTML files + 1) |
| Closure.PassAddsNothing | src/components.rs:644-646 | after a pass that adds nothing, no HTML file outside the set triggers |
| Closure.LoopIsClosed | src/components.rs:562-652 | the loop's result is closed under the trigger rule |
| Closure.PassStaysWithin | src/components.rs:566-627 | a pass never leaves a closed superset of its set |
| Closure.VisitStaysWithin | src/components.rs:573-624 | one file never takes the set outside a closed superset |
| Closure.VisitKeepsFrontier | src/components.rs:615-621 | after a visit the frontier is still the set's component paths |
| Closure.LoopStaysWithin | src/components.rs:562-652 | the loop's result lies inside every closed superset of its start |
| Closure.CloseIsLeastClosed | src/components.rs:520-663 | the result contains the input, is closed, and lies inside every closed superset of the input |
| Closure.CloseIdempotent | src/components.rs:545-662 | running the resolver on its own output returns the same set |
| Closure.LoopAddsHtml | src/components.rs:557-615 | every path the loop adds is a readable HTML file of the walk |
| Closure.CloseAddsOnlyReadableHtml | src/components.rs:584-615 | non-HTML and unreadable files are never added |
| Expansion.TagFrom | src/components.rs:205 | the match is `<r-` + the longest name run + attribute text without `>` + `>`, and it sits at its start position |
| Expansion.FindTag | src/components.rs:212 | the leftmost tag at or after a position, or none anywhere after it |
| Expansion.FirstTag | src/components.rs:211-215 | no tag exactly when no position starts a match; otherwise the leftmost one |
| Expansion.NoOpenerNoTag | src/components.rs:211-215 | a text without `<r-` holds no tag |
| Expansion.MatchParam | src/components.rs:206 | a parameter match has a name key and a non-empty raw value, and fits in the text |
| Expansion.Unquote | src/components.rs:228-230 | quotes are removed exactly when the value starts and ends with the same quote |
| Expansion.ParseParams | src/components.rs:223-226 | every pair found has a name key |
| Expansion.ParseSkipsNonName | src/components.rs:206 | a character that cannot start a key is skipped by the scan |
| Expansion.MatchQuotedPair | src/components.rs:206 | `key="value"` matches with the quoted value as raw value |
| Expansion.RenderedPairParses | src/components.rs:223-232 | one written pair parses back to itself, then the scan goes on |
| Expansion.ParseRenderRoundTrip | src/components.rs:223-232 | parsing canonically written attribute text gives back the pairs written |
| Expansion.Merge | src/components.rs:223-233 | merging never removes a key and binds every key of the pairs |
| Expansion.MergeKeys | src/components.rs:232 | the merged table binds exactly the old keys and the pairs' keys |
| Expansion.MergeKeepsOthers | src/components.rs:232 | a key not among the pairs keeps its old value |
| Expansion.MergeLastWins | src/components.rs:232 | the last pair with a key decides its value |
| Expansion.TemplateDefersTag | src/components.rs:294-296 | a `@template:X` value becomes a tag the next step finds, with name X |
| Expansion.BareTagFound | src/components.rs:296 | a bare `<r-X>` is found at position 0 with name X and empty attributes |
| Expansion.Substitute | src/components.rs:288-308 | a body without `{` or with no bound key in the order is returned unchanged |
| Expansion.EnumerationExists | src/components.rs:288 | every parameter table has an iteration order that lists each key once |
| Expansion.FillStep | src/components.rs:306-307 | replacing `{k}` by its value after a one-pass fill equals the one-pass fill with `k` bound |
| Expansion.FillLeavesNoBound | src/components.rs:306-307 | after a one-pass fill no `{k}` of a bound key is left |
| Expansion.SubstituteFillsFrom | src/components.rs:288-308 | running the key loop on a partly filled body fills the keys of the order as well |
| Expansion.SubstituteIsFill | src/components.rs:288-308 | when the body opens no placeholder inside another and no value holds `{`, the loop in any order binding every key is the one-pass fill with each key's resolved value |
| Expansion.SubstituteLeavesNoBound | src/components.rs:288-308 | under the same conditions no `{key}` of a bound key is left |
| Expansion.SubstituteKeepsUnbound | src/components.rs:288-308 | a `{u}` whose key is not a parameter is never removed |
| Expansion.NestedOpenRebuildsPlaceholder | src/components.rs:306-307 | `{{a}}` with `a` bound to `a` becomes `{a}`: outside those conditions replacement can rebuild a placeholder |
| Expansion.HeadInserts | src/components.rs:315-333 | the stylesheet link comes first exactly when `.scss` exists and the page lacks it; the script link comes last exactly when `.ts` exists and the page lacks it |
| Expansion.InjectHead | src/components.rs:314-335 | without `</head>` the page is unchanged; otherwise the links go immediately before the first `</head>` |
| Expansion.Step | src/components.rs:218-339 | a step fails exactly when the component has a body file that is not UTF-8, naming that file; otherwise it never removes a parameter key |
| Expansion.StepMergesParameters | src/components.rs:222-233 | a step merges the tag's pairs into the table, last write wins, other keys unchanged, whether or not the component exists |
| Expansion.StepMissingDirectory | src/components.rs:239-266 | a missing component directory replaces every copy of the tag by the error comment and adds no head links |
| Expansion.StepPresentComponent | src/components.rs:268-339 | a present component injects the head links, then replaces every copy of the tag by the substituted body or the missing-body comment |
| Expansion.StepFillsBody | src/components.rs:268-339 | when the body and the values meet the fill conditions, the tag becomes the one-pass fill of the body with the merged parameters |
| Expansion.ExpandFrom | src/components.rs:211-340 | a finished expansion holds no tag; a text without a tag is returned as it is; running out of orders leaves a tag; a read failure names the unreadable body of a registered component |
| Expansion.Expand | src/components.rs:199-344 | the finished page holds no tag; a page without `<r-` is written back unchanged; with every body readable no read fails |
| Expansion.ExpandPage | src/components.rs:199-202 | a missing page is skipped, a page that is not UTF-8 is a read failure, and a readable page is expanded as above |
| Staging.Entries | src/main.rs:458-465 | the entries are trimmed lines that are neither blank nor `#` comments, no more than the lines |
| Staging.FirstInvalid | src/main.rs:466-472 | there is no invalid entry exactly when every entry is a known directory; otherwise the one named is an unknown entry |
| Staging.ValidateLines | src/main.rs:455-477 | the list fails at the first unknown entry and otherwise is the entries in file order |
| Staging.LoadComponentsList | src/main.rs:442-478 | a missing order file is an error naming it; otherwise the list succeeds exactly when every entry is a known directory, is then the entries in file order, and otherwise fails with the first unknown entry |
| Staging.DirectoryFiles | src/main.rs:160-174 | the files staged from one directory are in the rebuild set |
| Staging.PrioritisedFiles | src/main.rs:150-187 | every prioritised file is in the rebuild set |
| Staging.NonPrioritised | src/main.rs:274-289 | the result is the rebuild set members that were not compiled |
| Staging.PrioritySplitPartitions | src/main.rs:186-191 | prioritised files are a subset of the rebuild set, disjoint from the rest, and together they are the rebuild set |
| Staging.StripSourceDirectory | src/main.rs:314 | stripping succeeds exactly for `edit-me` and paths under `edit-me/`, and leaves a relative suffix of the path |
| Staging.FindPages | src/main.rs:319 | the leftmost `pages/SEGMENT/` match at or after a position, or none |
| Staging.RemovePagesSegment | src/main.rs:319 | the first page-folder match is cut out, so the path never grows |
| Staging.NoPageFolderUnchanged | src/main.rs:319 | a path without a page folder is unchanged |
| Staging.PageFolderRemoved | src/main.rs:316-319 | `pages/P/rest` loses exactly `pages/P/` |
| Staging.SwapTypeScript | src/main.rs:325-327 | a trailing `.ts` becomes `.js` |
| Staging.SwapStylesheet | src/main.rs:328-330 | a trailing `.scss` becomes `.css` |
| Staging.SwapOther | src/main.rs:331-333 | other names keep their extension |
| Staging.MapPath | src/main.rs:310-340 | mapping fails exactly when the path is not under `edit-me`; the kind is decided by the uncompiled copy's extension |
| Staging.StripUnderSource | src/main.rs:314 | `edit-me/rest` strips to `rest` |
| Staging.TypeScriptStaging | src/main.rs:323-344 | `NAME.ts` is compiled to `NAME.js` and is a TypeScript file |
| Staging.PageSourceMaps | src/main.rs:312-340 | a file inside a page folder is staged directly under the output directory |
| Staging.MapPathOf | src/main.rs:312-340 | the staged paths are the output directory joined with the swapped and the unswapped relative path |
| Staging.NameExtension | src/main.rs:343-346 | a pushed `name.ext` has extension `ext` |
| Staging.CompileLists | src/main.rs:296-409 | path mapping fails exactly when a non-blank path is outside `edit-me`; at most one list entry per path |
| Staging.CompileListsMembers | src/main.rs:342-347 | a path is in the TypeScript (stylesheet) list exactly when some staged `.ts` (`.scss`) file maps to it |
| Translation.SplitOnce | src/main.rs:606 | no split exactly when the character is absent; otherwise head + character + tail, with a head free of the character |
| Translation.SplitOnceUnique | src/main.rs:606 | the split at the first occurrence is the only one with a character-free head |
| Translation.Lookup | src/main.rs:633-642 | a translation exists exactly when the language, page and variable all exist, and it is that entry |
| Translation.Replacement | src/main.rs:604-617 | a key without a dot leaves the placeholder as it is |
| Translation.ReplacementOfDotted | src/main.rs:606-613 | a dotted key becomes `<div>translation</div>` when found and `<div>KEY</div>` when not |
| Translation.LocalizeNoOpen | src/main.rs:600-618 | a page without `<div>TEXT=` is unchanged |
| Translation.Tokens | src/main.rs:603 | the scan loses nothing: writing its pieces back gives the page, and every placeholder key is a key |
| Translation.PlaceholderSplits | src/main.rs:600 | a placeholder match is `<div>TEXT=` + key + `</div>` + the rest |
| Translation.LocalizeIsRender | src/main.rs:603-618 | localising copies plain text and replaces each scanned placeholder; inserted text is not re-scanned |
| Translation.RenderWithoutDots | src/main.rs:614-617 | without dotted keys, rendering gives back the scanned text |
| Translation.LocalizeWithoutDots | src/main.rs:614-617 | a page whose placeholders all have dot-free keys is unchanged |
| Translation.LocalizePlaceholderThen | src/main.rs:603-618 | a placeholder at the front is replaced and the scan continues after it |
| Translation.LocalizeSinglePlaceholder | src/main.rs:606-613 | a lone `<div>TEXT=PAGE.NAME</div>` becomes the translation or `<div>PAGE.NAME</div>` |
| Translation.LocalizedFiles | src/main.rs:503-520 | one copy per language, named `<lang>-<stem>.html` in the output directory; none when the stem or text is missing or there are no languages |
| Translation.LocalizedNameInOutputRoot | src/main.rs:510-511 | each copy lies directly in the output directory under its localised name |
| WebText.StripExtension | actual-website-do-not-edit/shared/reusables/category-filter/category-filter.ts:893 | either unchanged, or the text is result + `.` + an extension free of `.` and `/` |
| WebText.StripExtensionOf | actual-website-do-not-edit/shared/reusables/category-filter/category-filter.ts:893 | stripping undoes appending an extension |
| WebText.StripExtensionNone | actual-website-do-not-edit/shared/reusables/category-filter/category-filter.ts:893 | a name without a qualifying trailing extension is unchanged |
| WebText.LastSegment | actual-website-do-not-edit/shared/reusables/category-filter/category-filter.ts:887 | the result has no `/` and ends the path |
| WebText.ImageName | actual-website-do-not-edit/shared/reusables/category-filter/category-filter.ts:860-896 | a name exists exactly when a `src` exists with a non-empty last segment, and it is that segment without its extension |
| WebText.ValidImagePathIsExtension | actual-website-do-not-edit/shared/reusables/category-filter/category-filter.ts:898-904 | a path is valid exactly when it is a string ending in `.` and a listed extension, case-sensitively |
| FilterTiers.Children | actual-website-do-not-edit/shared/reusables/category-filter/category-filter.ts:508-535 | a key is a child exactly when it is a table key that passes the child test |
| FilterTiers.Descendants | actual-website-do-not-edit/shared/reusables/category-filter/category-filter.ts:537-562 | a key is a descendant exactly when it is a table key that passes the descendant test |
| FilterTiers.ChildrenOfAll | actual-website-do-not-edit/shared/reusables/category-filter/category-filter.ts:518-522 | the children of `all` are exactly the dot-free keys other than `all` |
| FilterTiers.ChildrenBelow | actual-website-do-not-edit/shared/reusables/category-filter/category-filter.ts:523-531 | below any other p the children are exactly the keys `p.` + one dot-free segment |
| FilterTiers.ChildrenAreDescendants | actual-website-do-not-edit/shared/reusables/category-filter/category-filter.ts:508-562 | every child is a descendant |
| FilterTiers.DescendantsOfAll | actual-website-do-not-edit/shared/reusables/category-filter/category-filter.ts:550-554 | the descendants of `all` are every key but `all` |
| FilterTiers.DescendantTransitive | actual-website-do-not-edit/shared/reusables/category-filter/category-filter.ts:555-559 | a descendant of a descendant is a descendant |
| FilterTiers.Prefixes | actual-website-do-not-edit/shared/reusables/category-filter/category-filter.js:278-282 | the j-th prefix is the dot-join of the first i + j parts |
| FilterTiers.JoinDotCount | actual-website-do-not-edit/shared/reusables/category-filter/category-filter.js:275-279 | dot-free parts joined with dots have one dot fewer than parts |
| FilterTiers.AncestorsSpec | actual-website-do-not-edit/shared/reusables/category-filter/category-filter.js:262-284 | there is one ancestor per dot; the i-th is the prefix before the (i+1)-th dot, followed by `.` in the name |
| FilterTiers.AncestorsShortestFirst | actual-website-do-not-edit/shared/reusables/category-filter/category-filter.js:278-282 | ancestors come shortest first |
| FilterTiers.RevealItem | actual-website-do-not-edit/shared/reusables/category-filter/category-filter.ts:935-958 | the nested loops with their early break reveal exactly the items every group of which has a shown tag |
| FilterTiers.FilterItems | actual-website-do-not-edit/shared/reusables/category-filter/category-filter.ts:911-965 | every item is first hidden; it ends displayed exactly when it has tags and every group passes, and `none` otherwise |
| FilterTiers.FilterItemsMonotone | actual-website-do-not-edit/shared/reusables/category-filter/category-filter.ts:944-962 | showing more tags never hides a displayed item |
| FilterTiers.RevealedEdges | actual-website-do-not-edit/shared/reusables/category-filter/category-filter.ts:925-963 | an item without a tag list stays hidden; one with an empty list is shown |
| FilterTiers.RevealedMonotone | actual-website-do-not-edit/shared/reusables/category-filter/category-filter.ts:936-958 | more shown tags never hide a revealed item |
| CategoryFilter.ImagesDistinct | actual-website-do-not-edit/shared/reusables/category-filter/category-filter.ts:116-119 | the three tube images are distinct |
| CategoryFilter.StatesDistinct | actual-website-do-not-edit/shared/reusables/category-filter/category-filter.ts:122-125 | the three states are distinct |
| CategoryFilter.StateTablesInverse | actual-website-do-not-edit/shared/reusables/category-filter/category-filter.ts:116-126 | `imagesToState` and `stateToImages` are mutual inverses on the three images and states |
| CategoryFilter.ClickCycle | actual-website-do-not-edit/shared/reusables/category-filter/category-filter.ts:110-114 | a click sends full and half to empty, and empty to full |
| CategoryFilter.AggregateIgnoresOrder | actual-website-do-not-edit/shared/reusables/category-filter/category-filter.ts:462-505 | the aggregate image depends only on which states occur, not their order |
| CategoryFilter.DescendantImage | actual-website-do-not-edit/shared/reusables/category-filter/category-filter.ts:449-505 | the counting loop with early exits gives `same` without descendants, half on a partial or a mix, full when all are all, else empty |
| CategoryFilter.TsShownTest | actual-website-do-not-edit/shared/reusables/category-filter/category-filter.ts:947 | a tag is shown unless its state is `SELECTING_NONE`; tags missing from the table are shown |
| CategoryFilter.TsGroupRule | actual-website-do-not-edit/shared/reusables/category-filter/category-filter.ts:939-952 | a group passes exactly when one of its `::` tags is unknown or not `SELECTING_NONE` |
| CategoryFilter.PopThrough | actual-website-do-not-edit/shared/reusables/category-filter/category-filter.ts:691-699 | the pop loop cuts the stack before the last occurrence of the header, or empties it |
| CategoryFilter.ReturnToParent | actual-website-do-not-edit/shared/reusables/category-filter/category-filter.ts:684-703 | an absent header leaves the stack unchanged; otherwise the stack ends at the last occurrence of the header |
| CategoryFilter.ReturnToTop | actual-website-do-not-edit/shared/reusables/category-filter/category-filter.ts:691-696 | returning to the top header leaves the stack as it is |
| CategoryFilterJs.AssignElsewhere | actual-website-do-not-edit/shared/reusables/category-filter/category-filter.js:186-191 | names not written keep their entry and their look |
| CategoryFilterJs.AssignAt | actual-website-do-not-edit/shared/reusables/category-filter/category-filter.js:186-191 | written names get the value and the look |
| CategoryFilterJs.AssignTwice | actual-website-do-not-edit/shared/reusables/category-filter/category-filter.js:212-220 | two writes of the same value and look are one write of the union |
| CategoryFilterJs.ImageReturnMisreports | actual-website-do-not-edit/shared/reusables/category-filter/category-filter.js:132-158 | the value returned never equals the new look; undefined gives the selected look and returns undefined |
| CategoryFilterJs.NotOwnDescendant | actual-website-do-not-edit/shared/reusables/category-filter/category-filter.js:256-258 | no filter is its own descendant, so the cascade's recursion terminates |
| CategoryFilterJs.RankDecreases | actual-website-do-not-edit/shared/reusables/category-filter/category-filter.js:212-216 | a descendant has fewer keys below it than its ancestor |
| CategoryFilterJs.TouchedMembers | actual-website-do-not-edit/shared/reusables/category-filter/category-filter.js:212-231 | a loop writes exactly the names it finds tiles for, and their descendants when passed undefined |
| CategoryFilterJs.TouchedDescendants | actual-website-do-not-edit/shared/reusables/category-filter/category-filter.js:210-220 | the descendant loop writes exactly the found descendants |
| CategoryFilterJs.TouchedAncestors | actual-website-do-not-edit/shared/reusables/category-filter/category-filter.js:221-232 | the ancestor loop with a boolean writes exactly the found ancestors |
| CategoryFilterJs.HandleSpec | actual-website-do-not-edit/shared/reusables/category-filter/category-filter.js:94-131 | the handler writes the argument and the look the image update gives into the tile, and into its found descendants when the argument is undefined |
| CategoryFilterJs.CascadeSpec | actual-website-do-not-edit/shared/reusables/category-filter/category-filter.js:192-232 | the cascade writes its argument into every found descendant, and into every found ancestor when it is truthy |
| CategoryFilterJs.DescendantLoopSpec | actual-website-do-not-edit/shared/reusables/category-filter/category-filter.js:210-220 | the descendant loop is one write over the found descendants |
| CategoryFilterJs.AncestorLoopSpec | actual-website-do-not-edit/shared/reusables/category-filter/category-filter.js:221-232 | the ancestor loop with `true` is one write over the found ancestors |
| CategoryFilterJs.HandleEachSpec | actual-website-do-not-edit/shared/reusables/category-filter/category-filter.js:212-231 | a handler loop equals one write over the names it touches |
| CategoryFilterJs.ClickSpec | actual-website-do-not-edit/shared/reusables/category-filter/category-filter.js:126-131 | a click writes `undefined` and the selected look into the tile and every found descendant |
| CategoryFilterJs.BooleanHandleSpec | actual-website-do-not-edit/shared/reusables/category-filter/category-filter.js:126-130 | a call with a boolean touches only that tile and does not cascade |
| CategoryFilterJs.AncestorNotBelow | actual-website-do-not-edit/shared/reusables/category-filter/category-filter.js:262-284 | an ancestor is neither the filter nor one of its descendants |
| CategoryFilterJs.ClickSkipsAncestors | actual-website-do-not-edit/shared/reusables/category-filter/category-filter.js:144-158 | after a click every ancestor keeps its entry and its look |
| CategoryFilterJs.ClickNeverDeselects | actual-website-do-not-edit/shared/reusables/category-filter/category-filter.js:144-158 | a click always leaves the clicked tile selected, with entry `undefined` |
| CategoryFilterJs.HandleEachIntendedSpec | actual-website-do-not-edit/shared/reusables/category-filter/category-filter.js:212-231 | in the corrected handler a loop is one write of the new state over the found names and their found descendants |
| CategoryFilterJs.IntendedClickSpec | actual-website-do-not-edit/shared/reusables/category-filter/category-filter.js:94-131 | corrected: the tile toggles, the table records the new state in it and its found descendants, and in its found ancestors when the tile became selected |
| CategoryFilterJs.IntendedClickSelectsAncestors | actual-website-do-not-edit/shared/reusables/category-filter/category-filter.js:116-122 | corrected: selecting a tile selects every found ancestor |
| CategoryFilterJs.IntendedClickDeselects | actual-website-do-not-edit/shared/reusables/category-filter/category-filter.js:132-158 | corrected: clicking a selected tile unselects it and records `false` |
| CategoryFilterJs.JsShownTest | actual-website-do-not-edit/shared/reusables/category-filter/category-filter.js:672 | a tag is shown unless its entry is exactly `false`; `undefined` and missing entries are shown |
| CategoryFilterJs.JsGroupRule | actual-website-do-not-edit/shared/reusables/category-filter/category-filter.js:666-677 | a group passes exactly when one of its tags is not `false` |
| CategoryFilterJs.ClickShowsTag | actual-website-do-not-edit/shared/reusables/category-filter/category-filter.js:186-191 | after a click the clicked filter and its found descendants pass the item test |
| Categories.ConfigLines | edit-me/pages/index/index.ts:194-204 | the lines kept are exactly the trimmed lines of the text that are non-empty and not `#` comments, and none starts with whitespace |
| Categories.ConfigLinesJoin | edit-me/pages/index/index.ts:194-204 | the lines of two texts joined by a line break are the first text's lines followed by the second's |
| Categories.ConfigLinesOfLine | edit-me/pages/index/index.ts:194-204 | a text without a line break gives its trimmed self when that is non-empty and not a comment, and nothing otherwise |
| Categories.CountLeadingTabs | edit-me/pages/index/index.ts:182-192 | the count is the length of the leading run of tabs |
| Categories.CountIndent | edit-me/pages/index/index.ts:190-191 | n tabs before a line not starting with a tab count n |
| Categories.CountLeadingTabsExamples | edit-me/pages/index/index.ts:186-188 | the three documented examples give 2, 0 and 3 |
| Categories.TrimmedHasNoTier | edit-me/pages/index/index.ts:200-203 | a trimmed line has no leading tab |
| Categories.TierIsValid | edit-me/pages/index/index.ts:206-232 | a tier is valid exactly when it is 0 or within one of the previous tier |
| Categories.ProcessLine | edit-me/pages/index/index.ts:150-175 | an invalid tier is an error carrying the line, its number and both tiers; otherwise the line number advances and the map is unchanged |
| Categories.ProcessLinesSpec | edit-me/pages/index/index.ts:107-119 | the loop throws exactly at the first line with two or more tabs, reporting its position; otherwise the map is unchanged |
| Categories.GetCategoriesEmpty | edit-me/pages/index/index.ts:107-119 | on the lines of any file the reader never throws and returns the empty map |
| SortButton.Insert | actual-website-do-not-edit/shared/reusables/sort-button/sort-button.ts:87-97 | inserting adds exactly the item and keeps a sorted sequence sorted |
| SortButton.SortByKey | actual-website-do-not-edit/shared/reusables/sort-button/sort-button.ts:80-101 | the result is a permutation of the input, sorted by the key |
| SortButton.InsertStable | actual-website-do-not-edit/shared/reusables/sort-button/sort-button.ts:87-97 | inserting keeps the items of each key in the order they came |
| SortButton.SortStable | actual-website-do-not-edit/shared/reusables/sort-button/sort-button.ts:80-101 | the sort is stable: the items with any key keep their input order |
| SortButton.SortItemsByPrice | actual-website-do-not-edit/shared/reusables/sort-button/sort-button.ts:80-101 | a permutation of the items, cheapest first ascending and dearest first descending |
| SortButton.SortItemsByDate | actual-website-do-not-edit/shared/reusables/sort-button/sort-button.ts:104-130 | a permutation of the items, oldest first ascending and newest first descending |
| SortButton.EqualPricesKeepOrder | actual-website-do-not-edit/shared/reusables/sort-button/sort-button.ts:87-97 | items of equal price keep their page order in both directions |
| SortButton.EqualDatesKeepOrder | actual-website-do-not-edit/shared/reusables/sort-button/sort-button.ts:111-126 | items of equal date keep their page order in both directions |
| SortButton.DesiredOrdersListTexts | actual-website-do-not-edit/shared/reusables/sort-button/sort-button.ts:26-75 | each of the four getters lists exactly the page's texts |
| SortButton.TextsOfPermutation | actual-website-do-not-edit/shared/reusables/sort-button/sort-button.ts:31 | permuted items carry the same texts |
| SortButton.IndexIn | actual-website-do-not-edit/shared/reusables/sort-button/sort-button.ts:209 | -1 exactly when absent; otherwise the first position of the name |
| SortButton.OrderOf | actual-website-do-not-edit/shared/reusables/sort-button/sort-button.ts:206-219 | an item's order is the position of its stripped name, or 99 when that name is absent |
| SortButton.OrderLoop | actual-website-do-not-edit/shared/reusables/sort-button/sort-button.ts:203-222 | every item gets an order exactly when all have `data-text`; otherwise the loop throws at the first item without one, after ordering those before it |
| SortButton.ReorderItems | actual-website-do-not-edit/shared/reusables/sort-button/sort-button.ts:173-224 | nothing happens without items or without the container; otherwise the loop runs |
| SortButton.DesiredOrderTexts | actual-website-do-not-edit/shared/reusables/sort-button/sort-button.ts:26-36 | a name in the desired order is the text of some item |
| SortButton.TextInDesiredOrder | actual-website-do-not-edit/shared/reusables/sort-button/sort-button.ts:26-36 | every item's text is in the desired order |
| SortButton.DotFreeNamesUnsorted | actual-website-do-not-edit/shared/reusables/sort-button/sort-button.ts:206-216 | names without a dot are never found in a desired order whose texts all hold a dot, so they all get 99 |
| SortButton.StrippedNamesNeverMatch | actual-website-do-not-edit/shared/reusables/sort-button/sort-button.ts:277-284 | as written: when every `data-text` is a dot-free stem with an extension, every item gets order 99 |
| SortButton.StrippedNames | actual-website-do-not-edit/shared/reusables/sort-button/sort-button.ts:227-240 | corrected desired order: each text with its extension stripped, as the lookup does |
| SortButton.ListedNamesFound | actual-website-do-not-edit/shared/reusables/sort-button/sort-button.ts:206-219 | names present in the desired order get their first position there |
| SortButton.IntendedOrdersFound | actual-website-do-not-edit/shared/reusables/sort-button/sort-button.ts:277-284 | corrected: with stripped names in the desired order, every item is ordered by its position and none gets 99 |

## Left out

- File I/O, directory walks, the modification-time scan, the last-compile-time file and the console diagnostics are not modelled. The tree, the file states and the directory listings are inputs.
- The SCSS and TypeScript compiler calls and the check that the commands exist are not modelled. They are foreign processes.
- Loading the translation JSON (serde) is not modelled. The translation table is an input.
- The GitHub Pages path rewrite regex and the unused `param_component_regex` (src/components.rs:207) are not modelled. Neither affects the modelled outputs.
- `HashMap` and `HashSet` iteration order are not modelled: the parameter key order of each expansion step and the language order are inputs.
- Expansion.Expand: the real loop does not terminate when a body reproduces its own tag. The model takes one key order per step as fuel and returns `DepthExceeded` when it runs out. Properties are proved per step and for the exit condition only.
- Expansion.Substitute: its own contract states only the identity cases. `SubstituteIsFill` gives the result for bodies that open no placeholder inside another and values free of `{`. Outside those conditions the result depends on the `HashMap` order, so no order-free result is promised (`NestedOpenRebuildsPlaceholder`).
- Expansion.HeadInserts: idempotence of head injection across steps is not stated. Only the "skip a link already present" test of each single step is.
- Write failures (`fs::write` errors) are not modelled. A write is assumed to succeed.
- Staging.CompileLists: the only error it states is the path mapping. A failed `fs::copy` (src/main.rs:363) is I/O and is not modelled. The non-UTF-8 reads of the snippet and page steps (src/components.rs:141, 157, 202, 270) are errors of `Assets.IncludeSnippets` and `Expansion.ExpandPage`, and are not folded into this result.
- Staging.LoadComponentsList: an order file that exists but is not UTF-8 (`read_to_string` at src/main.rs:456) is not distinguished; the file's text is an input.
- Assets.RewriteRoot: the test at tests/components_test.rs:190 computes its expectation with `join("dummy")`, one component more than the code's `join("")`. The model follows the code (`PushEmptyKeepsDepth`), which yields one `../` fewer.
- WebText.StripExtensionNone: stated under the precondition that no split of the name has a qualifying extension, not as an if-and-only-if.
- SortButton.DesiredOrdersListTexts: states membership (same set of texts), not that each getter's list is a permutation of the texts; the multiset form was not proved.
- Prices are parsed with `parseFloat` and dates with `parseInt` in the source. The model takes them as integers already parsed. NaN values and fractional prices are not modelled.
- The item-name lookup `allItems[null]` coerces a missing image name to the key `"null"`. The model treats a missing name as having no tag list.
- Paired filter tiles (`_getPairedTileOrNone`), `_applyAutomaticFilterIfNeeded` and `_findFilterElementByName` are not modelled as DOM code. Which filters have a tile is the input set `present`.
- The header-bar rendering, the visible-tile updates and the sort overlay open and close handlers are not modelled. They only change the DOM.
- `_processLineForCategory` never inserts into the category map (the insertion is unwritten in the source). The model returns the map unchanged and does not model the promised map of maps.
- The exact text of the error messages is not modelled. Errors carry their data (line, numbers, tiers, names).
- The duplicate copies of the sort button (sort-button.js, edit-me's sort-button.ts) and the compiled index.js are not modelled separately. They repeat the modelled logic.

## Findings

| source | as written | input that shows it | evidently intended | confidence | as-written member | corrected member |
|---|---|---|---|---|---|---|
| actual-website-do-not-edit/shared/reusables/category-filter/category-filter.js:144-158 | the `const isSelectedState` inside the `if` shadows the parameter, so a click tests `!undefined` and always selects the tile. It returns `undefined`, stores `undefined` and never reaches the ancestors | a click on a tile that is already selected, or on a tile with an ancestor tile | the tile toggles, the new state is stored and returned, and selecting a tile selects its ancestors (lines 116-122, 137) | medium, not executed | CategoryFilterJs.ClickNeverDeselects | CategoryFilterJs.IntendedClickSpec |
| actual-website-do-not-edit/shared/reusables/sort-button/sort-button.ts:206-209 | the desired order holds the raw `data-text` values, but each item is looked up by its text with the extension stripped, so no name matches and every item gets order 99 | any page whose items have `data-text` such as `boot.png` | each item gets its position in the sorted order | medium, not executed | SortButton.StrippedNamesNeverMatch | SortButton.IntendedOrdersFound |
