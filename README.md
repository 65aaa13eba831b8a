# mapwisefox core, modelled in Dafny

mapwisefox is a toolkit for systematic literature mapping studies. This project models the
parts of it that are self-contained logic, and proves properties about them. There are four
groups.

**PDF text and layout reconstruction.** This covers the following:
- page geometry (`Rect` values with union, intersection, inclusion, scaling and vertical
  normalisation);
- the text-run extractor, which estimates each run's box from the text and user matrices
  and the font's `/FirstChar` and `/Widths` (ISO 32000-1 sections 8.3.4 and 9.6.2) and
  drops runs in the header and footer bands;
- the layout extractor's greedy overlap merge, an imperative queue scan that restarts
  after every merge;
- the file extractor, which scales boxes from pixels to points, assigns title/list/text
  roles, renders them and joins hyphenated fragments;
- the older line-heuristic extractor, with its flow bounds, prose and section-header
  classifiers and repeated-header filter;
- the extraction error's message.

Some layout operations are not defined in the layout types this model covers: the overlap
ratio, the union of two layout boxes, `ensure_type` and box scaling. They are parameters
(`LayoutExtraction.LayoutOps`), and nothing is assumed about them. The square root used for
the effective font size is a parameter as well. Python floats are taken as exact reals.

**Search queries.** This covers the following:
- the expression tree and the fluent `QueryBuilder`;
- the visitor walk and the adapters' stack of group buffers;
- the tree-rebuilding adapter with its key filtering and factoring;
- the flat-output adapters for Scopus and IEEE Xplore;
- the tree-based emitters for Web of Science, ACM, ScienceDirect and Springer.

Each serialiser is a function from the tree to a string or `None`. The adapters whose
methods update a stack are classes.

**The screening web app.** This covers the following:
- `any_to_bool`;
- the `Evidence` validator, with its `;`-list parsing and serialisation;
- the repository's id navigation and row update;
- the back end's `EvidenceController`, with selection clamping, navigation and status
  toggling;
- the view model's coercion;
- the older app's validator and controller, with its neighbour ids, navigation decision
  and exclude-reason toggling.

Date parsing through `arrow` is the `external` parameter of `EvidenceModel.ParseDate`.
`urlencode` is the `encode` parameter of the view model's link filling.

**Small helpers.** This covers the following:
- the quality-assessment evaluator assignment and its two asserted invariants;
- the deduplicator's record cleaning, cluster map and cluster merge;
- the snowballing command's reference multimaps, snowball set differences and
  paper-detail clean-up.

Python exceptions are modelled as `Err` values of `Wrappers.Result`, carrying the exception
class. The source lines below are relative to the repository root.

## Model

| member | source | states |
|---|---|---|
| Geometry.Round4 | assistant/src/mapwisefox/assistant/tools/pdf/_types.py:75 | `round(v, 4)` on an exact value lies within half a unit of the fourth decimal of `v` |
| Geometry.Round4UnitInterval | assistant/src/mapwisefox/assistant/tools/pdf/_types.py:75 | rounding a value of [0, 1] to four decimals stays in [0, 1] |
| Geometry.Rect.Extent | assistant/src/mapwisefox/assistant/tools/pdf/_types.py:21-24 | width and height are non-negative and each is the difference of the two corners on its axis, in one order or the other |
| Geometry.Rect.Height | assistant/src/mapwisefox/assistant/tools/pdf/_types.py:62-64 | `height` agrees with the height of the size |
| Geometry.Rect.Center | assistant/src/mapwisefox/assistant/tools/pdf/_types.py:25-28 | the centre is the coordinate-wise midpoint of the two corners |
| Geometry.Rect.Intersection | assistant/src/mapwisefox/assistant/tools/pdf/_types.py:38-51 | the intersection's start is at or after both starts and its end at or before both ends; it is normalised exactly when the rectangles intersect |
| Geometry.Rect.Union | assistant/src/mapwisefox/assistant/tools/pdf/_types.py:53-56 | the union's start is at or before both starts and its end at or after both ends |
| Geometry.Rect.VerticalNorm | assistant/src/mapwisefox/assistant/tools/pdf/_types.py:70-75 | 1.0 above the page, 0.0 below it, a ZeroDivisionError exactly when the height and the centre are both 0, and for a centre on a page of non-zero height the centre's y over the height rounded to four places |
| Geometry.VerticalNormInUnitInterval | assistant/src/mapwisefox/assistant/tools/pdf/_types.py:70-75 | on a page of positive height the vertical norm exists and lies in [0, 1] |
| Geometry.UnionTakesOperandCoordinates | assistant/src/mapwisefox/assistant/tools/pdf/_types.py:53-56 | every corner coordinate of the union is the coordinate of one of the operands |
| Geometry.UnionCommutative | assistant/src/mapwisefox/assistant/tools/pdf/_types.py:53-56 | union is commutative |
| Geometry.UnionIncludesOperands | assistant/src/mapwisefox/assistant/tools/pdf/_types.py:30-56 | the union includes both operands |
| Geometry.UnionLeast | assistant/src/mapwisefox/assistant/tools/pdf/_types.py:30-56 | every rectangle including both operands includes their union |
| Geometry.IntersectionIncluded | assistant/src/mapwisefox/assistant/tools/pdf/_types.py:30-51 | `intersects` and `intersection` are symmetric; when the rectangles intersect, both include the intersection |
| Geometry.IntersectionGreatest | assistant/src/mapwisefox/assistant/tools/pdf/_types.py:30-51 | every rectangle included in both operands is included in their intersection |
| Geometry.TouchingEdgesIntersect | assistant/src/mapwisefox/assistant/tools/pdf/_types.py:45-47 | `intersects` is non-strict: rectangles sharing only an edge intersect |
| Geometry.ScaleDistributesOverUnion | assistant/src/mapwisefox/assistant/tools/pdf/_types.py:53-89 | for positive factors, scaling the union equals the union of the scaled rectangles |
| Geometry.IncludesPreorder | assistant/src/mapwisefox/assistant/tools/pdf/_types.py:30-36 | `includes` is reflexive and transitive, and `is_included(a, b)` is `b.includes(a)` |
| TextExtraction.ApplyMatrixAffine | assistant/src/mapwisefox/assistant/tools/pdf/_text_extractor.py:25-30 | the matrix sends the origin to its translation and acts linearly around it |
| TextExtraction.EffectiveFontSizeScales | assistant/src/mapwisefox/assistant/tools/pdf/_text_extractor.py:33-37 | with a positive determinant the squared effective size is size squared times the determinant; otherwise it is size times \|d\| |
| TextExtraction.AscentDescent | assistant/src/mapwisefox/assistant/tools/pdf/_text_extractor.py:40-56 | a 4-entry /FontBBox with y_max > y_min gives (y_max/1000, \|y_min\|/1000); any other font gives the defaults (0.8, 0.2); ascent plus descent is always positive |
| TextExtraction.GlyphUnitsAppend | assistant/src/mapwisefox/assistant/tools/pdf/_text_extractor.py:72-78 | the character loop's total over concatenated text is the sum of the totals |
| TextExtraction.TextWidthNonNegative | assistant/src/mapwisefox/assistant/tools/pdf/_text_extractor.py:58-80 | with non-negative widths and font size the estimated width is non-negative |
| TextExtraction.EstimateTextWidth | assistant/src/mapwisefox/assistant/tools/pdf/_text_extractor.py:58-80 | the loop returns the width function: 0 for blank text, 0.55·size·length without /Widths, otherwise the per-character widths (500 out of range) over 1000 times the size |
| TextExtraction.FromTopLeft | assistant/src/mapwisefox/assistant/tools/pdf/_text_extractor.py:93-99 | the box has exactly the text's size, its left edge at the origin's x and its bottom edge (the larger y) at page height minus the origin's y |
| TextExtraction.PlaceRun | assistant/src/mapwisefox/assistant/tools/pdf/_text_extractor.py:107-114 | the step-by-step placement computes the run's effective size and box |
| TextExtraction.KeptRunsAreInFlow | assistant/src/mapwisefox/assistant/tools/pdf/_text_extractor.py:104-128 | a kept run is not blank, its page has a size, and its vertical norm lies in [0.1, 0.9] |
| TextExtraction.RunOutcomeTotalOnPositivePages | assistant/src/mapwisefox/assistant/tools/pdf/_text_extractor.py:113-119 | on a page of positive height no run raises |
| TextExtraction.PageItemsErrorPersists | assistant/src/mapwisefox/assistant/tools/pdf/_text_extractor.py:101-128 | once a run raises, the whole page's pass ends with that error |
| TextExtraction.PageItemsErrors | assistant/src/mapwisefox/assistant/tools/pdf/_text_extractor.py:113-119 | the only error a page can raise is the division by zero in the vertical norm |
| TextExtraction.TextExtractor.constructor | assistant/src/mapwisefox/assistant/tools/pdf/_text_extractor.py:12-14 | a new extractor has no page sizes and no text items |
| TextExtraction.TextExtractor.VisitText | assistant/src/mapwisefox/assistant/tools/pdf/_text_extractor.py:101-128 | a kept run is appended to the end of its own page's list; other pages and the page sizes are unchanged; blank and out-of-band runs change nothing |
| TextExtraction.TextExtractor.VisitPage | assistant/src/mapwisefox/assistant/tools/pdf/_text_extractor.py:135-139 | after a page's runs, its list holds exactly the kept items in order |
| TextExtraction.TextExtractor.Extract | assistant/src/mapwisefox/assistant/tools/pdf/_text_extractor.py:130-140 | both maps are cleared; it succeeds exactly when every page's runs can be placed, and then each page's size is recorded from its media box and its items are the kept runs; a failure is a ZeroDivisionError at a failing page, with the earlier pages fully read and no later size recorded |
| LayoutExtraction.SupportedBoxes | assistant/src/mapwisefox/assistant/tools/pdf/_layout_extractor.py:117-126 | at most one box per detection |
| LayoutExtraction.SupportedBoxesAreFiltered | assistant/src/mapwisefox/assistant/tools/pdf/_layout_extractor.py:117-126 | the boxes are exactly the supported detections, in order, each turned into a typed box |
| LayoutExtraction.UnsupportedDetectionsDropped | assistant/src/mapwisefox/assistant/tools/pdf/_layout_extractor.py:117-119 | only detections typed Text, List or Title become boxes: their number is the number of supported detections, and none are left when no detection is supported |
| LayoutExtraction.Scan | assistant/src/mapwisefox/assistant/tools/pdf/_layout_extractor.py:133-141 | the inner scan splits the queue into the absorbed boxes and the rest, losing and duplicating none, and the emitted box is `current` unioned with the absorbed boxes in order |
| LayoutExtraction.MergeOfEmpty | assistant/src/mapwisefox/assistant/tools/pdf/_layout_extractor.py:128-143 | merging no boxes gives no boxes |
| LayoutExtraction.MergeConsumesEachBoxOnce | assistant/src/mapwisefox/assistant/tools/pdf/_layout_extractor.py:131-138 | every input box is consumed exactly once, as a seed or absorbed into one: the groups together are a permutation of the input |
| LayoutExtraction.MergeUnitesEachGroup | assistant/src/mapwisefox/assistant/tools/pdf/_layout_extractor.py:131-142 | each emitted box is its seed unioned with the boxes absorbed into it, in order |
| LayoutExtraction.MergeLength | assistant/src/mapwisefox/assistant/tools/pdf/_layout_extractor.py:131-142 | the merge emits at most as many boxes as it received, and at least one when it received any |
| LayoutExtraction.ScanLeavesNoOverlap | assistant/src/mapwisefox/assistant/tools/pdf/_layout_extractor.py:134-142 | when `current` is emitted no box left in the queue reaches the merge threshold with it |
| LayoutExtraction.ScanKeepsQueueOrder | assistant/src/mapwisefox/assistant/tools/pdf/_layout_extractor.py:136-139 | deleting absorbed boxes and restarting at index 0 keeps the remaining queue in input order |
| LayoutExtraction.SeedsInInputOrder | assistant/src/mapwisefox/assistant/tools/pdf/_layout_extractor.py:131-142 | outputs come in the order their seeds were popped from the front: the seeds are a subsequence of the input, one per output, the first seed being the first box |
| LayoutExtraction.MergeWithoutOverlapsIsIdentity | assistant/src/mapwisefox/assistant/tools/pdf/_layout_extractor.py:128-143 | when no box reaches the threshold with a later one, the merge returns its input |
| LayoutExtraction.LayoutExtractor.constructor | assistant/src/mapwisefox/assistant/tools/pdf/_layout_extractor.py:54-94 | a new extractor keeps the operations and threshold and holds no pages |
| LayoutExtraction.LayoutExtractor.GreedyOverlapMerge | assistant/src/mapwisefox/assistant/tools/pdf/_layout_extractor.py:128-143 | the queue loop with `pop(0)`, `del q[i]` and the restart at 0 computes the merge |
| LayoutExtraction.LayoutExtractor.ProcessPage | assistant/src/mapwisefox/assistant/tools/pdf/_layout_extractor.py:145-149 | a page's boxes are its supported detections, merged |
| LayoutExtraction.LayoutExtractor.Run | assistant/src/mapwisefox/assistant/tools/pdf/_layout_extractor.py:151-185 | both page containers are cleared, then each page has exactly one image size and one merged box list |
| PdfFileExtraction.ScaleFrom | assistant/src/mapwisefox/assistant/tools/pdf/_pdf.py:19-26 | one (text width / image width, text height / image height) per text page; a KeyError exactly when some text page has no image size, otherwise a ZeroDivisionError when an image dimension is 0 |
| PdfFileExtraction.BoxesByPageFrom | assistant/src/mapwisefox/assistant/tools/pdf/_pdf.py:28-38 | one entry per layout page, each box scaled by its page's factors and the text items defaulting to none; a KeyError exactly when a page with boxes has no scale |
| PdfFileExtraction.PriorityOfNormalised | assistant/src/mapwisefox/assistant/tools/pdf/_pdf.py:59-62 | title 3, list 2, text 1 and -1 for anything else, each exactly for its word |
| PdfFileExtraction.RoleToString | assistant/src/mapwisefox/assistant/tools/pdf/_pdf.py:64-70 | a title is framed by "\n**" and "**\n", a list ends in "\n", anything else ends in " "; never empty |
| PdfFileExtraction.ListRoleRoundTrip | assistant/src/mapwisefox/assistant/tools/pdf/_pdf.py:68-69 | splitting a rendered list's body at newlines gives back its entries |
| PdfFileExtraction.TitleRoleBody | assistant/src/mapwisefox/assistant/tools/pdf/_pdf.py:66-67 | between the bold markers a title holds its texts joined with spaces and stripped |
| PdfFileExtraction.TextRoleRoundTrip | assistant/src/mapwisefox/assistant/tools/pdf/_pdf.py:70 | splitting the body of any other run at spaces gives back its words |
| PdfFileExtraction.AppendText | assistant/src/mapwisefox/assistant/tools/pdf/_pdf.py:72-82 | when the stripped last fragment ends in "-", it is replaced by itself without the hyphen followed by the left-stripped new text, and the list keeps its length; otherwise the new text is appended as it is |
| PdfFileExtraction.AppendTextJoinsHyphenation | assistant/src/mapwisefox/assistant/tools/pdf/_pdf.py:72-82 | "exam-" followed by " ple" becomes the single fragment "example" |
| PdfFileExtraction.FindOverlapsKeepsExactlyTheOverlapping | assistant/src/mapwisefox/assistant/tools/pdf/_pdf.py:84-89 | exactly the boxes reaching the threshold are kept, in their order |
| PdfFileExtraction.TypesOfMembers | assistant/src/mapwisefox/assistant/tools/pdf/_pdf.py:103-106 | the generator yields exactly the types of the overlapping boxes |
| PdfFileExtraction.MaxByKey | assistant/src/mapwisefox/assistant/tools/pdf/_pdf.py:103-106 | Python's `max`: a ValueError exactly for no candidates, otherwise one of them |
| PdfFileExtraction.MaxByKeyIsFirstMaximum | assistant/src/mapwisefox/assistant/tools/pdf/_pdf.py:103-106 | `max` picks the first candidate of highest key |
| PdfFileExtraction.ItemRole | assistant/src/mapwisefox/assistant/tools/pdf/_pdf.py:100-106 | an item's role lookup fails only with a ValueError |
| PdfFileExtraction.ItemRoleCases | assistant/src/mapwisefox/assistant/tools/pdf/_pdf.py:100-106 | an item is skipped exactly when it overlaps no box, and fails exactly when its overlapping boxes carry no type |
| PdfFileExtraction.ItemRoleIsHighestPriority | assistant/src/mapwisefox/assistant/tools/pdf/_pdf.py:100-106 | a role is a type of some overlapping box, and no overlapping box has a type of higher priority |
| PdfFileExtraction.ItemRoles | assistant/src/mapwisefox/assistant/tools/pdf/_pdf.py:99-106 | a page's roles exist exactly when every item's does, at most one per item |
| PdfFileExtraction.PageRoles | assistant/src/mapwisefox/assistant/tools/pdf/_pdf.py:98-106 | all roles exist exactly when every page's do |
| PdfFileExtraction.SwitchRole | assistant/src/mapwisefox/assistant/tools/pdf/_pdf.py:108-112 | a new type closes the section being collected and starts an empty one; the same type changes nothing |
| PdfFileExtraction.Step | assistant/src/mapwisefox/assistant/tools/pdf/_pdf.py:108-112 | after an item the current type is its role and the section being collected is not empty |
| PdfFileExtraction.RenderNonEmpty | assistant/src/mapwisefox/assistant/tools/pdf/_pdf.py:91-117 | with each text appended, any item with a role makes the output non-empty |
| PdfFileExtraction.RenderSingleText | assistant/src/mapwisefox/assistant/tools/pdf/_pdf.py:64-70 | a lone plain-text item renders as its text and a space |
| PdfFileExtraction.ReadFile | assistant/src/mapwisefox/assistant/tools/pdf/_pdf.py:46-55 | the pipeline, composed with the corrected text preparation (as written the source renders "", see Findings), fails only with KeyError, ZeroDivisionError or ValueError, and fails whenever a text page lacks an image size |
| PdfFileExtraction.PdfTextFileExtractor.constructor | assistant/src/mapwisefox/assistant/tools/pdf/_pdf.py:10-17 | the extractor keeps its overlap threshold |
| PdfFileExtraction.PdfTextFileExtractor.CollectPageAsWritten | assistant/src/mapwisefox/assistant/tools/pdf/_pdf.py:99-112 | as written, a page's loop never adds a text, so nothing is ever flushed |
| PdfFileExtraction.PdfTextFileExtractor.PrepareTextAsWritten | assistant/src/mapwisefox/assistant/tools/pdf/_pdf.py:91-117 | as written, the result is "" whenever no ValueError is raised |
| PdfFileExtraction.PdfTextFileExtractor.CollectPage | assistant/src/mapwisefox/assistant/tools/pdf/_pdf.py:99-112 | with each text appended, a page's loop is the fold of its roles |
| PdfFileExtraction.PdfTextFileExtractor.PrepareText | assistant/src/mapwisefox/assistant/tools/pdf/_pdf.py:91-117 | with each text appended, the loops compute the rendered sections |
| LineHeuristics.FlowBounds | assistant/src/mapwisefox/assistant/tools/_pdf.py:52-58 | (0.0, 1.0) for no lines; otherwise the order statistics of the lines' vertical norms at positions ⌊n/10⌋ and ⌊9n/10⌋ (as many norms below as the position allows), the lower not above the upper |
| LineHeuristics.IsProseLine | assistant/src/mapwisefox/assistant/tools/_pdf.py:61-74 | a line is prose exactly when it has at least 20 characters, at least half letters and under a fifth digits |
| LineHeuristics.IsSectionHeader | assistant/src/mapwisefox/assistant/tools/_pdf.py:78-98 | a header exactly when the stripped text is non-empty, at most 120 long and at least half letters, and the font is at least 1.3 times the median, or bold and at least the median |
| LineHeuristics.PagesWithMembers | assistant/src/mapwisefox/assistant/tools/_pdf.py:102-110 | a page is recorded for a signature exactly when an out-of-flow line with that signature lies on it |
| LineHeuristics.RepetitionThreshold | assistant/src/mapwisefox/assistant/tools/_pdf.py:114 | the threshold is max(3, ceil(0.3 · page count)): at least 3 and 30% of the pages, and the least such |
| LineHeuristics.KeptLinesProperties | assistant/src/mapwisefox/assistant/tools/_pdf.py:101-130 | the filter keeps every in-flow line, keeps the input order, and keeps exactly the lines that are neither repeated out-of-flow lines nor out-of-flow page numbers |
| LineHeuristics.FilterOutOfFlowElements | assistant/src/mapwisefox/assistant/tools/_pdf.py:101-130 | the two loops compute the filter |
| LineHeuristics.Mark | assistant/src/mapwisefox/assistant/tools/_pdf.py:146-148 | a line is out of flow exactly when its y value is strictly below or above its page's bounds |
| LineHeuristics.MarkedPagesMembers | assistant/src/mapwisefox/assistant/tools/_pdf.py:143-148 | every marked line is an input line, and is out of flow exactly against its own page's bounds |
| LineHeuristics.MedianFont | assistant/src/mapwisefox/assistant/tools/_pdf.py:151-152 | 0 exactly when no line has a font size; otherwise the order statistic of the font sizes at position ⌊n/2⌋ |
| LineHeuristics.KeyLeTotalPreorder | assistant/src/mapwisefox/assistant/tools/_pdf.py:158-159 | the reading-order key comparison is reflexive, total and transitive |
| LineHeuristics.SortByKey | assistant/src/mapwisefox/assistant/tools/_pdf.py:161 | the sort is in key order and a permutation of its input |
| LineHeuristics.InsertByKeyStable | assistant/src/mapwisefox/assistant/tools/_pdf.py:161 | inserting a line keeps the lines of each key in order and puts it last among its own key |
| LineHeuristics.SortByKeyStable | assistant/src/mapwisefox/assistant/tools/_pdf.py:161 | `list.sort` is stable: the lines of any one key come out in their input order |
| LineHeuristics.OutputLines | assistant/src/mapwisefox/assistant/tools/_pdf.py:150-162 | the output lines are in reading order, each kept by the filter and either prose or a header against the median, joined with "\n" |
| LineHeuristics.SortedChoiceMembers | assistant/src/mapwisefox/assistant/tools/_pdf.py:153-161 | the sorted selection holds only kept lines that are prose or headers |
| LineHeuristics.GroupByPage | assistant/src/mapwisefox/assistant/tools/_pdf.py:139-141 | the dict holds each page's lines in their original order, its keys in first-appearance order |
| LineHeuristics.MarkPage | assistant/src/mapwisefox/assistant/tools/_pdf.py:145-148 | a page's lines are marked one by one against its bounds |
| LineHeuristics.MarkByPage | assistant/src/mapwisefox/assistant/tools/_pdf.py:143-148 | the marking loop visits the pages in dict order |
| LineHeuristics.ExtractPdfText | assistant/src/mapwisefox/assistant/tools/_pdf.py:136-162 | the steps after reading compute the extracted text |
| ExtractionErrors.ReasonText | assistant/src/mapwisefox/assistant/tools/pdf/_base.py:12-15 | each reason's string is non-empty, has no "(" and does not start like the fallback message |
| ExtractionErrors.ReasonTextInjective | assistant/src/mapwisefox/assistant/tools/pdf/_base.py:12-15 | different reasons have different strings |
| ExtractionErrors.PathText | assistant/src/mapwisefox/assistant/tools/pdf/_base.py:38 | a missing or empty path is shown as "<unknown>", any other path as itself |
| ExtractionErrors.Description | assistant/src/mapwisefox/assistant/tools/pdf/_base.py:38-43 | with additional information the text is reason, "(", the shown path, "): " and the information; without, "failed to extract contents of ", the shown path, ": " and the reason |
| ExtractionErrors.DescriptionFormDecidedByInfo | assistant/src/mapwisefox/assistant/tools/pdf/_base.py:39-43 | the fallback form is used exactly when there is no additional information |
| ExtractionErrors.DescriptionIdentifiesReasonAndPath | assistant/src/mapwisefox/assistant/tools/pdf/_base.py:38-43 | with the same information, equal descriptions come from the same reason and shown path |
| ExtractionErrors.MakeError | assistant/src/mapwisefox/assistant/tools/pdf/_base.py:19-29 | the error stores the reason and path as given, and its message is its description |
| SearchExpr.OpUpper | search/src/mapwisefox/search/adapters/_expr_tree.py:87 | the upper-cased operator is `op.upper()` of its string value |
| SearchExpr.KindName | search/src/mapwisefox/search/_expr.py:38-65 | each attribute subclass fixes one of the evidence attribute names |
| SearchExpr.Attr | search/src/mapwisefox/search/_expr.py:26-65 | a subclass term is an attribute term carrying the subclass's name and the given value |
| SearchExpr.ToStr | search/src/mapwisefox/search/_expr.py:90-92 | a group's rendering ends with its closing parenthesis |
| SearchExpr.Add | search/src/mapwisefox/search/_expr.py:86-88 | `add` appends exactly one child at the end and changes nothing else |
| SearchExpr.AddExtendsRendering | search/src/mapwisefox/search/_expr.py:86-92 | after `add` on a non-empty group, the rendering gains " op " and the child's rendering just before the closing parenthesis |
| SearchExpr.AddToEmptyGroup | search/src/mapwisefox/search/_expr.py:86-92 | after `add` on an empty group, the rendering is the optional "[attr]" and the child in parentheses |
| SearchExpr.TitleAbs | search/src/mapwisefox/search/_expr.py:99-101 | `TitleAbsExpr(v)` is an OR over a title term and an abstract term for `v` |
| SearchExpr.TitleAbsKeys | search/src/mapwisefox/search/_expr.py:104-109 | `TitleAbsKeysExpr(v)` adds an author-keywords term third |
| SearchExpr.AnyOf | search/src/mapwisefox/search/_expr.py:112-129 | the plural helpers build an OR node with one child per value, in argument order |
| SearchExpr.Leaves | search/src/mapwisefox/search/_qb.py:63-71 | the leaves of a tree are terms, never groups |
| QueryBuilding.AndGroup | search/src/mapwisefox/search/_qb.py:20-22 | `and_group` is an AND node over the children in order, with their leaves |
| QueryBuilding.OrGroup | search/src/mapwisefox/search/_qb.py:24-26 | `or_group` is an OR node over the children in order, with their leaves |
| QueryBuilding.OneOrMore | search/src/mapwisefox/search/_qb.py:37-43 | nothing for no values, the single term for one value, and otherwise a group whose leaves are one term per value in order |
| QueryBuilding.ScopusTitleAbsQuery | search/src/mapwisefox/search/adapters/_scopus.py:53-68 | a Scopus query over one title-or-abstract term is its TITLE-ABS field in parentheses |
| QueryBuilding.ScopusQueryOfOneGroup | search/src/mapwisefox/search/adapters/_scopus.py:66-68 | a Scopus query over one contributing term is that text in parentheses |
| QueryBuilding.QueryBuilder.constructor | search/src/mapwisefox/search/_qb.py:17-18 | a fresh builder holds an AND node with no children |
| QueryBuilding.QueryBuilder.Tree | search/src/mapwisefox/search/_qb.py:17-18 | the tree is always one AND group over what was added |
| QueryBuilding.QueryBuilder.ToString | search/src/mapwisefox/search/_qb.py:57-58 | the builder renders as a parenthesised group |
| QueryBuilding.QueryBuilder.Groups | search/src/mapwisefox/search/_qb.py:28-31 | `groups` appends the groups to the root's children in call order |
| QueryBuilding.QueryBuilder.YearRange | search/src/mapwisefox/search/_qb.py:33-35 | `year_range` appends one year-range term |
| QueryBuilding.QueryBuilder.AddOneOrMore | search/src/mapwisefox/search/_qb.py:37-43 | the root gains nothing for no values and otherwise exactly the one-or-more term |
| QueryBuilding.QueryBuilder.SubjectAreas | search/src/mapwisefox/search/_qb.py:45-46 | subject areas are added as one-or-more subject terms |
| QueryBuilding.QueryBuilder.DocTypes | search/src/mapwisefox/search/_qb.py:48-49 | document types are added as one-or-more evidence-type terms |
| QueryBuilding.QueryBuilder.Languages | search/src/mapwisefox/search/_qb.py:51-52 | languages are added as one-or-more language terms |
| QueryBuilding.QueryBuilder.Keywords | search/src/mapwisefox/search/_qb.py:54-55 | keywords are added as one-or-more author-keyword terms |
| QueryBuilding.QueryBuilder.BuildTree | search/src/mapwisefox/search/_qb.py:73-76 | a fresh tree adapter run over the tree returns the rebuilt tree's result, which succeeds for the plain tree always and for the other flavours exactly when the tree has a title and an abstract term |
| QueryBuilding.QueryBuilder.BuildFlat | search/src/mapwisefox/search/_qb.py:73-76 | a fresh flat adapter run over the tree returns the query of its root group |
| QueryBuilding.VisitTree | search/src/mapwisefox/search/_qb.py:63-71 | `_visit` makes exactly the start, term and end calls of the tree, in order, on a tree adapter |
| QueryBuilding.VisitFlat | search/src/mapwisefox/search/_qb.py:63-71 | `_visit` makes exactly the start, term and end calls of the tree, in order, on a flat adapter |
| AdapterStack.PushBuffer | search/src/mapwisefox/search/adapters/_base.py:8-9 | `visit_start_group` pushes exactly one empty buffer on top |
| AdapterStack.AppendTop | search/src/mapwisefox/search/adapters/_base.py:11-12 | `visit_term` appends to the top buffer only |
| AdapterStack.AppendTopAll | search/src/mapwisefox/search/adapters/_base.py:11-12 | several terms in a row are appended to the top buffer only, in order |
| AdapterStack.PopBuffer | search/src/mapwisefox/search/adapters/_base.py:14-16 | `visit_end_group` takes the top buffer off, leaving the stack below it |
| AdapterStack.DepthRunAppend | search/src/mapwisefox/search/adapters/_base.py:8-16 | running two call sequences one after the other is running their concatenation |
| AdapterStack.EventsKeepDepth | search/src/mapwisefox/search/adapters/_base.py:8-16 | the calls for a tree never find the stack empty and return it to the depth they began at |
| AdapterStack.EventsOfKeepDepth | search/src/mapwisefox/search/adapters/_base.py:8-16 | the same for the children of a group, inside a group |
| AdapterStack.CountsAppend | search/src/mapwisefox/search/_qb.py:63-71 | terms, opened and closed groups add up over concatenated call sequences |
| AdapterStack.EventsFollowTree | search/src/mapwisefox/search/_qb.py:63-71 | `_visit` reports every leaf once, left to right, and opens and closes each group once |
| AdapterStack.EventsOfFollowTrees | search/src/mapwisefox/search/_qb.py:63-71 | the same for a sequence of children |
| ExprTreeAdapters.TreeRunAppend | search/src/mapwisefox/search/adapters/_expr_tree.py:16-27 | running two call sequences one after the other is running their concatenation |
| ExprTreeAdapters.Rebuild | search/src/mapwisefox/search/adapters/_expr_tree.py:22-27 | the rebuilt node is a group exactly when the original is, with the same operator and number of children |
| ExprTreeAdapters.RebuildIdentity | search/src/mapwisefox/search/adapters/_expr_tree.py:16-27 | a tree without `attr` marks, as every builder tree is, is rebuilt exactly |
| ExprTreeAdapters.RebuildKeepsLeaves | search/src/mapwisefox/search/adapters/_expr_tree.py:16-27 | rebuilding keeps every leaf, in order |
| ExprTreeAdapters.VisitInsideGroup | search/src/mapwisefox/search/adapters/_expr_tree.py:16-27 | visiting a tree inside an open group adds its rebuilt form to the top buffer and changes nothing else |
| ExprTreeAdapters.VisitChildren | search/src/mapwisefox/search/adapters/_expr_tree.py:16-27 | visiting a group's children adds their rebuilt forms to the top buffer, in order |
| ExprTreeAdapters.VisitFromEmptyStack | search/src/mapwisefox/search/adapters/_expr_tree.py:16-27 | visiting a whole query from an empty stack leaves the stack empty and the rebuilt tree as the root |
| ExprTreeAdapters.FilteredKeepsMatchingLeaves | search/src/mapwisefox/search/adapters/_expr_tree.py:29-49 | filtering by a key keeps exactly the leaves that match it (an attribute term of that name, or a year range for the year-range key), in order, and gives None exactly when there are none |
| ExprTreeAdapters.SurvivorsKeepMatchingLeaves | search/src/mapwisefox/search/adapters/_expr_tree.py:35-47 | the surviving children hold exactly the matching leaves of the children, in order |
| ExprTreeAdapters.KeysOf | search/src/mapwisefox/search/adapters/_expr_tree.py:51-62 | the extracted keys are distinct |
| ExprTreeAdapters.KeysAreLeafKeys | search/src/mapwisefox/search/adapters/_expr_tree.py:51-62 | the extracted keys are the distinct keys of the tree's leaves, in the order the leaves first produce them |
| ExprTreeAdapters.LeafKeysMembers | search/src/mapwisefox/search/adapters/_expr_tree.py:51-62 | a key is extracted exactly when some leaf matches it |
| ExprTreeAdapters.FactoredCoversEveryKey | search/src/mapwisefox/search/adapters/_expr_tree.py:64-73 | no extracted key is skipped: each gets an entry, in key order, holding the tree's part for that key |
| ExprTreeAdapters.FactoredHasKeyIffLeaf | search/src/mapwisefox/search/adapters/_expr_tree.py:64-73 | the factored tree has an entry for a key exactly when some leaf is a term for it |
| ExprTreeAdapters.TreeResultSucceeds | search/src/mapwisefox/search/adapters/_expr_tree.py:103-105 | for a rebuilt tree, the plain writer always succeeds and the Web of Science, ACM and ScienceDirect writers succeed exactly when there is a title and an abstract term |
| ExprTreeAdapters.BfsStep | search/src/mapwisefox/search/adapters/_springer.py:68-76 | one step of the walk takes the front node off and queues its children |
| ExprTreeAdapters.BfsFindsEveryKeyword | search/src/mapwisefox/search/adapters/_springer.py:68-76 | the breadth-first walk yields exactly the author-keywords terms of the queued trees, with their multiplicities |
| ExprTreeAdapters.ExprTreeAdapter.constructor | search/src/mapwisefox/search/adapters/_expr_tree.py:11-14 | a new adapter has an empty stack and no root |
| ExprTreeAdapters.ExprTreeAdapter.VisitStartGroup | search/src/mapwisefox/search/adapters/_expr_tree.py:16-17 | pushes one empty buffer |
| ExprTreeAdapters.ExprTreeAdapter.VisitTerm | search/src/mapwisefox/search/adapters/_expr_tree.py:19-20 | appends the term to the top buffer |
| ExprTreeAdapters.ExprTreeAdapter.VisitEndGroup | search/src/mapwisefox/search/adapters/_base.py:14-16 | pops the top buffer and closes it as a group |
| ExprTreeAdapters.ExprTreeAdapter.ProcessCurrentBuffer | search/src/mapwisefox/search/adapters/_expr_tree.py:22-27 | the closed buffer becomes a group with the group's operator, appended to the parent buffer or set as the root when the stack is empty |
| ExprTreeAdapters.ExprTreeAdapter.Result | search/src/mapwisefox/search/adapters/_expr_tree.py:103-105 | `result()` writes the factored root in the adapter's flavour; with no root it raises AttributeError |
| ExprTreeAdapters.ExprTreeAdapter.KeywordExprs | search/src/mapwisefox/search/adapters/_springer.py:68-76 | the queue loop computes the breadth-first walk from the root |
| ExprTreeAdapters.FilterByKey | search/src/mapwisefox/search/adapters/_expr_tree.py:29-49 | the recursive filter with its child loop computes the part of the tree for the key |
| ExprTreeAdapters.ExtractKeys | search/src/mapwisefox/search/adapters/_expr_tree.py:51-62 | the recursive key collection computes the keys in first-insertion order |
| ExprTreeAdapters.InsertKeys | search/src/mapwisefox/search/adapters/_expr_tree.py:59-61 | inserting keys into the insertion-ordered dict keeps the distinct keys seen, in first-insertion order |
| ExprTreeAdapters.FactorByKey | search/src/mapwisefox/search/adapters/_expr_tree.py:64-73 | filters the tree once per extracted key |
| FlatOutputAdapters.Write | search/src/mapwisefox/search/adapters/_flat_output.py:12-19 | an empty value changes nothing; otherwise, inside a group it joins the top buffer and at depth zero it is appended to the output |
| FlatOutputAdapters.TitleAbsField | search/src/mapwisefox/search/adapters/_scopus.py:63-64 | TITLE-ABS("v"): the value framed by the field and quotes |
| FlatOutputAdapters.ScopusGroupStr | search/src/mapwisefox/search/adapters/_scopus.py:53-68 | a buffer of attribute terms naming title and abstract with one value is TITLE-ABS of that value; any other buffer is its stringified entries joined with the upper-cased operator, in parentheses |
| FlatOutputAdapters.ScopusGroupOfOneText | search/src/mapwisefox/search/adapters/_scopus.py:66-68 | a group holding one nested group's text is that text in parentheses |
| FlatOutputAdapters.TitleAbsValue | search/src/mapwisefox/search/adapters/_scopus.py:54-64 | the single value of a title-and-abstract group is the value of every entry |
| FlatOutputAdapters.XploreStringify | search/src/mapwisefox/search/adapters/_xplore.py:31-36 | texts pass through; a term is its quoted field name, a colon and its value, the value quoted unless it holds a wildcard |
| FlatOutputAdapters.MappedValue | search/src/mapwisefox/search/adapters/_scopus.py:29-32 | PREFIX("v") with v the table's value for the key, or the key itself when the table lacks it |
| FlatOutputAdapters.ScopusYearRangeInclusive | search/src/mapwisefox/search/adapters/_scopus.py:36-37 | a year range is written as (PUBYEAR AFT start-1 AND PUBYEAR BEF end+1), and a year passes both tests exactly when start <= year <= end |
| FlatOutputAdapters.ScopusFieldCodes | search/src/mapwisefox/search/adapters/_scopus.py:38-49 | document types, subject areas, languages and author keywords are written as DOCTYPE, SUBJAREA, LANGUAGE and AUTHKEY of the value, the first two through their tables with pass-through |
| FlatOutputAdapters.ScopusStrings | search/src/mapwisefox/search/adapters/_scopus.py:67 | each buffer entry stringified, in order |
| FlatOutputAdapters.XploreScan | search/src/mapwisefox/search/adapters/_xplore.py:38-48 | the scan keeps only query clauses |
| FlatOutputAdapters.XploreScanClauses | search/src/mapwisefox/search/adapters/_xplore.py:38-46 | the scan keeps exactly the clause entries (texts and mapped attribute terms), in order |
| FlatOutputAdapters.XploreScanDocTypes | search/src/mapwisefox/search/adapters/_xplore.py:41-42 | the scan adds exactly the buffer's document types to the set |
| FlatOutputAdapters.XploreScanYearRange | search/src/mapwisefox/search/adapters/_xplore.py:47-48 | the year range kept is the buffer's last, or the earlier one when the buffer has none |
| FlatOutputAdapters.XploreGroupStr | search/src/mapwisefox/search/adapters/_xplore.py:38-52 | the text is the clauses the scan keeps, each stringified, joined with the upper-case operator between spaces and wrapped in parentheses, or "" when that joined text is empty; the side state is as the scan leaves it |
| FlatOutputAdapters.XploreStrings | search/src/mapwisefox/search/adapters/_xplore.py:49-51 | each clause stringified, in order |
| FlatOutputAdapters.FlatRunAppend | search/src/mapwisefox/search/adapters/_base.py:8-16 | running two call sequences one after the other is running their concatenation |
| FlatOutputAdapters.VisitInsideGroup | search/src/mapwisefox/search/adapters/_flat_output.py:12-23 | visiting a subtree inside an open group adds its contribution to the top buffer and leaves the output alone |
| FlatOutputAdapters.WriteInside | search/src/mapwisefox/search/adapters/_flat_output.py:12-17 | inside a group a write adds the value to the top buffer, or nothing for an empty value |
| FlatOutputAdapters.VisitChildren | search/src/mapwisefox/search/adapters/_flat_output.py:12-23 | visiting a group's children adds their contributions to the top buffer, in order |
| FlatOutputAdapters.VisitFromDepthZero | search/src/mapwisefox/search/adapters/_flat_output.py:12-30 | visiting a whole query from depth zero appends the root group's text to the output and leaves the stack empty |
| FlatOutputAdapters.ScopusTitleAbs | search/src/mapwisefox/search/adapters/_scopus.py:53-64 | Scopus writes a title-or-abstract group over one value as TITLE-ABS, and so a title-abstract-keywords group too |
| FlatOutputAdapters.ChildTerms | search/src/mapwisefox/search/adapters/_base.py:11-12 | a buffer of leaves contributes each leaf as a term, in order |
| FlatOutputAdapters.FlatResultOf | search/src/mapwisefox/search/adapters/_flat_output.py:29-30 | Scopus returns the output; Xplore returns the output as query text, a content type exactly when some collected document type is mapped, and the last year range |
| FlatOutputAdapters.FlatOutputAdapter.constructor | search/src/mapwisefox/search/adapters/_flat_output.py:8-10 | a new adapter has an empty stack, output and side state |
| FlatOutputAdapters.FlatOutputAdapter.VisitStartGroup | search/src/mapwisefox/search/adapters/_base.py:8-9 | pushes one empty buffer |
| FlatOutputAdapters.FlatOutputAdapter.VisitTerm | search/src/mapwisefox/search/adapters/_base.py:11-12 | appends the term to the top buffer |
| FlatOutputAdapters.FlatOutputAdapter.VisitEndGroup | search/src/mapwisefox/search/adapters/_base.py:14-16 | pops the top buffer and writes its text |
| FlatOutputAdapters.FlatOutputAdapter.ProcessCurrentBuffer | search/src/mapwisefox/search/adapters/_flat_output.py:21-23 | writes exactly the group's text |
| FlatOutputAdapters.FlatOutputAdapter.ExtractXploreGroup | search/src/mapwisefox/search/adapters/_xplore.py:38-52 | the loop computes the group's text and updates the document types and year range as the scan does |
| FlatOutputAdapters.FlatOutputAdapter.WriteValue | search/src/mapwisefox/search/adapters/_flat_output.py:12-19 | `_write` |
| FlatOutputAdapters.FlatOutputAdapter.Result | search/src/mapwisefox/search/adapters/_xplore.py:54-68 | `result()` as the result function states |
| FlatOutputAdapters.DocTypeValuesSnoc | search/src/mapwisefox/search/adapters/_xplore.py:41-42 | one more buffer item adds its value to the document types exactly when it is a document-type term |
| FlatOutputAdapters.CloseGroup | search/src/mapwisefox/search/adapters/_base.py:14-16 | closing a filled group pops its buffer, computes the group's text and writes it |
| TreeEmitters.FormatAttr | search/src/mapwisefox/search/adapters/_wos.py:49-58 | Web of Science: a value with a wildcard or without a space as it is, any other stripped and quoted; subject areas and languages through their tables, nothing for a value outside them; the stripped value in quotes otherwise |
| TreeEmitters.SpringerValue | search/src/mapwisefox/search/adapters/_springer.py:53-57 | "?" becomes "+", then "tool*" and "architect*" are spelled out and any other value is kept |
| TreeEmitters.FormatGroup | search/src/mapwisefox/search/adapters/_expr_tree.py:78-88 | no text for no parts, the only part as it is, several parts in parentheses joined with the upper-cased operator |
| TreeEmitters.EmittedChildren | search/src/mapwisefox/search/adapters/_expr_tree.py:80-82 | the children's emissions without the missing ones, never more than the children |
| TreeEmitters.SilentIffLeavesSilent | search/src/mapwisefox/search/adapters/_expr_tree.py:78-96 | a subtree emits nothing exactly when none of its leaves emits anything |
| TreeEmitters.ChildrenSilentIffLeavesSilent | search/src/mapwisefox/search/adapters/_expr_tree.py:80-84 | a group's children give no text exactly when none of their leaves does |
| TreeEmitters.LeafSilence | search/src/mapwisefox/search/adapters/_springer.py:38-51 | the leaves that emit nothing: an unmapped document type under Web of Science and Springer, and languages and subject areas under Springer's basic plan |
| TreeEmitters.EmitsUnlessEmpty | search/src/mapwisefox/search/adapters/_expr_tree.py:78-96 | under the plain, ACM and ScienceDirect adapters a subtree emits nothing exactly when it has no leaves |
| TreeEmitters.AcmYearRange | search/src/mapwisefox/search/adapters/_acm.py:18-20 | ACM writes both years as four zero-padded digits that read back as the years |
| TreeEmitters.SdYearRange | search/src/mapwisefox/search/adapters/_science_direct.py:25-26 | ScienceDirect pads only the start year to four digits; both years read back |
| TreeEmitters.WosYearRange | search/src/mapwisefox/search/adapters/_wos.py:45-46 | Web of Science writes "(start-end)", whose inside splits at the dash into the two years |
| TreeEmitters.UnmappedDocType | search/src/mapwisefox/search/adapters/_science_direct.py:27-28 | an unmapped document type is written "(None)" by ScienceDirect and not at all by Web of Science and Springer |
| TreeEmitters.Lookup | search/src/mapwisefox/search/adapters/_wos.py:70-71 | `expr_dict[key]`: found exactly when the key is present, KeyError otherwise |
| TreeEmitters.Select | search/src/mapwisefox/search/adapters/_wos.py:65-69 | the entries whose key passes the filter, in their order |
| TreeEmitters.PlainClauses | search/src/mapwisefox/search/adapters/_expr_tree.py:98-101 | one "(key: text)" clause per factored key, in order, the text being the plain rendering of that key's subtree |
| TreeEmitters.WosClauses | search/src/mapwisefox/search/adapters/_wos.py:65-69 | one clause per key other than title and abstract, in key order: the two-letter WoS code (or the key itself when it has none), "=" and the emitted part |
| TreeEmitters.AcmClauses | search/src/mapwisefox/search/adapters/_acm.py:23-32 | one clause per key that is not title, abstract, year range or unsupported, in key order: the ACM field name and the emitted part |
| TreeEmitters.SdClauses | search/src/mapwisefox/search/adapters/_science_direct.py:31-43 | one clause per key of the attribute table outside title, abstract, year range, subject and language, in key order: the attribute name and the emitted part |
| TreeEmitters.TitleAbstractClause | search/src/mapwisefox/search/adapters/_wos.py:72-74 | the opening text, the title part's emission, the middle text, the abstract part's emission and ")" |
| TreeEmitters.EmitFactored | search/src/mapwisefox/search/adapters/_expr_tree.py:98-101 | the plain adapter gives the clauses joined with the operator's separator; the others succeed exactly when title and abstract are both factored, and fail with KeyError otherwise |
| TreeEmitters.WosFactored | search/src/mapwisefox/search/adapters/_wos.py:60-76 | KeyError unless title and abstract are present; otherwise the text is exactly "(TI=" title " OR AB=" abstract ")", the separator and the other keys' clauses joined by it |
| TreeEmitters.AcmFactored | search/src/mapwisefox/search/adapters/_acm.py:23-43 | KeyError unless title and abstract are present; otherwise the query is exactly "(Title: " title " OR Abstract: " abstract ")", the separator and the supported clauses joined by it, and the filter is the year-range filter |
| TreeEmitters.AcmFilter | search/src/mapwisefox/search/adapters/_acm.py:38-42 | the filter holds only "E-Publication Date", exactly when a year range is factored, with its emission |
| TreeEmitters.AcmYearName | search/src/mapwisefox/search/adapters/_acm.py:10 | the year range's ACM name is "E-Publication Date" |
| TreeEmitters.SdFactored | search/src/mapwisefox/search/adapters/_science_direct.py:31-50 | KeyError unless title and abstract are present; otherwise the query is exactly "(TITLE" title " OR ABSTRACT" abstract ")", the separator and the basic clauses joined by it, then the separator and the year-range clause when there is one |
| TreeEmitters.SpringerInclusionMatchesEmission | search/src/mapwisefox/search/adapters/_springer.py:78-81 | a language or subject-area key is included exactly when its term emits text |
| TreeEmitters.Headed | search/src/mapwisefox/search/adapters/_wos.py:76 | joining a head with further parts starts with the head and ends with the separator and the last part |
| TreeEmitters.PyStr | search/src/mapwisefox/search/adapters/_science_direct.py:28 | an f-string prints a missing value as "None" |
| TypeConversions.AnyToBool | web/backend/src/mapwisefox/web/utils/_type_conversions.py:8-18 | True exactly for a non-None value whose stripped lower-case text is a true word; False for None or a false word; ValueError otherwise |
| TypeConversions.AnyToBoolOfBool | web/backend/src/mapwisefox/web/utils/_type_conversions.py:12-16 | Python's True and False read as themselves |
| TypeConversions.WordSetsDisjoint | web/backend/src/mapwisefox/web/utils/_type_conversions.py:4-5 | no word is both true and false |
| TypeConversions.AnyToBoolIgnoresCase | web/backend/src/mapwisefox/web/utils/_type_conversions.py:12 | upper-casing the text does not change the reading |
| TypeConversions.AnyToBoolIgnoresPadding | web/backend/src/mapwisefox/web/utils/_type_conversions.py:12 | surrounding whitespace does not change the reading |
| TypeConversions.StripUpper | web/backend/src/mapwisefox/web/utils/_type_conversions.py:12 | stripping and upper-casing commute |
| EvidenceModel.CleanPieces | web/backend/src/mapwisefox/web/model/_evidence.py:54-58 | never more items than pieces, and every item kept is non-empty and stripped |
| EvidenceModel.CleanPiecesKeepAbsent | web/backend/src/mapwisefox/web/model/_evidence.py:54-58 | cleaning brings in no character the pieces did not hold |
| EvidenceModel.ParseList | web/backend/src/mapwisefox/web/model/_evidence.py:47-58 | a missing or None field gives no items, a collection its own items, anything else its text split on ";" and cleaned |
| EvidenceModel.CleanPiecesSnoc | web/backend/src/mapwisefox/web/model/_evidence.py:54-58 | one more piece adds its stripped text exactly when that is non-empty |
| EvidenceModel.CleanPiecesOfClean | web/backend/src/mapwisefox/web/model/_evidence.py:54-58 | clean items survive cleaning unchanged |
| EvidenceModel.ListRoundTrip | web/backend/src/mapwisefox/web/model/_evidence.py:102-104 | parsing a serialised list of clean items without ";" gives the list back |
| EvidenceModel.StripKeepsAbsent | web/backend/src/mapwisefox/web/model/_evidence.py:55-57 | stripping brings in no new character |
| EvidenceModel.ParseSerializeParse | web/backend/src/mapwisefox/web/model/_evidence.py:47-58 | a parsed list survives serialising and parsing again |
| EvidenceModel.ParseDate | web/backend/src/mapwisefox/web/model/_evidence.py:61-77 | no date for a missing field, None, NaN or a non-value text; January 1 for an all-digit year in 1..9999 and a ValueError for any other all-digit year; otherwise the external parser's date, or a ValueError when it fails; no other error |
| EvidenceModel.ParseDateReadsField | web/backend/src/mapwisefox/web/model/_evidence.py:61-77 | the date depends only on the field parsed |
| EvidenceModel.NonValueTextsNotDigits | web/backend/src/mapwisefox/web/model/_evidence.py:12-21 | no non-value text is all digits |
| EvidenceModel.ParseDateOfYear | web/backend/src/mapwisefox/web/model/_evidence.py:71-72 | a year written in digits parses to January 1 of that year |
| EvidenceModel.ParseBoolean | web/backend/src/mapwisefox/web/model/_evidence.py:79-83 | non-values read as False; any other hashable value goes through `any_to_bool`; an unhashable one is a TypeError |
| EvidenceModel.SerializedIncludeKey | web/backend/src/mapwisefox/web/model/_evidence.py:106-108 | the two serialised words are their own lookup keys |
| EvidenceModel.IncludeRoundTrip | web/backend/src/mapwisefox/web/model/_evidence.py:106-108 | the serialised include flag reads back through `any_to_bool` as the same flag |
| EvidenceModel.SerializedIncludeIsValue | web/backend/src/mapwisefox/web/model/_evidence.py:106-108 | neither serialised word is a non-value |
| EvidenceModel.IncludeFieldRoundTrip | web/backend/src/mapwisefox/web/model/_evidence.py:79-83 | the validator's boolean parsing reads the serialised flag back |
| EvidenceModel.SerializeDate | web/backend/src/mapwisefox/web/model/_evidence.py:110-112 | `isoformat()` fails on None (an AttributeError); a date gives exactly its day text, "T" and its time of day |
| EvidenceModel.SerializeDateReadsBack | web/backend/src/mapwisefox/web/model/_evidence.py:110-112 | for a valid date the text is 19 or 26 characters, with "-", "-", "T", ":", ":" at positions 4, 7, 10, 13, 16 and year, month, day, hour, minute, second and any microseconds reading back from their digit fields |
| EvidenceModel.SerializeYearDate | web/backend/src/mapwisefox/web/model/_evidence.py:110-112 | a date read from a bare year is written back as that year, "-01-01T00:00:00" |
| EvidenceModel.ClearNaN | web/backend/src/mapwisefox/web/model/_evidence.py:96-98 | every NaN becomes None and nothing else changes |
| EvidenceModel.ListsParsedFields | web/backend/src/mapwisefox/web/model/_evidence.py:90-91 | parsing a prefix of the list fields sets exactly those fields and keeps every other key |
| EvidenceModel.ListsKeepFlags | web/backend/src/mapwisefox/web/model/_evidence.py:90-91 | parsing the list fields leaves both flags as they were |
| EvidenceModel.FieldNamesDistinct | web/backend/src/mapwisefox/web/model/_evidence.py:25 | the fields the validator sets are distinct |
| EvidenceModel.FlaggedKeys | web/backend/src/mapwisefox/web/model/_evidence.py:90-95 | the keys after the flags: the data's own and every field the validator sets except the date |
| EvidenceModel.FlaggedFields | web/backend/src/mapwisefox/web/model/_evidence.py:90-95 | list fields parsed, has_pdf read, include read but forced to True when there are no exclude reasons, other fields kept |
| EvidenceModel.CoercedMeaning | web/backend/src/mapwisefox/web/model/_evidence.py:85-100 | a coerced record holds every list field parsed, both flags read, include forced when there are no reasons, and the other fields kept |
| EvidenceModel.ParseBooleanReadsField | web/backend/src/mapwisefox/web/model/_evidence.py:79-83 | the flag depends only on the field parsed |
| EvidenceModel.CoercedOnceFlagsRead | web/backend/src/mapwisefox/web/model/_evidence.py:96-99 | once both flags are read, the date alone decides the outcome |
| EvidenceModel.CoerceValues | web/backend/src/mapwisefox/web/model/_evidence.py:85-100 | an instance is returned as it is; raw data gives the coerced record or the first error met |
| EvidenceModel.Dump | web/backend/src/mapwisefox/web/model/_evidence.py:102-112 | fails exactly when the record has no date, with the ValueError pydantic raises for a serialiser failure; otherwise keeps every key |
| EvidenceValidation.LaxBool | web/backend/src/mapwisefox/web/model/_evidence.py:32 | a boolean field takes a boolean, the integers 0 and 1, or one of pydantic's true or false words in any case, and nothing else |
| EvidenceValidation.FieldValue | web/backend/src/mapwisefox/web/model/_evidence.py:31-44 | a missing field is accepted only with a default, as None; a text field takes only a text, an optional text also None, a flag what pydantic reads as a boolean, a list field a list, the date a date or None |
| EvidenceValidation.Validated | web/backend/src/mapwisefox/web/model/_evidence.py:31-44 | succeeds exactly when every declared field is accepted; a rejection is a ValueError; the result holds exactly the declared fields |
| EvidenceValidation.ValidatedGets | web/backend/src/mapwisefox/web/model/_evidence.py:31-44 | once the flags are booleans, the validated record holds every declared field with the value the mapping held, None for a missing default |
| EvidenceValidation.EvidenceAccepted | web/backend/src/mapwisefox/web/model/_evidence.py:31-44 | validation succeeds exactly when the flags, lists and date are shaped as the model validator leaves them and the cluster id, texts and optional texts have their declared types |
| EvidenceValidation.EvidenceNames | web/backend/src/mapwisefox/web/model/_evidence.py:31-44 | the evidence holds exactly the fourteen declared fields |
| EvidenceValidation.CoercedShaped | web/backend/src/mapwisefox/web/model/_evidence.py:85-100 | the model validator leaves booleans as flags, lists as list fields and a date or None as the date |
| EvidenceValidation.CoercedTyped | web/backend/src/mapwisefox/web/model/_evidence.py:96-98 | the fields the model validator does not set keep their types, a NaN counting as None |
| EvidenceValidation.NewEvidence | web/backend/src/mapwisefox/web/model/_repo.py:42-49 | `Evidence(**params)` is the model validator followed by the field validation, the first failure winning |
| EvidenceValidation.NewEvidenceAccepts | web/backend/src/mapwisefox/web/model/_evidence.py:31-44 | on a row the model validator accepts, construction succeeds exactly when the cluster id is an int, doi, title and url are texts, abstract and venue texts, None or NaN, and pdf_url missing or one of those; the evidence is the declared fields as the model validator left them |
| EvidenceModel.DumpReadsBack | web/backend/src/mapwisefox/web/model/_evidence.py:102-108 | a dumped record reads back through the parsers as the flag and the reasons it was dumped with |
| EvidenceModel.DumpIncludeReadsBack | web/backend/src/mapwisefox/web/model/_evidence.py:79-83 | a dumped flag reads back through the validator as itself |
| LegacyEvidenceModel.LegacyParseBoolean | web/src/mapwisefox/web/model/_evidence.py:70-80 | non-values read as False and an unhashable value is a TypeError; any other value's lower-cased text gives True for "include", False for "exclude", and is handed on as that lower-case text otherwise |
| LegacyEvidenceModel.LowerWordKey | web/src/mapwisefox/web/model/_evidence.py:74-78 | a text whose lower case is "include" or "exclude" has that word as its lookup key |
| LegacyEvidenceModel.AnyToBoolByKey | web/backend/src/mapwisefox/web/utils/_type_conversions.py:12-18 | `any_to_bool` reads a value only through its stripped lower-case text |
| LegacyEvidenceModel.LegacyBooleanAgrees | web/src/mapwisefox/web/model/_evidence.py:70-80 | whenever the older parser settles on a boolean, the back end's parser reads the same boolean |
| LegacyEvidenceModel.LegacyFlaggedFields | web/src/mapwisefox/web/model/_evidence.py:87-90 | after the lists and flags: list fields parsed, the date and other fields kept |
| LegacyEvidenceModel.LegacyCoercedMeaning | web/src/mapwisefox/web/model/_evidence.py:82-92 | a coerced record holds every list field parsed, both flags as the older parser reads them, the parsed date and the other fields unchanged |
| LegacyEvidenceModel.LegacyParseBooleanReadsField | web/src/mapwisefox/web/model/_evidence.py:70-80 | the flag depends only on the field parsed |
| LegacyEvidenceModel.LegacyCoerceValues | web/src/mapwisefox/web/model/_evidence.py:82-92 | an instance is returned as it is; raw data gives the coerced record or the first error met |
| LegacyEvidenceModel.LegacyNewEvidence | web/src/mapwisefox/web/model/_evidence.py:21-35 | the older `Evidence(**params)` is its model validator followed by the field validation of its own declarations |
| LegacyEvidenceModel.LegacyAccepted | web/src/mapwisefox/web/model/_evidence.py:21-35 | validation of the older record succeeds exactly when every field, abstract, venue and pdf_url included, has its declared type |
| LegacyEvidenceModel.LegacyNewEvidenceAccepts | web/src/mapwisefox/web/model/_evidence.py:21-35 | on a row the older model validator accepts, construction succeeds exactly when the cluster id is an int, every text field is a text (a NaN is rejected) and pydantic reads both handed-on flags as booleans |
| LegacyEvidenceModel.UnknownFlagRejected | web/src/mapwisefox/web/model/_evidence.py:79-80 | a flag text the older parser hands on and pydantic cannot read as a boolean makes construction fail with a ValueError |
| LegacyEvidenceModel.MaybeIsNoFlag | web/src/mapwisefox/web/model/_evidence.py:74-80 | "maybe" is handed on and is no boolean, while "Yes" is handed on as "yes", which is True |
| EvidenceRepo.MinIdWhere | web/backend/src/mapwisefox/web/model/_repo.py:61-63 | the smallest id among the selected rows, a lower bound of all of them, or -1 when none is selected |
| EvidenceRepo.MaxIdWhere | web/backend/src/mapwisefox/web/model/_repo.py:65-67 | the largest id among the selected rows, an upper bound of all of them, or -1 when none is selected |
| EvidenceRepo.FirstLastBound | web/backend/src/mapwisefox/web/model/_repo.py:69-79 | on a non-empty sheet first and last are ids of the sheet that bound every id |
| EvidenceRepo.NextIsSuccessor | web/backend/src/mapwisefox/web/model/_repo.py:72-73 | next is the smallest id above the current one, -1 when there is none |
| EvidenceRepo.PrevIsPredecessor | web/backend/src/mapwisefox/web/model/_repo.py:75-76 | prev is the largest id below the current one, -1 when there is none |
| EvidenceRepo.NextOfPrev | web/backend/src/mapwisefox/web/model/_repo.py:72-76 | from an id with an earlier neighbour, prev then next returns to it |
| EvidenceRepo.PrevOfNext | web/backend/src/mapwisefox/web/model/_repo.py:72-76 | from an id with a later neighbour, next then prev returns to it |
| EvidenceRepo.StepsIntoRange | web/backend/src/mapwisefox/web/model/_repo.py:72-79 | stepping back from past the last id reaches it, and forward from before the first id reaches it |
| EvidenceRepo.EmptySheet | web/backend/src/mapwisefox/web/model/_repo.py:91-102 | on an empty sheet every request gives -1 |
| EvidenceRepo.GotoClamps | web/backend/src/mapwisefox/web/model/_repo.py:98-100 | goto lands on the requested id when it lies between first and last, and on the nearer end otherwise |
| EvidenceRepo.ReplaceRow | web/backend/src/mapwisefox/web/model/_repo.py:107 | the rows with the id keep their columns, each taking the dump's value or NaN when the dump lacks it; the index and the other rows are unchanged |
| EvidenceRepo.HasUnfilledMeaning | web/backend/src/mapwisefox/web/model/_repo.py:51-53 | has_unfilled holds exactly when some row with an id above 0 has an empty include cell |
| EvidenceRepo.Lookup | web/backend/src/mapwisefox/web/model/_repo.py:43 | found exactly when the id is in the index, with that row's cells |
| EvidenceRepo.LookupDistinct | web/backend/src/mapwisefox/web/model/_repo.py:43 | on an index without repeated ids, the lookup gives the one row holding the id |
| EvidenceRepo.UpdateKeepsOthers | web/backend/src/mapwisefox/web/model/_repo.py:104-107 | after an update the ids stay distinct and the same, every column of the row the dump holds takes the dump's value, and every other row is unchanged |
| EvidenceRepo.UpdateKeepsNavigation | web/backend/src/mapwisefox/web/model/_repo.py:91-107 | an update changes no navigation result except the unfilled search |
| EvidenceRepo.MinMaxByIds | web/backend/src/mapwisefox/web/model/_repo.py:61-67 | selections that look only at ids pick the same ids from rows with the same ids |
| EvidenceRepo.SerializedIncludeIsFilled | web/backend/src/mapwisefox/web/model/_repo.py:81-89 | a row whose include cell was written as "include" or "exclude" is no longer unfilled |
| EvidenceRepo.PandasRepo.constructor | web/backend/src/mapwisefox/web/model/_repo.py:19-36 | the repository holds the rows read from the sheet, with the mandatory columns ensured as the load states (index-aligned: NaN for a row whose id is not a position) |
| EvidenceRepo.WithMandatory | web/backend/src/mapwisefox/web/model/_repo.py:122-128 | include and exclude_reasons are present; an existing cell becomes its text, a missing column becomes "" in a row whose id is a position of the frame and NaN in any other; every other cell is kept |
| EvidenceRepo.Loaded | web/backend/src/mapwisefox/web/model/_repo.py:122-128 | every row keeps its id and gains the mandatory columns; a missing one is "" exactly when the row's id lies in 0..n-1 and NaN exactly otherwise |
| EvidenceRepo.LoadedUnfilled | web/backend/src/mapwisefox/web/model/_repo.py:81-89 | a loaded row awaits a decision exactly when its include column was missing (empty text or NaN alike) or its text is empty |
| EvidenceRepo.WrittenFlagFillsRow | web/backend/src/mapwisefox/web/model/_repo.py:104-107 | writing a dump with the serialised flag into rows with an include column leaves the id's rows decided |
| EvidenceRepo.PandasRepo.HasUnfilled | web/backend/src/mapwisefox/web/model/_repo.py:51-53 | true exactly when some row with an id above 0 has an empty include cell |
| EvidenceRepo.PandasRepo.Get | web/backend/src/mapwisefox/web/model/_repo.py:42-49 | found exactly when the id is in the index, giving that row's cells with the cluster id set |
| EvidenceRepo.PandasRepo.Update | web/backend/src/mapwisefox/web/model/_repo.py:104-107 | an id outside the index is a KeyError and changes nothing; otherwise the row's columns are filled from the dump, NaN where it has no value |
| BackendController.Sanitize | web/backend/src/mapwisefox/web/controller/_evidence.py:108-112 | anything but a string becomes ""; a string never grows |
| BackendController.SanitizeClean | web/backend/src/mapwisefox/web/controller/_evidence.py:108-112 | a sanitised reason is its own strip and holds no capital letter |
| BackendController.SanitizeIdempotent | web/backend/src/mapwisefox/web/controller/_evidence.py:108-112 | sanitising twice is sanitising once |
| BackendController.Sanitized | web/backend/src/mapwisefox/web/controller/_evidence.py:121-124 | every request reason sanitised, in request order |
| BackendController.DistinctTextsFacts | web/backend/src/mapwisefox/web/controller/_evidence.py:121-125 | the dictionary keys keep the input's order, repeat nothing, and are exactly its non-empty texts |
| BackendController.DropUnspecifiedFacts | web/backend/src/mapwisefox/web/controller/_evidence.py:126-127 | dropping the placeholder keeps the rest distinct and in order |
| BackendController.CleanTexts | web/backend/src/mapwisefox/web/controller/_evidence.py:121-128 | the stored reasons are distinct, in input order, exactly the non-empty texts other than the placeholder, and the placeholder only when it is the only reason given |
| BackendController.PlaceholderAlone | web/backend/src/mapwisefox/web/controller/_evidence.py:126-127 | of distinct non-empty texts, the placeholder is kept exactly when every text is the placeholder |
| BackendController.CleanReasons | web/backend/src/mapwisefox/web/controller/_evidence.py:121-128 | every stored reason is a clean list item |
| BackendController.CleanReasonsItems | web/backend/src/mapwisefox/web/controller/_evidence.py:108-112 | every kept sanitised reason is non-empty and stripped |
| BackendController.CleanKeepsCount | web/backend/src/mapwisefox/web/controller/_evidence.py:129 | the reasons keep their number exactly when they are non-empty and distinct and the placeholder is not among several |
| BackendController.PlaceholderAmongOthers | web/backend/src/mapwisefox/web/controller/_evidence.py:126-129 | a placeholder among two or more reasons costs at least one |
| BackendController.ReadEvidence | web/backend/src/mapwisefox/web/controller/_evidence.py:115 | an id outside the index is a KeyError; a result is the row with its cluster id, through the model validator and the field validation |
| BackendController.ToggledReadsBack | web/backend/src/mapwisefox/web/controller/_evidence.py:114-131 | the written row reads back as the requested flag and the cleaned reasons |
| BackendController.SetInclude | web/backend/src/mapwisefox/web/controller/_evidence.py:97-100 | an unknown id is a KeyError before the word is read; a word `any_to_bool` rejects is a ValueError, and so is an evidence whose date the serialiser rejects; a result needs both the evidence and the word read |
| BackendController.SetIncludeReadsBack | web/backend/src/mapwisefox/web/controller/_evidence.py:97-100 | the written row reads back through the validator as the flag `any_to_bool` gave for the word |
| BackendController.ClampedSelection | web/backend/src/mapwisefox/web/controller/_evidence.py:78-80 | the clamp gives -1 on an empty sheet and otherwise lies between the first and last ids |
| BackendController.NavigationFindsRow | web/backend/src/mapwisefox/web/controller/_evidence.py:92-95 | on a sheet of non-negative ids every request but goto selects an existing row |
| BackendController.NavigationAtEnds | web/backend/src/mapwisefox/web/controller/_evidence.py:92-95 | on a sheet of non-negative ids, next from the last id and prev from the first id both land on the first id |
| BackendController.EvidenceController.constructor | web/backend/src/mapwisefox/web/controller/_evidence.py:28-31 | a controller over the loaded rows, with no selection |
| BackendController.EvidenceController.SetSelectedIndex | web/backend/src/mapwisefox/web/controller/_evidence.py:78-80 | the selection is the value clamped into the first and last ids |
| BackendController.EvidenceController.CurrentRecord | web/backend/src/mapwisefox/web/controller/_evidence.py:82-86 | a ValueError with no selection, a KeyError for a missing id, otherwise the row through the model validator and the field validation |
| BackendController.EvidenceController.AllFilled | web/backend/src/mapwisefox/web/controller/_evidence.py:88-90 | true exactly when no row after id 0 still awaits a decision, as the repository's unfilled search sees it |
| BackendController.EvidenceController.Navigate | web/backend/src/mapwisefox/web/controller/_evidence.py:92-95 | selects the clamped navigation target and returns its record |
| BackendController.EvidenceController.ToggleStatus | web/backend/src/mapwisefox/web/controller/_evidence.py:114-132 | writes the flag and cleaned reasons into the row, fails without change when the row cannot be read, and reports a change exactly when the flag changed and no reason was dropped |
| BackendController.EvidenceController.Update | web/backend/src/mapwisefox/web/controller/_evidence.py:97-100 | writes the row with the flag `any_to_bool` reads from the request, or fails without change on an unknown id (KeyError), or on a row that does not validate, a rejected word or a date the serialiser rejects (each a ValueError); the id bounds stay |
| BackendController.EvidenceController.SaveCurrentRecord | web/backend/src/mapwisefox/web/controller/_evidence.py:102-106 | writes the selected evidence back; a ValueError from reading or dumping it is swallowed, any other failure passed on, both without change |
| EvidenceView.SplitReasons | web/backend/src/mapwisefox/web/controller/_evidence_viewmodel.py:42-47 | every stored reason split on "," and stripped: never fewer pieces than reasons |
| EvidenceView.SplitReasonsPieces | web/backend/src/mapwisefox/web/controller/_evidence_viewmodel.py:43-47 | every piece is stripped and holds no "," |
| EvidenceView.SplitReasonsOfClean | web/backend/src/mapwisefox/web/controller/_evidence_viewmodel.py:43-47 | clean reasons without "," come through the split unchanged |
| EvidenceView.StripAddsNothing | web/backend/src/mapwisefox/web/controller/_evidence_viewmodel.py:44 | stripping adds no character |
| EvidenceView.CoercedDate | web/backend/src/mapwisefox/web/controller/_evidence_viewmodel.py:33 | after the evidence coercion the date is a date or None |
| EvidenceView.CoercedHasShape | web/backend/src/mapwisefox/web/controller/_evidence_viewmodel.py:33 | the coerced evidence holds a parsed reason list for the view's own steps |
| EvidenceView.StatusWord | web/backend/src/mapwisefox/web/controller/_evidence_viewmodel.py:57 | "include" exactly for a true flag, "exclude" otherwise |
| EvidenceView.AddSearchLinkAndDate | web/backend/src/mapwisefox/web/controller/_evidence_viewmodel.py:34-41 | a missing URL becomes a search link on the title, a KeyError without a title; a date gives its day as text; other fields kept |
| EvidenceView.SplitReasonsAndSetInclude | web/backend/src/mapwisefox/web/controller/_evidence_viewmodel.py:42-50 | the reasons are split on ","; include is True exactly when there were none |
| EvidenceView.AddVenueAndDoiLinks | web/backend/src/mapwisefox/web/controller/_evidence_viewmodel.py:52-56 | a placeholder for a missing venue, both DOI links when there is a DOI, other fields kept |
| EvidenceView.FillDisplayFields | web/backend/src/mapwisefox/web/controller/_evidence_viewmodel.py:34-57 | KeyError only for a missing URL without a title; otherwise the URL or the title's search link, the day of a date (published_at untouched without one), the split reasons, include exactly when none, the status word agreeing with include, the venue or its placeholder, both DOI links when there is a DOI, and every other field kept |
| EvidenceView.CoerceView | web/backend/src/mapwisefox/web/controller/_evidence_viewmodel.py:30-58 | the evidence coercion's error is the view's error; otherwise the view shows the coerced evidence with every display field set as the view states and every other field kept |
| EvidenceView.PublishedAtIsStoredDay | web/backend/src/mapwisefox/web/controller/_evidence_viewmodel.py:40-41 | the shown day text is a prefix of the stored ISO date, which only adds the time part |
| EvidenceView.ViewDumpValue | web/backend/src/mapwisefox/web/controller/_evidence_viewmodel.py:60-64 | the view hands list fields and include on as they are |
| EvidenceView.ViewDumpKeepsListsAndFlag | web/backend/src/mapwisefox/web/controller/_evidence_viewmodel.py:60-64 | where the evidence dump joins reasons and writes a flag word, the view keeps the list and the boolean; dates serialise alike |
| LegacyController.LegacyNextId | web/src/mapwisefox/web/controller/_evidence.py:66-68 | the successor id, except that `or -1` also turns a successor of 0 into -1 |
| LegacyController.LegacyPrevId | web/src/mapwisefox/web/controller/_evidence.py:70-72 | the predecessor id, except that `or -1` also turns a predecessor of 0 into -1 |
| LegacyController.LegacyPrevIdMissesZero | web/src/mapwisefox/web/controller/_evidence.py:70-72 | with ids 0 and 1 and the selection on 1, the predecessor is 0 but `prev_id` gives -1 |
| LegacyController.LegacyNextIdMissesZero | web/src/mapwisefox/web/controller/_evidence.py:66-68 | with ids 0 and 1 and no selection, the successor is 0 but `next_id` gives -1 |
| LegacyController.NextNonSpecified | web/src/mapwisefox/web/controller/_evidence.py:43-50 | -1 exactly when there is no include column or no unfilled row; otherwise the position of the first row whose include cell is empty, None or NaN |
| LegacyController.FirstUnfilledPosition | web/src/mapwisefox/web/controller/_evidence.py:47-50 | the position of the first unfilled row, -1 exactly when every row is filled |
| LegacyController.NextNonSpecifiedId | web/src/mapwisefox/web/controller/_evidence.py:150-151 | the id of the first unfilled row, an unfilled row of the sheet, or -1 when there is none |
| LegacyController.NextNonSpecifiedIsPosition | web/src/mapwisefox/web/controller/_evidence.py:43-50 | with ids 1 and 2 and only row 2 unfilled, `next_non_specified` gives 1, the id of the decided row, where the intended id is 2 |
| LegacyController.IdInRange | web/src/mapwisefox/web/controller/_evidence.py:58-64 | every id lies between the first and last ids, and the first id is an id of the sheet |
| LegacyController.PrevExists | web/backend/src/mapwisefox/web/model/_repo.py:75-76 | with an id below the current one, the predecessor is an id of the sheet |
| LegacyController.NextExists | web/backend/src/mapwisefox/web/model/_repo.py:72-73 | with an id above the current one, the successor is an id of the sheet |
| LegacyController.ClampedPrevIsPredecessor | web/src/mapwisefox/web/controller/_evidence.py:70-91 | with no negative id, clamping `prev_id` gives the true predecessor, so the `or -1` slip does not show |
| LegacyController.ClampedNextIsSuccessor | web/src/mapwisefox/web/controller/_evidence.py:66-91 | with no negative id, clamping `next_id` gives the true successor |
| LegacyController.Put | web/src/mapwisefox/web/controller/_evidence.py:121 | setting a dict key adds it at the end when it is new and keeps the keys distinct |
| LegacyController.Remove | web/src/mapwisefox/web/controller/_evidence.py:123-124 | deleting a dict key keeps the other keys in order |
| LegacyController.DistinctCons | web/src/mapwisefox/web/controller/_evidence.py:112-114 | a new key in front of distinct keys keeps them distinct |
| LegacyController.ReasonKeys | web/src/mapwisefox/web/controller/_evidence.py:112-114 | every key is stripped |
| LegacyController.ReasonKeysAreFirstOccurrences | web/src/mapwisefox/web/controller/_evidence.py:112-114 | the keys are the stripped non-empty reasons, each once, in first-occurrence order |
| LegacyController.ExistingReasons | web/src/mapwisefox/web/controller/_evidence.py:112-116 | the stored reasons' keys without the placeholder: distinct, stripped, exactly the stripped non-empty reasons other than the placeholder |
| LegacyController.LegacyEvidenceController.constructor | web/src/mapwisefox/web/controller/_evidence.py:32-35 | a controller over the rows, with no selection |
| LegacyController.LegacyEvidenceController.SetSelectedIndex | web/src/mapwisefox/web/controller/_evidence.py:89-91 | the selection is the value clamped into the first and last ids |
| LegacyController.LegacyEvidenceController.CurrentRecordId | web/src/mapwisefox/web/controller/_evidence.py:93-97 | a ValueError with no selection, otherwise the selected id |
| LegacyController.LegacyEvidenceController.UpdateExcludeReason | web/src/mapwisefox/web/controller/_evidence.py:110-133 | the new reasons are distinct, gain or lose exactly the toggled reason, keep their order, and a newly excluded reason goes last; include holds exactly when none are left; changed holds exactly when the count moved |
| LegacyController.LegacyEvidenceController.HandleNavigation | web/src/mapwisefox/web/controller/_evidence.py:184-199 | "next-unfilled" and "goto" redirect at once; next and prev move inside the bounds; anything else is a 400 error |
| LegacyController.NavigationStepsToNeighbour | web/src/mapwisefox/web/controller/_evidence.py:184-199 | with no negative id and the selection on an id, next and prev land on the neighbouring ids |
| QaAssignment.FloorDiv | split/src/mapwisefox/split/_qa_assignment.py:17 | Python's `//`: the quotient rounded down, for either sign of the divisor |
| QaAssignment.Range | split/src/mapwisefox/split/_qa_assignment.py:21 | the numbers 0 to n-1 in order |
| QaAssignment.Repeat | split/src/mapwisefox/split/_qa_assignment.py:21 | the list repeated, empty for a count of zero or less |
| QaAssignment.PySlice | split/src/mapwisefox/split/_qa_assignment.py:25 | a slice within bounds is the plain slice and never longer than the list |
| QaAssignment.Blocks | split/src/mapwisefox/split/_qa_assignment.py:24-27 | one block per paper |
| QaAssignment.Loads | split/src/mapwisefox/split/_qa_assignment.py:31-32 | one load per evaluator |
| QaAssignment.AssignPapers | split/src/mapwisefox/split/_qa_assignment.py:11-35 | more evaluations than evaluators is an AssertionError, zero evaluators a ZeroDivisionError, and no other error arises |
| QaAssignment.RepeatAt | split/src/mapwisefox/split/_qa_assignment.py:21 | the i-th of a repeated list is its (i mod length)-th element |
| QaAssignment.DistinctCountBound | split/src/mapwisefox/split/_qa_assignment.py:28 | a block has at most as many distinct people as places, exactly as many without repeats |
| QaAssignment.RepeatCount | split/src/mapwisefox/split/_qa_assignment.py:21 | in range(n) repeated c times everybody appears c times |
| QaAssignment.FlattenBlocks | split/src/mapwisefox/split/_qa_assignment.py:24-31 | the blocks together are the front of the roster |
| QaAssignment.PeopleLength | split/src/mapwisefox/split/_qa_assignment.py:16-21 | the roster has exactly one place per evaluation when the evaluators divide the work, fewer otherwise |
| QaAssignment.BlockOfRoster | split/src/mapwisefox/split/_qa_assignment.py:24-27 | when the evaluators divide the work, block j holds the k evaluators that follow the first j*k places, in turn |
| QaAssignment.RosterAt | split/src/mapwisefox/split/_qa_assignment.py:21 | the roster names the evaluators in turn |
| QaAssignment.BlockDistinct | split/src/mapwisefox/split/_qa_assignment.py:28 | when the evaluators divide the work, no block names an evaluator twice |
| QaAssignment.ShortLastBlock | split/src/mapwisefox/split/_qa_assignment.py:24-28 | when they do not, the last block is short |
| QaAssignment.DividedWorkSucceeds | split/src/mapwisefox/split/_qa_assignment.py:11-35 | when the evaluators divide the work both assertions pass and every evaluator carries the same load |
| QaAssignment.UndividedWorkFails | split/src/mapwisefox/split/_qa_assignment.py:28 | when they do not, the block assertion fails |
| QaAssignment.NegativeCountFails | split/src/mapwisefox/split/_qa_assignment.py:12-28 | a negative count per paper fails the block assertion |
| QaAssignment.NoPapersSucceeds | split/src/mapwisefox/split/_qa_assignment.py:11-35 | without papers there are no blocks and every load is 0 |
| QaAssignment.AssignPapersSucceedsIff | split/src/mapwisefox/split/_qa_assignment.py:11-35 | the split returns exactly when there are evaluators, no more evaluations than evaluators, and either no papers or a count that is non-negative and divides the work |
| QaAssignment.AssignedBlocks | split/src/mapwisefox/split/_qa_assignment.py:24-28 | a returned assignment has one block per paper and every block names eval_count different evaluators |
| QaAssignment.AssignedLoads | split/src/mapwisefox/split/_qa_assignment.py:30-33 | a returned assignment has one load per evaluator, and each load is an equal share of all the evaluations |
| QaAssignment.ValidateEvaluationCount | split/src/mapwisefox/split/_qa_assignment.py:38-50 | other options and a missing evaluator count pass; otherwise a missing count (no -k) is a TypeError and a count outside 1..evaluators a BadParameter; a count that passes is returned unchanged |
| QaAssignment.ValidatedCountAssigns | split/src/mapwisefox/split/_qa_assignment.py:38-50 | a count the option check accepts clears the first assertion, and the split then returns exactly when the evaluators divide the work |
| Deduper.CleanText | deduplication/src/mapwisefox/deduplication/_deduper.py:9-10 | the cleaned text has no capital letter, no quote or space at either end, and is never longer |
| Deduper.CleanValue | deduplication/src/mapwisefox/deduplication/_deduper.py:9-10 | a cleaned value has no capital letter and no quote or space at either end; a string is cleaned as text |
| Deduper.CleanTextFixpoint | deduplication/src/mapwisefox/deduplication/_deduper.py:9-10 | a text is its own cleaning exactly when it has no capital letter and no quote or space at either end |
| Deduper.CleanValueIdempotent | deduplication/src/mapwisefox/deduplication/_deduper.py:9-10 | cleaning a cleaned value changes nothing |
| Deduper.CleanRecord | deduplication/src/mapwisefox/deduplication/_deduper.py:13-14 | the same columns, every value cleaned |
| Deduper.CleanRecordIdempotent | deduplication/src/mapwisefox/deduplication/_deduper.py:13-14 | cleaning a cleaned record changes nothing |
| Deduper.LoadDedupeData | deduplication/src/mapwisefox/deduplication/_deduper.py:35-38 | one cleaned record per row, keyed by its position |
| Deduper.Zip | deduplication/src/mapwisefox/deduplication/_deduper.py:78 | Python's `zip`: the pairs up to the shorter list |
| Deduper.BuildClusterMap | deduplication/src/mapwisefox/deduplication/_deduper.py:76-82 | the loop builds the cluster map the partition defines |
| Deduper.AddPairsAt | deduplication/src/mapwisefox/deduplication/_deduper.py:78-82 | a listed record gets this cluster and the score of its last pair; any other record keeps its entry |
| Deduper.ClusterMapKeys | deduplication/src/mapwisefox/deduplication/_deduper.py:76-82 | the map holds exactly the records the partition lists |
| Deduper.LastClusterWins | deduplication/src/mapwisefox/deduplication/_deduper.py:76-82 | each listed record is sent to the last cluster that lists it, with that cluster's last score for it |
| Deduper.ClusterColumns | deduplication/src/mapwisefox/deduplication/_deduper.py:83-86 | a KeyError exactly when some row is missing from the map; otherwise row i reads its own entry |
| Deduper.ColumnsOfCoveringPartition | deduplication/src/mapwisefox/deduplication/_deduper.py:76-86 | when the partition lists every row, each row gets the last cluster that lists it |
| Deduper.UnlistedRowFails | deduplication/src/mapwisefox/deduplication/_deduper.py:83-86 | a row no cluster lists raises KeyError |
| Deduper.UrlRelevance | deduplication/src/mapwisefox/deduplication/_deduper.py:90-95 | 0 for a missing URL or "N/A", 1 for a DOI link, 2 for any other link |
| Deduper.FirstMax | deduplication/src/mapwisefox/deduplication/_deduper.py:99 | the first position of maximal key |
| Deduper.Representative | deduplication/src/mapwisefox/deduplication/_deduper.py:99 | the first row of highest confidence |
| Deduper.LongestDoi | deduplication/src/mapwisefox/deduplication/_deduper.py:110 | the first longest DOI |
| Deduper.MostRelevantUrl | deduplication/src/mapwisefox/deduplication/_deduper.py:111 | the first URL of highest relevance |
| Deduper.ImageMembers | deduplication/src/mapwisefox/deduplication/_deduper.py:100-102 | the set comprehension holds exactly the images of the pieces |
| Deduper.UnionOfConcat | deduplication/src/mapwisefox/deduplication/_deduper.py:100-102 | the union over two groups together is the union of the two unions |
| Deduper.UnionOfMembers | deduplication/src/mapwisefox/deduplication/_deduper.py:100-102 | a key is in the union exactly when some row contributes it |
| Deduper.MergeCluster | deduplication/src/mapwisefox/deduplication/_deduper.py:98-115 | an empty group is a ValueError; a keywords cell that is not a string (NaN for an empty cell) is an AttributeError; otherwise include is None and the keywords are every key of the group |
| Deduper.MergeClusterFilled | deduplication/src/mapwisefox/deduplication/_deduper.py:98-115 | with missing keywords read as "", only an empty group fails (ValueError), and on string cells it is the merge as written |
| Deduper.MergeClusterFailsOnEmptyKeywords | deduplication/src/mapwisefox/deduplication/_deduper.py:100-102 | a one-row group whose keywords cell is NaN fails with AttributeError as written and merges once filled |
| Deduper.MergedRowChoices | deduplication/src/mapwisefox/deduplication/_deduper.py:98-115 | the merged bibliographic columns come from the first row of highest confidence, the DOI is the first longest, the URL the first most relevant |
| Deduper.MergedKeywordsAreUnion | deduplication/src/mapwisefox/deduplication/_deduper.py:100-102 | the keys of two groups together are the union of their keys |
| Deduper.MergedKeysAreClean | deduplication/src/mapwisefox/deduplication/_deduper.py:100-102 | a merged key is exactly a normalised piece of some row's keywords cell, and is stripped and uncapitalised |
| Deduper.StripLowerClean | deduplication/src/mapwisefox/deduplication/_deduper.py:101 | `key.lower().strip()` is stripped and has no capital letter |
| Deduper.MergedUrlPrefersPlainLink | deduplication/src/mapwisefox/deduplication/_deduper.py:90-111 | when some row has a plain link, the merged URL is a plain link |
| Deduper.MergedUrlOfMissingLinks | deduplication/src/mapwisefox/deduplication/_deduper.py:90-111 | when every URL is missing, the merged URL is the first row's |
| Snowballing.SanitizeDetail | snowballing/src/mapwisefox/snowballing/__cli.py:12-14 | only the URL changes |
| Snowballing.SanitizedUrl | snowballing/src/mapwisefox/snowballing/__cli.py:12-14 | a tagged DOI's URL is the resolver link to the bare DOI; an untagged DOI is its own URL |
| Snowballing.WithRef | snowballing/src/mapwisefox/snowballing/__cli.py:17-24 | every listed identifier gains the paper's DOI and no other entry changes |
| Snowballing.WithRefSnoc | snowballing/src/mapwisefox/snowballing/__cli.py:20-23 | one more identifier gains the DOI on top of the earlier ones |
| Snowballing.AddRef | snowballing/src/mapwisefox/snowballing/__cli.py:17-24 | the loop starts from an empty map when given none and adds the paper's DOI under each identifier |
| Snowballing.WithRefIdempotent | snowballing/src/mapwisefox/snowballing/__cli.py:17-24 | adding the same paper twice is adding it once |
| Snowballing.CollectRefsMembers | snowballing/src/mapwisefox/snowballing/__cli.py:98-101 | the collected map holds exactly the identifiers some paper lists, each with the DOIs of exactly the papers that list it |
| Snowballing.SnowballSets | snowballing/src/mapwisefox/snowballing/__cli.py:102-112 | the two snowballs are disjoint, leave out the inputs and the excluded papers, and come from the references and the citations |
| Snowballing.SnowballPartition | snowballing/src/mapwisefox/snowballing/__cli.py:105-112 | a candidate lands in the backward snowball exactly when it cites no input, and in the forward one exactly when no input references it |
| Snowballing.RemoveDoiTagOfTagged | snowballing/src/mapwisefox/snowballing/__cli.py:41-46 | a tagged DOI loses its tag; an untagged one is unchanged |
| Snowballing.RemoveDoiPrefix | snowballing/src/mapwisefox/snowballing/__cli.py:41-46 | a dictionary with a string "doi" gets that DOI without its tag and keeps every other field; without "doi" it is unchanged; a non-string "doi" is an AttributeError; a string loses its tag; other values pass through |
| Snowballing.ReferencingIds | snowballing/src/mapwisefox/snowballing/__cli.py:30-31 | one tag-free DOI per referencing paper, in iteration order; none for a detail nobody references |
| Snowballing.ReferencingIdsOfMap | snowballing/src/mapwisefox/snowballing/__cli.py:30-31 | the referencing identifiers are exactly the tag-free DOIs of the papers in the map's entry |
| Snowballing.TransformDetail | snowballing/src/mapwisefox/snowballing/__cli.py:29-36 | a transformed detail has no citations or references, has the joined referencing ids and the authors joined with ";" ("" when absent), keeps the other fields, and fails exactly when the source's steps raise |
| Snowballing.JoinAuthors | snowballing/src/mapwisefox/snowballing/__cli.py:33 | a list or string of authors joins with ";", a list giving its items joined; anything else is a TypeError |
| Snowballing.JoinedAuthorsSplitBack | snowballing/src/mapwisefox/snowballing/__cli.py:33 | authors without ";" in their names split back out of the joined field |
| Snowballing.TransformDetails | snowballing/src/mapwisefox/snowballing/__cli.py:27-38 | the loop gives the transform of every detail, or the first error |
| Snowballing.TransformAllStops | snowballing/src/mapwisefox/snowballing/__cli.py:27-38 | once a prefix fails, the whole list fails with the same error |
| Snowballing.TryAllEach | snowballing/src/mapwisefox/snowballing/__cli.py:27-38 | the list succeeds exactly when every detail does, each into its own result |
| Snowballing.TransformAllEach | snowballing/src/mapwisefox/snowballing/__cli.py:27-38 | the details transform exactly when each does, each into its own transform |
| Snowballing.TransformedPaper | snowballing/src/mapwisefox/snowballing/__cli.py:27-38 | a paper's details always transform, and the written referencing ids split back into the tag-free DOIs |

## Left out

- FlatOutputAdapters.FlatResultOf: the Xplore `content_type` is the set of mapped document-type names. The source builds a list by walking a Python set, so its order is unspecified; it holds no duplicates, because the mapping is one-to-one.
- PDF rendering, layout-model inference, the `ProcessPoolExecutor` fan-out and debug drawing are foreign libraries, concurrency and I/O. Detections, page sizes and text runs are inputs.
- PDF parsing (pypdf page walking, pymupdf reading, the regex normalisation of line text) and the preprocessing, docling and caching extractors are file I/O over foreign libraries. The lines and runs they produce are inputs.
- The layout types' overlap ratio, layout-box union, `ensure_type` and box scaling are not defined in the modelled layout types. They are the `LayoutOps` parameters, and no property of them is assumed.
- `PdfMarkdownFileExtractor` is exported by the PDF package, but its definition is not part of this model.
- `LineHeuristics.Line`: the reader's `norm` text is an input and is only compared for equality. The reader's pattern is a raw string, `[\\W\\d_]+`, so it replaces runs of backslashes, "W", "d" and "_" rather than non-letters. This is not modelled because the reader is PDF I/O.
- Float rounding and roots: `round(x, 4)` is modelled over exact reals with ties to even, and `sqrt` is a parameter. Binary floating-point error is not modelled.
- The greedy merge is not claimed to be idempotent or independent of input order, since the code promises neither.
- The LLM clients and LLM-driven commands, the HTTP search back ends, file downloads and the Semantic Scholar requests of the snowballing command are network calls. The papers those requests return are inputs of `Snowballing`.
- `TreeEmitters.EmitExpr` for Springer: the current month comes from the clock, so it is the `month` field of the `Springer` flavour.
- Springer's `_build_regex` has no stated contract, and its output depends on stack-pop order. It is not modelled.
- The statistics modules (kappa, ICC, CCC, error metrics, sampling) are floating-point numerics delegated to numpy and sklearn.
- Spreadsheet, bibtex and dataframe loading and writing (including the repository's Excel writing) are file I/O. The rows are inputs, and the repository's rows are a sequence.
- The dedupe library's training and partitioning are a foreign library. The partition it returns is an input of `Deduper`.
- `Deduper.MergeCluster`: the keyword union is a set. The source builds a Python set and then joins it, so the join order is not defined.
- `Snowballing.ReferencingIds`: the order in which a Python set yields the referencing ids is not defined. It is an input (`order`), and `Snowballing.ReferencingIdsOfMap` proves that the joined ids are exactly the set's members with their tag removed.
- `EvidenceModel.ParseDate`: parsing a non-digit date string through `arrow` is the `external` parameter, so for such a string the contract states only that the result is the external parser's date, and a ValueError when it fails; what `arrow` accepts is not modelled. `str.isdigit()` is modelled on ASCII digits only.
- `EvidenceValidation.FieldValue`: pydantic's lax conversions other than the boolean ones are not modelled. A digit text or an integral float as the cluster id, a non-text item in a list field and a text in the date field (which the model validator has already parsed) are rejected rather than converted. On the back end the cluster id always comes from the index as an int.
- `EvidenceValidation.NewEvidence` reads fields by name only. The camelCase aliases (`clusterId`, `publicationDate`, ...) that `populate_by_name` also accepts are not modelled.
- `LegacyEvidenceModel.LegacyNewEvidence` accepts only an int cluster id, for the same reason. How the older app builds its evidence is not part of this model.
- `PyValues.DateTime` carries no UTC offset. This matches the back end, whose dates are naive: the digit branch builds a naive date and the `arrow` branch drops the offset with `replace(tzinfo=None)`. The older model makes every date UTC-aware (`tzinfo=UTC`, `.to("UTC")`), so the "+00:00" that `isoformat()` writes for its dates is not modelled.
- EvidenceRepo.Lookup: on an id the index holds more than once, `df.loc[id]` gives a frame of all those rows, which the source then treats as one record; the model returns the first such row instead. `EvidenceRepo.LookupDistinct` states the case of an index without repeated ids, which `EvidenceRepo.UpdateKeepsOthers` shows updates preserve; the loader does not check it.
- EvidenceRepo.PandasRepo.Get reads a repeated id through `EvidenceRepo.Lookup`, with the same simplification.
- `EvidenceView.CoerceView` models the view's model validator. The field validation that follows it (the view is an `Evidence` subclass with four optional text fields) is not modelled.
- `EvidenceView.AddSearchLinkAndDate`: `urlencode` is the `encode` parameter, so the search link is stated as the fixed prefix followed by the encoded title.
- The FastAPI routes, templates, OAuth, static files, settings, the React front end and `KeyedInstanceCache` are the web surface, and the cache is concurrent. None of them is modelled.
- `LegacyController.LegacyEvidenceController.HandleNavigation` models the decision of the navigation form. The record write before it and the page it renders are repository I/O and templating, which are not modelled.
- The back-end controller's id properties (`next_non_specified`, `first_non_specified`, `first_id`, `last_id`, `next_id`, `prev_id`) each call the repository's navigation with a fixed action, which is `EvidenceRepo.Navigate`. They get no members of their own. `count`, `all`, `filename`, `__hash__`, `__eq__` and the column aliases concern the dataframe and the file path, which are I/O.
- The older app's repository reads and writes are spreadsheet I/O. Its controller sees only the ordered ids.
- `Snowballing.SanitizeDetail` and `Snowballing.TransformDetail` return the changed detail instead of updating the dict in place, since no other holder of the dict is modelled.
- `SearchExpr.Add` returns the grown node instead of appending in place, so aliasing of a node shared between trees is not modelled.
- `Snowballing.RemoveDoiPrefix` states the case of a string only for DOIs that carry no tag or one leading tag (`Snowballing.RemoveDoiTagOfTagged`). The general case of `str.replace` (for instance "DDOI:OI:", which becomes "DOI:") is computed but not characterised.
- `SearchExpr.ToStr` states only that a group renders with a closing parenthesis. Its rendering is characterised through `SearchExpr.AddExtendsRendering` and `SearchExpr.AddToEmptyGroup`.
- Character classes are ASCII: Unicode whitespace, case folding, letters and digits are not modelled.
- The quality-assessment click command (argument parsing and file output) is I/O. Only `_assign_papers` and the count validator are modelled.

## Findings

| source | as written | input that shows it | evidently intended | confidence | as-written member | corrected member |
|---|---|---|---|---|---|---|
| assistant/src/mapwisefox/assistant/tools/pdf/_pdf.py:91-117 | `_prepare_text` never appends a text to `current_texts`, so no run is ever flushed and the result is always "" | any document with a text item that overlaps a Text box, e.g. one page, one item "a", one Text box containing it | each item's text is appended with `__append_text`, and runs of one role are rendered and joined | not executed | PdfFileExtraction.PdfTextFileExtractor.PrepareTextAsWritten | PdfFileExtraction.PdfTextFileExtractor.PrepareText |
| web/src/mapwisefox/web/controller/_evidence.py:66-72 | `prev_id`/`next_id` end in `or -1`, so a neighbour whose id is 0 is reported as -1 (no neighbour) | ids [0, 1] with selection 1 gives prev_id -1; the same ids with selection -1 give next_id -1 | the neighbour id itself, with -1 only when there is none | not executed | LegacyController.LegacyPrevIdMissesZero | EvidenceRepo.PrevIsPredecessor |
| deduplication/src/mapwisefox/deduplication/_deduper.py:98-102 | `_merge_cluster` calls `keys.split(";")` on every keywords cell, but the CSV loader fills only the doi and url columns, so an empty keywords cell is NaN and raises AttributeError, failing the whole merge | a one-row cluster whose keywords cell is empty (NaN) | a missing keywords cell contributes as the empty text, as the loader does for doi and url with `fillna` | not executed | Deduper.MergeClusterFailsOnEmptyKeywords | Deduper.MergeClusterFilled |
| web/src/mapwisefox/web/controller/_evidence.py:43-50 | `next_non_specified` returns `np.argmax` of the unfilled mask, a position in the frame, and the page (lines 150-151) selects it as a cluster id | ids 1 and 2 where only the row with id 2 has an empty include cell: the position is 1, so the page opens the decided row 1 | the id of the first unfilled row (`mask.idxmax()`), -1 when there is none | not executed; shows only on a sheet whose index is not 0..n-1 | LegacyController.NextNonSpecifiedIsPosition | LegacyController.NextNonSpecifiedId |
