# Cloudia word-cloud engine, modelled in Dafny

Cloudia lays out a word cloud from a list of topics. Each topic record has a
label, a sentiment score, a sentiment object, a mention volume and an id.
This project models the engine behind the cloud, and proves properties of it:

- **Schema check** (`schema.dfy`, built on the JSON value model in `json.dfy`).
  - A record is walked against the item schema key by key, as
    `_itemConformsToSchema` does: a missing key or a wrong `typeof` rejects it.
    A nested schema entry returns the nested verdict at once.
  - `hasOwnProperty` raises a TypeError on a null or undefined record, and on
    a record with an own `hasOwnProperty` key, which hides the method.
  - `_checkSchema` then either stops at the first bad record, or keeps only the
    passing ones in order when `ignoreBadItems` is set.
- **Size buckets** (`sizes.dfy`).
  - Distinct volumes are sorted. The closest adjacent pair is replaced by its
    mean until at most `sizeCount` values remain.
  - A volume's size class is one more than the index of its closest bucket.
  - Both scans start from the literal 999999 bound, and the model keeps it.
    When no difference is below it, the first pair is merged or the first
    bucket chosen, as the code does.
- **Topics** (`topics.dfy`).
  - The sentiment category uses thresholds 60 and 40.
  - The size class is computed per topic.
  - The topic order is a stable sort by descending volume.
- **Overlap test and placement** (`geometry.dfy`, `placement.dfy`).
  - A candidate rectangle clashes with a placed one unless it is strictly
    separated along x or y.
  - The search starts centred. It then moves out by `generationSpeed` per ring
    and tries rotations `0, rotationStep, ...` below 360 degrees.
  - `IsPlacement` is the declarative form of the search's answer: the centred
    rectangle if it is free, else the first free probe in search order. A
    ring after the first counts only with a positive rotation step. With a
    step of 0 or less the rotation never reaches 360 degrees, so the source
    never leaves the first ring.
- **The cloud object** (`cloud.dfy`). `Cloudia.Cloud` is a class whose methods
  update its fields in place, as the source's methods do. The fields are the
  settings, the buckets, `topics` and `positions`.
  - The class holds the setup path (`_initialise`, `_createCloudFromData`) and
    the word setters (`_setWordProperties`, `_setWordSize`,
    `_setWordPosition`).
  - It also holds `_layoutWords`, `_resize` and the three reconfiguration
    methods.
  - `_createWord` reads `item['sentiment']['positive']`. That throws for a
    topic whose `sentiment` is null, right after the topic is dressed. The
    model ends the setup there too, before any layout.
- **Message formatting** (`format.dfy`).
  - `_formatString` looks up a template and replaces the first `{string}`.
  - The replacement follows the `$`-pattern rules of `String.prototype.replace`
    (ECMA-262, section 22.1.3.19.1, GetSubstitution).

Design choices:
- Numbers are `real`. Counts and speeds cut by `parseInt` are `int`.
- The cosine/sine step of the search is a function `offset(moveAmount,
  rotation)`, held by the cloud.
- The rendered size of a word is a function `measure(topic)`.
- The source's placement loop has no bound. The model's search takes a probe
  budget `fuel`. It gives up, without changing anything, only after the
  centred rectangle and the first `fuel` probes in the source's order have all
  overlapped, and it succeeds only when they have not. A layout pass is
  described by `LaidOutWithin`: each word is where the search puts it, each
  was found within the budget, and a pass that stops does so at a word whose
  search used every probe. Every method that lays the words out states it.
- When there are more distinct volumes than `sizeCount`, and `sizeCount` is
  below 1, `_calculateSizeRange` loops forever. This includes a negative
  count with no topics: merging an empty list yields `[NaN]`, which is still
  longer than the count. The model returns `None` (or
  `Diverges`) there.

## Model

| member | source | states |
|---|---|---|
| Json.TypeOf | src/Cloudia.js:150-153 | `typeof` is "object" exactly for null, arrays and objects |
| Schema.ConformsFrom | src/Cloudia.js:145-159 | the walk from the `i`-th key throws only while keys remain, and does throw on a value where `hasOwnProperty` cannot be called; EarlyKeyRejected, FullyConformingAccepted, FlatSchemaExact, NestedEntryDecides and ShallowAfterNested characterise its answer |
| Schema.ItemConforms | src/Cloudia.js:145-159 | an empty schema accepts anything; on a value where `hasOwnProperty` cannot be called, any non-empty schema throws |
| Schema.EarlyKeyRejected | src/Cloudia.js:145-159 | a key before any nested entry that is missing, or present with the wrong type, makes the record fail |
| Schema.FullyConformingAccepted | src/Cloudia.js:145-159 | a record with every key present and typed, nested schemas included, passes |
| Schema.FlatSchemaExact | src/Cloudia.js:145-159 | for a schema without nested entries, passing is exactly "every key present with the right type" |
| Schema.NestedEntryDecides | src/Cloudia.js:150-152 | on reaching the first nested entry, the verdict is the nested record's verdict |
| Schema.ShallowAfterNested | src/Cloudia.js:150-152 | a record can pass while missing a key that follows a nested entry |
| Schema.ItemSchemaVerdict | src/Cloudia.js:455-461 | with the shipped schema, a record passes iff it is an object with string label and id, numeric sentimentScore and volume, and an object-typed sentiment; it throws iff it is null or undefined or has its own `hasOwnProperty` key |
| Schema.FirstBad | src/Cloudia.js:125-131 | the index of the first record that does not pass; all before it pass |
| Schema.Kept | src/Cloudia.js:132-140 | the kept records are passing records of the input, never more of them |
| Schema.KeptConcat | src/Cloudia.js:132-140 | filtering distributes over concatenation, so the original order is kept |
| Schema.KeptAll | src/Cloudia.js:132-140 | when every record passes, nothing is dropped |
| Schema.Checked | src/Cloudia.js:120-143 | on success `topics` is an array; every record in the result passes; without `ignoreBadItems` the list is unchanged, with it it never grows |
| Schema.CheckSchema | src/Cloudia.js:120-143 | the loop over the records yields exactly the outcome `Checked` defines: TypeError on null data, a non-array `topics` or a null record; the missing-topics error; the first bad index; or the list in effect afterwards |
| Schema.CheckedModesAgree | src/Cloudia.js:120-143 | when every record passes, both settings of `ignoreBadItems` give the original list |
| Sizes.Insert | src/Cloudia.js:167-169 | inserting keeps the elements, as a multiset, plus the new one |
| Sizes.Sort | src/Cloudia.js:167-169 | sorting is a permutation |
| Sizes.SortAscending | src/Cloudia.js:167-169 | the sort yields an ascending sequence |
| Sizes.SortStrict | src/Cloudia.js:167-169 | sorting values without duplicates yields a strictly ascending sequence |
| Sizes.SortSorted | src/Cloudia.js:361-363 | an ascending input is left as it is |
| Sizes.PairUpToSpec | src/Cloudia.js:364-373 | the scan picks the lowest index of minimal gap among gaps below 999999, and index 0 when there is none |
| Sizes.ChosenPairSpec | src/Cloudia.js:364-373 | the chosen pair meets the declarative closest-pair description |
| Sizes.ClosestPairUnique | src/Cloudia.js:364-373 | that description pins down a single pair |
| Sizes.MergeAtStrict | src/Cloudia.js:375 | replacing an adjacent pair of a strictly ascending sequence by its mean keeps it strictly ascending |
| Sizes.MergeAtBounded | src/Cloudia.js:375 | the merge stays within the bounds of its input |
| Sizes.MergeClosest | src/Cloudia.js:360-377 | `_averageClosesValues` returns one value fewer; MergeClosestSpec says which pair is merged |
| Sizes.MergeClosestSpec | src/Cloudia.js:360-377 | on a strictly ascending input, the pair merged is the closest pair and the result is strictly ascending |
| Sizes.AverageClosestValues | src/Cloudia.js:360-377 | the method (sort, scan loop, splice) returns one element fewer, equal to the closest-pair merge |
| Sizes.Distinct | src/Cloudia.js:162-166 | the deduplicated volumes have no duplicates, the same members, and are no longer than the input |
| Sizes.Reduce | src/Cloudia.js:170-172 | the loop ends with the smaller of the number of values and `count`; ReduceSpec and ReduceBounded give order and range |
| Sizes.SizeRange | src/Cloudia.js:161-174 | there are as many buckets as distinct volumes, capped at `sizeCount`; SizeRangeSpec gives order, range and the uncapped case |
| Sizes.ReduceSpec | src/Cloudia.js:170-172 | repeated merging keeps the values strictly ascending, stops at the smaller of the length and `count`, and changes nothing when `count` is large enough |
| Sizes.ReduceBounded | src/Cloudia.js:170-172 | repeated merging stays within the value range |
| Sizes.SizeRangeSpec | src/Cloudia.js:161-174 | the buckets are strictly ascending, `min(#distinct volumes, sizeCount)` in number, equal to the sorted distinct volumes when `sizeCount` allows, and within the volume range |
| Sizes.CalculateSizeRange | src/Cloudia.js:161-174 | the method yields the specified buckets when `sizeCount >= 1`; when `sizeCount < 1` it diverges iff there are more distinct volumes than `sizeCount`, and otherwise yields no buckets |
| Sizes.Closest | src/Cloudia.js:346-358 | index 0 for no buckets, otherwise a valid index |
| Sizes.ClosestUpToSpec | src/Cloudia.js:346-358 | after each step of the scan, the index is the closest so far under the 999999 bound |
| Sizes.ClosestSpec | src/Cloudia.js:346-358 | the result is the lowest index of minimal distance when some distance is below 999999, and 0 otherwise |
| Sizes.ClosestUnique | src/Cloudia.js:346-358 | that description pins down a single index |
| Sizes.GetClosestArrayItem | src/Cloudia.js:346-358 | the scanning method returns the closest index so described |
| Sizes.MergeOfThree | src/Cloudia.js:360-377 | for three ascending values with the first gap not larger, the first two merge |
| Sizes.ThreeVolumesOneBucket | src/Cloudia.js:161-174 | three such volumes with one size give the mean of the first two averaged with the third |
| Sizes.SingleBucketExample | src/Cloudia.js:161-174 | volumes 10, 20, 30 with one size give the single bucket 22.5 |
| Geometry.IsOverlappingExisting | src/Cloudia.js:297-308 | false with nothing placed; true iff some placed rectangle is not strictly separated from the candidate |
| Geometry.Overlaps | src/Cloudia.js:301-304 | a rectangle of non-negative size clashes with itself; OverlapsSymmetric, OverlapsIffSharedPoint and TouchingOverlaps characterise the test |
| Geometry.OverlapsSymmetric | src/Cloudia.js:301-304 | the rectangle test is symmetric |
| Geometry.OverlapsIffSharedPoint | src/Cloudia.js:301-304 | for non-negative sizes, two rectangles clash iff they share a point, borders included |
| Geometry.TouchingOverlaps | src/Cloudia.js:301-304 | rectangles that only touch count as overlapping |
| Geometry.DisjointAppend | src/Cloudia.js:283-288 | appending a rectangle that clashes with none keeps the placed set pairwise disjoint |
| Topics.FromRecord | src/Cloudia.js:455-461 | a passing record's label, id, volume, score and sentiment become the topic's, with no category or size yet |
| Topics.Classify | src/Cloudia.js:229-235 | positive iff score > 60, negative iff score < 40, neutral iff 40 <= score <= 60 |
| Topics.ClassifyMonotone | src/Cloudia.js:229-235 | a higher score never gives a less positive category |
| Topics.SizeClass | src/Cloudia.js:247 | the size class is 1 with no buckets, and between 1 and the number of buckets otherwise |
| Topics.SizeClassIsClosest | src/Cloudia.js:243-251 | no bucket is nearer than the one chosen, and earlier buckets are strictly farther, whenever some bucket lies within 999999 |
| Topics.Volumes | src/Cloudia.js:162-166 | the volumes of the topics, in order |
| Topics.InsertByVolume | src/Cloudia.js:189-191 | inserting keeps the topics, as a multiset, plus the new one |
| Topics.SortByVolume | src/Cloudia.js:189-191 | the popularity sort is a permutation |
| Topics.InsertNonIncreasing | src/Cloudia.js:189-191 | inserting into a non-increasing list keeps it non-increasing |
| Topics.InsertWithVolume | src/Cloudia.js:189-191 | the inserted topic goes ahead of the list's topics of its volume; inserting each topic into the sorted rest of the list therefore keeps equal volumes in their original order |
| Topics.SortByVolumeOrdered | src/Cloudia.js:189-191 | the sorted topics are in non-increasing volume |
| Topics.SortByVolumeStable | src/Cloudia.js:189-191 | topics of equal volume keep their relative order |
| Placement.TurnsBelow | src/Cloudia.js:262-276 | the rotations one ring tries are exactly those before the first at or past 360 degrees |
| Placement.NthProbe | src/Cloudia.js:262-276 | the probes in the order the nested loops try them: ring 1 onwards, each at a turn whose rotation is below 360 degrees |
| Placement.NthProbeOrdered | src/Cloudia.js:262-276 | each probe comes strictly after the ones before it (a later ring, or a later turn of the same ring), so none is tried twice |
| Placement.ExhaustedBefore | src/Cloudia.js:262-276 | once every turn of the earlier rings and the earlier turns of the current ring overlap, so do all probes counted before the current one |
| Placement.FullTurnNeedsStep | src/Cloudia.js:264-276 | a ring's rotation reaches 360 degrees only with a positive rotation step, so with a step of 0 or less the search stays in the first ring |
| Placement.IsPlacement | src/Cloudia.js:253-291 | an accepted position clashes with nothing placed; PlacementFree, PlacementUnique and FirstFreeProbeUnique characterise it, and SetWordPosition is proved to produce it |
| Placement.PlacementFree | src/Cloudia.js:253-291 | an accepted position has the word's size and clashes with nothing placed |
| Placement.FirstFreeProbeUnique | src/Cloudia.js:262-276 | two first free probes coincide |
| Placement.PlacementUnique | src/Cloudia.js:253-291 | the search's answer is unique for given placed rectangles and word size |
| Placement.LayoutUnique | src/Cloudia.js:186-203 | two layout passes of the same length over the same sizes and parameters place every word identically |
| Placement.UnexhaustedAt | src/Cloudia.js:253-276 | every word of a layout built within the budget was placed before the search ran out of probes |
| Placement.UnexhaustedExtend | src/Cloudia.js:253-276 | placing the next word within the budget keeps that true of the longer layout |
| Placement.ShorterLayoutAgrees | src/Cloudia.js:186-203 | a layout pass that stopped at an exhausted search cannot be shorter than another pass over the same sizes |
| Placement.LaidOutWithinUnique | src/Cloudia.js:186-203 | two layout passes with the same budget over the same sizes and parameters are identical, partial ones included: they stop at the same word and place every word before it alike |
| Placement.PlacedInOrderDisjoint | src/Cloudia.js:283-288 | a layout built word by word by the search is pairwise disjoint |
| Placement.PlacedInOrderExtend | src/Cloudia.js:283-288 | placing the next word where the search puts it extends the layout |
| Cloudia.ParseInt | src/Cloudia.js:389-397 | `parseInt` of a number truncates toward zero |
| Cloudia.CentreOf | src/Cloudia.js:98-107 | the middle of the container when it has a size in both directions, else the middle of the window |
| Cloudia.SizeClassesWithinCount | src/Cloudia.js:243-251 | with `sizeCount >= 1`, every size class is between 1 and `sizeCount` |
| Cloudia.Cloud.constructor | src/Cloudia.js:33-51 | an option that is absent or zero keeps the default (6 sizes, speed 10, step 20); counts and speeds are cut to integers; nothing is placed yet and the cloud is not laid out |
| Cloudia.Cloud.SetWordSize | src/Cloudia.js:243-251 | only topic `i` changes, and it gets the size class of its volume |
| Cloudia.Cloud.SetWordProperties | src/Cloudia.js:228-241 | only topic `i` changes, and it gets its category and its size class |
| Cloudia.Cloud.ResizeAll | src/Cloudia.js:382-385 | every topic gets its new size class; nothing else changes |
| Cloudia.FirstNullSentiment | src/Cloudia.js:217 | the first topic whose `sentiment` is null, where `_createWord` throws; all earlier ones are not null |
| Cloudia.Cloud.DressAll | src/Cloudia.js:179-182 | every topic gets its category and size class, in order, up to and including the first topic with a null `sentiment`; the pass succeeds iff there is none, and later topics are left untouched |
| Cloudia.Cloud.SetWordPosition | src/Cloudia.js:253-291 | on success exactly one rectangle is appended and earlier ones are unchanged; it is the search's answer (centred if free, else the first free probe in ring/turn order); on failure nothing changes, and the centred rectangle and every one of the first `fuel` probes in search order overlap a placed rectangle (`Exhausted`); on success the search was not exhausted, so success and failure are each decided by the state |
| Cloudia.Cloud.LayoutWords | src/Cloudia.js:186-203 | the topics are sorted by descending volume; the rectangles are the search's answers in that order, each found within `fuel` probes, and when not every word is placed the search for the next word exhausted its `fuel` probes (`LaidOutWithin`, which LaidOutWithinUnique shows fixes the layout, partial ones included); the rectangles are pairwise disjoint; the most popular word sits centred |
| Cloudia.Cloud.Resize | src/Cloudia.js:310-322 | only on a laid-out cloud: recentres, then the topics sorted by descending volume are laid out by the search within the budget (`LaidOutWithin`), complete exactly when every word is placed |
| Cloudia.Cloud.UpdateSizeCount | src/Cloudia.js:379-387 | only on a laid-out cloud: the count is `parseInt` of the value; the buckets are recomputed, every topic is resized and laid out again by the search within the budget (`LaidOutWithin`), or nothing changes where the source never returns |
| Cloudia.Cloud.UpdateGenerationSpeed | src/Cloudia.js:389-392 | only on a laid-out cloud: the speed is `parseInt` of the value, then a new layout by the search within the budget (`LaidOutWithin`) |
| Cloudia.Cloud.UpdateRotationStep | src/Cloudia.js:394-397 | only on a laid-out cloud: the step is `parseInt` of the value, then a new layout by the search within the budget (`LaidOutWithin`) |
| Cloudia.Cloud.CreateCloudFromData | src/Cloudia.js:177-184 | a failure at the first topic with a null `sentiment` iff there is one, with the topics up to it dressed and nothing laid out; otherwise the dressed topics sorted by descending volume and laid out by the search within the budget (`LaidOutWithin`, through `CreatedFrom`) |
| Cloudia.Cloud.CreateCloud | src/Cloudia.js:110-112 | no change where the size computation diverges, exactly when it does; otherwise the buckets from the topics' volumes, then the cloud built from the data as above |
| Cloudia.Cloud.Initialise | src/Cloudia.js:97-118 | centres; a schema failure leaves topics, buckets and positions untouched; otherwise no schema failure is reported, and the topics are the passing records, classified, sized and laid out, or the size computation diverges, or `_createWord` fails at the first null `sentiment`; the cloud counts as laid out exactly when the layout pass ran |
| Format.IndexOf | src/Cloudia.js:339 | the first index where the pattern occurs, or -1 when it does not occur |
| Format.Expand | src/Cloudia.js:340 | GetSubstitution leaves a replacement without a dollar sign unchanged; StatsTitleDollarAmpersand shows the `$&` case |
| Format.ReplaceFirst | src/Cloudia.js:340 | with no occurrence, `replace` leaves the string as it is |
| Format.ReplaceFirstLiteral | src/Cloudia.js:340 | with no occurrence, the verbatim replacement leaves the string as it is |
| Format.ReplaceFirstAgrees | src/Cloudia.js:340 | the two replacements agree when the value has no dollar sign |
| Format.ReplaceFirstLiteralUndo | src/Cloudia.js:340 | the verbatim replacement keeps the text around the value, and putting the pattern back gives the original |
| Format.Template | src/Cloudia.js:335-338 | an unknown language or a missing or empty template is an error; otherwise the stored template |
| Format.FormatString | src/Cloudia.js:334-344 | errors pass through; without a value or a placeholder the template is returned as it is |
| Format.FormatStringLiteral | src/Cloudia.js:334-344 | the same lookup with the value inserted verbatim |
| Format.FormatAgrees | src/Cloudia.js:334-344 | the two formatters agree on every value without a dollar sign |
| Format.StatsTitlePlaceholder | src/Cloudia.js:465 | the topic-title template's placeholder sits right after `Information on topic "` |
| Format.StatsTitleLiteral | src/Cloudia.js:465 | the verbatim formatter shows every label in the topic title |
| Format.StatsTitleAsWritten | src/Cloudia.js:340 | as written, a label without a dollar sign is shown verbatim |
| Format.StatsTitleDollarAmpersand | src/Cloudia.js:340 | as written, a topic labelled `$&` is shown with `{string}` in place of its label |

## Left out

- DOM work is not part of this model: word elements, class names, font sizes, `innerHTML`, `appendChild` and `_isDomElement`. A word's rendered width and height come from the `measure` function.
- `_createWord` is modelled by its call to `_setWordProperties` and by the TypeError that its read of a null `sentiment` raises. The metadata it renders goes through `_formatString`, which is modelled on its own and cannot throw for the `en` templates.
- Data acquisition is I/O and is not modelled: the URL fetch, `_dataReceived`, `JSON.parse` and the constructor's sniffing of the data option. `Initialise` takes the parsed value.
- The constructor's checks on the target element need the DOM and are not modelled.
- Option values are taken as numbers; string options and `parseFloat` of strings are left out.
- Timers and events are not modelled: the 250 ms debounces of the public setters and their `typeof` checks, and the resize listener.
- The resize listener passes `_resize` to `setTimeout` without binding it to the cloud. `Resize` models the method as the class defines it.
- The 100 ms per-word timeouts of `_layoutWords` are modelled as placing the words one after another. Interleaving of two layout passes started close together is not modelled.
- `Math.cos`, `Math.sin` and `_degreesToRads` are replaced by the `offset` function.
- Resize, UpdateSizeCount, UpdateGenerationSpeed and UpdateRotationStep require the ghost flag `laidOut`, which `Initialise` sets exactly when it returns `Laid`. When the data comes from a URL, `_dataReceived` (:86-94) catches a failed `_initialise`, so these methods can still be called. They can also be called when `JSON.parse` failed there and `_data` stayed null. In both cases they throw, on the null `_data` or on topics that have no word element. That throwing is not modelled.
- `_updateTextSize` (:399-403) sets the container's font size and then lays the words out again. `measure` is fixed when the cloud is built, so neither the font change nor that new layout is modelled.
- Floating-point rounding, NaN and the infinities are not modelled; numbers are exact reals.
- `hasOwnProperty` is modelled for objects only. The own index and `length` keys of strings and arrays are not modelled. Values hold no functions, so an own `hasOwnProperty` that is a function (possible only in data passed as an object) is not modelled; the model throws for every own `hasOwnProperty` key.
- Keys inherited from `Object.prototype` (such as `constructor`) in the translation lookup are not modelled.
- `_formatString` takes its value as a string; JavaScript's number-to-string conversion is not modelled.
- `console.warn` for skipped records is output only and is not modelled.
- `_averageClosesValues` sorts and splices its argument array in place; the caller never reads the old array again, so the model returns the new sequence.
- gruntfile.js is build configuration, with no program logic.
- Cloudia.Cloud.SetWordPosition: the source searches without bound. The model bounds the number of probes by `fuel`; when the budget runs out it states that the probes made all overlapped, but not where the unbounded search would end.
- Cloudia.ParseInt: numbers whose decimal form uses exponent notation (below 1e-6 or from 1e21 up) are parsed by `parseInt` from that string form; the model truncates the number itself.

## Findings

| source | as written | input that shows it | evidently intended | confidence | as-written member | corrected member |
|---|---|---|---|---|---|---|
| src/Cloudia.js:340 | the value goes through `String.prototype.replace`, which expands `$&`, `$$`, `` $` `` and `$'` in it | a topic labelled `$&` gets the title `Information on topic "{string}":` | the label shown verbatim: `Information on topic "$&":` | not executed | Format.StatsTitleDollarAmpersand | Format.StatsTitleLiteral |
