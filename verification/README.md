# Verified model of the Cowors admin back end and list screens

This project models the parts of the repository that compute something with invariants of their
own, and proves those invariants for every input and every run:

- **Time series** (`Calendar`, `IsoText`, `TrendBuckets`, `TrendLabels`, `TrendCacheKeys`): cutting a
  date range into buckets with JavaScript's calendar setters, the labels of the buckets, and the
  cache keys of the trend queries.
- **Dynamic pricing** (`DynamicPricing`, `PricingRules`): which rules apply to a booking, and what
  they make of its price.
- **List screens** (`Selections`, `StableSorting`, `ListPipeline`, `Pagination`, `ListScreen`): filter,
  search, stable sort and pages, and their composition. What it means to keep exactly the elements
  that pass a test, in order, is defined once in `Selections` and used wherever the code filters.
- **Partner categories** (`CategoryRegistry`, `CategoryTree`, `RuleVersions`, `RuleCache`): uniqueness
  over runs of requests, the tree of categories, subcategories and offerings, versions of replaced
  rule sets under failures, and the two caches in front of rule resolution.
- **Financial reports** (`ReportJobs`, `Grouping`, `BookingAnalytics`): the life of a report under
  every interleaving of its generation task with other requests, and the group-by summaries.
- **Smaller components**: the add-on slug (`AddonSlug`, `WhiteSpace`), the retention of health
  records (`HealthRetention`), the rename migration (`RenameMigration`), and the subcategory counts
  of the category screen (`SubcategoryCounts`).

`dafny verify dfyconfig.toml` checks everything. Times are integer milliseconds in UTC, money and
multipliers are exact reals. Stateful components are classes whose methods are proved against a
specification function of the old state; the theorems over runs are lemmas about those functions, and
other lemmas say what each of them does to every entry, name or row, without going through it.
Concurrency (report generation) is a step relation over interleaved events.

## Where the code does less than its names or comments promise

Each of these comes with a lemma at a concrete input and with the exact condition under which the
code does what its name says.

- Bucket labels are fixed slices of the ISO text. For years outside 0..9999 that text is longer, and
  two buckets of one month, day or year get the same label (`TrendLabels.LabelsCoincide`,
  `TrendLabels.MonthLabelsCollide`).
- A bucket whose end is beyond the last date JavaScript can hold counts for nothing, so the points of
  a series that reaches there fall short of the total by exactly the rows of that bucket
  (`TrendBuckets.RangeIsConserved`, `TrendBuckets.LastMomentIsLost`).
- The peak-hours test looks at the weekday of the booking's first day and compares minutes of the day
  only, so it misses bookings that meet a window after midnight, overnight bookings that end at an
  earlier minute than the window opens, and most bookings in a window that itself runs over midnight
  (`PricingRules.PeakHitExactly`, `PricingRules.NightWindowExactly`,
  `PricingRules.OvernightBookingsAreMissed`, `PricingRules.NightWindowIsMissed`).
- A seasonal rule never applies to a booking that ends after the year 9999
  (`PricingRules.SeasonalRuleMeansOverlap`, `PricingRules.SeasonBefore10000IsMissed`).
- A column that mixes numbers or dates with values of other kinds can compare in a cycle. It is
  ordered if and only if each value fits, as a string, in between any two numbers and any two dates
  (`ListPipeline.OrderedExactly`, `ListPipeline.MixedColumnHasACycle`).
- Setting a category's name or slug to the empty text skips the conflict check
  (`CategoryRegistry.UpdateKeepsUniqueExactly`, `CategoryRegistry.EmptyNamesClash`); the DTO forbids it.
- `rule-template.service.ts:177-189` keeps the version history in the category's `metadata` column,
  and the category service then saves the category it had loaded before. If saving writes that
  column back as loaded (TypeORM writes every column in which the saved entity differs from the
  row), the backup just made is undone. And an update of the category itself replaces rule sets
  without any backup, and the history when it gives metadata. `RuleVersions` proves what a run keeps:
  all of it when only rules are updated and saving leaves the history alone
  (`RuleVersions.NothingIsLost`), and exactly what in every other case (`RuleVersions.KnownExactly`,
  with `RuleVersions.FirstRulesAreLost` and `RuleVersions.RulesAreOverwritten`).
- No update invalidates the caches of effective rules: the deleted keys are never read
  (`RuleCache.DeletedKeysAreNeverRead`). The comment says "Cache for 15 minutes"; a read that fails
  after the resolution service has cached its result for 5 minutes, and before the answer is cached,
  lets a later answer be almost 20 minutes old (`RuleCache.ReadIsRecent`,
  `RuleCache.InterruptedReadIsStale`). Without such reads it is less than 15 minutes old
  (`RuleCache.ReadIsFresh`), and with them a cached answer stays so exactly if resolution still gave
  it when it was cached, or gave it again since (`RuleCache.CachedAnswerStaysFreshExactly`).
- A report stays GENERATING for ever if the write of the error handler in `create` fails; no other
  failed write has that effect (`ReportJobs.FinishedMeansRecorded`, `ReportJobs.ReportIsStuck`).
- Removing a subcategory does not look at its offerings, which go on naming it
  (`CategoryTree.DanglesExactly`, `CategoryTree.OfferingIsLeftBehind`).
- The migration's `down` renames a column that `up` found already present under the new name
  (`RenameMigration.DownAfterUp`, `RenameMigration.OldSchemaIsNotRestored`).

## Model

| member | source | states |
|---|---|---|
| `Calendar.MonthsTile` | backend-server/src/services/analytics.service.ts:548-550 | the months of the proleptic Gregorian calendar tile the days: each starts where the one before it, of its own length, ends |
| `Calendar.CivilRoundTrip` | backend-server/src/services/analytics.service.ts:536-551 | reading a day as month and date and making a day of them again is the identity, in both directions |
| `TrendBuckets.NextPeriodAdvances` | backend-server/src/services/analytics.service.ts:532-554 | a cursor step advances by an hour, a day, a week, or exactly the length of the month being left |
| `TrendBuckets.MonthStep` | backend-server/src/services/analytics.service.ts:548-550 | a month step keeps the date if the next month is long enough, and else lands in the first three days of the month after it |
| `TrendBuckets.AtMostOneMonthSkipped` | backend-server/src/services/analytics.service.ts:468-491 | over a run of any length exactly one calendar month is skipped if the first date overflows some month on the way, none otherwise |
| `TrendBuckets.CutsPartition` | backend-server/src/services/analytics.service.ts:466-492 | the loop's cut points are the cursor's values, strictly increase, start at the start, and only the last is beyond the end |
| `TrendBuckets.ExactlyOneBucket` | backend-server/src/services/analytics.service.ts:472-476 | every moment of the range lies in exactly one half-open bucket |
| `TrendBuckets.AggregateDataByPeriod` | backend-server/src/services/analytics.service.ts:458-495 | the loop terminates with one point per bucket, carrying the label of its start and the value of the rows in it; it fails exactly if the week label of the start is before the first date JavaScript can hold |
| `TrendBuckets.RangeIsConserved` | backend-server/src/services/analytics.service.ts:472-489 | the values of the points sum to the value of all rows of the range, less exactly those of a last bucket whose end is an invalid date |
| `TrendBuckets.NothingIsLostBeforeTheEnd` | backend-server/src/services/analytics.service.ts:472-489 | there is no such bucket if the range ends 31 days or more before the last date JavaScript can hold |
| `TrendBuckets.LastMomentIsLost` | backend-server/src/services/analytics.service.ts:472-489 | a row created at that last moment is in no daily bucket |
| `TrendBuckets.SelectedExactly` | backend-server/src/services/analytics.service.ts:210-215 | the rows a trend counts are exactly those of the table created in the range, both ends included, each as often as the table holds it and in its order, which is taken as the one the query asks for |
| `TrendBuckets.Trend` | backend-server/src/services/analytics.service.ts:210-236 | for any table the rows used are exactly those of the range, and the total is the count of the rows of the table in the range, or the sum of their amounts; the points sum to that total, less an invalid last bucket, and the average times the number of points is that total |
| `TrendBuckets.PaymentsAreWorthTheirAmounts` | backend-server/src/services/analytics.service.ts:277-280 | for payments the per-bucket fallback chain sums to what the plain sum of amounts reports |
| `TrendLabels.UnitAdvances` | backend-server/src/services/analytics.service.ts:556-574 | the hour, day, Sunday or month a label stands for moves on by exactly one unit per step, two months on an overflow |
| `TrendLabels.WeekLabelIsSunday` | backend-server/src/services/analytics.service.ts:565-568 | a week's label is the Sunday on or before its first day |
| `TrendLabels.LabelsCoincide` | backend-server/src/services/analytics.service.ts:560-570 | two label texts are equal if and only if they stand for the same unit, or both years are outside 0..9999 and the next larger unit is the same |
| `TrendLabels.SeriesLabels` | backend-server/src/services/analytics.service.ts:468-492 | the units of a series strictly increase, and two of its labels are equal only in the way just described |
| `TrendLabels.MonthLabelsCollide` | backend-server/src/services/analytics.service.ts:569-570 | January and February 10000 have the same label |
| `TrendLabels.LabelReads` | backend-server/src/services/analytics.service.ts:556-574 | in the years 0 to 9999 a label reads as year and month, as year, month and day, or as these and the hour, of what it stands for |
| `IsoText.IsoReads` | backend-server/src/services/analytics.service.ts:560-570 | the ISO text of a time is that of its day, then hour, minute, second and millisecond, each read back as the number it is |
| `TrendCacheKeys.KeysAreInjective` | backend-server/src/services/analytics.service.ts:204-204 | two trend queries share a cache key if and only if family, period word, granularity, start and end are equal, for all integer times (the other three keys: lines 256, 312 and 354) |
| `TrendCacheKeys.DecimalEnds` | backend-server/src/services/analytics.service.ts:256-256 | a decimal number, negative or not, is uniquely readable in front of a hyphen |
| `TrendCacheKeys.DecimalReads` | backend-server/src/services/analytics.service.ts:204-204 | the decimal text of a number, behind a minus if it is negative, reads as the number |
| `TrendCacheKeys.KeyTexts` | backend-server/src/services/analytics.service.ts:204-204 | the keys of the four families with every word for period and granularity, as they are spelled (lines 256, 312 and 354) |
| `DynamicPricing.ApplyPricingRules` | backend-server/src/services/dynamic-pricing.service.ts:295-361 | the running price starts at the base and each rule multiplies it and reports by how much it rose; the total surcharge, the total discount and each breakdown entry are the sums of those impacts over the rules that raise, do not raise, or have the type; base plus the impacts, base plus surcharges minus discounts, and base plus the five entries are the exact price, and the final price is a whole number of cents at most half a cent away |
| `DynamicPricing.PriceAccounts` | backend-server/src/services/dynamic-pricing.service.ts:307-351 | accounting by direction and by rule type both give the price, and neither total is negative |
| `DynamicPricing.FinalPriceIgnoresOrder` | backend-server/src/services/dynamic-pricing.service.ts:307-355 | every permutation of the rules gives the same final price |
| `DynamicPricing.PriceBounds` | backend-server/src/dto/dynamic-pricing.dto.ts:156-160 | n rules with multipliers in [0.1, 10] keep the exact price between base / 10^n and base * 10^n |
| `DynamicPricing.RoundingError` | backend-server/src/services/dynamic-pricing.service.ts:355-355 | rounding changes the price by at most half a cent |
| `DynamicPricing.RoundsToCents` | backend-server/src/services/dynamic-pricing.service.ts:355-355 | the rounded price is the whole number of cents nearest to the price, the higher of two, and no other number is |
| `DynamicPricing.AddingARule` | backend-server/src/services/dynamic-pricing.service.ts:307-312 | one more rule anywhere raises or keeps the exact price if and only if its multiplier is at least 1 (or the base is 0), and then the rounded price does not fall |
| `PricingRules.ClockRoundTrip` | backend-server/src/services/dynamic-pricing.service.ts:391-394 | a time written HH:mm is parsed as its minute of the day |
| `PricingRules.ParsedFields` | backend-server/src/services/dynamic-pricing.service.ts:391-394 | of any text between colons only the first two fields count, as sixty times the first plus the second; without a colon, or if one of the two is no number, there is no time |
| `IsoText.NumbersAreDigits` | backend-server/src/services/dynamic-pricing.service.ts:391-394 | the texts that count as numbers are those of digits alone, the empty one included |
| `PricingRules.ClocksAreAWindow` | backend-server/src/services/dynamic-pricing.service.ts:203-204 | any two clock times, the second of which may be 24:00, make a window of the statements below |
| `PricingRules.PeakExactly` | backend-server/src/services/dynamic-pricing.service.ts:150-156 | a peak rule applies exactly when some window of it lists the weekday of the first day, has two readable times, and overlaps in minutes of the day; without windows never (the test: lines 191-224) |
| `PricingRules.PeakHitExactly` | backend-server/src/services/dynamic-pricing.service.ts:191-224 | for any booking and any window of clock times, over midnight or not: the condition, on the days and clock times of the booking's ends, under which the test says whether some minute of the booking is in the window, and only then |
| `PricingRules.NightWindowExactly` | backend-server/src/services/dynamic-pricing.service.ts:191-224 | for a booking within one day and a window over midnight: the test is right exactly when the booking is both late and early on a listed day, or meets neither that day's window nor the one of the day before |
| `PricingRules.PeakRuleMeansOverlap` | backend-server/src/services/dynamic-pricing.service.ts:191-224 | for a booking within one day and windows that close on their day the rule applies exactly when some minute is in both; for any booking and windows, the exact condition for that |
| `PricingRules.OvernightBookingsAreMissed` | backend-server/src/services/dynamic-pricing.service.ts:191-224 | three overnight bookings that meet a window on the first day, on both days' weekdays, and on the second day's alone, none of which the test sees |
| `PricingRules.NightWindowIsMissed` | backend-server/src/services/dynamic-pricing.service.ts:191-224 | a booking at 23:00 in a window from 22:00 to 02:00 which the test does not see |
| `IsoText.DayTextOrder` | backend-server/src/services/dynamic-pricing.service.ts:233-237 | dates of years 0 to 9999 compare as strings exactly as they compare as days |
| `IsoText.LessExactly` | backend-server/src/services/dynamic-pricing.service.ts:233-237 | a string is before another exactly if, at some place up to which they agree, it ends or has the smaller code unit |
| `PricingRules.SeasonalRuleMeansOverlap` | backend-server/src/services/dynamic-pricing.service.ts:226-243 | a seasonal rule applies exactly when some UTC day is in the booking and a range, if and only if the booking ends before the year 10000 or starts after every range |
| `PricingRules.SeasonBefore10000IsMissed` | backend-server/src/services/dynamic-pricing.service.ts:226-243 | a booking over the end of the year 9999 is not covered by the range of its first day |
| `PricingRules.SeasonExactly` | backend-server/src/services/dynamic-pricing.service.ts:158-163 | a season, and a special event alike, applies exactly when the date text of neither end of the booking lies beyond the other end of one of its ranges; without ranges never (lines 179-184, 226-243, 287-293) |
| `PricingRules.DemandExactly` | backend-server/src/services/dynamic-pricing.service.ts:245-267 | a demand rule applies exactly when one of its thresholds is at most 100 and at most ten times the number of overlapping bookings (the percentage: lines 380-386) |
| `PricingRules.BulkExactly` | backend-server/src/services/dynamic-pricing.service.ts:269-285 | a bulk discount applies exactly when the hours reach a threshold and do not pass its maximum, which may be missing or zero |
| `PricingRules.GetApplicablePricingRules` | backend-server/src/services/dynamic-pricing.service.ts:123-139 | exactly the applicable rules are kept, at increasing positions, so they still go by falling priority and then by age |
| `StableSorting.StableSortIsUnique` | admin-mvp/src/hooks/useListFiltering.ts:171-173 | an order on the items has at most one stable sort, so the engine's algorithm does not matter |
| `StableSorting.StableSortExists` | admin-mvp/src/hooks/useListFiltering.ts:171-173 | it has one, which insertion finds |
| `Selections.SelectIsSelection` | admin-mvp/src/hooks/useListFiltering.ts:158-168 | filtering keeps the elements at the increasing list of exactly the positions that pass |
| `Selections.SelectionIsUnique` | admin-mvp/src/hooks/useListFiltering.ts:158-168 | no other list does that |
| `ListPipeline.SearchMeans` | admin-mvp/src/hooks/useListFiltering.ts:58-74 | an item passes the search if and only if the term is blank, or stands in a text of the item whatever the case, or in a number of it as written |
| `ListPipeline.FilterMeans` | admin-mvp/src/hooks/useListFiltering.ts:79-92 | an item passes the filters if and only if for each that is not empty its value is the one asked for, or contains it whatever the case if both are texts |
| `ListPipeline.NullsStandAtOneEnd` | admin-mvp/src/hooks/useListFiltering.ts:101-105 | ascending puts every null or missing value before all others, descending after |
| `ListPipeline.DescendingReverses` | admin-mvp/src/hooks/useListFiltering.ts:107-125 | descending comparison is the exact negative of ascending, nulls included |
| `ListPipeline.UniformColumnIsOrdered` | admin-mvp/src/hooks/useListFiltering.ts:94-126 | on a column of one kind plus nulls the comparator is a total preorder in both directions |
| `ListPipeline.OrderedExactly` | admin-mvp/src/hooks/useListFiltering.ts:94-126 | on any column, whatever it mixes, it is one if and only if each value fits, as a string, in between any two numbers and any two dates |
| `ListPipeline.MixedColumnHasACycle` | admin-mvp/src/hooks/useListFiltering.ts:94-126 | two numbers and a string that compare in a cycle |
| `ListPipeline.InactivePassesChangeNothing` | admin-mvp/src/hooks/useListFiltering.ts:158-168 | skipping an inactive filter or search pass gives what running it gives |
| `ListPipeline.SearchAfterFilter` | admin-mvp/src/hooks/useListFiltering.ts:58-92 | the two passes in turn keep exactly the items that pass both tests, in order |
| `ListPipeline.PassingKeeps` | admin-mvp/src/hooks/useListFiltering.ts:160-168 | each passing item is kept as often as the data holds it, each other item not at all |
| `ListPipeline.PassingIsSelection` | admin-mvp/src/hooks/useListFiltering.ts:158-168 | the items that pass both tests are kept in the order of the data, and no others |
| `ListPipeline.UseListFiltering` | admin-mvp/src/hooks/useListFiltering.ts:155-181 | before sorting the result is exactly the passing items in the order of the data; sorted it is a rearrangement of them and, wherever the comparator orders the column, their one stable sort, with nulls at one end, numbers by value, dates by time and other values by their texts; a filter counts as active exactly if it is not empty |
| `Pagination.PagesCoverTheList` | admin-mvp/src/hooks/usePagination.ts:76-81 | pages 1 to totalPages, joined, are the list |
| `Pagination.PageNumbersAreConsecutive` | admin-mvp/src/hooks/usePagination.ts:76-100 | every page but the last is full, the last is not empty, and first and last item numbers run through 1..n without a gap |
| `Pagination.PagesOutside` | admin-mvp/src/hooks/usePagination.ts:76-100 | a page number beyond the last, or zero, shows nothing; a negative one shows a slice counted from the end of the list |
| `ListScreen.ShowPage` | admin-mvp/src/hooks/useListFiltering.ts:144-181 | the joined pages of the pipeline are the stably sorted passing items, each as often as in the data |
| `CategoryRegistry.CreateAcceptedExactly` | backend-server/src/services/partner-category.service.ts:34-79 | a creation is accepted if and only if the partner type exists and adding the category keeps names and slugs unique |
| `CategoryRegistry.CreationDoes` | backend-server/src/services/partner-category.service.ts:34-79 | a creation answers not found exactly without the partner type and conflict exactly if a live category of it has the name or the slug; otherwise the rows gain exactly the category given |
| `CategoryRegistry.UpdateAcceptedExactly` | backend-server/src/services/partner-category.service.ts:158-210 | an update without empty texts is accepted if and only if the category is live and the change keeps uniqueness |
| `CategoryRegistry.UpdateDoes` | backend-server/src/services/partner-category.service.ts:158-210 | what an update answers and leaves in each case: every field given is set, the others and the other rows are left alone |
| `CategoryRegistry.UpdateKeepsUniqueExactly` | backend-server/src/services/partner-category.service.ts:171-205 | an accepted update of any kind keeps uniqueness exactly when it sets no empty name or slug that another live category of the type has |
| `CategoryRegistry.EmptyNamesClash` | backend-server/src/services/partner-category.service.ts:171-205 | two live categories of one partner type both take the empty name |
| `CategoryRegistry.RemovalDoes` | backend-server/src/services/partner-category.service.ts:212-239 | a removal marks a live category deleted unless something is counted under it, and changes nothing else |
| `CategoryRegistry.ToggleDoes` | backend-server/src/services/partner-category.service.ts:241-254 | a toggle inverts whether a live category is active and changes nothing else |
| `CategoryRegistry.LastRankingWins` | backend-server/src/services/partner-category.service.ts:256-276 | the position of a category after reordering is the one of its last ranking; without one, or deleted, it keeps its own |
| `CategoryRegistry.ReorderExactly` | backend-server/src/services/partner-category.service.ts:256-276 | reordering gives each live category its last ranking and changes nothing else, and fails exactly if some ranking names no live category |
| `CategoryRegistry.RequestIsLocal` | backend-server/src/services/partner-category.service.ts:241-254 | a request about one category leaves the other rows alone, changes nothing if it fails, and toggling twice is no change |
| `CategoryRegistry.RunKeepsUnique` | backend-server/src/services/partner-category.service.ts:47-70 | over every sequential run of valid requests live categories stay unique by type and name and by type and slug |
| `CategoryTree.RunKeepsNoOrphans` | backend-server/src/services/partner-category.service.ts:212-239 | over every sequential run of requests for categories, subcategories and offerings no live subcategory and no offering points at a deleted category |
| `CategoryTree.RemovalAcceptedExactly` | backend-server/src/services/partner-category.service.ts:212-239 | a removal is accepted if and only if the category is live and can go without leaving an orphan |
| `CategoryTree.RemovalsDo` | backend-server/src/services/partner-category.service.ts:212-239 | a removal of a category, subcategory or offering deletes that row and nothing else; one of a category is refused while something is placed in it (subcategories: partner-subcategory.service.ts:220-235, offerings: partner-offering.service.ts:430-445) |
| `CategoryTree.OnlyEmptyCategoriesAreRemoved` | backend-server/src/services/partner-category.service.ts:212-239 | a category deleted in a run was removed by a request at whose time no offering and no live subcategory was placed in it |
| `CategoryTree.RunKeepsTreeUnique` | backend-server/src/services/partner-subcategory.service.ts:45-69 | over every sequential run of valid requests live subcategories stay unique by category and name and by category and slug (updates: lines 177-207) |
| `CategoryTree.SubcategoryCreationDoes` | backend-server/src/services/partner-subcategory.service.ts:27-79 | a subcategory is accepted exactly under a live category none of whose live subcategories has its name or slug, the slug being made of the name if none is given, and is stored so |
| `CategoryTree.SubcategoryUpdateDoes` | backend-server/src/services/partner-subcategory.service.ts:158-218 | what an update of a subcategory answers and leaves in each case, field by field |
| `CategoryTree.OfferingsDo` | backend-server/src/services/partner-offering.service.ts:30-65 | an offering is placed exactly in a live category and, if it names one, a live subcategory of it; only its subcategory can change later, under the same condition (lines 262-281) |
| `CategoryTree.DanglesExactly` | backend-server/src/services/partner-subcategory.service.ts:220-235 | a valid request keeps every offering in a live subcategory of its category if and only if it does not remove a subcategory that some offering names |
| `CategoryTree.OfferingIsLeftBehind` | backend-server/src/services/partner-subcategory.service.ts:230-234 | an accepted removal of a subcategory leaves an offering that names it |
| `CategoryTree.PartnerServices.CreateSubcategory` | backend-server/src/services/partner-subcategory.service.ts:27-79 | the new tree and the answer are those of the specified outcome, and no orphan appears |
| `CategoryTree.PartnerServices.UpdateSubcategory` | backend-server/src/services/partner-subcategory.service.ts:158-218 | the new tree and the answer are those of the specified outcome, and no orphan appears |
| `CategoryTree.PartnerServices.RemoveSubcategory` | backend-server/src/services/partner-subcategory.service.ts:220-235 | the new tree and the answer are those of the specified outcome, and no orphan appears |
| `CategoryTree.PartnerServices.RemoveCategory` | backend-server/src/services/partner-category.service.ts:212-239 | the new tree and the answer are those of the specified outcome, and no orphan appears |
| `CategoryTree.PartnerServices.AddOffering` | backend-server/src/services/partner-offering.service.ts:30-65 | an offering is placed only in a live category and a live subcategory of it; no orphan appears and none dangles |
| `CategoryTree.PartnerServices.ChangeOffering` | backend-server/src/services/partner-offering.service.ts:262-281 | a new subcategory must be a live one of the offering's category; no orphan appears and none dangles |
| `CategoryTree.PartnerServices.DropOffering` | backend-server/src/services/partner-offering.service.ts:430-445 | the offering goes, and no orphan appears and none dangles |
| `CategoryRegistry.PartnerCategoryService.CreateCategory` | backend-server/src/services/partner-category.service.ts:34-79 | the new rows and the answer are those of the specified outcome; a new id keeps the categories unique |
| `CategoryRegistry.PartnerCategoryService.UpdateCategory` | backend-server/src/services/partner-category.service.ts:158-210 | the new rows and the answer are those of the specified outcome; the categories stay unique exactly unless it sets an empty value that is taken |
| `CategoryRegistry.PartnerCategoryService.RemoveCategory` | backend-server/src/services/partner-category.service.ts:212-239 | the new rows and the answer are those of the specified outcome, and unique categories stay unique |
| `CategoryRegistry.PartnerCategoryService.ToggleCategory` | backend-server/src/services/partner-category.service.ts:241-254 | the new rows and the answer are those of the specified outcome, and unique categories stay unique |
| `CategoryRegistry.PartnerCategoryService.ReorderCategories` | backend-server/src/services/partner-category.service.ts:256-276 | the new rows and the answer are those of the specified outcome, and unique categories stay unique |
| `RuleVersions.PartnerCategoryRules.UpdateRules` | backend-server/src/services/partner-category.service.ts:387-431 | an update that fails after any of its awaited calls leaves exactly the specified rules and history (the other kinds: lines 433-523) |
| `RuleVersions.PartnerCategoryRules.UpdateCategory` | backend-server/src/services/partner-category.service.ts:203-207 | an update of the category sets or empties the rule columns it gives, leaves the others alone, and replaces the history exactly if it gives metadata |
| `RuleVersions.NothingIsLost` | backend-server/src/services/partner-category.service.ts:407-418 | if saving leaves the history alone and only rules are updated, wherever updates fail: stored or in the history after a run are exactly the rule sets known before it and those it accepted |
| `RuleVersions.HistoryIsTheAcceptedSequence` | backend-server/src/services/partner-category.service.ts:387-431 | without failures, and if saving leaves the history alone, the history of a kind followed by its stored rules is exactly the accepted sequence |
| `RuleVersions.WholeRowHistoryExactly` | backend-server/src/services/rule-template.service.ts:167-189 | if saving writes the loaded metadata back, that is so if and only if at most one rule set is stored at first or accepted in the run |
| `RuleVersions.KindsAreIndependent` | backend-server/src/services/partner-category.service.ts:433-523 | an update of one kind, whatever saving writes, leaves rules and history of the others as they were |
| `RuleVersions.KnownExactly` | backend-server/src/services/rule-template.service.ts:167-189 | for either way of saving, wherever updates fail, and with updates of the category among them: a rule set is known after a run if and only if it is the last one stored, or in the history given last, or was backed up since by an update that does not write the older history back |
| `RuleVersions.FirstRulesAreLost` | backend-server/src/services/rule-template.service.ts:167-189 | then two complete updates of a new category leave no trace of the first rules |
| `RuleVersions.RulesAreOverwritten` | backend-server/src/services/partner-category.service.ts:203-205 | an update of the category that gives rules loses the ones before them, whichever way saving works |
| `RuleCache.DeletedKeysAreNeverRead` | backend-server/src/services/partner-category.service.ts:526-539 | no key deleted on an update is a key a read uses |
| `RuleCache.EffectiveKeyInjective` | backend-server/src/services/partner-category.service.ts:280-280 | a cached answer belongs to one category and kind (the other kinds: lines 315 and 352) |
| `RuleCache.KeyTexts` | backend-server/src/services/partner-category.service.ts:280-280 | the keys of reads and deletions as the services spell them (lines 315, 352 and 531; rule-template.service.ts:107) |
| `RuleCache.ReadAnswers` | backend-server/src/services/partner-category.service.ts:279-312 | a read answers from its cache while that is live, else what the resolution service has cached or resolution gives, and without a live entry what resolution gives; it answers nothing exactly when there is no live answer and nothing resolves |
| `RuleCache.ReadAgain` | backend-server/src/services/partner-category.service.ts:295-306 | the next read answers the same at once, from the cache alone |
| `RuleCache.CachedRules.Effective` | backend-server/src/services/partner-category.service.ts:279-312 | a read answers from the cache, or resolves and remembers, as specified, also when caching the answer fails; if it does not fail and neither cache is live it answers what resolution gives, and nothing exactly if nothing is cached or resolves |
| `RuleCache.CachedRules.Inherited` | backend-server/src/services/rule-template.service.ts:103-148 | the resolution service answers what its own cache holds while that is live, and else what resolution gives, which it remembers |
| `RuleCache.CachedRules.WriteRules` | backend-server/src/services/partner-category.service.ts:418-431 | after an update every read of any rules still finds in both caches what it would have found before it |
| `RuleCache.ReadIsFresh` | backend-server/src/services/partner-category.service.ts:279-384 | in every run of complete reads, updates, other changes of the store and clock ticks an answer is what resolution gave less than 900000 ms before |
| `RuleCache.ReadIsRecent` | backend-server/src/services/rule-template.service.ts:107-145 | if reads can fail between the two caches, an answer is less than 1200000 ms old |
| `RuleCache.CachedAnswerStaysFreshExactly` | backend-server/src/services/partner-category.service.ts:279-312 | after any run, interrupted reads included, all answers from now on, however long one waits, are less than 900000 ms old if and only if the cached one was what resolution gave when it was cached or since |
| `RuleCache.InterruptedReadIsStale` | backend-server/src/services/partner-category.service.ts:295-302 | a run with one such failure in which an answer is 1199998 ms old and nothing younger gives it |
| `ReportJobs.FinancialReportService.CreateReport` | backend-server/src/services/financial-report.service.ts:32-56 | a creation stores the report as GENERATING and starts its task; reports and tasks keep agreeing |
| `ReportJobs.FinancialReportService.RemoveReport` | backend-server/src/services/financial-report.service.ts:116-119 | a removal deletes the row and leaves the task running; reports and tasks keep agreeing |
| `ReportJobs.FinancialReportService.ContinueGeneration` | backend-server/src/services/financial-report.service.ts:121-184 | each piece of a generation task between two awaited calls does exactly the specified step and keeps every report in agreement with its task; a completing write that succeeds leaves the report COMPLETED with those data, a failing one FAILED with that message |
| `ReportJobs.ReportsMoveForward` | backend-server/src/services/financial-report.service.ts:32-56 | in every interleaving a report only moves from GENERATING to COMPLETED or FAILED, terminal reports never change, and a removed one never comes back |
| `ReportJobs.ReachableReports` | backend-server/src/services/financial-report.service.ts:121-195 | a completed report has data and its own download address and is of a supported type; reports are terminal exactly when their task recorded a result; downloads answer accordingly (lines 515-523) |
| `ReportJobs.EndsExactly` | backend-server/src/services/financial-report.service.ts:121-184 | in every interleaving a report that is there is COMPLETED with certain data if and only if the successful write of its task recorded those, and FAILED with a certain message if and only if such a write recorded that |
| `ReportJobs.TasksRememberTheirCause` | backend-server/src/services/financial-report.service.ts:121-184 | the data a task is about to record are those it collected, and the message is that of the step that failed, of the missing report, or of the unsupported type |
| `ReportJobs.SuccessfulReport` | backend-server/src/services/financial-report.service.ts:176-180 | a report of a supported type whose steps succeed is COMPLETED with the data collected |
| `ReportJobs.UnsupportedReport` | backend-server/src/services/financial-report.service.ts:171-173 | one of an unsupported type is FAILED with that message |
| `ReportJobs.RemovedIsGone` | backend-server/src/services/financial-report.service.ts:116-119 | a removed report never comes back, whatever its task still does |
| `ReportJobs.TasksAreBounded` | backend-server/src/services/financial-report.service.ts:121-184 | every task makes at most five steps, however it is interleaved |
| `ReportJobs.UnrecordedExactly` | backend-server/src/services/financial-report.service.ts:47-53 | a task finishes without recording a result if and only if the write of the handler in create fails |
| `ReportJobs.FinishedMeansRecorded` | backend-server/src/services/financial-report.service.ts:47-53 | in every run from the start, the report of a finished task is COMPLETED or FAILED if and only if that write did not fail |
| `ReportJobs.GeneratingForEver` | backend-server/src/services/financial-report.service.ts:32-56 | otherwise it stays as it was created, whatever follows, until it is removed |
| `ReportJobs.ReportIsStuck` | backend-server/src/services/financial-report.service.ts:121-184 | a run in which all three writes of a task fail and its report stays GENERATING for ever |
| `Grouping.GroupByConserves` | backend-server/src/services/partner-analytics.service.ts:490-509 | a group-by has one entry per key and conserves the number of rows and their amounts |
| `Grouping.GroupIsSelection` | backend-server/src/services/partner-analytics.service.ts:532-545 | count and sum of a key are those of exactly the rows that have it |
| `Grouping.FirstSeenInOrder` | backend-server/src/services/partner-analytics.service.ts:532-545 | the keys come in the order in which they first appear |
| `Grouping.GroupBy` | backend-server/src/services/partner-analytics.service.ts:532-545 | the loop over a Map gives, in order of first appearance, the count and sum of each key |
| `BookingAnalytics.MonthGroupsAreMonths` | backend-server/src/services/partner-analytics.service.ts:496-498 | two bookings are in one monthly group if and only if they are made in one calendar month, or in one year outside 0..9999 |
| `BookingAnalytics.DateGroupsAreDays` | backend-server/src/services/partner-analytics.service.ts:535-536 | two bookings are in one daily group if and only if they are made on one day, or in one month of such a year |
| `BookingAnalytics.KeysRead` | backend-server/src/services/partner-analytics.service.ts:496-498 | in the years 0 to 9999 the keys read as year and month, and as year, month and day, of the booking (days: lines 535-536) |
| `BookingAnalytics.CalculateMonthlyRevenue` | backend-server/src/services/partner-analytics.service.ts:490-509 | each month holds exactly the count and the revenue of the bookings made in it; months are distinct and conserve bookings and revenue |
| `BookingAnalytics.CalculateBookingTrends` | backend-server/src/services/partner-analytics.service.ts:532-545 | each day holds exactly the count of the bookings made on it; days are distinct and conserve the bookings |
| `BookingAnalytics.CalculatePeakHours` | backend-server/src/services/partner-analytics.service.ts:547-560 | each hour of the day holds exactly the count of the bookings that start in it; hours are distinct and conserve the bookings |
| `BookingAnalytics.CalculateRevenueBySpaceType` | backend-server/src/services/partner-analytics.service.ts:511-530 | each space type has exactly the revenue of its bookings, and its percentage is that share of the revenue given; the percentages sum to 100 when the revenue is positive |
| `BookingAnalytics.CustomerAnalytics` | backend-server/src/services/partner-analytics.service.ts:391-399 | customers are the distinct users, and the returning ones exactly those with two or more bookings (entries: lines 582-610) |
| `BookingAnalytics.RepeatUsersExactly` | backend-server/src/services/partner-analytics.service.ts:582-610 | a user returns if and only if two different bookings are of that user |
| `BookingAnalytics.GenerateRevenueReport` | backend-server/src/services/financial-report.service.ts:230-260 | both breakdowns of a revenue report sum to its total |
| `BookingAnalytics.GeneratePartnerPerformanceReport` | backend-server/src/services/financial-report.service.ts:404-443 | one row per partner, conserving the bookings and revenue of the summary |
| `BookingAnalytics.CountByStatus` | backend-server/src/services/financial-report.service.ts:464-470 | counts by status are distinct and conserve the bookings (payouts by status: lines 355-361) |
| `AddonSlug.SlugIsJoinedWords` | backend-server/src/services/partner-addon.service.ts:265-273 | the chain of passes equals: lower-case, drop other characters, split at white space and hyphens, drop empty words, join with one hyphen; the result has no stray hyphen |
| `AddonSlug.SlugIsStable` | backend-server/src/services/partner-addon.service.ts:265-273 | the slug of a slug is itself |
| `AddonSlug.DropsExactly` | backend-server/src/services/partner-addon.service.ts:268-268 | the first pass keeps exactly letters a to z, digits, white space and hyphens, in order |
| `AddonSlug.TwoWords` | backend-server/src/services/partner-addon.service.ts:265-273 | two words with a separator between them become the two words with one hyphen between them |
| `HealthRetention.SystemHealth.Cleanup` | backend-server/src/migrations/CreateSystemHealthTable.ts:310-333 | kept records are at most 30 days old and at most 1000 per group; a record deleted for its rank leaves exactly 1000 of its group, none older than it |
| `HealthRetention.LeadingCount` | backend-server/src/migrations/CreateSystemHealthTable.ts:319-326 | row numbers count: exactly k records of a group have a rank of at most k |
| `HealthRetention.SecondCleanupDeletesNothing` | backend-server/src/migrations/CreateSystemHealthTable.ts:313-331 | a second cleanup at the same time deletes nothing, however ties are broken |
| `RenameMigration.OptionalRevertsUndo` | backend-server/src/migrations/1758741700000-rename-addons-to-extras.ts:156-250 | the conditional statements of down are the inverses of those of up, in reverse order |
| `RenameMigration.RevertsUndoRenames` | backend-server/src/migrations/1758741700000-rename-addons-to-extras.ts:252-298 | so are the unconditional ones |
| `RenameMigration.Database.Migrate` | backend-server/src/migrations/1758741700000-rename-addons-to-extras.ts:6-151 | statements change the schema one by one, and a failing one rolls all of them back; for up and down what that makes of the schema is said by name in the rows below |
| `RenameMigration.UpSucceedsExactly` | backend-server/src/migrations/1758741700000-rename-addons-to-extras.ts:6-151 | up succeeds on exactly the schemas on which each of its 21 statements could run on its own, the rename of the type column under the table's old name |
| `RenameMigration.UpSucceedsByName` | backend-server/src/migrations/1758741700000-rename-addons-to-extras.ts:6-151 | that is: on the schemas that have every unconditional old name, of the right kind, and none of the new ones, and no conditional column under both names |
| `RenameMigration.UpRenames` | backend-server/src/migrations/1758741700000-rename-addons-to-extras.ts:6-151 | whenever up succeeds, every table, index and column it names is under its new name what it was under the old one, which is gone, and everything it does not name is as it was |
| `RenameMigration.UpMovesType` | backend-server/src/migrations/1758741700000-rename-addons-to-extras.ts:19-19 | so is the type AddOnType, as ExtrasType, and the other types stay |
| `RenameMigration.UpMovesSpaceTable` | backend-server/src/migrations/1758741700000-rename-addons-to-extras.ts:10-22 | so is the table of a space's add-ons, and within it the column of their type; its other columns stay |
| `RenameMigration.ConditionalsUndone` | backend-server/src/migrations/1758741700000-rename-addons-to-extras.ts:57-150 | undoing conditional renames restores the schema if and only if none of their targets was present |
| `RenameMigration.DownAfterUp` | backend-server/src/migrations/1758741700000-rename-addons-to-extras.ts:153-299 | whenever up succeeds, down after up restores the schema if and only if none of the seven conditional target columns was present |
| `RenameMigration.OldSchemaIsNotRestored` | backend-server/src/migrations/1758741700000-rename-addons-to-extras.ts:110-121 | on a schema whose payments have a column extrasAmount up succeeds and down does not restore it |
| `SubcategoryCounts.ActionKeepsCounts` | admin-mvp/src/hooks/useCategories.ts:164-223 | every action keeps each category's count equal to the number of its listed subcategories, and the clamp at zero does nothing |
| `SubcategoryCounts.RunKeepsCounts` | admin-mvp/src/hooks/useCategories.ts:121-223 | so does every sequential run from a load in which the counts are right |
| `SubcategoryCounts.ActDoes` | admin-mvp/src/hooks/useCategories.ts:121-223 | what each of the six actions leaves of every list entry, count and total |
| `SubcategoryCounts.ListedExactly` | admin-mvp/src/hooks/useCategories.ts:164-223 | the number a count is compared with is that of exactly the listed subcategories that point at the category |
| `SubcategoryCounts.MovingBreaksCounts` | admin-mvp/src/hooks/useCategories.ts:187-199 | an update that moves a subcategory keeps the counts right if and only if neither category is listed |
| `SubcategoryCounts.CreateThenDelete` | admin-mvp/src/hooks/useCategories.ts:164-223 | creating and deleting a subcategory restores the screen |
| `SubcategoryCounts.CategoryScreen.CreateNewCategory` | admin-mvp/src/hooks/useCategories.ts:121-134 | the lists and totals after the action are the specified ones, and right counts stay right |
| `SubcategoryCounts.CategoryScreen.ReplaceCategory` | admin-mvp/src/hooks/useCategories.ts:136-148 | the lists and totals after the action are the specified ones, and right counts stay right |
| `SubcategoryCounts.CategoryScreen.DeleteCategoryById` | admin-mvp/src/hooks/useCategories.ts:150-162 | the lists and totals after the action are the specified ones, and right counts stay right |
| `SubcategoryCounts.CategoryScreen.CreateNewSubcategory` | admin-mvp/src/hooks/useCategories.ts:164-185 | the lists and totals after the action are the specified ones, and right counts stay right |
| `SubcategoryCounts.CategoryScreen.ReplaceListedSubcategory` | admin-mvp/src/hooks/useCategories.ts:187-199 | the lists and totals after the action are the specified ones, and right counts stay right |
| `SubcategoryCounts.CategoryScreen.DeleteSubcategoryById` | admin-mvp/src/hooks/useCategories.ts:201-223 | the lists and totals after the action are the specified ones, and right counts stay right |

## Left out

- Local time zones and daylight saving: `setHours`, `getDay` and the like are taken in UTC.
- Floating-point rounding: amounts, multipliers and percentages are exact reals.
- aggregateUtilizationByPeriod: it cuts the range as the modelled loop does, and its values are independent percentages that need not add up to anything.
- The growth rates, which compare creation times for equality with one moment, and the default date ranges and granularities.
- The queries themselves (partner, space and validity filters of pricing rules, report filters, joins): their result lists are inputs. Demand pricing takes the number of overlapping bookings as an input.
- Number parsing beyond digits in clock times: signs, blanks, exponents and hexadecimal count as not a number.
- PricingRules.PeakHitExactly: windows whose times are no clock times (unreadable, or beyond the day), to which no meaning is given.
- PricingRules.SeasonalRuleMeansOverlap: the ranges are dates written YYYY-MM-DD, as the entity's comment asks, with the first not after the last; the DTO would also accept date-times.
- NaN values, and user-supplied filter, search and sort functions, in the list pipeline; a page size of zero.
- Lower-casing, `localeCompare` and `String(value)` are parameters with the laws the proofs name.
- ListPipeline.UseListFiltering: where the comparator does not order the column only the rearrangement is stated, because the language leaves the order open there.
- Warming of the rule templates: nothing in the repository calls it. It would leave in the cache what an interrupted read leaves.
- Categories deleted by other services; the partner, the slug and the other data of an offering, whose checks are an outcome in its requests.
- Concurrent requests on one category and concurrent uniqueness checks: the services lock nothing, so runs are sequential. Parallel saves within one reordering are taken in list order.
- What validates a rule set, and how rule resolution merges rules: an input and a parameter. The version id that each resolution generates anew is not part of the resolved value.
- Version numbers, timestamps and authors of rule versions, the rollback to a version, and access counters.
- ReportJobs.ReportsMoveForward: a failing write is taken to have had no effect; a connection lost after a commit could turn a COMPLETED report into a FAILED one.
- Report filters, formats and expiry dates, and the contents of the listings inside reports. Customer names and demographics.
- The order in which a record lists keys that look like integers.
- RenameMigration.DownAfterUp: tables and indexes share one name space, types have another; the row types that tables add to the latter are not modelled.
- Loading, error and pagination state of the category screen, and loads that fetch only a page of its lists.
- TypeORM, Redis, NestJS, React rendering, HTTP and authentication.
