# Admin console logic: a Dafny model

The system admin console is a React application. Most of it is layout; this
project models the logic underneath, one module per component, and proves what
that logic keeps, computes and gives back.

- **Money** (`Digits`, `FixedPoint`, `Money`, `MoneyPrinters`): typed dollars are
  parsed into integer micros, and three printers in three views turn micros back
  into text. Micros are integers of any sign, because the printers accept any
  BigInt. The parser is proved exact; each printer is proved right on exactly the
  amounts it prints correctly. Two of them split a BigInt with truncating
  division, so a negative amount with cents keeps its minus sign inside the
  fraction: one micro below zero prints as `$0.0000-1`.
- **Keys and pasted text** (`Text`, `StableKey`, `RedeemCodes`): the rewriting
  pipeline behind catalog keys equals a tokenise-and-join specification, and the
  pasted redeem codes equal the distinct non-blank lines.
- **Router** (`Views`, `UrlPath`, `Router`, `Runs`): pathnames as the browser's URL
  parser makes them, the session history and the page's three state fields form a
  state machine. Over every run the fields show what the current URL decodes to
  exactly when every navigation asks for a listed view, or for a detail view with a
  non-empty id that the URL Standard leaves alone as a path segment.
- **Sorted tables** (`StableSort`, `AdRewardPolicies`, `RankingTiers`): the two
  lists that are edited row by row and sorted again. For a consistent comparator
  there is one stable sorted permutation, so the model of `sort` is what every
  engine must produce.
- **Charts** (`Charts`, `ByteScale`): coordinates stay in frame and keep order,
  hovering picks a nearest point, and byte sizes print in order.
- **Catalog submission** (`Catalog`): validation and rewriting of prices and
  rewards, up to the request.
- **GLD policy** (`GldPolicy`): the allocation gate, and loading stored settings
  and saving them back.
- **Sessions** (`Sessions`): stored tokens, calls that are retried once, and the
  token rotation that concurrent calls share, over every interleaving.

State that the source updates in place is a class (`AdRewardPanel`,
`RankingPanel`, `AdminPage`, `HoverState`, `GldPolicyPanel`, `ApiClient`). Most of
its methods are tied to a function of the old state, and the theorems are about
that function; the others state their outcome outright.
Network replies, the locale's ordering, case mapping and `Number` on text are
parameters, so the theorems hold for every choice of them that meets the stated
conditions.

Where the code does less than one would expect of it, the theorem states the
exact condition, and a concrete case stands beside it:
`NegativeUsdExample`, `NegativeZeroExample`, `KeyNotIdempotentExample`,
`UnsafeIdExamples`, `UnreadableStakeExample`, `EmptyEntitlementExample` and
`UnavailableLoadExample`.
The last one differs from the comment at `lib/api.ts:37-39`, which says that a
transient error must not destroy a session: the client keeps to that, but the page
answers any failure of its first call by clearing the session (`app/page.tsx:156-158`).

Run `dafny verify dfyconfig.toml` in this directory to check the project.

## Model

| member | source | states |
|---|---|---|
| FixedPoint.MatchesDecimalIffSplits | system-admin-web/components/GldEconomyView.tsx:147 | the amount pattern matches a text exactly when it is a non-empty digit run, alone or followed by a point and a digit run of an allowed length |
| FixedPoint.ScaledExact | system-admin-web/components/GldEconomyView.tsx:150-152 | padding the fraction to k digits and reading all digits as one integer gives the denoted number times 10^k, nothing rounded |
| FixedPoint.NormalFormShortest | system-admin-web/components/PaidRewardsView.tsx:28-33 | a text without leading zeros, trailing fraction zeros or a bare point is the only shortest decimal text for its number |
| FixedPoint.PrintedScaled | system-admin-web/components/PaidRewardsView.tsx:28-33 | re-parsing a trimmed text at the printing scale restores the trimmed zeros and so the integer that was printed |
| Money.UsdToMicrosExact | system-admin-web/components/GldEconomyView.tsx:146-153 | accepts exactly decimals with at most six fraction digits, white space aside, and returns the canonical numeral of value times a million |
| Money.UsdToMicrosSameIffEqual | system-admin-web/components/GldEconomyView.tsx:146-153 | two accepted texts give the same micros exactly when they denote the same number |
| Money.BigIntReadsText | system-admin-web/components/GldEconomyView.tsx:130-136 | BigInt reads its own text back, for every integer |
| Money.RadixTen | system-admin-web/components/GldEconomyView.tsx:130-136 | the reader of radix literals agrees with the decimal one at radix ten |
| Money.RadixTwo | system-admin-web/components/GldEconomyView.tsx:130-136 | two-digit hexadecimal, octal and binary literals read by place value |
| Money.RadixPrefixes | system-admin-web/components/GldEconomyView.tsx:130-136 | the prefix of a literal decides its radix |
| Money.RadixDigits | system-admin-web/components/GldEconomyView.tsx:130-136 | the digits of every radix, in either case |
| Money.BigIntForms | system-admin-web/components/GldEconomyView.tsx:130-136 | an empty text is zero, and a plus sign changes nothing |
| Money.BigIntIgnoresSpace | system-admin-web/components/GldEconomyView.tsx:130-136 | white space after a literal does not matter |
| MoneyPrinters.UsdTextRightIff | system-admin-web/components/PaidRewardsView.tsx:27-33 | the trimming printer shows the amount, and shows it canonically, exactly for naturals and whole negative dollars |
| MoneyPrinters.NegativeUsdExample | system-admin-web/components/PaidRewardsView.tsx:27-33 | minus one micro prints as `$0.0000-1` |
| MoneyPrinters.FormatNullIff | system-admin-web/components/PaidRewardsView.tsx:24-37 | nothing is shown exactly for a missing, empty or unreadable amount |
| MoneyPrinters.UsdRoundTrip | system-admin-web/components/PaidRewardsView.tsx:24-37 | parsing the printed text gives the same micros back for every natural, and is refused for every negative amount |
| MoneyPrinters.UsdReprint | system-admin-web/components/GldEconomyView.tsx:146-153 | parse then print gives the unique shortest text for the typed number, and doing it again changes nothing |
| MoneyPrinters.DropZeroTailTrimsFraction | system-admin-web/components/RankingView.tsx:355-356 | the leftmost match of the trimming expression lies in the fraction, so no zero of the whole part is removed |
| MoneyPrinters.PayoutTextIff | system-admin-web/components/RankingView.tsx:350-356 | the payout expression shows every real amount canonically to the nearest micro, except that amounts less than half a micro below zero print as `-0` |
| MoneyPrinters.NegativeZeroExample | system-admin-web/components/RankingView.tsx:350-356 | a fifth of a micro below zero prints as `-0` |
| MoneyPrinters.WinnerPayoutShows | system-admin-web/components/RankingView.tsx:350-356 | a tier without a stored payout shows twice the stake less twice the fee, to the nearest micro, with that one exception |
| MoneyPrinters.WinnerPayoutExact | system-admin-web/components/RankingView.tsx:350-356 | for a stake and a fee with at most six decimals the payout is exact |
| MoneyPrinters.StoredPayoutShown | system-admin-web/components/RankingView.tsx:350 | a stored payout is shown as it is |
| MoneyPrinters.PayoutByName | system-admin-web/components/RankingView.tsx:351-356 | a payout that is no finite number is shown by name, its zeros not trimmed |
| MoneyPrinters.PrintersAgreeIff | system-admin-web/components/RankingView.tsx:350-356 | the two trimming printers agree exactly on naturals and whole negative dollars |
| MoneyPrinters.UsdValueRightIff | system-admin-web/components/GldEconomyView.tsx:138-142 | with separators removed the grouping printer shows the amount, with ten fraction digits, exactly on the same amounts |
| MoneyPrinters.UsdValueGrouped | system-admin-web/components/GldEconomyView.tsx:138-142 | for every amount the printer's own text is a dollar sign, the sign of the whole dollars, digits with a comma at every fourth place before the point and nowhere else, never first, and a fraction without commas |
| MoneyPrinters.UsdValueUnreadable | system-admin-web/components/GldEconomyView.tsx:130-142 | what is missing or unreadable shows as zero |
| MoneyPrinters.UngroupGroup3 | system-admin-web/components/GldEconomyView.tsx:138-142 | removing the separators undoes the grouping |
| MoneyPrinters.Group3Separators | system-admin-web/components/GldEconomyView.tsx:138-142 | separators stand at every fourth place from the right and nowhere else, never first |
| Text.TrimSplits | system-admin-web/components/CommerceView.tsx:54-56 | what trimming removes is white space, and only at the two ends |
| Text.SpaceCodes | system-admin-web/components/CommerceView.tsx:56 | the white space there is, by code point |
| StableKey.ReplaceThenCollapse | system-admin-web/components/CommerceView.tsx:58-59 | replacing foreign runs and then collapsing hyphens is one replacement of separator runs |
| StableKey.RunsAreJoined | system-admin-web/components/CommerceView.tsx:58-60 | replacing separator runs leaves the tokens joined by single hyphens and at most one trailing hyphen |
| StableKey.TrimRedundant | system-admin-web/components/CommerceView.tsx:55-57 | trimming first does not change the tokens |
| StableKey.KeyIgnoresCase | system-admin-web/components/CommerceView.tsx:54-61 | texts that differ only in characters lowered alike have the same key |
| StableKey.LowerOne | system-admin-web/components/CommerceView.tsx:57 | a single character is lowered as given |
| StableKey.LowerConcat | system-admin-web/components/CommerceView.tsx:57 | lowering acts on each character alone, so with the row above it is fixed on every text |
| StableKey.KeyAlphabet | system-admin-web/components/CommerceView.tsx:58 | the characters a key may hold, spelled out |
| StableKey.KeyIsJoinedTokens | system-admin-web/components/CommerceView.tsx:54-61 | the key is the first hundred characters of the lower-cased token runs joined by single hyphens, for every text |
| StableKey.KeyShape | system-admin-web/components/CommerceView.tsx:54-61 | only key characters, no leading or double hyphen, a trailing hyphen only at length one hundred |
| StableKey.FixedPointIff | system-admin-web/components/CommerceView.tsx:54-61 | the texts left alone are exactly the keys in final form |
| StableKey.KeyConverges | system-admin-web/components/CommerceView.tsx:54-61 | a second application changes a key exactly when it ends in a hyphen, and a third never does |
| StableKey.KeyIdempotentIff | system-admin-web/components/CommerceView.tsx:54-61 | told from the typed text: the key is a fixed point unless the hundredth character of the joined tokens is a hyphen left last by the cut |
| StableKey.KeyNotIdempotentExample | system-admin-web/components/CommerceView.tsx:60-61 | ninety-nine letters, a hyphen and a letter give a key that is not a fixed point |
| StableKey.KeyEmptyIff | system-admin-web/components/CommerceView.tsx:54-61 | a key is empty exactly when the lower-cased text has no token character |
| RedeemCodes.CodesIgnoreLineEndings | system-admin-web/components/CommerceView.tsx:1477-1484 | rewriting every line feed as carriage return and line feed gives the same codes |
| RedeemCodes.CodesSpec | system-admin-web/components/CommerceView.tsx:1477-1484 | the codes are pairwise distinct, in order of first occurrence, and exactly the trimmed lines that are not blank |
| RedeemCodes.InsertAcceptsIff | system-admin-web/components/CommerceView.tsx:1485-1487 | a request is made exactly when an asset is chosen and some line is not blank; otherwise which of the two is missed |
| RedeemCodes.InsertPosts | system-admin-web/components/CommerceView.tsx:1477-1498 | what is posted are the distinct trimmed lines that are not blank, in order of first occurrence |
| RedeemCodes.CodesRoundTripIff | system-admin-web/components/CommerceView.tsx:1477-1484 | pasting a list back gives the same list exactly when its entries are distinct, non-empty, trimmed and on one line each |
| RedeemCodes.CodesStable | system-admin-web/components/CommerceView.tsx:1477-1484 | the submitted codes, pasted again, give themselves |
| UrlPath.PathnameIs | system-admin-web/app/page.tsx:115 | whatever URL is given, the pathname read back is a slash and safe segments: path characters only, no dot segment |
| UrlPath.PathnameFixedIff | system-admin-web/app/page.tsx:173 | the browser leaves a path as it is exactly when it has that form |
| UrlPath.PathAlphabet | system-admin-web/app/page.tsx:173 | letters, digits and the unreserved marks are left alone in a path; controls, spaces and non-ASCII characters never are |
| UrlPath.EncodedDecodes | system-admin-web/app/page.tsx:173 | an encoded character is the percent-spelling of UTF-8 bytes that decode to it |
| UrlPath.QueryIgnored | system-admin-web/app/page.tsx:115 | a query or a fragment leaves the pathname alone |
| UrlPath.DoubleDotResolves | system-admin-web/app/page.tsx:115 | a double-dot segment takes back the segment before it |
| UrlPath.SingleDotResolves | system-admin-web/app/page.tsx:115 | a single-dot segment takes back nothing |
| UrlPath.LastDoubleDot | system-admin-web/app/page.tsx:115 | at the end a double-dot segment leaves an empty segment in place of the one before it |
| UrlPath.DotForms | system-admin-web/app/page.tsx:115 | dot segments are one dot or two, however each dot is percent-encoded |
| Router.ListedRoundTrip | system-admin-web/app/page.tsx:65-127 | the path of every listed view decodes to that view, whatever id was passed along |
| Router.DecodesToListedIff | system-admin-web/app/page.tsx:115-126 | a pathname shows a listed view exactly when its segments, put together, spell its name and it names no record |
| Router.DecodesToOverviewIff | system-admin-web/app/page.tsx:115-126 | every other pathname that names no record shows the overview |
| Router.DecodesToRecordIff | system-admin-web/app/page.tsx:119-122 | a record is shown exactly when the segments are its collection and its id, whatever follows them |
| Router.DetailPaths | system-admin-web/app/page.tsx:168-171 | the paths of the detail views, spelled out |
| Router.DetailRoundTripIff | system-admin-web/app/page.tsx:166-172 | a detail view's path, as the browser rewrites it, decodes back to its id exactly when the id is URL-safe: characters the URL Standard leaves alone in a path segment, and no dot segment |
| Router.UnsafeIdExamples | system-admin-web/app/page.tsx:166-172 | an id without a slash is not enough: `a?b`, `a b`, `a\b`, `..` and `%2e` do not come back |
| Router.QueryCutsId | system-admin-web/app/page.tsx:166-172 | an id with a question mark comes back as the part before it |
| Router.RouteShape | system-admin-web/app/page.tsx:112-127 | whatever URL is shown, there is an id exactly on the detail views, and it is non-empty and URL-safe |
| Router.DecodeStable | system-admin-web/app/page.tsx:112-172 | for every URL, decode, encode and decode again equals decode |
| Router.SyncIds | system-admin-web/app/page.tsx:138-146 | while in step with the URL each id is held exactly while its view is shown |
| Router.GoSyncIff | system-admin-web/app/page.tsx:166-177 | from any state `go` ends in step with the URL exactly for a listed view, or a detail view with a non-empty URL-safe id |
| Router.GoHistory | system-admin-web/app/page.tsx:173 | a replacing `go` keeps position, length and every other entry; a pushing one keeps what is below and drops what was ahead; either way the entry is the path asked for |
| Router.StepSyncIff | system-admin-web/components/NotificationsView.tsx:153-157 | one event, a pushed notification route or a traversal included, keeps the fields in step exactly when it is not a bad `go` |
| Router.RunSyncIff | system-admin-web/app/page.tsx:136-186 | over every run of push, replace, open route, back and forward the fields are in step at every point exactly when every `go` is good |
| Router.AdMobKeepsSync | system-admin-web/components/AdMobView.tsx:166-167 | dropping the callback query from the current entry keeps the fields in step |
| Router.AdMobHistory | system-admin-web/components/AdMobView.tsx:166-167 | only with a callback the current entry becomes the plain AdMob path, and nothing else changes |
| Router.OpenRouteHistory | system-admin-web/components/NotificationsView.tsx:153-157 | a route is pushed under the base, above the entries there were; a missing one does nothing |
| Router.PushesExtend | system-admin-web/app/page.tsx:173 | k pushes add k entries above the current one and leave those below alone, whatever forward history there was |
| Router.BackUndoesPushes | system-admin-web/app/page.tsx:141-177 | going back over any number of pushes shows again exactly what was shown before them |
| Router.VisitsGrow | system-admin-web/app/page.tsx:173-186 | after a first push, pushes grow the history by one each and replacements not at all |
| Router.BackUndoesVisits | system-admin-web/app/page.tsx:173-186 | leaving a view by a push and moving on by pushes and replacements in any order, going back by the number of pushes shows exactly what was shown before |
| Router.BackThenForward | system-admin-web/app/page.tsx:141-146 | back and then forward is no change |
| Router.AdminPage.Go | system-admin-web/app/page.tsx:166-177 | history and fields after a navigation, as a function of those before |
| Router.AdminPage.OnPopState | system-admin-web/app/page.tsx:141-146 | only the three fields change, to what the current URL decodes to |
| Router.AdminPage.OpenRoute | system-admin-web/components/NotificationsView.tsx:153-157 | pushes the route under the base and then refreshes; nothing for an empty route |
| StableSort.SortIsStable | system-admin-web/components/RankingView.tsx:107-111 | sorting gives a rearrangement in order, equal rows as they stood |
| StableSort.StableSortUnique | system-admin-web/components/GldEconomyView.tsx:295-299 | there is only one such rearrangement, so every conforming sort gives it |
| StableSort.SortSameIff | system-admin-web/components/GldEconomyView.tsx:295-299 | two rearrangements of one list sort alike exactly when elements that compare equal stand in one order in both |
| StableSort.SortForgetsOrder | system-admin-web/components/GldEconomyView.tsx:295-299 | with no ties between different rows the result does not depend on the initial order |
| AdRewardPolicies.UpsertSpec | system-admin-web/components/GldEconomyView.tsx:283-300 | the saved row stands once among exactly the rows sharing neither its id nor its format, event and region, stably sorted, and uniqueness is kept |
| AdRewardPolicies.UpsertOrder | system-admin-web/components/GldEconomyView.tsx:295-299 | the saved table ascends in format, event and region written one after the other, the saved row last among those level with it |
| AdRewardPolicies.RemoveSpec | system-admin-web/components/GldEconomyView.tsx:321-323 | a delete drops the rows with that id and nothing else, keeping uniqueness and order |
| AdRewardPolicies.SaveRefinesMap | system-admin-web/components/GldEconomyView.tsx:283-300 | on the table as a map from (format, event, region), a save removes the saved id elsewhere and assigns the row |
| AdRewardPolicies.RemoveRefinesMap | system-admin-web/components/GldEconomyView.tsx:321-323 | a delete removes from that map the rows with that id |
| AdRewardPolicies.RunKeepsUnique | system-admin-web/components/GldEconomyView.tsx:196-332 | over every run of loads, saves and deletes the rows stay unique, as long as the loaded lists are |
| AdRewardPolicies.RunRefinesMap | system-admin-web/components/GldEconomyView.tsx:266-332 | between loads the list is, after every run, exactly the map of the saves and deletes |
| AdRewardPolicies.SortKeyInjective | system-admin-web/components/GldEconomyView.tsx:295-299 | over the offered formats and events the concatenated key identifies the slot, whatever the regions |
| AdRewardPolicies.SortCanonical | system-admin-web/components/GldEconomyView.tsx:295-299 | two unique tables with the same offered rows sort to the same list, if the locale tells the different keys among them apart |
| AdRewardPolicies.SavesCommuteIff | system-admin-web/components/GldEconomyView.tsx:283-300 | from any table, replies to two saves of unrelated rows may arrive in either order exactly when the locale does not take their keys for equal |
| AdRewardPolicies.ValidAmountIff | system-admin-web/components/GldEconomyView.tsx:267 | past white space an accepted amount is digits, alone or with a point and one to six more |
| AdRewardPolicies.RequestFields | system-admin-web/components/GldEconomyView.tsx:277-281 | amount and region lose only white space at their ends, the region goes out upper-cased, the rest as typed |
| AdRewardPolicies.UpperConcat | system-admin-web/components/GldEconomyView.tsx:280 | upper-casing acts on each character alone |
| AdRewardPolicies.UpperOne | system-admin-web/components/GldEconomyView.tsx:280 | a single character is upper-cased as given |
| AdRewardPolicies.AdRewardPanel.StartSave | system-admin-web/components/GldEconomyView.tsx:266-282 | a request is made exactly for an amount with up to six decimals, and what it holds |
| AdRewardPolicies.AdRewardPanel.FinishSave | system-admin-web/components/GldEconomyView.tsx:283-311 | the table and the panel's flags after a reply, and after a failed request |
| AdRewardPolicies.AdRewardPanel.FinishDelete | system-admin-web/components/GldEconomyView.tsx:319-332 | the table and the messages after a delete's outcome |
| RankingTiers.ComparatorConsistentIff | system-admin-web/components/RankingView.tsx:107-111 | the comparator, infinities included, is a total preorder on a list exactly when no stake that is no number stands beside two different ones of the same sort order |
| RankingTiers.UnreadableStakeExample | system-admin-web/components/RankingView.tsx:107-111 | three tiers on which it is not |
| RankingTiers.CompareIs | system-admin-web/components/RankingView.tsx:107-111 | the comparator is at most zero exactly for a lower sort order, or the same one and a stake that is not higher |
| RankingTiers.UpdatedSpec | system-admin-web/components/RankingView.tsx:104-112 | an update is the stable sorted rearrangement of the list with that one row replaced, ascending in sort order and then in stake |
| RankingTiers.CreatedSpec | system-admin-web/components/RankingView.tsx:136-142 | a create is the stable sorted rearrangement of the list with the row appended, ascending in sort order and then in stake |
| RankingTiers.UpdatedUniqueIff | system-admin-web/components/RankingView.tsx:104-112 | after an update ids stay distinct exactly when the reply's id is no other row's |
| RankingTiers.CreatedUniqueIff | system-admin-web/components/RankingView.tsx:136-142 | after a create ids stay distinct exactly when the new id is new |
| RankingTiers.UpdateIdempotent | system-admin-web/components/RankingView.tsx:104-112 | applying the same reply again changes nothing |
| RankingTiers.StepRefinesMapIff | system-admin-web/components/RankingView.tsx:104-142 | with distinct ids, an update, a create or typing into a tier does to the list what it does to a map by id exactly when the reply's id is not another row's |
| RankingTiers.RunRefinesMapIff | system-admin-web/components/RankingView.tsx:87-343 | between loads the list is, throughout a run of updates, creates and typed stakes, fees and sort orders, exactly the map of those events if and only if every reply keeps to its own id or brings a new one |
| RankingTiers.RankingPanel.FinishUpdate | system-admin-web/components/RankingView.tsx:87-122 | the list and flags after a reply, and after a failed request |
| RankingTiers.RankingPanel.FinishCreate | system-admin-web/components/RankingView.tsx:136-158 | the list, the flags and the create form after a reply, and after a failed request |
| RankingTiers.RankingPanel.Edit | system-admin-web/components/RankingView.tsx:296-343 | typing a stake, a fee or a sort order changes that row in place, without sorting |
| RankingTiers.ApplyFields | system-admin-web/components/RankingView.tsx:300-338 | typing changes the one field that was typed into, and a sort order that is no number counts as zero |
| Charts.HoverNearest | system-admin-web/components/OverviewView.tsx:680-695 | for any number of points and any cursor position the index is valid and its point nearest to the cursor, the right one of two equally near |
| Charts.NearestUnique | system-admin-web/components/OverviewView.tsx:680-695 | there is only one such index |
| Charts.HoverAtPoint | system-admin-web/components/OverviewView.tsx:663-695 | a cursor exactly over a plotted point picks that point, so hovering inverts the x coordinate |
| Charts.TrendXInFrame | system-admin-web/components/OverviewView.tsx:663-667 | every x lies in the frame, and x grows strictly with the index |
| Charts.TrendXSpacing | system-admin-web/components/OverviewView.tsx:663-667 | points are spread evenly from the left edge of the plot to the right, a single one at the left |
| Charts.PlotYInFrameIff | system-admin-web/components/OverviewView.tsx:668-671 | a value at most the maximum is inside the frame exactly when it is not negative, and larger values are drawn strictly higher |
| Charts.PlotYScale | system-admin-web/components/OverviewView.tsx:668-671 | zero is drawn at the bottom of the plot, the maximum at its top, and heights are in proportion to values |
| Charts.TrendChartInFrame | system-admin-web/components/OverviewView.tsx:656-671 | every point of every series is inside the plot rectangle exactly when its value is not negative |
| Charts.DailyChartInFrame | system-admin-web/components/AdMobView.tsx:785-803 | each line's points are inside the plot rectangle exactly when their values are not negative |
| Charts.SparklineInBox | system-admin-web/components/SystemResourcesView.tsx:38-47 | the sparkline stays in its box, lies lowest exactly at its smallest values, and keeps order both ways |
| Charts.SparkXSpacing | system-admin-web/components/SystemResourcesView.tsx:44 | the sparkline spans its box evenly |
| Charts.SparkYScale | system-admin-web/components/SystemResourcesView.tsx:40-45 | a value a fraction of the range above the least is drawn that fraction of the way up |
| Charts.HoverState.MouseMove | system-admin-web/components/OverviewView.tsx:680-695 | after a mouse move the hovered index is that of the nearest plotted point, wherever the cursor is |
| ByteScale.Bytes | system-admin-web/components/SystemResourcesView.tsx:26-33 | the loop stops and prints the amount in the least unit in which the value is below 1024, or terabytes |
| ByteScale.LoopUnit | system-admin-web/components/SystemResourcesView.tsx:31 | any exact scaling that stops where the loop does finds the same unit and amount |
| ByteScale.Scaled | system-admin-web/components/SystemResourcesView.tsx:31 | amount times 1024^index is the value, and no smaller unit would do |
| ByteScale.OrderIsLexicographic | system-admin-web/components/SystemResourcesView.tsx:31 | values compare as their (unit, amount) pairs, unit first |
| ByteScale.AmountTextShows | system-admin-web/components/SystemResourcesView.tsx:32 | the printed amount is a decimal numeral of exactly the rounded number |
| ByteScale.BytesParts | system-admin-web/components/SystemResourcesView.tsx:26-33 | the whole text is a numeral of the rounded amount, with one decimal below a hundred, a space, and the name of the unit |
| ByteScale.SizeShown | system-admin-web/components/SystemResourcesView.tsx:31-32 | the size such a text shows is the displayed one |
| ByteScale.NothingShown | system-admin-web/components/SystemResourcesView.tsx:27 | nothing and less show as `0 B` |
| ByteScale.DisplayMonotone | system-admin-web/components/SystemResourcesView.tsx:31-32 | what is shown never decreases when the value grows, across units too |
| ByteScale.DisplayError | system-admin-web/components/SystemResourcesView.tsx:31-32 | what is shown is within half of its last digit |
| ByteScale.ShowsFullUnitIff | system-admin-web/components/SystemResourcesView.tsx:31-32 | below terabytes, 1024 of a unit is shown exactly for amounts from 1023.5 |
| Catalog.PositiveIntegerIff | system-admin-web/components/CommerceView.tsx:62-63 | accepts exactly the digit texts worth more than zero, at any length |
| Catalog.NormalizePrice | system-admin-web/components/CommerceView.tsx:638-658 | accepts a price exactly when it has a currency and a positive amount, and what is sent for it in each pricing mode |
| Catalog.NormalizePrices | system-admin-web/components/CommerceView.tsx:638-658 | a price for every row, in order, exactly when all are valid |
| Catalog.AddKindFields | system-admin-web/components/CommerceView.tsx:673-713 | the reward ends with exactly the fields of its kind, or the first failing check's error |
| Catalog.NormalizeReward | system-admin-web/components/CommerceView.tsx:659-715 | accepts a reward exactly when it is valid for its kind; type, quantity, position and the fields of the kind, nothing else |
| Catalog.NormalizeRewards | system-admin-web/components/CommerceView.tsx:659-716 | a payload for every reward, in order, or the error of the first invalid one |
| Catalog.StripGiftMetadata | system-admin-web/components/CommerceView.tsx:725-732 | the seven gift keys are gone and every other key is kept |
| Catalog.ItemFields | system-admin-web/components/CommerceView.tsx:733-748 | the item's own fields: a catalog only when new, the key normalised as typed, an upload before the old image |
| Catalog.ItemOptionalFields | system-admin-web/components/CommerceView.tsx:737-747 | optional fields are left out exactly when only white space was typed |
| Catalog.ValidQuantityIff | system-admin-web/components/CommerceView.tsx:665-672 | accepted quantities are the positive integers |
| Catalog.KindNames | system-admin-web/components/CommerceView.tsx:673-713 | the five kinds of reward and their names |
| Catalog.Submit | system-admin-web/components/CommerceView.tsx:622-750 | a payload is built exactly for a valid form, with both lists rewritten; otherwise the first failing check's error |
| Catalog.SentPricePositive | system-admin-web/components/CommerceView.tsx:629-658 | every price that is sent is worth more than zero, whichever way its amount was chosen |
| Catalog.SentRewardPositive | system-admin-web/components/CommerceView.tsx:659-716 | sent quantities are at least one, sent amounts worth more than zero, positions in order |
| Catalog.SentEntitlementKeyEmptyIff | system-admin-web/components/CommerceView.tsx:710-712 | a sent entitlement key is empty exactly when the lower-cased text has no key token |
| Catalog.EmptyEntitlementExample | system-admin-web/components/CommerceView.tsx:710-712 | a lone hyphen passes the check and is sent as the empty key |
| GldPolicy.SubmittedIff | system-admin-web/components/GldEconomyView.tsx:341-413 | a form is accepted exactly when it is well formed, within limits, and its three percents make 10000 hundredths |
| GldPolicy.GateExact | system-admin-web/components/GldEconomyView.tsx:374-413 | on whole hundredths the gate rounds nothing: it opens exactly on shares of 10000 in total and sends those basis points |
| GldPolicy.PercentTextIff | system-admin-web/components/GldEconomyView.tsx:236-256 | stored basis points print as an acceptable percent exactly when not negative, and read back |
| GldPolicy.PercentTextShortest | system-admin-web/components/GldEconomyView.tsx:236-256 | the percent shown is the only shortest decimal text for the stored basis points |
| GldPolicy.NegativePercentText | system-admin-web/components/GldEconomyView.tsx:236-256 | negative basis points show as a minus sign and the percent of their magnitude |
| GldPolicy.FormWellFormedIff | system-admin-web/components/GldEconomyView.tsx:209-257 | loaded settings make a well-formed form exactly when the caps are digits and nothing is negative |
| GldPolicy.LoadSaveIff | system-admin-web/components/GldEconomyView.tsx:209-431 | loading settings and saving the form unchanged sends the same settings exactly when they are valid |
| GldPolicy.SentIsValid | system-admin-web/components/GldEconomyView.tsx:341-431 | whatever is sent is valid |
| GldPolicy.SaveStable | system-admin-web/components/GldEconomyView.tsx:341-435 | saving, reloading and saving again sends the same settings |
| GldPolicy.EffectiveChosen | system-admin-web/components/GldEconomyView.tsx:209-257 | every setting comes from its own fields: the controls, else the configuration, else the default |
| GldPolicy.PercentIff | system-admin-web/components/GldEconomyView.tsx:343 | past white space an accepted percent is digits, alone or with a point and one or two more |
| GldPolicy.CheckForm | system-admin-web/components/GldEconomyView.tsx:341-413 | the outcome told from the text in whole hundredths, without rounding: the first rule that fails names the error, and an accepted form sends its hundredths as basis points |
| GldPolicy.SubmittedOutcome | system-admin-web/components/GldEconomyView.tsx:341-413 | the rounding specification has exactly that outcome |
| GldPolicy.GldPolicyPanel.SavePolicy | system-admin-web/components/GldEconomyView.tsx:341-431 | the same outcome, and the error and saving flag it leaves |
| GldPolicy.GldPolicyPanel.Load | system-admin-web/components/GldEconomyView.tsx:196-257 | the loaded form, saved unchanged, would send the effective settings exactly when they are valid |
| Sessions.RunsAreSingleFlight | system-admin-web/lib/api.ts:26-74 | over every interleaving of calls, replies, logins and sign-outs at most one token rotation is not over, and no call sends more than two requests |
| Sessions.SecondRequestExplained | system-admin-web/lib/api.ts:64-75 | a call sends a second request only after a 401 to it and once a rotation has brought new tokens |
| Sessions.SessionLostIff | system-admin-web/lib/api.ts:36-44 | a stored session is lost exactly to a sign-out, a rotation turned down with 401 or 403, or the page's failed first call |
| Sessions.UnavailableLoadExample | system-admin-web/app/page.tsx:151-160 | that first call failing because the server is unavailable costs the session |
| Sessions.SignOutUndoneIff | system-admin-web/lib/api.ts:28-44 | after a sign-out and until the next login the session comes back exactly when a rotation awaiting its reply at the sign-out is answered with tokens |
| Sessions.SignOutFinalIff | system-admin-web/lib/api.ts:4-8 | signing out is final, whatever follows short of a login, exactly when no rotation awaits its reply |
| Sessions.RequestsCarryStored | system-admin-web/lib/api.ts:68-70 | over every run each request carries the access token stored when it is sent, or none, and each rotation the stored refresh token |
| Sessions.StoredIsLatest | system-admin-web/lib/api.ts:12-16 | at the end of every run the storage holds, field for field, the last tokens granted, or nothing if it was cleared since |
| Sessions.StoredSince | system-admin-web/lib/api.ts:12-16 | what is stored stays until something is written |
| Sessions.RefusedCallRetries | system-admin-web/lib/api.ts:64-75 | a call refused for the first time waits for a rotation; granted tokens it goes out again with the new access token, otherwise it fails |
| Sessions.StaleCallRotatesFirst | system-admin-web/lib/api.ts:64-70 | a call made with a token about to expire waits for a rotation before its first request |
| Sessions.OtherwiseAtOnce | system-admin-web/lib/api.ts:65-74 | any other call goes out at once, and any other reply ends its call, well exactly when it is good |
| Sessions.RefusedCallsShare | system-admin-web/lib/api.ts:46-51 | two calls refused together wait for the same rotation |
| Sessions.ApiClient.Refresh | system-admin-web/lib/api.ts:46-51 | joins the rotation there is, or starts one |
| Sessions.ApiClient.StartCall | system-admin-web/lib/api.ts:64-70 | a call up to its first wait: a request, or a rotation before it when the stored token is about to expire |
| Sessions.ApiClient.ReceiveReply | system-admin-web/lib/api.ts:70-74 | a first 401 leads to a rotation and everything else finishes the call |
| Sessions.ApiClient.Resume | system-admin-web/lib/api.ts:64-72 | after a good rotation the request goes out with the token stored by then; after a bad one the call fails |
| Sessions.ApiClient.FinishRotation | system-admin-web/lib/api.ts:34-44 | tokens are stored, cleared or kept as the reply says |

## Left out

- Layout, theming, dialogs, prompts, timers and clipboard: no property to prove.
- Network calls, uploads and downloads: a reply, its failure and an uploaded file's address are parameters.
- UrlPath.PathnameFixedIff: the encode set is that of the URL Standard, which encodes `^`; a browser that keeps it, a URL that names another host, and a `file:` page are not modelled.
- Router.AdminPage.Traverse: a traversal and its `popstate` event are one step; the delay between them is not modelled.
- Router.AdminPage.AdMobMount: whether the address carries a callback status is a parameter, not read from the query.
- RankingTiers.UpdatedSpec: with an inconsistent comparator the order `sort` leaves is up to the engine, so the stable order is stated for consistent ones only; contents and ids are stated for all.
- StableKey.KeyIsJoinedTokens: case mapping goes character by character, so the context-dependent final sigma is not captured; all that is assumed is that key characters and white space map to themselves.
- Catalog.NormalizeReward: `Number` on a quantity's text is a parameter.
- MoneyPrinters.WinnerPayoutShows: the rounding of binary floating point and the exponent notation of amounts from 10^21 are not modelled.
- RankingTiers.RankingPanel.FinishUpdate: the request bodies of update and create, and the marker set when they are sent, are not modelled.
- Sessions.RunsAreSingleFlight: a reply and the reading of its body are one event, storage holds both tokens or neither, and other tabs sharing it are not modelled; whether a token is about to expire is a parameter of the call.
- GldPolicy.PercentTextIff: division by a hundred is exact; binary rounding and the exponent notation of huge numbers are not modelled.
- GldPolicy.GldPolicyPanel.Load: stored values are typed optional integers and texts rather than arbitrary JSON.
- ByteScale.Bytes: amounts are exact reals, so not-a-number and infinity do not arise.
- MoneyPrinters.UsdValueRightIff: `toLocaleString` is taken as en-US grouping by three.
- The transfer fee, simulation, backing and pause controls of the GLD view: small form codecs of the same kind as the policy gate.
- Leaderboard reward drafts, referral overrides, status chips and histogram counts: easy members only.
- Server rules for wallets, GLD pricing, leaderboards and settlement: described in prose only, so no code decides them.
