# ReconForge decision and evidence core, verified in Dafny

This project models four parts of ReconForge and proves what they promise:

* **Variance analysis** (`reconforge/variance.py`): decimal arithmetic with a working precision chosen by
  formula, the displayed hundredths and percentages, the threshold flags of the whole table, and the stored
  threshold policy with its reader.
* **Incident evidence** (`reconforge/incident_response.py`): the append-only incident with its linear
  lifecycle, the digest chain over canonical JSON, and the manifest verifier.
* **HTTP reliability window** (`reconforge/reliability_sources.py`): the bounded window, its 95th percentile
  and its error rate.
* **Period comparison** (`reconforge/periods.py`): trend and summary over any number of periods,
  representative rows, and the doubly digested artifact with its verifier.

`dafny verify dfyconfig.toml` checks everything.

## How the model reads the code

* A decimal is a signed coefficient and an exponent. Every arithmetic step is an exact result rounded to a
  context, as the General Decimal Arithmetic Specification defines it, with all eight rounding modes.
  `abs()` runs outside any local context in the code, so it rounds to the *ambient* context, which is a
  parameter of the model.
* SHA-256 is a parameter, a function from text to text. No theorem assumes it to be injective: each tamper
  theorem concludes "equal, or these two named texts of the artifacts in hand collide".
* A Python dictionary is a map. `JsonText.dfy` holds the canonical compact encoding with its string escapes; the
  `ascii` flag selects between the escaping of `json.dumps` with and without `ensure_ascii`.
* A double in JSON is the text Python writes for it, apart from every integer text; NaN and the infinities are
  values too. `EqualsInt` spells out where Python's `==` lets `true` or `2.0` pass for a whole number.
* Amount parsing in the policy reader is a parameter restricted by one law, that parsing inverts canonical
  decimal text. `MoneyText.ParseAmount` models `parse_amount` with its default separators, and
  `ThresholdPolicy.AmountParserInverts` shows that it obeys the law.
* Raised exceptions are `None` or `Err` results.
* Lemmas named `...Means` and `...Iff` say what an operation does without the functions that model it: in whole units,
  positions, set sizes, literal keys and characters. The JSON reader of `JsonText.dfy` plays that part for the encoding.

Modules build on each other in this order: `Numerals`, `Rounding`, `Decimals`, `VarianceArithmetic`,
`VarianceReport`, `CoarseVariances`, `VarianceFrame`, `VarianceRows`; `Texts`, `DecimalText`, `Sorting`, `JsonText`,
`FinancialInput`, `MoneyText`, `ThresholdPolicy`; `Timestamps`, `IncidentResponse`, `IncidentEvidence`,
`IssuedManifests`; `ReliabilityWindow`; `Periods`, `PeriodArtifact`, `PeriodVerifier`, `PeriodBuilder`.

## Where the code does less than it says

* `tests/test_variance_analysis.py:148` and the function names promise exact, context-independent decisions.
  `abs()` at `reconforge/variance.py:247`, `:261-262` and `:399` breaks this for operands that do not fit
  the ambient precision. The exact condition depends on the threshold setting:
  * over all thresholds a row's flag is right if and only if `abs()` keeps its variance and, when the variance is
    not zero, its base (`FlagExactIff`); `WideAmountMissed` fails at `:399` in every precision;
  * with the amount test off, as by default, it is right under all percent limits if and only if `abs()` keeps the
    ratio of variance to base (`PercentFlagExactIff`, and `PercentTestExactIff` for the test itself).
    `WidePercentMissed` fails at `:261` in every precision and `WidePercentMisjudged` in every rounding mode too,
    over a base that `abs()` keeps; `DoublingJudgedRight` is a case where a changed variance does no harm;
  * the displayed percentages over one base are right if and only if `abs()` keeps the base (`PercentageExactIff`);
    `WidePercentageMisreported` fails at `:247` in every precision.
* "incident timestamps must increase" is checked on texts. `"."` sorts before `"Z"`, so a whole-second text
  passes after a fractional one of the same second. `TextOrderIffTimeOrder` and, over whole runs, `RunTimesIncreaseIff`
  give the exact condition; `EarlierTransitionAccepted` is a concrete incident that runs backwards.
* `_finalize_payload` digests whatever the payload holds, a stale artifact digest included.
  `FinalizedVerifiesIff` gives the exact condition under which its result verifies; `RefinalizedRejected`
  shows that finalizing twice spoils an artifact. Its one caller, `reconforge/periods.py:731`, passes a fresh
  payload, so the program itself never produces the stale input.
* `verify_incident_manifest` accepts more than incidents issue: it reads neither timestamps nor identifiers, and
  compares sequence numbers with Python equality. `BareManifestAccepted` is an accepted manifest with none of
  them and with `true` as its first sequence number; `AcceptedIffIssued` says exactly which accepted manifests
  some incident has issued, by a format that a caller can check.
* `_percentage_for_report` rounds twice, at a precision too small for a variance much coarser than its base. Called
  with a base of D digits and a variance whose exponent exceeds that of the base by g, it is right for all of them if
  and only if D is at most 7 or g at most D + 5 (`CoarseExactIff`); `CoarseVarianceMisrounded` is wrong for every
  other D and g. The table only passes variances with g at most 0, so no report shows this.

## Model

| member | source | states |
|---|---|---|
| `VarianceArithmetic.ExactSubtract` | reconforge/variance.py:222-228 | under the chosen precision a difference of any two decimals is exact in every ambient rounding mode |
| `VarianceArithmetic.ExactMultiply` | reconforge/variance.py:231-234 | the same for products |
| `VarianceArithmetic.QuantizeForReport` | reconforge/variance.py:237-242 | quantizing never signals and yields the integer number of hundredths nearest to the value, ties to even |
| `VarianceReport.DisplayIsOdd` | reconforge/variance.py:237-242 | the displayed amount of the negated value is the negated display |
| `VarianceReport.DisplayIsMonotone` | reconforge/variance.py:237-242 | a larger value is never displayed smaller |
| `VarianceReport.DisplayIsIdempotent` | reconforge/variance.py:237-242 | quantizing a displayed value changes nothing |
| `VarianceReport.DisplayedTotalError` | reconforge/variance.py:402-411 | n displayed amounts differ from their exact total by at most n times 0.005 |
| `Decimals.AbsInValue` | reconforge/variance.py:247 | abs() in a context keeps the value if and only if the operand is lossless there, and never turns a non-zero value into zero |
| `Rounding.ModesMean` | reconforge/variance.py:240 | each of the eight rounding modes moves the magnitude as its name says, ties included |
| `Decimals.RoundToMeans` | reconforge/variance.py:247 | an operation that rounds yields at most the digits of its context, rounded by the mode to a whole number of its last kept place |
| `VarianceArithmetic.DoubleRounding` | reconforge/variance.py:245-257 | rounding half-even twice equals rounding once whenever the finer grid separates the ratio from every tie |
| `VarianceArithmetic.DivideThenQuantize` | reconforge/variance.py:249-257 | a quotient at enough digits, then quantized, is the once-rounded true quotient, whatever the exponents |
| `VarianceReport.PercentageRoundsOnce` | reconforge/variance.py:245-257 | for a previous value that abs() keeps and a variance not too much coarser, the displayed percentage is one correct half-even rounding of 100 times variance over the absolute previous value |
| `VarianceReport.PercentageExactIff` | reconforge/variance.py:245-257 | for one previous value, all displayed percentages of variances not too much coarser are right if and only if abs() keeps it |
| `CoarseVariances.CoarseVarianceMisrounded` | reconforge/variance.py:245-257 | for every base length of at least 8 digits and gap of at least 6 more, a variance exists that is displayed a hundredth too low over a kept base |
| `CoarseVariances.CoarseExactIff` | reconforge/variance.py:245-257 | for kept bases of D digits and variances g exponents above them, all percentages are right if and only if D is at most 7 or g at most D + 5 |
| `VarianceReport.PercentTestExactIff` | reconforge/variance.py:260-263 | the percentage test is right under every limit if and only if abs() keeps the ratio of variance to previous value |
| `VarianceReport.RatioOverKeptBase` | reconforge/variance.py:261-262 | over a previous value that abs() keeps, the ratio is kept if and only if the variance is |
| `VarianceReport.RatioOfKeptVariance` | reconforge/variance.py:261-262 | for a variance that abs() keeps, the ratio is kept if and only if the variance is zero or the previous value is kept |
| `VarianceReport.FlagAgreesWithDisplay` | reconforge/variance.py:245-263 | a met percentage limit whose value has at most two decimals is reached by the displayed percentage; any met limit is within 0.005 of it |
| `VarianceFrame.FlagExactIff` | reconforge/variance.py:384-401 | a row's flag is the exact decision under all thresholds if and only if the ambient context keeps the operands of abs() |
| `VarianceFrame.RowShows` | reconforge/variance.py:379-412 | each row shows its two values, the nearest hundredth of their difference and the once-rounded percentage, with the absent and zero base cases |
| `VarianceFrame.BuildFrame` | reconforge/variance.py:372-413 | the loop over sorted metrics yields the table of the specification |
| `VarianceFrame.TableIsExact` | reconforge/variance.py:372-413 | one row per metric of either side, in order, each flagged exactly by the reference decision |
| `VarianceRows.RowMeans` | reconforge/variance.py:379-412 | in whole units: the values of a row, its displayed difference, its percentage over any non-zero base or its absent and zero cases, and its flag as integer inequalities |
| `VarianceRows.TableMeans` | reconforge/variance.py:372-413 | one such row for every metric of either side and no other, in strictly ascending order |
| `VarianceFrame.WideAmountMissed` | reconforge/variance.py:398-400 | in every precision a variance equal to its amount threshold exists that is not flagged |
| `VarianceFrame.PercentFlagExactIff` | reconforge/variance.py:384-401 | with the amount test off, a row's flag is the exact decision under all percent limits if and only if abs() keeps the ratio of its variance to its base |
| `VarianceFrame.WidePercentMissed` | reconforge/variance.py:260-263 | in every precision, with the amount test off, a variance over the base 1 reaches its percent limit and is not flagged |
| `VarianceFrame.WidePercentMisjudged` | reconforge/variance.py:260-263 | in every context, whatever its rounding mode, some percent limit alone is misjudged over the base 1 |
| `VarianceFrame.DoublingJudgedRight` | reconforge/variance.py:260-263 | a value that doubles is judged right under every percent limit alone, even when abs() changes it |
| `VarianceFrame.WidePercentageMisreported` | reconforge/variance.py:247 | in every precision a previous value exists whose displayed percentage is wrong |
| `VarianceFrame.FlagAntitone` | reconforge/variance.py:398-401 | lowering the percent limit, or the amount limit while it stays positive, never drops a flag; with the amount test off, as by default, its new limit is free |
| `VarianceFrame.PercentTestScales` | reconforge/variance.py:260-263 | the percentage test decides alike when both values are scaled by a common factor, if the ambient context keeps all four operands |
| `DecimalText.ReadPointed` | reconforge/utils/money.py:308 | digits with a point before, among or behind them are read as the number they write |
| `DecimalText.ReadUnsignedOnly` | reconforge/utils/money.py:308-310 | and nothing else is an unsigned number |
| `DecimalText.CanonicalReadsBack` | reconforge/io/writers.py:20-39 | the canonical text of a decimal reads back as the same number |
| `DecimalText.CanonicalIffSameValue` | reconforge/io/writers.py:20-39 | two decimals share a canonical text if and only if they are the same number |
| `DecimalText.CanonicalTextIff` | reconforge/io/writers.py:20-39 | the canonical text is the only text without exponent, leading zero, trailing fraction zero or signed zero that reads as the number |
| `ThresholdPolicy.AcceptedIsCanonical` | reconforge/variance.py:172-219 | every accepted v2 or v3 policy object equals, field by field, what the writer writes for the policy read |
| `ThresholdPolicy.AcceptedIffCanonical` | reconforge/variance.py:172-219 | a stored policy is accepted if and only if it is the canonical form of a policy of its version |
| `ThresholdPolicy.ReadPolicyMeans` | reconforge/variance.py:172-219 | a stored policy is read as p if and only if it says p key by key, under its version's digest |
| `ThresholdPolicy.ReadThresholdsMeans` | reconforge/variance.py:148-219 | which reports are read as p: bare limits of unversioned and v1 reports, policies of v2 and v3 ones, nothing else |
| `ThresholdPolicy.ReportRoundTrip` | reconforge/variance.py:75-104 | a written policy reads back with the same limits, versions, input policy and digest |
| `ThresholdPolicy.DigestFixesPolicy` | reconforge/variance.py:89-97 | equal policy digests mean equal limits, version and input policy, or a collision of the two texts |
| `MoneyText.AmountReadsBack` | reconforge/utils/money.py:265-314 | the amount parser reads a canonical decimal text back as the same number, under either input policy |
| `MoneyText.SpacesIgnored` | reconforge/utils/money.py:291 | surrounding white space does not change an amount |
| `MoneyText.CommasIgnored` | reconforge/utils/money.py:248-250 | nor do commas anywhere in it |
| `MoneyText.SeparatorsIgnored` | reconforge/utils/money.py:248-250 | text that is a number without its commas and underscores is read as that number |
| `MoneyText.SignedNumber` | reconforge/utils/money.py:300-314 | a plain number may carry a plus or a minus sign |
| `MoneyText.ParenthesesNegate` | reconforge/utils/money.py:297-314 | accounting parentheses negate, rounding to the ambient context |
| `MoneyText.NumbersRead` | reconforge/utils/money.py:280-291 | whole numbers are read as themselves, doubles as their text under the legacy policy only |
| `MoneyText.AmountRefused` | reconforge/utils/money.py:280-296 | unsupported policies, other values, blank text and exponents are refused |
| `ThresholdPolicy.AmountParserInverts` | reconforge/variance.py:107-119 | so it satisfies the law the policy reader needs |
| `JsonText.ParseInvertsEncode` | reconforge/incident_response.py:46-48 | a reader of JSON by RFC 8259, without white space and with ascending keys, reads every canonical text back as its value |
| `JsonText.EncodeInjective` | reconforge/incident_response.py:46-48 | so values with one canonical text are equal |
| `JsonText.EscapeTable` | reconforge/incident_response.py:46-48 | how every character is written inside a string, with the ascii flag and without |
| `JsonText.AsciiText` | reconforge/incident_response.py:46-48 | with the ascii flag the whole text is printable ASCII |
| `JsonText.InsertionOrderIrrelevant` | reconforge/incident_response.py:46-48 | two values listed in any order at every depth have one canonical text if and only if they are equal |
| `JsonText.DigestFixesValue` | reconforge/periods.py:98-107 | equal digests mean equal values, doubles included, or a collision of their two texts |
| `Timestamps.TextOrderIffTimeOrder` | reconforge/incident_response.py:40-43 | the text comparison accepts exactly the later instants, if and only if the two texts do not mix forms within one second |
| `Timestamps.TextMeans` | reconforge/incident_response.py:40-43 | every character of a timestamp: its marks, and the six or seven numbers between them |
| `Timestamps.TextReadsBack` | reconforge/incident_response.py:40-43 | every timestamp text is read back as the moment it was written for, in UTC |
| `IncidentResponse.TransitionKeepsHistory` | reconforge/incident_response.py:109-131 | any transition, accepted or refused, keeps states, sequence numbers, links, digests and text order |
| `IncidentResponse.RunKeepsHistory` | reconforge/incident_response.py:109-170 | the same over every run, so at most four transitions ever succeed |
| `IncidentResponse.RecoveryWasNormal` | reconforge/incident_response.py:121-124 | an incident that recovered was shown at least one alert, and only normal ones |
| `IncidentEvidence.AppendMeans` | reconforge/incident_response.py:133-170 | every check of an append in its order, with identifiers and fingerprints by characters, and every field and the digested text of an accepted event |
| `IncidentEvidence.TransitionMeans` | reconforge/incident_response.py:109-131 | a transition is refused for its state, then for its recovery alerts, and otherwise is the append |
| `IncidentEvidence.RecoveryIffShownNormal` | reconforge/incident_response.py:121-124 | an otherwise suitable request recovers a mitigating incident if and only if it shows at least one alert and only normal ones |
| `IncidentEvidence.RunMeans` | reconforge/incident_response.py:109-131 | one more request appends its event when accepted and changes nothing when refused |
| `IncidentEvidence.HistoryStates` | reconforge/incident_response.py:18-31 | states, sequence numbers and links of any history, position by position |
| `IncidentResponse.LifecycleCompletes` | reconforge/incident_response.py:26-31 | suitable requests are never refused and close any open incident |
| `IncidentResponse.RunTimesIncreaseIff` | reconforge/incident_response.py:133-170 | over every run, the accepted moments strictly increase if and only if no neighbours mix forms within one second |
| `IncidentResponse.EarlierTransitionAccepted` | reconforge/incident_response.py:142-144 | a transition half a second before its detection is accepted |
| `IncidentResponse.ReliabilityIncident.Open` | reconforge/incident_response.py:77-103 | exactly the warning or critical alerts with safe identifiers and an acceptable first event open an incident |
| `IncidentResponse.ReliabilityIncident.Append` | reconforge/incident_response.py:133-170 | the step-by-step append decides and records as the specification, and a refused one changes nothing |
| `IncidentResponse.ReliabilityIncident.TransitionTo` | reconforge/incident_response.py:109-131 | the object keeps its invariant, and a refused request changes nothing |
| `IncidentResponse.ReliabilityIncident.Manifest` | reconforge/incident_response.py:172-188 | exactly a closed incident has a manifest, and the verifier accepts it |
| `IncidentEvidence.ManifestMeans` | reconforge/incident_response.py:172-188 | every field of a manifest and of its listed events |
| `IncidentResponse.VerifyIncidentManifest` | reconforge/incident_response.py:191-214 | the loop with early exits accepts exactly the sealed, complete, chained manifests, whatever dictionary it is given |
| `IncidentEvidence.AcceptsMeans` | reconforge/incident_response.py:191-214 | the accepted manifests key by key: digests, five states in order, positions and links |
| `IncidentResponse.AcceptedIffChained` | reconforge/incident_response.py:199-212 | for recorded events the verifier decides exactly position, state, link and digest of all five |
| `IncidentResponse.HeadFixesHistory` | reconforge/incident_response.py:202-211 | chains ending in one digest are equal event by event, or two of their own events collide |
| `IncidentResponse.TamperedEventsRejected` | reconforge/incident_response.py:191-214 | edited, dropped, inserted or reordered events under the old head are rejected |
| `IncidentResponse.ManifestDigestFixesAll` | reconforge/incident_response.py:195-197 | accepted manifests with one digest are the same manifest, or their bodies collide |
| `IssuedManifests.BareManifestAccepted` | reconforge/incident_response.py:191-214 | under every digest function a manifest with `true` as its first sequence number and no timestamp, identifier or evidence is accepted |
| `IssuedManifests.AcceptedIffIssued` | reconforge/incident_response.py:172-214 | an accepted manifest has the issued format if and only if some incident was opened, run to its end and issued it |
| `IssuedManifests.AcceptedNotIssued` | reconforge/incident_response.py:191-214 | some accepted manifest was issued by no incident |
| `ReliabilityWindow.HttpReliabilityWindow.Create` | reconforge/reliability_sources.py:28-32 | exactly the capacities 1 to 1000000 give a window, and it starts empty |
| `ReliabilityWindow.HttpReliabilityWindow.Record` | reconforge/reliability_sources.py:34-38 | a status outside 100-599 or a duration outside a day changes nothing; any other sample enters, and the oldest leaves a full window |
| `ReliabilityWindow.HttpReliabilityWindow.Measure` | reconforge/reliability_sources.py:40-52 | an empty window measures nothing; otherwise the share of server errors in basis points rounded down, and the least occurring duration that 95 percent do not exceed |
| `ReliabilityWindow.WindowIsLatestAccepted` | reconforge/reliability_sources.py:31-38 | after any run the window is the latest accepted samples, as many as fit |
| `ReliabilityWindow.WindowEntries` | reconforge/reliability_sources.py:31-38 | entry by entry, the window is the tail of the accepted samples |
| `ReliabilityWindow.AcceptedStep` | reconforge/reliability_sources.py:35-38 | which samples are accepted |
| `ReliabilityWindow.PercentileIsP95` | reconforge/reliability_sources.py:46-50 | the indexed sorted entry is the least duration that 95 percent do not exceed |
| `ReliabilityWindow.PercentileMeans` | reconforge/reliability_sources.py:46-50 | the same counted over the samples of the window |
| `ReliabilityWindow.ErrorRateMeans` | reconforge/reliability_sources.py:45-49 | the error rate is the number of samples from status 500 on, per ten thousand, rounded down |
| `ReliabilityWindow.P95Unique` | reconforge/reliability_sources.py:46-50 | that duration depends only on the multiset of durations |
| `ReliabilityWindow.PercentileStability` | reconforge/reliability_sources.py:31-50 | a sample entering a full window moves the percentile by at most one rank of the old samples |
| `ReliabilityWindow.ErrorRateStability` | reconforge/reliability_sources.py:31-49 | it moves the error rate by at most 10000/capacity basis points, rounded up: one at the default capacity |
| `Periods.TrendFrame` | reconforge/periods.py:334-379 | the loop carrying the previous keys compares every period with the one before it and counts its rows, reviewed ones included |
| `Periods.TrendRowMeans` | reconforge/periods.py:342-379 | every column of every trend row, as the size of a set of rows or keys |
| `Periods.TrendBalances` | reconforge/periods.py:367-370 | unique = new + recurring, and unique + resolved = previous unique + new |
| `Periods.TrendConserves` | reconforge/periods.py:342-379 | the final unique count is all new less all resolved, over any number of periods |
| `Periods.ReviewedBounds` | reconforge/periods.py:334-377 | accepted-risk and escalated rows together never outnumber the reviewed ones, nor these the exceptions |
| `Periods.ComparisonPartitions` | reconforge/periods.py:631-655 | new, recurring and resolved keys partition every key ever seen |
| `Periods.CompareMeans` | reconforge/periods.py:631-655 | which keys each of the five sets holds, in terms of rows and statuses |
| `Periods.PriorRows` | reconforge/periods.py:631-634 | the earlier rows stand one period after the other, in their own order |
| `Periods.SummaryAgainstTrend` | reconforge/periods.py:274-288 | summary new is at most, recurring and resolved at least, the last trend row, with equality for two periods |
| `Periods.StatusKeysWithinCount` | reconforge/periods.py:638-655 | keys listed for a status never outnumber the rows the trend counts for it |
| `Periods.RepresentativesFirst` | reconforge/periods.py:240-247 | each wanted key that occurs is listed once, by its first row, in row order |
| `PeriodArtifact.PeriodInputManifest` | reconforge/periods.py:110-126 | the loops list, per period, the existing candidate files in name order |
| `PeriodArtifact.ValidateInputPeriods` | reconforge/periods.py:784-809 | the loops accept exactly sequential labels and well-formed, strictly sorted file fingerprints |
| `PeriodArtifact.InputPeriodsMean` | reconforge/periods.py:784-809 | the accepted manifests label by label and fingerprint by fingerprint |
| `PeriodArtifact.ManifestFixesFiles` | reconforge/periods.py:855-858 | two lists of folders have one manifest if and only if no candidate file was added, dropped, resized or changed |
| `PeriodArtifact.ManifestValid` | reconforge/periods.py:110-126 | every manifest built from folders passes that validation |
| `PeriodArtifact.DecisionIffSame` | reconforge/periods.py:410-439 | two payloads have one decision if and only if they differ only in folder paths, row order and non-key columns |
| `PeriodArtifact.DigestOfDecision` | reconforge/periods.py:442-443 | one decision has one digest, and one digest means one decision or a collision |
| `PeriodArtifact.KeyTextMeans` | reconforge/periods.py:415-417 | the text under which each kind of comparison key is listed |
| `PeriodArtifact.DecidableMeans` | reconforge/periods.py:398-439 | which payloads have a decision |
| `PeriodVerifier.PeriodPayload.Finalize` | reconforge/periods.py:442-445 | both digests are written in place; without a finite decision nothing is, and a NaN or infinity elsewhere stops it after the decision digest |
| `PeriodVerifier.FinalizedVerifiesIff` | reconforge/periods.py:442-445 | a finalized payload verifies if and only if it carried no artifact digest before, short of a collision |
| `PeriodVerifier.RefinalizedRejected` | reconforge/periods.py:442-445 | finalizing twice yields an artifact that does not verify, short of a collision |
| `PeriodVerifier.VerifyPayload` | reconforge/periods.py:812-858 | the checks in order accept exactly the verified payloads, refuse NaN and infinity, and optionally recheck the input folders |
| `PeriodVerifier.VerifiedMeans` | reconforge/periods.py:820-854 | the verified payloads header field by header field and digest by digest |
| `PeriodVerifier.ForgedDecisionRejected` | reconforge/periods.py:841-847 | another decision digest is refused, whatever artifact digest is stored over it |
| `PeriodVerifier.ForgedHeaderRejected` | reconforge/periods.py:820-840 | a changed header field is refused, whatever digests are stored over it |
| `PeriodVerifier.DecisionDigestFixesDecision` | reconforge/periods.py:841-847 | verified artifacts with one decision digest hold one decision, or their decisions collide |
| `PeriodVerifier.ArtifactDigestFixesAll` | reconforge/periods.py:848-854 | verified artifacts with one digest agree on every field, or their bodies collide |
| `PeriodBuilder.BuiltArtifactVerifies` | reconforge/periods.py:686-731 | every comparison of finite rows and tables can be finalized, and every finalized one verifies, also against its own folders |
| `PeriodBuilder.BuiltDecisionKeys` | reconforge/periods.py:657-661 | the decision records exactly the sorted new, recurring, resolved, escalated and accepted-risk key sets |
| `PeriodBuilder.BuiltTables` | reconforge/periods.py:698-724 | where each table stands in a built payload |
| `PeriodBuilder.TrendRecordMeans` | reconforge/periods.py:362-379 | every column of every digested trend record |
| `PeriodBuilder.ChartMeans` | reconforge/periods.py:701-722 | the chart repeats the trend's columns |
| `PeriodBuilder.ListedRow` | reconforge/periods.py:240-247 | a listed exception is the first row of its key with its category, period and key written over |

## Left out

- Command line, report rendering (HTML, Markdown, Excel, CSV), metric extraction from files and demo data: they decide nothing.
- The sign of zero, exponent limits and signal traps of decimal contexts.
- PercentageRoundsOnce: leaves out previous values that abs() changes and variances too coarse for their base, because the law is false there (`PercentageExactIff`, `CoarseExactIff`).
- Amount parsing with locale separators; digits outside ASCII in amounts, and white space outside ASCII in amounts and review statuses.
- The UTF-8 encoding between a canonical text and SHA-256, and the constant-time comparison of digests.
- Arithmetic on doubles: the rounded completion percentage of a period is a parameter that yields a finite double. Lone surrogates in texts.
- Time-zone conversion: a moment is given by its UTC calendar fields.
- The lock of the window and its other collectors (SQLite, PostgreSQL, process memory).
- Fingerprinting of exception rows into comparison keys, review-state merging, and the check that input files did not change while they were read.
- pandas: frames are lists of rows, status and severity are taken as lower-cased text, and the summary, count and theme tables of an artifact are taken as rendered lists of records.
- The Python text of a comparison key that is itself an array or object is taken to be its JSON text.
- The legacy v1 thresholds have no canonical form, so no round trip.
