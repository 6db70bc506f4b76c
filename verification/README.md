# Parabank test helpers in Dafny

This project models the logic inside a Playwright test suite for the
Parabank demo bank. Once the browser is replaced by plain inputs, three
groups of decisions are left:

- **Account overview page** (module `AccountDashboard`):
  - `getAccountBalance` pairs the balance column with the available-amount column, row by row, and keeps the trimmed texts of the rows whose raw cells are both present and non-empty.
  - The total balance is optional.
  - `verifyBalanceDisplay` requires at least one account and checks every amount against `^\$[\d,]+\.\d{2}$`.
  - `logAccountBalance` prints a report and hands the balance information back unchanged.
- **Registration page** (module `Registration`):
  - `fillRegistrationForm` fills eleven inputs in a fixed order.
  - `fillPartialRegistrationForm` skips the excluded field and every empty value, and fills the confirmation unless the password is excluded or empty.
  - `verifyValidationError` decides whether the inline error texts mention a field.
- **Shared utilities** (module `Helpers`):
  - the credential format `i<timestamp>vupra` / `T<timestamp>!`;
  - the three user generators;
  - `retryWithBackoff`;
  - the `$`/`,` stripping step of `formatCurrency`;
  - `isValidEmail`;
  - the screenshot file name.

Supporting modules:

- `Text` holds the string primitives the JavaScript code relies on: `trim`, `toLowerCase`, `includes` and decimal rendering of integers.
- `Filtering` holds order-preserving filters over sequences and over index ranges, with their lemmas proved once for any predicate.
- `Wrappers` holds `Option` and `Result`.

Everything outside the program becomes a parameter:

| Outside dependency | How the model represents it |
|---|---|
| A page | An `OverviewPage`: the cell texts and the total-node read. |
| Fills | A returned sequence of `FillAction`s. |
| The retried operation | A function from call number to `Returned` / `Threw`. |
| The clock | A millisecond timestamp or an ISO string. |
| faker | A `FakeProfile` of drawn values. |

## Model

| member | source | states |
|---|---|---|
| AccountDashboard.GetAccountBalance | pages/accontDashbordPage.js:46-74 | Entry k holds the trimmed balance and available texts of the k-th row whose two raw cells exist and are non-empty, in ascending row order. There are never more entries than cells in either column. The total is the trimmed text of the total node when that text is non-empty. Otherwise, including a failed read, the total is "". |
| AccountDashboard.EntryForRowIff | pages/accontDashbordPage.js:55-56 | A row is among the kept rows if and only if its balance cell and its available cell both exist and are non-empty before trimming. |
| AccountDashboard.WhitespaceCellYieldsEmptyField | pages/accontDashbordPage.js:56-60 | For any page and any row whose two raw cells exist and are non-empty, the row yields an entry. If either cell is whitespace only, which is still truthy, that entry's field for it is "". |
| AccountDashboard.MatchesPattern | pages/accontDashbordPage.js:112-113 | The left-to-right matcher accepts a string if and only if it is `$`, then one or more digits or commas, then `.`, then exactly two digits. |
| AccountDashboard.MatchCurrency | pages/accontDashbordPage.js:112-113 | The regular-expression test holds exactly for strings of the currency format. |
| AccountDashboard.CurrencyExamples | pages/accontDashbordPage.js:112-113 | `$1,234.56` matches. `$12.5`, `12.34` and `$1,234.567` do not. `$,.00` matches because comma grouping is not checked. |
| AccountDashboard.FirstMalformed | pages/accontDashbordPage.js:111-115 | The per-account loop finds nothing if and only if every amount from the start entry on is well-formed. Otherwise it reports the first malformed amount, with the balance checked before the available amount of the same entry. |
| AccountDashboard.VerifyBalanceDisplay | pages/accontDashbordPage.js:104-118 | Succeeds, with `true`, if and only if there is at least one account and every balance and available amount has the currency format. With no accounts it fails with `NoAccounts`. Otherwise it fails with the first malformed amount. |
| AccountDashboard.AccountLines | pages/accontDashbordPage.js:86-90 | Each account contributes three lines in entry order: its 1-based heading, its balance line and its available line. |
| AccountDashboard.BalanceReport | pages/accontDashbordPage.js:83-96 | The report is a header, the account count, three lines per account, a total line only when the total is non-empty, and a footer. |
| AccountDashboard.ReportListsAccount | pages/accontDashbordPage.js:86-90 | Account k appears on report lines 3k+2 to 3k+4 with heading number k+1 and its own two amounts. |
| AccountDashboard.LogAccountBalance | pages/accontDashbordPage.js:80-98 | Hands back the balance information exactly as `getAccountBalance` produced it, together with the report built from it. |
| AccountDashboard.StrippedCurrencyIsDecimal | utils/helpers.js:129-131 | Stripping `$` and `,` from a well-formed amount leaves possibly empty digits, `.`, and two digits. |
| Registration.FillRegistrationForm | pages/registrationPage.js:43-55 | Exactly eleven fills, one per input in form order from first name to confirmation. Each carries its user property, and the confirmation carries the password. |
| Registration.FullFillLists | pages/registrationPage.js:43-55 | Every input appears in the full fill with its value. |
| Registration.FieldNamed | pages/registrationPage.js:63-74 | A name that finds a field is that field's key in the field map, and never names the confirmation. |
| Registration.FieldNamedKey | pages/registrationPage.js:63-74 | Looking up a field's own key finds that field, so the ten keys are distinct. |
| Registration.FieldNamedOutsideKeys | pages/registrationPage.js:63-77 | A name that is not one of the ten keys names no field. |
| Registration.ExcludedFieldOfKey | pages/registrationPage.js:63-77 | Excluding a field by its key excludes exactly that field. |
| Registration.FilledIffSelected | pages/registrationPage.js:76-84 | The loop's string rule agrees with the field-level rule for every field: "key differs from the exclusion and the value is truthy", and for the confirmation "exclusion is not `password` and the password is truthy". |
| Registration.FillMapped | pages/registrationPage.js:76-80 | The loop over the field map, from any entry on, issues the full fill's fills for those entries, in order, restricted to the selected fields. |
| Registration.FillPartialRegistrationForm | pages/registrationPage.js:62-85 | The fills issued are the full fill's fills, in the same order, restricted to the fields the exclusion and the truthiness rule select. |
| Registration.PartialFillsExactlyFilled | pages/registrationPage.js:76-84 | A field is filled, with its value, if and only if the loop's rule selects it. A filled field is never empty and never the excluded one. |
| Registration.PartialFillsCarryValues | pages/registrationPage.js:77-83 | Every fill issued carries its own field's value, and that value is non-empty. |
| Registration.ConfirmationFilledIff | pages/registrationPage.js:82-84 | The confirmation is filled, with the password, if and only if the exclusion is not `password` and the password is non-empty. |
| Registration.PartialWithoutExclusionIsFull | pages/registrationPage.js:43-85 | With no exclusion and every value non-empty, the partial fill issues exactly the full fill. |
| Registration.UnknownExclusionExcludesNothing | pages/registrationPage.js:63-80 | An exclusion that is not one of the ten keys gives the same fills as no exclusion. |
| Registration.SelectedUnlessExcluded | pages/registrationPage.js:76-84 | With every value present and a non-password field excluded, a field is selected if and only if it is not the excluded one. |
| Registration.SelectionRejectsOnly | pages/registrationPage.js:76-80 | In the same situation, the excluded field's position is the only position of the full fill that is rejected. |
| Registration.ExclusionSkipsOnlyThatField | pages/registrationPage.js:62-85 | With every value present, excluding a non-password field gives the full fill with exactly that field's fill removed. |
| Registration.ExcludingFirstNameSkipsOnlyIt | pages/registrationPage.js:62-85 | For a generated user with non-empty drawn values, excluding `firstName` fills the other ten inputs exactly as the full fill does. |
| Registration.InvalidUserEmptyFields | utils/helpers.js:38-50 | Only the address and contact fields of the invalid user can be non-empty. |
| Registration.InvalidUserFillsOnlyContactFields | pages/registrationPage.js:76-84 | The invalid user's partial fill never touches a name, user-name, password or confirmation input. |
| Registration.VerifyValidationError | pages/registrationPage.js:114-121 | Passes if and only if some error text mentions the field. An empty list fails. |
| Registration.MentionsIffOccurs | pages/registrationPage.js:116-119 | A text mentions a field if and only if, at some offset, the lower-cased text holds the lower-cased field name or the text holds `is required`. |
| Registration.ValidationErrorIffOccurrence | pages/registrationPage.js:114-121 | The check passes if and only if some error text has one of those two occurrences at some offset. |
| Registration.RequiredMessageSatisfiesCheck | pages/registrationPage.js:116-119 | "First name is required." satisfies the check for `firstName` through the case-sensitive `is required` clause. |
| Helpers.MakeUsername | utils/helpers.js:18 | The user name has the shape `i<digits>vupra`, and the timestamp reads back from it. |
| Helpers.MakePassword | utils/helpers.js:19 | The password has the shape `T<digits>!`, and the timestamp reads back from it. |
| Helpers.GenerateUserData | utils/helpers.js:7-21 | The personal fields are the drawn values. The credentials carry the timestamp in their formats. |
| Helpers.DistinctTimestampsDistinctCredentials | utils/helpers.js:18-19 | Two generated users share a user name, or a password, if and only if they were generated at the same millisecond. |
| Helpers.GenerateUserDataWithUsername | utils/helpers.js:28-32 | The user name is the given one. Every other field is that of the generated user. |
| Helpers.GenerateInvalidUserData | utils/helpers.js:38-51 | First name, last name, user name and password are "". The address and contact fields are the drawn values. |
| Helpers.RetryFrom | utils/helpers.js:102-112 | From iteration i on: calls stay within the budget; only the last call may have returned; the waits follow the doubling schedule from i; a rejection happens only after the whole budget and carries the last error. |
| Helpers.RetryWithBackoff | utils/helpers.js:101-113 | Calls the operation at most `maxRetries` times and stops at the first success, yielding its value. When every call throws, it re-throws the last error. It requests a wait of `baseDelay * 2^i` (the delay it logs) after failed call i, and none after the last call. When `maxRetries <= 0` it settles with `undefined` without calling at all. |
| Helpers.RetryReturnsFirstSuccess | utils/helpers.js:102-104 | When call k is the first to return and k is within the budget, the run makes k+1 calls and resolves with that value. |
| Helpers.BackoffScheduleTotal | utils/helpers.js:108-110 | The requested delays of n failed calls add up to `baseDelay * (2^n - 1)`. |
| Helpers.RetryDefaultsExhausted | utils/helpers.js:101-110 | With the defaults and an operation that always throws: three calls, requested delays of 1000 and 2000 ms, and the third error re-thrown. |
| Helpers.StripCurrencySymbols | utils/helpers.js:130 | The result has no `$` and no `,`. Every other character occurs exactly as often as in the input. |
| Helpers.StripDistributes | utils/helpers.js:130 | Stripping a concatenation is concatenating the stripped parts, so order is kept. |
| Helpers.StripKeepsPlain | utils/helpers.js:130 | A string without `$` and `,` is unchanged. |
| Helpers.StripIdempotent | utils/helpers.js:130 | Stripping twice is stripping once. |
| Helpers.EmailAcceptedHasShape | utils/helpers.js:138-141 | Every accepted address has no whitespace, exactly one `@` with a non-empty part before it, and a `.` after the `@` that is neither first nor last in the domain. |
| Helpers.EmailShapeIsAccepted | utils/helpers.js:138-141 | Every string of that shape is accepted. |
| Helpers.EmailAcceptsIff | utils/helpers.js:138-141 | `Helpers.IsValidEmail`, the regular-expression test of `isValidEmail`, accepts exactly the strings of that shape. |
| Helpers.SanitizeTimestamp | utils/helpers.js:69 | Every `:` and `.` becomes `-`, and every other character is kept in place. |
| Helpers.ScreenshotPath | utils/helpers.js:69-71 | The path is `screenshots/`, the name, `-`, the sanitized timestamp and `.png`, each at its computed offset. |
| Helpers.ScreenshotPathInjective | utils/helpers.js:69-71 | For ISO timestamps, distinct instants give distinct paths for the same name. |
| Text.Trim | pages/accontDashbordPage.js:58-59 | `trim` never lengthens a text, and its result neither starts nor ends with whitespace. |
| Text.TrimStripsSpace | pages/accontDashbordPage.js:58-59 | A trimmed text is the original with a block of whitespace removed at each end. The ensures of `Trim` make those blocks maximal. |
| Text.TrimIdempotent | pages/accontDashbordPage.js:58-59 | Trimming twice is trimming once. |
| Text.ToLower | pages/registrationPage.js:117 | Lower-casing keeps the length and maps each character on its own. |
| Text.ContainsIffOccurs | pages/registrationPage.js:117-118 | `Text.Contains`, the model of `includes`, succeeds if and only if the searched text occurs at some offset. |
| Text.Decimal | utils/helpers.js:18-19 | The rendering of the timestamp inside the credentials is a non-empty string of digits. It starts with `0` only for the timestamp 0. |
| Text.ParseDecimalInvertsDecimal | utils/helpers.js:18-19 | Reading back the decimal rendering of a timestamp gives the timestamp. |
| Text.DecimalInjective | utils/helpers.js:18-19 | Distinct timestamps render to distinct digit strings. |

## Behaviour that is easy to miss

The model follows the code in each case:

- **Partial fill.** The JSDoc of `fillPartialRegistrationForm` speaks only of the excluded field (pages/registrationPage.js:57-61). The loop also skips every field whose value is empty or missing (pages/registrationPage.js:77). The confirmation is skipped when the password is empty (pages/registrationPage.js:82).
- **Balance check.** `verifyBalanceDisplay` fails when there are no accounts, before any format check (pages/accontDashbordPage.js:108).
- **Scraped rows.** `getAccountBalance` drops a row when its balance or available cell is missing or empty before trimming. Rows are dropped for this, not only when one column is shorter (pages/accontDashbordPage.js:56).
- **Retries.** With `maxRetries <= 0`, `retryWithBackoff` never calls the operation and resolves with `undefined` (utils/helpers.js:102, 113).

## Left out

- Playwright locators, navigation, clicks, visibility waits and `expect` messages are the external browser engine. `verifyAccountOverviewPage`, the table visibility check, `submitRegistration`, the success and error checks of the registration page, `getWelcomeMessage`, `openNewAccount` and `logout` only sequence such calls.
- pages/loginPage.js, the test files, the step definitions and utils/dataGenerator.js are not part of this model. They orchestrate calls or draw random literals, and have no decision of their own.
- `waitForElement`, `clearAndFill`, `waitForPageLoad` and `logTestStep` only forward to Playwright or to the console.
- `console.log` output other than the balance report is not modelled: the retry messages, the per-account message of `verifyBalanceDisplay` and the "not found" message of the total read.
- `formatCurrency`: the `parseFloat` step is left out because it is floating point. Only the stripping step is modelled.
- Helpers.GenerateUserData: faker and `Date.now` are parameters. The phone format and the SSN range are faker's business and are not constrained.
- Helpers.ScreenshotPath: the screenshot file itself is not written. The ISO timestamp is a parameter.
- Helpers.RetryWithBackoff:
  - `maxRetries` and `baseDelay` are integers here; non-integer values are not modelled;
  - the delays are the requested ones that line 109 logs, as exact integers; a request of `2^1024` ms or more, which JavaScript computes as `Infinity`, is not modelled;
  - `baseDelay * Math.pow(2, i)` is `NaN` once the power is `Infinity` and `baseDelay` is 0, and that is not modelled either;
  - Node's `setTimeout` waits 1 ms instead of any request above `2^31 - 1` ms, below 1 ms, or `NaN`; with the default base of 1000 ms that happens from failed call 22 on, and those actual waits are not modelled;
  - the program does not actually sleep: the delays come back as a schedule.
- Text.Trim: only ASCII space and TAB to CR count as whitespace. JavaScript's `trim` also removes no-break and other Unicode spaces.
- Text.ToLower: only `A`-`Z` are lower-cased. JavaScript also folds non-ASCII letters.
- Helpers.IsValidEmail: `\s` is the same ASCII whitespace set.
- Registration.FillRegistrationForm: a user property that is missing is modelled as "". Playwright's `fill` rejects `undefined`, and that error is not modelled. In every truthiness test of the partial fill, "" and `undefined` agree.
- AccountDashboard.RowEntry: it gives an empty entry for a row outside either column. The loop never asks for those rows, so this default is never observable.
