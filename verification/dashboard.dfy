/** The data side of the account-overview page object: turning the texts
    of the balance and available-amount columns into account entries, the
    optional total, the currency-format check and the console report.
    The live page is replaced by an `OverviewPage` snapshot of those texts. */
module AccountDashboard {
  import opened Wrappers
  import opened Text
  import Helpers
  import opened Filtering

  /** One row of the accounts table. */
  datatype AccountEntry = AccountEntry(balance: string, available: string)

  /** What `getAccountBalance` returns. */
  datatype BalanceInfo = BalanceInfo(accounts: seq<AccountEntry>, totalBalance: string)

  /** The read of the first `.ng-binding` node's text: it either produced a
      text (`null` for a node without one) or threw. */
  datatype TotalRead = Read(text: Option<string>) | ReadFailed

  /** The page texts `getAccountBalance` reads: all second-column cells and
      all third-column cells in document order, and the total-node read. */
  datatype OverviewPage = OverviewPage(balanceCells: seq<string>, availableCells: seq<string>, total: TotalRead)

  // ---------------------------------------------------------------------
  // Pairing the columns

  /** Row `i` yields an entry: both raw cells exist and are non-empty before
      trimming. A missing third-column cell is `undefined`, hence falsy. */
  predicate Keeps(bal: seq<string>, avail: seq<string>, i: int) {
    0 <= i < |bal| && i < |avail| && bal[i] != [] && avail[i] != []
  }

  /** The entry built from row `i`: both texts trimmed. */
  function EntryAt(bal: seq<string>, avail: seq<string>, i: int): AccountEntry
    requires 0 <= i < |bal| && i < |avail|
  {
    AccountEntry(Trim(bal[i]), Trim(avail[i]))
  }

  /** `Keeps` as a test on row numbers. */
  function RowKept(bal: seq<string>, avail: seq<string>): nat -> bool {
    (i: nat) => Keeps(bal, avail, i)
  }

  /** `EntryAt` as a total map on row numbers; the loop only applies it to
      kept rows, which lie inside both columns. */
  function RowEntry(bal: seq<string>, avail: seq<string>): nat -> AccountEntry {
    (i: nat) => if i < |bal| && i < |avail| then EntryAt(bal, avail, i) else AccountEntry([], [])
  }

  /** The rows that yield an entry, in ascending order. */
  function KeptRows(bal: seq<string>, avail: seq<string>): (rows: seq<nat>)
    ensures forall k :: 0 <= k < |rows| ==> Keeps(bal, avail, rows[k])
  {
    Indices(|bal|, RowKept(bal, avail))
  }

  /** The loop of `getAccountBalance` over the balance cells. */
  function ScrapeAccounts(bal: seq<string>, avail: seq<string>): seq<AccountEntry> {
    Gather(|bal|, RowKept(bal, avail), RowEntry(bal, avail))
  }

  /** `getAccountBalance` on a page snapshot. */
  function GetAccountBalance(page: OverviewPage): (info: BalanceInfo)
    ensures var rows := KeptRows(page.balanceCells, page.availableCells);
      && |info.accounts| == |rows|
      && forall k :: 0 <= k < |rows| ==>
           info.accounts[k] == EntryAt(page.balanceCells, page.availableCells, rows[k])
    ensures |info.accounts| <= |page.balanceCells| && |info.accounts| <= |page.availableCells|
    ensures page.total.Read? && page.total.text.Some? && page.total.text.value != []
      ==> info.totalBalance == Trim(page.total.text.value)
    ensures !(page.total.Read? && page.total.text.Some? && page.total.text.value != [])
      ==> info.totalBalance == []
  {
    var bal, avail := page.balanceCells, page.availableCells;
    var keep, build := RowKept(bal, avail), RowEntry(bal, avail);
    GatherFollowsIndices(|bal|, keep, build);
    var rows := KeptRows(bal, avail);
    IndicesIncrease(|bal|, keep);
    IncreasingBelowIsShort(rows, |bal|);
    IncreasingBelowIsShort(rows, |avail|);
    var total :=
      match page.total
      case Read(Some(t)) => if t != [] then Trim(t) else []
      case Read(None) => []
      case ReadFailed => [];
    BalanceInfo(ScrapeAccounts(bal, avail), total)
  }

  /** Row `i` is represented in the result exactly when both of its raw
      cells are present and non-empty. */
  lemma EntryForRowIff(page: OverviewPage, i: nat)
    requires i < |page.balanceCells|
    ensures i in KeptRows(page.balanceCells, page.availableCells)
      <==> Keeps(page.balanceCells, page.availableCells, i)
  {
    var bal, avail := page.balanceCells, page.availableCells;
    if Keeps(bal, avail, i) {
      IndicesComplete(|bal|, RowKept(bal, avail), i);
    }
  }

  /** A whitespace-only cell is non-empty before trimming, so its row
      still yields an entry, and that entry's field is the empty string. */
  lemma WhitespaceCellYieldsEmptyField(page: OverviewPage, i: nat)
    requires i < |page.balanceCells| && i < |page.availableCells|
    requires page.balanceCells[i] != [] && page.availableCells[i] != []
    ensures var info := GetAccountBalance(page);
      exists k :: 0 <= k < |info.accounts|
        && KeptRows(page.balanceCells, page.availableCells)[k] == i
        && (AllSpace(page.balanceCells[i]) ==> info.accounts[k].balance == "")
        && (AllSpace(page.availableCells[i]) ==> info.accounts[k].available == "")
  {
    var bal, avail := page.balanceCells, page.availableCells;
    var rows := KeptRows(bal, avail);
    EntryForRowIff(page, i);
    var k :| 0 <= k < |rows| && rows[k] == i;
    if AllSpace(bal[i]) {
      TrimBlank(bal[i]);
    }
    if AllSpace(avail[i]) {
      TrimBlank(avail[i]);
    }
    assert 0 <= k < |GetAccountBalance(page).accounts|;
  }

  // ---------------------------------------------------------------------
  // The currency format `^\$[\d,]+\.\d{2}$`

  predicate AmountChar(c: char) {
    IsDigit(c) || c == ','
  }

  /** `s` is `$`, one or more digits or commas, `.`, and two digits. */
  predicate CurrencyPattern(s: string) {
    |s| >= 5 && s[0] == '$'
    && (forall k :: 1 <= k < |s| - 3 ==> AmountChar(s[k]))
    && s[|s| - 3] == '.' && IsDigit(s[|s| - 2]) && IsDigit(s[|s| - 1])
  }

  /** `s` is zero or more digits or commas, `.`, and two digits. */
  predicate CentsTail(s: string) {
    |s| >= 3
    && (forall k :: 0 <= k < |s| - 3 ==> AmountChar(s[k]))
    && s[|s| - 3] == '.' && IsDigit(s[|s| - 2]) && IsDigit(s[|s| - 1])
  }

  /** States of a left-to-right matcher for the currency format. */
  datatype Scan = Start | AfterDollar | InAmount | AfterPoint | AfterCent | Accept | Dead

  function Step(q: Scan, c: char): Scan {
    match q
    case Start => if c == '$' then AfterDollar else Dead
    case AfterDollar => if AmountChar(c) then InAmount else Dead
    case InAmount => if AmountChar(c) then InAmount else if c == '.' then AfterPoint else Dead
    case AfterPoint => if IsDigit(c) then AfterCent else Dead
    case AfterCent => if IsDigit(c) then Accept else Dead
    case Accept => Dead
    case Dead => Dead
  }

  function Run(q: Scan, s: string): Scan
    decreases |s|
  {
    if s == [] then q else Run(Step(q, s[0]), s[1..])
  }

  lemma {:induction false} RunDead(s: string)
    ensures Run(Dead, s) == Dead
  {
    if s != [] {
      RunDead(s[1..]);
    }
  }

  lemma RunFromCents(s: string)
    ensures Run(Accept, s) == Accept <==> s == []
    ensures Run(AfterCent, s) == Accept <==> |s| == 1 && IsDigit(s[0])
    ensures Run(AfterPoint, s) == Accept <==> |s| == 2 && IsDigit(s[0]) && IsDigit(s[1])
  {
    RunDead(s);
    if s != [] {
      RunDead(s[1..]);
      if |s| > 1 {
        RunDead(s[2..]);
        if |s| > 2 {
          RunDead(s[3..]);
        }
      }
    }
  }

  lemma {:induction false} RunInAmount(s: string)
    ensures Run(InAmount, s) == Accept <==> CentsTail(s)
  {
    if s != [] {
      var t := s[1..];
      RunDead(t);
      if AmountChar(s[0]) {
        RunInAmount(t);
        if CentsTail(t) {
          assert forall k :: 1 <= k < |s| - 3 ==> s[k] == t[k - 1];
        }
        if CentsTail(s) {
          assert forall k :: 0 <= k < |t| - 3 ==> t[k] == s[k + 1];
        }
      } else if s[0] == '.' {
        RunFromCents(t);
      }
    }
  }

  /** The matcher accepts exactly the strings of the currency format. */
  lemma MatchesPattern(s: string)
    ensures Run(Start, s) == Accept <==> CurrencyPattern(s)
  {
    if s != [] {
      RunDead(s[1..]);
      if s[0] == '$' && |s| > 1 {
        var t := s[2..];
        RunDead(t);
        RunInAmount(t);
        if CentsTail(t) {
          assert forall k :: 2 <= k < |s| - 3 ==> s[k] == t[k - 2];
        }
        if CurrencyPattern(s) {
          assert forall k :: 0 <= k < |t| - 3 ==> t[k] == s[k + 2];
        }
      }
    }
  }

  /** The regular-expression test used for every amount. */
  function MatchCurrency(s: string): (ok: bool)
    ensures ok <==> CurrencyPattern(s)
  {
    MatchesPattern(s);
    Run(Start, s) == Accept
  }

  /** The examples of the format: a grouped amount passes, a one-digit
      fraction, a missing `$` and a three-digit fraction fail, and comma
      grouping is not checked. */
  lemma CurrencyExamples()
    ensures CurrencyPattern("$1,234.56")
    ensures !CurrencyPattern("$12.5")
    ensures !CurrencyPattern("12.34")
    ensures !CurrencyPattern("$1,234.567")
    ensures CurrencyPattern("$,.00")
  {
    var s := "$1,234.56";
    assert forall k :: 1 <= k < |s| - 3 ==> AmountChar(s[k]);
    assert "$1,234.567"[7] == '5';
  }

  /** A well-formed amount stripped of `$` and `,` (the first step of
      `formatCurrency`) is digits, `.`, and two digits. The digits before
      the point may be absent: `$,.00` strips to `.00`. */
  lemma StrippedCurrencyIsDecimal(s: string)
    requires CurrencyPattern(s)
    ensures var t := Helpers.StripCurrencySymbols(s);
      |t| >= 3 && AllDigits(t[..|t| - 3])
      && t[|t| - 3] == '.' && IsDigit(t[|t| - 2]) && IsDigit(t[|t| - 1])
  {
    var mid := s[1..|s| - 3];
    var tail := s[|s| - 3..];
    assert s == [s[0]] + mid + tail;
    Helpers.StripDistributes([s[0]] + mid, tail);
    Helpers.StripDistributes([s[0]], mid);
    Helpers.StripKeepsPlain(tail);
    var m := Helpers.StripCurrencySymbols(mid);
    forall k | 0 <= k < |m|
      ensures IsDigit(m[k])
    {
      assert m[k] in multiset(m);
      assert m[k] in multiset(mid);
      var j :| 0 <= j < |mid| && mid[j] == m[k];
      assert mid[j] == s[j + 1];
    }
    var t := Helpers.StripCurrencySymbols(s);
    assert t == m + tail;
    assert t[..|t| - 3] == m;
  }

  // ---------------------------------------------------------------------
  // verifyBalanceDisplay

  /** Why the display check fails: no accounts, or the first malformed
      amount, by entry index (balance is checked before available). */
  datatype DisplayError =
    | NoAccounts
    | MalformedBalance(index: nat, text: string)
    | MalformedAvailable(index: nat, text: string)

  predicate WellFormed(e: AccountEntry) {
    CurrencyPattern(e.balance) && CurrencyPattern(e.available)
  }

  /** `err` reports the first malformed amount at or after entry `from`. */
  predicate IsFirstMalformed(accts: seq<AccountEntry>, from: nat, err: DisplayError) {
    match err
    case NoAccounts => false
    case MalformedBalance(m, t) =>
      from <= m < |accts| && t == accts[m].balance && !CurrencyPattern(t)
      && forall p :: from <= p < m ==> WellFormed(accts[p])
    case MalformedAvailable(m, t) =>
      from <= m < |accts| && CurrencyPattern(accts[m].balance)
      && t == accts[m].available && !CurrencyPattern(t)
      && forall p :: from <= p < m ==> WellFormed(accts[p])
  }

  /** The `forEach` of `verifyBalanceDisplay` from entry `from` on. */
  function FirstMalformed(accts: seq<AccountEntry>, from: nat): (r: Option<DisplayError>)
    requires from <= |accts|
    ensures r.None? <==> forall p :: from <= p < |accts| ==> WellFormed(accts[p])
    ensures r.Some? ==> IsFirstMalformed(accts, from, r.value)
    decreases |accts| - from
  {
    if from == |accts| then None
    else if !MatchCurrency(accts[from].balance) then Some(MalformedBalance(from, accts[from].balance))
    else if !MatchCurrency(accts[from].available) then Some(MalformedAvailable(from, accts[from].available))
    else FirstMalformed(accts, from + 1)
  }

  /** `verifyBalanceDisplay`: succeeds with `true` exactly when there is at
      least one account and every balance and available amount has the
      currency format; otherwise reports the first violation. */
  function VerifyBalanceDisplay(page: OverviewPage): (r: Result<bool, DisplayError>)
    ensures var accts := GetAccountBalance(page).accounts;
      r.Success? <==> |accts| > 0 && forall p :: 0 <= p < |accts| ==> WellFormed(accts[p])
    ensures r.Success? ==> r.value
    ensures r == Failure(NoAccounts) <==> |GetAccountBalance(page).accounts| == 0
    ensures r.Failure? && r.error != NoAccounts ==> IsFirstMalformed(GetAccountBalance(page).accounts, 0, r.error)
  {
    var accts := GetAccountBalance(page).accounts;
    if |accts| == 0 then Failure(NoAccounts)
    else
      match FirstMalformed(accts, 0)
      case None => Success(true)
      case Some(e) => Failure(e)
  }

  // ---------------------------------------------------------------------
  // logAccountBalance

  const ReportHeader: string := "=== ACCOUNT BALANCE INFORMATION ==="
  const ReportFooter: string := "===================================="

  function AccountHeading(n: nat): string {
    "Account " + Decimal(n) + ":"
  }

  function BalanceLine(e: AccountEntry): string {
    "  Balance: " + e.balance
  }

  function AvailableLine(e: AccountEntry): string {
    "  Available: " + e.available
  }

  /** The three report lines of each account from entry `from` on. */
  function AccountLines(accts: seq<AccountEntry>, from: nat): (lines: seq<string>)
    requires from <= |accts|
    ensures |lines| == 3 * (|accts| - from)
    ensures forall k {:trigger accts[k]} :: from <= k < |accts| ==>
      && lines[3 * (k - from)] == AccountHeading(k + 1)
      && lines[3 * (k - from) + 1] == BalanceLine(accts[k])
      && lines[3 * (k - from) + 2] == AvailableLine(accts[k])
    decreases |accts| - from
  {
    if from == |accts| then []
    else
      [AccountHeading(from + 1), BalanceLine(accts[from]), AvailableLine(accts[from])]
      + AccountLines(accts, from + 1)
  }

  /** The console report of `logAccountBalance`: a header, the number of
      accounts, three lines per account, the total when it is non-empty,
      and a footer. */
  function BalanceReport(info: BalanceInfo): (lines: seq<string>)
    ensures |lines| == 3 + 3 * |info.accounts| + (if info.totalBalance != [] then 1 else 0)
    ensures lines[0] == ReportHeader && lines[|lines| - 1] == ReportFooter
    ensures lines[1] == "Number of accounts: " + Decimal(|info.accounts|)
    ensures info.totalBalance != [] ==> lines[|lines| - 2] == "Total Balance: " + info.totalBalance
  {
    [ReportHeader, "Number of accounts: " + Decimal(|info.accounts|)]
    + AccountLines(info.accounts, 0)
    + (if info.totalBalance != [] then ["Total Balance: " + info.totalBalance] else [])
    + [ReportFooter]
  }

  /** Account `k` of the balance information occupies report lines
      `3k + 2` to `3k + 4`: its 1-based heading, its balance, its available
      amount. */
  lemma ReportListsAccount(info: BalanceInfo, k: nat)
    requires k < |info.accounts|
    ensures BalanceReport(info)[3 * k + 2] == AccountHeading(k + 1)
    ensures BalanceReport(info)[3 * k + 3] == BalanceLine(info.accounts[k])
    ensures BalanceReport(info)[3 * k + 4] == AvailableLine(info.accounts[k])
  {
  }

  /** `logAccountBalance`: the report is a side effect; the balance
      information comes back exactly as `getAccountBalance` produced it. */
  function LogAccountBalance(page: OverviewPage): (r: (BalanceInfo, seq<string>))
    ensures r.0 == GetAccountBalance(page)
    ensures r.1 == BalanceReport(GetAccountBalance(page))
  {
    var info := GetAccountBalance(page);
    (info, BalanceReport(info))
  }
}
