# Verified model of the ISP platform's core

The platform sells internet access: it answers RADIUS requests for hotspots, bills plans, keeps
wallets, and writes scripts and addresses for routers. This Dafny project models the parts of it where
a mistake loses money, service or data, and proves what those parts are for. `dafny verify
dfyconfig.toml` checks all of it.

Each database transaction is one atomic step, and a thrown error leaves the state as it was. Code that
changes rows or buffers step by step is a class or a method with loops, proved equal to a function of
the old state; what the platform promises is then proved about those functions, over every input and
every run. JavaScript's 32-bit shifts are written out on unbounded integers (`JsBits.dfy`), and MD5 and
HMAC-MD5 are arbitrary functions to 16 bytes.

| area | files |
|---|---|
| RADIUS packets, PAP passwords, reply attributes | `RadiusPacket`, `PapPassword`, `ReplyAttributes` |
| Hotspot vouchers, returning phones and their usage | `MacAddress`, `HotspotDevices`, `HotspotUsage` |
| Bills, payments, wallets, refunds, agents, referrals | `Wallets`, `Payments`, `MoneyDecisions`, `MoneyRuns`, `MoneyLimits`, `BillingService`, `AgentCash`, `AgentStatement`, `Referrals` |
| The billing calendar, pauses, add-ons, tax | `PlanCalendar`, `PausedPlans`, `PlanService`, `AddOns`, `Tax` |
| Codecs and text transformers | `Base32`, `SetupScript`, `Csv`, `Ipv4`, `NetworkText` |
| Router identity, job queues | `RouterTokens`, `JobQueue` |
| Shared ground | `Optional`, `Integers`, `Text`, `Digits`, `JsBits`, `Bytes` |

What turned out not to hold of the code is stated as such, with the exact condition under which it does:

- Every money step conserves money but one: a wallet payment that offers more than the bill needs
  (`MoneyRuns.StepConserves`, `MoneyLimits.OverdrawExample`).
- A bill with payments on it can be voided, exactly when it was part-paid and overdue
  (`MoneyLimits.VoidHidesMoneyExactly`, `MoneyLimits.VoidedPartPaidBill`).
- An agent's collection sent twice under one request is not always harmless
  (`AgentCash.ReplayedCollection`, `MoneyLimits.CollectedTwice`).
- A paused plan does not stay off until its pause ends: a payment that leaves its customer owing nothing
  switches it on (`PausedPlans.PausedPlanSwitchedOnExactly`). A renewal job can then bill it inside a
  pause that is still given back, and bills back in time exactly when that is a whole cycle or more
  (`PlanCalendar.BillsOnceExactlyIfGuarded`, `PausedPlans.PausedPlanBilledBack`).
- A voucher code typed a second time is granted the whole data cap and the whole time again
  (`HotspotUsage.CodeLoginGrantsTheWholeVoucher`, `HotspotUsage.UsedCodeIsGrantedInFull`).
- A one-device voucher can have two devices connected: the device limit does not see a session whose
  packets name no phone when a phone that names itself logs in (`HotspotUsage.OneDeviceUnlessUnseen`,
  `HotspotUsage.UnseenSessionIsJoined`).
- A session whose packets name no phone overwrites what other sessions of its voucher used, and beside
  it a named phone's report can lose usage as well (`HotspotUsage.BlindReportOverwrites`,
  `HotspotUsage.BlindSessionsLoseUsage`, `HotspotUsage.NamedReportIsExactIfBaselineIs`,
  `HotspotUsage.UnseenSessionIsJoined`).
- The packet parser throws on a stray last byte (`RadiusPacket.ParseThrowsExactly`,
  `RadiusPacket.StrayByteThrows`).
- A VPN address is handed out of the subnet written only for prefixes up to 32, and nothing checks the
  prefix (`Ipv4.OffsetsAreHosts`, `Ipv4.SlashThirtyThree`).
- A referral whose pass dies between claim and payment is never rewarded (`Referrals.UnrewardedAreTheLost`,
  `Referrals.LostForGood`).

The comment above the CSV writer promises apostrophe-free cells; the code puts an apostrophe in front of
a cell that would start a formula, and the model follows the code.

## Model

| member | source | states |
|---|---|---|
| RadiusPacket.ParsePacket | packages/radius/src/radius-server.ts:99-117 | the offset loop drops, throws or reads exactly what the recursive reading of the attribute area gives |
| RadiusPacket.AttributesSound | packages/radius/src/radius-server.ts:104-115 | the attributes the parser returns, printed, are the front of the area, and what it stopped or threw on is no attribute |
| RadiusPacket.AttributesOfPrinted | packages/radius/src/radius-server.ts:149-151 | parsing printed attributes gives them back and goes on behind them |
| RadiusPacket.ParseThrowsExactly | packages/radius/src/radius-server.ts:111 | the parser throws if and only if the length field covers the whole datagram and whole attributes are followed by one stray byte |
| RadiusPacket.StrayByteThrows | packages/radius/src/radius-server.ts:111 | a datagram of 21 bytes that says it has 21 |
| RadiusPacket.BuildResponse | packages/radius/src/radius-server.ts:172-207 | overwriting the zeroed last sixteen bytes in place gives the reply whose two digests are nested as specified; too long a reply is refused |
| RadiusPacket.ResponseFits | packages/radius/src/radius-server.ts:180-191 | a reply is refused if and only if it is longer than 65535 bytes, eighteen of them for the signature of an accept or reject |
| RadiusPacket.ResponseParsesBack | packages/radius/src/radius-server.ts:149-207 | the client parses exactly the code, identifier and attributes sent, plus one Message-Authenticator on accept and reject, if and only if every value is at most 253 bytes |
| RadiusPacket.ResponseIsAuthentic | packages/radius/src/radius-server.ts:196-206 | the Response Authenticator is the digest section 3 of RFC 2865 prescribes for the finished packet |
| RadiusPacket.VerifyRequestMessageAuthenticator | packages/radius/src/radius-server.ts:240-257 | the search loop compares the first well-formed Message-Authenticator with the digest of the packet with it zeroed, or finds none |
| RadiusPacket.FirstSignatureDecides | packages/radius/src/radius-server.ts:240-257 | a request with a Message-Authenticator anywhere is judged by the first one, against the digest of the whole packet with those sixteen bytes zeroed, whatever stands before and behind it |
| RadiusPacket.NoSignatureNoVerdict | packages/radius/src/radius-server.ts:240-257 | a request that has none before its end or before a malformed attribute proves nothing |
| RadiusPacket.PaddingIsIgnored | packages/radius/src/radius-server.ts:242 | bytes behind the length a packet claims change no verdict |
| RadiusPacket.ResponseSignatureVerifies | packages/radius/src/radius-server.ts:172-257 | with the request authenticator back in bytes 4 to 20, the server's own verifier accepts the reply it built |
| RadiusPacket.AccountingAcceptsExactlySigned | packages/radius/src/radius-server.ts:213-224 | the accounting check accepts a datagram if and only if a holder of the secret signed it as section 3 of RFC 2866 says |
| PapPassword.RevealBlock | packages/radius/src/radius-server.ts:137-142 | the inner loop writes one exclusive-or block into the buffer and touches nothing else |
| PapPassword.DecodePapPassword | packages/radius/src/radius-server.ts:130-147 | the chained blocks, cut at the first NUL, for any number of blocks and a short last one |
| PapPassword.RevealedBits | packages/radius/src/radius-server.ts:135-143 | a bit of the password differs from the wire if and only if that bit of MD5(secret, cipher block before) is one, for any number of blocks |
| PapPassword.RevealHide | packages/radius/src/radius-server.ts:130-147 | un-hiding inverts the hiding of section 5.2 of RFC 2865 across all chained blocks |
| PapPassword.HideReveal | packages/radius/src/radius-server.ts:130-147 | hiding inverts un-hiding, so the pair is a bijection |
| PapPassword.PasswordRoundTrip | packages/radius/src/radius-server.ts:130-147 | the server recovers the password typed, of any length, if and only if it contains no NUL |
| ReplyAttributes.BuildReplyAttributes | packages/radius/src/radius-server.ts:381-430 | the loop over reply rows forwards, skips, replaces or throws as specified row by row |
| ReplyAttributes.EveryRowIsSent | packages/radius/src/radius-server.ts:381-430 | the attributes sent are exactly those of the rows, spelled by vendor and type number, and of the time and data left |
| ReplyAttributes.ThrowsExactly | packages/radius/src/radius-server.ts:381-430 | building throws if and only if a number that is sent does not fit its 32 or 64 bits |
| ReplyAttributes.TotalLimitReadsBack | packages/radius/src/radius-server.ts:352-376 | a byte limit split over remainder and gigawords is read back exactly, for every 64-bit size |
| ReplyAttributes.ReturningPhoneGetsWhatIsLeft | packages/radius/src/radius-server.ts:385-428 | whatever the reply rows say, a returning phone is granted exactly the data and time left, once each |
| ReplyAttributes.GrantReachesTheRouter | packages/radius/src/radius-server.ts:172-428 | the router that parses the printed Access-Accept reads exactly the data left and the time left |
| ReplyAttributes.OneLimitIsGranted | packages/radius/src/radius-server.ts:413-417 | reply rows with one data limit among them grant that limit, whatever the other rows are |
| MacAddress.NormalFormIsStable | packages/network/src/hotspot-device.service.ts:18-23 | normalizing a normalized address changes nothing |
| MacAddress.TwelveDigits | packages/network/src/hotspot-device.service.ts:18-23 | text is an address if and only if, separators aside, it is twelve hexadecimal digits |
| MacAddress.StoredAsPairs | packages/network/src/hotspot-device.service.ts:21-22 | it is stored as six pairs in upper case with colons between |
| MacAddress.SamePhone | packages/network/src/hotspot-device.service.ts:18-23 | two spellings are the same phone if and only if they hold the same twelve digits, however separated or cased |
| MacAddress.ShortIsNoMac | packages/network/src/hotspot-device.service.ts:18-23 | nothing shorter than twelve characters, so no voucher code, is an address |
| HotspotDevices.HotspotTables.RememberDevice | packages/network/src/hotspot-device.service.ts:26-41 | the phone's row becomes this voucher with its usage as baseline; unknown phones and non-vouchers change nothing |
| HotspotDevices.HotspotTables.CheckLogin | packages/network/src/hotspot-device.service.ts:60-94 | whether and with what a phone may return, over all the refusals |
| HotspotDevices.HotspotTables.FindMacLogin | packages/network/src/hotspot-device.service.ts:99-107 | the same answer, moving the baseline to the usage recorded so far |
| HotspotDevices.HotspotTables.HandleAccounting | packages/radius/src/radius-server.ts:739-752 | a report overwrites the voucher's usage with baseline plus counters and asks for a disconnect at the cap |
| HotspotDevices.HotspotTables.HandleAccessRequest | packages/radius/src/radius-server.ts:632-690 | password, first activation, login by MAC, device limit and remembering, in this order |
| HotspotDevices.HotspotTables.ExpireOverdueVouchers | packages/radius/src/voucher.service.ts:273-289 | the sweep takes the RADIUS identity from overdue active vouchers only, from all of them or from 500, and counts them |
| HotspotUsage.UsageIsEverySession | packages/network/src/hotspot-device.service.ts:14-16 | over every run of logins, reports, sweeps and new vouchers, the usage recorded on a voucher whose sessions named their phones is the sum of every session's last counters, in each direction |
| HotspotUsage.RunNeverDecreases | packages/radius/src/radius-server.ts:484-490 | over every run the usage recorded on such a voucher never decreases, although each report overwrites it |
| HotspotUsage.ReturningPhoneIsGrantedTheRest | packages/network/src/hotspot-device.service.ts:60-107 | a phone asking by MAC is let in if and only if its voucher is active with a minute and a byte left and no other device is seen connected, and is granted exactly the cap less the use recorded, which is that of all sessions when they named their phones |
| HotspotUsage.DisconnectExactlyAtTheCap | packages/radius/src/radius-server.ts:437-441 | a disconnect is asked for on exactly the reports that bring the recorded use, that of all sessions when they named their phones, to the cap while the voucher has its RADIUS rows |
| HotspotUsage.NamesFindTheSessions | packages/network/src/hotspot-device.service.ts:157-160 | the session names of a voucher match its open sessions and no others |
| HotspotUsage.BusyIsAnotherDevice | packages/radius/src/radius-server.ts:652-675 | the device limit refuses a login if and only if an open session of the voucher counts against it: one that names another station, or any at all when the login names none |
| HotspotUsage.CodeLoginDecides | packages/radius/src/radius-server.ts:632-690 | a voucher's name and password are accepted if and only if the voucher has that password and no other device is seen connected; the clock starts at the first right password, and an accepted phone gets the voucher with its usage as baseline |
| HotspotUsage.OthersAreRefused | packages/radius/src/radius-server.ts:632-690 | any other name than a voucher or the phone itself is refused and changes nothing |
| HotspotUsage.OneDeviceAtATime | packages/radius/src/radius-server.ts:652-675 | over every run a one-device voucher whose sessions named their phones has at most one of them open |
| HotspotUsage.OneDeviceUnlessUnseen | packages/radius/src/radius-server.ts:654-660 | an accepted login leaves another session of its voucher open if and only if one was open that names no phone |
| HotspotUsage.UnseenSessionIsJoined | packages/radius/src/radius-server.ts:654-660 | a run in which a phone joins an unnamed session on a one-device voucher, and its report leaves 50 of 150 bytes recorded |
| HotspotUsage.ReportIsCharged | packages/network/src/hotspot-device.service.ts:111-130 | any report is charged to the session's own voucher, on top of its baseline when the session names its phone and on top of nothing otherwise |
| HotspotUsage.ReportFindsItsVoucher | packages/network/src/hotspot-device.service.ts:111-130 | which voucher any report counts against and on which baseline, over every name and station it may carry |
| HotspotUsage.CutAtTheFirstLimit | packages/radius/src/radius-server.ts:437-441 | a report asks for a disconnect if and only if it reaches the first data limit of its voucher, when that is positive |
| HotspotUsage.SweepTakesTheOverdue | packages/radius/src/voucher.service.ts:273-289 | a sweep expires exactly the active vouchers of its page whose end has passed, and changes nothing else |
| HotspotUsage.CodeLoginGrantsTheWholeVoucher | packages/radius/src/radius-server.ts:387-421 | the attributes sent for a login by code grant the whole cap, which is what is left if and only if no session used anything, and the whole time, which exceeds what is left by exactly the seconds begun since activation |
| HotspotUsage.UsedCodeIsGrantedInFull | packages/radius/src/radius-server.ts:679-680 | a run of new voucher, login, report: the code typed again is granted 1048576 bytes of which 748576 are left, and 3600 seconds of which 3595 are |
| HotspotUsage.BlindReportOverwrites | packages/network/src/hotspot-device.service.ts:119-125 | after every run, a report of a session that names no phone leaves its own counters as the usage, which is that of all sessions if and only if no other session of the voucher used anything |
| HotspotUsage.NamedReportIsExactIfBaselineIs | packages/network/src/hotspot-device.service.ts:119-130 | after every run, a report of a session that names its phone records the use of all sessions if and only if the phone's baseline is what the others used, as it always is when all of them named theirs |
| HotspotUsage.BlindSessionsLoseUsage | packages/network/src/hotspot-device.service.ts:119-125 | a run of two such sessions that used 150 bytes and recorded 50 |
| HotspotUsage.CapRowIsTheCap | packages/radius/src/voucher.service.ts:208-217 | in every reachable state the data-limit row of a voucher is its cap in bytes, while it has its rows |
| Wallets.MovementsReconcile | packages/billing/src/wallet.service.ts:17-88 | credits and debits keep the balance non-negative, equal to credits minus debits, and every ledger row's balance the prefix sum |
| MoneyDecisions.MovementDecides | packages/billing/src/wallet.service.ts:17-88 | a credit needs a positive amount, a debit one the balance covers; balance and ledger move by it |
| MoneyDecisions.PaymentDecides | packages/billing/src/payment.service.ts:57-96 | exactly which payments are replays, accepted or refused, said of the rows; all but accepted ones change nothing |
| MoneyDecisions.PaymentWrites | packages/billing/src/payment.service.ts:73-162 | the bill, payment and wallet rows of every accepted payment, with the part the bill takes and what is over |
| MoneyDecisions.TopUpDecides | packages/billing/src/payment.service.ts:203-239 | exactly which top-ups are accepted, and their rows |
| MoneyDecisions.RefundDecides | packages/billing/src/payment.service.ts:256-278 | exactly which refunds are accepted |
| MoneyDecisions.RefundWrites | packages/billing/src/payment.service.ts:256-298 | the rows of every accepted refund: the bill by what is left on it, the wallet by its share, nothing else |
| MoneyDecisions.VoidOrCancel | packages/billing/src/invoice.service.ts:148-156 | exactly which bills are voided or cancelled, by status alone |
| MoneyDecisions.OverdueExactly | packages/billing/src/billing-cycle.service.ts:92-98 | a bill is overdue after the sweep if and only if it was, or was pending or part-paid past its date |
| MoneyDecisions.OverdueCounted | packages/billing/src/billing-cycle.service.ts:92-98 | the number reported is that of the bills turned overdue |
| MoneyDecisions.SweepReconnectsExactly | packages/billing/src/billing-cycle.service.ts:135-156 | a service is on after the sweep if and only if it was, or was suspended outside a pause with no bill of its customer waiting |
| BillingService.Billing.CreditWallet | packages/billing/src/wallet.service.ts:17-48 | the balance and the ledger row of a credit, refused for no amount |
| BillingService.Billing.DebitWallet | packages/billing/src/wallet.service.ts:50-88 | the guarded decrement, refused below the balance |
| BillingService.Billing.RecordPayment | packages/billing/src/payment.service.ts:52-165 | the whole new store of a payment: replay, refusals, applied part, excess, reactivation |
| BillingService.Billing.TopUpWallet | packages/billing/src/payment.service.ts:203-239 | the whole new store of a top-up |
| BillingService.Billing.RefundPayment | packages/billing/src/payment.service.ts:256-298 | the whole new store of a refund, for wallet payments, top-ups and bills |
| BillingService.Billing.ReactivateSuspended | packages/billing/src/payment.service.ts:126-152 | every suspended service of the cleared customer and no other is switched on |
| BillingService.Billing.MarkOverdueInvoices | packages/billing/src/billing-cycle.service.ts:92-98 | exactly the unpaid bills past their date turn overdue, and are counted |
| BillingService.Billing.ReactivateClearedSubscriptions | packages/billing/src/billing-cycle.service.ts:135-156 | exactly the suspended services outside a pause whose customers owe nothing are switched on, and counted |
| BillingService.SwitchedOnCounted | packages/billing/src/billing-cycle.service.ts:135-156 | the number reported is that of the services switched on |
| BillingService.Billing.VoidInvoice | packages/billing/src/invoice.service.ts:148-156 | voiding looks at the status only |
| BillingService.Billing.CollectAgentPayment | packages/billing/src/agent.service.ts:111-145 | the loop over open bills and the wallet remainder, all or nothing |
| MoneyRuns.StepConserves | packages/billing/src/payment.service.ts:75-162 | in every reachable state a step moves what is held by exactly the cash and reward it moved, if and only if it is not an accepted wallet payment above what the bill needs |
| MoneyRuns.PayConserves | packages/billing/src/payment.service.ts:87-162 | the exact drift of that one payment, and none of any other |
| MoneyRuns.RefundNeverClamps | packages/billing/src/payment.service.ts:280-284 | the refund's floor at zero never cuts anything off |
| MoneyRuns.RefundConserves | packages/billing/src/payment.service.ts:256-298 | every refund gives back exactly what it takes off the books |
| MoneyRuns.StepKeepsInv | packages/billing/src/payment.service.ts:52-298 | every bill shows the sum of its completed payments, at most its total; open means underpaid and paid means in full; keys are distinct and wallets reconciled |
| MoneyRuns.RunKeepsTheBooks | packages/billing/src/payment.service.ts:52-298 | over every run all of this holds, and what is held is what was held plus money in minus money out |
| MoneyRuns.ReplayAnywhere | packages/billing/src/payment.service.ts:59-64 | a request replayed under a used key anywhere later in a run leaves the final state as it was |
| MoneyRuns.AcceptedUsesKey | packages/billing/src/payment.service.ts:98-111 | an accepted payment or top-up uses its key up |
| MoneyLimits.VoidHidesMoneyExactly | packages/billing/src/invoice.service.ts:150-155 | after every run, voiding a bill hides money paid on it if and only if it was part-paid and overdue or void already |
| MoneyLimits.VoidedPartPaidBill | packages/billing/src/billing-cycle.service.ts:92-98 | pay 40 of 100, miss the date, void, refund: a void bill holding 40, then a pending one |
| MoneyLimits.OverdrawExample | packages/billing/src/payment.service.ts:87-96 | a wallet payment of 150 on a bill of 100 creates 50 |
| MoneyLimits.CollectedTwice | packages/billing/src/agent.service.ts:118-143 | a bill of 100 collected with 100 and sent again: the second 100 lands in the wallet |
| AgentCash.PartsArePrefix | packages/billing/src/agent.service.ts:124-139 | cash pays a prefix of the bills in full, at most one in part, the rest not at all, and is used up unless all are cleared |
| AgentCash.PayBillsBooks | packages/billing/src/agent.service.ts:124-139 | for a fresh request the loop books exactly those parts and is never refused |
| AgentCash.CollectionSplits | packages/billing/src/agent.service.ts:118-143 | parts plus wallet credit equal the amount, no other bill is touched, and the wallet is credited only when every bill is cleared |
| AgentCash.CollectionRefusedExactly | packages/billing/src/agent.service.ts:111-145 | after every run a collection is refused if and only if it has no amount or no customer |
| AgentCash.UnchangedExactlyIfAbsorbed | packages/billing/src/agent.service.ts:118-143 | in any state a collection changes nothing if and only if used keys absorb all of it |
| AgentCash.ReplayedCollection | packages/billing/src/agent.service.ts:118-143 | sent again, with the open bills the second query returns, a collection changes nothing if and only if the first overran into the wallet or stopped in a bill still owing at least the amount |
| AgentStatement.ClosingIsTheBalance | packages/billing/src/agent.service.ts:169-206 | a month's closing balance is what the agent owed at its end |
| AgentStatement.NextOpensWhereThisCloses | packages/billing/src/agent.service.ts:184-206 | each statement opens where the one before closed, across the year's end |
| AgentStatement.StatementsChain | packages/billing/src/agent.service.ts:184-206 | over any number of consecutive statements every sale and hand-over counts exactly once |
| AgentStatement.MonthsFollow | packages/billing/src/agent.service.ts:185-186 | a statement's period is one whole calendar month, leap years and December included |
| AgentStatement.KindsAddUp | packages/billing/src/agent.service.ts:193-203 | voucher sales and collections add up to everything taken |
| Referrals.ReferralTable.GrantDueReferralRewards | packages/billing/src/referral.service.ts:83-130 | the loop claims each customer not yet claimed, and moves the referrer's earliest active plan or credits their wallet |
| Referrals.RewardsAreGiven | packages/billing/src/referral.service.ts:106-123 | over every interleaving each referrer's wallet and plans have gained exactly what their reward rows say |
| Referrals.RewardDecides | packages/billing/src/referral.service.ts:106-123 | days for a referrer with an active plan where days are given, on the plan that bills first, and credit otherwise |
| Referrals.PassRewardsTheUnclaimed | packages/billing/src/referral.service.ts:100-128 | an undisturbed pass rewards every unclaimed customer of its list once and nobody else |
| Referrals.RewardedAtMostOnce | packages/billing/src/referral.service.ts:80-82 | over every interleaving of passes and crashes a claimed customer is rewarded once, held by one pass, or lost |
| Referrals.UnrewardedAreTheLost | packages/billing/src/referral.service.ts:102-123 | no reward is given twice, and the claimed without one are exactly those whose pass died in between |
| Referrals.LostForGood | packages/billing/src/referral.service.ts:102-104 | a pass dies holding a claim, and a later pass does not reward it |
| PlanCalendar.RunIsExact | packages/billing/src/billing-cycle.service.ts:64-79 | over every run nextBillingAt is the start plus first cycle, billed cycles, current pause days and reward days |
| PlanCalendar.BilledExactlyWhenDue | packages/billing/src/billing-cycle.service.ts:56-89 | a plan is billed, for one cycle from its billing date, if and only if it is active, renews itself, has a cycle length and the date has come; any other event bills nothing |
| PlanCalendar.NewPlanIsBilledInTime | packages/billing/src/billing-cycle.service.ts:56-89 | over every run in order no bill of a new plan is made before its date |
| PlanCalendar.PauseDecides | packages/billing/src/pause.service.ts:37-65 | exactly which pauses are allowed, and the plan after an allowed, undone or refused one |
| PlanCalendar.PauseCounts | packages/billing/src/pause.service.ts:29-35 | a pause uses up the allowance by its days if and only if it began inside the window, whatever the others |
| PlanCalendar.ResumeDecides | packages/billing/src/pause.service.ts:67-90 | ending a pause closes the open row that began last at the whole days it took and gives the rest back |
| PlanCalendar.OtherEventsDecide | packages/billing/src/billing-cycle.service.ts:100-156 | the plan after free days, a suspension, a payment, the sweep or a cancellation |
| PlanCalendar.ResumeFindsItsPause | packages/billing/src/pause.service.ts:73-83 | the branch for a pause without a row is never taken, and no more days are given back than the pause has |
| PlanCalendar.GuardedRunBillsOnce | packages/billing/src/billing-cycle.service.ts:56-89 | due dates strictly increase through any pauses, early resumes and free days, while no renewal bills into a pause that can be given back by a cycle |
| PlanCalendar.SubscribedSafe | packages/billing/src/subscription.service.ts:78-93 | a new plan meets that condition |
| PlanCalendar.UnguardedRenewalBillsBack | packages/billing/src/pause.service.ts:67-90 | a renewal that breaks the condition can be followed by one for the same or an earlier date |
| PlanCalendar.BillsOnceExactlyIfGuarded | packages/billing/src/billing-cycle.service.ts:56-89 | a run meets that condition throughout if and only if no continuation of any part of it that meets it ever bills a period twice |
| PausedPlans.PaymentEndsNoPauseButSwitchesOn | packages/billing/src/payment.service.ts:126-152 | for every store and payment, a service inside its pause is on afterwards if and only if the payment is accepted, completes the bill and leaves the customer owing nothing; its pause stays |
| PausedPlans.PaymentReconnectsExactly | packages/billing/src/payment.service.ts:124-146 | for every store, payment and service: it is on after an accepted payment if and only if it was, or was suspended, paused or not, and its customer, who is the bill's, owes nothing afterwards; no field but its status changes |
| PausedPlans.PausedPlanSwitchedOnExactly | packages/billing/src/billing-cycle.service.ts:136-137 | in the middle of its pause a plan is switched on by a payment that leaves its customer owing nothing, by staff, or by a resume with nothing overdue, and by nothing else |
| PausedPlans.OverdueOrNot | packages/billing/src/pause.service.ts:45-50 | what a pause or resume counts is none if and only if no bill of the customer is overdue |
| PausedPlans.AccountRunIsPlanRun | packages/billing/src/payment.service.ts:134-144 | every plan of every run of money and calendar follows a calendar run, with payments as reactivations that ignore the pause |
| PausedPlans.AccountRunIsExact | packages/billing/src/billing-cycle.service.ts:64-79 | so its next bill falls exactly where its rows say, over every run of money and calendar |
| PausedPlans.AccountRunBillsOnce | packages/billing/src/billing-cycle.service.ts:56-89 | and no period of it is billed twice while that calendar run keeps the guard |
| PausedPlans.AccountAllowanceHolds | packages/billing/src/pause.service.ts:29-44 | and its pauses stay within the yearly allowance in every window that a customer's pause closes |
| PausedPlans.PausedPlanBilledBack | packages/billing/src/payment.service.ts:134-144 | a run in which a bill is paid during a pause: day 21 is billed, and day 17 after it |
| PlanCalendar.AllowanceHolds | packages/billing/src/pause.service.ts:29-44 | in every 365-day window whose last pause a customer asked for, the pause days are within the yearly allowance, through any early resumes |
| PlanCalendar.WindowCounts | packages/billing/src/pause.service.ts:29-35 | the days within a window are those of the pauses that begin in it, each once |
| PlanService.PlanTable.GenerateDueRenewalInvoices | packages/billing/src/billing-cycle.service.ts:56-89 | every due plan is billed for one cycle, a plan without a cycle length fails alone, and each kind is counted |
| PlanService.PassBillsExactlyTheDue | packages/billing/src/billing-cycle.service.ts:56-89 | in one pass every active self-renewing plan with a cycle length whose date has come gains exactly one bill, and every other plan stays as it is |
| PlanService.CountsAreExact | packages/billing/src/billing-cycle.service.ts:56-89 | the numbers reported are those of the plans billed, of the due ones without a cycle length, and of the pauses over |
| PlanService.PlanTable.PauseSubscription | packages/billing/src/pause.service.ts:37-65 | the plan after a pause, a refused one, or one undone because the network could not be switched off |
| PlanService.PlanTable.ResumeSubscription | packages/billing/src/pause.service.ts:67-90 | the plan after its pause ends early or on time |
| PlanService.PlanTable.ResumeDuePauses | packages/billing/src/pause.service.ts:93-108 | the sweep resumes exactly the pauses whose time is up, and counts them |
| AddOns.AddOnTable.Activate | packages/billing/src/addon.service.ts:141-158 | a paid purchase starts, extending the running one, and only the first caller starts it |
| AddOns.AddOnTable.ExpireAddOns | packages/billing/src/addon.service.ts:172-182 | exactly the active purchases past their end expire |
| AddOns.ActivationStarts | packages/billing/src/addon.service.ts:136-158 | a purchase that awaits payment starts once and ends its hours after all that runs; the running one that ended last is carried along, no other row changes |
| AddOns.OtherEventsDecide | packages/billing/src/addon.service.ts:172-200 | a sweep expires exactly the active purchases that have ended; only unpaid ones are cancelled |
| AddOns.CoveredByExtension | packages/billing/src/addon.service.ts:136-158 | an extension covers new time only, right behind what was covered |
| AddOns.CoveredTimeIsHoursBought | packages/billing/src/addon.service.ts:136-182 | over every run the time covered is exactly the hours bought |
| Tax.ExactIsTheGuess | packages/billing/src/money.ts:50-57 | a net amount with the quoted total can only be the first guess |
| Tax.NetIsExact | packages/billing/src/money.ts:43-57 | the result is the one net amount whose taxed total is the price, whenever there is one |
| Tax.OtherwiseLargestBelow | packages/billing/src/money.ts:43-57 | otherwise it is the largest net amount whose total is below the price |
| Tax.AddOnInvoiceTotal | packages/billing/src/invoice.service.ts:161-175 | the add-on invoice asks for the quoted price if and only if some net amount can |
| Base32.Base32Encode | packages/auth/src/totp.ts:12-26 | the loop over an accumulator that overflows 32 bits prints the padded base-32 numeral |
| Base32.Base32Decode | packages/auth/src/totp.ts:28-44 | the decoding loop reads the leading whole bytes of the numeral, or refuses |
| Base32.Alphabet | packages/auth/src/totp.ts:9-10 | the symbols and their values are those of table 3 of RFC 4648 |
| Base32.ShiftIn | packages/auth/src/totp.ts:17 | the signed, never-masked accumulator stays congruent to the true number modulo 2^32 |
| Base32.Window | packages/auth/src/totp.ts:20 | a window of bits read from it is the true one, overflow or not |
| Base32.RoundTrip | packages/auth/src/totp.ts:12-44 | decoding returns every byte string encoded, and the text is ceil(8n/5) long |
| Base32.TypedAnyhow | packages/auth/src/totp.ts:28-29 | white space, dashes, padding and case change nothing |
| Base32.CanonicalText | packages/auth/src/totp.ts:28-44 | text is the encoding of its bytes if and only if it is clean, with under five spare bits, all zero |
| SetupScript.PassesIsEscape | packages/radius/src/setup-script.ts:885 | the sequential replacement passes are one character-wise escape |
| SetupScript.UnescapeEscape | packages/radius/src/setup-script.ts:885-916 | one left-to-right unescape undoes them all |
| SetupScript.LiteralReadsBack | packages/radius/src/setup-script.ts:884-887 | RouterOS reads exactly the commands from the literal: nothing ends it early or is substituted |
| SetupScript.PlainOfDeferred | packages/radius/src/setup-script.ts:911-918 | what a deferred line is shown as, and exactly when the pattern misses it |
| SetupScript.DeferredReadsBack | packages/radius/src/setup-script.ts:884-919 | a deferred command is shown as the plain one if and only if it is a single line |
| SetupScript.IsolationIsInvisible | packages/radius/src/setup-script.ts:897-919 | for every script, isolating commands does not change its plain form |
| SetupScript.ExactlyVersionCommandsAreDeferred | packages/radius/src/setup-script.ts:884-908 | no isolated script has a native wrapped command that names a version or package menu; the lines changed are exactly those that did, each with a literal RouterOS reads back as that command |
| SetupScript.WrapIsIdempotent | packages/radius/src/setup-script.ts:925-930 | wrapping a script twice is wrapping it once |
| Csv.ToCsv | packages/shared/src/csv.ts:19-24 | the loop prints the byte order mark, the header and every row |
| Csv.CsvReadsBack | packages/shared/src/csv.ts:11-24 | a section 2 of RFC 4180 reader gets back header and rows, each field guarded, whatever they hold, if and only if there is a column |
| Csv.GuardedIsNoFormula | packages/shared/src/csv.ts:11-17 | an apostrophe is added if and only if the text starts a formula, and with it no cell does |
| Ipv4.CodecRoundTrip | packages/radius/src/cidr.ts:8-18 | every address printed is read back through the signed fold |
| Ipv4.AddressReads | packages/radius/src/cidr.ts:8-14 | text is an address if and only if it is four numbers of one to three digits up to 255 |
| Ipv4.BlockReads | packages/radius/src/cidr.ts:22-27 | an address, a slash and one or two digits are a block, and nothing else with one slash is |
| Ipv4.PrinterInjective | packages/radius/src/cidr.ts:16-18 | different addresses are printed differently |
| Ipv4.PlacedIsFolded | packages/radius/src/vlan-script.ts:31-37 | the VLAN planner's octet-by-octet reading gives the same number as the fold |
| Ipv4.BlockIsInterval | packages/radius/src/cidr.ts:34-36 | for every prefix the shifted size and masked network are 2^h and the address rounded down to it, h being the host bits modulo 32, with /0 apart |
| Ipv4.ExpandIpv4Cidr | packages/radius/src/cidr.ts:22-53 | the listing loop and every refusal |
| Ipv4.ExpandedIsInterval | packages/radius/src/cidr.ts:22-53 | exactly the hosts strictly between network and broadcast, ascending, for /20 to /30; one address for /31 and /32; refused beyond |
| Ipv4.ExpandedMembers | packages/radius/src/cidr.ts:22-53 | an address is listed if and only if it is a host of the block |
| Ipv4.AllocateNextVpnIp | packages/network/src/wireguard-peer.service.ts:38-57 | the smallest unused offset from 2 on, failure only when none is free, and a host of the subnet written if and only if its prefix is at most 32 |
| Ipv4.OffsetsAreHosts | packages/network/src/wireguard-peer.service.ts:38-57 | for every prefix an address handed out is a host of the block the host bits say, not the server's, and no other offset's; that is the block written if and only if the prefix is at most 32 |
| Ipv4.SlashThirtyThree | packages/network/src/wireguard-peer.service.ts:43-46 | the first address for "10.0.0.0/33" is 0.0.0.2 |
| NetworkText.AllocateRelayPort | packages/network/src/winbox-relay.service.ts:21-38 | a malformed range is refused; otherwise the lowest free port, and failure only when all are taken |
| NetworkText.RangeIsDigits | packages/network/src/winbox-relay.service.ts:21-29 | a typed range is accepted if and only if both numbers have two to five digits and ascend inside the port bounds |
| NetworkText.PortRangeReadsBack | packages/network/src/winbox-relay.service.ts:21-29 | a written range is read back if and only if it is an ascending range of ports from 1024 to 65535 |
| NetworkText.AllowListIsUnion | packages/network/src/winbox-relay.service.ts:69-89 | a typed allow-list is refused if and only if an entry that is not blank is no address or block; otherwise it accepts exactly the union of its blocks, and everything when all is blank |
| NetworkText.EntryReads | packages/network/src/winbox-relay.service.ts:75-81 | an entry without a slash is one address, one with a prefix from 0 to 32 a block, any other is refused |
| NetworkText.MappedIsTheSame | packages/network/src/winbox-relay.service.ts:87 | an address is judged the same as a dual-stack socket shows it |
| NetworkText.TypedVlanIsUsable | packages/radius/src/vlan-script.ts:31-67 | a typed subnet or gateway is refused exactly when it is unusable; otherwise the printed plan reads back as the subnet, the gateway, and a pool that is the larger whole side of the gateway, non-empty and inside the subnet |
| RouterTokens.RunKeepsInv | packages/network/src/router.service.ts:248-357 | over every run of issues, check-ins, removals and re-adds no token is held by two records |
| RouterTokens.LastTokenStaysAccepted | packages/network/src/router.service.ts:313-324 | the token a live router last checked in with is accepted by its own record, however many commands were issued since |
| RouterTokens.NewestTokenRetiresOlder | packages/network/src/router.service.ts:344-348 | the first check-in with the newest token retires the older one |
| RouterTokens.RetiredForGood | packages/network/src/router.service.ts:248-262 | a retired token is never accepted again in any run |
| RouterTokens.NewTokenIsAccepted | packages/network/src/router.service.ts:96-117 | a pending record is created if and only if no live one of the tenant has its name, a command issued if and only if the record is live; the new token is accepted, by that record |
| RouterTokens.AddedAndRemoved | packages/network/src/router.service.ts:56-81 | a record added by address holds no token, and removing one takes nothing but its life |
| RouterTokens.RunKeepsNames | packages/network/src/router.service.ts:57-60 | over every run a tenant's live records have different names |
| RouterTokens.ReaddedRouterIsAdopted | packages/network/src/router.service.ts:267-304 | a removed record's token moves if and only if exactly one live record of the tenant, never checked in, was created after the removal under its name or address: to that one, with the credentials the box has; otherwise every row stays as it is |
| RouterTokens.RouterTable.FindRouterByProvisionToken | packages/network/src/router.service.ts:248-262 | the live holder of the token, or an adoption |
| RouterTokens.RouterTable.AdoptReaddedRouter | packages/network/src/router.service.ts:267-304 | the rows after an adoption, or none for no single candidate |
| RouterTokens.RouterTable.IssueSetupCommand | packages/network/src/router.service.ts:313-324 | the token in use is kept as the previous one |
| RouterTokens.RouterTable.CompleteRouterProvisioning | packages/network/src/router.service.ts:326-357 | the record and tokens after a check-in |
| RouterTokens.RouterTable.DeleteRouter | packages/network/src/router.service.ts:585-597 | removal keeps the tokens on the record |
| JobQueue.JobTable.EnqueueProvisioningJob | packages/radius/src/provisioning.service.ts:146-211 | a queued job of the key is reused, any other reset, a new one created or failed at once |
| JobQueue.JobTable.RunProvisioningJob | packages/radius/src/provisioning.service.ts:221-266 | settled jobs are left alone; others end done, put back, or failed at the limit |
| JobQueue.JobTable.RetryProvisioningJob | packages/radius/src/provisioning.service.ts:475-488 | only failed and cancelled jobs go back in the queue, with their attempts cleared |
| JobQueue.JobTable.ListRunnableJobs | packages/radius/src/provisioning.service.ts:491-497 | exactly the oldest pending jobs up to the limit, in order |
| JobQueue.JobTable.RunPass | packages/radius/src/provisioning.service.ts:221-266 | a worker pass attempts exactly its batch |
| JobQueue.SyncTable.ApplySyncTask | packages/radius/src/sync.service.ts:32-104 | the row after one try, for every way it can end |
| JobQueue.RunKeepsInv | packages/radius/src/provisioning.service.ts:171-198 | over every interleaving no key has two rows and every pending job has attempts left |
| JobQueue.PassesSettle | packages/radius/src/provisioning.service.ts:446-453 | with no new work, as many passes as there are attempts left settle every job, whatever the devices answer |
| JobQueue.EveryJobEndsByItsTries | packages/radius/src/provisioning.service.ts:402-453 | over any passes a waiting job is done if and only if its last try succeeded, failed if and only if all its attempts are used up by failures, and waiting otherwise; nothing is tried after a success |
| JobQueue.EnqueueQueues | packages/radius/src/provisioning.service.ts:171-198 | the one row of the key after enqueueing: new, reused, or waiting again with all its attempts |
| JobQueue.RetryRequeues | packages/radius/src/provisioning.service.ts:475-488 | exactly failed and cancelled jobs wait again, with all their attempts |
| JobQueue.AtMostFiveRuns | packages/radius/src/provisioning.service.ts:446-453 | no job is attempted more than five times over any passes |
| JobQueue.NoJobStarves | packages/radius/src/provisioning.service.ts:491-497 | a pending job runs within one pass per full batch of attempts left ahead of it |
| JobQueue.SyncPassUsesAttempts | packages/radius/src/sync.service.ts:107-113 | a page of sync tasks in any order uses attempts up |
| JobQueue.SyncPassesSettle | packages/radius/src/sync.service.ts:107-113 | with no new tasks, as many visits as there are attempts left settle every task, whichever pages the query returns |
| JobQueue.EveryTaskEndsByItsTries | packages/radius/src/sync.service.ts:32-104 | whatever pages are visited, a pending task is done if and only if its last try succeeded, failed if and only if that one was hopeless or the attempts are used up, and nothing is tried after either |

## Left out

- HotspotUsage.UsageIsEverySession: for one-device vouchers on a network that ends a phone's old session before its next login and spells a MAC the way the platform stores it, where a session names its phone in all its packets or in none; for a voucher with a session that names none, HotspotUsage.BlindReportOverwrites and HotspotUsage.NamedReportIsExactIfBaselineIs say report by report when the usage is exact. Packets that arrive after the next login are not part of it.
- HotspotUsage.ReturningPhoneIsGrantedTheRest: the device limit reads the session rows of this model, where the source reads accounting rows that appear with the first Accounting packet.
- PlanCalendar.GuardedRunBillsOnce: needs every renewal to pass the guard, since without it the claim is false; PlanCalendar.BillsOnceExactlyIfGuarded is the exact statement.
- PausedPlans.PausedPlanBilledBack: the network switch-off of a pause, and the price of a renewal's bill, are inputs.
- Tenants and permissions: every table is one tenant's; reads across tenants are left out.
- Learning phones from a router's active list, multi-device vouchers, and deleting vouchers.
- Receipts, invoice and receipt numbers and their collisions, currencies, notifications, audit rows.
- The agent's sale row, written again when a collection is replayed, and voucher sales by agents.
- Finding who is due a referral reward, and setting a referrer.
- M-Pesa, Paystack and gateway callbacks, and routes that write the modelled fields directly.
- Jobs left PROCESSING by a worker that died: nothing in the source picks them up again.
- The device calls, plans and logs behind a provisioning job; each attempt only succeeds or fails.
- Suspension for overdue bills beyond its effect on a plan's status, proration and plan changes.
- The gap between two clock readings inside one transaction: a step sees one instant.
- VPN peers and RADIUS registrations moved along when a router is adopted or checks in.
- Text as UTF-16 or UTF-8: strings are characters, byte values are given as bytes. Upper-casing is that of ASCII letters; reply rows hold numbers where their text would be parsed, and any text that is no positive number counts as zero.
- What JavaScript's Number makes of a prefix length in a VLAN subnet or an allow-list: a parameter of the model.
- The text of the setup scripts beyond the escaping functions.
- How numbers, dates and booleans print in a CSV cell: a cell's value is its text.
- Floating-point rounding beyond 2^53 in byte counts and money.
