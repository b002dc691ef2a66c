/** The usage protocol of vouchers and returning phones, over whole runs: although every session's
    counters restart at zero and a voucher's usage is overwritten by each report, the usage recorded
    is the sum of what every session used, as long as the sessions name their phone. The runs are
    those of one-device vouchers on a network that reports what it does: an accepted login starts a
    session and ends the phone's previous one, counters only grow while a session is open, and a
    session names its phone in all its packets or in none. */
module HotspotUsage {
  import opened Bytes
  import opened HotspotDevices
  import opened MacAddress
  import opened Optional
  import R = ReplyAttributes

  datatype World = World(store: Store, sessions: seq<Session>)

  datatype Event =
    | AccessRequest(username: string, password: string, calling: Option<string>, now: int)
    | Accounting(k: nat, bytesIn: nat, bytesOut: nat, stop: bool)
    | Sweep(page: set<string>, now: int)
    | Issue(code: string, capMb: nat, minutes: nat, lists: seq<seq<byte>>, rate: Option<seq<byte>>)

  predicate Canonical(mac: string) {
    NormalizeMac(mac) == Some(mac)
  }

  /** A station that names a phone spells it the way the platform stores it. */
  predicate WellSpelled(calling: Option<string>) {
    NormalizeSome(calling).Some? ==> calling == NormalizeSome(calling)
  }

  /** What the network and the code generator guarantee. */
  predicate Legal(w: World, e: Event) {
    match e
    case AccessRequest(username, password, calling, now) =>
      WellSpelled(calling) && (NormalizeMac(username).Some? ==> Canonical(username))
    case Accounting(k, bytesIn, bytesOut, stop) =>
      k < |w.sessions| && w.sessions[k].open && w.sessions[k].bytesIn <= bytesIn && w.sessions[k].bytesOut <= bytesOut
    case Sweep(page, now) => true
    case Issue(code, capMb, minutes, lists, rate) => code !in w.store.vouchers && |code| == 8
  }

  /** A session whose packets name no phone. */
  predicate Blind(s: Session) {
    NormalizeSome(s.calling).None?
  }

  /** The phone's earlier session is over. */
  function Closed(sessions: seq<Session>, calling: Option<string>): (r: seq<Session>)
    ensures |r| == |sessions|
  {
    seq(|sessions|, k requires 0 <= k < |sessions| =>
      if NormalizeSome(calling).Some? && sessions[k].calling == calling then sessions[k].(open := false) else sessions[k])
  }

  function Connected(sessions: seq<Session>, username: string, calling: Option<string>, verdict: Verdict): seq<Session> {
    match verdict
    case Rejected => sessions
    case Accepted(code, login) => Closed(sessions, calling) + [Session(username, calling, code, true, 0, 0)]
  }

  function ReportedUsage(w: World, k: nat, bytesIn: nat, bytesOut: nat): Usage
    requires k < |w.sessions|
  {
    SessionUsage(w.store, w.sessions[k].username, w.sessions[k].calling, bytesIn, bytesOut)
  }

  function Next(w: World, e: Event): World
    requires Legal(w, e)
  {
    match e
    case AccessRequest(username, password, calling, now) =>
      var (store, verdict) := AccessRequested(w.store, w.sessions, username, password, calling, now);
      World(store, Connected(w.sessions, username, calling, verdict))
    case Accounting(k, bytesIn, bytesOut, stop) =>
      World(Recorded(w.store, ReportedUsage(w, k, bytesIn, bytesOut)),
            w.sessions[k := w.sessions[k].(bytesIn := bytesIn, bytesOut := bytesOut, open := !stop)])
    case Sweep(page, now) => w.(store := AllExpired(w.store, page, now))
    case Issue(code, capMb, minutes, lists, rate) => w.(store := Issued(w.store, code, capMb, minutes, lists, rate))
  }

  ghost predicate LegalRun(w: World, events: seq<Event>)
    decreases |events|
  {
    |events| == 0 || (Legal(w, events[0]) && LegalRun(Next(w, events[0]), events[1..]))
  }

  function Ran(w: World, events: seq<Event>): World
    requires LegalRun(w, events)
    decreases |events|
  {
    if |events| == 0 then w else Ran(Next(w, events[0]), events[1..])
  }

  // ---------------------------------------------------------------------------------------
  // Usage, up and down alike
  // ---------------------------------------------------------------------------------------

  function Counter(s: Session, up: bool): nat {
    if up then s.bytesIn else s.bytesOut
  }

  function Used(v: Voucher, up: bool): nat {
    if up then v.bytesIn else v.bytesOut
  }

  function Baseline(d: Device, up: bool): nat {
    if up then d.baselineIn else d.baselineOut
  }

  /** The last counters of every session there has been on a voucher. */
  function SessionTotal(sessions: seq<Session>, code: string, up: bool): nat {
    if |sessions| == 0 then 0
    else
      var s := sessions[|sessions| - 1];
      SessionTotal(sessions[..|sessions| - 1], code, up) + if s.code == code then Counter(s, up) else 0
  }

  /** Every session of the voucher named its phone. */
  ghost predicate AllNamed(sessions: seq<Session>, code: string) {
    forall k: nat :: k < |sessions| && sessions[k].code == code ==> !Blind(sessions[k])
  }

  /** An open session runs under its code or its phone. The phone is on record with the voucher, and
      while all the voucher's sessions are named its baseline is the usage of all the others. */
  ghost predicate OpenSession(st: Store, s: Session, named: bool) {
    && s.code in st.vouchers
    && (s.username == s.code || (!Blind(s) && Some(s.username) == s.calling))
    && (!Blind(s) && s.calling.Some? ==>
          && s.calling.value in st.devices && st.devices[s.calling.value].voucherCode == s.code
          && (named ==> forall up :: Baseline(st.devices[s.calling.value], up) + Counter(s, up) == Used(st.vouchers[s.code], up)))
  }

  /** The reply rows are those the voucher was created with, or gone with its password. */
  ghost predicate RowsOf(v: Voucher) {
    if v.hasPassword
    then exists lists: seq<seq<byte>>, rate: Option<seq<byte>> :: v.replies == NewReplies(v.capMb, v.minutes, lists, rate)
    else v.replies == []
  }

  ghost predicate GoodVoucher(code: string, v: Voucher) {
    && |code| == 8
    && RowsOf(v)
    && (v.status != UNUSED ==> v.activatedAt.Some? && v.expiresAt == ExpiryOf(v, v.activatedAt.value))
  }

  ghost predicate Inv(w: World) {
    && (forall code :: code in w.store.vouchers ==> GoodVoucher(code, w.store.vouchers[code]))
    && (forall code, up :: code in w.store.vouchers && AllNamed(w.sessions, code) ==>
          Used(w.store.vouchers[code], up) == SessionTotal(w.sessions, code, up))
    && (forall mac :: mac in w.store.devices ==> Canonical(mac) && w.store.devices[mac].voucherCode in w.store.vouchers)
    && (forall k: nat :: k < |w.sessions| ==> w.sessions[k].code in w.store.vouchers && WellSpelled(w.sessions[k].calling))
    && (forall k: nat :: k < |w.sessions| && w.sessions[k].open ==>
          OpenSession(w.store, w.sessions[k], AllNamed(w.sessions, w.sessions[k].code)))
    && Alone(w.sessions)
  }

  /** No two open sessions that name their phones share a voucher or a phone. */
  ghost predicate Alone(sessions: seq<Session>) {
    forall j: nat, k: nat :: j < k < |sessions| && sessions[j].open && sessions[k].open && !Blind(sessions[j]) && !Blind(sessions[k]) ==>
      sessions[j].code != sessions[k].code && sessions[j].calling != sessions[k].calling
  }

  // ---------------------------------------------------------------------------------------
  // Sums
  // ---------------------------------------------------------------------------------------

  lemma {:induction false} ClosingKeepsTotals(sessions: seq<Session>, calling: Option<string>, code: string, up: bool)
    ensures SessionTotal(Closed(sessions, calling), code, up) == SessionTotal(sessions, code, up)
    decreases |sessions|
  {
    if |sessions| > 0 {
      var n := |sessions| - 1;
      ClosingKeepsTotals(sessions[..n], calling, code, up);
      assert Closed(sessions, calling)[..n] == Closed(sessions[..n], calling);
    }
  }

  lemma NewSessionAddsNothing(sessions: seq<Session>, s: Session, code: string, up: bool)
    requires s.bytesIn == 0 && s.bytesOut == 0
    ensures SessionTotal(sessions + [s], code, up) == SessionTotal(sessions, code, up)
  {
    assert (sessions + [s])[..|sessions|] == sessions;
  }

  lemma {:induction false} UpdateMovesTotal(sessions: seq<Session>, k: nat, s: Session, code: string, up: bool)
    requires k < |sessions| && s.code == sessions[k].code
    ensures SessionTotal(sessions[k := s], code, up)
         == SessionTotal(sessions, code, up) + if s.code == code then Counter(s, up) - Counter(sessions[k], up) else 0
    decreases |sessions|
  {
    var n := |sessions| - 1;
    if k == n {
      assert sessions[k := s][..n] == sessions[..n];
    } else {
      UpdateMovesTotal(sessions[..n], k, s, code, up);
      assert sessions[k := s][..n] == sessions[..n][k := s];
    }
  }

  lemma {:induction false} UnknownVoucherUnused(sessions: seq<Session>, code: string, up: bool)
    requires forall k: nat :: k < |sessions| ==> sessions[k].code != code
    ensures SessionTotal(sessions, code, up) == 0
    decreases |sessions|
  {
    if |sessions| > 0 {
      UnknownVoucherUnused(sessions[..|sessions| - 1], code, up);
    }
  }

  // ---------------------------------------------------------------------------------------
  // Steps that touch no usage
  // ---------------------------------------------------------------------------------------

  ghost predicate SameUsage(a: Store, b: Store) {
    && a.devices == b.devices && a.vouchers.Keys == b.vouchers.Keys
    && (forall code, up :: code in a.vouchers ==> Used(a.vouchers[code], up) == Used(b.vouchers[code], up))
    && (forall code :: code in a.vouchers && GoodVoucher(code, a.vouchers[code]) ==> GoodVoucher(code, b.vouchers[code]))
  }

  lemma SameUsageKeepsInv(a: Store, b: Store, sessions: seq<Session>)
    requires Inv(World(a, sessions)) && SameUsage(a, b)
    ensures Inv(World(b, sessions))
  {
    hide SessionTotal, GoodVoucher, Used, Baseline, Counter, Canonical, AllNamed, WellSpelled, Blind;
    forall k: nat | k < |sessions| && sessions[k].open
      ensures OpenSession(b, sessions[k], AllNamed(sessions, sessions[k].code))
    {
      assert OpenSession(a, sessions[k], AllNamed(sessions, sessions[k].code));
    }
  }

  lemma SweepTouchesNoUsage(st: Store, page: set<string>, now: int)
    ensures SameUsage(st, AllExpired(st, page, now))
  {
    var st' := AllExpired(st, page, now);
    forall code | code in st.vouchers && GoodVoucher(code, st.vouchers[code])
      ensures GoodVoucher(code, st'.vouchers[code])
    {
      RevokedIsGood(code, st.vouchers[code]);
    }
  }

  lemma RevokedIsGood(code: string, v: Voucher)
    requires GoodVoucher(code, v)
    ensures v.status == ACTIVE ==> GoodVoucher(code, Revoked(v))
  {
  }

  lemma ActivationTouchesNoUsage(st: Store, code: string, now: int)
    ensures SameUsage(st, Activated(st, code, now))
  {
    if code in st.vouchers && GoodVoucher(code, st.vouchers[code]) {
      ActivatedIsGood(st, code, now);
    }
  }

  lemma ActivatedIsGood(st: Store, code: string, now: int)
    requires code in st.vouchers && GoodVoucher(code, st.vouchers[code])
    ensures GoodVoucher(code, Activated(st, code, now).vouchers[code])
  {
    var v, v' := st.vouchers[code], Activated(st, code, now).vouchers[code];
    assert v'.replies == v.replies && v'.hasPassword == v.hasPassword && v'.capMb == v.capMb && v'.minutes == v.minutes;
    RowsStay(v, v');
    hide RowsOf;
  }

  lemma RowsStay(v: Voucher, v': Voucher)
    requires RowsOf(v) && v'.replies == v.replies && v'.hasPassword == v.hasPassword && v'.capMb == v.capMb && v'.minutes == v.minutes
    ensures RowsOf(v')
  {
  }

  // ---------------------------------------------------------------------------------------
  // Logins
  // ---------------------------------------------------------------------------------------

  /** The names a voucher's sessions may run under are those its open sessions do run under, and no
      others. Whether the device limit counts such a session is another matter: see
      OneDeviceUnlessUnseen. */
  lemma NamesFindTheSessions(w: World, k: nat, code: string)
    requires Inv(w) && k < |w.sessions| && w.sessions[k].open && |code| == 8
    ensures NamedFor(w.store, code, w.sessions[k].username) <==> w.sessions[k].code == code
  {
    hide SessionTotal, AllNamed, RowsOf, Used, Baseline, Counter, Alone;
    var s := w.sessions[k];
    assert OpenSession(w.store, s, AllNamed(w.sessions, s.code)) && GoodVoucher(s.code, w.store.vouchers[s.code]);
    ShortIsNoMac(s.code);
    ShortIsNoMac(code);
  }

  /** An open session of the voucher that names another station than the one asking, or any at all when
      none is named. */
  ghost predicate OtherDevice(sessions: seq<Session>, k: nat, code: string, asking: Option<string>) {
    && k < |sessions| && sessions[k].open && sessions[k].code == code
    && (asking == None || (sessions[k].calling != None && sessions[k].calling != asking))
  }

  /** The device limit refuses a login exactly when an open session of the voucher counts against it. */
  lemma BusyIsAnotherDevice(w: World, code: string, calling: Option<string>)
    requires Inv(w) && |code| == 8
    ensures Busy(w.store, w.sessions, code, calling)
       <==> exists k: nat :: OtherDevice(w.sessions, k, code, calling)
  {
    hide Inv, NamedFor, CountsAgainst, OtherDevice;
    forall k: nat
      ensures OtherDevice(w.sessions, k, code, calling)
        <==> k < |w.sessions| && w.sessions[k].open && NamedFor(w.store, code, w.sessions[k].username)
             && CountsAgainst(w.sessions[k].calling, calling)
    {
      if k < |w.sessions| && w.sessions[k].open {
        NamesFindTheSessions(w, k, code);
      }
      OtherDeviceMeans(w.sessions, k, code, calling);
    }
  }

  lemma OtherDeviceMeans(sessions: seq<Session>, k: nat, code: string, asking: Option<string>)
    ensures OtherDevice(sessions, k, code, asking)
       <==> k < |sessions| && sessions[k].open && sessions[k].code == code && CountsAgainst(sessions[k].calling, asking)
  {
  }

  lemma CodesAreShort(w: World, code: string)
    requires Inv(w) && code in w.store.vouchers
    ensures |code| == 8
  {
  }

  lemma AllNamedBefore(sessions: seq<Session>, calling: Option<string>, started: Session, code: string)
    requires AllNamed(Closed(sessions, calling) + [started], code)
    ensures AllNamed(sessions, code) && (started.code == code ==> !Blind(started))
  {
    var sessions' := Closed(sessions, calling) + [started];
    assert sessions'[|sessions|] == started;
    forall k: nat | k < |sessions| && sessions[k].code == code
      ensures !Blind(sessions[k])
    {
      assert sessions'[k].code == code && sessions'[k].calling == sessions[k].calling;
    }
  }

  /** The phone's baseline becomes the usage of every session before the one that starts now. */
  lemma LoginKeepsInv(w: World, username: string, calling: Option<string>, code: string, login: Option<MacLogin>)
    requires Inv(w) && WellSpelled(calling) && code in w.store.vouchers
    requires username == code || (NormalizeSome(calling).Some? && Some(username) == calling)
    requires !Busy(w.store, w.sessions, code, calling)
    ensures Inv(World(Remembered(w.store, calling, code), Connected(w.sessions, username, calling, Accepted(code, login))))
  {
    hide SessionTotal, GoodVoucher, Busy, AllNamed, Used, Alone, OpenSession, Remembered, Canonical, WellSpelled, Closed;
    assert |code| == 8 by { CodesAreShort(w, code); }
    BusyIsAnotherDevice(w, code, calling);
    var st' := Remembered(w.store, calling, code);
    var started := Session(username, calling, code, true, 0, 0);
    var sessions' := Closed(w.sessions, calling) + [started];
    LoginDevices(w, calling, code);
    forall c, up | c in st'.vouchers && AllNamed(sessions', c)
      ensures Used(st'.vouchers[c], up) == SessionTotal(sessions', c, up)
    {
      AllNamedBefore(w.sessions, calling, started, c);
      ClosingKeepsTotals(w.sessions, calling, c, up);
      NewSessionAddsNothing(Closed(w.sessions, calling), started, c, up);
    }
    forall k: nat | k < |sessions'|
      ensures sessions'[k].code in st'.vouchers && WellSpelled(sessions'[k].calling)
      ensures sessions'[k].open ==> OpenSession(st', sessions'[k], AllNamed(sessions', sessions'[k].code))
    {
      if k < |w.sessions| {
        ClosedAt(w.sessions, calling, k);
        if sessions'[k].open {
          OthersStayOpen(w, calling, code, started, k);
        }
      } else {
        StartedIsOpen(w.store, started, AllNamed(sessions', code));
      }
    }
    LoginAlone(w.sessions, started);
  }

  lemma ClosedAt(sessions: seq<Session>, calling: Option<string>, k: nat)
    requires k < |sessions|
    ensures Closed(sessions, calling)[k] == sessions[k] || Closed(sessions, calling)[k] == sessions[k].(open := false)
  {
  }

  lemma LoginDevices(w: World, calling: Option<string>, code: string)
    requires Inv(w) && WellSpelled(calling) && code in w.store.vouchers
    ensures var st' := Remembered(w.store, calling, code);
      && st'.vouchers == w.store.vouchers
      && forall mac :: mac in st'.devices ==> Canonical(mac) && st'.devices[mac].voucherCode in st'.vouchers
  {
    hide SessionTotal, GoodVoucher, AllNamed, Used, Alone, OpenSession;
  }

  lemma OthersStayOpen(w: World, calling: Option<string>, code: string, started: Session, k: nat)
    requires Inv(w) && WellSpelled(calling) && k < |w.sessions| && code in w.store.vouchers && started.calling == calling
    requires (Closed(w.sessions, calling) + [started])[k].open
    ensures var sessions' := Closed(w.sessions, calling) + [started];
      OpenSession(Remembered(w.store, calling, code), sessions'[k], AllNamed(sessions', sessions'[k].code))
  {
    hide SessionTotal, GoodVoucher, AllNamed, Used, Baseline, Counter, Alone;
    var sessions' := Closed(w.sessions, calling) + [started];
    var s := w.sessions[k];
    assert sessions'[k] == s;
    assert OpenSession(w.store, s, AllNamed(w.sessions, s.code));
    if AllNamed(sessions', s.code) {
      AllNamedBefore(w.sessions, calling, started, s.code);
    }
  }

  lemma StartedIsOpen(st: Store, started: Session, named: bool)
    requires started.bytesIn == 0 && started.bytesOut == 0 && WellSpelled(started.calling) && started.code in st.vouchers
    requires started.username == started.code || (NormalizeSome(started.calling).Some? && Some(started.username) == started.calling)
    ensures OpenSession(Remembered(st, started.calling, started.code), started, named)
  {
  }

  lemma LoginAlone(sessions: seq<Session>, started: Session)
    requires Alone(sessions) && WellSpelled(started.calling)
    requires !exists k: nat :: OtherDevice(sessions, k, started.code, started.calling)
    ensures Alone(Closed(sessions, started.calling) + [started])
  {
    var sessions' := Closed(sessions, started.calling) + [started];
    forall j: nat, k: nat | j < k < |sessions'| && sessions'[j].open && sessions'[k].open && !Blind(sessions'[j]) && !Blind(sessions'[k])
      ensures sessions'[j].code != sessions'[k].code && sessions'[j].calling != sessions'[k].calling
    {
      assert sessions'[j] == sessions[j];
      if k == |sessions| {
        assert sessions'[k] == started && !OtherDevice(sessions, j, started.code, started.calling);
      } else {
        assert sessions'[k] == sessions[k];
      }
    }
  }

  /** Returning by MAC moves the same baseline a login by code does. */
  lemma ReturnIsRemembering(st: Store, calling: string, now: int)
    requires Canonical(calling) && CheckMacLogin(st, calling, now).Some?
    ensures var code := CheckMacLogin(st, calling, now).value.voucherCode;
      && code in st.vouchers && calling in st.devices && st.devices[calling].voucherCode == code
      && MacLoggedIn(st, calling, now) == Remembered(st, Some(calling), code)
  {
  }

  /** A returning phone that is turned away because another device is connected has no session whose
      baseline could be disturbed. */
  lemma TurnedAwayKeepsInv(w: World, calling: string, code: string)
    requires Inv(w) && Canonical(calling) && calling in w.store.devices && w.store.devices[calling].voucherCode == code
    requires code in w.store.vouchers && Busy(w.store, w.sessions, code, Some(calling))
    ensures Inv(World(Remembered(w.store, Some(calling), code), w.sessions))
  {
    hide SessionTotal, GoodVoucher, Used, AllNamed, Busy, OpenSession;
    var st' := Remembered(w.store, Some(calling), code);
    forall k: nat | k < |w.sessions| && w.sessions[k].open
      ensures OpenSession(st', w.sessions[k], AllNamed(w.sessions, w.sessions[k].code))
    {
      TurnedAwayLeavesOpen(w, calling, code, k);
    }
  }

  lemma TurnedAwayLeavesOpen(w: World, calling: string, code: string, k: nat)
    requires Inv(w) && Canonical(calling) && calling in w.store.devices && w.store.devices[calling].voucherCode == code
    requires code in w.store.vouchers && Busy(w.store, w.sessions, code, Some(calling))
    requires k < |w.sessions| && w.sessions[k].open
    ensures OpenSession(Remembered(w.store, Some(calling), code), w.sessions[k], AllNamed(w.sessions, w.sessions[k].code))
  {
    OpenIsGood(w, k);
    if AllNamed(w.sessions, code) {
      NoSessionOfItsOwn(w, calling, code, k);
    }
    hide Inv, AllNamed, Busy, Counter, Used;
  }

  lemma NoSessionOfItsOwn(w: World, calling: string, code: string, k: nat)
    requires Inv(w) && calling in w.store.devices && w.store.devices[calling].voucherCode == code
    requires code in w.store.vouchers && Busy(w.store, w.sessions, code, Some(calling)) && AllNamed(w.sessions, code)
    requires k < |w.sessions| && w.sessions[k].open
    ensures w.sessions[k].calling != Some(calling)
  {
    hide SessionTotal, GoodVoucher, Busy, Used, Counter, Baseline;
    assert |code| == 8 by { CodesAreShort(w, code); }
    BusyIsAnotherDevice(w, code, Some(calling));
    var other: nat :| OtherDevice(w.sessions, other, code, Some(calling));
    assert OpenSession(w.store, w.sessions[k], AllNamed(w.sessions, w.sessions[k].code));
    assert calling in w.store.devices && Canonical(calling);
    assert k < other || k == other || other < k;
  }

  lemma BusyIgnoresBaselines(st: Store, st': Store, sessions: seq<Session>, code: string, calling: Option<string>)
    requires st.devices.Keys == st'.devices.Keys
    requires forall m :: m in st.devices ==> st.devices[m].voucherCode == st'.devices[m].voucherCode
    ensures Busy(st, sessions, code, calling) <==> Busy(st', sessions, code, calling)
  {
    forall k: nat | k < |sessions|
      ensures NamedFor(st, code, sessions[k].username) <==> NamedFor(st', code, sessions[k].username)
    {
    }
  }

  lemma AccessKeepsInv(w: World, username: string, password: string, calling: Option<string>, now: int)
    requires Inv(w) && Legal(w, AccessRequest(username, password, calling, now))
    ensures Inv(Next(w, AccessRequest(username, password, calling, now)))
  {
    hide Inv, Remembered, Busy, CheckMacLogin, MacLoggedIn, Activated, NormalizeMac;
    var (store, verdict) := AccessRequested(w.store, w.sessions, username, password, calling, now);
    if PasswordMatches(w.store, username, password) {
      var active := Activated(w.store, username, now);
      ActivationTouchesNoUsage(w.store, username, now);
      SameUsageKeepsInv(w.store, active, w.sessions);
      if !Busy(active, w.sessions, username, calling) {
        LoginKeepsInv(World(active, w.sessions), username, calling, username, None);
      }
    } else if NormalizeMac(username).Some? && NormalizeMac(username) == NormalizeSome(calling) {
      assert Some(username) == calling;
      ReturnKeepsInv(w, username, now);
    }
  }

  lemma ReturnKeepsInv(w: World, calling: string, now: int)
    requires Inv(w) && Canonical(calling)
    ensures var check, moved := CheckMacLogin(w.store, calling, now), MacLoggedIn(w.store, calling, now);
      if check.None? then moved == w.store
      else
        && check.value.voucherCode in w.store.vouchers
        && Busy(moved, w.sessions, check.value.voucherCode, Some(calling)) == Busy(w.store, w.sessions, check.value.voucherCode, Some(calling))
        && if Busy(moved, w.sessions, check.value.voucherCode, Some(calling)) then Inv(World(moved, w.sessions))
           else Inv(World(moved, Connected(w.sessions, calling, Some(calling), Accepted(check.value.voucherCode, check))))
  {
    hide Inv, Busy, CheckMacLogin, Connected;
    var check, moved := CheckMacLogin(w.store, calling, now), MacLoggedIn(w.store, calling, now);
    if check.Some? {
      var code := check.value.voucherCode;
      ReturnIsRemembering(w.store, calling, now);
      BusyIgnoresBaselines(w.store, moved, w.sessions, code, Some(calling));
      if Busy(w.store, w.sessions, code, Some(calling)) {
        TurnedAwayKeepsInv(w, calling, code);
      } else {
        LoginKeepsInv(w, calling, Some(calling), code, check);
      }
    }
  }

  // ---------------------------------------------------------------------------------------
  // Reports
  // ---------------------------------------------------------------------------------------

  /** A report is charged to the session's own voucher: on top of the baseline when the session names
      its phone, and on top of nothing when it does not. */
  lemma ReportIsCharged(w: World, k: nat, bytesIn: nat, bytesOut: nat)
    requires Inv(w) && k < |w.sessions| && w.sessions[k].open
    ensures var s := w.sessions[k];
      && s.code in w.store.vouchers
      && (Blind(s) ==> ReportedUsage(w, k, bytesIn, bytesOut) == Usage(s.code, bytesIn, bytesOut))
      && (!Blind(s) ==>
            && s.calling.Some? && s.calling.value in w.store.devices
            && var d := w.store.devices[s.calling.value];
            ReportedUsage(w, k, bytesIn, bytesOut) == Usage(s.code, d.baselineIn + bytesIn, d.baselineOut + bytesOut))
  {
    hide SessionTotal, GoodVoucher, AllNamed, Used, Baseline, Counter, Alone;
    var s := w.sessions[k];
    assert OpenSession(w.store, s, AllNamed(w.sessions, s.code));
    CodesAreShort(w, s.code);
    ShortIsNoMac(s.code);
  }

  lemma AccountingKeepsInv(w: World, k: nat, bytesIn: nat, bytesOut: nat, stop: bool)
    requires Inv(w) && Legal(w, Accounting(k, bytesIn, bytesOut, stop))
    ensures Inv(Next(w, Accounting(k, bytesIn, bytesOut, stop)))
  {
    hide SessionTotal, ReportedUsage, GoodVoucher, Canonical, Used, Baseline, Counter, OpenSession, AllNamed;
    var s := w.sessions[k];
    ReportIsCharged(w, k, bytesIn, bytesOut);
    KnownGood(w, s.code);
    var w' := Next(w, Accounting(k, bytesIn, bytesOut, stop));
    ReportGood(w.store.vouchers[s.code], w'.store.vouchers[s.code], s.code);
    forall c, up | c in w'.store.vouchers && AllNamed(w'.sessions, c)
      ensures Used(w'.store.vouchers[c], up) == SessionTotal(w'.sessions, c, up)
    {
      NamedStays(w.sessions, k, w'.sessions[k], c);
      ReportAddsUp(w, k, bytesIn, bytesOut, stop, c, up);
    }
    forall j: nat | j < |w'.sessions| && w'.sessions[j].open
      ensures OpenSession(w'.store, w'.sessions[j], AllNamed(w'.sessions, w'.sessions[j].code))
    {
      ReportLeavesOpen(w, k, bytesIn, bytesOut, stop, j);
    }
    AloneStays(w.sessions, k, w'.sessions[k]);
  }

  lemma AloneStays(sessions: seq<Session>, k: nat, s: Session)
    requires Alone(sessions) && k < |sessions| && sessions[k].open
    requires s.code == sessions[k].code && s.calling == sessions[k].calling
    ensures Alone(sessions[k := s])
  {
  }

  lemma ReportGood(before: Voucher, after: Voucher, code: string)
    requires GoodVoucher(code, before) && after == before.(bytesIn := after.bytesIn, bytesOut := after.bytesOut)
    ensures GoodVoucher(code, after)
  {
    RowsStay(before, after);
    hide RowsOf;
  }

  lemma NamedStays(sessions: seq<Session>, k: nat, s: Session, code: string)
    requires k < |sessions| && s.code == sessions[k].code && s.calling == sessions[k].calling
    ensures AllNamed(sessions[k := s], code) <==> AllNamed(sessions, code)
  {
    var sessions' := sessions[k := s];
    assert forall j: nat :: j < |sessions| ==> sessions'[j].code == sessions[j].code && sessions'[j].calling == sessions[j].calling;
  }

  lemma ReportAddsUp(w: World, k: nat, bytesIn: nat, bytesOut: nat, stop: bool, code: string, up: bool)
    requires Inv(w) && Legal(w, Accounting(k, bytesIn, bytesOut, stop)) && code in w.store.vouchers && AllNamed(w.sessions, code)
    ensures var w' := Next(w, Accounting(k, bytesIn, bytesOut, stop));
      code in w'.store.vouchers && Used(w'.store.vouchers[code], up) == SessionTotal(w'.sessions, code, up)
  {
    hide SessionTotal, ReportedUsage, GoodVoucher, Canonical, Alone, AllNamed;
    var s := w.sessions[k];
    ReportIsCharged(w, k, bytesIn, bytesOut);
    var w' := Next(w, Accounting(k, bytesIn, bytesOut, stop));
    assert OpenSession(w.store, s, AllNamed(w.sessions, s.code));
    UpdateMovesTotal(w.sessions, k, w'.sessions[k], code, up);
    if s.code == code {
      assert !Blind(s) by { NamedMeans(w.sessions, k); }
      assert Baseline(w.store.devices[s.calling.value], up) + Counter(s, up) == Used(w.store.vouchers[s.code], up);
    }
  }

  lemma NamedMeans(sessions: seq<Session>, k: nat)
    requires k < |sessions| && AllNamed(sessions, sessions[k].code)
    ensures !Blind(sessions[k])
  {
  }

  lemma ReportLeavesOpen(w: World, k: nat, bytesIn: nat, bytesOut: nat, stop: bool, j: nat)
    requires Inv(w) && Legal(w, Accounting(k, bytesIn, bytesOut, stop)) && j < |w.sessions|
    requires Next(w, Accounting(k, bytesIn, bytesOut, stop)).sessions[j].open
    ensures var w' := Next(w, Accounting(k, bytesIn, bytesOut, stop));
      OpenSession(w'.store, w'.sessions[j], AllNamed(w'.sessions, w'.sessions[j].code))
  {
    hide SessionTotal, ReportedUsage, GoodVoucher, Canonical, AllNamed;
    var s, t := w.sessions[k], w.sessions[j];
    ReportIsCharged(w, k, bytesIn, bytesOut);
    var w' := Next(w, Accounting(k, bytesIn, bytesOut, stop));
    NamedStays(w.sessions, k, w'.sessions[k], t.code);
    assert OpenSession(w.store, t, AllNamed(w.sessions, t.code));
    assert j < k || j == k || k < j;
    if t.code == s.code && AllNamed(w.sessions, s.code) {
      NamedMeans(w.sessions, k);
      NamedMeans(w.sessions, j);
    }
  }

  // ---------------------------------------------------------------------------------------
  // Whole runs
  // ---------------------------------------------------------------------------------------

  lemma NewVoucherIsGood(code: string, capMb: nat, minutes: nat, lists: seq<seq<byte>>, rate: Option<seq<byte>>)
    requires |code| == 8
    ensures GoodVoucher(code, Voucher(UNUSED, 0, 0, capMb, minutes, None, None, true, NewReplies(capMb, minutes, lists, rate)))
  {
    hide NewReplies;
  }

  lemma IssueKeepsInv(w: World, code: string, capMb: nat, minutes: nat, lists: seq<seq<byte>>, rate: Option<seq<byte>>)
    requires Inv(w) && Legal(w, Issue(code, capMb, minutes, lists, rate))
    ensures Inv(Next(w, Issue(code, capMb, minutes, lists, rate)))
  {
    hide SessionTotal, NewReplies, GoodVoucher, Baseline, Counter, AllNamed;
    NewVoucherIsGood(code, capMb, minutes, lists, rate);
    var w' := Next(w, Issue(code, capMb, minutes, lists, rate));
    UnknownVoucherUnused(w.sessions, code, true);
    UnknownVoucherUnused(w.sessions, code, false);
    forall k: nat | k < |w.sessions| && w.sessions[k].open
      ensures OpenSession(w'.store, w.sessions[k], AllNamed(w.sessions, w.sessions[k].code))
    {
      assert OpenSession(w.store, w.sessions[k], AllNamed(w.sessions, w.sessions[k].code));
    }
  }

  lemma StepKeepsInv(w: World, e: Event)
    requires Inv(w) && Legal(w, e)
    ensures Inv(Next(w, e))
  {
    hide Inv, AllExpired;
    match e {
      case AccessRequest(username, password, calling, now) => AccessKeepsInv(w, username, password, calling, now);
      case Accounting(k, bytesIn, bytesOut, stop) => AccountingKeepsInv(w, k, bytesIn, bytesOut, stop);
      case Sweep(page, now) =>
        SweepTouchesNoUsage(w.store, page, now);
        SameUsageKeepsInv(w.store, AllExpired(w.store, page, now), w.sessions);
      case Issue(code, capMb, minutes, lists, rate) => IssueKeepsInv(w, code, capMb, minutes, lists, rate);
    }
  }

  const EMPTY: World := World(Store(map[], map[]), [])

  lemma {:induction false} RunKeepsInv(w: World, events: seq<Event>)
    requires Inv(w) && LegalRun(w, events)
    ensures Inv(Ran(w, events))
    decreases |events|
  {
    if |events| > 0 {
      hide Inv, Next, Legal;
      StepKeepsInv(w, events[0]);
      RunKeepsInv(Next(w, events[0]), events[1..]);
    }
  }

  lemma ReachableIsSound(events: seq<Event>)
    requires LegalRun(EMPTY, events)
    ensures Inv(Ran(EMPTY, events))
  {
    hide LegalRun, Ran;
    assert Inv(EMPTY);
    RunKeepsInv(EMPTY, events);
  }

  /** Over every run from an empty platform, the usage recorded on a voucher whose sessions named
      their phones is exactly the last counters of all of them together, in each direction: nothing
      a reconnect wipes, nothing counted twice. */
  lemma UsageIsEverySession(events: seq<Event>, code: string, up: bool)
    requires LegalRun(EMPTY, events) && code in Ran(EMPTY, events).store.vouchers
    requires AllNamed(Ran(EMPTY, events).sessions, code)
    ensures var w := Ran(EMPTY, events);
      Used(w.store.vouchers[code], up) == SessionTotal(w.sessions, code, up)
  {
    hide LegalRun, Ran, AllNamed, SessionTotal, Used;
    ReachableIsSound(events);
  }

  /** A step never takes usage off such a voucher, and never loses one. */
  lemma UsageNeverDecreases(w: World, e: Event, code: string, up: bool)
    requires Inv(w) && Legal(w, e) && code in w.store.vouchers
    ensures code in Next(w, e).store.vouchers
    ensures AllNamed(Next(w, e).sessions, code) ==> Used(Next(w, e).store.vouchers[code], up) >= Used(w.store.vouchers[code], up)
  {
    hide Inv, AllExpired, Activated, AllNamed;
    match e {
      case AccessRequest(username, password, calling, now) =>
        ActivationTouchesNoUsage(w.store, username, now);
      case Accounting(k, bytesIn, bytesOut, stop) =>
        hide ReportedUsage;
        ReportIsCharged(w, k, bytesIn, bytesOut);
        OpenIsGood(w, k);
        NamedStays(w.sessions, k, Next(w, e).sessions[k], code);
        if AllNamed(w.sessions, w.sessions[k].code) {
          NamedMeans(w.sessions, k);
          assert Baseline(w.store.devices[w.sessions[k].calling.value], up) + Counter(w.sessions[k], up)
              == Used(w.store.vouchers[w.sessions[k].code], up);
        }
      case Sweep(page, now) => SweepTouchesNoUsage(w.store, page, now);
      case Issue(_, _, _, _, _) =>
    }
  }

  lemma OpenIsGood(w: World, k: nat)
    requires Inv(w) && k < |w.sessions| && w.sessions[k].open
    ensures OpenSession(w.store, w.sessions[k], AllNamed(w.sessions, w.sessions[k].code))
  {
  }

  lemma StaysNamed(w: World, e: Event, code: string)
    requires Legal(w, e) && AllNamed(Next(w, e).sessions, code)
    ensures AllNamed(w.sessions, code)
  {
    match e {
      case AccessRequest(username, password, calling, now) =>
        var verdict := AccessRequested(w.store, w.sessions, username, password, calling, now).1;
        if verdict.Accepted? {
          AllNamedBefore(w.sessions, calling, Session(username, calling, verdict.voucherCode, true, 0, 0), code);
        }
      case Accounting(k, bytesIn, bytesOut, stop) => NamedStays(w.sessions, k, Next(w, e).sessions[k], code);
      case Sweep(_, _) =>
      case Issue(_, _, _, _, _) =>
    }
  }

  lemma {:induction false} RunNeverDecreases(w: World, events: seq<Event>, code: string, up: bool)
    requires Inv(w) && LegalRun(w, events) && code in w.store.vouchers && AllNamed(Ran(w, events).sessions, code)
    ensures code in Ran(w, events).store.vouchers && AllNamed(w.sessions, code)
    ensures Used(Ran(w, events).store.vouchers[code], up) >= Used(w.store.vouchers[code], up)
    decreases |events|
  {
    hide Inv, Next, Legal, Used, AllNamed;
    if |events| > 0 {
      UsageNeverDecreases(w, events[0], code, up);
      StepKeepsInv(w, events[0]);
      RunNeverDecreases(Next(w, events[0]), events[1..], code, up);
      StaysNamed(w, events[0], code);
    }
  }

  function UsedBytes(w: World, code: string): nat {
    SessionTotal(w.sessions, code, true) + SessionTotal(w.sessions, code, false)
  }

  /** Active, with a password, a whole minute and at least one byte left. */
  ghost predicate AMinuteAndAByteLeft(v: Voucher, now: int) {
    && v.status == ACTIVE && v.hasPassword
    && (v.expiresAt.Some? ==> v.expiresAt.value - now >= 60_000)
    && (v.capMb > 0 ==> v.bytesIn + v.bytesOut < v.capMb * 0x10_0000)
  }

  /** A phone that asks by MAC is let in exactly when its last voucher is active, still has a
      password, a minute and a byte left, and no other device is seen connected with it; and it is
      then granted exactly the cap less what all the voucher's sessions have used. */
  lemma ReturningPhoneIsGrantedTheRest(w: World, password: string, calling: string, now: int)
    requires Inv(w) && Canonical(calling)
    ensures var verdict := AccessRequested(w.store, w.sessions, calling, password, Some(calling), now).1;
      && (forall code :: verdict.Accepted? && verdict.voucherCode == code <==>
            && calling in w.store.devices && w.store.devices[calling].voucherCode == code && code in w.store.vouchers
            && AMinuteAndAByteLeft(w.store.vouchers[code], now)
            && !exists k: nat :: OtherDevice(w.sessions, k, code, Some(calling)))
      && (verdict.Accepted? ==>
            && var v := w.store.vouchers[verdict.voucherCode];
            && verdict.login.Some?
            && (AllNamed(w.sessions, verdict.voucherCode) ==>
                  verdict.login.value.bytes == (if v.capMb == 0 then None else Some(v.capMb * MB - UsedBytes(w, verdict.voucherCode))))
            && verdict.login.value.bytes == (if v.capMb == 0 then None else Some(v.capMb * 0x10_0000 - (v.bytesIn + v.bytesOut)))
            && verdict.login.value.seconds == (if v.expiresAt.None? then None else Some((v.expiresAt.value - now) / 1000))
            && R.Grantable(RemainingOf(verdict.login)))
  {
    hide Inv, Busy, MacLoggedIn, SessionTotal, AllNamed, OtherDevice;
    MacIsNoVoucher(w, calling);
    var check := CheckMacLogin(w.store, calling, now);
    ReturnKeepsInv(w, calling, now);
    if check.Some? {
      var code := check.value.voucherCode;
      CodesAreShort(w, code);
      BusyIsAnotherDevice(w, code, Some(calling));
      if AllNamed(w.sessions, code) {
        UsageIsTotal(w, code);
      }
    }
  }

  /** A voucher's code as name and password is let in exactly when the voucher has its password and no
      other device is seen connected. The first time starts the clock, even for a login then refused;
      an accepted one makes the voucher the phone's, with the usage so far as its baseline. */
  lemma CodeLoginDecides(w: World, code: string, password: string, calling: Option<string>, now: int)
    requires Inv(w) && |code| == 8
    ensures var (store, verdict) := AccessRequested(w.store, w.sessions, code, password, calling, now);
      && (verdict == Accepted(code, None) <==>
            && code in w.store.vouchers && w.store.vouchers[code].hasPassword && password == code
            && !exists k: nat :: OtherDevice(w.sessions, k, code, calling))
      && (verdict != Accepted(code, None) ==> verdict == Rejected)
      && store.devices == (if verdict.Accepted? && NormalizeSome(calling).Some?
           then w.store.devices[NormalizeSome(calling).value := Device(code, w.store.vouchers[code].bytesIn, w.store.vouchers[code].bytesOut)]
           else w.store.devices)
      && store.vouchers == (if code in w.store.vouchers && w.store.vouchers[code].hasPassword && password == code && w.store.vouchers[code].status == UNUSED
           then w.store.vouchers[code := Started(w.store.vouchers[code], now)] else w.store.vouchers)
  {
    hide Inv, Busy, OtherDevice;
    ShortIsNoMac(code);
    if PasswordMatches(w.store, code, password) {
      var active := Activated(w.store, code, now);
      ActivationTouchesNoUsage(w.store, code, now);
      SameUsageKeepsInv(w.store, active, w.sessions);
      BusyIsAnotherDevice(World(active, w.sessions), code, calling);
    }
  }

  /** The voucher from its first login on. */
  ghost function Started(v: Voucher, now: int): Voucher {
    v.(status := ACTIVE, activatedAt := Some(now), expiresAt := if v.minutes > 0 then Some(now + v.minutes * 60_000) else None)
  }

  /** Any other name is refused and changes nothing, unless it is the phone's own. */
  lemma OthersAreRefused(st: Store, sessions: seq<Session>, username: string, password: string, calling: Option<string>, now: int)
    requires username !in st.vouchers && (NormalizeMac(username).None? || NormalizeMac(username) != NormalizeSome(calling))
    ensures AccessRequested(st, sessions, username, password, calling, now) == (st, Rejected)
  {
  }

  /** The voucher a report counts against, whoever sends it. Under a phone's own name it is the phone's
      last voucher, and under a code that voucher; the baseline is added when that phone, or the phone
      the packet names, has its last login on this voucher. */
  lemma ReportFindsItsVoucher(st: Store, username: string, calling: Option<string>, bytesIn: nat, bytesOut: nat)
    ensures var u := SessionUsage(st, username, calling, bytesIn, bytesOut);
      match (NormalizeMac(username), NormalizeSome(calling))
      case (Some(mac), _) =>
        if mac !in st.devices then u == Usage(username, bytesIn, bytesOut)
        else u == Usage(st.devices[mac].voucherCode, st.devices[mac].baselineIn + bytesIn, st.devices[mac].baselineOut + bytesOut)
      case (None, Some(mac)) =>
        if mac !in st.devices || st.devices[mac].voucherCode != username then u == Usage(username, bytesIn, bytesOut)
        else u == Usage(username, st.devices[mac].baselineIn + bytesIn, st.devices[mac].baselineOut + bytesOut)
      case (None, None) => u == Usage(username, bytesIn, bytesOut)
  {
  }

  /** A sweep takes its RADIUS identity from an active voucher past its end, and changes nothing else. */
  lemma SweepTakesTheOverdue(st: Store, page: set<string>, now: int, code: string)
    ensures var swept := AllExpired(st, page, now);
      && swept.devices == st.devices && (code in swept.vouchers <==> code in st.vouchers)
      && (code in st.vouchers ==>
            var v := st.vouchers[code];
            swept.vouchers[code] ==
              if code in page && v.status == ACTIVE && v.expiresAt.Some? && v.expiresAt.value < now
              then v.(status := EXPIRED, hasPassword := false, replies := []) else v)
    ensures code in OverdueCodes(st, now) <==>
              code in st.vouchers && st.vouchers[code].status == ACTIVE && st.vouchers[code].expiresAt.Some? && st.vouchers[code].expiresAt.value < now
  {
  }

  /** A report asks for a disconnect exactly when it reaches a positive first data limit of a voucher. */
  lemma CutAtTheFirstLimit(st: Store, u: Usage)
    ensures DisconnectRequested(st, u)
       <==> u.voucherCode in st.vouchers
            && exists before: seq<R.Reply>, n: int, after: seq<R.Reply> ::
                 && st.vouchers[u.voucherCode].replies == before + [R.TotalLimit(n)] + after
                 && (forall i :: 0 <= i < |before| ==> !before[i].TotalLimit?)
                 && 0 < n <= u.bytesIn + u.bytesOut
  {
    if u.voucherCode in st.vouchers {
      var replies := st.vouchers[u.voucherCode].replies;
      CapIsFirst(replies);
      forall before: seq<R.Reply>, n: int, after: seq<R.Reply> |
        replies == before + [R.TotalLimit(n)] + after && forall i :: 0 <= i < |before| ==> !before[i].TotalLimit?
        ensures CapRow(replies) == Some(n)
      {
        assert replies == before + ([R.TotalLimit(n)] + after);
        FirstCap(before, [R.TotalLimit(n)] + after);
      }
    }
  }

  lemma {:induction false} CapIsFirst(replies: seq<R.Reply>)
    ensures CapRow(replies).Some? ==>
              exists before: seq<R.Reply>, after: seq<R.Reply> ::
                && replies == before + [R.TotalLimit(CapRow(replies).value)] + after
                && forall i :: 0 <= i < |before| ==> !before[i].TotalLimit?
  {
    if |replies| > 0 {
      if replies[0].TotalLimit? {
        assert replies == [] + [R.TotalLimit(CapRow(replies).value)] + replies[1..];
      } else {
        CapIsFirst(replies[1..]);
        if CapRow(replies).Some? {
          var n := CapRow(replies).value;
          var before: seq<R.Reply>, after: seq<R.Reply> :|
            replies[1..] == before + [R.TotalLimit(n)] + after && forall i :: 0 <= i < |before| ==> !before[i].TotalLimit?;
          assert replies == ([replies[0]] + before) + [R.TotalLimit(n)] + after;
        }
      }
    }
  }

  lemma MacIsNoVoucher(w: World, calling: string)
    requires Inv(w) && Canonical(calling)
    ensures calling !in w.store.vouchers
  {
    if calling in w.store.vouchers {
      CodesAreShort(w, calling);
      ShortIsNoMac(calling);
    }
  }

  lemma UsageIsTotal(w: World, code: string)
    requires Inv(w) && code in w.store.vouchers && AllNamed(w.sessions, code)
    ensures w.store.vouchers[code].bytesIn == SessionTotal(w.sessions, code, true)
    ensures w.store.vouchers[code].bytesOut == SessionTotal(w.sessions, code, false)
  {
    assert Used(w.store.vouchers[code], true) == SessionTotal(w.sessions, code, true);
    assert Used(w.store.vouchers[code], false) == SessionTotal(w.sessions, code, false);
  }

  /** The data-limit row of a voucher is its cap in bytes, while it has its rows. */
  lemma CapRowIsTheCap(code: string, v: Voucher)
    requires GoodVoucher(code, v)
    ensures CapRow(v.replies) == if v.hasPassword && v.capMb > 0 then Some(v.capMb * MB) else None
  {
    if v.hasPassword {
      var lists: seq<seq<byte>>, rate: Option<seq<byte>> :| v.replies == NewReplies(v.capMb, v.minutes, lists, rate);
      var before, after := BeforeCap(v.minutes, lists), AfterCap(rate);
      RowsAroundCap(v.capMb, v.minutes, lists, rate);
      var cap := if v.capMb > 0 then [R.TotalLimit(v.capMb * MB)] else [];
      assert before + cap + after == before + (cap + after);
      FirstCap(before, cap + after);
      FirstCap(after, []);
      assert after + [] == after && CapRow([]) == None;
      if v.capMb > 0 {
        assert (cap + after)[0] == R.TotalLimit(v.capMb * MB);
      } else {
        assert cap + after == after;
      }
    }
  }

  lemma {:induction false} FirstCap(replies: seq<R.Reply>, rest: seq<R.Reply>)
    requires forall i :: 0 <= i < |replies| ==> !replies[i].TotalLimit?
    ensures CapRow(replies + rest) == CapRow(rest)
    decreases |replies|
  {
    if |replies| == 0 {
      assert replies + rest == rest;
    } else {
      FirstCap(replies[1..], rest);
      assert (replies + rest)[1..] == replies[1..] + rest;
    }
  }

  /** The router is told to disconnect on exactly the reports that bring the voucher's whole usage,
      over all its sessions, to its cap while the voucher still has its RADIUS rows. */
  lemma DisconnectExactlyAtTheCap(w: World, k: nat, bytesIn: nat, bytesOut: nat, stop: bool)
    requires Inv(w) && Legal(w, Accounting(k, bytesIn, bytesOut, stop))
    ensures var code := w.sessions[k].code;
      var after := Next(w, Accounting(k, bytesIn, bytesOut, stop));
      && code in w.store.vouchers && code in after.store.vouchers
      && var v, v' := w.store.vouchers[code], after.store.vouchers[code];
      && (DisconnectRequested(w.store, ReportedUsage(w, k, bytesIn, bytesOut))
          <==> v.hasPassword && v.capMb > 0 && v'.bytesIn + v'.bytesOut >= v.capMb * MB)
      && (AllNamed(w.sessions, code) ==> v'.bytesIn + v'.bytesOut == UsedBytes(after, code))
  {
    hide Inv, SessionTotal, ReportedUsage, AllNamed, GoodVoucher;
    var code := w.sessions[k].code;
    var after := Next(w, Accounting(k, bytesIn, bytesOut, stop));
    ReportIsCharged(w, k, bytesIn, bytesOut);
    AccountingKeepsInv(w, k, bytesIn, bytesOut, stop);
    NamedStays(w.sessions, k, after.sessions[k], code);
    if AllNamed(w.sessions, code) {
      UsageIsTotal(after, code);
    }
    KnownGood(w, code);
    CapRowIsTheCap(code, w.store.vouchers[code]);
  }

  lemma KnownGood(w: World, code: string)
    requires Inv(w) && code in w.store.vouchers
    ensures GoodVoucher(code, w.store.vouchers[code])
  {
  }

  // ---------------------------------------------------------------------------------------
  // The rows of a voucher
  // ---------------------------------------------------------------------------------------

  function BeforeCap(minutes: nat, lists: seq<seq<byte>>): seq<R.Reply> {
    BeforeTime(lists) + (if minutes > 0 then [R.SessionTimeout(minutes * 60)] else [])
  }

  function BeforeTime(lists: seq<seq<byte>>): seq<R.Reply> {
    [R.PortLimit(1)] + seq(|lists|, i requires 0 <= i < |lists| => R.AddressList(lists[i]))
  }

  function AfterTime(capMb: nat, rate: Option<seq<byte>>): seq<R.Reply> {
    (if capMb > 0 then [R.TotalLimit(capMb * MB)] else []) + AfterCap(rate)
  }

  function AfterCap(rate: Option<seq<byte>>): seq<R.Reply> {
    if rate.Some? then [R.RateLimit(rate.value)] else []
  }

  lemma RowsAroundCap(capMb: nat, minutes: nat, lists: seq<seq<byte>>, rate: Option<seq<byte>>)
    ensures NewReplies(capMb, minutes, lists, rate)
         == BeforeCap(minutes, lists) + (if capMb > 0 then [R.TotalLimit(capMb * MB)] else []) + AfterCap(rate)
    ensures NewReplies(capMb, minutes, lists, rate)
         == BeforeTime(lists) + (if minutes > 0 then [R.SessionTimeout(minutes * 60)] else []) + AfterTime(capMb, rate)
    ensures forall i :: 0 <= i < |BeforeCap(minutes, lists)| ==> !BeforeCap(minutes, lists)[i].TotalLimit?
    ensures forall i :: 0 <= i < |BeforeTime(lists)| ==> !BeforeTime(lists)[i].SessionTimeout? && R.Fits(BeforeTime(lists)[i])
    ensures forall i :: 0 <= i < |AfterTime(capMb, rate)| ==> !AfterTime(capMb, rate)[i].SessionTimeout?
  {
  }

  lemma NewRowsFit(capMb: nat, minutes: nat, lists: seq<seq<byte>>, rate: Option<seq<byte>>)
    ensures (forall i :: 0 <= i < |NewReplies(capMb, minutes, lists, rate)| ==> R.Fits(NewReplies(capMb, minutes, lists, rate)[i]))
       <==> capMb * MB < R.U32_RANGE * R.U32_RANGE && minutes * 60 < R.U32_RANGE
  {
    var rows := NewReplies(capMb, minutes, lists, rate);
    RowsAroundCap(capMb, minutes, lists, rate);
    var a, t := BeforeTime(lists), if minutes > 0 then [R.SessionTimeout(minutes * 60)] else [];
    var c := if capMb > 0 then [R.TotalLimit(capMb * MB)] else [];
    assert rows == a + t + c + AfterCap(rate);
    assert minutes > 0 ==> rows[|a|] == R.SessionTimeout(minutes * 60);
    assert capMb > 0 ==> rows[|a| + |t|] == R.TotalLimit(capMb * MB);
    hide NewReplies, BeforeTime;
  }

  /** What the rows of a new voucher grant, to whoever logs in with its code. */
  lemma NewRowsGrant(capMb: nat, minutes: nat, lists: seq<seq<byte>>, rate: Option<seq<byte>>)
    requires R.Build(NewReplies(capMb, minutes, lists, rate), None).Some?
    ensures var attrs := R.Build(NewReplies(capMb, minutes, lists, rate), None).value;
      && R.DataGranted(attrs) == (if capMb > 0 then Some(capMb * MB) else None)
      && R.Timeouts(attrs) == (if minutes > 0 then [minutes * 60] else [])
  {
    hide R.Build, R.DataGranted, R.Timeouts;
    RowsAroundCap(capMb, minutes, lists, rate);
    var rows := NewReplies(capMb, minutes, lists, rate);
    if capMb > 0 {
      R.OneLimitIsGranted(BeforeCap(minutes, lists), capMb * MB, AfterCap(rate));
    } else {
      R.NoRowNoGrant(rows);
    }
    if minutes > 0 {
      R.OneTimeIsGranted(BeforeTime(lists), minutes * 60, AfterTime(capMb, rate));
    } else {
      R.NoRowNoGrant(rows);
    }
  }

  // ---------------------------------------------------------------------------------------
  // Where the protocol falls short: typing a used code again
  // ---------------------------------------------------------------------------------------

  /** Seconds begun in a span of milliseconds. */
  function SecondsBegun(ms: int): int {
    -((-ms) / 1000)
  }

  ghost predicate NothingUsed(sessions: seq<Session>, code: string) {
    forall k: nat :: k < |sessions| && sessions[k].code == code ==> sessions[k].bytesIn == 0 && sessions[k].bytesOut == 0
  }

  /** A login by code is sent the voucher's whole cap and whole time, whenever they fit the wire. The
      data is what is left exactly when no session has used anything; the time is over by the seconds
      begun since the voucher was activated, so it is what is left only at the activation itself. */
  lemma CodeLoginGrantsTheWholeVoucher(w: World, code: string, calling: Option<string>, now: int)
    requires Inv(w) && code in w.store.vouchers
    requires AccessRequested(w.store, w.sessions, code, code, calling, now).1.Accepted?
    ensures var (store, verdict) := AccessRequested(w.store, w.sessions, code, code, calling, now);
      && RemainingOf(verdict.login) == None && code in store.vouchers
      && var v := store.vouchers[code];
      var sent := R.Build(v.replies, RemainingOf(verdict.login));
      && (sent.Some? <==> v.capMb * MB < R.U32_RANGE * R.U32_RANGE && v.minutes * 60 < R.U32_RANGE)
      && (sent.Some? && v.capMb > 0 ==>
            && R.DataGranted(sent.value) == Some(v.capMb * MB)
            && (AllNamed(w.sessions, code) ==> BytesLeft(v) == Some(v.capMb * MB - UsedBytes(w, code)))
            && (AllNamed(w.sessions, code) ==>
                  (R.DataGranted(sent.value).value == BytesLeft(v).value <==> NothingUsed(w.sessions, code))))
      && (sent.Some? && v.minutes > 0 ==>
            && R.Timeouts(sent.value) == [v.minutes * 60]
            && v.activatedAt.Some? && SecondsLeft(v, now).Some?
            && R.Timeouts(sent.value)[0] == SecondsLeft(v, now).value + SecondsBegun(now - v.activatedAt.value)
            && (R.Timeouts(sent.value)[0] == SecondsLeft(v, now).value <==> -1000 < now - v.activatedAt.value <= 0))
  {
    hide Inv, SessionTotal, Busy, AllNamed, NothingUsed, GoodVoucher, R.Build, R.DataGranted, R.Timeouts, NewReplies, CapRow;
    KnownGood(w, code);
    CodeIsNoMac(w, code);
    ActivatedIsGood(w.store, code, now);
    var v := Activated(w.store, code, now).vouchers[code];
    assert AccessRequested(w.store, w.sessions, code, code, calling, now).0.vouchers[code] == v;
    SentRows(code, v);
    if AllNamed(w.sessions, code) {
      UsageIsTotal(w, code);
      AllZero(w.sessions, code);
    }
    WholeTime(v, now, code);
  }

  lemma CodeIsNoMac(w: World, code: string)
    requires Inv(w) && code in w.store.vouchers
    ensures NormalizeMac(code) == None
  {
    ShortIsNoMac(code);
  }

  lemma SentRows(code: string, v: Voucher)
    requires GoodVoucher(code, v) && v.hasPassword
    ensures var sent := R.Build(v.replies, None);
      && (sent.Some? <==> v.capMb * MB < R.U32_RANGE * R.U32_RANGE && v.minutes * 60 < R.U32_RANGE)
      && (sent.Some? ==>
            && R.DataGranted(sent.value) == (if v.capMb > 0 then Some(v.capMb * MB) else None)
            && R.Timeouts(sent.value) == (if v.minutes > 0 then [v.minutes * 60] else []))
  {
    hide R.Build, R.DataGranted, R.Timeouts, R.Fits, NewReplies;
    var lists: seq<seq<byte>>, rate: Option<seq<byte>> :| v.replies == NewReplies(v.capMb, v.minutes, lists, rate);
    R.RepliesEncodeIfTheyFit(v.replies);
    NewRowsFit(v.capMb, v.minutes, lists, rate);
    if R.Build(v.replies, None).Some? {
      NewRowsGrant(v.capMb, v.minutes, lists, rate);
    }
  }

  lemma WholeTime(v: Voucher, now: int, code: string)
    requires GoodVoucher(code, v) && v.status != UNUSED
    ensures v.minutes > 0 ==>
      && v.activatedAt.Some? && SecondsLeft(v, now).Some?
      && v.minutes * 60 == SecondsLeft(v, now).value + SecondsBegun(now - v.activatedAt.value)
      && (v.minutes * 60 == SecondsLeft(v, now).value <==> -1000 < now - v.activatedAt.value <= 0)
  {
    if v.minutes > 0 {
      var elapsed, seconds := now - v.activatedAt.value, v.minutes * 60;
      assert v.expiresAt.value - now == seconds * 1000 + -elapsed;
      assert (seconds * 1000 + -elapsed) / 1000 == seconds + (-elapsed) / 1000;
    }
  }

  lemma AllZero(sessions: seq<Session>, code: string)
    ensures SessionTotal(sessions, code, true) + SessionTotal(sessions, code, false) == 0 <==> NothingUsed(sessions, code)
  {
    ZeroTotal(sessions, code, true);
    ZeroTotal(sessions, code, false);
    assert forall s: Session :: Counter(s, true) == s.bytesIn && Counter(s, false) == s.bytesOut;
  }

  lemma {:induction false} ZeroTotal(sessions: seq<Session>, code: string, up: bool)
    ensures SessionTotal(sessions, code, up) == 0 <==> forall k: nat :: k < |sessions| && sessions[k].code == code ==> Counter(sessions[k], up) == 0
    decreases |sessions|
  {
    hide Counter;
    if |sessions| > 0 {
      var n := |sessions| - 1;
      ZeroTotal(sessions[..n], code, up);
      assert forall k: nat :: k < n ==> sessions[k] == sessions[..n][k];
      assert (forall k: nat :: k < |sessions| && sessions[k].code == code ==> Counter(sessions[k], up) == 0) <==>
        ((sessions[n].code == code ==> Counter(sessions[n], up) == 0)
         && forall k: nat :: k < n && sessions[..n][k].code == code ==> Counter(sessions[..n][k], up) == 0);
    }
  }

  // ---------------------------------------------------------------------------------------
  // Where the protocol falls short: sessions that name no phone
  // ---------------------------------------------------------------------------------------

  /** A report of such a session leaves its own counters as the voucher's usage, whatever run came
      before. That is the usage of all sessions exactly when no other session of the voucher has used
      anything. */
  lemma BlindReportOverwrites(events: seq<Event>, k: nat, bytesIn: nat, bytesOut: nat, stop: bool)
    requires LegalRun(EMPTY, events) && Legal(Ran(EMPTY, events), Accounting(k, bytesIn, bytesOut, stop))
    requires Blind(Ran(EMPTY, events).sessions[k])
    ensures var w := Ran(EMPTY, events);
      var code, after := w.sessions[k].code, Next(w, Accounting(k, bytesIn, bytesOut, stop));
      && code in after.store.vouchers
      && after.store.vouchers[code].bytesIn == bytesIn && after.store.vouchers[code].bytesOut == bytesOut
      && ((forall up :: Used(after.store.vouchers[code], up) == SessionTotal(after.sessions, code, up))
          <==> forall j: nat :: j < |w.sessions| && j != k && w.sessions[j].code == code ==>
                 w.sessions[j].bytesIn == 0 && w.sessions[j].bytesOut == 0)
  {
    hide LegalRun, Ran, Inv, SessionTotal, ReportedUsage, Blind;
    ReachableIsSound(events);
    var w := Ran(EMPTY, events);
    var code, after := w.sessions[k].code, Next(w, Accounting(k, bytesIn, bytesOut, stop));
    ReportIsCharged(w, k, bytesIn, bytesOut);
    OthersTotal(after.sessions, k, code, true);
    OthersTotal(after.sessions, k, code, false);
    assert Used(after.store.vouchers[code], true) == Counter(after.sessions[k], true);
    assert Used(after.store.vouchers[code], false) == Counter(after.sessions[k], false);
    assert forall j: nat :: j < |w.sessions| && j != k ==>
      after.sessions[j] == w.sessions[j] && Counter(after.sessions[j], true) == w.sessions[j].bytesIn && Counter(after.sessions[j], false) == w.sessions[j].bytesOut;
  }

  lemma {:induction false} OthersTotal(sessions: seq<Session>, k: nat, code: string, up: bool)
    requires k < |sessions| && sessions[k].code == code
    ensures SessionTotal(sessions, code, up) >= Counter(sessions[k], up)
    ensures SessionTotal(sessions, code, up) == Counter(sessions[k], up)
       <==> forall j: nat :: j < |sessions| && j != k && sessions[j].code == code ==> Counter(sessions[j], up) == 0
    decreases |sessions|
  {
    hide Counter;
    var n := |sessions| - 1;
    assert forall j: nat :: j < n ==> sessions[j] == sessions[..n][j];
    if k == n {
      ZeroTotal(sessions[..n], code, up);
      assert (forall j: nat :: j < |sessions| && j != k && sessions[j].code == code ==> Counter(sessions[j], up) == 0) <==>
        (forall j: nat :: j < n && sessions[..n][j].code == code ==> Counter(sessions[..n][j], up) == 0);
    } else {
      OthersTotal(sessions[..n], k, code, up);
      assert (forall j: nat :: j < |sessions| && j != k && sessions[j].code == code ==> Counter(sessions[j], up) == 0) <==>
        ((sessions[n].code == code ==> Counter(sessions[n], up) == 0)
         && forall j: nat :: j < n && j != k && sessions[..n][j].code == code ==> Counter(sessions[..n][j], up) == 0);
    }
  }

  /** A report of a session that does name its phone is exact, in each direction, exactly when the
      phone's baseline is what all the other sessions have used; which it is while all of them name
      their phones, and need not be once one of them does not. */
  lemma NamedReportIsExactIfBaselineIs(events: seq<Event>, k: nat, bytesIn: nat, bytesOut: nat, stop: bool, up: bool)
    requires LegalRun(EMPTY, events) && Legal(Ran(EMPTY, events), Accounting(k, bytesIn, bytesOut, stop))
    requires !Blind(Ran(EMPTY, events).sessions[k])
    ensures var w := Ran(EMPTY, events);
      var s, after := w.sessions[k], Next(w, Accounting(k, bytesIn, bytesOut, stop));
      && s.calling.Some? && s.calling.value in w.store.devices && s.code in after.store.vouchers
      && (Used(after.store.vouchers[s.code], up) == SessionTotal(after.sessions, s.code, up)
          <==> Baseline(w.store.devices[s.calling.value], up) == SessionTotal(w.sessions, s.code, up) - Counter(s, up))
      && (AllNamed(w.sessions, s.code) ==> Used(after.store.vouchers[s.code], up) == SessionTotal(after.sessions, s.code, up))
  {
    hide LegalRun, Ran, Inv, SessionTotal, ReportedUsage, Blind, AllNamed;
    ReachableIsSound(events);
    var w := Ran(EMPTY, events);
    var s := w.sessions[k];
    ReportIsCharged(w, k, bytesIn, bytesOut);
    UpdateMovesTotal(w.sessions, k, Next(w, Accounting(k, bytesIn, bytesOut, stop)).sessions[k], s.code, up);
    if AllNamed(w.sessions, s.code) {
      ReportAddsUp(w, k, bytesIn, bytesOut, stop, s.code, up);
    }
  }

  // ---------------------------------------------------------------------------------------
  // One device at a time
  // ---------------------------------------------------------------------------------------

  ghost predicate OpenOn(sessions: seq<Session>, k: nat, code: string) {
    k < |sessions| && sessions[k].open && sessions[k].code == code
  }

  /** Over every run, a one-device voucher whose sessions name their phones has at most one of them
      open. */
  lemma OneDeviceAtATime(events: seq<Event>, code: string, j: nat, k: nat)
    requires LegalRun(EMPTY, events) && AllNamed(Ran(EMPTY, events).sessions, code)
    requires OpenOn(Ran(EMPTY, events).sessions, j, code) && OpenOn(Ran(EMPTY, events).sessions, k, code)
    ensures j == k
  {
    hide LegalRun, Ran;
    ReachableIsSound(events);
    var sessions := Ran(EMPTY, events).sessions;
    assert Alone(sessions) && !Blind(sessions[j]) && !Blind(sessions[k]);
    hide Inv, AllNamed;
  }

  /** An accepted login leaves another session of its voucher open exactly when one was open that
      names no phone: the device limit does not see those. */
  lemma OneDeviceUnlessUnseen(w: World, username: string, password: string, calling: Option<string>, now: int)
    requires Inv(w) && Legal(w, AccessRequest(username, password, calling, now))
    requires AccessRequested(w.store, w.sessions, username, password, calling, now).1.Accepted?
    ensures var code := AccessRequested(w.store, w.sessions, username, password, calling, now).1.voucherCode;
      var after := Next(w, AccessRequest(username, password, calling, now));
      && |after.sessions| == |w.sessions| + 1 && OpenOn(after.sessions, |w.sessions|, code)
      && ((exists k: nat :: k != |w.sessions| && OpenOn(after.sessions, k, code))
          <==> exists k: nat :: OpenOn(w.sessions, k, code) && Blind(w.sessions[k]))
  {
    hide Inv, Remembered, Busy, CheckMacLogin, MacLoggedIn, Activated, NormalizeMac, Blind;
    var code := AccessRequested(w.store, w.sessions, username, password, calling, now).1.voucherCode;
    if PasswordMatches(w.store, username, password) {
      var active := Activated(w.store, username, now);
      ActivationTouchesNoUsage(w.store, username, now);
      SameUsageKeepsInv(w.store, active, w.sessions);
      CodesAreShort(w, username);
      BusyIsAnotherDevice(World(active, w.sessions), username, calling);
    } else {
      ReturnKeepsInv(w, username, now);
      CodesAreShort(w, code);
      BusyIsAnotherDevice(w, code, calling);
    }
    SeenAreClosed(w, username, calling, code);
  }

  lemma SeenAreClosed(w: World, username: string, calling: Option<string>, code: string)
    requires Inv(w) && WellSpelled(calling)
    requires !exists k: nat :: OtherDevice(w.sessions, k, code, calling)
    ensures var after := Closed(w.sessions, calling) + [Session(username, calling, code, true, 0, 0)];
      (exists k: nat :: k != |w.sessions| && OpenOn(after, k, code)) <==> exists k: nat :: OpenOn(w.sessions, k, code) && Blind(w.sessions[k])
  {
    var after := Closed(w.sessions, calling) + [Session(username, calling, code, true, 0, 0)];
    forall k: nat | k < |w.sessions|
      ensures OpenOn(after, k, code) <==> OpenOn(w.sessions, k, code) && Blind(w.sessions[k])
    {
      assert WellSpelled(w.sessions[k].calling);
      assert after[k] == Closed(w.sessions, calling)[k];
      assert !OtherDevice(w.sessions, k, code, calling);
    }
    hide Blind, Closed;
    if k: nat :| OpenOn(w.sessions, k, code) && Blind(w.sessions[k]) {
      assert OpenOn(after, k, code);
    }
  }

  // ---------------------------------------------------------------------------------------
  // Both, on one voucher of 1 MB and 60 minutes
  // ---------------------------------------------------------------------------------------

  const CODE: string := "ABCDEFGH"

  const PHONE: string := Paired("001122AABBCC")

  lemma PhoneIsCanonical()
    ensures Canonical(PHONE)
  {
    var hex := "001122AABBCC";
    assert IsMac(hex) && Uppercase(hex) == hex;
    hide Stripped, Paired;
    StrippedPaired(hex);
    TrimIsInside(PHONE);
  }

  /** The voucher is issued, and its code accepted at time 0. */
  lemma FirstLogin(calling: Option<string>) returns (w: World)
    requires WellSpelled(calling)
    ensures var issue, login := Issue(CODE, 1, 60, [], None), AccessRequest(CODE, CODE, calling, 0);
      Legal(EMPTY, issue) && Legal(Next(EMPTY, issue), login) && w == Next(Next(EMPTY, issue), login)
    ensures Inv(w) && w.sessions == [Session(CODE, calling, CODE, true, 0, 0)]
    ensures w.store.vouchers.Keys == {CODE}
    ensures w.store.vouchers[CODE] == Voucher(ACTIVE, 0, 0, 1, 60, Some(0), Some(3600000), true, NewReplies(1, 60, [], None))
  {
    hide Remembered, NewReplies, NormalizeMac;
    ShortIsNoMac(CODE);
    var issue, login := Issue(CODE, 1, 60, [], None), AccessRequest(CODE, CODE, calling, 0);
    var issued := Next(EMPTY, issue);
    assert !Busy(Activated(issued.store, CODE, 0), [], CODE, calling);
    assert Closed([], calling) == [];
    w := Next(issued, login);
    assert Remembered(Activated(issued.store, CODE, 0), calling, CODE).vouchers == Activated(issued.store, CODE, 0).vouchers
      by { RememberingKeepsVouchers(Activated(issued.store, CODE, 0), calling, CODE); }
    hide Inv, Next, Legal;
    assert Inv(EMPTY) by { EmptyIsSound(); }
    StepKeepsInv(EMPTY, issue);
    StepKeepsInv(issued, login);
  }

  lemma EmptyIsSound()
    ensures Inv(EMPTY)
  {
  }

  lemma RememberingKeepsVouchers(st: Store, calling: Option<string>, code: string)
    ensures Remembered(st, calling, code).vouchers == st.vouchers
  {
  }

  lemma OneStep(w: World, e: Event, rest: seq<Event>)
    requires Legal(w, e)
    ensures LegalRun(w, [e] + rest) <==> LegalRun(Next(w, e), rest)
    ensures LegalRun(w, [e] + rest) ==> Ran(w, [e] + rest) == Ran(Next(w, e), rest)
  {
    hide Legal, Next;
    assert ([e] + rest)[1..] == rest;
  }

  lemma ThreeSteps(w: World, a: Event, b: Event, c: Event, rest: seq<Event>)
    requires Legal(w, a) && Legal(Next(w, a), b) && Legal(Next(Next(w, a), b), c)
    ensures var w' := Next(Next(Next(w, a), b), c);
      && (LegalRun(w, [a, b, c] + rest) <==> LegalRun(w', rest))
      && (LegalRun(w', rest) ==> Ran(w, [a, b, c] + rest) == Ran(w', rest))
  {
    hide Legal, Next, LegalRun, Ran;
    var w1, w2 := Next(w, a), Next(Next(w, a), b);
    OneStep(w, a, [b, c] + rest);
    OneStep(w1, b, [c] + rest);
    OneStep(w2, c, rest);
    assert [a, b, c] + rest == [a] + ([b, c] + rest) && [b, c] + rest == [b] + ([c] + rest);
  }

  /** Logged in, and 300000 bytes used. */
  const USED_CODE: seq<Event> := [
    Issue(CODE, 1, 60, [], None),
    AccessRequest(CODE, CODE, Some(PHONE), 0),
    Accounting(0, 300000, 0, false)]

  /** The code is typed again five seconds after the first time: 748576 bytes and 3595 seconds are
      left, and 1048576 bytes and 3600 seconds are granted. */
  lemma UsedCodeIsGrantedInFull()
    ensures LegalRun(EMPTY, USED_CODE)
    ensures var w := Ran(EMPTY, USED_CODE);
      var (store, verdict) := AccessRequested(w.store, w.sessions, CODE, CODE, Some(PHONE), 5000);
      && verdict.Accepted? && CODE in store.vouchers
      && var sent := R.Build(store.vouchers[CODE].replies, RemainingOf(verdict.login));
      && sent.Some?
      && R.DataGranted(sent.value) == Some(1048576) && BytesLeft(store.vouchers[CODE]) == Some(748576)
      && R.Timeouts(sent.value) == [3600] && SecondsLeft(store.vouchers[CODE], 5000) == Some(3595)
  {
    var w := AfterUse();
    hide LegalRun, Ran, Next, Legal, Inv, R.Build, R.DataGranted, R.Timeouts, NewReplies, AccessRequested;
    TypedAgain(w);
    ThreeSteps(EMPTY, USED_CODE[0], USED_CODE[1], USED_CODE[2], []);
    NoSteps(w);
    assert USED_CODE == [USED_CODE[0], USED_CODE[1], USED_CODE[2]] + [];
  }

  lemma NoSteps(w: World)
    ensures LegalRun(w, []) && Ran(w, []) == w
  {
  }

  lemma AfterUse() returns (w: World)
    ensures Legal(EMPTY, USED_CODE[0]) && Legal(Next(EMPTY, USED_CODE[0]), USED_CODE[1])
    ensures var w2 := Next(Next(EMPTY, USED_CODE[0]), USED_CODE[1]);
      Legal(w2, USED_CODE[2]) && w == Next(w2, USED_CODE[2])
    ensures Inv(w) && w.sessions == [Session(CODE, Some(PHONE), CODE, true, 300000, 0)] && w.store.vouchers.Keys == {CODE}
    ensures w.store.vouchers[CODE] == Voucher(ACTIVE, 300000, 0, 1, 60, Some(0), Some(3600000), true, NewReplies(1, 60, [], None))
  {
    PhoneIsCanonical();
    var w2 := FirstLogin(Some(PHONE));
    hide Inv, Next, Legal, NewReplies;
    OneReport(w2, 300000, false);
    StepKeepsInv(w2, USED_CODE[2]);
    w := Next(w2, USED_CODE[2]);
  }

  lemma TypedAgain(w: World)
    requires Inv(w) && w.sessions == [Session(CODE, Some(PHONE), CODE, true, 300000, 0)] && w.store.vouchers.Keys == {CODE}
    requires w.store.vouchers[CODE] == Voucher(ACTIVE, 300000, 0, 1, 60, Some(0), Some(3600000), true, NewReplies(1, 60, [], None))
    ensures var (store, verdict) := AccessRequested(w.store, w.sessions, CODE, CODE, Some(PHONE), 5000);
      && verdict.Accepted? && CODE in store.vouchers
      && var sent := R.Build(store.vouchers[CODE].replies, RemainingOf(verdict.login));
      && sent.Some?
      && R.DataGranted(sent.value) == Some(1048576) && BytesLeft(store.vouchers[CODE]) == Some(748576)
      && R.Timeouts(sent.value) == [3600] && SecondsLeft(store.vouchers[CODE], 5000) == Some(3595)
  {
    hide Inv, Remembered, NewReplies, NormalizeMac, R.Build, R.DataGranted, R.Timeouts, AllNamed, SessionTotal, NothingUsed;
    assert Activated(w.store, CODE, 5000) == w.store;
    assert !Busy(w.store, w.sessions, CODE, Some(PHONE));
    RememberingKeepsVouchers(w.store, Some(PHONE), CODE);
    CodeLoginGrantsTheWholeVoucher(w, CODE, Some(PHONE), 5000);
  }

  /** A report on the first login's session. */
  lemma OneReport(w: World, bytesIn: nat, stop: bool)
    requires Inv(w) && |w.sessions| == 1 && w.sessions[0].open && w.sessions[0].code == CODE
    requires w.sessions[0].bytesIn == 0 && w.sessions[0].bytesOut == 0
    requires w.store.vouchers.Keys == {CODE} && w.store.vouchers[CODE].bytesIn == 0 && w.store.vouchers[CODE].bytesOut == 0
    ensures Legal(w, Accounting(0, bytesIn, 0, stop))
    ensures var w' := Next(w, Accounting(0, bytesIn, 0, stop));
      && w'.sessions == [w.sessions[0].(bytesIn := bytesIn, open := !stop)]
      && w'.store.vouchers.Keys == {CODE}
      && w'.store.vouchers[CODE] == w.store.vouchers[CODE].(bytesIn := bytesIn)
  {
    hide Inv, ReportedUsage, Blind;
    ReportIsCharged(w, 0, bytesIn, 0);
    OneSessionBaseline(w);
  }

  lemma OneSessionBaseline(w: World)
    requires Inv(w) && |w.sessions| == 1 && w.sessions[0].open && w.sessions[0].code == CODE
    requires w.sessions[0].bytesIn == 0 && w.sessions[0].bytesOut == 0
    requires w.store.vouchers.Keys == {CODE} && w.store.vouchers[CODE].bytesIn == 0 && w.store.vouchers[CODE].bytesOut == 0
    ensures var s := w.sessions[0];
      !Blind(s) ==> s.calling.Some? && s.calling.value in w.store.devices
                    && w.store.devices[s.calling.value].baselineIn == 0 && w.store.devices[s.calling.value].baselineOut == 0
  {
    OpenIsGood(w, 0);
    var s := w.sessions[0];
    if !Blind(s) {
      var d := w.store.devices[s.calling.value];
      assert Baseline(d, true) + Counter(s, true) == Used(w.store.vouchers[CODE], true);
      assert Baseline(d, false) + Counter(s, false) == Used(w.store.vouchers[CODE], false);
    }
  }

  /** Two sessions that name no phone, of 100 and 50 bytes. */
  const BLIND_SESSIONS: seq<Event> := [
    Issue(CODE, 1, 60, [], None),
    AccessRequest(CODE, CODE, None, 0),
    Accounting(0, 100, 0, true),
    AccessRequest(CODE, CODE, None, 1),
    Accounting(1, 50, 0, false)]

  /** 150 bytes are used, and 50 recorded. */
  lemma BlindSessionsLoseUsage()
    ensures LegalRun(EMPTY, BLIND_SESSIONS)
    ensures var w := Ran(EMPTY, BLIND_SESSIONS);
      && CODE in w.store.vouchers && w.store.vouchers[CODE].bytesIn == 50
      && SessionTotal(w.sessions, CODE, true) == 150
  {
    var w3 := AfterTheFirst();
    var again, second := AccessRequest(CODE, CODE, None, 1), Accounting(1, 50, 0, false);
    ThenTheSecond(w3);
    hide LegalRun, Ran, Legal, Next, Inv, SessionTotal;
    ThreeSteps(EMPTY, BLIND_SESSIONS[0], BLIND_SESSIONS[1], BLIND_SESSIONS[2], [again, second]);
    LastTwo(w3, again, second);
    assert BLIND_SESSIONS == [BLIND_SESSIONS[0], BLIND_SESSIONS[1], BLIND_SESSIONS[2]] + [again, second];
  }

  lemma AfterTheFirst() returns (w: World)
    ensures Legal(EMPTY, BLIND_SESSIONS[0]) && Legal(Next(EMPTY, BLIND_SESSIONS[0]), BLIND_SESSIONS[1])
    ensures var w2 := Next(Next(EMPTY, BLIND_SESSIONS[0]), BLIND_SESSIONS[1]);
      Legal(w2, BLIND_SESSIONS[2]) && w == Next(w2, BLIND_SESSIONS[2])
    ensures Inv(w) && w.sessions == [Session(CODE, None, CODE, false, 100, 0)] && w.store.vouchers.Keys == {CODE}
    ensures w.store.vouchers[CODE].status == ACTIVE && w.store.vouchers[CODE].hasPassword
  {
    var w2 := FirstLogin(None);
    hide Inv, Next, Legal, NewReplies;
    OneReport(w2, 100, true);
    StepKeepsInv(w2, BLIND_SESSIONS[2]);
    w := Next(w2, BLIND_SESSIONS[2]);
  }

  lemma ThenTheSecond(w: World)
    requires Inv(w) && w.sessions == [Session(CODE, None, CODE, false, 100, 0)] && w.store.vouchers.Keys == {CODE}
    requires w.store.vouchers[CODE].status == ACTIVE && w.store.vouchers[CODE].hasPassword
    ensures var again, second := AccessRequest(CODE, CODE, None, 1), Accounting(1, 50, 0, false);
      && Legal(w, again) && Legal(Next(w, again), second)
      && var end := Next(Next(w, again), second);
      && CODE in end.store.vouchers && end.store.vouchers[CODE].bytesIn == 50 && SessionTotal(end.sessions, CODE, true) == 150
  {
    var again, second := AccessRequest(CODE, CODE, None, 1), Accounting(1, 50, 0, false);
    SecondLogin(w);
    var w4 := Next(w, again);
    assert Inv(w4) by { StepKeepsInv(w, again); }
    hide Inv, ReportedUsage, SessionTotal;
    ReportIsCharged(w4, 1, 50, 0);
    var end := Next(w4, second);
    assert end.sessions == [Session(CODE, None, CODE, false, 100, 0), Session(CODE, None, CODE, true, 50, 0)];
    TwoTotal(end.sessions);
  }

  lemma LastTwo(w: World, a: Event, b: Event)
    requires Legal(w, a) && Legal(Next(w, a), b)
    ensures LegalRun(w, [a, b]) && Ran(w, [a, b]) == Next(Next(w, a), b)
  {
    hide Legal, Next;
    var w1 := Next(w, a);
    assert [a, b][1..] == [b] && [b][1..] == [];
    assert LegalRun(Next(w1, b), []) && Ran(Next(w1, b), []) == Next(w1, b);
    assert LegalRun(w1, [b]) && Ran(w1, [b]) == Next(w1, b);
  }

  lemma SecondLogin(w: World)
    requires w.sessions == [Session(CODE, None, CODE, false, 100, 0)] && w.store.vouchers.Keys == {CODE}
    requires w.store.vouchers[CODE].status == ACTIVE && w.store.vouchers[CODE].hasPassword
    ensures Legal(w, AccessRequest(CODE, CODE, None, 1))
    ensures var w' := Next(w, AccessRequest(CODE, CODE, None, 1));
      && w'.sessions == [Session(CODE, None, CODE, false, 100, 0), Session(CODE, None, CODE, true, 0, 0)]
      && w'.store.vouchers == w.store.vouchers
  {
    assert !Busy(w.store, w.sessions, CODE, None);
    assert Closed(w.sessions, None) == w.sessions;
    hide Busy, Closed;
    CodeAccepted(w, None, 1);
  }

  lemma TwoTotal(sessions: seq<Session>)
    requires |sessions| == 2 && sessions[0].code == CODE && sessions[1].code == CODE
    ensures SessionTotal(sessions, CODE, true) == sessions[0].bytesIn + sessions[1].bytesIn
  {
    assert sessions[..1][..0] == [];
    assert SessionTotal(sessions[..1], CODE, true) == sessions[0].bytesIn;
  }

  /** A session that names no phone, then one of a phone that does, on the same voucher: 100 bytes in
      the first and 50 in the second. */
  const UNSEEN: seq<Event> := [
    Issue(CODE, 1, 60, [], None),
    AccessRequest(CODE, CODE, None, 0),
    AccessRequest(CODE, CODE, Some(PHONE), 1),
    Accounting(0, 100, 0, false),
    Accounting(1, 50, 0, false)]

  /** Both logins are accepted, so two devices are connected with a one-device voucher; and the named
      phone's report leaves 50 of 150 bytes recorded. */
  lemma UnseenSessionIsJoined()
    ensures LegalRun(EMPTY, UNSEEN[..3]) && LegalRun(EMPTY, UNSEEN)
    ensures var sessions := Ran(EMPTY, UNSEEN[..3]).sessions; OpenOn(sessions, 0, CODE) && OpenOn(sessions, 1, CODE)
    ensures var w := Ran(EMPTY, UNSEEN);
      CODE in w.store.vouchers && w.store.vouchers[CODE].bytesIn == 50 && SessionTotal(w.sessions, CODE, true) == 150
  {
    hide Paired, LegalRun, Ran, Legal, Next, SessionTotal, Inv, OpenOn;
    var w := AfterJoining();
    BothReport(w);
    BothOpen(w.sessions);
    UnseenRuns(w);
  }

  lemma UnseenRuns(w: World)
    requires Legal(EMPTY, UNSEEN[0]) && Legal(Next(EMPTY, UNSEEN[0]), UNSEEN[1])
    requires var w2 := Next(Next(EMPTY, UNSEEN[0]), UNSEEN[1]); Legal(w2, UNSEEN[2]) && w == Next(w2, UNSEEN[2])
    requires Legal(w, UNSEEN[3]) && Legal(Next(w, UNSEEN[3]), UNSEEN[4])
    ensures LegalRun(EMPTY, UNSEEN[..3]) && Ran(EMPTY, UNSEEN[..3]) == w
    ensures LegalRun(EMPTY, UNSEEN) && Ran(EMPTY, UNSEEN) == Next(Next(w, UNSEEN[3]), UNSEEN[4])
  {
    hide Paired, LegalRun, Ran, Legal, Next;
    var events := UNSEEN;
    NoSteps(w);
    LastTwo(w, events[3], events[4]);
    ThreeSteps(EMPTY, events[0], events[1], events[2], []);
    ThreeSteps(EMPTY, events[0], events[1], events[2], [events[3], events[4]]);
    FiveEvents(events);
  }

  lemma FiveEvents(events: seq<Event>)
    requires |events| == 5
    ensures events[..3] == [events[0], events[1], events[2]] + []
    ensures events == [events[0], events[1], events[2]] + [events[3], events[4]]
  {
  }

  lemma BothOpen(sessions: seq<Session>)
    requires |sessions| == 2 && sessions[0].open && sessions[1].open && sessions[0].code == CODE && sessions[1].code == CODE
    ensures OpenOn(sessions, 0, CODE) && OpenOn(sessions, 1, CODE)
  {
  }

  lemma AfterJoining() returns (w: World)
    ensures Legal(EMPTY, UNSEEN[0]) && Legal(Next(EMPTY, UNSEEN[0]), UNSEEN[1])
    ensures var w2 := Next(Next(EMPTY, UNSEEN[0]), UNSEEN[1]); Legal(w2, UNSEEN[2]) && w == Next(w2, UNSEEN[2])
    ensures Inv(w) && w.sessions == [Session(CODE, None, CODE, true, 0, 0), Session(CODE, Some(PHONE), CODE, true, 0, 0)]
    ensures Canonical(PHONE) && w.store.vouchers.Keys == {CODE} && PHONE in w.store.devices && w.store.devices[PHONE] == Device(CODE, 0, 0)
  {
    hide Inv, Next, Legal, NewReplies, Canonical, Paired;
    PhoneIsCanonical();
    var w2 := FirstLogin(None);
    JoinsUnseen(w2);
    w := Next(w2, AccessRequest(CODE, CODE, Some(PHONE), 1));
    StepKeepsInv(w2, AccessRequest(CODE, CODE, Some(PHONE), 1));
  }

  lemma JoinsUnseen(w: World)
    requires w.sessions == [Session(CODE, None, CODE, true, 0, 0)] && w.store.vouchers.Keys == {CODE} && Canonical(PHONE)
    requires w.store.vouchers[CODE].status == ACTIVE && w.store.vouchers[CODE].hasPassword
    requires w.store.vouchers[CODE].bytesIn == 0 && w.store.vouchers[CODE].bytesOut == 0
    ensures Legal(w, AccessRequest(CODE, CODE, Some(PHONE), 1))
    ensures var w' := Next(w, AccessRequest(CODE, CODE, Some(PHONE), 1));
      && w'.sessions == [Session(CODE, None, CODE, true, 0, 0), Session(CODE, Some(PHONE), CODE, true, 0, 0)]
      && w'.store.vouchers == w.store.vouchers
      && PHONE in w'.store.devices && w'.store.devices[PHONE] == Device(CODE, 0, 0)
  {
    hide NormalizeMac, NormalizeSome, Paired, Remembered, Closed;
    PhoneItself();
    assert !Busy(w.store, w.sessions, CODE, Some(PHONE));
    CodeAccepted(w, Some(PHONE), 1);
    OthersUntouched(w.sessions[0]);
    PhoneRemembered(w.store);
  }

  lemma OthersUntouched(s: Session)
    requires s.calling == None
    ensures Closed([s], Some(PHONE)) == [s]
  {
    hide Paired, NormalizeMac;
  }

  /** A used code accepted again. */
  lemma CodeAccepted(w: World, calling: Option<string>, now: int)
    requires CODE in w.store.vouchers && w.store.vouchers[CODE].status != UNUSED && w.store.vouchers[CODE].hasPassword
    requires WellSpelled(calling) && !Busy(w.store, w.sessions, CODE, calling)
    ensures Legal(w, AccessRequest(CODE, CODE, calling, now))
    ensures Next(w, AccessRequest(CODE, CODE, calling, now))
         == World(Remembered(w.store, calling, CODE), Closed(w.sessions, calling) + [Session(CODE, calling, CODE, true, 0, 0)])
  {
    ShortIsNoMac(CODE);
    hide Remembered, Busy, NormalizeMac, Closed, CheckMacLogin, MacLoggedIn;
    assert Activated(w.store, CODE, now) == w.store;
  }

  lemma PhoneItself()
    requires Canonical(PHONE)
    ensures NormalizeSome(Some(PHONE)) == Some(PHONE) && WellSpelled(Some(PHONE))
  {
    hide NormalizeMac, Paired;
  }

  lemma PhoneRemembered(st: Store)
    requires Canonical(PHONE) && CODE in st.vouchers && st.vouchers[CODE].bytesIn == 0 && st.vouchers[CODE].bytesOut == 0
    ensures var st' := Remembered(st, Some(PHONE), CODE);
      st'.vouchers == st.vouchers && PHONE in st'.devices && st'.devices[PHONE] == Device(CODE, 0, 0)
  {
    hide NormalizeMac, Paired;
  }

  lemma BothReport(w: World)
    requires Inv(w) && w.sessions == [Session(CODE, None, CODE, true, 0, 0), Session(CODE, Some(PHONE), CODE, true, 0, 0)]
    requires Canonical(PHONE) && w.store.vouchers.Keys == {CODE} && PHONE in w.store.devices && w.store.devices[PHONE] == Device(CODE, 0, 0)
    ensures Legal(w, UNSEEN[3]) && Legal(Next(w, UNSEEN[3]), UNSEEN[4])
    ensures var end := Next(Next(w, UNSEEN[3]), UNSEEN[4]);
      CODE in end.store.vouchers && end.store.vouchers[CODE].bytesIn == 50 && SessionTotal(end.sessions, CODE, true) == 150
  {
    hide Inv, ReportedUsage, SessionTotal, Paired;
    PhoneItself();
    var unseen, named := Accounting(0, 100, 0, false), Accounting(1, 50, 0, false);
    assert Blind(w.sessions[0]) && !Blind(w.sessions[1]);
    hide Blind, Canonical, NormalizeMac;
    ReportIsCharged(w, 0, 100, 0);
    var w4 := Next(w, unseen);
    StepKeepsInv(w, unseen);
    assert w4.sessions[1] == w.sessions[1] && w4.store.devices == w.store.devices && CODE in w4.store.vouchers;
    LastReport(w4, named);
  }

  lemma LastReport(w: World, named: Event)
    requires Inv(w) && w.sessions == [Session(CODE, None, CODE, true, 100, 0), Session(CODE, Some(PHONE), CODE, true, 0, 0)]
    requires named == Accounting(1, 50, 0, false) && !Blind(w.sessions[1])
    requires CODE in w.store.vouchers && PHONE in w.store.devices && w.store.devices[PHONE] == Device(CODE, 0, 0)
    ensures Legal(w, named)
    ensures var end := Next(w, named);
      CODE in end.store.vouchers && end.store.vouchers[CODE].bytesIn == 50 && SessionTotal(end.sessions, CODE, true) == 150
  {
    hide Inv, ReportedUsage, SessionTotal, Paired, Blind, NormalizeMac;
    ReportIsCharged(w, 1, 50, 0);
    var end := Next(w, named);
    assert end.sessions == [Session(CODE, None, CODE, true, 100, 0), Session(CODE, Some(PHONE), CODE, true, 50, 0)];
    TwoTotal(end.sessions);
  }
}
