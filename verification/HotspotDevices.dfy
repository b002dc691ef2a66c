/** Vouchers and the phones that used them, for one tenant
    (packages/network/src/hotspot-device.service.ts), and the RADIUS handlers that read and write
    them (packages/radius/src/radius-server.ts). A session's byte counters restart at zero, so each
    phone keeps the voucher's usage at the moment its session began: its baseline. */
module HotspotDevices {
  import opened MacAddress
  import opened Optional
  import Bytes
  import R = ReplyAttributes

  const MB: nat := 1024 * 1024

  datatype Status = UNUSED | ACTIVE | EXPIRED | USED

  /** A voucher with its RADIUS identity: a password (the code itself) and reply rows. Times are in
      milliseconds. */
  datatype Voucher = Voucher(status: Status, bytesIn: nat, bytesOut: nat, capMb: nat, minutes: nat,
                             activatedAt: Option<int>, expiresAt: Option<int>, hasPassword: bool, replies: seq<R.Reply>)

  datatype Device = Device(voucherCode: string, baselineIn: nat, baselineOut: nat)

  datatype Store = Store(vouchers: map<string, Voucher>, devices: map<string, Device>)

  /** An accounting row: who the session runs under, which phone its packets name (if any), and its
      own counters. `code` is the voucher it was let in with. */
  datatype Session = Session(username: string, calling: Option<string>, code: string, open: bool, bytesIn: nat, bytesOut: nat)

  /** What a returning phone is let in with. */
  datatype MacLogin = MacLogin(voucherCode: string, seconds: Option<int>, bytes: Option<int>)

  datatype Usage = Usage(voucherCode: string, bytesIn: nat, bytesOut: nat)

  datatype Verdict = Rejected | Accepted(voucherCode: string, login: Option<MacLogin>)

  // ---------------------------------------------------------------------------------------
  // The baseline
  // ---------------------------------------------------------------------------------------

  /** A phone started a session on this voucher; only real vouchers are remembered. */
  function Remembered(st: Store, calling: Option<string>, code: string): Store {
    match NormalizeSome(calling)
    case None => st
    case Some(mac) =>
      if code !in st.vouchers then st
      else st.(devices := st.devices[mac := Device(code, st.vouchers[code].bytesIn, st.vouchers[code].bytesOut)])
  }

  /** Whole seconds left, rounded down. */
  function SecondsLeft(v: Voucher, now: int): Option<int> {
    if v.expiresAt.None? then None else Some((v.expiresAt.value - now) / 1000)
  }

  function BytesLeft(v: Voucher): Option<int> {
    if v.capMb == 0 then None else Some(v.capMb * MB - (v.bytesIn + v.bytesOut))
  }

  predicate WorthASession(v: Voucher, now: int) {
    && v.status == ACTIVE && v.hasPassword
    && (v.expiresAt.Some? ==> SecondsLeft(v, now).value >= 60)
    && (v.capMb > 0 ==> BytesLeft(v).value > 0)
  }

  function CheckMacLogin(st: Store, calling: string, now: int): (r: Option<MacLogin>) {
    match NormalizeMac(calling)
    case None => None
    case Some(mac) =>
      if mac !in st.devices || st.devices[mac].voucherCode !in st.vouchers then None
      else
        var code := st.devices[mac].voucherCode;
        var v := st.vouchers[code];
        if WorthASession(v, now) then Some(MacLogin(code, SecondsLeft(v, now), BytesLeft(v))) else None
  }

  /** Letting the phone in moves its baseline to the usage recorded so far. */
  function MacLoggedIn(st: Store, calling: string, now: int): Store {
    var check := CheckMacLogin(st, calling, now);
    if check.None? then st
    else
      var mac := NormalizeMac(calling).value;
      var v := st.vouchers[check.value.voucherCode];
      st.(devices := st.devices[mac := st.devices[mac].(baselineIn := v.bytesIn, baselineOut := v.bytesOut)])
  }

  /** The voucher a session counts against, and that voucher's usage with this session in it. */
  function SessionUsage(st: Store, username: string, calling: Option<string>, bytesIn: nat, bytesOut: nat): Usage {
    var usernameMac := NormalizeMac(username);
    var mac := if usernameMac.Some? then usernameMac else NormalizeSome(calling);
    var device := if mac.Some? && mac.value in st.devices then Some(st.devices[mac.value]) else None;
    var code := if usernameMac.Some? && device.Some? then device.value.voucherCode else username;
    if device.None? || device.value.voucherCode != code then Usage(code, bytesIn, bytesOut)
    else Usage(code, device.value.baselineIn + bytesIn, device.value.baselineOut + bytesOut)
  }

  function Recorded(st: Store, u: Usage): Store {
    if u.voucherCode !in st.vouchers then st
    else st.(vouchers := st.vouchers[u.voucherCode := st.vouchers[u.voucherCode].(bytesIn := u.bytesIn, bytesOut := u.bytesOut)])
  }

  /** The first data limit among the reply rows. */
  function CapRow(replies: seq<R.Reply>): Option<int> {
    if |replies| == 0 then None
    else if replies[0].TotalLimit? then Some(replies[0].bytes)
    else CapRow(replies[1..])
  }

  predicate DisconnectRequested(st: Store, u: Usage) {
    && u.voucherCode in st.vouchers
    && var cap := CapRow(st.vouchers[u.voucherCode].replies);
      cap.Some? && cap.value > 0 && u.bytesIn + u.bytesOut >= cap.value
  }

  // ---------------------------------------------------------------------------------------
  // The handlers
  // ---------------------------------------------------------------------------------------

  /** The names a voucher's sessions run under: its code, and the phones logged in with it. */
  predicate NamedFor(st: Store, code: string, username: string) {
    username == code || (username in st.devices && st.devices[username].voucherCode == code)
  }

  /** Whether the row of a session counts as another device. A request that names no phone counts
      every row; one that does skips the rows that name none, as SQL compares them with null. */
  predicate CountsAgainst(row: Option<string>, asking: Option<string>) {
    asking.None? || (row.Some? && row != asking)
  }

  /** Another device is connected with this one-device voucher. */
  predicate Busy(st: Store, sessions: seq<Session>, code: string, calling: Option<string>) {
    exists k: nat :: k < |sessions| && sessions[k].open && NamedFor(st, code, sessions[k].username)
                     && CountsAgainst(sessions[k].calling, calling)
  }

  predicate PasswordMatches(st: Store, username: string, password: string) {
    username in st.vouchers && st.vouchers[username].hasPassword && password == username
  }

  function ExpiryOf(v: Voucher, activated: int): Option<int> {
    if v.minutes == 0 then None else Some(activated + v.minutes * 60000)
  }

  /** The first accepted password starts the voucher's clock. */
  function Activated(st: Store, code: string, now: int): Store {
    if code !in st.vouchers || st.vouchers[code].status != UNUSED then st
    else
      var v := st.vouchers[code];
      st.(vouchers := st.vouchers[code := v.(status := ACTIVE, activatedAt := Some(now), expiresAt := ExpiryOf(v, now))])
  }

  function AccessRequested(st: Store, sessions: seq<Session>, username: string, password: string, calling: Option<string>,
                           now: int): (Store, Verdict)
  {
    if PasswordMatches(st, username, password) then
      var active := Activated(st, username, now);
      if Busy(active, sessions, username, calling) then (active, Rejected)
      else (Remembered(active, calling, username), Accepted(username, None))
    else if NormalizeMac(username).Some? && NormalizeMac(username) == NormalizeSome(calling) then
      var mac := NormalizeMac(username).value;
      var check := CheckMacLogin(st, mac, now);
      var moved := MacLoggedIn(st, mac, now);
      if check.None? || Busy(moved, sessions, check.value.voucherCode, calling) then (moved, Rejected)
      else (moved, Accepted(check.value.voucherCode, check))
    else (st, Rejected)
  }

  /** What the Access-Accept's attributes are built from. */
  function RemainingOf(login: Option<MacLogin>): Option<R.Remaining> {
    match login
    case None => None
    case Some(l) => Some(R.Remaining(l.seconds, l.bytes))
  }

  predicate Overdue(v: Voucher, now: int) {
    v.status == ACTIVE && v.expiresAt.Some? && v.expiresAt.value < now
  }

  function OverdueCodes(st: Store, now: int): set<string> {
    set code | code in st.vouchers && Overdue(st.vouchers[code], now)
  }

  const SWEEP_LIMIT: nat := 500

  /** A sweep over some overdue vouchers, which lose their RADIUS identity. */
  function AllExpired(st: Store, page: set<string>, now: int): Store {
    st.(vouchers := map code | code in st.vouchers ::
      var v := st.vouchers[code];
      if code in page && Overdue(v, now) then Revoked(v) else v)
  }

  function Revoked(v: Voucher): Voucher {
    v.(status := EXPIRED, hasPassword := false, replies := [])
  }

  lemma OneMoreExpired(st: Store, page: set<string>, code: string, now: int)
    requires code in OverdueCodes(st, now) && code !in page
    ensures AllExpired(st, {}, now) == st
    ensures code in AllExpired(st, page, now).vouchers && AllExpired(st, page, now).vouchers[code] == st.vouchers[code]
    ensures AllExpired(st, page + {code}, now)
         == AllExpired(st, page, now).(vouchers := AllExpired(st, page, now).vouchers[code := Revoked(st.vouchers[code])])
  {
  }

  /** The reply rows a new one-device voucher is created with. */
  function NewReplies(capMb: nat, minutes: nat, lists: seq<seq<Bytes.byte>>, rate: Option<seq<Bytes.byte>>): seq<R.Reply> {
    [R.PortLimit(1)]
    + seq(|lists|, i requires 0 <= i < |lists| => R.AddressList(lists[i]))
    + (if minutes > 0 then [R.SessionTimeout(minutes * 60)] else [])
    + (if capMb > 0 then [R.TotalLimit(capMb * MB)] else [])
    + (if rate.Some? then [R.RateLimit(rate.value)] else [])
  }

  function Issued(st: Store, code: string, capMb: nat, minutes: nat, lists: seq<seq<Bytes.byte>>, rate: Option<seq<Bytes.byte>>): Store {
    st.(vouchers := st.vouchers[code := Voucher(UNUSED, 0, 0, capMb, minutes, None, None, true, NewReplies(capMb, minutes, lists, rate))])
  }

  // ---------------------------------------------------------------------------------------
  // The tables
  // ---------------------------------------------------------------------------------------

  class HotspotTables {
    var vouchers: map<string, Voucher>
    var devices: map<string, Device>

    ghost function Contents(): Store
      reads this
    {
      Store(vouchers, devices)
    }

    method RememberDevice(calling: Option<string>, voucherCode: string)
      modifies this`devices
      ensures Contents() == Remembered(old(Contents()), calling, voucherCode)
    {
      var mac := NormalizeSome(calling);
      if mac.None? {
        return;
      }
      if voucherCode !in vouchers {
        return;
      }
      var voucher := vouchers[voucherCode];
      if mac.value in devices {
        devices := devices[mac.value := devices[mac.value].(voucherCode := voucherCode, baselineIn := voucher.bytesIn, baselineOut := voucher.bytesOut)];
      } else {
        devices := devices[mac.value := Device(voucherCode, voucher.bytesIn, voucher.bytesOut)];
      }
    }

    method CheckLogin(calling: string, now: int) returns (r: Option<MacLogin>)
      ensures r == CheckMacLogin(Contents(), calling, now)
    {
      var mac := NormalizeMac(calling);
      if mac.None? || mac.value !in devices {
        return None;
      }
      var code := devices[mac.value].voucherCode;
      if code !in vouchers || vouchers[code].status != ACTIVE || !vouchers[code].hasPassword {
        return None;
      }
      var voucher := vouchers[code];
      var remainingSeconds: Option<int> := None;
      if voucher.expiresAt.Some? {
        remainingSeconds := Some((voucher.expiresAt.value - now) / 1000);
        if remainingSeconds.value < 60 {
          return None;
        }
      }
      var remainingBytes: Option<int> := None;
      if voucher.capMb != 0 {
        remainingBytes := Some(voucher.capMb * MB - (voucher.bytesIn + voucher.bytesOut));
        if remainingBytes.value <= 0 {
          return None;
        }
      }
      r := Some(MacLogin(code, remainingSeconds, remainingBytes));
    }

    method FindMacLogin(calling: string, now: int) returns (r: Option<MacLogin>)
      modifies this`devices
      ensures r == CheckMacLogin(old(Contents()), calling, now)
      ensures Contents() == MacLoggedIn(old(Contents()), calling, now)
    {
      r := CheckLogin(calling, now);
      if r.Some? {
        var mac, used := NormalizeMac(calling).value, vouchers[r.value.voucherCode];
        devices := devices[mac := devices[mac].(baselineIn := used.bytesIn, baselineOut := used.bytesOut)];
      }
    }

    /** An interim update or stop: the usage is recorded, and the session cut when it reaches the cap. */
    method HandleAccounting(username: string, calling: Option<string>, bytesIn: nat, bytesOut: nat) returns (disconnect: bool)
      modifies this`vouchers
      ensures var u := SessionUsage(old(Contents()), username, calling, bytesIn, bytesOut);
        && Contents() == Recorded(old(Contents()), u)
        && disconnect == DisconnectRequested(old(Contents()), u)
    {
      var usernameMac := NormalizeMac(username);
      var mac := if usernameMac.Some? then usernameMac else NormalizeSome(calling);
      var device := if mac.Some? && mac.value in devices then Some(devices[mac.value]) else None;
      var code := if usernameMac.Some? && device.Some? then device.value.voucherCode else username;
      var totalIn, totalOut := bytesIn, bytesOut;
      if device.Some? && device.value.voucherCode == code {
        totalIn, totalOut := device.value.baselineIn + bytesIn, device.value.baselineOut + bytesOut;
      }
      disconnect := false;
      if code in vouchers {
        var cap := CapRow(vouchers[code].replies);
        disconnect := cap.Some? && cap.value > 0 && totalIn + totalOut >= cap.value;
        vouchers := vouchers[code := vouchers[code].(bytesIn := totalIn, bytesOut := totalOut)];
      }
    }

    method HandleAccessRequest(sessions: seq<Session>, username: string, password: string, calling: Option<string>, now: int) returns (verdict: Verdict)
      modifies this
      ensures (Contents(), verdict) == AccessRequested(old(Contents()), sessions, username, password, calling, now)
    {
      hide Remembered, Busy, MacLoggedIn, CheckMacLogin;
      var valid := username in vouchers && vouchers[username].hasPassword && password == username;
      var macLogin: Option<MacLogin> := None;
      if valid && vouchers[username].status == UNUSED {
        var v := vouchers[username];
        vouchers := vouchers[username := v.(status := ACTIVE, activatedAt := Some(now), expiresAt := ExpiryOf(v, now))];
      }
      var usernameMac := NormalizeMac(username);
      if !valid && usernameMac.Some? && usernameMac == NormalizeSome(calling) {
        macLogin := FindMacLogin(usernameMac.value, now);
        valid := macLogin.Some?;
      }
      var voucherCode := if macLogin.Some? then macLogin.value.voucherCode else username;
      if valid && Busy(Store(vouchers, devices), sessions, voucherCode, calling) {
        valid := false;
      }
      if valid && macLogin.None? {
        RememberDevice(calling, username);
      }
      verdict := if valid then Accepted(voucherCode, macLogin) else Rejected;
    }

    /** The sweep takes at most 500 of the overdue vouchers, in no particular order. */
    method ExpireOverdueVouchers(now: int) returns (processed: nat, ghost page: set<string>)
      modifies this`vouchers
      ensures page <= OverdueCodes(old(Contents()), now)
      ensures Contents() == AllExpired(old(Contents()), page, now)
      ensures processed == |page|
      ensures processed == SWEEP_LIMIT || page == OverdueCodes(old(Contents()), now)
      ensures processed <= SWEEP_LIMIT
    {
      var overdue := set code | code in vouchers && Overdue(vouchers[code], now);
      processed, page := 0, {};
      assert AllExpired(Contents(), {}, now).vouchers == vouchers;
      while overdue != {} && processed < SWEEP_LIMIT
        invariant page !! overdue && page + overdue == OverdueCodes(old(Contents()), now)
        invariant Contents() == AllExpired(old(Contents()), page, now)
        invariant processed == |page| && processed <= SWEEP_LIMIT
        decreases overdue
      {
        var code :| code in overdue;
        OneMoreExpired(old(Contents()), page, code, now);
        hide AllExpired, OverdueCodes, Overdue;
        vouchers := vouchers[code := vouchers[code].(status := EXPIRED, hasPassword := false, replies := [])];
        overdue := overdue - {code};
        page := page + {code};
        processed := processed + 1;
      }
    }
  }
}
