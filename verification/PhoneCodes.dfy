/**
 Login codes sent to phones: the limits on how often they are sent, and the life of a code
 from being issued to being consumed.
 */
module PhoneCodes {
  import opened Options
  import opened Text
  import Timestamps

  datatype Status = Active | Consumed

  /** A row of the table of codes. A code is named by its position; times are in milliseconds. */
  datatype Code = Code(
    phone: string, ip: string, hash: string, expiresAt: string, createdAt: int,
    status: Status, attempts: nat)

  datatype Limits = Limits(resendSeconds: int, daily: int, hourly: int)

  const DAY := 86_400_000
  const HOUR := 3_600_000
  const MAX_ATTEMPTS := 5

  /**
   The inputs of a request, with the phone number normalised. The clock is read four times while
   a code is sent: by the three queries and by the insertion.
   */
  datatype Request =
    | Send(phone: string, ip: string, hash: string, expiresAt: string, t1: int, t2: int, t3: int, t4: int)
    | Login(phone: string, guess: string, now: string)

  datatype Event =
    | ResendLimited | DailyLimited | HourlyLimited | Issued(code: nat)
    | NoCode | TooManyAttempts(code: nat) | Expired(code: nat) | Wrong(code: nat) | LoggedIn(code: nat)

  function PhoneOf(c: Code): string { c.phone }

  function IpOf(c: Code): string { c.ip }

  /** How many codes of a phone or address were created after `since` and, if given, not after `until`. */
  function CodeCount(codes: seq<Code>, key: Code -> string, who: string, since: int, until: Option<int>): nat {
    if codes == [] then 0
    else
      var n := |codes| - 1;
      CodeCount(codes[..n], key, who, since, until) + if Counted(codes[n], key, who, since, until) then 1 else 0
  }

  predicate Counted(c: Code, key: Code -> string, who: string, since: int, until: Option<int>) {
    key(c) == who && since < c.createdAt && (until.Some? ==> c.createdAt <= until.value)
  }

  function SendStep(limits: Limits, codes: seq<Code>, r: Request): (seq<Code>, Event)
    requires r.Send?
  {
    if CodeCount(codes, PhoneOf, r.phone, r.t1 - limits.resendSeconds * 1000, None) > 0 then (codes, ResendLimited)
    else if CodeCount(codes, PhoneOf, r.phone, r.t2 - DAY, None) >= limits.daily then (codes, DailyLimited)
    else if CodeCount(codes, IpOf, r.ip, r.t3 - HOUR, None) >= limits.hourly then (codes, HourlyLimited)
    else (codes + [Code(r.phone, r.ip, r.hash, r.expiresAt, r.t4, Active, 0)], Issued(|codes|))
  }

  /** The active code of a phone that was created last. */
  function LatestActive(codes: seq<Code>, phone: string): (k: Option<nat>)
    ensures k.Some? ==> k.value < |codes| && codes[k.value].phone == phone && codes[k.value].status.Active?
    ensures k.Some? ==> forall i :: 0 <= i < |codes| && codes[i].phone == phone && codes[i].status.Active? ==>
      codes[i].createdAt <= codes[k.value].createdAt
    ensures k.None? ==> forall i :: 0 <= i < |codes| && codes[i].phone == phone ==> codes[i].status.Consumed?
  {
    if codes == [] then None
    else
      var n := |codes| - 1;
      var k := LatestActive(codes[..n], phone);
      if codes[n].phone == phone && codes[n].status.Active?
         && (k.None? || codes[k.value].createdAt <= codes[n].createdAt) then Some(n) else k
  }

  function LoginStep(codes: seq<Code>, r: Request): (seq<Code>, Event)
    requires r.Login?
  {
    var found := LatestActive(codes, r.phone);
    if found.None? then (codes, NoCode)
    else
      var k := found.value;
      var c := codes[k];
      if c.attempts >= MAX_ATTEMPTS then (codes, TooManyAttempts(k))
      else if !Leq(r.now, c.expiresAt) then (codes, Expired(k))
      else if c.hash != r.guess then (codes[k := c.(attempts := c.attempts + 1)], Wrong(k))
      else (codes[k := c.(status := Consumed)], LoggedIn(k))
  }

  function Step(limits: Limits, codes: seq<Code>, r: Request): (seq<Code>, Event) {
    if r.Send? then SendStep(limits, codes, r) else LoginStep(codes, r)
  }

  /** The table and the events after a sequence of requests, one after the other. */
  function Run(limits: Limits, requests: seq<Request>): (seq<Code>, seq<Event>) {
    if requests == [] then ([], [])
    else
      var n := |requests| - 1;
      var (codes, events) := Run(limits, requests[..n]);
      var (codes', event) := Step(limits, codes, requests[n]);
      (codes', events + [event])
  }

  // ---- the clock ----

  /** The latest clock reading of the sends in a sequence of requests, if any. */
  function LatestReading(requests: seq<Request>): Option<int> {
    if requests == [] then None
    else
      var r := requests[|requests| - 1];
      if r.Send? then Some(r.t4) else LatestReading(requests[..|requests| - 1])
  }

  /** The clock never goes back, neither within a request nor from one to the next. */
  ghost predicate Timed(requests: seq<Request>) {
    requests == [] ||
      var n := |requests| - 1;
      var r := requests[n];
      && Timed(requests[..n])
      && (r.Send? ==> r.t1 <= r.t2 <= r.t3 <= r.t4)
      && (r.Send? && LatestReading(requests[..n]).Some? ==> LatestReading(requests[..n]).value <= r.t1)
  }

  // ---- the limits ----

  ghost predicate Spaced(codes: seq<Code>, resendSeconds: int) {
    forall i, j :: 0 <= i < j < |codes| && codes[i].phone == codes[j].phone ==>
      codes[j].createdAt - codes[i].createdAt >= resendSeconds * 1000
  }

  /** The codes of a phone or address in the window of `length` after `start`, its start excluded. */
  function InWindow(codes: seq<Code>, key: Code -> string, who: string, start: int, length: int): nat {
    CodeCount(codes, key, who, start, Some(start + length))
  }

  /** No window of `length`, one end of it excluded, holds more than `limit` codes of anyone. */
  ghost predicate WindowLimit(codes: seq<Code>, key: Code -> string, length: int, limit: int) {
    forall who, start :: InWindow(codes, key, who, start, length) <= if limit > 0 then limit else 0
  }

  ghost predicate CreatedBy(codes: seq<Code>, time: Option<int>) {
    forall c :: c in codes ==> time.Some? && c.createdAt <= time.value
  }

  ghost predicate WithinLimits(limits: Limits, codes: seq<Code>) {
    && Spaced(codes, limits.resendSeconds)
    && WindowLimit(codes, PhoneOf, DAY, limits.daily)
    && WindowLimit(codes, IpOf, HOUR, limits.hourly)
  }

  lemma {:induction false} CountMonotone(
      codes: seq<Code>, key: Code -> string, who: string, s1: int, until: Option<int>, s2: int)
    requires s2 <= s1
    ensures CodeCount(codes, key, who, s1, until) <= CodeCount(codes, key, who, s2, None)
  {
    if codes != [] { CountMonotone(codes[..|codes| - 1], key, who, s1, until, s2); }
  }

  lemma CountOneMore(codes: seq<Code>, c: Code, key: Code -> string, who: string, since: int, until: Option<int>)
    ensures CodeCount(codes + [c], key, who, since, until) ==
      CodeCount(codes, key, who, since, until) + if Counted(c, key, who, since, until) then 1 else 0
  {
    assert (codes + [c])[..|codes|] == codes;
  }

  lemma {:induction false} NothingCounted(codes: seq<Code>, key: Code -> string, who: string, since: int)
    requires CodeCount(codes, key, who, since, None) == 0
    ensures forall c :: c in codes && key(c) == who ==> c.createdAt <= since
  {
    if codes != [] {
      var n := |codes| - 1;
      NothingCounted(codes[..n], key, who, since);
      assert codes == codes[..n] + [codes[n]];
    }
  }

  /** One code more, created when the window that ends with it had room, keeps a window limit. */
  lemma WindowLimitKept(codes: seq<Code>, c: Code, key: Code -> string, length: int, limit: int, since: int)
    requires WindowLimit(codes, key, length, limit)
    requires since <= c.createdAt - length && CodeCount(codes, key, key(c), since, None) < limit
    ensures WindowLimit(codes + [c], key, length, limit)
  {
    hide CodeCount;
    forall who, start
      ensures InWindow(codes + [c], key, who, start, length) <= if limit > 0 then limit else 0
    {
      assert InWindow(codes, key, who, start, length) <= if limit > 0 then limit else 0;
      CountOneMore(codes, c, key, who, start, Some(start + length));
      if Counted(c, key, who, start, Some(start + length)) {
        CountMonotone(codes, key, who, start, Some(start + length), since);
      }
    }
  }

  /** A code that passes the checks keeps all limits. */
  lemma SendKeepsLimits(limits: Limits, codes: seq<Code>, r: Request, before: Option<int>)
    requires r.Send? && r.t1 <= r.t2 <= r.t3 <= r.t4 && (before.Some? ==> before.value <= r.t1)
    requires CreatedBy(codes, before) && WithinLimits(limits, codes)
    ensures var codes' := SendStep(limits, codes, r).0; CreatedBy(codes', Some(r.t4)) && WithinLimits(limits, codes')
  {
    hide CodeCount, WindowLimit;
    var (codes', event) := SendStep(limits, codes, r);
    if event.Issued? {
      var c := codes'[|codes|];
      NothingCounted(codes, PhoneOf, r.phone, r.t1 - limits.resendSeconds * 1000);
      WindowLimitKept(codes, c, PhoneOf, DAY, limits.daily, r.t2 - DAY);
      WindowLimitKept(codes, c, IpOf, HOUR, limits.hourly, r.t3 - HOUR);
    }
  }

  /** The columns of a row that are written once, when the code is issued. */
  ghost predicate SameIssue(a: Code, b: Code) {
    a.phone == b.phone && a.ip == b.ip && a.createdAt == b.createdAt && a.hash == b.hash && a.expiresAt == b.expiresAt
  }

  /** Every row of `a` is still there in `b`, at its place, with the same issue. */
  ghost predicate KeepsRows(a: seq<Code>, b: seq<Code>) {
    |a| <= |b| && forall i :: 0 <= i < |a| ==> SameIssue(a[i], b[i])
  }

  lemma {:induction false} SameCounts(
      a: seq<Code>, b: seq<Code>, key: Code -> string, who: string, since: int, until: Option<int>)
    requires KeepsRows(a, b) && |a| == |b| && (key == PhoneOf || key == IpOf)
    ensures CodeCount(a, key, who, since, until) == CodeCount(b, key, who, since, until)
  {
    if a != [] { SameCounts(a[..|a| - 1], b[..|b| - 1], key, who, since, until); }
  }

  lemma SameWindows(a: seq<Code>, b: seq<Code>, key: Code -> string, length: int, limit: int)
    requires KeepsRows(a, b) && |a| == |b| && (key == PhoneOf || key == IpOf)
    requires WindowLimit(a, key, length, limit)
    ensures WindowLimit(b, key, length, limit)
  {
    hide CodeCount;
    forall who, start ensures InWindow(b, key, who, start, length) <= if limit > 0 then limit else 0 {
      SameCounts(a, b, key, who, start, Some(start + length));
      assert InWindow(a, key, who, start, length) <= if limit > 0 then limit else 0;
    }
  }

  lemma LoginKeepsRows(codes: seq<Code>, r: Request)
    requires r.Login?
    ensures var codes' := LoginStep(codes, r).0; KeepsRows(codes, codes') && |codes'| == |codes|
  {
  }

  lemma LoginKeepsLimits(limits: Limits, codes: seq<Code>, r: Request, before: Option<int>)
    requires r.Login? && CreatedBy(codes, before) && WithinLimits(limits, codes)
    ensures var codes' := LoginStep(codes, r).0; CreatedBy(codes', before) && WithinLimits(limits, codes')
  {
    hide LoginStep, WindowLimit;
    var codes' := LoginStep(codes, r).0;
    LoginKeepsRows(codes, r);
    SameWindows(codes, codes', PhoneOf, DAY, limits.daily);
    SameWindows(codes, codes', IpOf, HOUR, limits.hourly);
    forall i | 0 <= i < |codes'| ensures before.Some? && codes'[i].createdAt <= before.value {
      assert codes[i] in codes && SameIssue(codes[i], codes'[i]);
    }
    forall i, j | 0 <= i < j < |codes'| && codes'[i].phone == codes'[j].phone
      ensures codes'[j].createdAt - codes'[i].createdAt >= limits.resendSeconds * 1000
    {
      assert SameIssue(codes[i], codes'[i]) && SameIssue(codes[j], codes'[j]);
    }
  }

  /**
   Rate limits over every run: two codes of one phone are at least the resend interval apart, no
   24 hours hold more codes for a phone than the daily limit, and no hour holds more codes for
   an address than the hourly limit.
   */
  lemma {:induction false} RunKeepsLimits(limits: Limits, requests: seq<Request>)
    requires Timed(requests)
    ensures var codes := Run(limits, requests).0;
      CreatedBy(codes, LatestReading(requests)) && WithinLimits(limits, codes)
  {
    hide WithinLimits, SendStep, LoginStep;
    if requests == [] {
      EmptyKeepsLimits(limits);
    } else {
      var n := |requests| - 1;
      RunKeepsLimits(limits, requests[..n]);
      var codes, r, before := Run(limits, requests[..n]).0, requests[n], LatestReading(requests[..n]);
      if r.Send? { SendKeepsLimits(limits, codes, r, before); } else { LoginKeepsLimits(limits, codes, r, before); }
    }
  }

  lemma EmptyKeepsLimits(limits: Limits)
    ensures WithinLimits(limits, [])
  {
  }

  lemma {:induction false} NothingNewer(codes: seq<Code>, key: Code -> string, who: string, since: int)
    requires forall c :: c in codes && key(c) == who ==> c.createdAt <= since
    ensures CodeCount(codes, key, who, since, None) == 0
  {
    if codes != [] {
      var n := |codes| - 1;
      assert codes == codes[..n] + [codes[n]];
      NothingNewer(codes[..n], key, who, since);
    }
  }

  lemma {:induction false} CountUntilNow(codes: seq<Code>, key: Code -> string, who: string, since: int, now: int)
    requires CreatedBy(codes, Some(now))
    ensures CodeCount(codes, key, who, since, Some(now)) == CodeCount(codes, key, who, since, None)
  {
    if codes != [] {
      var n := |codes| - 1;
      assert codes == codes[..n] + [codes[n]];
      CountUntilNow(codes[..n], key, who, since, now);
    }
  }

  /** If one code more keeps a window limit, the window that ends now has room for it. */
  lemma RoomInWindow(codes: seq<Code>, c: Code, key: Code -> string, length: int, limit: int)
    requires CreatedBy(codes, Some(c.createdAt)) && length > 0 && WindowLimit(codes + [c], key, length, limit)
    ensures CodeCount(codes, key, key(c), c.createdAt - length, None) < limit
  {
    hide CodeCount;
    var start := c.createdAt - length;
    assert InWindow(codes + [c], key, key(c), start, length) <= if limit > 0 then limit else 0;
    CountOneMore(codes, c, key, key(c), start, Some(start + length));
    CountUntilNow(codes, key, key(c), start, c.createdAt);
  }

  lemma RoomAfterResend(codes: seq<Code>, c: Code, resendSeconds: int)
    requires Spaced(codes + [c], resendSeconds)
    ensures CodeCount(codes, PhoneOf, c.phone, c.createdAt - resendSeconds * 1000, None) == 0
  {
    forall x | x in codes && PhoneOf(x) == c.phone ensures x.createdAt <= c.createdAt - resendSeconds * 1000 {
      var i :| 0 <= i < |codes| && codes[i] == x;
      assert (codes + [c])[i] == x && (codes + [c])[|codes|] == c;
    }
    NothingNewer(codes, PhoneOf, c.phone, c.createdAt - resendSeconds * 1000);
  }

  /**
   The checks are exact. When the four readings of the clock agree, a code is sent if and only if
   the table keeps all limits with it: no request is refused that the limits would allow.
   */
  lemma SentIffWithinLimits(limits: Limits, codes: seq<Code>, r: Request)
    requires r.Send? && r.t1 == r.t2 == r.t3 == r.t4
    requires CreatedBy(codes, Some(r.t4)) && WithinLimits(limits, codes)
    ensures SendStep(limits, codes, r).1.Issued? <==>
      WithinLimits(limits, codes + [Code(r.phone, r.ip, r.hash, r.expiresAt, r.t4, Active, 0)])
  {
    hide CodeCount, WindowLimit;
    var c := Code(r.phone, r.ip, r.hash, r.expiresAt, r.t4, Active, 0);
    SendKeepsLimits(limits, codes, r, Some(r.t4));
    if WithinLimits(limits, codes + [c]) {
      RoomAfterResend(codes, c, limits.resendSeconds);
      RoomInWindow(codes, c, PhoneOf, DAY, limits.daily);
      RoomInWindow(codes, c, IpOf, HOUR, limits.hourly);
    }
  }

  // ---- windows with both ends ----

  /** The codes of a phone or address in the window of `length` from `start` on, both ends included. */
  function InClosedWindow(codes: seq<Code>, key: Code -> string, who: string, start: int, length: int): nat {
    CodeCount(codes, key, who, start - 1, Some(start + length))
  }

  /** The codes created at one instant. */
  function CountAt(codes: seq<Code>, key: Code -> string, who: string, time: int): nat {
    CodeCount(codes, key, who, time - 1, Some(time))
  }

  lemma {:induction false} ClosedWindowSplits(
      codes: seq<Code>, key: Code -> string, who: string, start: int, length: int)
    requires length >= 0
    ensures InClosedWindow(codes, key, who, start, length) ==
      CountAt(codes, key, who, start) + InWindow(codes, key, who, start, length)
  {
    if codes != [] { ClosedWindowSplits(codes[..|codes| - 1], key, who, start, length); }
  }

  lemma {:induction false} AtMostOneAt(codes: seq<Code>, phone: string, time: int, resendSeconds: int)
    requires Spaced(codes, resendSeconds) && resendSeconds > 0
    ensures CountAt(codes, PhoneOf, phone, time) <= 1
  {
    if codes != [] {
      var n := |codes| - 1;
      var front := codes[..n];
      AtMostOneAt(front, phone, time, resendSeconds);
      if Counted(codes[n], PhoneOf, phone, time - 1, Some(time)) {
        NoneAt(front, phone, time, codes[n], resendSeconds);
      }
    }
  }

  lemma {:induction false} NoneAt(codes: seq<Code>, phone: string, time: int, c: Code, resendSeconds: int)
    requires c.phone == phone && c.createdAt == time && resendSeconds > 0
    requires forall i :: 0 <= i < |codes| && codes[i].phone == phone ==>
      time - codes[i].createdAt >= resendSeconds * 1000
    ensures CountAt(codes, PhoneOf, phone, time) == 0
  {
    if codes != [] { NoneAt(codes[..|codes| - 1], phone, time, c, resendSeconds); }
  }

  lemma CountAtWithin(codes: seq<Code>, key: Code -> string, who: string, time: int, length: int)
    requires length >= 1
    ensures CountAt(codes, key, who, time) <= InWindow(codes, key, who, time - length, length)
  {
    CountInside(codes, key, who, time - 1, time, time - length);
  }

  lemma {:induction false} CountInside(codes: seq<Code>, key: Code -> string, who: string, s1: int, until: int, s2: int)
    requires s2 <= s1
    ensures CodeCount(codes, key, who, s1, Some(until)) <= CodeCount(codes, key, who, s2, Some(until))
  {
    if codes != [] { CountInside(codes[..|codes| - 1], key, who, s1, until, s2); }
  }

  /** `limit`, or nothing when it is negative. */
  function AtLeastZero(limit: int): nat { if limit > 0 then limit else 0 }

  /**
   Windows with both ends included, over every run: 24 of such hours hold at most one code more than
   the daily limit for a phone when there is a resend interval, and such an hour at most twice the
   hourly limit for an address.
   */
  lemma ClosedWindows(limits: Limits, requests: seq<Request>, who: string, start: int)
    requires Timed(requests)
    ensures var codes := Run(limits, requests).0;
      && (limits.resendSeconds > 0 ==> InClosedWindow(codes, PhoneOf, who, start, DAY) <= AtLeastZero(limits.daily) + 1)
      && InClosedWindow(codes, PhoneOf, who, start, DAY) <= 2 * AtLeastZero(limits.daily)
      && InClosedWindow(codes, IpOf, who, start, HOUR) <= 2 * AtLeastZero(limits.hourly)
  {
    hide Run, CodeCount;
    var codes := Run(limits, requests).0;
    RunKeepsLimits(limits, requests);
    ClosedWindowSplits(codes, PhoneOf, who, start, DAY);
    ClosedWindowSplits(codes, IpOf, who, start, HOUR);
    CountAtWithin(codes, PhoneOf, who, start, DAY);
    CountAtWithin(codes, IpOf, who, start, HOUR);
    if limits.resendSeconds > 0 { AtMostOneAt(codes, who, start, limits.resendSeconds); }
    assert InWindow(codes, PhoneOf, who, start, DAY) <= AtLeastZero(limits.daily);
    assert InWindow(codes, PhoneOf, who, start - DAY, DAY) <= AtLeastZero(limits.daily);
    assert InWindow(codes, IpOf, who, start, HOUR) <= AtLeastZero(limits.hourly);
    assert InWindow(codes, IpOf, who, start - HOUR, HOUR) <= AtLeastZero(limits.hourly);
  }

  // ---- the bounds are attained ----

  /** The row that a request would add. */
  function RowOf(r: Request): Code
    requires r.Send?
  {
    Code(r.phone, r.ip, r.hash, r.expiresAt, r.t4, Active, 0)
  }

  /** One reading of the clock for the whole request. */
  predicate AtOnce(r: Request) { r.Send? && r.t1 == r.t2 == r.t3 == r.t4 }

  ghost predicate AllAtOnce(requests: seq<Request>) {
    forall i :: 0 <= i < |requests| ==> AtOnce(requests[i])
  }

  ghost predicate Ascending(requests: seq<Request>)
    requires AllAtOnce(requests)
  {
    forall i, j :: 0 <= i < j < |requests| ==> requests[i].t1 <= requests[j].t1
  }

  /** The rows of a list of requests that are all sent. */
  ghost function RowsOf(requests: seq<Request>): (rows: seq<Code>)
    requires AllAtOnce(requests)
    ensures |rows| == |requests| && forall i :: 0 <= i < |rows| ==> rows[i] == RowOf(requests[i])
  {
    seq(|requests|, i requires 0 <= i < |requests| => RowOf(requests[i]))
  }

  ghost predicate Accepted(limits: Limits, rows: seq<Code>, r: Request) {
    && AtOnce(r)
    && CodeCount(rows, PhoneOf, r.phone, r.t1 - limits.resendSeconds * 1000, None) == 0
    && CodeCount(rows, PhoneOf, r.phone, r.t1 - DAY, None) < limits.daily
    && CodeCount(rows, IpOf, r.ip, r.t1 - HOUR, None) < limits.hourly
  }

  lemma AcceptedIsSent(limits: Limits, rows: seq<Code>, r: Request)
    requires Accepted(limits, rows, r)
    ensures SendStep(limits, rows, r).0 == rows + [RowOf(r)]
  {
    hide CodeCount;
  }

  lemma LatestIsLast(requests: seq<Request>)
    requires requests != [] && AllAtOnce(requests)
    ensures LatestReading(requests) == Some(requests[|requests| - 1].t1)
  {
  }

  /** If each request is accepted after those before it, all are sent. */
  lemma {:induction false} AllSent(limits: Limits, requests: seq<Request>)
    requires AllAtOnce(requests) && Ascending(requests)
    requires forall i :: 0 <= i < |requests| ==>
      AllAtOnce(requests[..i]) && Accepted(limits, RowsOf(requests[..i]), requests[i])
    ensures Timed(requests) && Run(limits, requests).0 == RowsOf(requests)
  {
    hide CodeCount, Accepted, SendStep;
    if requests != [] {
      var n := |requests| - 1;
      var front := requests[..n];
      forall i | 0 <= i < n ensures AllAtOnce(front[..i]) && Accepted(limits, RowsOf(front[..i]), front[i]) {
        assert front[..i] == requests[..i];
      }
      AllSent(limits, front);
      AcceptedIsSent(limits, RowsOf(front), requests[n]);
      assert RowsOf(requests) == RowsOf(front) + [RowOf(requests[n])];
      if n > 0 { LatestIsLast(front); }
    }
  }

  lemma {:induction false} CountFrom(
      codes: seq<Code>, key: Code -> string, who: string, since: int, until: Option<int>, n: nat)
    requires n <= |codes|
    requires forall i :: 0 <= i < n ==> !Counted(codes[i], key, who, since, until)
    ensures CodeCount(codes, key, who, since, until) <= |codes| - n
  {
    if |codes| > n {
      CountFrom(codes[..|codes| - 1], key, who, since, until, n);
    } else if codes != [] {
      CountFrom(codes[..n - 1], key, who, since, until, n - 1);
    }
  }

  lemma {:induction false} CountAll(codes: seq<Code>, key: Code -> string, who: string, since: int, until: Option<int>)
    requires forall c :: c in codes ==> Counted(c, key, who, since, until)
    ensures CodeCount(codes, key, who, since, until) == |codes|
  {
    if codes != [] {
      var n := |codes| - 1;
      assert codes == codes[..n] + [codes[n]];
      CountAll(codes[..n], key, who, since, until);
    }
  }

  /** `2 * h` phones ask from one address, the first `h` at once, the others an hour later. */
  function TwoBursts(h: nat, phones: seq<string>, ip: string, hash: string, text: string): seq<Request>
    requires |phones| == 2 * h
  {
    seq(2 * h, i requires 0 <= i < 2 * h =>
      var t := if i < h then 0 else HOUR; Send(phones[i], ip, hash, text, t, t, t, t))
  }

  /** Twice the hourly limit is attained, for every limit. */
  lemma TwiceTheHourlyLimit(limits: Limits, phones: seq<string>, ip: string, hash: string, text: string)
    requires limits.hourly > 0 && limits.daily > 0 && |phones| == 2 * limits.hourly
    requires forall i, j :: 0 <= i < j < |phones| ==> phones[i] != phones[j]
    ensures var requests := TwoBursts(limits.hourly, phones, ip, hash, text);
      Timed(requests) && InClosedWindow(Run(limits, requests).0, IpOf, ip, 0, HOUR) == 2 * limits.hourly
  {
    hide CodeCount, Run, Timed;
    var h := limits.hourly;
    var requests := TwoBursts(h, phones, ip, hash, text);
    forall i | 0 <= i < |requests|
      ensures AllAtOnce(requests[..i]) && Accepted(limits, RowsOf(requests[..i]), requests[i])
    {
      var rows := RowsOf(requests[..i]);
      CountFrom(rows, PhoneOf, phones[i], requests[i].t1 - limits.resendSeconds * 1000, None, i);
      CountFrom(rows, PhoneOf, phones[i], requests[i].t1 - DAY, None, i);
      CountFrom(rows, IpOf, ip, requests[i].t1 - HOUR, None, if i < h then 0 else h);
    }
    AllSent(limits, requests);
    CountAll(RowsOf(requests), IpOf, ip, -1, Some(HOUR));
  }

  /** When a phone asks that does so `d` times a step apart, and once more a day after the first time. */
  function SteadyTime(i: nat, d: nat, step: nat): nat { if i < d then i * step else DAY }

  /** Each time from another address. */
  function SteadyRequests(d: nat, step: nat, phone: string, hash: string, text: string): seq<Request> {
    var ips := Texts(d + 1);
    seq(d + 1, i requires 0 <= i < d + 1 =>
      var t := SteadyTime(i, d, step); Send(phone, ips[i], hash, text, t, t, t, t))
  }

  lemma StepsApart(i: nat, j: nat, d: nat, step: nat)
    requires i < j <= d && d * step <= DAY
    ensures SteadyTime(i, d, step) + step <= SteadyTime(j, d, step)
  {
    assert i * step + step == (i + 1) * step;
    assert (i + 1) * step <= j * step;
    assert j * step <= d * step;
  }

  lemma WithinTheDay(i: nat, d: nat, step: nat)
    requires i <= d && d * step <= DAY
    ensures SteadyTime(i, d, step) <= DAY && SteadyTime(0, d, step) == if d > 0 then 0 else DAY
  {
    if i < d { StepsApart(i, d, d, step); }
  }

  /** The request at `i` is accepted: each earlier one is a step back, and the last one is a day after the first. */
  lemma SteadyIsAccepted(limits: Limits, rows: seq<Code>, d: nat, step: nat, i: nat, phone: string, r: Request)
    requires limits.daily == d > 0 && limits.hourly > 0 && step >= limits.resendSeconds * 1000 && d * step <= DAY
    requires i <= d && |rows| == i && AtOnce(r) && r.phone == phone && r.t1 == SteadyTime(i, d, step)
    requires forall j :: 0 <= j < i ==>
      rows[j].phone == phone && rows[j].createdAt == SteadyTime(j, d, step) && rows[j].ip != r.ip
    ensures Accepted(limits, rows, r)
  {
    hide CodeCount, SteadyTime;
    forall j | 0 <= j < i ensures rows[j].createdAt + step <= r.t1 { StepsApart(j, i, d, step); }
    CountFrom(rows, PhoneOf, phone, r.t1 - limits.resendSeconds * 1000, None, i);
    WithinTheDay(i, d, step);
    SteadyEnd(d, step);
    CountFrom(rows, PhoneOf, phone, r.t1 - DAY, None, if i < d then 0 else 1);
    CountFrom(rows, IpOf, r.ip, r.t1 - HOUR, None, i);
  }

  lemma SteadyEnd(d: nat, step: nat)
    requires d > 0
    ensures SteadyTime(0, d, step) == 0 && SteadyTime(d, d, step) == DAY
  {
  }

  /** As many different texts as are wanted. */
  function Texts(n: nat): (texts: seq<string>)
    ensures |texts| == n && forall i, j :: 0 <= i < j < n ==> texts[i] != texts[j]
  {
    seq(n, i requires 0 <= i < n => seq(i, _ => 'x'))
  }

  /** The pause between two codes of a phone. */
  function Pause(limits: Limits): nat { if limits.resendSeconds > 0 then limits.resendSeconds * 1000 else 0 }

  /** One code more than the daily limit is attained, for every limit whose codes fit into a day. */
  lemma OneMoreThanTheDailyLimit(limits: Limits, phone: string, hash: string, text: string)
    requires limits.daily > 0 && limits.hourly > 0 && limits.daily * Pause(limits) <= DAY
    ensures var requests := SteadyRequests(limits.daily, Pause(limits), phone, hash, text);
      Timed(requests) && InClosedWindow(Run(limits, requests).0, PhoneOf, phone, 0, DAY) == limits.daily + 1
  {
    hide CodeCount, SteadyTime, Run, Timed, Accepted, Texts;
    var d, step := limits.daily, Pause(limits);
    var requests := SteadyRequests(d, step, phone, hash, text);
    forall i, j | 0 <= i < j < |requests| ensures requests[i].t1 <= requests[j].t1 { StepsApart(i, j, d, step); }
    forall i | 0 <= i < |requests|
      ensures AllAtOnce(requests[..i]) && Accepted(limits, RowsOf(requests[..i]), requests[i])
    {
      SteadyIsAccepted(limits, RowsOf(requests[..i]), d, step, i, phone, requests[i]);
    }
    AllSent(limits, requests);
    forall c | c in RowsOf(requests) ensures Counted(c, PhoneOf, phone, -1, Some(DAY)) {
      var i :| 0 <= i < |requests| && RowsOf(requests)[i] == c;
      WithinTheDay(i, d, step);
    }
    CountAll(RowsOf(requests), PhoneOf, phone, -1, Some(DAY));
  }

  // ---- when closed windows keep the limits ----

  /** Every code lies in the window that ends with it. */
  lemma InItsWindow(codes: seq<Code>, key: Code -> string, length: int)
    requires length > 0
    ensures codes != [] ==> exists who, start :: InWindow(codes, key, who, start, length) > 0
  {
    if codes != [] {
      var n := |codes| - 1;
      var c := codes[n];
      CountOneMore(codes[..n], c, key, key(c), c.createdAt - length, Some(c.createdAt));
      assert codes == codes[..n] + [c];
      assert InWindow(codes, key, key(c), c.createdAt - length, length) > 0;
    }
  }

  /** Without a positive limit nothing is ever sent. */
  lemma NothingIsSent(limits: Limits, requests: seq<Request>)
    requires Timed(requests) && (limits.daily <= 0 || limits.hourly <= 0)
    ensures Run(limits, requests).0 == []
  {
    hide Run, CodeCount;
    var codes := Run(limits, requests).0;
    RunKeepsLimits(limits, requests);
    if limits.daily <= 0 {
      InItsWindow(codes, PhoneOf, DAY);
    } else {
      InItsWindow(codes, IpOf, HOUR);
    }
  }

  /** The `n`-th code of a phone from `start` on comes at least `n - 1` pauses after `start`. */
  lemma {:induction false} SpacedCount(
      codes: seq<Code>, phone: string, start: int, length: nat, resendSeconds: nat) returns (i: nat)
    requires Spaced(codes, resendSeconds)
    ensures var n := InClosedWindow(codes, PhoneOf, phone, start, length);
      n > 0 ==>
        && i < |codes| && Counted(codes[i], PhoneOf, phone, start - 1, Some(start + length))
        && codes[i].createdAt >= start + (n - 1) * (resendSeconds * 1000)
  {
    i := 0;
    if codes != [] {
      var last := |codes| - 1;
      var front := codes[..last];
      var k := SpacedCount(front, phone, start, length, resendSeconds);
      if Counted(codes[last], PhoneOf, phone, start - 1, Some(start + length)) {
        var m := InClosedWindow(front, PhoneOf, phone, start, length);
        i := last;
        if m > 0 {
          assert front[k] == codes[k];
          OneMorePause(m, resendSeconds * 1000);
        }
      } else {
        i := k;
      }
    }
  }

  lemma OneMorePause(m: nat, step: nat)
    requires m > 0
    ensures (m - 1) * step + step == m * step
  {
  }

  /** More codes than the limit do not fit into a day whose pauses are too long for it. */
  lemma PausesKeepTheLimit(codes: seq<Code>, phone: string, start: int, limits: Limits)
    requires Spaced(codes, limits.resendSeconds) && limits.daily > 0 && limits.daily * Pause(limits) > DAY
    ensures InClosedWindow(codes, PhoneOf, phone, start, DAY) <= limits.daily
  {
    hide CodeCount;
    var n, step := InClosedWindow(codes, PhoneOf, phone, start, DAY), Pause(limits);
    PauseIsPositive(limits);
    var i := SpacedCount(codes, phone, start, DAY, limits.resendSeconds);
    if n > 0 { FewPauses(n - 1, limits.daily, step); }
  }

  lemma PauseIsPositive(limits: Limits)
    requires limits.daily > 0 && limits.daily * Pause(limits) > DAY
    ensures limits.resendSeconds > 0
  {
    assert Pause(limits) == 0 ==> limits.daily * Pause(limits) == 0;
  }

  lemma PauseProduct(limits: Limits)
    ensures limits.daily > 0 ==>
      (limits.daily * Pause(limits) > DAY <==> limits.daily * (limits.resendSeconds * 1000) > DAY)
  {
    if limits.daily > 0 && limits.resendSeconds <= 0 {
      assert limits.daily * Pause(limits) == 0;
      assert limits.daily * (limits.resendSeconds * 1000) <= 0;
    }
  }

  lemma FewPauses(n: nat, d: nat, step: nat)
    requires d * step > DAY
    ensures n * step <= DAY ==> n < d
  {
    if n >= d { assert n * step >= d * step; }
  }

  ghost predicate DayKept(limits: Limits, requests: seq<Request>) {
    forall phone, start ::
      InClosedWindow(Run(limits, requests).0, PhoneOf, phone, start, DAY) <= AtLeastZero(limits.daily)
  }

  ghost predicate HourKept(limits: Limits, requests: seq<Request>) {
    forall ip, start :: InClosedWindow(Run(limits, requests).0, IpOf, ip, start, HOUR) <= AtLeastZero(limits.hourly)
  }

  /**
   The exact condition for a phone. Over all runs, 24 hours with both ends hold at most the daily
   limit iff nothing can be sent at all, or the pauses between so many codes fill more than a day.
   */
  lemma ClosedDaysKeepTheLimitIff(limits: Limits)
    ensures (forall requests :: Timed(requests) ==> DayKept(limits, requests)) <==>
      limits.daily <= 0 || limits.hourly <= 0 || limits.daily * (limits.resendSeconds * 1000) > DAY
  {
    hide Run, CodeCount, Timed, Pause;
    PauseProduct(limits);
    if limits.daily <= 0 || limits.hourly <= 0 || limits.daily * Pause(limits) > DAY {
      forall requests | Timed(requests) ensures DayKept(limits, requests) {
        var codes := Run(limits, requests).0;
        forall phone, start ensures InClosedWindow(codes, PhoneOf, phone, start, DAY) <= AtLeastZero(limits.daily) {
          if limits.daily <= 0 || limits.hourly <= 0 {
            NothingIsSent(limits, requests);
            CountFrom([], PhoneOf, phone, start - 1, Some(start + DAY), 0);
          } else {
            RunKeepsLimits(limits, requests);
            PausesKeepTheLimit(codes, phone, start, limits);
          }
        }
      }
    } else {
      OneMoreThanTheDailyLimit(limits, "", "", "");
      var requests := SteadyRequests(limits.daily, Pause(limits), "", "", "");
      assert Timed(requests) && !DayKept(limits, requests);
    }
  }

  /**
   The exact condition for an address. Over all runs, an hour with both ends holds at most the
   hourly limit iff nothing can be sent at all.
   */
  lemma ClosedHoursKeepTheLimitIff(limits: Limits)
    ensures (forall requests :: Timed(requests) ==> HourKept(limits, requests)) <==>
      limits.hourly <= 0 || limits.daily <= 0
  {
    hide Run, CodeCount, Timed;
    if limits.hourly <= 0 || limits.daily <= 0 {
      forall requests | Timed(requests) ensures HourKept(limits, requests) {
        NothingIsSent(limits, requests);
        forall ip, start ensures InClosedWindow([], IpOf, ip, start, HOUR) == 0 {
          CountFrom([], IpOf, ip, start - 1, Some(start + HOUR), 0);
        }
      }
    } else {
      var phones := Texts(2 * limits.hourly);
      TwiceTheHourlyLimit(limits, phones, "", "", "");
      var requests := TwoBursts(limits.hourly, phones, "", "", "");
      assert Timed(requests) && !HourKept(limits, requests);
    }
  }

  // ---- the life of a code ----

  /** How often a code occurs among the events of one kind. */
  function Logins(events: seq<Event>, k: nat): nat {
    if events == [] then 0
    else Logins(events[..|events| - 1], k) + if events[|events| - 1] == LoggedIn(k) then 1 else 0
  }

  function Misses(events: seq<Event>, k: nat): nat {
    if events == [] then 0
    else Misses(events[..|events| - 1], k) + if events[|events| - 1] == Wrong(k) then 1 else 0
  }

  /** The table is the record of the events: consumed means logged in once, attempts are the wrong guesses. */
  ghost predicate Records(codes: seq<Code>, events: seq<Event>) {
    && (forall k: nat :: k < |codes| ==>
          && Logins(events, k) == (if codes[k].status.Consumed? then 1 else 0)
          && Misses(events, k) == codes[k].attempts <= MAX_ATTEMPTS)
    && (forall k: nat :: k >= |codes| ==> Logins(events, k) == 0 && Misses(events, k) == 0)
  }

  lemma EventOneMore(events: seq<Event>, e: Event, k: nat)
    ensures Logins(events + [e], k) == Logins(events, k) + if e == LoggedIn(k) then 1 else 0
    ensures Misses(events + [e], k) == Misses(events, k) + if e == Wrong(k) then 1 else 0
  {
    assert (events + [e])[..|events|] == events;
  }

  lemma StepRecords(limits: Limits, codes: seq<Code>, events: seq<Event>, r: Request)
    requires Records(codes, events)
    ensures var (codes', e) := Step(limits, codes, r); Records(codes', events + [e])
  {
    hide CodeCount, Leq, Logins, Misses;
    var (codes', e) := Step(limits, codes, r);
    forall k: nat
      ensures Logins(events + [e], k) == Logins(events, k) + if e == LoggedIn(k) then 1 else 0
      ensures Misses(events + [e], k) == Misses(events, k) + if e == Wrong(k) then 1 else 0
    {
      EventOneMore(events, e, k);
    }
  }

  /** In every run a code logs in at most once and is guessed wrongly at most five times. */
  lemma {:induction false} CodesAreUsedOnce(limits: Limits, requests: seq<Request>)
    ensures var (codes, events) := Run(limits, requests);
      Records(codes, events) && forall k: nat :: Logins(events, k) <= 1 && Misses(events, k) <= 5
  {
    hide Step, Logins, Misses;
    if requests == [] {
      assert Records([], []) by { forall k: nat ensures Logins([], k) == 0 && Misses([], k) == 0 { NoEvents(k); } }
    } else {
      var n := |requests| - 1;
      CodesAreUsedOnce(limits, requests[..n]);
      var (codes, events) := Run(limits, requests[..n]);
      StepRecords(limits, codes, events, requests[n]);
    }
  }

  lemma NoEvents(k: nat)
    ensures Logins([], k) == 0 && Misses([], k) == 0
  {
  }

  /** No request removes a row or changes what was issued; a consumed code stays consumed. */
  lemma StepKeepsRows(limits: Limits, codes: seq<Code>, r: Request)
    ensures var codes' := Step(limits, codes, r).0;
      && KeepsRows(codes, codes')
      && forall k :: 0 <= k < |codes| ==>
        codes[k].attempts <= codes'[k].attempts && (codes[k].status.Consumed? ==> codes'[k] == codes[k])
  {
    hide CodeCount, Leq;
  }

  /** The text is that of an instant in a year of four digits, as all are that the server prints. */
  ghost predicate Shows(instant: int, text: string) {
    instant >= Timestamps.YEAR_1000 && Timestamps.NsToDt64(instant) == Some(text)
  }

  /**
   A login succeeds only with the text of the newest active code of that phone, before its
   expiry; and the comparison of texts decides expiry as the instants do, to the millisecond.
   */
  lemma LoginNeedsTheNewestCode(limits: Limits, codes: seq<Code>, r: Request, expiry: int, now: int)
    requires r.Login? && Step(limits, codes, r).1.LoggedIn?
    ensures var k := Step(limits, codes, r).1.code;
      && k < |codes| && codes[k].phone == r.phone && codes[k].status.Active? && codes[k].hash == r.guess
      && (forall i :: 0 <= i < |codes| && codes[i].phone == r.phone && codes[i].createdAt > codes[k].createdAt ==>
            codes[i].status.Consumed?)
      && (Shows(expiry, codes[k].expiresAt) && Shows(now, r.now) ==>
            Timestamps.Millis(now) <= Timestamps.Millis(expiry))
  {
    hide Leq, Timestamps.NsToDt64, Timestamps.Millis;
    var k := Step(limits, codes, r).1.code;
    if Shows(expiry, codes[k].expiresAt) && Shows(now, r.now) {
      Timestamps.TextOrder(now, expiry);
    }
  }

  // ---- the table as an object ----

  class CodeTable {
    const limits: Limits
    var codes: seq<Code>

    constructor (limits: Limits)
      ensures this.limits == limits && codes == []
    {
      this.limits, codes := limits, [];
    }

    /** `request_phone_code`, up to the sending of the message. */
    method RequestPhoneCode(r: Request) returns (e: Event)
      requires r.Send?
      modifies this
      ensures (codes, e) == SendStep(limits, old(codes), r)
    {
      hide CodeCount;
      if CodeCount(codes, PhoneOf, r.phone, r.t1 - limits.resendSeconds * 1000, None) > 0 {
        return ResendLimited;
      }
      if CodeCount(codes, PhoneOf, r.phone, r.t2 - DAY, None) >= limits.daily {
        return DailyLimited;
      }
      if CodeCount(codes, IpOf, r.ip, r.t3 - HOUR, None) >= limits.hourly {
        return HourlyLimited;
      }
      e := Issued(|codes|);
      codes := codes + [Code(r.phone, r.ip, r.hash, r.expiresAt, r.t4, Active, 0)];
    }

    /** `login_with_phone_code`, up to the lookup of the user. */
    method LoginWithPhoneCode(r: Request) returns (e: Event)
      requires r.Login?
      modifies this
      ensures (codes, e) == LoginStep(old(codes), r)
    {
      hide Leq;
      var found := LatestActive(codes, r.phone);
      if found.None? {
        return NoCode;
      }
      var k := found.value;
      var row := codes[k];
      if row.attempts >= MAX_ATTEMPTS {
        return TooManyAttempts(k);
      }
      if !Leq(r.now, row.expiresAt) {
        return Expired(k);
      }
      if row.hash != r.guess {
        codes := codes[k := row.(attempts := row.attempts + 1)];
        return Wrong(k);
      }
      codes := codes[k := row.(status := Consumed)];
      e := LoggedIn(k);
    }
  }
}
