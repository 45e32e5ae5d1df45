/**
 Which answer each request for a code and each login gets, and what becomes of the table, told
 from the rows alone.
 */
module CodeOutcomes {
  import opened Options
  import opened Text
  import Timestamps
  import opened PhoneCodes

  // ---- sending ----

  /** The codes of a phone created after an instant, by their positions. */
  function SentTo(codes: seq<Code>, phone: string, since: int): set<nat> {
    set i: nat | i < |codes| && codes[i].phone == phone && codes[i].createdAt > since
  }

  /** The codes asked for from an address after an instant. */
  function SentFrom(codes: seq<Code>, ip: string, since: int): set<nat> {
    set i: nat | i < |codes| && codes[i].ip == ip && codes[i].createdAt > since
  }

  function Since(codes: seq<Code>, key: Code -> string, who: string, since: int): set<nat> {
    set i: nat | i < |codes| && key(codes[i]) == who && codes[i].createdAt > since
  }

  lemma {:induction false} CountIsSize(codes: seq<Code>, key: Code -> string, who: string, since: int)
    ensures CodeCount(codes, key, who, since, None) == |Since(codes, key, who, since)|
  {
    if codes != [] {
      var n := |codes| - 1;
      CountIsSize(codes[..n], key, who, since);
      var front := Since(codes[..n], key, who, since);
      var last := if Counted(codes[n], key, who, since, None) then {n} else {};
      assert Since(codes, key, who, since) == front + last && n !in front;
    }
  }

  /**
   Sending: refused within the resend interval of a code of that phone, then when the phone got the
   daily limit in 24 hours, then when the address asked for the hourly limit in an hour; otherwise
   the new code is the last row, active and without a wrong guess. Nothing else changes.
   */
  lemma SendIs(limits: Limits, codes: seq<Code>, r: Request)
    requires r.Send?
    ensures var (codes', e) := Step(limits, codes, r);
      var recent := SentTo(codes, r.phone, r.t1 - limits.resendSeconds * 1000) != {};
      var day := |SentTo(codes, r.phone, r.t2 - 86_400_000)|;
      var hour := |SentFrom(codes, r.ip, r.t3 - 3_600_000)|;
      && (e == ResendLimited <==> recent)
      && (e == DailyLimited <==> !recent && day >= limits.daily)
      && (e == HourlyLimited <==> !recent && day < limits.daily && hour >= limits.hourly)
      && (e == Issued(|codes|) <==> !recent && day < limits.daily && hour < limits.hourly)
      && codes' == codes +
        if e == Issued(|codes|) then [Code(r.phone, r.ip, r.hash, r.expiresAt, r.t4, Active, 0)] else []
  {
    hide CodeCount;
    CountIsSize(codes, PhoneOf, r.phone, r.t1 - limits.resendSeconds * 1000);
    CountIsSize(codes, PhoneOf, r.phone, r.t2 - DAY);
    CountIsSize(codes, IpOf, r.ip, r.t3 - HOUR);
    forall phone, since ensures Since(codes, PhoneOf, phone, since) == SentTo(codes, phone, since) {}
    forall ip, since ensures Since(codes, IpOf, ip, since) == SentFrom(codes, ip, since) {}
    assert codes + [] == codes;
  }

  // ---- logging in ----

  /** The active code of the phone created last; of those created together, the one inserted last. */
  ghost predicate IsNewest(codes: seq<Code>, phone: string, k: nat) {
    && k < |codes| && codes[k].phone == phone && codes[k].status == Active
    && forall i: nat :: i < |codes| && i != k && codes[i].phone == phone && codes[i].status == Active ==>
      codes[i].createdAt < codes[k].createdAt || (codes[i].createdAt == codes[k].createdAt && i < k)
  }

  lemma {:induction false} LatestIsNewest(codes: seq<Code>, phone: string)
    ensures var k := LatestActive(codes, phone);
      if k.Some? then IsNewest(codes, phone, k.value)
      else forall i :: 0 <= i < |codes| ==> !(codes[i].phone == phone && codes[i].status == Active)
  {
    if codes != [] {
      var n := |codes| - 1;
      LatestIsNewest(codes[..n], phone);
    }
  }

  /**
   Logging in. Without an active code of the phone there is none to try. Otherwise the newest one
   decides: with five wrong guesses it is not tried any more; past its expiry, to the millisecond,
   it is refused; another text is one more wrong guess; and the right one logs in and consumes it.
   */
  lemma LoginIs(limits: Limits, codes: seq<Code>, r: Request, k: nat, expiry: int, now: int)
    requires r.Login? && IsNewest(codes, r.phone, k)
    requires Shows(expiry, codes[k].expiresAt) && Shows(now, r.now)
    ensures var (codes', e) := Step(limits, codes, r); var c := codes[k];
      var late := Timestamps.Millis(now) > Timestamps.Millis(expiry);
      && (e == TooManyAttempts(k) <==> c.attempts >= 5)
      && (e == Expired(k) <==> c.attempts < 5 && late)
      && (e == Wrong(k) <==> c.attempts < 5 && !late && c.hash != r.guess)
      && (e == LoggedIn(k) <==> c.attempts < 5 && !late && c.hash == r.guess)
      && (e == Wrong(k) ==> codes' == codes[k := c.(attempts := c.attempts + 1)])
      && (e == LoggedIn(k) ==> codes' == codes[k := c.(status := Consumed)])
      && (e != Wrong(k) && e != LoggedIn(k) ==> codes' == codes)
  {
    hide Leq, Timestamps.NsToDt64, Timestamps.Millis;
    LatestIsNewest(codes, r.phone);
    assert LatestActive(codes, r.phone) == Some(k);
    Timestamps.TextOrder(now, expiry);
  }

  lemma NoCodeIff(limits: Limits, codes: seq<Code>, r: Request)
    requires r.Login?
    ensures var (codes', e) := Step(limits, codes, r);
      && (e == NoCode <==> forall k: nat :: !IsNewest(codes, r.phone, k))
      && (e == NoCode ==> codes' == codes)
      && (e == NoCode <==> forall c :: c in codes && c.phone == r.phone ==> c.status == Consumed)
  {
    hide Leq;
    LatestIsNewest(codes, r.phone);
  }
}
