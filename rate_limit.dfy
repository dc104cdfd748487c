/** src/rate_limit.rs: a per-client save counter in Workers KV. The store is
    a map from key to text; its expiry after `WINDOW_SECONDS` is not part of
    this model. */
module RateLimit {
  import opened Wrappers
  import opened Strings

  const MAX_REQUESTS: nat := 60
  const WINDOW_SECONDS: nat := 3600
  /** `u32` arithmetic wraps modulo 2^32 in a release build. */
  const U32_MODULUS: nat := 0x1_0000_0000

  /** `is_rate_limited`: the limit is reached at `MAX_REQUESTS`. */
  predicate IsRateLimited(count: nat)
  {
    count >= MAX_REQUESTS
  }

  /** The values the source's unit tests check. */
  lemma RateLimitedExamples()
    ensures !IsRateLimited(0) && !IsRateLimited(59)
    ensures IsRateLimited(60) && IsRateLimited(61) && IsRateLimited(100) && IsRateLimited(U32_MAX)
    ensures MAX_REQUESTS == 60 && WINDOW_SECONDS == 3600
  {
  }

  /** The KV namespace `RATE_LIMIT`. */
  type Kv = map<string, string>

  /** `format!("rate:{}", ip)`. */
  function Key(ip: string): (k: string)
  {
    "rate:" + ip
  }

  /** Distinct clients have distinct counters. */
  lemma KeyInjective(ip: string, ip': string)
    requires Key(ip) == Key(ip')
    ensures ip == ip'
  {
    assert ip == Key(ip)[5..];
  }

  /** `get_count`: the stored text read as a `u32`; a missing key or a value
      that does not parse counts as 0. */
  function GetCount(kv: Kv, key: string): (c: nat)
    ensures c <= U32_MAX
    ensures key !in kv ==> c == 0
  {
    if key in kv then
      match ParseU32(kv[key])
      case Some(n) => n
      case None => 0
    else 0
  }

  /** A count the store itself wrote reads back as that count. */
  lemma GetCountOfStored(kv: Kv, key: string, n: nat)
    requires n <= U32_MAX
    ensures GetCount(kv[key := Decimal(n)], key) == n
  {
    DecimalRoundTrip(n);
  }

  /** `check_rate_limit`. */
  predicate CheckRateLimit(kv: Kv, ip: string)
  {
    IsRateLimited(GetCount(kv, Key(ip)))
  }

  /** `count + 1` on a `u32` in a release build: it wraps to 0 past `u32::MAX`. */
  function NextCount(count: nat): (next: nat)
    requires count <= U32_MAX
    ensures next <= U32_MAX
    ensures count < U32_MAX ==> next == count + 1
    ensures count == U32_MAX ==> next == 0
  {
    (count + 1) % U32_MODULUS
  }

  /** The store after `increment_rate_limit(ip)`. */
  function Incremented(kv: Kv, ip: string): (r: Kv)
    ensures Key(ip) in r && r.Keys == kv.Keys + {Key(ip)}
    ensures GetCount(r, Key(ip)) == NextCount(GetCount(kv, Key(ip)))
    ensures forall k :: k in kv && k != Key(ip) ==> r[k] == kv[k]
  {
    var key := Key(ip);
    var n := NextCount(GetCount(kv, key));
    GetCountOfStored(kv, key, n);
    kv[key := Decimal(n)]
  }

  /** The store after `n` increments for one client. */
  function IncrementedTimes(kv: Kv, ip: string, n: nat): Kv
    decreases n
  {
    if n == 0 then kv else IncrementedTimes(Incremented(kv, ip), ip, n - 1)
  }

  lemma IncrementStep(kv: Kv, ip: string, c: nat)
    requires GetCount(kv, Key(ip)) == c < U32_MAX
    ensures GetCount(Incremented(kv, ip), Key(ip)) == c + 1
  {
  }

  /** Below `u32::MAX`, `n` increments raise the count by `n`. */
  lemma {:induction false} CountAfterIncrements(kv: Kv, ip: string, c: nat, n: nat)
    requires GetCount(kv, Key(ip)) == c && c + n <= U32_MAX
    ensures GetCount(IncrementedTimes(kv, ip, n), Key(ip)) == c + n
    decreases n
  {
    if n > 0 {
      var next := Incremented(kv, ip);
      IncrementStep(kv, ip, c);
      CountAfterIncrements(next, ip, c + 1, n - 1);
      assert IncrementedTimes(kv, ip, n) == IncrementedTimes(next, ip, n - 1);
    }
  }

  /** A client with no counter may save 60 times; the 61st save is refused. */
  lemma SixtySavesPerWindow(kv: Kv, ip: string)
    requires GetCount(kv, Key(ip)) == 0
    ensures !CheckRateLimit(IncrementedTimes(kv, ip, 59), ip)
    ensures CheckRateLimit(IncrementedTimes(kv, ip, 60), ip)
  {
    CountAfterIncrements(kv, ip, 0, 59);
    CountAfterIncrements(kv, ip, 0, 60);
  }

  /** An increment leaves every other key's count as it was. */
  lemma IncrementKeepsOtherKey(kv: Kv, ip: string, key: string)
    requires key != Key(ip)
    ensures GetCount(Incremented(kv, ip), key) == GetCount(kv, key)
  {
    var r := Incremented(kv, ip);
    assert key in r <==> key in kv;
    if key in kv {
      assert r[key] == kv[key];
    }
  }

  lemma {:induction false} IncrementsKeepOtherKey(kv: Kv, ip: string, key: string, n: nat)
    requires key != Key(ip)
    ensures GetCount(IncrementedTimes(kv, ip, n), key) == GetCount(kv, key)
    decreases n
  {
    if n > 0 {
      IncrementKeepsOtherKey(kv, ip, key);
      IncrementsKeepOtherKey(Incremented(kv, ip), ip, key, n - 1);
    }
  }

  /** Increments for one client do not touch another client's counter. */
  lemma OtherClientsUnaffected(kv: Kv, ip: string, other: string, n: nat)
    requires ip != other
    ensures GetCount(IncrementedTimes(kv, ip, n), Key(other)) == GetCount(kv, Key(other))
    ensures CheckRateLimit(IncrementedTimes(kv, ip, n), other) == CheckRateLimit(kv, other)
  {
    if Key(ip) == Key(other) {
      KeyInjective(ip, other);
    }
    IncrementsKeepOtherKey(kv, ip, Key(other), n);
  }

  /** A stored `u32::MAX` wraps to 0 in a release build. */
  lemma IncrementWrapsAtMax(kv: Kv, ip: string)
    requires GetCount(kv, Key(ip)) == U32_MAX
    ensures GetCount(Incremented(kv, ip), Key(ip)) == 0
    ensures CheckRateLimit(kv, ip) && !CheckRateLimit(Incremented(kv, ip), ip)
  {
  }

  /** The KV namespace as a mutable store. */
  class RateLimitStore {
    var kv: Kv

    constructor ()
      ensures kv == map[]
    {
      kv := map[];
    }

    /** `increment_rate_limit`: read the count, write count + 1 as its
        decimal text under the same key. */
    method IncrementRateLimit(ip: string)
      modifies this
      ensures kv == Incremented(old(kv), ip)
    {
      var key := Key(ip);
      var count := GetCount(kv, key);
      kv := kv[key := Decimal(NextCount(count))];
    }
  }

  /** `get_client_ip`: the `CF-Connecting-IP` header, or `"unknown"`. */
  function GetClientIp(header: Option<string>): (ip: string)
    ensures header.Some? ==> ip == header.value
    ensures header.None? ==> ip == "unknown"
  {
    header.GetOr("unknown")
  }

  /** Every client without the header shares one counter. */
  lemma HeaderlessClientsShareCounter(kv: Kv)
    ensures CheckRateLimit(kv, GetClientIp(None)) == IsRateLimited(GetCount(kv, "rate:unknown"))
  {
    assert Key("unknown") == "rate:unknown";
  }
}
