/**
 * The rotating access token: the seed built from the worker's host name,
 * the current 31-minute time bucket and the caller's user agent; the
 * two-round digest `doubleHash`; and the rules by which `/check` and
 * `/resolve` accept a supplied token.
 *
 * The digest itself (MD5 rendered as lower-case hex) is a parameter
 * `digestHex`: only the way the worker composes it is modelled.
 */
module Token {
  import opened Wrappers
  import opened Strings

  /** The rotation window of the temporary token in milliseconds: 31 minutes. */
  const WindowMs: nat := 1000 * 60 * 31

  /** `Math.ceil(a / b)` for a positive divisor. */
  function CeilDiv(a: int, b: nat): (c: int)
    requires b > 0
    ensures (c - 1) * b < a <= c * b
  {
    var q := (-a) / b;
    assert -a == q * b + (-a) % b;
    -q
  }

  /** The time bucket the token of the instant `nowMs` is derived from. */
  function TimeBucket(nowMs: int): int {
    CeilDiv(nowMs, WindowMs)
  }

  /**
   * Bucket `b` is exactly the window `((b - 1) * 31 min, b * 31 min]`: the
   * temporary token is stable inside it and changes at its end. The window
   * is closed on the right because the source rounds up, not down.
   */
  lemma {:induction false} TimeBucketWindow(nowMs: int, b: int)
    ensures TimeBucket(nowMs) == b <==> (b - 1) * WindowMs < nowMs <= b * WindowMs
  {
    var c := TimeBucket(nowMs);
    if (b - 1) * WindowMs < nowMs <= b * WindowMs {
      if c < b {
        MulMonotone(c, b - 1, WindowMs);
      } else if c > b {
        MulMonotone(b, c - 1, WindowMs);
      }
    }
  }

  /** Multiplying by a positive number preserves order. */
  lemma {:induction false} MulMonotone(x: int, y: int, w: nat)
    requires x <= y
    ensures x * w <= y * w
  {
  }

  /** `request.headers.get('User-Agent') || 'null'`. */
  function UserAgent(header: Option<string>): (ua: string)
    ensures ua != ""
    ensures header.Some? && header.value != "" ==> ua == header.value
    ensures header.None? || header.value == "" ==> ua == "null"
  {
    if header.Some? && header.value != "" then header.value else "null"
  }

  /** `url.hostname + timestampForToken + userAgent`. */
  function Seed(hostname: string, nowMs: int, userAgent: string): string {
    hostname + IntToString(TimeBucket(nowMs)) + userAgent
  }

  /**
   * The seed tells its parts apart: two seeds that agree on two of host
   * name, time bucket and user agent are equal only if they agree on the
   * third as well.
   */
  lemma {:induction false} SeedDistinguishes(h1: string, t1: int, u1: string, h2: string, t2: int, u2: string)
    requires Seed(h1, t1, u1) == Seed(h2, t2, u2)
    ensures h1 == h2 && u1 == u2 ==> TimeBucket(t1) == TimeBucket(t2)
    ensures TimeBucket(t1) == TimeBucket(t2) && u1 == u2 ==> h1 == h2
    ensures h1 == h2 && TimeBucket(t1) == TimeBucket(t2) ==> u1 == u2
  {
    var m1 := IntToString(TimeBucket(t1));
    var m2 := IntToString(TimeBucket(t2));
    var s := Seed(h1, t1, u1);
    if h1 == h2 && u1 == u2 {
      assert |m1| == |m2|;
      assert m1 == s[|h1|..|h1| + |m1|];
      assert m2 == s[|h1|..|h1| + |m2|];
      IntToStringInjective(TimeBucket(t1), TimeBucket(t2));
    }
    if TimeBucket(t1) == TimeBucket(t2) && u1 == u2 {
      assert |h1| == |h2|;
      assert h1 == s[..|h1|];
      assert h2 == s[..|h2|];
    }
    if h1 == h2 && TimeBucket(t1) == TimeBucket(t2) {
      assert u1 == s[|h1| + |m1|..];
      assert u2 == s[|h2| + |m2|..];
    }
  }

  /** `s.slice(start, end)` for non-negative bounds, which clamp to the length. */
  function Slice(s: string, start: nat, end: nat): (r: string)
    ensures |r| <= |s|
    ensures start <= end <= |s| ==> r == s[start..end]
  {
    var e := if end <= |s| then end else |s|;
    var b := if start <= e then start else e;
    s[b..e]
  }

  /**
   * `doubleHash(text)`: the digest of the twenty hex digits at offset 7 of
   * the digest of `text`, lower-cased.
   */
  function DoubleHash(digestHex: string -> string, text: string): (r: string)
    ensures |r| == |digestHex(Slice(digestHex(text), 7, 27))|
    ensures forall i :: 0 <= i < |r| ==> !IsUpper(r[i])
  {
    Lower(digestHex(Slice(digestHex(text), 7, 27)))
  }

  /**
   * Only the twenty digits at offset 7 of the first digest matter: texts
   * whose first digests agree there have the same double hash.
   */
  lemma {:induction false} DoubleHashDependsOnSlice(digestHex: string -> string, t1: string, t2: string)
    requires Slice(digestHex(t1), 7, 27) == Slice(digestHex(t2), 7, 27)
    ensures DoubleHash(digestHex, t1) == DoubleHash(digestHex, t2)
  {
  }

  /** `env.TOKEN` is set to a non-empty string (the empty string is falsy). */
  predicate Configured(envToken: Option<string>) {
    envToken.Some? && envToken.value != ""
  }

  /** The two tokens the worker accepts during one request. */
  datatype Tokens = Tokens(temporary: string, permanent: string)

  /**
   * `temporaryTOKEN` is derived from the seed; `permanentTOKEN` is
   * `env.TOKEN || temporaryTOKEN`.
   */
  function DeriveTokens(digestHex: string -> string, hostname: string, nowMs: int,
                        userAgent: string, envToken: Option<string>): (t: Tokens)
    ensures t.temporary == DoubleHash(digestHex, Seed(hostname, nowMs, userAgent))
    ensures Configured(envToken) ==> t.permanent == envToken.value
    ensures !Configured(envToken) ==> t.permanent == t.temporary
  {
    var temporary := DoubleHash(digestHex, Seed(hostname, nowMs, userAgent));
    Tokens(temporary, if Configured(envToken) then envToken.value else temporary)
  }

  /**
   * The temporary token does not depend on the configured secret, and a
   * configured secret is the permanent token whatever the host name, the
   * time and the user agent.
   */
  lemma {:induction false} TokensIndependence(digestHex: string -> string, hostname: string, nowMs: int,
                                              userAgent: string, e1: Option<string>, e2: Option<string>,
                                              hostname2: string, nowMs2: int, userAgent2: string)
    ensures DeriveTokens(digestHex, hostname, nowMs, userAgent, e1).temporary
         == DeriveTokens(digestHex, hostname, nowMs, userAgent, e2).temporary
    ensures Configured(e1) ==>
      DeriveTokens(digestHex, hostname, nowMs, userAgent, e1).permanent
        == DeriveTokens(digestHex, hostname2, nowMs2, userAgent2, e1).permanent
  {
  }

  /**
   * Two requests in the same time bucket, to the same host name and from the
   * same user agent, are issued the same tokens.
   */
  lemma {:induction false} TokensStableWithinBucket(digestHex: string -> string, hostname: string,
                                 now1: int, now2: int, userAgent: string, envToken: Option<string>)
    requires TimeBucket(now1) == TimeBucket(now2)
    ensures DeriveTokens(digestHex, hostname, now1, userAgent, envToken)
         == DeriveTokens(digestHex, hostname, now2, userAgent, envToken)
  {
  }

  /**
   * `/check` demands a token only when `env.TOKEN` is configured, and then
   * accepts exactly `env.TOKEN`: the temporary token is not enough.
   */
  predicate CheckAuthorized(envToken: Option<string>, tokens: Tokens, supplied: Option<string>) {
    Configured(envToken) ==> supplied.Some? && supplied.value == tokens.permanent
  }

  /** `/resolve` always demands a token and accepts either of the two. */
  predicate ResolveAuthorized(tokens: Tokens, supplied: Option<string>) {
    supplied.Some? && (supplied.value == tokens.temporary || supplied.value == tokens.permanent)
  }

  /**
   * For tokens derived as the worker derives them, `/check` lets every
   * request through when no secret is configured, and otherwise exactly the
   * requests carrying the secret.
   */
  lemma {:induction false} CheckAcceptance(digestHex: string -> string, hostname: string, nowMs: int,
                        userAgent: string, envToken: Option<string>, supplied: Option<string>)
    ensures var tokens := DeriveTokens(digestHex, hostname, nowMs, userAgent, envToken);
      CheckAuthorized(envToken, tokens, supplied) <==>
        (!Configured(envToken) || supplied == Some(envToken.value))
  {
  }

  /**
   * `/resolve` accepts the temporary token of the current bucket, and the
   * configured secret when there is one, and nothing else.
   */
  lemma {:induction false} ResolveAcceptance(digestHex: string -> string, hostname: string, nowMs: int,
                          userAgent: string, envToken: Option<string>, supplied: Option<string>)
    ensures var tokens := DeriveTokens(digestHex, hostname, nowMs, userAgent, envToken);
      ResolveAuthorized(tokens, supplied) <==>
        (|| supplied == Some(DoubleHash(digestHex, Seed(hostname, nowMs, userAgent)))
         || (Configured(envToken) && supplied == Some(envToken.value)))
  {
  }
}
