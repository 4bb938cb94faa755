/**
 * The prologue of `checkProxyIP`: turning the (already lower-cased) `proxyip`
 * query value into the host and port the probe connects to.
 */
module Endpoint {
  import opened Wrappers
  import opened Strings
  import opened JsNumbers

  /** The port used when the input names none. */
  const DefaultPort: int := 443

  /** `hostToCheck` and `portRemote`. The port is never range-checked. */
  datatype Endpoint = Endpoint(host: string, port: JsNum)

  /** The digit run that starts right after a `.tp` at index `i`. */
  function TpDigits(s: string, i: nat): string
    requires i + 3 <= |s|
  {
    LeadingDigits(s[i + 3..], 10)
  }

  /**
   * The regular expression `/\.tp(\d+)\./` matches at index `i`: `.tp`, a
   * non-empty digit run and a dot. The greedy run cannot back off, since the
   * dot would then have to match a digit.
   */
  predicate TpMatchAt(s: string, i: nat) {
    && OccursAt(s, ".tp", i)
    && var d := TpDigits(s, i);
    && |d| >= 1
    && i + 3 + |d| < |s|
    && s[i + 3 + |d|] == '.'
  }

  /** `i` is the leftmost match of `/\.tp(\d+)\./` in `s`. */
  predicate FirstTpMatch(s: string, i: nat) {
    TpMatchAt(s, i) && forall j: nat :: j < i ==> !TpMatchAt(s, j)
  }

  /** The leftmost match of `/\.tp(\d+)\./` at or after index `k`. */
  function TpMatchFrom(s: string, k: nat): (r: Option<nat>)
    decreases |s| - k
    ensures r.Some? ==> k <= r.value && TpMatchAt(s, r.value)
    ensures r.Some? ==> forall j: nat :: k <= j < r.value ==> !TpMatchAt(s, j)
    ensures r.None? ==> forall j: nat :: k <= j ==> !TpMatchAt(s, j)
  {
    if k + 3 > |s| then None
    else if TpMatchAt(s, k) then Some(k)
    else TpMatchFrom(s, k + 1)
  }

  /** `s.match(/\.tp(\d+)\./)`: the index of the leftmost match, if any. */
  function TpMatch(s: string): (r: Option<nat>)
    ensures r.Some? ==> FirstTpMatch(s, r.value)
    ensures r.None? ==> forall j: nat :: !TpMatchAt(s, j)
  {
    TpMatchFrom(s, 0)
  }

  /**
   * The port of the tunnel form: `parseInt` of the digits the leftmost
   * `/\.tp(\d+)\./` match captures, or 443 when nothing matches.
   */
  function TunnelPort(s: string): (r: JsNum)
    ensures forall i: nat :: FirstTpMatch(s, i) ==> r == Num(DigitsValue(TpDigits(s, i)))
    ensures (forall i: nat :: !TpMatchAt(s, i)) ==> r == Num(DefaultPort)
  {
    match TpMatch(s)
    case Some(i) =>
      TpDigitsValue(s, i);
      ParseInt(TpDigits(s, i))
    case None => Num(DefaultPort)
  }

  /** The port of the `host:port` form: `parseInt(p) || 443`. */
  function PortOrDefault(p: string): (r: JsNum)
    ensures r.Truthy()
    ensures ParseInt(p).Truthy() ==> r == ParseInt(p)
    ensures !ParseInt(p).Truthy() ==> r == Num(DefaultPort)
  {
    var n := ParseInt(p);
    if n.Truthy() then n else Num(DefaultPort)
  }

  /** The bracketed form `[v6]:port` applies. */
  predicate IsBracketForm(s: string) {
    Includes(s, "[") && Includes(s, "]:")
  }

  /** The `ipv4:port` form applies: one colon, a dot before it, no leading bracket. */
  predicate IsHostPortForm(s: string) {
    Includes(s, ":") && !StartsWith(s, "[") && |SplitOn(s, ':')| == 2 && Includes(SplitOn(s, ':')[0], ".")
  }

  /** The tunnel form: the host is what precedes the first `.tp`. */
  function TunnelEndpoint(s: string): (r: Endpoint)
    requires Includes(s, ".tp")
    ensures r.host + ".tp" <= s && r.host <= s
    ensures forall j: nat :: j < |r.host| ==> !OccursAt(s, ".tp", j)
    ensures forall i: nat :: FirstTpMatch(s, i) ==> r.port == Num(DigitsValue(TpDigits(s, i)))
    ensures (forall i: nat :: !TpMatchAt(s, i)) ==> r.port == Num(DefaultPort)
  {
    Endpoint(Before(s, ".tp"), TunnelPort(s))
  }

  /**
   * The bracket form: the host runs through the bracket of the first `]:`
   * and the port is `parseInt` of what follows, up to any next `]:`. Nothing
   * falls back to 443 here, so the port may be NaN.
   */
  function BracketEndpoint(s: string): (r: Endpoint)
    requires IsBracketForm(s)
    ensures |r.host| >= 1 && r.host[|r.host| - 1] == ']'
    ensures r.host[..|r.host| - 1] + "]:" <= s && r.host <= s
    ensures forall j: nat :: j < |r.host| - 1 ==> !OccursAt(s, "]:", j)
    ensures r.port == ParseInt(Before(s[|r.host| + 1..], "]:"))
  {
    var host := Before(s, "]:");
    var rest := After(s, "]:");
    assert host + "]:" + rest == s;
    assert s[|host| + 2..] == rest;
    assert (host + "]")[..|host|] == host;
    Endpoint(host + "]", ParseInt(Before(rest, "]:")))
  }

  /** The colon form: the host precedes the only colon, `parseInt(...) || 443` follows it. */
  function ColonEndpoint(s: string): (r: Endpoint)
    requires IsHostPortForm(s)
    ensures |r.host| < |s| && r.host + ":" + s[|r.host| + 1..] == s && r.host <= s
    ensures ':' !in r.host && '.' in r.host
    ensures r.port == PortOrDefault(s[|r.host| + 1..])
  {
    var parts := SplitOn(s, ':');
    HostPortParts(s);
    assert s[|parts[0]| + 1..] == parts[1];
    Endpoint(parts[0], PortOrDefault(parts[1]))
  }

  /**
   * Parses the target in the source's precedence order: the `.tp<digits>.`
   * tunnel form, then `[v6]:port`, then `ipv4:port`; anything else is the
   * host itself on port 443. Whatever the branch, the host is a prefix of the
   * input.
   */
  function ParseEndpoint(s: string): (r: Endpoint)
    ensures r.host <= s
    ensures !Includes(s, ".tp") && !IsBracketForm(s) && !IsHostPortForm(s) ==>
      r == Endpoint(s, Num(DefaultPort))
  {
    if Includes(s, ".tp") then TunnelEndpoint(s)
    else if IsBracketForm(s) then BracketEndpoint(s)
    else if IsHostPortForm(s) then ColonEndpoint(s)
    else Endpoint(s, Num(DefaultPort))
  }

  /**
   * The tunnel form takes precedence: the host is what precedes the first
   * `.tp`, and the port is the value of the digit run of the leftmost
   * `.tp<digits>.`, or 443 when there is none.
   */
  lemma {:induction false} TunnelForm(s: string)
    requires Includes(s, ".tp")
    ensures ParseEndpoint(s).host + ".tp" <= s
    ensures forall j: nat :: j < |ParseEndpoint(s).host| ==> !OccursAt(s, ".tp", j)
    ensures forall i: nat :: FirstTpMatch(s, i) ==> ParseEndpoint(s).port == Num(DigitsValue(TpDigits(s, i)))
    ensures (forall i: nat :: !TpMatchAt(s, i)) ==> ParseEndpoint(s).port == Num(DefaultPort)
  {
  }

  /**
   * Without a `.tp`, an input holding `[` and `]:` is split at the first
   * `]:`: the host keeps the closing bracket and the port is `parseInt` of
   * what follows, which may be NaN.
   */
  lemma {:induction false} BracketForm(s: string)
    requires !Includes(s, ".tp") && IsBracketForm(s)
    ensures var r := ParseEndpoint(s);
      && |r.host| >= 1 && r.host[|r.host| - 1] == ']'
      && r.host[..|r.host| - 1] + "]:" <= s
      && (forall j: nat :: j < |r.host| - 1 ==> !OccursAt(s, "]:", j))
      && r.port == ParseInt(Before(s[|r.host| + 1..], "]:"))
  {
  }

  /**
   * Otherwise an input with exactly one colon and a dot before it is
   * `host:port`, with port `parseInt(port) || 443`.
   */
  lemma {:induction false} ColonForm(s: string)
    requires !Includes(s, ".tp") && !IsBracketForm(s) && IsHostPortForm(s)
    ensures var r := ParseEndpoint(s);
      && |r.host| < |s| && r.host + ":" + s[|r.host| + 1..] == s
      && ':' !in r.host && '.' in r.host
      && r.port == PortOrDefault(s[|r.host| + 1..])
  {
  }

  /**
   * The port of the tunnel form is `parseInt` of the matched digits, which is
   * their decimal value.
   */
  lemma {:induction false} TpDigitsValue(s: string, i: nat)
    requires i + 3 <= |s|
    requires |TpDigits(s, i)| >= 1
    ensures ParseInt(TpDigits(s, i)) == Num(DigitsValue(TpDigits(s, i)))
  {
    var d := TpDigits(s, i);
    assert d + "" == d;
    ParseIntDecimalPrefix(d, "");
  }

  /** With exactly one colon, the two pieces are what precedes and follows it. */
  lemma {:induction false} HostPortParts(s: string)
    requires |SplitOn(s, ':')| == 2
    ensures SplitOn(s, ':')[0] + ":" + SplitOn(s, ':')[1] == s
    ensures ':' !in SplitOn(s, ':')[0]
  {
    SplitOnJoin(s, ':');
    var p := SplitOn(s, ':');
    assert Join(p, ':') == p[0] + [':'] + Join(p[1..], ':');
    assert Join(p[1..], ':') == p[1];
  }
}
