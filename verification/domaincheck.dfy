/**
 * The page script's domain check: after `/resolve` returns a domain's
 * addresses (IPv4 verbatim, IPv6 in brackets), `checkDomainIPWithIndex`
 * builds the target of each probe from the address and the port the user
 * chose, and the worker's endpoint parser reads that target back.
 *
 * As written, the rule appends the port only to addresses without a colon,
 * so a bracketed IPv6 address is probed on 443 whatever port was chosen.
 * `TestTargetAsWritten` models the rule as written and
 * `PortDroppedForIpv6` exhibits the loss; `TestTarget` is the rule as
 * evidently intended, which appends the port unless the address already
 * carries one, and `TestTargetKeepsPort` proves the chosen port reaches the
 * probe for both address families.
 */
module DomainCheck {
  import opened Wrappers
  import opened Strings
  import opened JsNumbers
  import opened Endpoint
  import opened Dns

  /** `ip.includes(':') || ip.includes(']:') ? ip : ip + ':' + port`. */
  function TestTargetAsWritten(ip: string, port: int): string {
    if Includes(ip, ":") || Includes(ip, "]:") then ip else ip + ":" + IntToString(port)
  }

  /**
   * The corrected rule: keep a target that already names a port (`[v6]:p`
   * or `host:p`), and append the port to anything else, a bracketed IPv6
   * address included.
   */
  function TestTarget(ip: string, port: int): string {
    if Includes(ip, "]:") || (Includes(ip, ":") && !StartsWith(ip, "[")) then ip
    else ip + ":" + IntToString(port)
  }

  predicate IsHexDigit(c: char) {
    IsDigit(c) || IsHexLetter(c)
  }

  /** The text of an AAAA answer: hex digits and colons, with at least one colon. */
  predicate IsIpv6Text(a: string) {
    ':' in a && forall i :: 0 <= i < |a| ==> IsHexDigit(a[i]) || a[i] == ':'
  }

  /** The text of an A answer: digits and dots, with at least one dot. */
  predicate IsIpv4Text(a: string) {
    |a| >= 1 && '.' in a && forall i :: 0 <= i < |a| ==> IsDigit(a[i]) || a[i] == '.'
  }

  // ---------------------------------------------------------------------------
  // As written

  /**
   * For every bracketed IPv6 answer and every chosen port, the rule as
   * written leaves the address bare, and the endpoint parser reads a bare
   * bracketed address as port 443: any other chosen port never reaches the
   * probe.
   */
  lemma {:induction false} PortDroppedForIpv6(a: string, port: int)
    requires IsIpv6Text(a)
    ensures TestTargetAsWritten(Bracket(a), port) == Bracket(a)
    ensures ParseEndpoint(TestTargetAsWritten(Bracket(a), port)) == Endpoint(Bracket(a), Num(DefaultPort))
  {
    var s := Bracket(a);
    assert ':' in s;
    IncludesChar(s, ':');
    NoTunnel(s);
    NoBracketColon(a);
    assert StartsWith(s, "[");
  }

  /** The concrete instance: `[2001:db8::1]` with port 8443 is probed on 443. */
  lemma {:induction false} PortDroppedExample()
    ensures ParseEndpoint(TestTargetAsWritten("[2001:db8::1]", 8443)).port == Num(443)
  {
    var a := "2001:db8::1";
    assert a[4] == ':';
    assert Bracket(a) == "[2001:db8::1]";
    PortDroppedForIpv6(a, 8443);
  }

  // ---------------------------------------------------------------------------
  // Corrected

  /** Text without a dot holds no `.tp`. */
  lemma {:induction false} NoTunnel(s: string)
    requires '.' !in s
    ensures !Includes(s, ".tp")
  {
    Absent(s, ".tp", 0);
  }

  /** A bracketed address whose text has no `]` holds no `]:`. */
  lemma {:induction false} NoBracketColon(a: string)
    requires ']' !in a
    ensures !Includes(Bracket(a), "]:")
  {
    var s := Bracket(a);
    forall i: nat
      ensures !OccursAt(s, "]:", i)
    {
      if i + 2 <= |s| {
        assert s[i..i + 2][0] == s[i];
        if i > 0 {
          assert s[i] == a[i - 1];
        }
      }
    }
  }

  /** In `[a]:d`, with no `]` in `a`, the first `]:` follows `a`. */
  lemma {:induction false} FirstBracketColon(a: string, d: string)
    requires ']' !in a
    ensures IndexOf(Bracket(a) + ":" + d, "]:") == Some(|a| + 1)
  {
    var s := Bracket(a) + ":" + d;
    var k := |a| + 1;
    assert s[k..k + 2] == "]:";
    assert OccursAt(s, "]:", k);
    var v := IndexOf(s, "]:").value;
    assert s[v..v + 2][0] == s[v];
  }

  /** A rendered port holds only digits. */
  lemma {:induction false} PortText(port: nat)
    ensures '.' !in NatToString(port) && ':' !in NatToString(port) && ']' !in NatToString(port)
    ensures '[' !in NatToString(port) && 't' !in NatToString(port)
  {
    NatToStringValue(port);
  }

  /**
   * A bracketed IPv6 address gets the port appended, and the parser reads
   * back the address and exactly that port.
   */
  lemma {:induction false} TestTargetKeepsPortIpv6(a: string, port: nat)
    requires IsIpv6Text(a)
    ensures TestTarget(Bracket(a), port) == Bracket(a) + ":" + NatToString(port)
    ensures ParseEndpoint(TestTarget(Bracket(a), port)) == Endpoint(Bracket(a), Num(port))
  {
    var s := Bracket(a);
    assert ':' in s && ']' !in a && '.' !in a;
    IncludesChar(s, ':');
    NoBracketColon(a);
    assert StartsWith(s, "[");
    PortText(port);
    BracketedEndpoint(a, NatToString(port));
    ParseIntNatToString(port);
  }

  /** The parser reads `[a]:d` as host `[a]` and port `parseInt(d)`. */
  lemma {:induction false} BracketedEndpoint(a: string, d: string)
    requires ']' !in a && '.' !in a && ']' !in d && '.' !in d
    ensures ParseEndpoint(Bracket(a) + ":" + d) == Endpoint(Bracket(a), ParseInt(d))
  {
    var s := Bracket(a) + ":" + d;
    assert '.' !in s;
    NoTunnel(s);
    FirstBracketColon(a, d);
    assert '[' in s;
    IncludesChar(s, '[');
    assert IsBracketForm(s);
    assert Before(s, "]:") == s[..|a| + 1];
    assert After(s, "]:") == d;
    Absent(d, "]:", 0);
    assert s[..|a| + 1] + "]" == Bracket(a);
  }

  /** Text missing one of the pattern's characters does not include it. */
  lemma {:induction false} Absent(s: string, pat: string, k: nat)
    requires k < |pat| && pat[k] !in s
    ensures !Includes(s, pat) && Before(s, pat) == s
  {
    if Includes(s, pat) {
      IncludesChars(s, pat);
    }
  }

  /**
   * An IPv4 address gets the port appended, and for any port but 0 (which
   * `parseInt(...) || 443` replaces) the parser reads back the address and
   * exactly that port.
   */
  lemma {:induction false} TestTargetKeepsPortIpv4(a: string, port: nat)
    requires IsIpv4Text(a) && port > 0
    ensures TestTarget(a, port) == a + ":" + NatToString(port)
    ensures ParseEndpoint(TestTarget(a, port)) == Endpoint(a, Num(port))
  {
    var d := NatToString(port);
    PortText(port);
    assert ':' !in a && ']' !in a && '[' !in a && 't' !in a;
    IncludesChar(a, ':');
    Absent(a, "]:", 0);
    var s := a + ":" + d;
    assert 't' !in s && '[' !in s;
    Absent(s, ".tp", 1);
    IncludesChar(s, '[');
    assert !IsBracketForm(s);
    IncludesChar(s, ':');
    assert s == a + [':'] + d;
    SplitOnCons(a, d, ':');
    SplitOnFree(d, ':');
    IncludesChar(a, '.');
    assert !StartsWith(s, "[");
    assert IsHostPortForm(s);
    ParseIntNatToString(port);
  }

  /**
   * The corrected rule delivers the chosen port for every address
   * `/resolve` can return: bare IPv4 answers and bracketed IPv6 answers.
   */
  lemma {:induction false} TestTargetKeepsPort(v4: string, v6: string, port: nat)
    requires IsIpv4Text(v4) && IsIpv6Text(v6) && port > 0
    ensures ParseEndpoint(TestTarget(v4, port)) == Endpoint(v4, Num(port))
    ensures ParseEndpoint(TestTarget(Bracket(v6), port)) == Endpoint(Bracket(v6), Num(port))
  {
    TestTargetKeepsPortIpv4(v4, port);
    TestTargetKeepsPortIpv6(v6, port);
  }

  /** On IPv4 addresses the two rules agree; they differ only on bracketed IPv6. */
  lemma {:induction false} RulesAgreeOnIpv4(a: string, port: int)
    requires IsIpv4Text(a)
    ensures TestTarget(a, port) == TestTargetAsWritten(a, port)
  {
    assert ':' !in a && ']' !in a;
    IncludesChar(a, ':');
    Absent(a, "]:", 0);
  }
}
