/**
 * The page script's input handling: `preprocessInput`, the list of range
 * queries taken from the range text area, and `parseIPRange`, which expands
 * `a.b.c.X/24` and `a.b.c.S-E` into the host addresses to probe.
 */
module Ranges {
  import opened Strings
  import opened JsNumbers

  /**
   * `preprocessInput(s)`: trim, then keep what precedes the first space.
   * (The source returns a falsy input unchanged; trimming the empty string
   * gives the same result.)
   */
  function Preprocess(s: string): (r: string)
    ensures r <= Trim(s)
    ensures ' ' !in r
    ensures ' ' !in Trim(s) ==> r == Trim(s)
    ensures ' ' in Trim(s) ==> r + " " <= Trim(s)
  {
    var t := Trim(s);
    IncludesChar(t, ' ');
    if Includes(t, " ") then
      var r := Before(t, " ");
      NoSpaceBefore(t, r);
      r
    else t
  }

  lemma {:induction false} NoSpaceBefore(t: string, r: string)
    requires Includes(t, " ") && r + " " <= t
    requires forall j: nat :: j < |r| ==> !OccursAt(t, " ", j)
    ensures ' ' !in r
  {
    if ' ' in r {
      var j :| 0 <= j < |r| && r[j] == ' ';
      assert OccursAt(t, " ", j);
    }
  }

  /**
   * `raw.split('\n').map(preprocessInput).filter(s => s)`: the range
   * queries, one per line that is not blank after preprocessing.
   */
  function QueriesOf(lines: seq<string>): seq<string> {
    if |lines| == 0 then []
    else if Preprocess(lines[0]) == "" then QueriesOf(lines[1..])
    else [Preprocess(lines[0])] + QueriesOf(lines[1..])
  }

  /**
   * Lines give their queries in line order: the queries of two blocks of
   * lines are those of the first block followed by those of the second.
   */
  lemma {:induction false} QueriesOfAppend(a: seq<string>, b: seq<string>)
    ensures QueriesOf(a + b) == QueriesOf(a) + QueriesOf(b)
  {
    if |a| > 0 {
      assert (a + b)[0] == a[0];
      assert (a + b)[1..] == a[1..] + b;
      QueriesOfAppend(a[1..], b);
    } else {
      assert a + b == b;
    }
  }

  /** One line gives its preprocessed form as a query, or nothing when that is blank. */
  lemma {:induction false} QueriesOfSingle(line: string)
    ensures Preprocess(line) == "" ==> QueriesOf([line]) == []
    ensures Preprocess(line) != "" ==> QueriesOf([line]) == [Preprocess(line)]
  {
    assert [line][1..] == [];
  }

  /** Repeated lines are not merged: each copy gives its own query. */
  lemma {:induction false} RepeatedLinesKept(line: string)
    requires Preprocess(line) != ""
    ensures QueriesOf([line, line]) == [Preprocess(line), Preprocess(line)]
  {
    QueriesOfAppend([line], [line]);
    QueriesOfSingle(line);
    assert [line, line] == [line] + [line];
  }

  /** Every query is non-empty and holds no space. */
  lemma {:induction false} QueriesAreQueries(lines: seq<string>)
    ensures forall k :: 0 <= k < |QueriesOf(lines)| ==> IsQuery(QueriesOf(lines)[k])
  {
    forall k | 0 <= k < |QueriesOf(lines)|
      ensures IsQuery(QueriesOf(lines)[k])
    {
      var x := QueriesOf(lines)[k];
      QueriesOfMembers(lines, x);
      var j :| 0 <= j < |lines| && Preprocess(lines[j]) == x;
    }
  }

  /** What a range query looks like: non-empty, with no space. */
  predicate IsQuery(x: string) {
    x != "" && ' ' !in x
  }

  /** The range queries of the text area: one per line, blanks dropped. */
  function RangeQueries(raw: string): (qs: seq<string>)
    ensures forall k :: 0 <= k < |qs| ==> IsQuery(qs[k])
  {
    QueriesAreQueries(SplitOn(raw, '\n'));
    QueriesOf(SplitOn(raw, '\n'))
  }

  /** Some line of `lines` preprocesses to `x`. */
  ghost predicate FromSomeLine(lines: seq<string>, x: string) {
    exists k :: 0 <= k < |lines| && Preprocess(lines[k]) == x
  }

  /** A query is the preprocessed form of some line, and every non-blank line gives one. */
  lemma {:induction false} QueriesOfMembers(lines: seq<string>, x: string)
    ensures x in QueriesOf(lines) <==> x != "" && FromSomeLine(lines, x)
  {
    if x in QueriesOf(lines) {
      QueriesOfSound(lines, x);
    }
    if x != "" && FromSomeLine(lines, x) {
      var k :| 0 <= k < |lines| && Preprocess(lines[k]) == x;
      QueriesOfComplete(lines, k);
    }
  }

  /** Every query comes from some line. */
  lemma {:induction false} QueriesOfSound(lines: seq<string>, x: string)
    requires x in QueriesOf(lines)
    ensures x != "" && FromSomeLine(lines, x)
  {
    var q := Preprocess(lines[0]);
    var rest := QueriesOf(lines[1..]);
    assert QueriesOf(lines) == if q == "" then rest else [q] + rest;
    if q != "" && x == q {
      assert 0 < |lines| && Preprocess(lines[0]) == x;
    } else {
      assert x in rest;
      QueriesOfSound(lines[1..], x);
      var k :| 0 <= k < |lines[1..]| && Preprocess(lines[1..][k]) == x;
      assert lines[k + 1] == lines[1..][k];
    }
  }

  /** Every non-blank line gives a query. */
  lemma {:induction false} QueriesOfComplete(lines: seq<string>, k: nat)
    requires k < |lines| && Preprocess(lines[k]) != ""
    ensures Preprocess(lines[k]) in QueriesOf(lines)
  {
    var q := Preprocess(lines[0]);
    var rest := QueriesOf(lines[1..]);
    assert QueriesOf(lines) == if q == "" then rest else [q] + rest;
    if k > 0 {
      assert lines[1..][k - 1] == lines[k];
      QueriesOfComplete(lines[1..], k - 1);
    }
  }

  // ---------------------------------------------------------------------------
  // The accepted forms

  /** `\d{1,3}`: one to three decimal digits. */
  predicate IsOctetText(s: string) {
    1 <= |s| <= 3 && AllDigits(s)
  }

  /** `(\d{1,3}\.){3}\d{1,3}`: four short digit runs joined by dots. */
  predicate IsQuad(s: string) {
    var q := SplitOn(s, '.');
    |q| == 4 && IsOctetText(q[0]) && IsOctetText(q[1]) && IsOctetText(q[2]) && IsOctetText(q[3])
  }

  /**
   * `/^(\d{1,3}\.){3}\d{1,3}\/24$/`: a dotted quad, a slash and `24`. A
   * match holds exactly one slash, so splitting on it gives the quad and
   * `24`.
   */
  predicate IsCidrForm(t: string) {
    var p := SplitOn(t, '/');
    |p| == 2 && IsQuad(p[0]) && p[1] == "24"
  }

  /** `/^(\d{1,3}\.){3}\d{1,3}-\d{1,3}$/`: a dotted quad, a dash and one more digit run. */
  predicate IsRangeForm(t: string) {
    var p := SplitOn(t, '-');
    |p| == 2 && IsQuad(p[0]) && IsOctetText(p[1])
  }

  /** The host `prefix.n`, as the template literal renders it. */
  function Host(prefix: string, n: nat): string {
    prefix + "." + NatToString(n)
  }

  /** The loop `for (i = lo; i <= hi; i++) ips.push(prefix.i)`. */
  function Hosts(prefix: string, lo: nat, hi: int): seq<string>
    decreases hi - lo
  {
    if lo > hi then [] else [Host(prefix, lo)] + Hosts(prefix, lo + 1, hi)
  }

  /** The first three parts of a quad, rejoined with dots. */
  function Prefix3(q: seq<string>): string
    requires |q| >= 3
  {
    q[0] + "." + q[1] + "." + q[2]
  }

  /**
   * `parseIPRange(input)`: all 255 hosts `.1` … `.255` of a `/24`; the hosts
   * `S` … `E` of an `a.b.c.S-E` range whose bounds satisfy
   * `0 <= S <= E <= 255`; nothing otherwise. The source's checks that the
   * quad has four parts always pass once the regular expression matched.
   */
  function ParseIpRange(input: string): (r: seq<string>)
    ensures |r| <= 256
    ensures !IsCidrForm(Trim(input)) && !IsRangeForm(Trim(input)) ==> r == []
  {
    var t := Trim(input);
    if IsCidrForm(t) then CidrHosts(t)
    else if IsRangeForm(t) then RangeHosts(t)
    else []
  }

  /** The `/24` branch: hosts `.1` … `.255` after the quad's first three parts. */
  function CidrHosts(t: string): (r: seq<string>)
    requires IsCidrForm(t)
    ensures |r| == 255
  {
    var q := SplitOn(SplitOn(t, '/')[0], '.');
    HostsShape(Prefix3(q), 1, 255);
    Hosts(Prefix3(q), 1, 255)
  }

  /**
   * The `S-E` branch: both bounds read with `parseInt`, the hosts pushed
   * only when `0 <= S <= E <= 255`.
   */
  function RangeHosts(t: string): (r: seq<string>)
    requires IsRangeForm(t)
    ensures |r| <= 256
  {
    var parts := SplitOn(t, '-');
    var endOctet := ParseInt(parts[1]);
    var ip := SplitOn(parts[0], '.');
    var startOctet := ParseInt(ip[3]);
    if startOctet.Num? && endOctet.Num? && startOctet.value <= endOctet.value
       && startOctet.value >= 0 && endOctet.value <= 255 then
      HostsShape(Prefix3(ip), startOctet.value, endOctet.value);
      Hosts(Prefix3(ip), startOctet.value, endOctet.value)
    else []
  }

  // ---------------------------------------------------------------------------
  // Properties

  /** The loop pushes `hi - lo + 1` hosts, the `k`-th of them with last part `lo + k`. */
  lemma {:induction false} HostsShape(prefix: string, lo: nat, hi: int)
    decreases hi - lo
    ensures |Hosts(prefix, lo, hi)| == if lo > hi then 0 else hi - lo + 1
    ensures forall k :: 0 <= k < |Hosts(prefix, lo, hi)| ==> Hosts(prefix, lo, hi)[k] == Host(prefix, lo + k)
  {
    if lo <= hi {
      HostsShape(prefix, lo + 1, hi);
      var r := Hosts(prefix, lo, hi);
      forall k | 0 <= k < |r|
        ensures r[k] == Host(prefix, lo + k)
      {
        if k > 0 {
          assert r[k] == Hosts(prefix, lo + 1, hi)[k - 1];
        }
      }
    }
  }

  /** A digit run holds no character that is not a digit. */
  lemma {:induction false} DigitsExclude(d: string, x: char)
    requires AllDigits(d) && !IsDigit(x)
    ensures x !in d
  {
  }

  /** Hosts with the same prefix differ exactly when their numbers do. */
  lemma {:induction false} HostInjective(prefix: string, m: nat, n: nat)
    ensures Host(prefix, m) == Host(prefix, n) <==> m == n
  {
    if Host(prefix, m) == Host(prefix, n) {
      var p := prefix + ".";
      assert NatToString(m) == Host(prefix, m)[|p|..];
      assert NatToString(n) == Host(prefix, n)[|p|..];
      NatToStringInjective(m, n);
    }
  }

  /** A host's four parts are the prefix's three and the rendered number. */
  lemma {:induction false} HostParts(a: string, b: string, c: string, n: nat)
    requires '.' !in a && '.' !in b && '.' !in c
    ensures SplitOn(Host(a + "." + b + "." + c, n), '.') == [a, b, c, NatToString(n)]
  {
    NatToStringValue(n);
    var d := NatToString(n);
    DigitsExclude(d, '.');
    assert Host(a + "." + b + "." + c, n) == a + ['.'] + (b + ['.'] + (c + ['.'] + d));
    SplitOnCons(a, b + ['.'] + (c + ['.'] + d), '.');
    SplitOnCons(b, c + ['.'] + d, '.');
    SplitOnCons(c, d, '.');
    SplitOnFree(d, '.');
  }

  /** The expansion holds no repeated host. */
  lemma {:induction false} HostsDistinct(prefix: string, lo: nat, hi: int)
    ensures forall i, j :: 0 <= i < j < |Hosts(prefix, lo, hi)| ==>
      Hosts(prefix, lo, hi)[i] != Hosts(prefix, lo, hi)[j]
  {
    var r := Hosts(prefix, lo, hi);
    HostsShape(prefix, lo, hi);
    forall i, j | 0 <= i < j < |r|
      ensures r[i] != r[j]
    {
      HostInjective(prefix, lo + i, lo + j);
    }
  }

  /**
   * Reading back the last part of the `k`-th host, as the source reads
   * octets, gives `lo + k`: the hosts come in strictly ascending order.
   */
  lemma {:induction false} HostsAscending(a: string, b: string, c: string, lo: nat, hi: int)
    requires '.' !in a && '.' !in b && '.' !in c
    ensures forall k :: 0 <= k < |Hosts(a + "." + b + "." + c, lo, hi)| ==>
      ReadLastOctet(Hosts(a + "." + b + "." + c, lo, hi)[k]) == Num(lo + k)
  {
    var r := Hosts(a + "." + b + "." + c, lo, hi);
    HostsShape(a + "." + b + "." + c, lo, hi);
    forall k | 0 <= k < |r|
      ensures ReadLastOctet(r[k]) == Num(lo + k)
    {
      assert r[k] == Host(a + "." + b + "." + c, lo + k);
      LastOctetOfHost(a, b, c, lo + k);
    }
  }

  /** The last part of the host `a.b.c.n` reads back as `n`. */
  lemma {:induction false} LastOctetOfHost(a: string, b: string, c: string, n: nat)
    requires '.' !in a && '.' !in b && '.' !in c
    ensures ReadLastOctet(Host(a + "." + b + "." + c, n)) == Num(n)
  {
    HostParts(a, b, c, n);
    ParseIntNatToString(n);
  }

  /** `parseInt(host.split('.')[3])`, NaN when there is no fourth part. */
  function ReadLastOctet(host: string): JsNum {
    var q := SplitOn(host, '.');
    if |q| >= 4 then ParseInt(q[3]) else NaN
  }

  /** Digits and dots hold no other character. */
  lemma {:induction false} QuadChars(a: string, b: string, c: string, d: string, x: char)
    requires IsOctetText(a) && IsOctetText(b) && IsOctetText(c) && IsOctetText(d)
    requires x in a + "." + b + "." + c + "." + d
    ensures IsDigit(x) || x == '.'
  {
  }

  /** Four digit runs joined by dots form a quad that splits back into them. */
  lemma {:induction false} QuadSplit(a: string, b: string, c: string, d: string)
    requires IsOctetText(a) && IsOctetText(b) && IsOctetText(c) && IsOctetText(d)
    ensures SplitOn(a + "." + b + "." + c + "." + d, '.') == [a, b, c, d]
    ensures IsQuad(a + "." + b + "." + c + "." + d)
  {
    assert '.' !in a && '.' !in b && '.' !in c && '.' !in d;
    assert a + "." + b + "." + c + "." + d == a + ['.'] + (b + ['.'] + (c + ['.'] + d));
    SplitOnCons(a, b + ['.'] + (c + ['.'] + d), '.');
    SplitOnCons(b, c + ['.'] + d, '.');
    SplitOnCons(c, d, '.');
    SplitOnFree(d, '.');
  }

  /** `r` is the run of hosts `prefix.lo` … `prefix.hi`, in that order. */
  predicate HostRun(r: seq<string>, prefix: string, lo: nat, hi: int) {
    && |r| == (if lo > hi then 0 else hi - lo + 1)
    && forall k :: 0 <= k < |r| ==> r[k] == Host(prefix, lo + k)
  }

  /**
   * `a.b.c.d/24` (with any surrounding white space) expands to the hosts the
   * push loop gives for `a.b.c` from 1 to 255, whatever `d` is.
   */
  lemma {:induction false} CidrExpansion(input: string, a: string, b: string, c: string, d: string)
    requires IsOctetText(a) && IsOctetText(b) && IsOctetText(c) && IsOctetText(d)
    requires Trim(input) == a + "." + b + "." + c + "." + d + "/24"
    ensures ParseIpRange(input) == Hosts(a + "." + b + "." + c, 1, 255)
  {
    CidrHostsOf(Trim(input), a, b, c, d);
  }

  /** So a `/24` gives exactly the 255 hosts `a.b.c.1` … `a.b.c.255`, in that order. */
  lemma {:induction false} CidrRun(input: string, a: string, b: string, c: string, d: string)
    requires IsOctetText(a) && IsOctetText(b) && IsOctetText(c) && IsOctetText(d)
    requires Trim(input) == a + "." + b + "." + c + "." + d + "/24"
    ensures |ParseIpRange(input)| == 255
    ensures HostRun(ParseIpRange(input), a + "." + b + "." + c, 1, 255)
  {
    CidrExpansion(input, a, b, c, d);
    HostsAt(ParseIpRange(input), a + "." + b + "." + c, 1, 255);
  }

  lemma {:induction false} CidrHostsOf(t: string, a: string, b: string, c: string, d: string)
    requires IsOctetText(a) && IsOctetText(b) && IsOctetText(c) && IsOctetText(d)
    requires t == a + "." + b + "." + c + "." + d + "/24"
    ensures IsCidrForm(t)
    ensures CidrHosts(t) == Hosts(a + "." + b + "." + c, 1, 255)
  {
    var quad := a + "." + b + "." + c + "." + d;
    QuadSplit(a, b, c, d);
    assert '/' !in quad by {
      if '/' in quad {
        QuadChars(a, b, c, d, '/');
      }
    }
    SplitOnCons(quad, "24", '/');
    SplitOnFree("24", '/');
    assert t == quad + ['/'] + "24";
  }

  /** `a.b.c.s-e` is of the range form and not of the `/24` form, and splits as expected. */
  lemma {:induction false} RangeFormParts(t: string, a: string, b: string, c: string, s: string, e: string)
    requires IsOctetText(a) && IsOctetText(b) && IsOctetText(c) && IsOctetText(s) && IsOctetText(e)
    requires t == a + "." + b + "." + c + "." + s + "-" + e
    ensures SplitOn(t, '-') == [a + "." + b + "." + c + "." + s, e]
    ensures SplitOn(SplitOn(t, '-')[0], '.') == [a, b, c, s]
    ensures IsRangeForm(t) && !IsCidrForm(t)
  {
    var quad := a + "." + b + "." + c + "." + s;
    QuadSplit(a, b, c, s);
    assert '-' !in quad by {
      if '-' in quad {
        QuadChars(a, b, c, s, '-');
      }
    }
    DigitsExclude(e, '-');
    DigitsExclude(e, '/');
    assert '/' !in quad by {
      if '/' in quad {
        QuadChars(a, b, c, s, '/');
      }
    }
    assert t == quad + ['-'] + e;
    SplitOnCons(quad, e, '-');
    SplitOnFree(e, '-');
    assert '/' !in t;
    SplitOnFree(t, '/');
  }

  /**
   * `a.b.c.S-E` (with any surrounding white space) expands to the
   * `E - S + 1` hosts `a.b.c.S` … `a.b.c.E` when `S <= E <= 255`, and to
   * nothing otherwise.
   */
  lemma {:induction false} OctetRangeExpansion(input: string, a: string, b: string, c: string, s: string, e: string)
    requires IsOctetText(a) && IsOctetText(b) && IsOctetText(c) && IsOctetText(s) && IsOctetText(e)
    requires Trim(input) == a + "." + b + "." + c + "." + s + "-" + e
    ensures DigitsValue(s) <= DigitsValue(e) <= 255 ==>
      && |ParseIpRange(input)| == DigitsValue(e) - DigitsValue(s) + 1
      && HostRun(ParseIpRange(input), a + "." + b + "." + c, DigitsValue(s), DigitsValue(e))
    ensures !(DigitsValue(s) <= DigitsValue(e) <= 255) ==> ParseIpRange(input) == []
  {
    var prefix := a + "." + b + "." + c;
    RangeExpansionIs(input, a, b, c, s, e);
    if DigitsValue(s) <= DigitsValue(e) <= 255 {
      HostsAt(ParseIpRange(input), prefix, DigitsValue(s), DigitsValue(e));
    }
  }

  /** A sequence that is a host expansion has the expansion's shape. */
  lemma {:induction false} HostsAt(r: seq<string>, prefix: string, lo: nat, hi: int)
    requires r == Hosts(prefix, lo, hi)
    ensures HostRun(r, prefix, lo, hi)
  {
    HostsShape(prefix, lo, hi);
  }

  /**
   * `a.b.c.S-E` (with any surrounding white space) expands to the hosts the
   * push loop gives for `a.b.c` from `S` to `E` when `S <= E <= 255`, and to
   * nothing otherwise.
   */
  lemma {:induction false} RangeExpansionIs(input: string, a: string, b: string, c: string, s: string, e: string)
    requires IsOctetText(a) && IsOctetText(b) && IsOctetText(c) && IsOctetText(s) && IsOctetText(e)
    requires Trim(input) == a + "." + b + "." + c + "." + s + "-" + e
    ensures ParseIpRange(input) ==
      if DigitsValue(s) <= DigitsValue(e) <= 255
      then Hosts(a + "." + b + "." + c, DigitsValue(s), DigitsValue(e)) else []
  {
    RangeHostsOf(Trim(input), a, b, c, s, e);
  }

  lemma {:induction false} RangeHostsOf(t: string, a: string, b: string, c: string, s: string, e: string)
    requires IsOctetText(a) && IsOctetText(b) && IsOctetText(c) && IsOctetText(s) && IsOctetText(e)
    requires t == a + "." + b + "." + c + "." + s + "-" + e
    ensures IsRangeForm(t) && !IsCidrForm(t)
    ensures RangeHosts(t) ==
      if DigitsValue(s) <= DigitsValue(e) <= 255
      then Hosts(a + "." + b + "." + c, DigitsValue(s), DigitsValue(e)) else []
  {
    RangeFormParts(t, a, b, c, s, e);
    OctetValue(s);
    OctetValue(e);
  }

  /** The source reads a digit run with `parseInt`, which gives its value. */
  lemma {:induction false} OctetValue(s: string)
    requires IsOctetText(s)
    ensures ParseInt(s) == Num(DigitsValue(s))
  {
    assert s + "" == s;
    ParseIntDecimalPrefix(s, "");
  }
}
