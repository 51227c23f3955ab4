/**
 * The Tailscale target registry: the range test for 100.64.0.0/10, the
 * hostname test, the configured targets (a set kept in insertion order),
 * the choice of this device's own addresses, the combined target list
 * without duplicates, and the shape of a ping round's result.
 */
module Tailscale {
  import opened Text

  // -------------------------------------------------------------- the range test

  /**
   * `isTailscaleIp`: four dot-separated parts, the first parsing to 100 and
   * the second to 64..127; the last two parts are not looked at.
   */
  predicate IsTailscaleIp(ip: string) {
    var parts := Split(ip, '.');
    && |parts| == 4
    && ParseInt(parts[0]) == Some(100)
    && ParseInt(parts[1]).Some?
    && 64 <= ParseInt(parts[1]).value <= 127
  }

  /** The dotted-quad text of four octets. */
  function Quad(a: nat, b: nat, c: nat, d: nat): string {
    Join([Decimal(a), Decimal(b), Decimal(c), Decimal(d)], '.')
  }

  /** The address's 32-bit value lies in 100.64.0.0/10: its top ten bits are 0110010001. */
  predicate InCgnatRange(a: nat, b: nat, c: nat, d: nat)
    requires a < 256 && b < 256 && c < 256 && d < 256
  {
    var value := ((a * 256 + b) * 256 + c) * 256 + d;
    value / 0x40_0000 == (100 * 0x100_0000 + 64 * 0x1_0000) / 0x40_0000
  }

  /** Splitting at a first piece that holds no delimiter. */
  lemma {:induction false} SplitPrefix(x: string, sep: char, rest: string)
    requires forall i :: 0 <= i < |x| ==> x[i] != sep
    ensures Split(x + [sep] + rest, sep) == [x] + Split(rest, sep)
  {
    if x == [] {
      assert x + [sep] + rest == [sep] + rest;
      assert ([sep] + rest)[1..] == rest;
    } else {
      var s := x + [sep] + rest;
      assert s[1..] == x[1..] + [sep] + rest;
      SplitPrefix(x[1..], sep, rest);
      assert [x[0]] + x[1..] == x;
    }
  }

  /** A string without the delimiter is one piece. */
  lemma {:induction false} SplitNoSep(x: string, sep: char)
    requires forall i :: 0 <= i < |x| ==> x[i] != sep
    ensures Split(x, sep) == [x]
  {
    if x != [] {
      SplitNoSep(x[1..], sep);
      assert [x[0]] + x[1..] == x;
    }
  }

  predicate NoDot(x: string) { forall i :: 0 <= i < |x| ==> x[i] != '.' }

  /** Pieces without the delimiter, joined by it, split back into those pieces. */
  lemma {:induction false} SplitOfJoin(parts: seq<string>, sep: char)
    requires |parts| >= 1
    requires forall k, j :: 0 <= k < |parts| && 0 <= j < |parts[k]| ==> parts[k][j] != sep
    ensures Split(Join(parts, sep), sep) == parts
  {
    if |parts| == 1 {
      SplitNoSep(parts[0], sep);
    } else {
      SplitPrefix(parts[0], sep, Join(parts[1..], sep));
      SplitOfJoin(parts[1..], sep);
      assert [parts[0]] + parts[1..] == parts;
    }
  }

  /** Four dot-free pieces joined by dots split back into those pieces. */
  lemma SplitFour(p0: string, p1: string, p2: string, p3: string)
    requires NoDot(p0) && NoDot(p1) && NoDot(p2) && NoDot(p3)
    ensures Split(Join([p0, p1, p2, p3], '.'), '.') == [p0, p1, p2, p3]
  {
    var parts := [p0, p1, p2, p3];
    assert forall k :: 0 <= k < 4 ==> NoDot(parts[k]);
    SplitOfJoin(parts, '.');
  }

  lemma DecimalHasNoDot(n: nat)
    ensures NoDot(Decimal(n))
  {
    var s := Decimal(n);
    assert forall i :: 0 <= i < |s| ==> IsDigit(s[i]);
  }

  /** The range in terms of the first two octets. */
  lemma CgnatOctets(a: nat, b: nat, c: nat, d: nat)
    requires a < 256 && b < 256 && c < 256 && d < 256
    ensures InCgnatRange(a, b, c, d) <==> a == 100 && 64 <= b <= 127
  {
    var value := ((a * 256 + b) * 256 + c) * 256 + d;
    assert value == a * 0x100_0000 + b * 0x1_0000 + c * 256 + d;
    assert (100 * 0x100_0000 + 64 * 0x1_0000) / 0x40_0000 == 401;
  }

  /** The string test on the text of four octets, in terms of the first two. */
  lemma QuadIsTailscaleIp(a: nat, b: nat, c: nat, d: nat)
    ensures IsTailscaleIp(Quad(a, b, c, d)) <==> a == 100 && 64 <= b <= 127
  {
    DecimalHasNoDot(a); DecimalHasNoDot(b); DecimalHasNoDot(c); DecimalHasNoDot(d);
    SplitFour(Decimal(a), Decimal(b), Decimal(c), Decimal(d));
    DecimalParses(a);
    DecimalParses(b);
  }

  /**
   * For the text of four octets, the string test agrees with the address
   * range 100.64.0.0/10.
   */
  lemma TailscaleIpIsCgnat(a: nat, b: nat, c: nat, d: nat)
    requires a < 256 && b < 256 && c < 256 && d < 256
    ensures IsTailscaleIp(Quad(a, b, c, d)) <==> InCgnatRange(a, b, c, d)
  {
    CgnatOctets(a, b, c, d);
    QuadIsTailscaleIp(a, b, c, d);
  }

  /** The parts after the second are not looked at: any dot-free text passes there. */
  lemma TailscaleIpIgnoresLastParts(b: nat, c: string, d: string)
    requires NoDot(c) && NoDot(d)
    ensures IsTailscaleIp(Join([Decimal(100), Decimal(b), c, d], '.')) <==> 64 <= b <= 127
  {
    DecimalHasNoDot(100); DecimalHasNoDot(b);
    SplitFour(Decimal(100), Decimal(b), c, d);
    DecimalParses(100);
    DecimalParses(b);
  }

  /** Anything without exactly three dots is refused. */
  lemma TailscaleIpHasThreeDots(s: string)
    requires Count(s, '.') != 3
    ensures !IsTailscaleIp(s)
  {
    SplitCount(s, '.');
  }

  // ------------------------------------------------------------ the hostname test

  predicate IsAlnum(c: char) {
    ('a' <= c <= 'z') || ('A' <= c <= 'Z') || ('0' <= c <= '9')
  }

  predicate IsHostChar(c: char) { IsAlnum(c) || c == '-' }

  /** `^[a-zA-Z0-9][a-zA-Z0-9-]*[a-zA-Z0-9]$` */
  predicate MatchesLongHostname(s: string) {
    |s| >= 2 && IsAlnum(s[0]) && IsAlnum(s[|s| - 1])
    && forall i :: 1 <= i < |s| - 1 ==> IsHostChar(s[i])
  }

  /** `^[a-zA-Z0-9]+$` */
  predicate MatchesShortHostname(s: string) {
    |s| >= 1 && forall i :: 0 <= i < |s| ==> IsAlnum(s[i])
  }

  /** `isValidHostname`: either pattern matches the whole string. */
  predicate IsValidHostname(s: string) {
    MatchesLongHostname(s) || MatchesShortHostname(s)
  }

  /**
   * A hostname is valid exactly when it is non-empty, made of letters,
   * digits and '-', and starts and ends with a letter or digit.
   */
  lemma HostnameIff(s: string)
    ensures IsValidHostname(s) <==>
      |s| >= 1 && IsAlnum(s[0]) && IsAlnum(s[|s| - 1]) && forall i :: 0 <= i < |s| ==> IsHostChar(s[i])
  {
  }

  /** A dot is not a hostname character, so MagicDNS names with a domain are refused. */
  lemma DottedNameRejected(s: string, k: nat)
    requires k < |s| && s[k] == '.'
    ensures !IsValidHostname(s)
  {
  }

  // ----------------------------------------------------------- sequences as sets

  predicate NoDup<T(==)>(s: seq<T>) {
    forall i, j :: 0 <= i < j < |s| ==> s[i] != s[j]
  }

  lemma NoDupSnoc<T>(s: seq<T>, x: T)
    requires NoDup(s) && x !in s
    ensures NoDup(s + [x])
  {
  }

  /** The sequence with every occurrence of `x` taken out, the rest in order. */
  function Without<T(==,!new)>(s: seq<T>, x: T): (r: seq<T>)
    ensures x !in r
    ensures forall y :: y in r <==> y in s && y != x
    ensures NoDup(s) ==> NoDup(r)
  {
    if s == [] then []
    else
      var rest := Without(s[1..], x);
      if s[0] == x then rest
      else
        assert NoDup(s) ==> s[0] !in s[1..];
        [s[0]] + rest
  }

  /** `distinct()`: the first occurrence of every element, in order. */
  function Distinct<T(==,!new)>(s: seq<T>): (r: seq<T>)
    ensures NoDup(r)
    ensures forall y :: y in r <==> y in s
  {
    if s == [] then []
    else
      var d := Distinct(s[..|s| - 1]);
      var x := s[|s| - 1];
      assert s == s[..|s| - 1] + [x];
      if x in d then d else d + [x]
  }

  lemma {:induction false} DistinctOfNoDup<T(!new)>(s: seq<T>)
    requires NoDup(s)
    ensures Distinct(s) == s
  {
    if s != [] {
      var init := s[..|s| - 1];
      assert NoDup(init);
      DistinctOfNoDup(init);
      assert s[|s| - 1] !in init;
      assert s == init + [s[|s| - 1]];
    }
  }

  /** The distinct elements of a list come first in the distinct elements of any extension. */
  lemma {:induction false} DistinctPrefix<T(!new)>(a: seq<T>, b: seq<T>)
    ensures |Distinct(a)| <= |Distinct(a + b)| && Distinct(a + b)[..|Distinct(a)|] == Distinct(a)
  {
    if b == [] {
      assert a + b == a;
    } else {
      var b0 := b[..|b| - 1];
      DistinctPrefix(a, b0);
      assert (a + b)[..|a + b| - 1] == a + b0;
      var d0 := Distinct(a + b0);
      assert Distinct(a + b) == d0 || Distinct(a + b) == d0 + [b[|b| - 1]];
      assert (d0 + [b[|b| - 1]])[..|d0|] == d0;
    }
  }

  // ------------------------------------------------------------ local addresses

  /** An address of a network interface. */
  datatype Address = Address(hostAddress: Option<string>, isLoopback: bool)

  /** The addresses `getLocalTailscaleIps` keeps: known, not loopback, IPv4 (no ':'). */
  predicate Usable(a: Address) {
    a.hostAddress.Some? && !a.isLoopback && ':' !in a.hostAddress.value
  }

  function UsableOf(addrs: seq<Address>): seq<string> {
    if addrs == [] then []
    else
      var a := addrs[|addrs| - 1];
      UsableOf(addrs[..|addrs| - 1]) + (if Usable(a) then [a.hostAddress.value] else [])
  }

  function UsableAll(intfs: seq<seq<Address>>): seq<string> {
    if intfs == [] then [] else UsableAll(intfs[..|intfs| - 1]) + UsableOf(intfs[|intfs| - 1])
  }

  /** The addresses in the Tailscale range, in order. */
  function TailscaleOnly(ips: seq<string>): seq<string> {
    if ips == [] then []
    else
      var x := ips[|ips| - 1];
      TailscaleOnly(ips[..|ips| - 1]) + (if IsTailscaleIp(x) then [x] else [])
  }

  lemma {:induction false} TailscaleOnlyMembers(ips: seq<string>)
    ensures forall x :: x in TailscaleOnly(ips) <==> x in ips && IsTailscaleIp(x)
  {
    if ips != [] {
      var init, x := ips[..|ips| - 1], ips[|ips| - 1];
      assert ips == init + [x];
      TailscaleOnlyMembers(init);
    }
  }

  /**
   * `getLocalTailscaleIps` on the enumerated interfaces (None when the
   * enumeration throws): the usable addresses in the Tailscale range, or,
   * when there are none, every usable address.
   */
  function LocalSelection(interfaces: Option<seq<seq<Address>>>): seq<string> {
    if interfaces.None? then []
    else
      var all := UsableAll(interfaces.value);
      var ts := TailscaleOnly(all);
      if ts == [] && all != [] then all else ts
  }

  /**
   * The selection holds only usable addresses; it is the Tailscale ones
   * when there are any, and otherwise all of them.
   */
  lemma LocalSelectionSpec(intfs: seq<seq<Address>>)
    ensures var all := UsableAll(intfs);
      var r := LocalSelection(Some(intfs));
      && (forall x :: x in r ==> x in all)
      && ((exists x :: x in all && IsTailscaleIp(x)) ==> forall x :: x in r <==> x in all && IsTailscaleIp(x))
      && ((forall x :: x in all ==> !IsTailscaleIp(x)) ==> r == all)
  {
    var all := UsableAll(intfs);
    var ts := TailscaleOnly(all);
    TailscaleOnlyMembers(all);
    if exists x :: x in all && IsTailscaleIp(x) {
      var x :| x in all && IsTailscaleIp(x);
      assert x in ts;
    } else if ts != [] {
      assert ts[0] in ts;
    }
  }

  lemma UsableOfSnoc(addrs: seq<Address>, a: Address)
    ensures UsableOf(addrs + [a]) == UsableOf(addrs) + (if Usable(a) then [a.hostAddress.value] else [])
  {
    assert (addrs + [a])[..|addrs|] == addrs;
  }

  lemma TailscaleOnlySnoc(ips: seq<string>, x: string)
    ensures TailscaleOnly(ips + [x]) == TailscaleOnly(ips) + (if IsTailscaleIp(x) then [x] else [])
  {
    assert (ips + [x])[..|ips|] == ips;
  }

  lemma UsableAllSnoc(intfs: seq<seq<Address>>, addrs: seq<Address>)
    ensures UsableAll(intfs + [addrs]) == UsableAll(intfs) + UsableOf(addrs)
  {
    assert (intfs + [addrs])[..|intfs|] == intfs;
  }

  /** The inner loop of the scan: the addresses of one interface. */
  method ScanAddresses(addrs: seq<Address>, allIps0: seq<string>, tailscaleIps0: seq<string>)
      returns (allIps: seq<string>, tailscaleIps: seq<string>)
    requires tailscaleIps0 == TailscaleOnly(allIps0)
    ensures allIps == allIps0 + UsableOf(addrs)
    ensures tailscaleIps == TailscaleOnly(allIps)
  {
    allIps, tailscaleIps := allIps0, tailscaleIps0;
    var j := 0;
    while j < |addrs|
      invariant 0 <= j <= |addrs|
      invariant allIps == allIps0 + UsableOf(addrs[..j])
      invariant tailscaleIps == TailscaleOnly(allIps)
    {
      var addr := addrs[j];
      UsableOfSnoc(addrs[..j], addr);
      assert addrs[..j + 1] == addrs[..j] + [addr];
      if addr.hostAddress.Some? && !addr.isLoopback && ':' !in addr.hostAddress.value {
        var hostAddress := addr.hostAddress.value;
        TailscaleOnlySnoc(allIps, hostAddress);
        allIps := allIps + [hostAddress];
        if IsTailscaleIp(hostAddress) {
          tailscaleIps := tailscaleIps + [hostAddress];
        }
      }
      j := j + 1;
    }
    assert addrs[..j] == addrs;
  }

  /** The scan itself: interface by interface, address by address. */
  method GetLocalTailscaleIps(interfaces: Option<seq<seq<Address>>>) returns (ips: seq<string>)
    ensures ips == LocalSelection(interfaces)
  {
    var tailscaleIps: seq<string> := [];
    var allIps: seq<string> := [];
    if interfaces.None? {
      return tailscaleIps;
    }
    var intfs := interfaces.value;
    var i := 0;
    while i < |intfs|
      invariant 0 <= i <= |intfs|
      invariant allIps == UsableAll(intfs[..i])
      invariant tailscaleIps == TailscaleOnly(allIps)
    {
      UsableAllSnoc(intfs[..i], intfs[i]);
      assert intfs[..i + 1] == intfs[..i] + [intfs[i]];
      allIps, tailscaleIps := ScanAddresses(intfs[i], allIps, tailscaleIps);
      i := i + 1;
    }
    assert intfs[..i] == intfs;
    if tailscaleIps == [] && allIps != [] {
      return allIps;
    }
    return tailscaleIps;
  }

  // ------------------------------------------------------------- the registry

  /** The built-in targets. */
  const DefaultTargets: seq<string> := [
    "erics-macbook-pro-2",
    "iphone-14-pro-max",
    "laptop-l2vhnlt6",
    "whs-macbook-pro-1",
    "matt.tail08eb66.ts.net",
    "oppo-cph2697.tail08eb66.ts.net"]

  /** A name with a dot whose first character cannot start a number is refused outright. */
  lemma DottedNameNotAcceptable(s: string, k: nat)
    requires k < |s| && s[k] == '.'
    requires s[0] != '.' && !IsDigit(s[0]) && s[0] != '-' && s[0] != '+'
    ensures !Acceptable(s)
  {
    DottedNameRejected(s, k);
    var first := Split(s, '.')[0];
    assert first != [] && first[0] == s[0];
  }

  /** Two built-in targets, the ones with a domain, are names `addTailscaleIp` itself would refuse. */
  lemma DefaultsNotAddable(i: nat)
    requires i == 4 || i == 5
    ensures !Acceptable(DefaultTargets[i])
  {
    var s := DefaultTargets[i];
    var k := if i == 4 then 4 else 12;
    assert s[k] == '.';
    DottedNameNotAcceptable(s, k);
  }

  /** Whether `addTailscaleIp` accepts a (trimmed) target. */
  predicate Acceptable(t: string) {
    t != [] && (IsTailscaleIp(t) || IsValidHostname(t))
  }

  /**
   * `TailscalePinger`: the configured targets, a set that remembers
   * insertion order.
   */
  class TailscalePinger {
    var configured: seq<string>

    ghost predicate Valid()
      reads this
    {
      NoDup(configured)
    }

    constructor ()
      ensures Valid() && configured == DefaultTargets
    {
      configured := DefaultTargets;
    }

    /**
     * `addTailscaleIp`: trim; ignore a blank input or one that is neither
     * an address in range nor a hostname; otherwise add it, which changes
     * nothing when it is already there.
     */
    method AddTailscaleIp(ip: string)
      requires Valid()
      modifies this
      ensures Valid()
      ensures var t := Trim(ip);
        configured == if Acceptable(t) && t !in old(configured) then old(configured) + [t] else old(configured)
    {
      var trimmed := Trim(ip);
      if trimmed != [] {
        if IsTailscaleIp(trimmed) || IsValidHostname(trimmed) {
          if trimmed !in configured {
            NoDupSnoc(configured, trimmed);
            configured := configured + [trimmed];
          }
        }
      }
    }

    /** `removeTailscaleIp`: remove exactly the given string, untrimmed. */
    method RemoveTailscaleIp(ip: string)
      requires Valid()
      modifies this
      ensures Valid()
      ensures configured == Without(old(configured), ip)
    {
      configured := Without(configured, ip);
    }

    /** `getConfiguredIps`: a copy of the set at call time. */
    method GetConfiguredIps() returns (s: seq<string>)
      ensures s == configured
    {
      s := configured;
    }

    /** `clearConfiguredIps` */
    method ClearConfiguredIps()
      modifies this
      ensures Valid() && configured == []
    {
      configured := [];
    }

    /** `getTailscaleIps`: this device's addresses, then the configured targets, without repeats. */
    method GetTailscaleIps(interfaces: Option<seq<seq<Address>>>) returns (targets: seq<string>)
      ensures targets == Targets(interfaces, configured)
    {
      var localIps := GetLocalTailscaleIps(interfaces);
      targets := Distinct(localIps + configured);
    }

    /**
     * `pingAllTailscaleConnections`: no targets, no results; otherwise the
     * reachability of every target, by target. `reachable` stands for the
     * network probe.
     */
    method PingAll(interfaces: Option<seq<seq<Address>>>, reachable: string -> bool) returns (results: map<string, bool>)
      ensures results == PingResults(Targets(interfaces, configured), reachable)
    {
      var targets := GetTailscaleIps(interfaces);
      if targets == [] {
        return map[];
      }
      results := map[];
      var i := 0;
      while i < |targets|
        invariant 0 <= i <= |targets|
        invariant results == PingResults(targets[..i], reachable)
      {
        var target := targets[i];
        var success := reachable(target);
        assert targets[..i + 1] == targets[..i] + [target];
        results := results[target := success];
        i := i + 1;
      }
      assert targets[..i] == targets;
    }
  }

  /** The ping targets: local ones first, then configured ones, first occurrences only. */
  function Targets(interfaces: Option<seq<seq<Address>>>, configured: seq<string>): (r: seq<string>)
    ensures NoDup(r)
    ensures forall x :: x in r <==> x in LocalSelection(interfaces) || x in configured
  {
    Distinct(LocalSelection(interfaces) + configured)
  }

  /** The results map built target by target. */
  function PingResults(targets: seq<string>, reachable: string -> bool): map<string, bool> {
    if targets == [] then map[]
    else
      var t := targets[|targets| - 1];
      PingResults(targets[..|targets| - 1], reachable)[t := reachable(t)]
  }

  /** One entry per target, holding that target's reachability; none at all without targets. */
  lemma {:induction false} PingResultsShape(targets: seq<string>, reachable: string -> bool)
    ensures PingResults(targets, reachable).Keys == set t | t in targets
    ensures forall t :: t in targets ==> PingResults(targets, reachable)[t] == reachable(t)
  {
    if targets != [] {
      var init := targets[..|targets| - 1];
      var t := targets[|targets| - 1];
      PingResultsShape(init, reachable);
      assert targets == init + [t];
    }
  }

  /** Distinct targets give as many results as targets. */
  lemma {:induction false} PingResultsSize(targets: seq<string>, reachable: string -> bool)
    requires NoDup(targets)
    ensures |PingResults(targets, reachable)| == |targets|
  {
    if targets != [] {
      var init := targets[..|targets| - 1];
      var t := targets[|targets| - 1];
      assert NoDup(init) by {
        forall i, j | 0 <= i < j < |init| ensures init[i] != init[j] {
          assert init[i] == targets[i] && init[j] == targets[j];
        }
      }
      PingResultsSize(init, reachable);
      PingResultsShape(init, reachable);
      assert t !in init by {
        forall i | 0 <= i < |init| ensures init[i] != t {
          assert init[i] == targets[i];
        }
      }
      assert t !in PingResults(init, reachable).Keys;
    }
  }

  /** The configured targets are always among the targets, after this device's own. */
  lemma TargetsOrder(interfaces: Option<seq<seq<Address>>>, configured: seq<string>)
    requires NoDup(LocalSelection(interfaces))
    ensures var l := LocalSelection(interfaces);
      |l| <= |Targets(interfaces, configured)| && Targets(interfaces, configured)[..|l|] == l
  {
    var l := LocalSelection(interfaces);
    DistinctPrefix(l, configured);
    DistinctOfNoDup(l);
  }
}
