/**
 Access rules and the compiled matcher.

 A rule's conditions must all hold. Compiling a rule parses the networks of all
 its source-address conditions into one list, which every such condition then
 consults; so a condition is tested against the union of the rule's networks and
 not against its own.
 */
module Matching {
  import opened Options

  datatype Ip = V4(bits: nat) | V6(bits: nat) {
    function Width(): nat { if V4? then 32 else 128 }
  }

  datatype Net = Net(base: Ip, prefix: nat)

  function Pow2(n: nat): (p: nat)
    ensures p > 0
  {
    if n == 0 then 1 else 2 * Pow2(n - 1)
  }

  /** Same family and the same leading `prefix` bits. */
  predicate Covers(net: Net, ip: Ip) {
    && net.base.V4? == ip.V4?
    && net.prefix <= ip.Width()
    && net.base.bits / Pow2(ip.Width() - net.prefix) == ip.bits / Pow2(ip.Width() - net.prefix)
  }

  /** A single address as a network: the full-width prefix. */
  function HostNet(ip: Ip): Net {
    Net(ip, ip.Width())
  }

  /** Text handling that the rules rely on. */
  datatype Texts = Texts(parseNet: string -> Option<Net>, parseIp: string -> Option<Ip>, lower: string -> string)

  datatype Geo = Geo(country: string, countryCode: string, isp: string)

  /** What a rule is matched against. */
  datatype Query = Query(ip: Ip, geo: Option<Geo>)

  const SOURCE_IP := 1
  const GEO_COUNTRY := 2
  const GEO_ISP := 4

  /** The operator field of a condition is not consulted. */
  datatype Condition = Condition(kind: int, operator: int, value: string, negate: bool)

  datatype Rule = Rule(
    id: string, name: string, priority: int, enabled: bool, conditions: seq<Condition>,
    action: int, targetBackend: string, rateLimit: Option<int>)

  datatype Matcher = Matcher(rule: Rule, sourceCidrs: seq<Net>)

  function AsciiLower(c: char): char {
    if 'A' <= c <= 'Z' then (c as int + 32) as char else c
  }

  predicate EqualIgnoreCase(a: string, b: string) {
    |a| == |b| && forall i :: 0 <= i < |a| ==> AsciiLower(a[i]) == AsciiLower(b[i])
  }

  predicate Contains(text: string, part: string) {
    exists i :: 0 <= i <= |text| && part <= text[i..]
  }

  /** The network a condition's value names: a prefix, else a single address, else none. */
  function NetOf(t: Texts, value: string): Option<Net> {
    if t.parseNet(value).Some? then t.parseNet(value)
    else if t.parseIp(value).Some? then Some(HostNet(t.parseIp(value).value))
    else None
  }

  function Nets(t: Texts, conditions: seq<Condition>): seq<Net> {
    if conditions == [] then [] else
      var c := conditions[|conditions| - 1];
      var before := Nets(t, conditions[..|conditions| - 1]);
      if c.kind == SOURCE_IP && NetOf(t, c.value).Some? then before + [NetOf(t, c.value).value] else before
  }

  function Compile(t: Texts, rule: Rule): Matcher {
    Matcher(rule, Nets(t, rule.conditions))
  }

  method NewMatcher(t: Texts, rule: Rule) returns (m: Matcher)
    ensures m == Compile(t, rule)
  {
    var cidrs: seq<Net> := [];
    for i := 0 to |rule.conditions|
      invariant cidrs == Nets(t, rule.conditions[..i])
    {
      assert rule.conditions[..i + 1][..i] == rule.conditions[..i];
      var c := rule.conditions[i];
      if c.kind == SOURCE_IP {
        var net := t.parseNet(c.value);
        if net.Some? {
          cidrs := cidrs + [net.value];
        } else {
          var ip := t.parseIp(c.value);
          if ip.Some? {
            cidrs := cidrs + [HostNet(ip.value)];
          }
        }
      }
    }
    assert rule.conditions[..|rule.conditions|] == rule.conditions;
    return Matcher(rule, cidrs);
  }

  predicate AnyCovers(nets: seq<Net>, ip: Ip) {
    exists i :: 0 <= i < |nets| && Covers(nets[i], ip)
  }

  /** The conditions on location; other kinds never hold. */
  predicate GeoHolds(t: Texts, c: Condition, geo: Option<Geo>) {
    && geo.Some?
    && if c.kind == GEO_COUNTRY then EqualIgnoreCase(geo.value.countryCode, c.value) || EqualIgnoreCase(geo.value.country, c.value)
       else c.kind == GEO_ISP && Contains(t.lower(geo.value.isp), t.lower(c.value))
  }

  predicate CheckCondition(t: Texts, m: Matcher, c: Condition, q: Query) {
    (if c.kind == SOURCE_IP then AnyCovers(m.sourceCidrs, q.ip) else GeoHolds(t, c, q.geo)) != c.negate
  }

  predicate Matches(t: Texts, m: Matcher, q: Query) {
    m.rule.enabled && forall i :: 0 <= i < |m.rule.conditions| ==> CheckCondition(t, m, m.rule.conditions[i], q)
  }

  // ---- The reference: networks as ranges of addresses ----

  /** The addresses fall into blocks of one size; this one is in block `m`. */
  predicate InBlock(m: int, size: int, bits: int) {
    m * size <= bits < m * size + size
  }

  ghost predicate SameBlock(size: int, a: int, b: int) {
    exists m :: InBlock(m, size, a) && InBlock(m, size, b)
  }

  /** A network is the block around its base, of 2^(32-k) addresses for a prefix of
      k bits, or of 2^(128-k) in the other family. */
  ghost predicate InNet(net: Net, ip: Ip) {
    var width := if ip.V4? then 32 else 128;
    net.base.V4? == ip.V4? && net.prefix <= width && SameBlock(Pow2(width - net.prefix), net.base.bits, ip.bits)
  }

  lemma Pow2Adds(a: nat, b: nat)
    ensures Pow2(1) == 2 && Pow2(a + b) == Pow2(a) * Pow2(b)
  {
    assert Pow2(1) == 2 * Pow2(0);
    if a == 0 {
      assert Pow2(0) * Pow2(b) == Pow2(b);
    } else {
      Pow2Adds(a - 1, b);
      assert Pow2(a + b) == 2 * (Pow2(a - 1) * Pow2(b)) == (2 * Pow2(a - 1)) * Pow2(b);
    }
  }

  lemma Scaled(a: int, b: int, size: nat)
    requires a <= b
    ensures a * size <= b * size
  {
    assert (b - a) * size >= 0;
    assert b * size == a * size + (b - a) * size;
  }

  /** The block of a number is its quotient. */
  lemma BlockIs(m: int, size: nat, bits: nat)
    requires size > 0
    ensures InBlock(m, size, bits) <==> m == bits / size
  {
    var q := bits / size;
    assert bits == q * size + bits % size;
    assert (q + 1) * size == q * size + size;
    if m < q {
      Scaled(m + 1, q, size);
    } else if m > q {
      Scaled(q + 1, m, size);
    }
  }

  lemma SameBlockIff(size: nat, a: nat, b: nat)
    requires size > 0
    ensures SameBlock(size, a, b) <==> a / size == b / size
  {
    BlockIs(a / size, size, a);
    BlockIs(b / size, size, b);
    if SameBlock(size, a, b) {
      var m :| InBlock(m, size, a) && InBlock(m, size, b);
      BlockIs(m, size, a);
      BlockIs(m, size, b);
    }
  }

  lemma CoversIff(net: Net, ip: Ip)
    ensures Covers(net, ip) <==> InNet(net, ip)
  {
    if net.prefix <= ip.Width() {
      SameBlockIff(Pow2(ip.Width() - net.prefix), net.base.bits, ip.bits);
    }
  }

  /** A network covers the addresses of its family from the multiple of its size at
      or below its base, and as many as its size. */
  lemma NetIsRange(net: Net, ip: Ip, m: int)
    requires net.prefix <= ip.Width() && InBlock(m, Pow2(ip.Width() - net.prefix), net.base.bits)
    ensures Covers(net, ip) <==> net.base.V4? == ip.V4? && InBlock(m, Pow2(ip.Width() - net.prefix), ip.bits)
  {
    BlockIs(m, Pow2(ip.Width() - net.prefix), net.base.bits);
    BlockIs(m, Pow2(ip.Width() - net.prefix), ip.bits);
  }

  /** A shorter prefix covers more. */
  lemma ShorterCoversMore(base: Ip, k: nat, j: nat, ip: Ip)
    requires k <= j && Covers(Net(base, j), ip)
    ensures Covers(Net(base, k), ip)
  {
    var a, b := Pow2(ip.Width() - j), Pow2(j - k);
    Pow2Adds(ip.Width() - j, j - k);
    DivideTwice(base.bits, a, b);
    DivideTwice(ip.bits, a, b);
  }

  lemma DivideTwice(n: nat, a: nat, b: nat)
    requires a > 0 && b > 0
    ensures a * b > 0 && n / (a * b) == n / a / b
  {
    var x := n / a;
    var y := x / b;
    assert n == x * a + n % a && x == y * b + x % b;
    Scaled(y * b, x, a);
    Scaled(x + 1, (y + 1) * b, a);
    assert (y * b) * a == y * (a * b) && ((y + 1) * b) * a == (y + 1) * (a * b);
    assert (x + 1) * a == x * a + a;
    assert a * b > 0;
    BlockIs(y, a * b, n);
  }

  lemma HostNetCoversItself(a: Ip, b: Ip)
    ensures Covers(HostNet(a), b) <==> a == b
  {
    assert Pow2(0) == 1;
  }

  // ---- The reference: each condition by itself ----

  /** The value of a source condition names a network around the address, or else
      the address itself. */
  ghost predicate Names(t: Texts, value: string, ip: Ip) {
    match t.parseNet(value)
    case Some(net) => InNet(net, ip)
    case None => t.parseIp(value) == Some(ip)
  }

  lemma NamesIff(t: Texts, value: string, ip: Ip)
    ensures Names(t, value, ip) <==> NetOf(t, value).Some? && Covers(NetOf(t, value).value, ip)
  {
    if NetOf(t, value).Some? {
      CoversIff(NetOf(t, value).value, ip);
    }
    if t.parseIp(value).Some? {
      HostNetCoversItself(t.parseIp(value).value, ip);
    }
  }

  /** The same letter, in upper or in lower case, or the same character. */
  predicate SameLetter(x: char, y: char) {
    || x == y
    || ('A' <= x <= 'Z' && y as int == x as int + 32)
    || ('A' <= y <= 'Z' && x as int == y as int + 32)
  }

  predicate SameWord(a: string, b: string) {
    |a| == |b| && forall i :: 0 <= i < |a| ==> SameLetter(a[i], b[i])
  }

  ghost predicate PartOf(part: string, text: string) {
    exists before, after :: text == before + part + after
  }

  /** Kinds 1, 2 and 4 are source address, country (by code or by name) and
      provider (by a part of its name). */
  ghost predicate Meant(t: Texts, c: Condition, q: Query) {
    match c.kind
    case 1 => Names(t, c.value, q.ip)
    case 2 => q.geo.Some? && (SameWord(q.geo.value.countryCode, c.value) || SameWord(q.geo.value.country, c.value))
    case 4 => q.geo.Some? && PartOf(t.lower(c.value), t.lower(q.geo.value.isp))
    case _ => false
  }

  lemma ContainsIff(text: string, part: string)
    ensures Contains(text, part) <==> PartOf(part, text)
  {
    if Contains(text, part) {
      var i :| 0 <= i <= |text| && part <= text[i..];
      assert text == text[..i] + part + text[i + |part|..];
    }
    if PartOf(part, text) {
      var before, after :| text == before + part + after;
      assert text[|before|..] == part + after;
    }
  }

  lemma GeoHoldsIff(t: Texts, c: Condition, q: Query)
    requires c.kind != SOURCE_IP
    ensures GeoHolds(t, c, q.geo) <==> Meant(t, c, q)
  {
    if q.geo.Some? {
      ContainsIff(t.lower(q.geo.value.isp), t.lower(c.value));
    }
  }

  ghost predicate Holds(t: Texts, c: Condition, q: Query) {
    Meant(t, c, q) != c.negate
  }

  ghost predicate AllHold(t: Texts, rule: Rule, q: Query) {
    rule.enabled && forall i :: 0 <= i < |rule.conditions| ==> Holds(t, rule.conditions[i], q)
  }

  /** Some source condition of the rule names a network around this address. */
  ghost predicate InUnion(t: Texts, conditions: seq<Condition>, ip: Ip) {
    exists i :: 0 <= i < |conditions| && conditions[i].kind == SOURCE_IP && Names(t, conditions[i].value, ip)
  }

  lemma {:induction false} PooledNets(t: Texts, conditions: seq<Condition>, ip: Ip)
    ensures AnyCovers(Nets(t, conditions), ip) <==> InUnion(t, conditions, ip)
  {
    if conditions != [] {
      var n := |conditions| - 1;
      var before, c := conditions[..n], conditions[n];
      PooledNets(t, before, ip);
      NamesIff(t, c.value, ip);
      var nets := Nets(t, before);
      assert InUnion(t, conditions, ip) <==> InUnion(t, before, ip) || (c.kind == SOURCE_IP && Names(t, c.value, ip));
      if c.kind == SOURCE_IP && NetOf(t, c.value).Some? {
        var net := NetOf(t, c.value).value;
        assert (nets + [net])[|nets|] == net;
        assert forall i :: 0 <= i < |nets| ==> (nets + [net])[i] == nets[i];
      }
    }
  }

  /** What a compiled rule tests: its location conditions one by one, and the
      union of its networks, in which an address must lie if any source condition
      is plain and must not lie if any is negated. */
  lemma CompiledMeaning(t: Texts, rule: Rule, q: Query)
    ensures Matches(t, Compile(t, rule), q) <==>
              && rule.enabled
              && (forall i :: 0 <= i < |rule.conditions| && rule.conditions[i].kind != SOURCE_IP ==> Holds(t, rule.conditions[i], q))
              && (HasSource(rule, false) ==> InUnion(t, rule.conditions, q.ip))
              && (HasSource(rule, true) ==> !InUnion(t, rule.conditions, q.ip))
  {
    PooledNets(t, rule.conditions, q.ip);
    var m := Compile(t, rule);
    if HasSource(rule, false) && !InUnion(t, rule.conditions, q.ip) {
      var i :| 0 <= i < |rule.conditions| && rule.conditions[i].kind == SOURCE_IP && !rule.conditions[i].negate;
      assert !CheckCondition(t, m, rule.conditions[i], q);
    }
    if HasSource(rule, true) && InUnion(t, rule.conditions, q.ip) {
      var i :| 0 <= i < |rule.conditions| && rule.conditions[i].kind == SOURCE_IP && rule.conditions[i].negate;
      assert !CheckCondition(t, m, rule.conditions[i], q);
    }
    forall i | 0 <= i < |rule.conditions| && rule.conditions[i].kind != SOURCE_IP
      ensures CheckCondition(t, m, rule.conditions[i], q) <==> Holds(t, rule.conditions[i], q)
    {
      GeoHoldsIff(t, rule.conditions[i], q);
    }
  }

  predicate HasSource(rule: Rule, negate: bool) {
    exists i :: 0 <= i < |rule.conditions| && rule.conditions[i].kind == SOURCE_IP && rule.conditions[i].negate == negate
  }

  /** A rule for one network less another never matches anything. */
  lemma PlainAndNegatedNeverMatch(t: Texts, rule: Rule, q: Query)
    requires HasSource(rule, false) && HasSource(rule, true)
    ensures !Matches(t, Compile(t, rule), q)
  {
    CompiledMeaning(t, rule, q);
  }

  predicate AtMostOneSource(rule: Rule) {
    forall i, j :: 0 <= i < j < |rule.conditions| ==> rule.conditions[i].kind != SOURCE_IP || rule.conditions[j].kind != SOURCE_IP
  }

  /** With at most one source condition the compiled rule means what it says. */
  lemma OneSourceAgrees(t: Texts, rule: Rule, q: Query)
    requires AtMostOneSource(rule)
    ensures Matches(t, Compile(t, rule), q) <==> AllHold(t, rule, q)
  {
    PooledNets(t, rule.conditions, q.ip);
    forall i | 0 <= i < |rule.conditions|
      ensures CheckCondition(t, Compile(t, rule), rule.conditions[i], q) <==> Holds(t, rule.conditions[i], q)
    {
      if rule.conditions[i].kind == SOURCE_IP {
        assert InUnion(t, rule.conditions, q.ip) <==> Names(t, rule.conditions[i].value, q.ip);
      } else {
        GeoHoldsIff(t, rule.conditions[i], q);
      }
    }
  }

  ghost predicate SameNetworks(t: Texts, rule: Rule) {
    forall i, j, ip ::
      0 <= i < |rule.conditions| && 0 <= j < |rule.conditions| &&
      rule.conditions[i].kind == SOURCE_IP && rule.conditions[j].kind == SOURCE_IP ==>
        (Names(t, rule.conditions[i].value, ip) <==> Names(t, rule.conditions[j].value, ip))
  }

  ghost predicate EveryConditionAgrees(t: Texts, rule: Rule) {
    forall i, q :: 0 <= i < |rule.conditions| ==>
      (CheckCondition(t, Compile(t, rule), rule.conditions[i], q) <==> Holds(t, rule.conditions[i], q))
  }

  /** Every condition is tested as written exactly when all the source conditions
      of the rule name the same addresses. */
  lemma ConditionsAgreeIff(t: Texts, rule: Rule)
    ensures EveryConditionAgrees(t, rule) <==> SameNetworks(t, rule)
  {
    var cs := rule.conditions;
    if SameNetworks(t, rule) {
      forall i, q: Query | 0 <= i < |cs|
        ensures CheckCondition(t, Compile(t, rule), cs[i], q) <==> Holds(t, cs[i], q)
      {
        PooledNets(t, cs, q.ip);
        if cs[i].kind == SOURCE_IP {
          assert InUnion(t, cs, q.ip) <==> Names(t, cs[i].value, q.ip);
        } else {
          GeoHoldsIff(t, cs[i], q);
        }
      }
    }
    if EveryConditionAgrees(t, rule) {
      forall i, j, ip |
        0 <= i < |cs| && 0 <= j < |cs| && cs[i].kind == SOURCE_IP && cs[j].kind == SOURCE_IP
        ensures Names(t, cs[i].value, ip) <==> Names(t, cs[j].value, ip)
      {
        var q := Query(ip, None);
        assert CheckCondition(t, Compile(t, rule), cs[i], q) <==> Holds(t, cs[i], q);
        assert CheckCondition(t, Compile(t, rule), cs[j], q) <==> Holds(t, cs[j], q);
      }
    }
  }
}
