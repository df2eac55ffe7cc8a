/** The forwarding policy (internal/forwarding/policy.go): how a host and port are printed, how
    allowlists and role lists are parsed from comma-separated text, and what a policy admits. */
module ForwardPolicy {
  import opened Text
  import opened Sequences

  // ---- Printing a target ----

  /** net.JoinHostPort: a host with a colon is put in brackets. */
  function JoinHostPort(host: string, port: string): string {
    if ':' in host then "[" + host + "]" + ":" + port else host + ":" + port
  }

  function NormalizeTarget(host: string, port: nat): string {
    ToLower(JoinHostPort(Trim(host), Decimal(port)))
  }

  lemma LowerKeeps(s: string, c: char)
    requires !('a' <= c <= 'z') && !('A' <= c <= 'Z')
    ensures c in ToLower(s) <==> c in s
  {
    if c in s {
      var i :| 0 <= i < |s| && s[i] == c;
      assert ToLower(s)[i] == c;
    }
    if c in ToLower(s) {
      var i :| 0 <= i < |s| && ToLower(s)[i] == c;
      assert s[i] == c;
    }
  }

  lemma LowerFixes(s: string)
    requires forall i :: 0 <= i < |s| ==> !('A' <= s[i] <= 'Z')
    ensures ToLower(s) == s
  {
  }

  lemma TrimKeeps(s: string, c: char)
    requires !IsSpace(c)
    ensures c in Trim(s) <==> c in s
  {
    var pre, post := TrimSplits(s);
    hide Trim;
    var t := Trim(s);
    if c in s {
      var i :| 0 <= i < |s| && s[i] == c;
      assert |pre| <= i < |pre| + |t|;
      assert t[i - |pre|] == c;
    }
    if c in t {
      var i :| 0 <= i < |t| && t[i] == c;
      assert s[|pre| + i] == c;
    }
  }

  /** Lower-casing the printed target only lower-cases the host; brackets go around hosts with a colon. */
  lemma TargetForm(host: string, port: nat)
    ensures NormalizeTarget(host, port) == JoinHostPort(Normalize(host), Decimal(port))
    ensures NormalizeTarget(host, port) ==
            if ':' in host then "[" + Normalize(host) + "]" + ":" + Decimal(port)
            else Normalize(host) + ":" + Decimal(port)
  {
    var h, d := Trim(host), Decimal(port);
    LowerKeeps(h, ':');
    TrimKeeps(host, ':');
    LowerFixes(d);
    LowerFixes("[");
    LowerFixes("]");
    LowerFixes(":");
    if ':' in h {
      LowerConcat("[" + h + "]" + ":", d);
      LowerConcat("[" + h + "]", ":");
      LowerConcat("[" + h, "]");
      LowerConcat("[", h);
    } else {
      LowerConcat(h + ":", d);
      LowerConcat(h, ":");
    }
  }

  /** A digit tail is found again from the right, because no digit is a colon. */
  lemma TailUnique(x: string, d: string, y: string, e: string)
    requires AllDigits(d) && AllDigits(e) && x + ":" + d == y + ":" + e
    ensures x == y && d == e
  {
    var s := x + ":" + d;
    assert s[|x|] == ':' && s[|y|] == ':';
    assert forall k :: |x| < k < |s| ==> s[k] == d[k - |x| - 1];
    assert forall k :: |y| < k < |s| ==> s[k] == e[k - |y| - 1];
    assert s[..|x|] == x && s[..|y|] == y;
    assert s[|x| + 1..] == d && s[|y| + 1..] == e;
  }

  function Bracketed(host: string): string {
    if ':' in host then "[" + host + "]" else host
  }

  lemma BracketedInjective(a: string, b: string)
    requires Bracketed(a) == Bracketed(b)
    ensures a == b
  {
    if ':' in a {
      assert Bracketed(a)[1..|a| + 1] == a;
      var i :| 0 <= i < |a| && a[i] == ':';
      assert Bracketed(a)[i + 1] == ':';
    }
    if ':' in b {
      assert Bracketed(b)[1..|b| + 1] == b;
      var i :| 0 <= i < |b| && b[i] == ':';
      assert Bracketed(b)[i + 1] == ':';
    }
  }

  /** Two targets print alike exactly when their hosts agree up to case and surrounding space and their
      ports are equal: brackets keep IPv6 hosts apart from everything else. */
  lemma NormalizeTargetInjective(h1: string, p1: nat, h2: string, p2: nat)
    ensures NormalizeTarget(h1, p1) == NormalizeTarget(h2, p2) <==> Normalize(h1) == Normalize(h2) && p1 == p2
  {
    TargetForm(h1, p1);
    TargetForm(h2, p2);
    var a, b := Normalize(h1), Normalize(h2);
    hide Normalize, Decimal;
    assert JoinHostPort(a, Decimal(p1)) == Bracketed(a) + ":" + Decimal(p1);
    assert JoinHostPort(b, Decimal(p2)) == Bracketed(b) + ":" + Decimal(p2);
    if NormalizeTarget(h1, p1) == NormalizeTarget(h2, p2) {
      TailUnique(Bracketed(a), Decimal(p1), Bracketed(b), Decimal(p2));
      BracketedInjective(a, b);
      ParseInvertsDecimal(p1);
      ParseInvertsDecimal(p2);
    }
  }

  /** A printed target is in normal form already and not empty. */
  lemma TargetNormal(host: string, port: nat)
    ensures Normalize(NormalizeTarget(host, port)) == NormalizeTarget(host, port) != ""
  {
    TargetForm(host, port);
    NormalizeTight(host);
    var t := NormalizeTarget(host, port);
    assert Tight(t) by {
      var d := Decimal(port);
      assert t[|t| - 1] == d[|d| - 1];
    }
    TrimTight(t);
    assert ToLower(t) == t;
  }

  // ---- Comma-separated sets ----

  /** The non-empty normalized items. */
  function ParseSet(value: string): set<string> {
    set item | item in Split(value, ',') && Normalize(item) != "" :: Normalize(item)
  }

  method ParseCsvSet(value: string) returns (out: set<string>)
    ensures out == ParseSet(value)
  {
    var items := Split(value, ',');
    out := {};
    for i := 0 to |items|
      invariant out == set item | item in items[..i] && Normalize(item) != "" :: Normalize(item)
    {
      assert items[..i + 1] == items[..i] + [items[i]];
      var v := Normalize(items[i]);
      if v != "" {
        out := out + {v};
      }
    }
    assert items[..|items|] == items;
  }

  lemma NormalizeFree(s: string, sep: char)
    requires Free(s, sep) && !('a' <= sep <= 'z') && !('A' <= sep <= 'Z')
    ensures Free(Normalize(s), sep)
  {
    var pre, post := TrimSplits(s);
    LowerKeeps(Trim(s), sep);
    assert forall c :: c in Trim(s) ==> c in pre + Trim(s) + post;
  }

  /** Members of a parsed set are normal, non-empty and free of commas. */
  lemma ParseSetNormal(value: string, x: string)
    requires x in ParseSet(value)
    ensures Normalize(x) == x != "" && Free(x, ',')
  {
    var item :| item in Split(value, ',') && Normalize(item) != "" && x == Normalize(item);
    NormalizeTight(item);
    NormalizeFree(item, ',');
  }

  /** Parsing a printed list of normal, non-empty, comma-free items gives back exactly those items. */
  lemma ParsePrinted(items: seq<string>)
    requires forall x :: x in items ==> Normalize(x) == x != "" && Free(x, ',')
    ensures forall x :: x in ParseSet(Join(items, ',')) <==> x in items
  {
    SplitInvertsJoin(items, ',');
    var text := Join(items, ',');
    if items == [] {
      assert Normalize([]) == [];
    }
    hide Normalize, Split;
    forall x | x in items ensures x in ParseSet(text) {
      assert x in Split(text, ',') && Normalize(x) == x;
    }
  }

  /** Print and parse: whatever order the keys are printed in, the same set comes back. */
  lemma CsvRoundTrip(value: string, keys: seq<string>)
    requires forall x :: x in keys <==> x in ParseSet(value)
    ensures ParseSet(Join(keys, ',')) == ParseSet(value)
  {
    forall x | x in keys ensures Normalize(x) == x != "" && Free(x, ',') {
      ParseSetNormal(value, x);
    }
    ParsePrinted(keys);
  }

  // ---- Sorted keys ----

  /** Byte-wise string order. */
  predicate Leq(a: string, b: string) {
    a == [] || (b != [] && (a[0] < b[0] || (a[0] == b[0] && Leq(a[1..], b[1..]))))
  }

  lemma {:induction false} LeqTotal(a: string, b: string)
    ensures Leq(a, b) || Leq(b, a)
  {
    if a != [] && b != [] && a[0] == b[0] {
      LeqTotal(a[1..], b[1..]);
    }
  }

  lemma {:induction false} LeqTransitive(a: string, b: string, c: string)
    requires Leq(a, b) && Leq(b, c)
    ensures Leq(a, c)
  {
    if a != [] && b != [] && c != [] && a[0] == b[0] == c[0] {
      LeqTransitive(a[1..], b[1..], c[1..]);
    }
  }

  /** The order is the dictionary's: a text comes before its continuations and not after them, and where two
      texts first differ the smaller character decides. */
  lemma {:induction false} LeqExactly(common: string, x: char, a: string, y: char, b: string)
    ensures Leq(common, common) && Leq(common, common + [y] + b) && !Leq(common + [x] + a, common)
    ensures x != y ==> (Leq(common + [x] + a, common + [y] + b) <==> x < y)
  {
    if common == [] {
    } else {
      LeqExactly(common[1..], x, a, y, b);
      assert (common + [x] + a)[1..] == common[1..] + [x] + a;
      assert (common + [y] + b)[1..] == common[1..] + [y] + b;
    }
  }

  lemma LeqTotalOrder()
    ensures TotalOrder(Leq)
  {
    forall a, b ensures Leq(a, b) || Leq(b, a) {
      LeqTotal(a, b);
    }
    forall a, b, c | Leq(a, b) && Leq(b, c) ensures Leq(a, c) {
      LeqTransitive(a, b, c);
    }
  }

  /** Every key once, in order. */
  method SortedKeys(input: set<string>) returns (out: seq<string>)
    ensures Sorted(out, Leq) && multiset(out) == multiset(input)
  {
    LeqTotalOrder();
    hide Leq;
    out := Sort(input, Leq);
  }

  // ---- Policies ----

  datatype Policy =
    | NoPolicy
    | Policy(localEnabled: bool, localAllow: set<string>, localRoles: set<string>,
             remoteEnabled: bool, remoteAllow: set<string>, remoteRoles: set<string>)

  function NewPolicy(localEnabled: bool, localAllowCsv: string, localRolesCsv: string,
                     remoteEnabled: bool, remoteAllowCsv: string, remoteRolesCsv: string): Policy
  {
    Policy(localEnabled, ParseSet(localAllowCsv), ParseSet(localRolesCsv),
           remoteEnabled, ParseSet(remoteAllowCsv), ParseSet(remoteRolesCsv))
  }

  /** The shared decision; an empty role list lets every role through. */
  predicate Admits(enabled: bool, allow: set<string>, roles: set<string>, role: string, host: string, port: nat) {
    enabled && (roles != {} ==> Normalize(role) in roles) && NormalizeTarget(host, port) in allow
  }

  predicate AllowLocalTarget(p: Policy, role: string, host: string, port: nat) {
    p.Policy? && Admits(p.localEnabled, p.localAllow, p.localRoles, role, host, port)
  }

  predicate AllowRemoteBind(p: Policy, role: string, host: string, port: nat) {
    p.Policy? && Admits(p.remoteEnabled, p.remoteAllow, p.remoteRoles, role, host, port)
  }

  datatype Target = Target(host: string, port: nat)

  function Printed(targets: seq<Target>): (r: seq<string>)
    ensures |r| == |targets|
    ensures forall i :: 0 <= i < |targets| ==> r[i] == NormalizeTarget(targets[i].host, targets[i].port)
  {
    seq(|targets|, i requires 0 <= i < |targets| => NormalizeTarget(targets[i].host, targets[i].port))
  }

  /** The listed targets that mean the same host and port. */
  predicate Listed(targets: seq<Target>, host: string, port: nat) {
    exists i :: 0 <= i < |targets| && Normalize(targets[i].host) == Normalize(host) && targets[i].port == port
  }

  lemma TargetFree(host: string, port: nat)
    requires Free(host, ',')
    ensures Free(NormalizeTarget(host, port), ',')
  {
    TargetForm(host, port);
    NormalizeFree(host, ',');
  }

  lemma PrintedParses(targets: seq<Target>, host: string, port: nat)
    requires forall i :: 0 <= i < |targets| ==> Free(targets[i].host, ',')
    ensures NormalizeTarget(host, port) in ParseSet(Join(Printed(targets), ',')) <==> Listed(targets, host, port)
  {
    var items := Printed(targets);
    forall x | x in items ensures Normalize(x) == x != "" && Free(x, ',') {
      var i :| 0 <= i < |items| && items[i] == x;
      TargetNormal(targets[i].host, targets[i].port);
      TargetFree(targets[i].host, targets[i].port);
    }
    ParsePrinted(items);
    hide ParseSet, Normalize, NormalizeTarget;
    forall i | 0 <= i < |targets|
      ensures items[i] == NormalizeTarget(host, port) <==>
              Normalize(targets[i].host) == Normalize(host) && targets[i].port == port
    {
      NormalizeTargetInjective(targets[i].host, targets[i].port, host, port);
    }
  }

  /** Some item of the text, case and surrounding space aside, is `x`. */
  predicate HasItem(text: string, x: string) {
    exists i :: 0 <= i < |Split(text, ',')| && Normalize(Split(text, ',')[i]) == x
  }

  /** The text lists the role, or lists nothing at all. */
  predicate RoleOk(text: string, role: string) {
    || (forall i :: 0 <= i < |Split(text, ',')| ==> Normalize(Split(text, ',')[i]) == "")
    || (Normalize(role) != "" && HasItem(text, Normalize(role)))
  }

  lemma ParseSetExact(text: string, x: string)
    ensures x in ParseSet(text) <==> x != "" && HasItem(text, x)
    ensures ParseSet(text) == {} <==> forall i :: 0 <= i < |Split(text, ',')| ==> Normalize(Split(text, ',')[i]) == ""
  {
    hide Normalize, Split;
    if forall i :: 0 <= i < |Split(text, ',')| ==> Normalize(Split(text, ',')[i]) == "" {
      assert forall item :: item in Split(text, ',') ==> Normalize(item) == "";
    } else {
      var i :| 0 <= i < |Split(text, ',')| && Normalize(Split(text, ',')[i]) != "";
      assert Normalize(Split(text, ',')[i]) in ParseSet(text);
    }
  }

  /** What a policy built from any texts admits: a direction must be enabled, the role listed for it, and the
      target an item of its list. Without a policy nothing is admitted. */
  lemma PolicyExact(localOn: bool, localText: string, localRoles: string,
                    remoteOn: bool, remoteText: string, remoteRoles: string, role: string, host: string, port: nat)
    ensures var p := NewPolicy(localOn, localText, localRoles, remoteOn, remoteText, remoteRoles);
            && (AllowLocalTarget(p, role, host, port) <==>
                localOn && RoleOk(localRoles, role) && HasItem(localText, NormalizeTarget(host, port)))
            && (AllowRemoteBind(p, role, host, port) <==>
                remoteOn && RoleOk(remoteRoles, role) && HasItem(remoteText, NormalizeTarget(host, port)))
    ensures !AllowLocalTarget(NoPolicy, role, host, port) && !AllowRemoteBind(NoPolicy, role, host, port)
  {
    TargetNormal(host, port);
    ParseSetExact(localText, NormalizeTarget(host, port));
    ParseSetExact(localRoles, Normalize(role));
    ParseSetExact(remoteText, NormalizeTarget(host, port));
    ParseSetExact(remoteRoles, Normalize(role));
    hide ParseSet, HasItem, Normalize, NormalizeTarget;
  }

  /** A policy printed from comma-free targets admits exactly those targets, in the directions that are
      enabled, for exactly the listed roles (all of them if none is listed), whatever the case or padding of
      role and host. */
  lemma PolicyAdmitsExactly(localOn: bool, local: seq<Target>, localRoles: string,
                            remoteOn: bool, remote: seq<Target>, remoteRoles: string,
                            role: string, host: string, port: nat)
    requires forall i :: 0 <= i < |local| ==> Free(local[i].host, ',')
    requires forall i :: 0 <= i < |remote| ==> Free(remote[i].host, ',')
    ensures var p := NewPolicy(localOn, Join(Printed(local), ','), localRoles,
                               remoteOn, Join(Printed(remote), ','), remoteRoles);
            && (AllowLocalTarget(p, role, host, port) <==>
                localOn && RoleOk(localRoles, role) && Listed(local, host, port))
            && (AllowRemoteBind(p, role, host, port) <==>
                remoteOn && RoleOk(remoteRoles, role) && Listed(remote, host, port))
  {
    PrintedParses(local, host, port);
    PrintedParses(remote, host, port);
    TargetNormal(host, port);
    var localText, remoteText := Join(Printed(local), ','), Join(Printed(remote), ',');
    ParseSetExact(localText, NormalizeTarget(host, port));
    ParseSetExact(remoteText, NormalizeTarget(host, port));
    PolicyExact(localOn, localText, localRoles, remoteOn, remoteText, remoteRoles, role, host, port);
    hide ParseSet, Listed, HasItem, RoleOk, AllowLocalTarget, AllowRemoteBind, Normalize, NormalizeTarget;
  }

  /** Commas cannot be quoted: no policy whatever admits a host that contains one inside. */
  lemma CommaHostNeverAdmitted(value: string, host: string, port: nat)
    requires !Free(Trim(host), ',')
    ensures NormalizeTarget(host, port) !in ParseSet(value)
  {
    var t := NormalizeTarget(host, port);
    TargetForm(host, port);
    LowerKeeps(Trim(host), ',');
    var i :| 0 <= i < |Normalize(host)| && Normalize(host)[i] == ',';
    assert t[i] == ',' || t[i + 1] == ',';
    if t in ParseSet(value) {
      ParseSetNormal(value, t);
    }
  }
}
