/** Tunnels and the manager that keeps them (internal/forwarding/manager.go), with the access rule
    for closing one (internal/access/roles.go). Clock readings are parameters. */
module TunnelManager {
  import opened Sequences
  import opened Text
  import opened Words

  datatype Direction = Local | Remote

  /** A tunnel id; its text is what users and logs see. */
  datatype Id = Id(text: string)

  /** What a caller hands to OpenLocal or OpenRemote. */
  datatype Request = Request(direction: Direction, sessionId: string, username: string,
                             target: string, bind: string, origin: string)

  datatype Tunnel = Tunnel(id: Id, request: Request, startedAt: int)

  /** The uint64 sequence counter. */
  function NextSeq(n: nat): (r: nat)
    ensures r < TWO64
    ensures n + 1 < TWO64 ==> r == n + 1
    ensures n + 1 == TWO64 ==> r == 0
  {
    (n + 1) % TWO64
  }

  function TunnelId(n: nat): Id {
    Id("tun-" + Padded6(n))
  }

  /** Distinct sequence values print as distinct ids, below and above six digits. */
  lemma TunnelIdInjective(m: nat, n: nat)
    ensures TunnelId(m) == TunnelId(n) <==> m == n
  {
    if TunnelId(m) == TunnelId(n) {
      assert Padded6(m) == TunnelId(m).text[4..] == TunnelId(n).text[4..] == Padded6(n);
      ParseInvertsPadded(m);
      ParseInvertsPadded(n);
    }
  }

  /** Ids are spelled "tun-" and the decimal number, with zeros in front up to six digits and no others. */
  lemma TunnelIdText(n: nat)
    ensures var text := TunnelId(n).text;
            && |text| >= 10 && text[..4] == "tun-"
            && AllDigits(text[4..]) && ParseDecimal(text[4..]) == n
            && (|text| > 10 ==> text[4] != '0')
  {
    ParseInvertsPadded(n);
    PaddedShape(n);
    assert TunnelId(n).text[4..] == Padded6(n);
  }

  predicate CanCloseTunnel(role: string, requester: string, owner: string) {
    Normalize(role) == "admin" || (Normalize(requester) != "" && Normalize(requester) == Normalize(owner))
  }

  /** An administrator closes any tunnel and an owner their own. The verdict depends on names only up to case
      and surrounding space, an empty requester never owns anything, and nobody but an administrator closes
      another user's tunnel. */
  lemma CloseRule(role: string, requester: string, owner: string)
    ensures CanCloseTunnel(role, requester, owner) ==
            CanCloseTunnel(Normalize(role), Normalize(requester), Normalize(owner))
    ensures Normalize(role) == "admin" ==> CanCloseTunnel(role, requester, owner)
    ensures Normalize(requester) == Normalize(owner) != "" ==> CanCloseTunnel(role, requester, owner)
    ensures Normalize(role) != "admin" && AllSpace(requester) ==> !CanCloseTunnel(role, requester, owner)
    ensures Normalize(role) != "admin" && Normalize(requester) != Normalize(owner) ==>
              !CanCloseTunnel(role, requester, owner)
  {
    NormalizeTight(role);
    NormalizeTight(requester);
    NormalizeTight(owner);
    if AllSpace(requester) {
      TrimUnique(requester, [], []);
      assert requester + [] + [] == requester;
    }
  }

  /** What the manager makes happen outside its lock. */
  datatype Effect = Opened(t: Tunnel) | Stopped(t: Tunnel) | Closed(t: Tunnel)

  predicate StartsBefore(a: Tunnel, b: Tunnel) {
    a.startedAt <= b.startedAt
  }

  predicate OfUser(t: Tunnel, username: string) {
    Normalize(t.request.username) == Normalize(username)
  }

  lemma OfUserMeans(t: Tunnel, username: string)
    ensures OfUser(t, username) <==> Normalize(t.request.username) == Normalize(username)
  {
  }

  function OfUserNamed(username: string): Tunnel -> bool {
    (t: Tunnel) => OfUser(t, username)
  }

  class Manager {
    var seqNo: nat
    var tunnels: map<Id, Tunnel>
    var effects: seq<Effect>
    ghost var opens: nat

    /** Tunnels sit under their own ids, and until the counter wraps none has an id still to come. */
    ghost predicate Valid()
      reads this
    {
      && seqNo == opens % TWO64
      && (forall id :: id in tunnels ==> tunnels[id].id == id)
      && (opens < TWO64 ==> forall n :: n > opens ==> TunnelId(n) !in tunnels)
    }

    constructor ()
      ensures Valid() && opens == 0 && tunnels == map[] && effects == []
    {
      seqNo, tunnels, effects, opens := 0, map[], [], 0;
    }

    /** The locked part of opening. Until the counter wraps no stored tunnel is overwritten. */
    method Add(request: Request, now: int) returns (t: Tunnel)
      requires Valid()
      modifies this
      ensures Valid() && opens == old(opens) + 1 && effects == old(effects)
      ensures t == Tunnel(TunnelId(opens % TWO64), request, now) && tunnels == old(tunnels)[t.id := t]
      ensures opens < TWO64 ==> t.id !in old(tunnels)
    {
      seqNo := NextSeq(seqNo);
      opens := opens + 1;
      t := Tunnel(TunnelId(seqNo), request, now);
      assert seqNo == opens % TWO64 && (opens < TWO64 ==> seqNo == opens);
      forall n | n > opens ensures opens < TWO64 ==> TunnelId(n) != t.id {
        TunnelIdInjective(n, seqNo);
      }
      hide TunnelId, NextSeq;
      tunnels := tunnels[t.id := t];
    }

    /** Every tunnel that was open stays open, and the new one is announced. */
    method Open(request: Request, now: int) returns (t: Tunnel)
      requires Valid()
      modifies this
      ensures Valid() && opens == old(opens) + 1
      ensures t == Tunnel(TunnelId(opens % TWO64), request, now) && tunnels == old(tunnels)[t.id := t]
      ensures opens < TWO64 ==> |tunnels| == |old(tunnels)| + 1
      ensures effects == old(effects) + [Opened(t)]
    {
      hide TunnelId;
      t := Add(request, now);
      if opens < TWO64 {
        assert tunnels.Keys == old(tunnels).Keys + {t.id};
      }
      effects := effects + [Opened(t)];
    }

    /** The locked part of closing. */
    method Take(id: Id) returns (found: bool, item: Tunnel)
      requires Valid()
      modifies this
      ensures Valid() && opens == old(opens) && effects == old(effects)
      ensures found <==> id in old(tunnels)
      ensures found ==> item == old(tunnels)[id]
      ensures tunnels == old(tunnels) - {id}
    {
      hide TunnelId;
      found := id in tunnels;
      item := if found then tunnels[id] else Tunnel(id, Request(Local, "", "", "", "", ""), 0);
      tunnels := tunnels - {id};
    }

    /** Exactly the call that finds the tunnel removes it, stops it and runs the hook, in that order. */
    method Close(id: Id) returns (ok: bool)
      requires Valid()
      modifies this
      ensures Valid() && opens == old(opens) && tunnels == old(tunnels) - {id}
      ensures ok <==> id in old(tunnels)
      ensures effects == old(effects) + if ok then [Stopped(old(tunnels)[id]), Closed(old(tunnels)[id])] else []
    {
      hide TunnelId;
      var found, item := Take(id);
      ok := found;
      if ok {
        effects := effects + [Stopped(item)] + [Closed(item)];
      }
    }

    /** Every tunnel once, oldest first; ties in either order, as the sort is not stable. */
    method Snapshot() returns (out: seq<Tunnel>)
      requires Valid()
      ensures forall i, j :: 0 <= i < j < |out| ==> out[i].startedAt <= out[j].startedAt
      ensures forall t :: multiset(out)[t] == if t.id in tunnels && tunnels[t.id] == t then 1 else 0
    {
      hide TunnelId;
      out := Sort(tunnels.Values, StartsBefore);
      assert forall t :: t in tunnels.Values <==> t.id in tunnels && tunnels[t.id] == t;
    }

    method SnapshotByUsername(username: string) returns (out: seq<Tunnel>)
      requires Valid()
      ensures forall i, j :: 0 <= i < j < |out| ==> out[i].startedAt <= out[j].startedAt
      ensures forall t :: multiset(out)[t] ==
                if t.id in tunnels && tunnels[t.id] == t && Normalize(t.request.username) == Normalize(username)
                then 1 else 0
    {
      hide TunnelId, Valid, Normalize;
      var all := Snapshot();
      out := OnlyUser(all, username);
    }
  }

  /** The tunnels of one user, in the order given. */
  method OnlyUser(all: seq<Tunnel>, username: string) returns (out: seq<Tunnel>)
    requires forall i, j :: 0 <= i < j < |all| ==> all[i].startedAt <= all[j].startedAt
    ensures forall i, j :: 0 <= i < j < |out| ==> out[i].startedAt <= out[j].startedAt
    ensures forall t :: multiset(out)[t] ==
              if Normalize(t.request.username) == Normalize(username) then multiset(all)[t] else 0
  {
    hide OfUser, Normalize;
    out := [];
    for i := 0 to |all|
      invariant out == Filter(all[..i], OfUserNamed(username))
    {
      assert all[..i + 1] == all[..i] + [all[i]];
      FilterSnoc(all[..i], all[i], OfUserNamed(username));
      if OfUser(all[i], username) {
        out := out + [all[i]];
      }
    }
    assert all[..|all|] == all;
    FilterSorted(all, OfUserNamed(username), StartsBefore);
    forall t: Tunnel ensures multiset(out)[t] ==
               if Normalize(t.request.username) == Normalize(username) then multiset(all)[t] else 0 {
      OfUserMeans(t, username);
      FilterExact(all, OfUserNamed(username), t);
    }
  }
}
