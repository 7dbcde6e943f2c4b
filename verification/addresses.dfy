/**
 Assembly of the host's IPv4 address list shown on the status page. The
 socket lookups that supply the primary outbound address and the resolved
 host addresses are inputs here.
 */
module Addresses {
  import opened StatusTypes

  /** The placeholder shown when no address could be determined. */
  const Unknown: string := "Unknown"

  /** A loopback address, recognised by its `127.` prefix. */
  predicate IsLoopback(ip: string)
  {
    |ip| >= 4 && ip[..4] == "127."
  }

  /** The primary address is listed when it is non-empty and not the placeholder. */
  predicate PrimaryUsable(primary: string)
  {
    primary != "" && primary != Unknown
  }

  /** The resolved addresses; a failed lookup yields none. */
  function Candidates(resolved: Option<seq<string>>): (ips: seq<string>)
  {
    if resolved.Some? then resolved.value else []
  }

  /** Every address that qualifies for the list. */
  function Qualified(primary: string, resolved: Option<seq<string>>): (q: set<string>)
  {
    (if PrimaryUsable(primary) then {primary} else {})
    + set ip | ip in Candidates(resolved) && !IsLoopback(ip)
  }

  /** The position of the first occurrence of `x` in `s`. */
  function FirstIndex(s: seq<string>, x: string): (k: nat)
    requires x in s
    ensures k < |s| && s[k] == x
    ensures forall j | 0 <= j < k :: s[j] != x
  {
    if s[0] == x then 0 else 1 + FirstIndex(s[1..], x)
  }

  predicate NoDuplicates(s: seq<string>)
  {
    forall i, j | 0 <= i < j < |s| :: s[i] != s[j]
  }

  /** A duplicate-free list holding exactly the set `q` is the lone placeholder iff `q` holds nothing else. */
  lemma ListedExactlyPlaceholder(addrs: seq<string>, q: set<string>)
    requires |addrs| > 0 && NoDuplicates(addrs)
    requires forall a :: a in addrs <==> a in q
    ensures addrs == [Unknown] <==> q <= {Unknown}
  {
    if q <= {Unknown} {
      forall i | 0 <= i < |addrs|
        ensures addrs[i] == Unknown
      {
        assert addrs[i] in addrs;
      }
      assert addrs[0] == addrs[|addrs| - 1];
    }
  }

  /**
   The address list:  the usable primary address first, then each resolved
   non-loopback address not already listed, in resolution order; the
   placeholder alone when that leaves the list empty.
   */
  method AllIpv4Addrs(primary: string, resolved: Option<seq<string>>) returns (addrs: seq<string>)
    ensures |addrs| > 0
    ensures NoDuplicates(addrs)
    ensures PrimaryUsable(primary) ==> addrs[0] == primary
    ensures forall i | 0 <= i < |addrs| && !(PrimaryUsable(primary) && i == 0) :: !IsLoopback(addrs[i])
    ensures Qualified(primary, resolved) == {} ==> addrs == [Unknown]
    ensures Qualified(primary, resolved) != {} ==> forall a :: a in addrs <==> a in Qualified(primary, resolved)
    ensures addrs == [Unknown] <==> Qualified(primary, resolved) <= {Unknown}
    ensures var off := if PrimaryUsable(primary) then 1 else 0;
      forall i, j | off <= i < j < |addrs| :: addrs[i] in Candidates(resolved) && addrs[j] in Candidates(resolved)
        && FirstIndex(Candidates(resolved), addrs[i]) < FirstIndex(Candidates(resolved), addrs[j])
  {
    addrs := CollectQualified(primary, Candidates(resolved));
    if addrs == [] {
      assert Unknown[..4][0] == 'U';
      addrs := addrs + [Unknown];
    } else {
      ListedExactlyPlaceholder(addrs, Qualified(primary, resolved));
    }
  }

  /**
   The list before the placeholder fallback: the usable primary address, then
   the qualifying resolved addresses in order of first resolution.
   */
  method CollectQualified(primary: string, cands: seq<string>) returns (addrs: seq<string>)
    ensures NoDuplicates(addrs)
    ensures PrimaryUsable(primary) ==> |addrs| > 0 && addrs[0] == primary
    ensures var off := if PrimaryUsable(primary) then 1 else 0;
      && off <= |addrs|
      && (forall i | off <= i < |addrs| :: !IsLoopback(addrs[i]) && addrs[i] in cands)
      && (forall i, j | off <= i < j < |addrs| :: FirstIndex(cands, addrs[i]) < FirstIndex(cands, addrs[j]))
    ensures forall a :: a in addrs <==>
      ((PrimaryUsable(primary) && a == primary) || (a in cands && !IsLoopback(a)))
  {
    var seen: set<string> := {};
    addrs := [];
    if PrimaryUsable(primary) {
      seen := seen + {primary};
      addrs := addrs + [primary];
    }
    var off := |addrs|;
    var k := 0;
    while k < |cands|
      invariant 0 <= k <= |cands|
      invariant off == (if PrimaryUsable(primary) then 1 else 0) && off <= |addrs|
      invariant PrimaryUsable(primary) ==> addrs[0] == primary
      invariant forall a :: a in seen <==> a in addrs
      invariant NoDuplicates(addrs)
      invariant forall i | off <= i < |addrs| :: !IsLoopback(addrs[i]) && addrs[i] in cands[..k]
      invariant forall i | off <= i < |addrs| :: FirstIndex(cands, addrs[i]) < k
      invariant forall i, j | off <= i < j < |addrs| :: FirstIndex(cands, addrs[i]) < FirstIndex(cands, addrs[j])
      invariant forall a :: a in addrs <==>
        ((PrimaryUsable(primary) && a == primary) || (a in cands[..k] && !IsLoopback(a)))
    {
      var ip := cands[k];
      assert cands[..k + 1] == cands[..k] + [ip];
      if ip !in seen && !IsLoopback(ip) {
        assert ip !in cands[..k];
        forall j | 0 <= j < k
          ensures cands[j] != ip
        {
          assert cands[..k][j] == cands[j];
        }
        assert FirstIndex(cands, ip) == k;
        seen := seen + {ip};
        addrs := addrs + [ip];
      }
      k := k + 1;
    }
    assert cands[..k] == cands;
  }
}
