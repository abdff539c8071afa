/** Nodes as returned by the Headscale API, and the three selectors the
    configuration generator reads from them (`impl Node` in headscale.rs). */
module Headscale {
  import opened Wrappers

  datatype User = User(
    id: string,
    name: string,
    createdAt: string,
    displayName: Option<string>,
    email: Option<string>,
    providerId: Option<string>,
    provider: Option<string>,
    profilePicUrl: Option<string>)

  datatype Node = Node(
    id: string,
    machineKey: string,
    nodeKey: string,
    discoKey: string,
    ipAddresses: seq<string>,
    name: string,
    user: User,
    lastSeen: string,
    expiry: Option<string>,
    createdAt: string,
    online: bool)

  /** The textual prefix `get_ipv4` looks for. This is a prefix test on the
      literal, not a check for membership in 100.64.0.0/10: "100.65.0.1" is in
      that block but does not match, and neither does a zero-padded spelling. */
  const TailnetPrefix := "100.64."

  predicate IsTailnetIpv4(ip: string) {
    TailnetPrefix <= ip
  }

  predicate IsIpv6(ip: string) {
    ':' in ip
  }

  /** `Iterator::find` over a list of addresses: the first one satisfying `p`. */
  function Find(xs: seq<string>, p: string -> bool): (r: Option<string>)
    ensures r.None? <==> forall i :: 0 <= i < |xs| ==> !p(xs[i])
    ensures r.Some? ==>
      exists i :: 0 <= i < |xs| && xs[i] == r.value && p(xs[i]) &&
        forall j :: 0 <= j < i ==> !p(xs[j])
  {
    if |xs| == 0 then None
    else if p(xs[0]) then Some(xs[0])
    else
      var r := Find(xs[1..], p);
      assert r.Some? ==>
        exists i :: 0 < i < |xs| && xs[i] == r.value && p(xs[i]) &&
          forall j :: 0 <= j < i ==> !p(xs[j])
      by {
        if r.Some? {
          var k :| 0 <= k < |xs[1..]| && xs[1..][k] == r.value && p(xs[1..][k]) &&
            forall j :: 0 <= j < k ==> !p(xs[1..][j]);
          assert forall j :: 0 <= j < k + 1 ==> !p(xs[j]) by {
            forall j | 0 <= j < k + 1 ensures !p(xs[j]) {
              if j > 0 { assert xs[j] == xs[1..][j - 1]; }
            }
          }
        }
      }
      r
  }

  /** `Node::get_ipv4`: the first address whose text starts with "100.64.". */
  function GetIpv4(n: Node): (r: Option<string>)
    ensures r.None? <==> forall i :: 0 <= i < |n.ipAddresses| ==> !IsTailnetIpv4(n.ipAddresses[i])
    ensures r.Some? ==>
      exists i :: 0 <= i < |n.ipAddresses| && n.ipAddresses[i] == r.value &&
        IsTailnetIpv4(r.value) &&
        forall j :: 0 <= j < i ==> !IsTailnetIpv4(n.ipAddresses[j])
  {
    Find(n.ipAddresses, IsTailnetIpv4)
  }

  /** `Node::get_ipv6`: the first address containing a ':'. */
  function GetIpv6(n: Node): (r: Option<string>)
    ensures r.None? <==> forall i :: 0 <= i < |n.ipAddresses| ==> !IsIpv6(n.ipAddresses[i])
    ensures r.Some? ==>
      exists i :: 0 <= i < |n.ipAddresses| && n.ipAddresses[i] == r.value &&
        IsIpv6(r.value) &&
        forall j :: 0 <= j < i ==> !IsIpv6(n.ipAddresses[j])
  {
    Find(n.ipAddresses, IsIpv6)
  }

  /** `Node::has_user_email`: the node's user has an email and it is not empty. */
  function HasUserEmail(n: Node): (r: bool)
    ensures r <==> n.user.email != None && n.user.email != Some("")
  {
    n.user.email.Some? && |n.user.email.value| > 0
  }

  /** Both address selectors return one of the node's own addresses. */
  lemma SelectedAddressIsOwn(n: Node)
    ensures GetIpv4(n).Some? ==> GetIpv4(n).value in n.ipAddresses
    ensures GetIpv6(n).Some? ==> GetIpv6(n).value in n.ipAddresses
  {
  }

  /** Whichever address is the first with the "100.64." prefix is the one
      `get_ipv4` returns. */
  lemma GetIpv4First(n: Node, i: nat)
    requires i < |n.ipAddresses| && IsTailnetIpv4(n.ipAddresses[i])
    requires forall j :: 0 <= j < i ==> !IsTailnetIpv4(n.ipAddresses[j])
    ensures GetIpv4(n) == Some(n.ipAddresses[i])
  {
  }

  /** The selectors read only the address list and the user's email; every
      other field of the node and of its user is irrelevant to them. */
  lemma SelectorsReadOnlyAddressesAndEmail(a: Node, b: Node)
    requires a.ipAddresses == b.ipAddresses && a.user.email == b.user.email
    ensures GetIpv4(a) == GetIpv4(b)
    ensures GetIpv6(a) == GetIpv6(b)
    ensures HasUserEmail(a) == HasUserEmail(b)
  {
  }
}
