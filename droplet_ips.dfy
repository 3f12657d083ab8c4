/**
 * The droplet-to-address pipeline of the action: keep the droplets that carry
 * a tag, take the address of each one's first public IPv4 network, and either
 * publish the whole list or fail without output.
 */
module DropletIps {
  import opened Wrappers

  /** The address type the action looks for; it is not configurable. */
  const PublicType: string := "public"

  /** One entry of a droplet's `networks.v4` array: its `type` and its `ip_address`. */
  datatype Net = Net(kind: string, ip: string)

  /** A droplet as listed by the provider: its tags and its IPv4 networks. */
  datatype Droplet = Droplet(tags: seq<string>, v4: seq<Net>)

  /** Why a resolution fails: a matching droplet has no public IPv4 network, so
      reading `ip_address` of the missing entry raises a TypeError. */
  datatype ResolveError = NoPublicAddress

  /** `d.tags.includes(tag)`: exact string membership. */
  predicate HasTag(d: Droplet, tag: string) {
    tag in d.tags
  }

  /** `i.type === "public"`. */
  predicate IsPublic(n: Net) {
    n.kind == PublicType
  }

  // ---------------------------------------------------------------------------
  // Step 1: filter by tag
  // ---------------------------------------------------------------------------

  /** `drops.filter((d) => d.tags.includes(tag))`. */
  function FilterByTag(ds: seq<Droplet>, tag: string): (r: seq<Droplet>)
    ensures |r| <= |ds|
    ensures forall k :: 0 <= k < |r| ==> HasTag(r[k], tag)
    ensures forall i :: 0 <= i < |ds| && HasTag(ds[i], tag) ==> ds[i] in r
  {
    if ds == [] then []
    else if HasTag(ds[0], tag) then [ds[0]] + FilterByTag(ds[1..], tag)
    else FilterByTag(ds[1..], tag)
  }

  /** Reference enumeration of the listing positions, from `from` on, of the
      droplets that carry `tag`. */
  function MatchesFrom(ds: seq<Droplet>, tag: string, from: nat): (idx: seq<nat>)
    requires from <= |ds|
    ensures forall k :: 0 <= k < |idx| ==> from <= idx[k] < |ds| && HasTag(ds[idx[k]], tag)
    ensures Increasing(idx)
    ensures forall i :: from <= i < |ds| && HasTag(ds[i], tag) ==> i in idx
    decreases |ds| - from
  {
    if from == |ds| then []
    else if HasTag(ds[from], tag) then [from] + MatchesFrom(ds, tag, from + 1)
    else MatchesFrom(ds, tag, from + 1)
  }

  /** The listing positions of all droplets that carry `tag`, in increasing order. */
  function MatchIndices(ds: seq<Droplet>, tag: string): (idx: seq<nat>)
    ensures forall k :: 0 <= k < |idx| ==> idx[k] < |ds| && HasTag(ds[idx[k]], tag)
    ensures Increasing(idx)
    ensures forall i :: 0 <= i < |ds| && HasTag(ds[i], tag) ==> i in idx
  {
    MatchesFrom(ds, tag, 0)
  }

  /** Strictly increasing positions. */
  ghost predicate Increasing(idx: seq<nat>) {
    forall k, l :: 0 <= k < l < |idx| ==> idx[k] < idx[l]
  }

  /** The positions of the droplets that carry `tag`, as a set. */
  ghost function MatchSet(ds: seq<Droplet>, tag: string): set<nat> {
    set i: nat | i < |ds| && HasTag(ds[i], tag)
  }

  // ---------------------------------------------------------------------------
  // Step 2: the first public address of a droplet
  // ---------------------------------------------------------------------------

  /** `d.networks.v4.find((i) => i.type === "public")`. */
  function FindPublic(v4: seq<Net>): (r: Option<Net>)
    ensures r.Some? ==> r.value in v4 && IsPublic(r.value)
    ensures r.None? <==> forall i :: 0 <= i < |v4| ==> !IsPublic(v4[i])
  {
    if v4 == [] then None
    else if IsPublic(v4[0]) then Some(v4[0])
    else FindPublic(v4[1..])
  }

  /** `find(...).ip_address`, with `None` for the read of `undefined` that throws. */
  function PublicIp(d: Droplet): (r: Option<string>)
    ensures r.Some? <==> exists i :: 0 <= i < |d.v4| && IsPublic(d.v4[i])
    ensures r.Some? ==> Net(PublicType, r.value) in d.v4
  {
    match FindPublic(d.v4)
    case None => None
    case Some(n) => Some(n.ip)
  }

  // ---------------------------------------------------------------------------
  // Step 3: map, failing as a whole
  // ---------------------------------------------------------------------------

  /** `drops.map((d) => d.networks.v4.find(...).ip_address)`; the first droplet
      without a public network aborts the whole map. */
  function SelectIps(ds: seq<Droplet>): (r: Result<seq<string>, ResolveError>)
    ensures r.Success? <==> forall i :: 0 <= i < |ds| ==> PublicIp(ds[i]).Some?
    ensures r.Success? ==> |r.value| == |ds|
    ensures r.Success? ==> forall i :: 0 <= i < |ds| ==> PublicIp(ds[i]) == Some(r.value[i])
  {
    if ds == [] then Success([])
    else
      match PublicIp(ds[0])
      case None => Failure(NoPublicAddress)
      case Some(ip) =>
        match SelectIps(ds[1..])
        case Failure(e) => Failure(e)
        case Success(rest) => Success([ip] + rest)
  }

  /** The value published as `server_ips`, or the failure that stops the run.
      The run fails exactly when a droplet carrying the tag has no public IPv4
      network; otherwise the k-th address is the public address of the k-th
      droplet carrying the tag, in listing order, and there is one address per
      such droplet. */
  function Resolve(ds: seq<Droplet>, tag: string): (r: Result<seq<string>, ResolveError>)
    ensures r.Success? <==> forall i :: 0 <= i < |ds| && HasTag(ds[i], tag) ==> PublicIp(ds[i]).Some?
    ensures r.Success? ==> |r.value| == |MatchIndices(ds, tag)|
    ensures r.Success? ==> forall k :: 0 <= k < |MatchIndices(ds, tag)| ==>
      PublicIp(ds[MatchIndices(ds, tag)[k]]) == Some(r.value[k])
  {
    FilterLength(ds, tag);
    FilterAtAll(ds, tag);
    SelectIps(FilterByTag(ds, tag))
  }

  // ---------------------------------------------------------------------------
  // Properties of the filter
  // ---------------------------------------------------------------------------

  /** Filtering distributes over concatenation of listings. */
  lemma {:induction false} FilterAppend(a: seq<Droplet>, b: seq<Droplet>, tag: string)
    ensures FilterByTag(a + b, tag) == FilterByTag(a, tag) + FilterByTag(b, tag)
  {
    if a == [] {
      assert a + b == b;
    } else {
      assert (a + b)[1..] == a[1..] + b;
      FilterAppend(a[1..], b, tag);
    }
  }

  /** The filter keeps one droplet per matching position. */
  lemma {:induction false} FilterLengthFrom(ds: seq<Droplet>, tag: string, from: nat)
    requires from <= |ds|
    ensures |FilterByTag(ds[from..], tag)| == |MatchesFrom(ds, tag, from)|
    decreases |ds| - from
  {
    if from < |ds| {
      assert ds[from..][1..] == ds[from + 1..];
      FilterLengthFrom(ds, tag, from + 1);
    }
  }

  /** The k-th droplet kept from `ds[from..]` is the droplet at the k-th
      matching position from `from` on. */
  lemma {:induction false} FilterAtFrom(ds: seq<Droplet>, tag: string, from: nat, k: nat)
    requires from <= |ds| && k < |MatchesFrom(ds, tag, from)|
    ensures k < |FilterByTag(ds[from..], tag)|
    ensures FilterByTag(ds[from..], tag)[k] == ds[MatchesFrom(ds, tag, from)[k]]
    decreases |ds| - from
  {
    FilterLengthFrom(ds, tag, from);
    var rest := ds[from..];
    assert rest[0] == ds[from] && rest[1..] == ds[from + 1..];
    if !HasTag(ds[from], tag) {
      assert FilterByTag(rest, tag) == FilterByTag(ds[from + 1..], tag);
      assert MatchesFrom(ds, tag, from) == MatchesFrom(ds, tag, from + 1);
      FilterAtFrom(ds, tag, from + 1, k);
    } else {
      assert FilterByTag(rest, tag) == [ds[from]] + FilterByTag(ds[from + 1..], tag);
      assert MatchesFrom(ds, tag, from) == [from] + MatchesFrom(ds, tag, from + 1);
      if k > 0 {
        FilterAtFrom(ds, tag, from + 1, k - 1);
      }
    }
  }

  /** One kept droplet per matching position. */
  lemma FilterLength(ds: seq<Droplet>, tag: string)
    ensures |FilterByTag(ds, tag)| == |MatchIndices(ds, tag)|
  {
    assert ds[0..] == ds;
    FilterLengthFrom(ds, tag, 0);
  }

  /** The k-th kept droplet is the droplet at the k-th matching position, so the
      filter keeps listing order. */
  lemma FilterAt(ds: seq<Droplet>, tag: string, k: nat)
    requires k < |MatchIndices(ds, tag)|
    ensures k < |FilterByTag(ds, tag)|
    ensures FilterByTag(ds, tag)[k] == ds[MatchIndices(ds, tag)[k]]
  {
    assert ds[0..] == ds;
    FilterAtFrom(ds, tag, 0, k);
  }

  /** `FilterAt` for every matching position at once. */
  lemma FilterAtAll(ds: seq<Droplet>, tag: string)
    ensures |FilterByTag(ds, tag)| == |MatchIndices(ds, tag)|
    ensures forall k :: 0 <= k < |MatchIndices(ds, tag)| ==>
      FilterByTag(ds, tag)[k] == ds[MatchIndices(ds, tag)[k]]
  {
    FilterLength(ds, tag);
    forall k | 0 <= k < |MatchIndices(ds, tag)| {
      FilterAt(ds, tag, k);
    }
  }

  /** The distinct entries of an index sequence. */
  ghost function Elems(idx: seq<nat>): set<nat> {
    if idx == [] then {} else {idx[0]} + Elems(idx[1..])
  }

  /** `Elems` holds exactly the entries of the sequence. */
  lemma {:induction false} ElemsMembers(idx: seq<nat>)
    ensures forall x :: x in Elems(idx) <==> x in idx
  {
    if idx != [] {
      ElemsMembers(idx[1..]);
      assert idx == [idx[0]] + idx[1..];
    }
  }

  /** A strictly increasing sequence has as many distinct entries as entries. */
  lemma {:induction false} IncreasingCard(idx: seq<nat>)
    requires Increasing(idx)
    ensures |Elems(idx)| == |idx|
  {
    if idx != [] {
      var tail := idx[1..];
      assert Increasing(tail);
      IncreasingCard(tail);
      ElemsMembers(tail);
      assert idx[0] !in tail;
    }
  }

  /** The number of kept droplets is the number of droplets whose tags include `tag`. */
  lemma FilterCount(ds: seq<Droplet>, tag: string)
    ensures |FilterByTag(ds, tag)| == |MatchSet(ds, tag)|
  {
    var idx := MatchIndices(ds, tag);
    FilterLength(ds, tag);
    IncreasingCard(idx);
    ElemsMembers(idx);
    assert Elems(idx) == MatchSet(ds, tag);
  }

  // ---------------------------------------------------------------------------
  // Properties of the first-public selection
  // ---------------------------------------------------------------------------

  /** `find` picks the first public entry: earlier non-public entries and later
      public entries play no part. */
  lemma {:induction false} FindPublicFirst(pre: seq<Net>, n: Net, post: seq<Net>)
    requires forall j :: 0 <= j < |pre| ==> !IsPublic(pre[j])
    requires IsPublic(n)
    ensures FindPublic(pre + [n] + post) == Some(n)
  {
    if pre == [] {
      assert (pre + [n] + post)[0] == n;
    } else {
      assert (pre + [n] + post)[1..] == pre[1..] + [n] + post;
      FindPublicFirst(pre[1..], n, post);
    }
  }

  /** The address chosen for a droplet is that of its first public entry. */
  lemma PublicIpIsFirst(d: Droplet, k: nat)
    requires k < |d.v4| && IsPublic(d.v4[k])
    requires forall j :: 0 <= j < k ==> !IsPublic(d.v4[j])
    ensures PublicIp(d) == Some(d.v4[k].ip)
  {
    assert d.v4 == d.v4[..k] + [d.v4[k]] + d.v4[k + 1..];
    FindPublicFirst(d.v4[..k], d.v4[k], d.v4[k + 1..]);
  }

  // ---------------------------------------------------------------------------
  // Properties of the map
  // ---------------------------------------------------------------------------

  /** Mapping distributes over concatenation, and fails exactly when a part fails. */
  lemma {:induction false} SelectAppend(a: seq<Droplet>, b: seq<Droplet>)
    ensures SelectIps(a + b).Success? <==> SelectIps(a).Success? && SelectIps(b).Success?
    ensures SelectIps(a + b).Success? ==>
      SelectIps(a + b).value == SelectIps(a).value + SelectIps(b).value
  {
    if a == [] {
      assert a + b == b;
    } else {
      assert (a + b)[0] == a[0];
      assert (a + b)[1..] == a[1..] + b;
      SelectAppend(a[1..], b);
      if SelectIps(a + b).Success? {
        var ip := PublicIp(a[0]).value;
        assert [ip] + (SelectIps(a[1..]).value + SelectIps(b).value)
            == ([ip] + SelectIps(a[1..]).value) + SelectIps(b).value;
      }
    }
  }

  // ---------------------------------------------------------------------------
  // Properties of the whole resolution
  // ---------------------------------------------------------------------------

  /** On success the output has one entry per droplet whose tags include `tag`. */
  lemma ResolveLength(ds: seq<Droplet>, tag: string)
    ensures Resolve(ds, tag).Success? ==> |Resolve(ds, tag).value| == |MatchSet(ds, tag)|
  {
    FilterCount(ds, tag);
  }

  /** Every published address is the first public address of a droplet that
      carries the tag; this follows from the contract of `Resolve`. */
  lemma ResolveSourced(ds: seq<Droplet>, tag: string)
    ensures Resolve(ds, tag).Success? ==>
      forall a :: a in Resolve(ds, tag).value ==>
        exists i :: 0 <= i < |ds| && HasTag(ds[i], tag) && PublicIp(ds[i]) == Some(a)
  {
  }

  /** No droplet carries the tag: the run succeeds with the empty list, not a
      failure; this follows from the contract of `Resolve`. */
  lemma ResolveNoMatch(ds: seq<Droplet>, tag: string)
    requires forall i :: 0 <= i < |ds| ==> !HasTag(ds[i], tag)
    ensures Resolve(ds, tag) == Success([])
  {
  }

  /** Resolving concatenated listings succeeds exactly when both parts succeed,
      and then yields the concatenated results. */
  lemma ResolveAppend(a: seq<Droplet>, b: seq<Droplet>, tag: string)
    ensures Resolve(a + b, tag).Success? <==> Resolve(a, tag).Success? && Resolve(b, tag).Success?
    ensures Resolve(a + b, tag).Success? ==>
      Resolve(a + b, tag).value == Resolve(a, tag).value + Resolve(b, tag).value
  {
    FilterAppend(a, b, tag);
    SelectAppend(FilterByTag(a, tag), FilterByTag(b, tag));
  }

  /** A droplet without the tag is never inspected: removing it, whatever its
      networks, leaves the outcome unchanged. */
  lemma ResolveSkipsUntagged(a: seq<Droplet>, d: Droplet, b: seq<Droplet>, tag: string)
    requires !HasTag(d, tag)
    ensures Resolve(a + [d] + b, tag) == Resolve(a + b, tag)
  {
    FilterAppend(a + [d], b, tag);
    FilterAppend(a, [d], tag);
    FilterAppend(a, b, tag);
    assert FilterByTag([d], tag) == [];
    assert FilterByTag(a, tag) + [] == FilterByTag(a, tag);
  }
}
