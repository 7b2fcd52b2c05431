// Name lookup and address conversion of the socket layer: IP addresses as the byte slices Go uses and as the
// records of `wasi:sockets`.
module HostLookup {
  import opened Common

  type Word = w: int | 0 <= w < 0x10000

  /** `ip-address`: four bytes, or eight 16-bit groups. */
  datatype IpAddress = Ipv4(bytes: seq<Byte>) | Ipv6(groups: seq<Word>)

  predicate IsAddress(a: IpAddress) {
    match a
    case Ipv4(bytes) => |bytes| == 4
    case Ipv6(groups) => |groups| == 8
  }

  /** The 16-bit group of two bytes, the first of which is the high one. */
  function Group(high: Byte, low: Byte): (w: Word)
    ensures w / 256 == high && w % 256 == low
  {
    high as int * 256 + low as int
  }

  /** `toSocketAddress` for a slice of 4 or 16 bytes. */
  method ToIpAddress(ip: seq<Byte>) returns (a: IpAddress)
    requires |ip| == 4 || |ip| == 16
    ensures IsAddress(a) && (a.Ipv4? <==> |ip| == 4)
    ensures Octets(a) == ip
    ensures a.Ipv6? ==> forall i | 0 <= i < 8 :: a.groups[i] == Group(ip[2 * i], ip[2 * i + 1])
  {
    if |ip| == 4 {
      return Ipv4(ip);
    }
    var groups: seq<Word> := [];
    for i := 0 to 8
      invariant |groups| == i && GroupOctets(groups) == ip[..2 * i]
      invariant forall k | 0 <= k < i :: groups[k] == Group(ip[2 * k], ip[2 * k + 1])
    {
      var group := Group(ip[2 * i], ip[2 * i + 1]);
      GroupAppended(groups, group);
      groups := groups + [group];
    }
    assert ip[..16] == ip;
    return Ipv6(groups);
  }

  lemma {:induction false} GroupAppended(groups: seq<Word>, group: Word)
    ensures GroupOctets(groups + [group]) == GroupOctets(groups) + [group / 256, group % 256]
  {
    if groups != [] {
      GroupAppended(groups[1..], group);
      assert (groups + [group])[1..] == groups[1..] + [group];
    }
  }

  /** The bytes of an address in network order. */
  function Octets(a: IpAddress): seq<Byte> {
    match a
    case Ipv4(bytes) => bytes
    case Ipv6(groups) => GroupOctets(groups)
  }

  function GroupOctets(groups: seq<Word>): seq<Byte> {
    if groups == [] then [] else [groups[0] / 256, groups[0] % 256] + GroupOctets(groups[1..])
  }

  lemma {:induction false} OctetAt(groups: seq<Word>, j: nat)
    requires j < 2 * |groups|
    ensures |GroupOctets(groups)| == 2 * |groups|
    ensures GroupOctets(groups)[j] == if j % 2 == 0 then groups[j / 2] / 256 else groups[j / 2] % 256
  {
    if j < 2 {
      OctetCount(groups);
    } else {
      OctetAt(groups[1..], j - 2);
      assert groups[1..][(j - 2) / 2] == groups[j / 2];
    }
  }

  lemma {:induction false} OctetCount(groups: seq<Word>)
    ensures |GroupOctets(groups)| == 2 * |groups|
  {
    if groups != [] {
      OctetCount(groups[1..]);
    }
  }

  /** `fromIPAddress`: shift every group into two bytes of a 16-byte slice. */
  method FromIpAddress(a: IpAddress) returns (ip: seq<Byte>)
    requires IsAddress(a)
    ensures ip == Octets(a)
    ensures a.Ipv4? ==> ip == a.bytes
    ensures a.Ipv6? ==> |ip| == 16 && forall i | 0 <= i < 8 ::
      ip[2 * i] == a.groups[i] / 256 && ip[2 * i + 1] == a.groups[i] % 256
  {
    match a {
      case Ipv4(bytes) => return bytes;
      case Ipv6(groups) =>
        var out := new Byte[16];
        for i := 0 to 8
          invariant forall j | 0 <= j < 2 * i ::
            out[j] == if j % 2 == 0 then groups[j / 2] / 256 else groups[j / 2] % 256
        {
          out[2 * i] := groups[i] / 256;
          out[2 * i + 1] := groups[i] % 256;
        }
        forall j | 0 <= j < 16
          ensures |GroupOctets(groups)| == 16 && GroupOctets(groups)[j] == out[j]
        {
          OctetAt(groups, j);
        }
        OctetCount(groups);
        return out[..];
    }
  }

  /** Different addresses have different bytes, so the conversions are inverse in both directions. */
  lemma OctetsIdentifyTheAddress(a: IpAddress, b: IpAddress)
    requires IsAddress(a) && IsAddress(b) && Octets(a) == Octets(b)
    ensures a == b
  {
    if a.Ipv6? {
      OctetCount(a.groups);
    }
    if b.Ipv6? {
      OctetCount(b.groups);
    }
    if a.Ipv6? && b.Ipv6? {
      forall i | 0 <= i < 8
        ensures a.groups[i] == b.groups[i]
      {
        OctetAt(a.groups, 2 * i);
        OctetAt(a.groups, 2 * i + 1);
        OctetAt(b.groups, 2 * i);
        OctetAt(b.groups, 2 * i + 1);
      }
    }
  }

  // --- lookup ----------------------------------------------------------------------

  /** One poll of the resolver: not yet, an address, the end, or a failure; `expired` is the caller's context. */
  datatype Poll = WouldBlock(expired: bool) | Resolved(address: IpAddress) | Finished | Broken

  datatype Error = ContextDone | ResolverFailed | NoAddresses | StillRunning

  predicate IsIpv4(ip: seq<Byte>) {
    |ip| == 4
  }

  function Select(ips: seq<seq<Byte>>, ipv4: bool): seq<seq<Byte>> {
    if ips == [] then []
    else
      var last := ips[|ips| - 1];
      Select(ips[..|ips| - 1], ipv4) + if IsIpv4(last) == ipv4 then [last] else []
  }

  function Reverse(ips: seq<seq<Byte>>): seq<seq<Byte>> {
    if ips == [] then [] else [ips[|ips| - 1]] + Reverse(ips[..|ips| - 1])
  }

  /** The addresses resolved before the resolver ended, in order of arrival. */
  function Arrived(polls: seq<Poll>): seq<seq<Byte>> {
    if polls == [] then []
    else
      var last := polls[|polls| - 1];
      Arrived(polls[..|polls| - 1]) + if last.Resolved? then [Octets(last.address)] else []
  }

  /** The order `lookup` returns: IPv4 latest first, then IPv6 in order of arrival. */
  function Preferred(arrived: seq<seq<Byte>>): seq<seq<Byte>> {
    Reverse(Select(arrived, true)) + Select(arrived, false)
  }

  /** Whether the loop goes on after a poll. */
  predicate GoesOn(p: Poll) {
    p.Resolved? || (p.WouldBlock? && !p.expired)
  }

  /** The loop stops at poll `k`, having gone on after every poll before it. */
  ghost predicate StopsAt(polls: seq<Poll>, k: nat) {
    k < |polls| && !GoesOn(polls[k]) && forall i | 0 <= i < k :: GoesOn(polls[i])
  }

  /** What a last poll makes of the addresses that arrived before it. */
  ghost function Answer(last: Poll, arrived: seq<seq<Byte>>): Result<seq<seq<Byte>>, Error> {
    match last
    case Finished => if arrived == [] then Err(NoAddresses) else Ok(Preferred(arrived))
    case Broken => Err(ResolverFailed)
    case _ => Err(ContextDone)
  }

  /** `lookup` over the resolver's polls; a run may stop before the resolver ends. */
  method Lookup(polls: seq<Poll>) returns (r: Result<seq<seq<Byte>>, Error>)
    requires forall p | p in polls && p.Resolved? :: IsAddress(p.address)
    ensures r == Err(StillRunning) <==> forall i | 0 <= i < |polls| :: GoesOn(polls[i])
    ensures r != Err(StillRunning) ==>
      exists k: nat :: StopsAt(polls, k) && r == Answer(polls[k], Arrived(polls[..k]))
    ensures r == Err(ContextDone) ==> exists k: nat :: StopsAt(polls, k) && polls[k] == WouldBlock(true)
    ensures r == Err(ResolverFailed) ==> exists k: nat :: StopsAt(polls, k) && polls[k] == Broken
    ensures r == Err(NoAddresses) ==>
      exists k: nat :: StopsAt(polls, k) && polls[k] == Finished && Arrived(polls[..k]) == []
    ensures r.Ok? ==> exists k: nat :: StopsAt(polls, k) && polls[k] == Finished && r.value != []
  {
    var out: seq<seq<Byte>> := [];
    for i := 0 to |polls|
      invariant out == Preferred(Arrived(polls[..i]))
      invariant forall k | 0 <= k < i :: GoesOn(polls[k])
    {
      assert polls[..i + 1][..i] == polls[..i] && polls[i] in polls;
      assert !GoesOn(polls[i]) ==> StopsAt(polls, i);
      match polls[i] {
        case WouldBlock(expired) =>
          if expired {
            return Err(ContextDone);
          }
          assert Arrived(polls[..i]) + [] == Arrived(polls[..i]);
        case Broken =>
          return Err(ResolverFailed);
        case Finished =>
          PreferredLength(Arrived(polls[..i]));
          if out == [] {
            return Err(NoAddresses);
          }
          return Ok(out);
        case Resolved(address) =>
          var ip := FromIpAddress(address);
          PreferredGrows(Arrived(polls[..i]), ip);
          assert Arrived(polls[..i + 1]) == Arrived(polls[..i]) + [ip];
          if |ip| == 4 {
            out := [ip] + out;
          } else {
            out := out + [ip];
          }
      }
    }
    return Err(StillRunning);
  }

  lemma {:induction false} PreferredLength(arrived: seq<seq<Byte>>)
    ensures |Preferred(arrived)| == |arrived|
  {
    if arrived != [] {
      var init, last := arrived[..|arrived| - 1], arrived[|arrived| - 1];
      assert arrived == init + [last];
      PreferredLength(init);
      PreferredGrows(init, last);
    }
  }

  /** A new IPv4 address goes to the front, a new IPv6 address to the back. */
  lemma PreferredGrows(arrived: seq<seq<Byte>>, ip: seq<Byte>)
    ensures Preferred(arrived + [ip]) ==
      if IsIpv4(ip) then [ip] + Preferred(arrived) else Preferred(arrived) + [ip]
  {
    var more := arrived + [ip];
    assert more[..|more| - 1] == arrived;
    var v4 := Select(arrived, true);
    if IsIpv4(ip) {
      assert Select(more, true)[..|v4|] == v4;
      assert Select(more, false) == Select(arrived, false);
    } else {
      assert Select(more, true) == v4;
    }
  }

  /** Nothing is lost or invented by the order. */
  lemma {:induction false} PreferredPermutes(arrived: seq<seq<Byte>>)
    ensures multiset(Preferred(arrived)) == multiset(arrived)
  {
    if arrived != [] {
      var init, last := arrived[..|arrived| - 1], arrived[|arrived| - 1];
      assert arrived == init + [last];
      PreferredPermutes(init);
      PreferredGrows(init, last);
    }
  }

  /** Within a family the order is the reverse of arrival for IPv4 and the order of arrival for IPv6. */
  lemma {:induction false} FamiliesKeepTheirOrder(arrived: seq<seq<Byte>>)
    ensures Select(Preferred(arrived), true) == Reverse(Select(arrived, true))
    ensures Select(Preferred(arrived), false) == Select(arrived, false)
  {
    var v4, v6 := Select(arrived, true), Select(arrived, false);
    SelectedAreAlike(arrived, true);
    SelectedAreAlike(arrived, false);
    ReversedAreAlike(v4);
    SelectConcat(Reverse(v4), v6, true);
    SelectConcat(Reverse(v4), v6, false);
    SelectFromAlike(Reverse(v4), true);
    SelectFromAlike(v6, false);
  }

  lemma {:induction false} SelectedAreAlike(ips: seq<seq<Byte>>, ipv4: bool)
    ensures forall ip | ip in Select(ips, ipv4) :: IsIpv4(ip) == ipv4
  {
    if ips != [] {
      SelectedAreAlike(ips[..|ips| - 1], ipv4);
    }
  }

  lemma {:induction false} ReversedAreAlike(ips: seq<seq<Byte>>)
    ensures forall ip | ip in Reverse(ips) :: ip in ips
  {
    if ips != [] {
      ReversedAreAlike(ips[..|ips| - 1]);
    }
  }

  lemma {:induction false} SelectFromAlike(ips: seq<seq<Byte>>, ipv4: bool)
    requires forall ip | ip in ips :: IsIpv4(ip) == ipv4
    ensures Select(ips, ipv4) == ips && Select(ips, !ipv4) == []
  {
    if ips != [] {
      SelectFromAlike(ips[..|ips| - 1], ipv4);
    }
  }

  lemma {:induction false} SelectConcat(a: seq<seq<Byte>>, b: seq<seq<Byte>>, ipv4: bool)
    ensures Select(a + b, ipv4) == Select(a, ipv4) + Select(b, ipv4)
  {
    if b == [] {
      assert a + b == a;
    } else {
      SelectConcat(a, b[..|b| - 1], ipv4);
      assert (a + b)[..|a + b| - 1] == a + b[..|b| - 1];
    }
  }

  /** Every IPv4 address comes before every IPv6 address. */
  lemma {:induction false} Ipv4ComesFirst(arrived: seq<seq<Byte>>, i: nat, j: nat)
    requires i < j < |Preferred(arrived)| && IsIpv4(Preferred(arrived)[j])
    ensures IsIpv4(Preferred(arrived)[i])
  {
    var init, last := arrived[..|arrived| - 1], arrived[|arrived| - 1];
    assert arrived == init + [last];
    PreferredGrows(init, last);
    if IsIpv4(last) {
      if i > 0 {
        Ipv4ComesFirst(init, i - 1, j - 1);
      }
    } else {
      Ipv4ComesFirst(init, i, j);
    }
  }
}
