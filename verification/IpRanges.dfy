/** IPv4 ranges and their expansion into queue entries: web/utils/net.go and
    web/models/task.go. */
module IpRanges {
  type octet = x: int | 0 <= x < 256

  // What net.ParseIP makes of a text; NotIPv4 stands for nil and IPv6 addresses.
  datatype IP = IPv4(a: octet, b: octet, c: octet, d: octet) | NotIPv4

  function IP2Int(ip: IP): (n: int)
    requires ip.IPv4?
    ensures 0 <= n < 0x1_0000_0000
  {
    ip.a * 0x100_0000 + ip.b * 0x1_0000 + ip.c * 0x100 + ip.d
  }

  // The low 32 bits, byte by byte.
  function Int2IP(n: int): IP {
    IPv4((n / 0x100_0000) % 256, (n / 0x1_0000) % 256, (n / 0x100) % 256, n % 256)
  }

  lemma IPRoundTrip(ip: IP)
    requires ip.IPv4?
    ensures Int2IP(IP2Int(ip)) == ip
  {
    var n := IP2Int(ip);
    assert n / 0x100 == ip.a * 0x1_0000 + ip.b * 0x100 + ip.c;
    assert n / 0x1_0000 == ip.a * 0x100 + ip.b;
    assert n / 0x100_0000 == ip.a;
  }

  lemma IntRoundTrip(n: int)
    requires 0 <= n < 0x1_0000_0000
    ensures IP2Int(Int2IP(n)) == n
  {
    assert n / 0x100 == (n / 0x1_0000) * 256 + (n / 0x100) % 256;
    assert n / 0x1_0000 == (n / 0x100_0000) * 256 + (n / 0x1_0000) % 256;
  }

  // The addresses from one number to another, both included.
  function Interval(lo: int, hi: int): (ips: seq<IP>)
    ensures |ips| == if lo <= hi then hi - lo + 1 else 0
    decreases hi - lo
  {
    if lo > hi then [] else Interval(lo, hi - 1) + [Int2IP(hi)]
  }

  // The addresses of a range: none when the second address is not above the
  // first, not even for two equal ones.
  function Between(ip1: IP, ip2: IP): seq<IP>
    requires ip1.IPv4? && ip2.IPv4?
  {
    if IP2Int(ip2) > IP2Int(ip1) then Interval(IP2Int(ip1), IP2Int(ip2)) else []
  }

  // OutOfRange is the run-time panic on an address that has no four parts.
  datatype Range = Addresses(ips: seq<IP>) | OutOfRange

  method BetweenIP(ip1: IP, ip2: IP) returns (r: Range)
    ensures r == if ip1.IPv4? && ip2.IPv4? then Addresses(Between(ip1, ip2)) else OutOfRange
  {
    if ip1.NotIPv4? || ip2.NotIPv4? {
      return OutOfRange;
    }
    var ipint1, ipint2 := IP2Int(ip1), IP2Int(ip2);
    var res: seq<IP> := [];
    if ipint2 > ipint1 {
      ghost var start := ipint1;
      while ipint1 <= ipint2
        invariant start <= ipint1 <= ipint2 + 1
        invariant res == Interval(start, ipint1 - 1)
      {
        res := res + [Int2IP(ipint1)];
        ipint1 := ipint1 + 1;
      }
    }
    return Addresses(res);
  }

  lemma {:induction false} IntervalAt(lo: int, hi: int, i: nat)
    requires 0 <= lo && hi < 0x1_0000_0000 && i <= hi - lo
    ensures Interval(lo, hi)[i].IPv4? && IP2Int(Interval(lo, hi)[i]) == lo + i
    decreases hi - lo
  {
    if i < hi - lo {
      IntervalAt(lo, hi - 1, i);
    } else {
      IntRoundTrip(hi);
    }
  }

  // Numbers order the addresses by their parts, the first one first.
  lemma OrderOfParts(x: IP, y: IP)
    requires x.IPv4? && y.IPv4?
    ensures IP2Int(x) < IP2Int(y) <==>
      x.a < y.a || (x.a == y.a && (x.b < y.b || (x.b == y.b && (x.c < y.c || (x.c == y.c && x.d < y.d)))))
  {
  }

  // A range holds exactly the addresses between its ends, in ascending order
  // and each once; when the second end is not above the first, it holds none,
  // not even for two equal ends.
  lemma BetweenIsInterval(ip1: IP, ip2: IP, ip: IP)
    requires ip1.IPv4? && ip2.IPv4? && ip.IPv4?
    ensures ip in Between(ip1, ip2) <==> IP2Int(ip1) < IP2Int(ip2) && IP2Int(ip1) <= IP2Int(ip) <= IP2Int(ip2)
    ensures forall i, j :: 0 <= i < j < |Between(ip1, ip2)| ==>
      Between(ip1, ip2)[i].IPv4? && Between(ip1, ip2)[j].IPv4? && IP2Int(Between(ip1, ip2)[i]) < IP2Int(Between(ip1, ip2)[j])
  {
    hide IP2Int, Interval;
    var lo, hi := IP2Int(ip1), IP2Int(ip2);
    var ips := Between(ip1, ip2);
    forall i | 0 <= i < |ips|
      ensures ips[i].IPv4? && IP2Int(ips[i]) == lo + i
    {
      IntervalAt(lo, hi, i);
    }
    if lo < hi && lo <= IP2Int(ip) <= hi {
      var k := IP2Int(ip) - lo;
      IPRoundTrip(ip);
      IPRoundTrip(ips[k]);
    }
  }
}

/** The expansion of a task's hosts into queue entries. */
module TaskHosts {
  import opened IpRanges

  // An entry of the host list: a text without a dash, or one with dashes,
  // which is a range when it has two parts.
  datatype Host = Single(text: string) | Dashed(text: string, parts: seq<IP>)

  // Queue entries by address: of a single host, its text; of a range, an address.
  datatype Queued = ByText(text: string) | ByAddress(ip: IP)

  datatype Outcome = Saved | OutOfRangePanic

  function ByAddresses(ips: seq<IP>): (q: seq<Queued>)
    ensures |q| == |ips|
  {
    if ips == [] then [] else ByAddresses(ips[..|ips| - 1]) + [ByAddress(ips[|ips| - 1])]
  }

  // A range with an end that is no IPv4 address.
  predicate Broken(h: Host) {
    h.Dashed? && |h.parts| == 2 && !(h.parts[0].IPv4? && h.parts[1].IPv4?)
  }

  // The entries that one host adds to the queue.
  function Expanded(h: Host): seq<Queued>
    requires !Broken(h)
  {
    match h
    case Single(text) => [ByText(text)]
    case Dashed(_, parts) => if |parts| == 2 then ByAddresses(Between(parts[0], parts[1])) else []
  }

  // A host that repeats the text of an earlier one which added an entry.
  ghost predicate Repeats(hosts: seq<Host>, n: nat)
    requires n < |hosts| && forall i :: 0 <= i < n ==> !Broken(hosts[i])
  {
    exists i :: 0 <= i < n && hosts[i].text == hosts[n].text && Expanded(hosts[i]) != []
  }

  function AllExpanded(hosts: seq<Host>): seq<Queued>
    requires forall i :: 0 <= i < |hosts| ==> !Broken(hosts[i])
  {
    if hosts == [] then [] else AllExpanded(hosts[..|hosts| - 1]) + Expanded(hosts[|hosts| - 1])
  }

  class TaskQueue {
    var queue: seq<Queued>

    method AddQueue(q: Queued)
      modifies this
      ensures queue == old(queue) + [q]
    {
      queue := queue + [q];
    }

    // One range: its addresses are queued, and its text is noted for each.
    method AddRange(text: string, ips: seq<IP>, added: seq<string>) returns (added': seq<string>)
      modifies this
      ensures queue == old(queue) + ByAddresses(ips)
      ensures forall t :: t in added' <==> t in added || (t == text && ips != [])
    {
      added' := added;
      for i := 0 to |ips|
        invariant queue == old(queue) + ByAddresses(ips[..i])
        invariant forall t :: t in added' <==> t in added || (t == text && i > 0)
      {
        assert ips[..i + 1][..i] == ips[..i];
        AddQueue(ByAddress(ips[i]));
        added' := added' + [text];
      }
      assert ips[..|ips|] == ips;
    }

    // The loop of Save over the expanded host list: it stops at the first host
    // that repeats an earlier one, and panics at a range with a broken end.
    method SaveHosts(hosts: seq<Host>) returns (r: Outcome, ghost n: nat)
      modifies this
      ensures n <= |hosts| && forall i :: 0 <= i < n ==> !Broken(hosts[i])
      ensures forall i :: 0 <= i < n ==> !Repeats(hosts, i)
      ensures queue == old(queue) + AllExpanded(hosts[..n])
      ensures n == |hosts| ==> r.Saved?
      ensures n < |hosts| ==> if Repeats(hosts, n) then r.Saved? else Broken(hosts[n]) && r.OutOfRangePanic?
    {
      hide Expanded, Between;
      r := Saved;
      n := 0;
      var added: seq<string> := [];
      for k := 0 to |hosts|
        invariant n == k && r.Saved?
        invariant forall i :: 0 <= i < k ==> !Broken(hosts[i])
        invariant forall i :: 0 <= i < k ==> !Repeats(hosts, i)
        invariant queue == old(queue) + AllExpanded(hosts[..k])
        invariant forall t :: t in added <==> exists i :: 0 <= i < k && hosts[i].text == t && Expanded(hosts[i]) != []
      {
        var host := hosts[k];
        if host.text in added {
          return;
        }
        if Broken(host) {
          return OutOfRangePanic, n;
        }
        assert hosts[..k + 1][..k] == hosts[..k];
        ExpandedCases(host);
        match host {
          case Dashed(text, parts) =>
            if |parts| == 2 {
              var subIPs := BetweenIP(parts[0], parts[1]);
              added := AddRange(text, subIPs.ips, added);
            }
          case Single(text) =>
            AddQueue(ByText(text));
            added := added + [text];
        }
        n := n + 1;
      }
      assert hosts[..|hosts|] == hosts;
    }
  }

  lemma ExpandedCases(h: Host)
    requires !Broken(h)
    ensures h.Single? ==> Expanded(h) == [ByText(h.text)]
    ensures h.Dashed? && |h.parts| != 2 ==> Expanded(h) == []
    ensures h.Dashed? && |h.parts| == 2 ==>
      var ips := Between(h.parts[0], h.parts[1]);
      Expanded(h) == ByAddresses(ips) && (Expanded(h) == [] <==> ips == [])
  {
  }

  // A host that is a range adds its addresses, one entry each, in their order.
  lemma RangeExpands(h: Host, i: nat)
    requires h.Dashed? && |h.parts| == 2 && h.parts[0].IPv4? && h.parts[1].IPv4?
    requires i < |Between(h.parts[0], h.parts[1])|
    ensures |Expanded(h)| == |Between(h.parts[0], h.parts[1])|
    ensures Expanded(h)[i].ByAddress? && Expanded(h)[i].ip.IPv4? && IP2Int(Expanded(h)[i].ip) == IP2Int(h.parts[0]) + i
  {
    hide IP2Int, Interval;
    AddressAt(Between(h.parts[0], h.parts[1]), i);
    IntervalAt(IP2Int(h.parts[0]), IP2Int(h.parts[1]), i);
  }

  lemma {:induction false} AddressAt(ips: seq<IP>, i: nat)
    requires i < |ips|
    ensures ByAddresses(ips)[i] == ByAddress(ips[i])
  {
    if i < |ips| - 1 {
      AddressAt(ips[..|ips| - 1], i);
    }
  }

  // A list without ranges queues its texts as long as none repeats an earlier one.
  lemma {:induction false} SinglesExpand(hosts: seq<Host>, i: nat)
    requires forall j :: 0 <= j < |hosts| ==> hosts[j].Single?
    requires i < |hosts|
    ensures |AllExpanded(hosts)| == |hosts| && AllExpanded(hosts)[i] == ByText(hosts[i].text)
    ensures Repeats(hosts, i) <==> exists j :: 0 <= j < i && hosts[j].text == hosts[i].text
  {
    var n := |hosts| - 1;
    if n > 0 {
      SinglesExpand(hosts[..n], if i < n then i else 0);
    }
  }
}
